/** The row a whole save leaves behind for an object: what the row held before,
    with the foreign keys of the object's writes laid over it in order. */
module CascadeSaveRows {
  import opened Metadata
  import opened CascadeSave
  import opened CascadeSaveProofs

  /** The key of the row that `x` was last written to. */
  function LoggedKey(log: seq<Write>, x: Ref): Option<Key> {
    if log == [] then None
    else if log[|log| - 1].ref == x then Some(log[|log| - 1].id.key)
    else LoggedKey(log[..|log| - 1], x)
  }

  /** The key of an object's row: while its dependents are being saved, a new
      object has one in the log but not on itself. */
  function RowKey(w: World, x: Ref): Option<Key> {
    if KeyOf(w, x).Some? then KeyOf(w, x) else LoggedKey(w.log, x)
  }

  /** The cells of the writes of `x`, later ones over earlier ones. */
  function Merged(log: seq<Write>, x: Ref): map<string, Key> {
    if log == [] then map[]
    else
      var last := log[|log| - 1];
      var rest := Merged(log[..|log| - 1], x);
      if last.ref == x then rest + last.cells else rest
  }

  // --------------------------------------------------------------- invariant

  /** No other object of the graph has the row of `b`. */
  ghost predicate OwnRow(g: Graph, w: World, b: Ref)
    requires b in g
  {
    forall x | x in g && x != b && g[x].entity == g[b].entity && RowKey(w, x).Some? :: RowKey(w, x) != RowKey(w, b)
  }

  ghost predicate KeysBelow(g: Graph, w: World) {
    forall x | x in g && RowKey(w, x).Some? :: RowKey(w, x).value < w.nextKey
  }

  ghost predicate RowShows(g: Graph, w: World, b: Ref, base: map<string, Key>)
    requires b in g
  {
    if RowKey(w, b).None? then base == map[] && Merged(w.log, b) == map[]
    else
      var id := Id(g[b].entity, RowKey(w, b).value);
      id in w.rows && w.rows[id] == base + Merged(w.log, b)
  }

  /** An object written without its key on it is on the chain. */
  ghost predicate PendingOnChain(w: World, chain: set<Ref>) {
    forall x {:trigger LoggedKey(w.log, x)} :: LoggedKey(w.log, x).Some? && KeyOf(w, x).None? ==> x in chain
  }

  ghost predicate Tidy(g: Graph, w: World, chain: set<Ref>, b: Ref, base: map<string, Key>) {
    b in g && OwnRow(g, w, b) && KeysBelow(g, w) && RowShows(g, w, b, base) && PendingOnChain(w, chain)
  }

  // ---------------------------------------------------------------- one step

  lemma {:induction false} UnwrittenKey(a: seq<Write>, c: seq<Write>, x: Ref)
    requires a <= c && x !in Written(a, c)
    ensures LoggedKey(c, x) == LoggedKey(a, x)
    decreases |c|
  {
    if |c| > |a| {
      var front := c[..|c| - 1];
      assert c[|c| - 1].ref in Written(a, c);
      forall y | y in Written(a, front) ensures y in Written(a, c) {
        var i :| |a| <= i < |front| && front[i].ref == y;
        assert c[i].ref == y;
      }
      UnwrittenKey(a, front, x);
    } else {
      assert a == c;
    }
  }

  /** A step that keeps the keys, the log and the rows. */
  lemma QuietIsTidy(g: Graph, w: World, w': World, chain: set<Ref>, b: Ref, base: map<string, Key>)
    requires Tidy(g, w, chain, b, base) && w'.log == w.log && w'.rows == w.rows && w'.nextKey == w.nextKey
    requires forall x :: RowKey(w', x) == RowKey(w, x)
    requires forall x {:trigger KeyOf(w', x)} :: KeyOf(w, x).Some? ==> KeyOf(w', x).Some?
    ensures Tidy(g, w', chain, b, base)
  {}

  lemma CopyKeyIsTidy(g: Graph, w: World, v: Ref, u: Up, chain: set<Ref>, b: Ref, base: map<string, Key>)
    requires Tidy(g, w, chain, b, base)
    ensures Tidy(g, CopyKey(w, v, u), chain, b, base)
  {
    var w' := CopyKey(w, v, u);
    forall x ensures KeyOf(w', x) == KeyOf(w, x) && RowKey(w', x) == RowKey(w, x) {}
    QuietIsTidy(g, w, w', chain, b, base);
  }

  lemma AssignFkIsTidy(g: Graph, w: World, d: Down, key: Key, chain: set<Ref>, b: Ref, base: map<string, Key>)
    requires Tidy(g, w, chain, b, base)
    ensures Tidy(g, AssignFk(w, d.target, d.keys, key), chain, b, base)
  {
    var w' := AssignFk(w, d.target, d.keys, key);
    forall x ensures KeyOf(w', x) == KeyOf(w, x) && RowKey(w', x) == RowKey(w, x) {}
    QuietIsTidy(g, w, w', chain, b, base);
  }

  /** The object last written gets the key of its row. */
  lemma KeyIsTidy(g: Graph, w: World, v: Ref, key: Key, chain: set<Ref>, b: Ref, base: map<string, Key>)
    requires Tidy(g, w, chain + {v}, b, base) && RowKey(w, v) == Some(key)
    ensures Tidy(g, AssignKey(w, v, key), chain, b, base)
  {
    var w' := AssignKey(w, v, key);
    forall x ensures RowKey(w', x) == RowKey(w, x) && (x != v ==> KeyOf(w', x) == KeyOf(w, x)) {}
    QuietIsTidy(g, w, w', chain + {v}, b, base);
    assert KeyOf(w', v).Some?;
  }

  /** After a write: its object's row has the saved key, other rows keep theirs. */
  lemma RowKeyAfter(schema: Schema, w: World, v: Ref, links: Links, x: Ref)
    requires KeyOf(w, v).None? ==> LoggedKey(w.log, v).None?
    ensures RowKey(WriteRow(schema, w, v, links), x) == if x == v then Some(SavedKey(w, v)) else RowKey(w, x)
    ensures Merged(WriteRow(schema, w, v, links).log, x)
            == if x == v then Merged(w.log, x) + RowCells(schema, w, v, links) else Merged(w.log, x)
    ensures LoggedKey(WriteRow(schema, w, v, links).log, x)
            == if x == v then Some(SavedKey(w, v)) else LoggedKey(w.log, x)
  {
    var w' := WriteRow(schema, w, v, links);
    assert w'.log[..|w'.log| - 1] == w.log;
  }

  lemma WriteIsTidy(schema: Schema, g: Graph, w: World, v: Ref, chain: set<Ref>, b: Ref, base: map<string, Key>)
    requires Tidy(g, w, chain, b, base) && v in g && v in chain
    requires KeyOf(w, v).None? ==> LoggedKey(w.log, v).None?
    ensures Tidy(g, WriteRow(schema, w, v, g[v]), chain, b, base)
  {
    var w' := WriteRow(schema, w, v, g[v]);
    forall x ensures RowKey(w', x) == (if x == v then Some(SavedKey(w, v)) else RowKey(w, x)) {
      RowKeyAfter(schema, w, v, g[v], x);
    }
    forall x ensures LoggedKey(w'.log, x) == (if x == v then Some(SavedKey(w, v)) else LoggedKey(w.log, x)) {
      RowKeyAfter(schema, w, v, g[v], x);
    }
    RowKeyAfter(schema, w, v, g[v], b);
    assert KeyOf(w, v).Some? ==> RowKey(w, v) == Some(SavedKey(w, v));
    WriteKeepsRow(schema, g, w, v, b, base);
  }

  lemma WriteKeepsRow(schema: Schema, g: Graph, w: World, v: Ref, b: Ref, base: map<string, Key>)
    requires b in g && v in g && OwnRow(g, w, b) && KeysBelow(g, w) && RowShows(g, w, b, base)
    requires KeyOf(w, v).None? ==> LoggedKey(w.log, v).None?
    ensures RowShows(g, WriteRow(schema, w, v, g[v]), b, base)
  {
    if v != b {
      OtherWriteKeepsRow(schema, g, w, v, b, base);
    } else if KeyOf(w, v).None? {
      InsertShows(schema, g, w, b, base);
    } else {
      UpdateShows(schema, g, w, b, base);
    }
  }

  lemma OtherWriteKeepsRow(schema: Schema, g: Graph, w: World, v: Ref, b: Ref, base: map<string, Key>)
    requires b in g && v in g && v != b && OwnRow(g, w, b) && KeysBelow(g, w) && RowShows(g, w, b, base)
    requires KeyOf(w, v).None? ==> LoggedKey(w.log, v).None?
    ensures RowShows(g, WriteRow(schema, w, v, g[v]), b, base)
  {
    RowKeyAfter(schema, w, v, g[v], b);
    if RowKey(w, b).Some? {
      assert KeyOf(w, v).Some? ==> RowKey(w, v) == Some(SavedKey(w, v));
      assert Id(g[b].entity, RowKey(w, b).value) != Id(g[v].entity, SavedKey(w, v));
    }
  }

  lemma InsertShows(schema: Schema, g: Graph, w: World, b: Ref, base: map<string, Key>)
    requires b in g && RowShows(g, w, b, base) && KeyOf(w, b).None? && LoggedKey(w.log, b).None?
    ensures RowShows(g, WriteRow(schema, w, b, g[b]), b, base)
  {
    RowKeyAfter(schema, w, b, g[b], b);
    var cells := RowCells(schema, w, b, g[b]);
    assert map[] + (map[] + cells) == cells;
  }

  lemma UpdateShows(schema: Schema, g: Graph, w: World, b: Ref, base: map<string, Key>)
    requires b in g && RowShows(g, w, b, base) && KeyOf(w, b).Some?
    ensures RowShows(g, WriteRow(schema, w, b, g[b]), b, base)
  {
    RowKeyAfter(schema, w, b, g[b], b);
    var cells := RowCells(schema, w, b, g[b]);
    LayeredInOrder(base, Merged(w.log, b), cells);
  }

  lemma LayeredInOrder(a: map<string, Key>, b: map<string, Key>, c: map<string, Key>)
    ensures (a + b) + c == a + (b + c)
  {}

  // --------------------------------------------------------------- whole runs

  lemma {:induction false} SaveIsTidy(schema: Schema, g: Graph, w: World, v: Ref, chain: set<Ref>, b: Ref,
                                      base: map<string, Key>)
    returns (w': World)
    requires Complete(g) && v in g && v !in chain && Tidy(g, w, chain, b, base)
    ensures w' == Save(schema, g, w, v, chain) && Tidy(g, w', chain, b, base)
    decreases |g.Keys - chain|, 0
  {
    FewerLeft(g.Keys, chain, v);
    LinksInside(schema, g, v);
    GraphIsClosed(schema, g);
    var inside := chain + {v};
    assert PendingOnChain(w, inside);
    var w1 := UpsAreTidy(schema, g, w, v, Ups(schema, g[v]), inside, b, base);
    var c1 := UpsCovered(schema, g, w, v, Ups(schema, g[v]), inside, g.Keys);
    UnwrittenKey(w.log, w1.log, v);
    assert KeyOf(w1, v) == KeyOf(w, v);
    var w2 := WriteRow(schema, w1, v, g[v]);
    WriteIsTidy(schema, g, w1, v, inside, b, base);
    RowKeyAfter(schema, w1, v, g[v], v);
    var w3 := DownsAreTidy(schema, g, w2, SavedKey(w1, v), Downs(schema, g[v]), inside, b, base);
    var c3 := DownsCovered(schema, g, w2, SavedKey(w1, v), Downs(schema, g[v]), inside, g.Keys);
    UnwrittenKey(w2.log, w3.log, v);
    assert KeyOf(w3, v) == KeyOf(w2, v);
    w' := AssignKey(w3, v, SavedKey(w1, v));
    KeyIsTidy(g, w3, v, SavedKey(w1, v), chain, b, base);
  }

  lemma {:induction false} UpsAreTidy(schema: Schema, g: Graph, w: World, v: Ref, ups: seq<Up>, chain: set<Ref>, b: Ref,
                                      base: map<string, Key>)
    returns (w': World)
    requires Complete(g) && Inside(g, ups, []) && Tidy(g, w, chain, b, base)
    ensures w' == SaveUps(schema, g, w, v, ups, chain) && Tidy(g, w', chain, b, base)
    decreases |g.Keys - chain|, 1 + |ups|
  {
    if ups == [] {
      w' := w;
    } else if ups[0].target in chain {
      w' := UpsAreTidy(schema, g, w, v, ups[1..], chain, b, base);
    } else {
      var w1 := SaveIsTidy(schema, g, w, ups[0].target, chain, b, base);
      CopyKeyIsTidy(g, w1, v, ups[0], chain, b, base);
      w' := UpsAreTidy(schema, g, CopyKey(w1, v, ups[0]), v, ups[1..], chain, b, base);
    }
  }

  lemma {:induction false} DownsAreTidy(schema: Schema, g: Graph, w: World, key: Key, downs: seq<Down>, chain: set<Ref>,
                                        b: Ref, base: map<string, Key>)
    returns (w': World)
    requires Complete(g) && Inside(g, [], downs) && Tidy(g, w, chain, b, base)
    ensures w' == SaveDowns(schema, g, w, key, downs, chain) && Tidy(g, w', chain, b, base)
    decreases |g.Keys - chain|, 1 + |downs|
  {
    if downs == [] {
      w' := w;
    } else if downs[0].target in chain {
      w' := DownsAreTidy(schema, g, w, key, downs[1..], chain, b, base);
    } else {
      var d := downs[0];
      AssignFkIsTidy(g, w, d, key, chain, b, base);
      var w1 := SaveIsTidy(schema, g, AssignFk(w, d.target, d.keys, key), d.target, chain, b, base);
      w' := DownsAreTidy(schema, g, w1, key, downs[1..], chain, b, base);
    }
  }

  // ------------------------------------------------------------ the final row

  /** A caller may save `b`: its key is no other object's, keys on objects were
      generated, and a row it claims to have is stored. */
  ghost predicate Ready(g: Graph, w: World, b: Ref) {
    && b in g && w.log == []
    && (forall x | x in g && KeyOf(w, x).Some? :: KeyOf(w, x).value < w.nextKey)
    && (forall x | x in g && x != b && g[x].entity == g[b].entity && KeyOf(w, x).Some? :: KeyOf(w, x) != KeyOf(w, b))
    && (KeyOf(w, b).Some? ==> Id(g[b].entity, KeyOf(w, b).value) in w.rows)
  }

  /** The foreign keys of the row an object has. */
  function RowOf(g: Graph, w: World, b: Ref): (row: map<string, Key>)
    requires b in g
  {
    if KeyOf(w, b).None? then map[]
    else
      var id := Id(g[b].entity, KeyOf(w, b).value);
      if id in w.rows then w.rows[id] else map[]
  }

  lemma ReadyIsTidy(g: Graph, w: World, b: Ref)
    requires Ready(g, w, b)
    ensures Tidy(g, w, {}, b, RowOf(g, w, b))
  {
    forall x ensures RowKey(w, x) == KeyOf(w, x) && Merged(w.log, x) == map[] {}
    assert RowOf(g, w, b) + map[] == RowOf(g, w, b);
  }

  /** The row an object ends with: the one it had, under its writes in order. */
  lemma RowIsItsWrites(schema: Schema, g: Graph, w: World, root: Ref, b: Ref) returns (w': World)
    requires Complete(g) && root in g && Ready(g, w, b)
    ensures w' == Save(schema, g, w, root, {})
    ensures KeyOf(w', b).Some? ==> Id(g[b].entity, KeyOf(w', b).value) in w'.rows
    ensures RowOf(g, w', b) == RowOf(g, w, b) + Merged(w'.log, b)
  {
    ReadyIsTidy(g, w, b);
    w' := SaveIsTidy(schema, g, w, root, {}, b, RowOf(g, w, b));
    TidyRow(g, w', b, RowOf(g, w, b));
  }

  lemma TidyRow(g: Graph, w: World, b: Ref, base: map<string, Key>)
    requires Tidy(g, w, {}, b, base)
    ensures KeyOf(w, b).Some? ==> Id(g[b].entity, KeyOf(w, b).value) in w.rows
    ensures RowOf(g, w, b) == base + Merged(w.log, b)
  {
    if KeyOf(w, b).None? {
      assert LoggedKey(w.log, b).None?;
      assert RowKey(w, b).None?;
    } else {
      assert RowKey(w, b) == KeyOf(w, b);
    }
  }

  /** A column is in the merged cells when some write has it ... */
  lemma {:induction false} MergedHas(log: seq<Write>, b: Ref, i: nat, column: string)
    requires i < |log| && log[i].ref == b && column in log[i].cells
    ensures column in Merged(log, b)
    decreases |log|
  {
    if i < |log| - 1 { MergedHas(log[..|log| - 1], b, i, column); }
  }

  /** ... and only then. */
  lemma {:induction false} MergedLacks(log: seq<Write>, b: Ref, column: string)
    requires forall i :: 0 <= i < |log| && log[i].ref == b ==> column !in log[i].cells
    ensures column !in Merged(log, b)
    decreases |log|
  {
    if log != [] {
      var last := |log| - 1;
      assert log[last].ref == b ==> column !in log[last].cells;
      MergedLacks(log[..last], b, column);
    }
  }

  /** What every write from some point on holds is what the row ends with. */
  lemma {:induction false} MergedEndsWith(log: seq<Write>, b: Ref, i: nat, column: string, key: Key)
    requires i < |log| && log[i].ref == b
    requires forall j :: i <= j < |log| && log[j].ref == b ==> column in log[j].cells && log[j].cells[column] == key
    ensures column in Merged(log, b) && Merged(log, b)[column] == key
    decreases |log|
  {
    var last := |log| - 1;
    assert log[last].ref == b ==> column in log[last].cells && log[last].cells[column] == key;
    if i < last { MergedEndsWith(log[..last], b, i, column, key); }
  }
}
