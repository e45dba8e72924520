/** What every cascading save keeps, and what a whole run achieves. */
module CascadeSaveProofs {
  import opened Metadata
  import opened Digraphs
  import opened CascadeSave

  /** The objects written between two states of the log. */
  function Written(before: seq<Write>, after: seq<Write>): set<Ref> {
    set i | |before| <= i < |after| :: after[i].ref
  }

  lemma WrittenInSequence(a: seq<Write>, b: seq<Write>, c: seq<Write>)
    requires a <= b <= c
    ensures Written(a, c) == Written(a, b) + Written(b, c)
  {
    forall x | x in Written(a, b) ensures x in Written(a, c) {
      var i :| |a| <= i < |b| && b[i].ref == x;
      assert c[i] == b[i];
    }
    forall x | x in Written(a, c) ensures x in Written(a, b) + Written(b, c) {
      var i :| |a| <= i < |c| && c[i].ref == x;
      if i < |b| { assert b[i] == c[i]; }
    }
  }

  /** A save of `a` leads to a save of `b`. */
  predicate LeadsTo(schema: Schema, g: Graph, a: Ref, b: Ref)
    requires a in g
  {
    (exists u :: u in Ups(schema, g[a]) && u.target == b) || (exists d :: d in Downs(schema, g[a]) && d.target == b)
  }

  function SaveEdges(schema: Schema, g: Graph): Edges<Ref> {
    set a, b | a in g && b in g && LeadsTo(schema, g, a, b) :: (a, b)
  }

  // ------------------------------------------- what a save leaves and covers

  /** A step below the chain: it adds to the log, writes nothing on the chain,
      changes at most `touched` there and takes no key away. */
  ghost predicate Below(w: World, w': World, chain: set<Ref>, touched: set<Ref>) {
    && w.log <= w'.log
    && Written(w.log, w'.log) !! chain
    && (forall x {:trigger ObjOf(w', x)} :: x in chain && x !in touched ==> ObjOf(w', x) == ObjOf(w, x))
    && (forall x {:trigger KeyOf(w', x)} :: x in chain ==> KeyOf(w', x) == KeyOf(w, x))
    && (forall x {:trigger KeyOf(w', x)} :: KeyOf(w, x).Some? ==> KeyOf(w', x) == KeyOf(w, x))
  }

  /** Every object written on the way has its key. */
  ghost predicate Keyed(w: World, w': World) {
    forall x {:trigger KeyOf(w', x)} :: x in Written(w.log, w'.log) ==> KeyOf(w', x).Some?
  }

  /** What was written leads to what was written, or up the chain. */
  ghost predicate Covered(edges: Edges<Ref>, written: set<Ref>, chain: set<Ref>) {
    forall a, b :: (a, b) in edges && a in written ==> b in written || b in chain
  }

  lemma BelowInSequence(a: World, b: World, c: World, chain: set<Ref>, touched: set<Ref>)
    requires Below(a, b, chain, touched) && Below(b, c, chain, touched)
    ensures Below(a, c, chain, touched)
    ensures Written(a.log, c.log) == Written(a.log, b.log) + Written(b.log, c.log)
    ensures Keyed(a, b) && Keyed(b, c) ==> Keyed(a, c)
  {
    WrittenInSequence(a.log, b.log, c.log);
    forall x ensures KeyOf(b, x).Some? ==> KeyOf(c, x) == KeyOf(b, x) {}
  }

  /** A save writes its object and everything the cascade leads to from there,
      up to the objects already being saved, and nothing else. */
  lemma {:induction false} SaveCovers(schema: Schema, g: Graph, w: World, v: Ref, chain: set<Ref>, s: set<Ref>)
    returns (w': World)
    requires Complete(g) && v in g && v !in chain
    requires ClosedUnder(SaveEdges(schema, g), s) && v in s
    ensures w' == Save(schema, g, w, v, chain)
    ensures Below(w, w', chain, {}) && Keyed(w, w')
    ensures v in Written(w.log, w'.log) && Written(w.log, w'.log) <= s
    ensures Covered(SaveEdges(schema, g), Written(w.log, w'.log), chain)
    decreases |g.Keys - chain|, 0
  {
    FewerLeft(g.Keys, chain, v);
    LinksInside(schema, g, v);
    var inside := chain + {v};
    var ups, downs := Ups(schema, g[v]), Downs(schema, g[v]);
    TargetsClosed(schema, g, v, s);
    var w1 := UpsCovered(schema, g, w, v, ups, inside, s);
    var w2 := WriteRow(schema, w1, v, g[v]);
    var w3 := DownsCovered(schema, g, w2, SavedKey(w1, v), downs, inside, s);
    w' := AssignKey(w3, v, SavedKey(w1, v));
    SaveComposes(schema, g, w, w1, w2, w3, w', v, chain);
    OwnEdgesCovered(schema, g, v, chain, Written(w.log, w1.log), Written(w2.log, w3.log));
  }

  lemma OwnEdgesCovered(schema: Schema, g: Graph, v: Ref, chain: set<Ref>, up: set<Ref>, down: set<Ref>)
    requires v in g
    requires Covered(SaveEdges(schema, g), up, chain + {v}) && Covered(SaveEdges(schema, g), down, chain + {v})
    requires forall u :: u in Ups(schema, g[v]) ==> u.target in up + (chain + {v})
    requires forall d :: d in Downs(schema, g[v]) ==> d.target in down + (chain + {v})
    ensures Covered(SaveEdges(schema, g), up + {v} + down, chain)
  {}

  lemma TargetsClosed(schema: Schema, g: Graph, v: Ref, s: set<Ref>)
    requires Complete(g) && v in g && v in s && ClosedUnder(SaveEdges(schema, g), s)
    ensures forall u :: u in Ups(schema, g[v]) ==> u.target in s
    ensures forall d :: d in Downs(schema, g[v]) ==> d.target in s
  {
    LinksInside(schema, g, v);
    forall u | u in Ups(schema, g[v]) ensures u.target in s {
      assert LeadsTo(schema, g, v, u.target);
      assert (v, u.target) in SaveEdges(schema, g);
    }
    forall d | d in Downs(schema, g[v]) ensures d.target in s {
      assert LeadsTo(schema, g, v, d.target);
      assert (v, d.target) in SaveEdges(schema, g);
    }
  }

  lemma WrittenAround(a: seq<Write>, b: seq<Write>, c: seq<Write>, d: seq<Write>, v: Ref)
    requires a <= b && c <= d && |c| == |b| + 1 && b <= c && c[|b|].ref == v
    ensures a <= d && Written(a, d) == Written(a, b) + {v} + Written(c, d)
  {
    assert Written(b, c) == {v};
    WrittenInSequence(a, b, c);
    WrittenInSequence(a, c, d);
  }

  lemma SaveComposes(schema: Schema, g: Graph, w: World, w1: World, w2: World, w3: World, w': World,
                     v: Ref, chain: set<Ref>)
    requires v in g && v !in chain
    requires Below(w, w1, chain + {v}, {v}) && Keyed(w, w1)
    requires w2 == WriteRow(schema, w1, v, g[v])
    requires Below(w2, w3, chain + {v}, {}) && Keyed(w2, w3)
    requires w' == AssignKey(w3, v, SavedKey(w1, v))
    ensures Below(w, w', chain, {}) && Keyed(w, w')
    ensures Written(w.log, w'.log) == Written(w.log, w1.log) + {v} + Written(w2.log, w3.log)
  {
    WrittenAround(w.log, w1.log, w2.log, w3.log, v);
    assert KeyOf(w1, v).Some? ==> KeyOf(w3, v) == KeyOf(w1, v);
    forall x ensures KeyOf(w1, x).Some? ==> KeyOf(w3, x) == KeyOf(w1, x) {}
    forall x ensures KeyOf(w3, x).Some? ==> KeyOf(w', x) == KeyOf(w3, x) {}
    forall x | x in chain ensures ObjOf(w', x) == ObjOf(w, x) {
      assert x in chain + {v} && x != v;
      assert ObjOf(w1, x) == ObjOf(w, x);
      assert ObjOf(w3, x) == ObjOf(w2, x);
    }
  }

  lemma CopyKeyBelow(w: World, v: Ref, u: Up, chain: set<Ref>)
    requires v in chain
    ensures Below(w, CopyKey(w, v, u), chain, {v}) && CopyKey(w, v, u).log == w.log
  {}

  lemma AssignFkBelow(w: World, child: Ref, keys: FkWriteKeys, key: Key, chain: set<Ref>)
    requires child !in chain
    ensures Below(w, AssignFk(w, child, keys, key), chain, {}) && AssignFk(w, child, keys, key).log == w.log
  {}

  /** Steps that log nothing compose without changing what was written. */
  lemma BelowThenQuiet(a: World, b: World, c: World, chain: set<Ref>, touched: set<Ref>)
    requires Below(a, b, chain, {}) && Below(b, c, chain, touched) && c.log == b.log && Keyed(a, b)
    ensures Below(a, c, chain, touched) && Keyed(a, c) && Written(a.log, c.log) == Written(a.log, b.log)
  {
    BelowInSequence(a, b, c, chain, touched);
  }

  lemma QuietThenBelow(a: World, b: World, c: World, chain: set<Ref>)
    requires Below(a, b, chain, {}) && b.log == a.log && Below(b, c, chain, {}) && Keyed(b, c)
    ensures Below(a, c, chain, {}) && Keyed(a, c) && Written(a.log, c.log) == Written(b.log, c.log)
  {
    BelowInSequence(a, b, c, chain, {});
  }

  lemma {:induction false} UpsCovered(schema: Schema, g: Graph, w: World, v: Ref, ups: seq<Up>, chain: set<Ref>, s: set<Ref>)
    returns (w': World)
    requires Complete(g) && Inside(g, ups, []) && v in chain
    requires ClosedUnder(SaveEdges(schema, g), s) && (forall u :: u in ups ==> u.target in s)
    ensures w' == SaveUps(schema, g, w, v, ups, chain)
    ensures Below(w, w', chain, {v}) && Keyed(w, w')
    ensures Written(w.log, w'.log) <= s
    ensures Covered(SaveEdges(schema, g), Written(w.log, w'.log), chain)
    ensures forall u :: u in ups ==> u.target in Written(w.log, w'.log) + chain
    decreases |g.Keys - chain|, 1 + |ups|
  {
    if ups == [] {
      w' := w;
    } else {
      var u := ups[0];
      if u.target in chain {
        w' := UpsCovered(schema, g, w, v, ups[1..], chain, s);
      } else {
        var w0 := SaveCovers(schema, g, w, u.target, chain, s);
        var w1 := CopyKey(w0, v, u);
        CopyKeyBelow(w0, v, u, chain);
        BelowThenQuiet(w, w0, w1, chain, {v});
        w' := UpsCovered(schema, g, w1, v, ups[1..], chain, s);
        BelowInSequence(w, w1, w', chain, {v});
      }
    }
  }

  lemma {:induction false} DownsCovered(schema: Schema, g: Graph, w: World, key: Key, downs: seq<Down>, chain: set<Ref>,
                                        s: set<Ref>)
    returns (w': World)
    requires Complete(g) && Inside(g, [], downs)
    requires ClosedUnder(SaveEdges(schema, g), s) && (forall d :: d in downs ==> d.target in s)
    ensures w' == SaveDowns(schema, g, w, key, downs, chain)
    ensures Below(w, w', chain, {}) && Keyed(w, w')
    ensures Written(w.log, w'.log) <= s
    ensures Covered(SaveEdges(schema, g), Written(w.log, w'.log), chain)
    ensures forall d :: d in downs ==> d.target in Written(w.log, w'.log) + chain
    decreases |g.Keys - chain|, 1 + |downs|
  {
    if downs == [] {
      w' := w;
    } else {
      var d := downs[0];
      if d.target in chain {
        w' := DownsCovered(schema, g, w, key, downs[1..], chain, s);
      } else {
        var w0 := AssignFk(w, d.target, d.keys, key);
        AssignFkBelow(w, d.target, d.keys, key, chain);
        var w1 := SaveCovers(schema, g, w0, d.target, chain, s);
        QuietThenBelow(w, w0, w1, chain);
        w' := DownsCovered(schema, g, w1, key, downs[1..], chain, s);
        BelowInSequence(w, w1, w', chain, {});
      }
    }
  }

  /** Everything in a complete graph is closed under its edges. */
  lemma GraphIsClosed(schema: Schema, g: Graph)
    ensures ClosedUnder(SaveEdges(schema, g), g.Keys)
  {}

  /** A save from outside any cascade writes exactly the objects reached along
      saving relations, cycles included, and gives every one its key. */
  lemma SaveReachesEverything(schema: Schema, g: Graph, w: World, root: Ref)
    requires Complete(g) && root in g
    ensures var w' := Save(schema, g, w, root, {});
            && IsClosure(SaveEdges(schema, g), {root}, Written(w.log, w'.log))
            && Keyed(w, w')
  {
    var edges := SaveEdges(schema, g);
    var reached := set x | x in g && Reaches(edges, {root}, x);
    StartReached(edges, {root}, root);
    forall a, b | (a, b) in edges && a in reached ensures b in reached { ReachesExtends(edges, {root}, a, b); }
    var w' := SaveCovers(schema, g, w, root, {}, reached);
    LeastClosedIsClosure(edges, {root}, Written(w.log, w'.log));
  }

  // --------------------------------------------------- one INSERT per object

  ghost predicate InsertedOnce(log: seq<Write>) {
    forall i, j :: 0 <= i < j < |log| && log[i].inserted && log[j].inserted ==> log[i].ref != log[j].ref
  }

  /** An inserted object has its key, or is still on the chain: the key is put
      on the object only after its dependents are saved. */
  ghost predicate Pending(w: World, chain: set<Ref>) {
    forall i :: 0 <= i < |w.log| && w.log[i].inserted ==> w.log[i].ref in chain || KeyOf(w, w.log[i].ref).Some?
  }

  lemma PendingPersists(w: World, w': World, chain: set<Ref>)
    requires Pending(w, chain) && w'.log == w.log
    requires forall x {:trigger KeyOf(w', x)} :: KeyOf(w, x).Some? ==> KeyOf(w', x) == KeyOf(w, x)
    ensures Pending(w', chain)
  {
    forall i | 0 <= i < |w'.log| && w'.log[i].inserted
      ensures w'.log[i].ref in chain || KeyOf(w', w'.log[i].ref).Some?
    {
      assert w.log[i].inserted;
    }
  }

  lemma NotInsertedYet(w: World, w1: World, v: Ref, chain: set<Ref>)
    requires Pending(w, chain) && v !in chain && KeyOf(w1, v).None?
    requires Below(w, w1, chain + {v}, {v})
    ensures forall i :: 0 <= i < |w1.log| && w1.log[i].inserted ==> w1.log[i].ref != v
  {
    assert v in chain + {v} && KeyOf(w1, v) == KeyOf(w, v);
    forall i | 0 <= i < |w1.log| && w1.log[i].inserted ensures w1.log[i].ref != v {
      if i < |w.log| {
        assert w.log[i] == w1.log[i];
      } else {
        assert w1.log[i].ref in Written(w.log, w1.log);
      }
    }
  }

  /** No object is inserted twice, however many paths lead to it. */
  lemma {:induction false} SaveInsertsOnce(schema: Schema, g: Graph, w: World, v: Ref, chain: set<Ref>)
    requires Complete(g) && v in g && v !in chain
    requires InsertedOnce(w.log) && Pending(w, chain)
    ensures InsertedOnce(Save(schema, g, w, v, chain).log) && Pending(Save(schema, g, w, v, chain), chain)
    decreases |g.Keys - chain|, 0
  {
    FewerLeft(g.Keys, chain, v);
    LinksInside(schema, g, v);
    GraphIsClosed(schema, g);
    var inside := chain + {v};
    var w1 := UpsCovered(schema, g, w, v, Ups(schema, g[v]), inside, g.Keys);
    UpsInsertOnce(schema, g, w, v, Ups(schema, g[v]), inside);
    var w2 := WriteRow(schema, w1, v, g[v]);
    WriteInsertsOnce(schema, g, w, w1, v, chain);
    DownsInsertOnce(schema, g, w2, SavedKey(w1, v), Downs(schema, g[v]), inside);
    var w3 := DownsCovered(schema, g, w2, SavedKey(w1, v), Downs(schema, g[v]), inside, g.Keys);
    KeyEndsPending(w3, v, SavedKey(w1, v), chain);
  }

  lemma WriteInsertsOnce(schema: Schema, g: Graph, w: World, w1: World, v: Ref, chain: set<Ref>)
    requires v in g && v !in chain && Pending(w, chain) && Below(w, w1, chain + {v}, {v})
    requires InsertedOnce(w1.log) && Pending(w1, chain + {v})
    ensures InsertedOnce(WriteRow(schema, w1, v, g[v]).log) && Pending(WriteRow(schema, w1, v, g[v]), chain + {v})
  {
    var w2 := WriteRow(schema, w1, v, g[v]);
    if KeyOf(w1, v).None? { NotInsertedYet(w, w1, v, chain); }
    forall i, j | 0 <= i < j < |w2.log| && w2.log[i].inserted && w2.log[j].inserted
      ensures w2.log[i].ref != w2.log[j].ref
    {
      assert w2.log[i] == w1.log[i];
      if j < |w1.log| { assert w2.log[j] == w1.log[j]; }
    }
    forall i | 0 <= i < |w2.log| && w2.log[i].inserted
      ensures w2.log[i].ref in chain + {v} || KeyOf(w2, w2.log[i].ref).Some?
    {
      if i < |w1.log| { assert w2.log[i] == w1.log[i] && KeyOf(w2, w2.log[i].ref) == KeyOf(w1, w1.log[i].ref); }
    }
  }

  lemma KeyEndsPending(w: World, v: Ref, key: Key, chain: set<Ref>)
    requires Pending(w, chain + {v})
    ensures Pending(AssignKey(w, v, key), chain)
  {
    var w' := AssignKey(w, v, key);
    forall i | 0 <= i < |w'.log| && w'.log[i].inserted
      ensures w'.log[i].ref in chain || KeyOf(w', w'.log[i].ref).Some?
    {
      assert w.log[i].inserted;
    }
  }

  lemma {:induction false} UpsInsertOnce(schema: Schema, g: Graph, w: World, v: Ref, ups: seq<Up>, chain: set<Ref>)
    requires Complete(g) && Inside(g, ups, []) && v in chain
    requires InsertedOnce(w.log) && Pending(w, chain)
    ensures InsertedOnce(SaveUps(schema, g, w, v, ups, chain).log) && Pending(SaveUps(schema, g, w, v, ups, chain), chain)
    decreases |g.Keys - chain|, 1 + |ups|
  {
    if ups != [] {
      if ups[0].target in chain {
        UpsInsertOnce(schema, g, w, v, ups[1..], chain);
      } else {
        var w0 := Save(schema, g, w, ups[0].target, chain);
        SaveInsertsOnce(schema, g, w, ups[0].target, chain);
        CopyKeyBelow(w0, v, ups[0], chain);
        PendingPersists(w0, CopyKey(w0, v, ups[0]), chain);
        UpsInsertOnce(schema, g, CopyKey(w0, v, ups[0]), v, ups[1..], chain);
      }
    }
  }

  lemma {:induction false} DownsInsertOnce(schema: Schema, g: Graph, w: World, key: Key, downs: seq<Down>, chain: set<Ref>)
    requires Complete(g) && Inside(g, [], downs)
    requires InsertedOnce(w.log) && Pending(w, chain)
    ensures InsertedOnce(SaveDowns(schema, g, w, key, downs, chain).log)
    ensures Pending(SaveDowns(schema, g, w, key, downs, chain), chain)
    decreases |g.Keys - chain|, 1 + |downs|
  {
    if downs != [] {
      var d := downs[0];
      if d.target in chain {
        DownsInsertOnce(schema, g, w, key, downs[1..], chain);
      } else {
        var w0 := AssignFk(w, d.target, d.keys, key);
        AssignFkBelow(w, d.target, d.keys, key, chain);
        PendingPersists(w, w0, chain);
        SaveInsertsOnce(schema, g, w0, d.target, chain);
        DownsInsertOnce(schema, g, Save(schema, g, w0, d.target, chain), key, downs[1..], chain);
      }
    }
  }
}
