/** How often a cascading save comes by an object, and what later writes keep
    of a reference once its key is known. */
module CascadeSaveWalks {
  import opened Metadata
  import opened Digraphs
  import opened DigraphPaths
  import opened CascadeSave
  import opened CascadeSaveProofs
  import opened CascadeSaveLaws

  // ------------------------------------------------------------------- walks

  function UpTargets(ups: seq<Up>): (targets: seq<Ref>)
    ensures |targets| == |ups|
    ensures forall i :: 0 <= i < |ups| ==> targets[i] == ups[i].target
  {
    if ups == [] then [] else [ups[0].target] + UpTargets(ups[1..])
  }

  function DownTargets(downs: seq<Down>): (targets: seq<Ref>)
    ensures |targets| == |downs|
    ensures forall i :: 0 <= i < |downs| ==> targets[i] == downs[i].target
  {
    if downs == [] then [] else [downs[0].target] + DownTargets(downs[1..])
  }

  /** The number of ways along saving relations from `v` to `t` that meet no
      object twice and none of `chain`; two relations to one object are two ways. */
  function Walks(schema: Schema, g: Graph, v: Ref, chain: set<Ref>, t: Ref): nat
    requires Complete(g) && v in g && v !in chain
    decreases |g.Keys - chain|, 0
  {
    FewerLeft(g.Keys, chain, v);
    LinksInside(schema, g, v);
    if v == t then 1
    else WalksAlong(schema, g, UpTargets(Ups(schema, g[v])), chain + {v}, t)
         + WalksAlong(schema, g, DownTargets(Downs(schema, g[v])), chain + {v}, t)
  }

  function WalksAlong(schema: Schema, g: Graph, targets: seq<Ref>, chain: set<Ref>, t: Ref): nat
    requires Complete(g) && forall x :: x in targets ==> x in g
    decreases |g.Keys - chain|, 1 + |targets|
  {
    if targets == [] then 0
    else (if targets[0] in chain then 0 else Walks(schema, g, targets[0], chain, t))
         + WalksAlong(schema, g, targets[1..], chain, t)
  }

  function Times(log: seq<Write>, t: Ref): nat {
    if log == [] then 0 else Times(log[..|log| - 1], t) + if log[|log| - 1].ref == t then 1 else 0
  }

  lemma TimesAfterWrite(schema: Schema, w: World, v: Ref, links: Links, t: Ref)
    ensures Times(WriteRow(schema, w, v, links).log, t) == Times(w.log, t) + if v == t then 1 else 0
  {
    var log := WriteRow(schema, w, v, links).log;
    assert log[..|log| - 1] == w.log;
  }

  /** What a step on from `v` is worth: nothing while `t` is on the chain. */
  function Ways(schema: Schema, g: Graph, targets: seq<Ref>, chain: set<Ref>, t: Ref): nat
    requires Complete(g) && forall x :: x in targets ==> x in g
  {
    if t in chain then 0 else WalksAlong(schema, g, targets, chain, t)
  }

  lemma WaysFrom(schema: Schema, g: Graph, v: Ref, chain: set<Ref>, t: Ref)
    requires Complete(g) && v in g && v !in chain && Inside(g, Ups(schema, g[v]), Downs(schema, g[v]))
    ensures (if t in chain then 0 else Walks(schema, g, v, chain, t))
            == Ways(schema, g, UpTargets(Ups(schema, g[v])), chain + {v}, t) + (if v == t then 1 else 0)
               + Ways(schema, g, DownTargets(Downs(schema, g[v])), chain + {v}, t)
  {}

  /** An object is written once per walk that leads to it. */
  lemma {:induction false} WritesAreWalks(schema: Schema, g: Graph, w: World, v: Ref, chain: set<Ref>, t: Ref)
    requires Complete(g) && v in g && v !in chain
    ensures Times(Save(schema, g, w, v, chain).log, t)
            == Times(w.log, t) + if t in chain then 0 else Walks(schema, g, v, chain, t)
    decreases |g.Keys - chain|, 0
  {
    FewerLeft(g.Keys, chain, v);
    LinksInside(schema, g, v);
    var inside := chain + {v};
    var w1 := SaveUps(schema, g, w, v, Ups(schema, g[v]), inside);
    UpWritesAreWalks(schema, g, w, v, Ups(schema, g[v]), inside, t);
    var w2 := WriteRow(schema, w1, v, g[v]);
    TimesAfterWrite(schema, w1, v, g[v], t);
    DownWritesAreWalks(schema, g, w2, SavedKey(w1, v), Downs(schema, g[v]), inside, t);
    WaysFrom(schema, g, v, chain, t);
  }

  lemma {:induction false} UpWritesAreWalks(schema: Schema, g: Graph, w: World, v: Ref, ups: seq<Up>, chain: set<Ref>, t: Ref)
    requires Complete(g) && Inside(g, ups, [])
    ensures Times(SaveUps(schema, g, w, v, ups, chain).log, t)
            == Times(w.log, t) + Ways(schema, g, UpTargets(ups), chain, t)
    decreases |g.Keys - chain|, 1 + |ups|
  {
    if ups != [] {
      var targets := UpTargets(ups);
      assert targets[0] == ups[0].target && targets[1..] == UpTargets(ups[1..]);
      if ups[0].target in chain {
        UpWritesAreWalks(schema, g, w, v, ups[1..], chain, t);
      } else {
        var w0 := Save(schema, g, w, ups[0].target, chain);
        WritesAreWalks(schema, g, w, ups[0].target, chain, t);
        UpWritesAreWalks(schema, g, CopyKey(w0, v, ups[0]), v, ups[1..], chain, t);
      }
    }
  }

  lemma {:induction false} DownWritesAreWalks(schema: Schema, g: Graph, w: World, key: Key, downs: seq<Down>, chain: set<Ref>,
                                              t: Ref)
    requires Complete(g) && Inside(g, [], downs)
    ensures Times(SaveDowns(schema, g, w, key, downs, chain).log, t)
            == Times(w.log, t) + Ways(schema, g, DownTargets(downs), chain, t)
    decreases |g.Keys - chain|, 1 + |downs|
  {
    if downs != [] {
      var d := downs[0];
      var targets := DownTargets(downs);
      assert targets[0] == d.target && targets[1..] == DownTargets(downs[1..]);
      if d.target in chain {
        DownWritesAreWalks(schema, g, w, key, downs[1..], chain, t);
      } else {
        var w0 := AssignFk(w, d.target, d.keys, key);
        WritesAreWalks(schema, g, w0, d.target, chain, t);
        DownWritesAreWalks(schema, g, Save(schema, g, w0, d.target, chain), key, downs[1..], chain, t);
      }
    }
  }

  /** An object written more often was written in between. */
  lemma {:induction false} MoreTimesIsWritten(a: seq<Write>, c: seq<Write>, t: Ref)
    requires a <= c && Times(c, t) > Times(a, t)
    ensures t in Written(a, c)
    decreases |c|
  {
    assert a != c && |c| > |a|;
    var front := c[..|c| - 1];
    if c[|c| - 1].ref != t {
      MoreTimesIsWritten(a, front, t);
      var i :| |a| <= i < |front| && front[i].ref == t;
      assert c[i].ref == t;
    }
  }

  // -------------------------------------------------- what later writes keep

  /** A relation through which `b` is saved, its column its own, and no other
      relation's join column read as its shadow. */
  ghost predicate SavesThrough(schema: Schema, g: Graph, b: Ref, u: Up) {
    && b in g && u in Ups(schema, g[b])
    && OwnColumn(References(schema, g[b].entity), u.reference)
    && ShadowApart(schema, g, b, u.reference)
  }

  predicate HoldsKey(write: Write, r: Reference, key: Option<Key>)
    requires r.joinColumn.Some?
  {
    r.joinColumn.value in write.cells && Some(write.cells[r.joinColumn.value]) == key
  }

  /** Once the held object has its key, or the row's object a shadow key, every
      later write of the row has the column; the held object's key comes first. */
  ghost predicate Carries(w: World, w': World, b: Ref, u: Up)
    requires u.reference.joinColumn.Some?
  {
    && w.log <= w'.log
    && (KeyOf(w, u.target).Some? ==> KeyOf(w', u.target) == KeyOf(w, u.target))
    && (Shadow(ObjOf(w, b), u.reference).Some? ==> Shadow(ObjOf(w', b), u.reference).Some?)
    && (forall j | |w.log| <= j < |w'.log| && w'.log[j].ref == b && KeyOf(w, u.target).Some? ::
          HoldsKey(w'.log[j], u.reference, KeyOf(w, u.target)))
    && (forall j | |w.log| <= j < |w'.log| && w'.log[j].ref == b && Shadow(ObjOf(w, b), u.reference).Some? ::
          u.reference.joinColumn.value in w'.log[j].cells)
  }

  lemma CarriesInSequence(w0: World, w1: World, w2: World, b: Ref, u: Up)
    requires u.reference.joinColumn.Some? && Carries(w0, w1, b, u) && Carries(w1, w2, b, u)
    ensures Carries(w0, w2, b, u)
  {
    forall j | |w0.log| <= j < |w2.log| && w2.log[j].ref == b && KeyOf(w0, u.target).Some?
      ensures HoldsKey(w2.log[j], u.reference, KeyOf(w0, u.target))
    {
      if j < |w1.log| { assert w2.log[j] == w1.log[j]; }
    }
    forall j | |w0.log| <= j < |w2.log| && w2.log[j].ref == b && Shadow(ObjOf(w0, b), u.reference).Some?
      ensures u.reference.joinColumn.value in w2.log[j].cells
    {
      if j < |w1.log| { assert w2.log[j] == w1.log[j]; }
    }
  }

  lemma WriteCarries(schema: Schema, g: Graph, w: World, v: Ref, b: Ref, u: Up)
    requires v in g && SavesThrough(schema, g, b, u)
    ensures Carries(w, WriteRow(schema, w, v, g[v]), b, u)
  {
    if v == b { CellOf(w, b, g[b], References(schema, g[b].entity), u.reference); }
  }

  lemma CopyKeyCarries(w: World, v: Ref, x: Up, b: Ref, u: Up)
    requires u.reference.joinColumn.Some?
    ensures Carries(w, CopyKey(w, v, x), b, u)
  {}

  lemma AssignFkCarries(w: World, d: Down, key: Key, b: Ref, u: Up)
    requires u.reference.joinColumn.Some?
    ensures Carries(w, AssignFk(w, d.target, d.keys, key), b, u)
  {}

  lemma AssignKeyCarries(w: World, v: Ref, key: Key, b: Ref, u: Up)
    requires u.reference.joinColumn.Some? && (KeyOf(w, v).Some? ==> KeyOf(w, v) == Some(key))
    ensures Carries(w, AssignKey(w, v, key), b, u)
  {}

  lemma {:induction false} SaveCarries(schema: Schema, g: Graph, w: World, v: Ref, chain: set<Ref>, b: Ref, u: Up)
    requires Complete(g) && v in g && v !in chain && SavesThrough(schema, g, b, u)
    ensures Carries(w, Save(schema, g, w, v, chain), b, u)
    decreases |g.Keys - chain|, 0
  {
    FewerLeft(g.Keys, chain, v);
    LinksInside(schema, g, v);
    UpsCarry(schema, g, w, v, Ups(schema, g[v]), chain + {v}, b, u);
    var w1 := SaveUps(schema, g, w, v, Ups(schema, g[v]), chain + {v});
    RestCarries(schema, g, w1, v, chain, b, u);
    CarriesInSequence(w, w1, Save(schema, g, w, v, chain), b, u);
  }

  /** What a save does after the objects it references are saved. */
  function Rest(schema: Schema, g: Graph, w1: World, v: Ref, chain: set<Ref>): World
    requires Complete(g) && v in g && v !in chain
  {
    LinksInside(schema, g, v);
    AssignKey(SaveDowns(schema, g, WriteRow(schema, w1, v, g[v]), SavedKey(w1, v), Downs(schema, g[v]), chain + {v}),
              v, SavedKey(w1, v))
  }

  lemma {:induction false} RestCarries(schema: Schema, g: Graph, w1: World, v: Ref, chain: set<Ref>, b: Ref, u: Up)
    requires Complete(g) && v in g && v !in chain && SavesThrough(schema, g, b, u)
    ensures Carries(w1, Rest(schema, g, w1, v, chain), b, u)
    decreases |g.Keys - (chain + {v})|, 2 + |Downs(schema, g[v])|
  {
    LinksInside(schema, g, v);
    var w2 := WriteRow(schema, w1, v, g[v]);
    WriteCarries(schema, g, w1, v, b, u);
    var w3 := SaveDowns(schema, g, w2, SavedKey(w1, v), Downs(schema, g[v]), chain + {v});
    DownsCarry(schema, g, w2, SavedKey(w1, v), Downs(schema, g[v]), chain + {v}, b, u);
    CarriesInSequence(w1, w2, w3, b, u);
    DoneCarries(schema, g, w1, v, chain, b, u);
    CarriesInSequence(w1, w3, Rest(schema, g, w1, v, chain), b, u);
  }

  lemma DoneCarries(schema: Schema, g: Graph, w1: World, v: Ref, chain: set<Ref>, b: Ref, u: Up)
    requires Complete(g) && v in g && v !in chain && SavesThrough(schema, g, b, u)
    requires Inside(g, [], Downs(schema, g[v]))
    ensures Carries(SaveDowns(schema, g, WriteRow(schema, w1, v, g[v]), SavedKey(w1, v), Downs(schema, g[v]), chain + {v}),
                    Rest(schema, g, w1, v, chain), b, u)
  {
    GraphIsClosed(schema, g);
    var w2 := WriteRow(schema, w1, v, g[v]);
    var w3 := DownsCovered(schema, g, w2, SavedKey(w1, v), Downs(schema, g[v]), chain + {v}, g.Keys);
    assert KeyOf(w3, v) == KeyOf(w2, v);
    AssignKeyCarries(w3, v, SavedKey(w1, v), b, u);
  }

  lemma {:induction false} UpsCarry(schema: Schema, g: Graph, w: World, v: Ref, ups: seq<Up>, chain: set<Ref>, b: Ref, u: Up)
    requires Complete(g) && Inside(g, ups, []) && SavesThrough(schema, g, b, u)
    ensures Carries(w, SaveUps(schema, g, w, v, ups, chain), b, u)
    decreases |g.Keys - chain|, 1 + |ups|
  {
    if ups != [] {
      if ups[0].target in chain {
        UpsCarry(schema, g, w, v, ups[1..], chain, b, u);
      } else {
        var w0 := Save(schema, g, w, ups[0].target, chain);
        var w1 := CopyKey(w0, v, ups[0]);
        SaveCarries(schema, g, w, ups[0].target, chain, b, u);
        CopyKeyCarries(w0, v, ups[0], b, u);
        CarriesInSequence(w, w0, w1, b, u);
        UpsCarry(schema, g, w1, v, ups[1..], chain, b, u);
        CarriesInSequence(w, w1, SaveUps(schema, g, w, v, ups, chain), b, u);
      }
    }
  }

  lemma {:induction false} DownsCarry(schema: Schema, g: Graph, w: World, key: Key, downs: seq<Down>, chain: set<Ref>, b: Ref,
                                      u: Up)
    requires Complete(g) && Inside(g, [], downs) && SavesThrough(schema, g, b, u)
    ensures Carries(w, SaveDowns(schema, g, w, key, downs, chain), b, u)
    decreases |g.Keys - chain|, 1 + |downs|
  {
    if downs != [] {
      var d := downs[0];
      if d.target in chain {
        DownsCarry(schema, g, w, key, downs[1..], chain, b, u);
      } else {
        var w0 := AssignFk(w, d.target, d.keys, key);
        var w1 := Save(schema, g, w0, d.target, chain);
        AssignFkCarries(w, d, key, b, u);
        SaveCarries(schema, g, w0, d.target, chain, b, u);
        CarriesInSequence(w, w0, w1, b, u);
        DownsCarry(schema, g, w1, key, downs[1..], chain, b, u);
        CarriesInSequence(w, w1, SaveDowns(schema, g, w, key, downs, chain), b, u);
      }
    }
  }
}
