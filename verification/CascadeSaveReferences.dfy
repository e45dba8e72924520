/** Which foreign keys a whole save leaves out: the exact condition, over the
    graph, the root and the world the save starts in. */
module CascadeSaveReferences {
  import opened Metadata
  import opened Digraphs
  import opened DigraphPaths
  import opened CascadeSave
  import opened CascadeSaveProofs
  import opened CascadeSaveLaws
  import opened CascadeSaveRows
  import opened CascadeSaveWalks
  import opened CascadeSaveNested

  /** Neither the held object's key nor a shadow key is there. */
  predicate Unset(w: World, b: Ref, u: Up) {
    KeyOf(w, u.target).None? && Shadow(ObjOf(w, b), u.reference).None?
  }

  /** Every way from the root to `b` passes the object it holds. */
  ghost predicate OnlyThrough(schema: Schema, g: Graph, root: Ref, b: Ref, u: Up) {
    !ReachesAvoiding(SaveEdges(schema, g), root, {u.target}, b)
  }

  /** No owner of a collection that holds `b` can tell it a key for the relation:
      such an owner is reached through `b` only. */
  ghost predicate NeverTold(schema: Schema, g: Graph, root: Ref, b: Ref, u: Up) {
    forall p, d | p in g && d in Downs(schema, g[p]) && d.target == b && ShadowsAny(u.reference, d.keys) ::
      !ReachesAvoiding(SaveEdges(schema, g), root, {b}, p)
  }

  // ---------------------------------------------------------- when it is lost

  /** No write of `b` since `start` has the column. */
  ghost predicate Lacks(log: seq<Write>, start: nat, b: Ref, r: Reference)
    requires r.joinColumn.Some?
  {
    forall j | start <= j < |log| && log[j].ref == b :: r.joinColumn.value !in log[j].cells
  }

  /** While `t` is being saved nothing is set; before that, at most one way leads
      to it; afterwards, none. */
  ghost predicate Phase(w: World, chain: set<Ref>, ways: nat, b: Ref, u: Up) {
    if u.target in chain then Unset(w, b, u) else ways == 0 || (ways == 1 && Unset(w, b, u))
  }

  /** A step leaves the column out, and sets nothing unless `t` is saved in it. */
  ghost predicate LeavesOut(w: World, w': World, chain: set<Ref>, ways: nat, b: Ref, u: Up)
    requires u.reference.joinColumn.Some?
  {
    && w.log <= w'.log && Lacks(w'.log, |w.log|, b, u.reference)
    && (Unset(w, b, u) && (u.target in chain || ways == 0) ==> Unset(w', b, u))
  }

  lemma LeavesOutInSequence(w: World, w1: World, w2: World, chain: set<Ref>, ways1: nat, ways2: nat, b: Ref, u: Up)
    requires u.reference.joinColumn.Some?
    requires LeavesOut(w, w1, chain, ways1, b, u) && LeavesOut(w1, w2, chain, ways2, b, u)
    ensures LeavesOut(w, w2, chain, ways1 + ways2, b, u)
  {
    forall j | |w.log| <= j < |w2.log| && w2.log[j].ref == b
      ensures u.reference.joinColumn.value !in w2.log[j].cells
    {
      if j < |w1.log| { assert w2.log[j] == w1.log[j]; }
    }
  }

  lemma PhaseNext(w: World, w1: World, chain: set<Ref>, ways1: nat, ways2: nat, b: Ref, u: Up)
    requires u.reference.joinColumn.Some?
    requires Phase(w, chain, ways1 + ways2, b, u) && LeavesOut(w, w1, chain, ways1, b, u)
    ensures Phase(w1, chain, ways2, b, u)
  {}

  /** Where the cascade stands: what is not up the stack was reached without it. */
  ghost predicate Stands(edges: Edges<Ref>, root: Ref, v: Ref, chain: set<Ref>, b: Ref, t: Ref) {
    (t !in chain ==> ComesBy(edges, root, t, v)) && (b !in chain ==> ComesBy(edges, root, b, v))
  }

  lemma StandsNext(edges: Edges<Ref>, root: Ref, v: Ref, y: Ref, chain: set<Ref>, b: Ref, t: Ref)
    requires v in chain && Stands(edges, root, v, chain, b, t) && (v, y) in edges
    ensures Stands(edges, root, y, chain, b, t)
  {
    if t !in chain { ComesNext(edges, root, t, v, y); }
    if b !in chain { ComesNext(edges, root, b, v, y); }
  }

  lemma UpStands(schema: Schema, g: Graph, root: Ref, v: Ref, x: Up, chain: set<Ref>, b: Ref, t: Ref)
    requires Complete(g) && v in g && v in chain && x in Ups(schema, g[v])
    requires Stands(SaveEdges(schema, g), root, v, chain, b, t)
    ensures Stands(SaveEdges(schema, g), root, x.target, chain, b, t)
  {
    LinksInside(schema, g, v);
    assert LeadsTo(schema, g, v, x.target);
    StandsNext(SaveEdges(schema, g), root, v, x.target, chain, b, t);
  }

  lemma DownStands(schema: Schema, g: Graph, root: Ref, v: Ref, d: Down, chain: set<Ref>, b: Ref, t: Ref)
    requires Complete(g) && v in g && v in chain && d in Downs(schema, g[v])
    requires Stands(SaveEdges(schema, g), root, v, chain, b, t)
    ensures Stands(SaveEdges(schema, g), root, d.target, chain, b, t)
  {
    LinksInside(schema, g, v);
    assert LeadsTo(schema, g, v, d.target);
    StandsNext(SaveEdges(schema, g), root, v, d.target, chain, b, t);
  }

  /** The reference of `b` is cut off: only ways through the held object lead to
      `b`, and nobody tells it a key. */
  ghost predicate CutOff(schema: Schema, g: Graph, root: Ref, b: Ref, u: Up) {
    SavesThrough(schema, g, b, u) && OnlyThrough(schema, g, root, b, u) && NeverTold(schema, g, root, b, u)
  }

  lemma OwnStepLacks(schema: Schema, g: Graph, w: World, v: Ref, chain: set<Ref>, ways: nat, root: Ref, b: Ref, u: Up)
    requires v in g && v in chain && CutOff(schema, g, root, b, u)
    requires Stands(SaveEdges(schema, g), root, v, chain, b, u.target) && Phase(w, chain, ways, b, u)
    ensures LeavesOut(w, WriteRow(schema, w, v, g[v]), chain, 0, b, u)
    ensures Phase(WriteRow(schema, w, v, g[v]), chain, ways, b, u)
  {
    if v == b {
      assert u.target in chain;
      CellOf(w, b, g[b], References(schema, g[b].entity), u.reference);
    }
  }

  lemma CopyLeavesOut(schema: Schema, g: Graph, w: World, v: Ref, x: Up, chain: set<Ref>, root: Ref, b: Ref, u: Up)
    requires v in g && v in chain && x in Ups(schema, g[v]) && x.target !in chain && CutOff(schema, g, root, b, u)
    requires Stands(SaveEdges(schema, g), root, v, chain, b, u.target)
    ensures LeavesOut(w, CopyKey(w, v, x), chain, 0, b, u)
  {
    var w' := CopyKey(w, v, x);
    if v == b && w' != w {
      assert u.target in chain && x.reference != u.reference;
      ShadowAfter(ObjOf(w, b), x.reference.joinColumn.value, KeyOf(w, x.target).value, u.reference);
    }
  }

  lemma CopyAfterSave(schema: Schema, g: Graph, w: World, saved: World, v: Ref, x: Up, chain: set<Ref>, ways: nat, later: nat,
                      root: Ref, b: Ref, u: Up)
    requires v in g && v in chain && x in Ups(schema, g[v]) && x.target !in chain && CutOff(schema, g, root, b, u)
    requires Stands(SaveEdges(schema, g), root, v, chain, b, u.target)
    requires LeavesOut(w, saved, chain, ways, b, u) && Phase(w, chain, ways + later, b, u)
    ensures LeavesOut(w, CopyKey(saved, v, x), chain, ways, b, u) && Phase(CopyKey(saved, v, x), chain, later, b, u)
  {
    CopyLeavesOut(schema, g, saved, v, x, chain, root, b, u);
    LeavesOutInSequence(w, saved, CopyKey(saved, v, x), chain, ways, 0, b, u);
    PhaseNext(w, CopyKey(saved, v, x), chain, ways, later, b, u);
  }

  lemma TellLeavesOut(schema: Schema, g: Graph, w: World, v: Ref, d: Down, key: Key, chain: set<Ref>, ways: nat, root: Ref,
                      b: Ref, u: Up)
    requires v in g && v in chain && d in Downs(schema, g[v]) && d.target !in chain && CutOff(schema, g, root, b, u)
    requires Stands(SaveEdges(schema, g), root, v, chain, b, u.target)
    requires Phase(w, chain, ways, b, u)
    ensures LeavesOut(w, AssignFk(w, d.target, d.keys, key), chain, 0, b, u)
    ensures Phase(AssignFk(w, d.target, d.keys, key), chain, ways, b, u)
  {
    if d.target == b { ShadowAfterAll(ObjOf(w, b), d.keys, key, u.reference); }
  }

  lemma StandsInside(edges: Edges<Ref>, root: Ref, v: Ref, chain: set<Ref>, b: Ref, t: Ref)
    requires v !in chain && Stands(edges, root, v, chain, b, t)
    ensures Stands(edges, root, v, chain + {v}, b, t)
  {}

  lemma PhaseInside(schema: Schema, g: Graph, w: World, v: Ref, chain: set<Ref>, b: Ref, u: Up)
    requires Complete(g) && v in g && v !in chain && Inside(g, Ups(schema, g[v]), Downs(schema, g[v]))
    requires Phase(w, chain, Walks(schema, g, v, chain, u.target), b, u)
    ensures Phase(w, chain + {v}, WalksAlong(schema, g, UpTargets(Ups(schema, g[v])), chain + {v}, u.target)
                                  + WalksAlong(schema, g, DownTargets(Downs(schema, g[v])), chain + {v}, u.target), b, u)
  {}

  /** While the held object is saved only once, no write of `b` has its key. */
  lemma {:induction false} SaveLeavesOut(schema: Schema, g: Graph, w: World, v: Ref, chain: set<Ref>, root: Ref, b: Ref, u: Up)
    requires Complete(g) && v in g && v !in chain && CutOff(schema, g, root, b, u)
    requires Stands(SaveEdges(schema, g), root, v, chain, b, u.target)
    requires Phase(w, chain, Walks(schema, g, v, chain, u.target), b, u)
    ensures LeavesOut(w, Save(schema, g, w, v, chain), chain, Walks(schema, g, v, chain, u.target), b, u)
    decreases |g.Keys - chain|, 0
  {
    FewerLeft(g.Keys, chain, v);
    LinksInside(schema, g, v);
    var inside, ups := chain + {v}, Ups(schema, g[v]);
    var n1 := WalksAlong(schema, g, UpTargets(ups), inside, u.target);
    var n2 := WalksAlong(schema, g, DownTargets(Downs(schema, g[v])), inside, u.target);
    StandsInside(SaveEdges(schema, g), root, v, chain, b, u.target);
    PhaseInside(schema, g, w, v, chain, b, u);
    var w1 := SaveUps(schema, g, w, v, ups, inside);
    UpsLeaveOut(schema, g, w, v, ups, inside, n2, root, b, u);
    var w3 := OwnAndDownsLeaveOut(schema, g, w, w1, v, inside, n1, root, b, u);
    LeavesOutAtLast(schema, g, w, w3, v, SavedKey(w1, v), chain, b, u);
  }

  lemma {:induction false} OwnAndDownsLeaveOut(schema: Schema, g: Graph, w: World, w1: World, v: Ref, inside: set<Ref>,
                                               before: nat, root: Ref, b: Ref, u: Up)
    returns (w3: World)
    requires Complete(g) && v in g && v in inside && CutOff(schema, g, root, b, u)
    requires Inside(g, [], Downs(schema, g[v])) && Stands(SaveEdges(schema, g), root, v, inside, b, u.target)
    requires LeavesOut(w, w1, inside, before, b, u)
    requires Phase(w1, inside, WalksAlong(schema, g, DownTargets(Downs(schema, g[v])), inside, u.target), b, u)
    ensures w3 == SaveDowns(schema, g, WriteRow(schema, w1, v, g[v]), SavedKey(w1, v), Downs(schema, g[v]), inside)
    ensures LeavesOut(w, w3, inside, before + WalksAlong(schema, g, DownTargets(Downs(schema, g[v])), inside, u.target), b, u)
    decreases |g.Keys - inside|, 2 + |Downs(schema, g[v])|
  {
    var downs := Downs(schema, g[v]);
    var n := WalksAlong(schema, g, DownTargets(downs), inside, u.target);
    var w2 := WriteRow(schema, w1, v, g[v]);
    OwnStepLacks(schema, g, w1, v, inside, n, root, b, u);
    w3 := SaveDowns(schema, g, w2, SavedKey(w1, v), downs, inside);
    DownsLeaveOut(schema, g, w2, v, SavedKey(w1, v), downs, inside, root, b, u);
    LeavesOutInSequence(w, w1, w2, inside, before, 0, b, u);
    LeavesOutInSequence(w, w2, w3, inside, before, n, b, u);
  }

  lemma LeavesOutAtLast(schema: Schema, g: Graph, w: World, w3: World, v: Ref, key: Key, chain: set<Ref>, b: Ref, u: Up)
    requires Complete(g) && v in g && v !in chain && u.reference.joinColumn.Some?
    requires Inside(g, Ups(schema, g[v]), Downs(schema, g[v]))
    requires LeavesOut(w, w3, chain + {v}, WalksAlong(schema, g, UpTargets(Ups(schema, g[v])), chain + {v}, u.target)
                                           + WalksAlong(schema, g, DownTargets(Downs(schema, g[v])), chain + {v}, u.target), b, u)
    ensures LeavesOut(w, AssignKey(w3, v, key), chain, Walks(schema, g, v, chain, u.target), b, u)
  {
    var ways := Walks(schema, g, v, chain, u.target);
    if v == u.target {
      assert ways == 1;
      OwnKeyLeavesOut(w, w3, v, key, chain, b, u);
    } else {
      OtherKeyLeavesOut(w, w3, v, key, chain, ways, b, u);
    }
  }

  lemma OwnKeyLeavesOut(w: World, w3: World, v: Ref, key: Key, chain: set<Ref>, b: Ref, u: Up)
    requires u.reference.joinColumn.Some? && v !in chain && v == u.target
    requires w.log <= w3.log && Lacks(w3.log, |w.log|, b, u.reference)
    ensures LeavesOut(w, AssignKey(w3, v, key), chain, 1, b, u)
  {}

  lemma OtherKeyLeavesOut(w: World, w3: World, v: Ref, key: Key, chain: set<Ref>, ways: nat, b: Ref, u: Up)
    requires u.reference.joinColumn.Some? && v !in chain && v != u.target && LeavesOut(w, w3, chain + {v}, ways, b, u)
    ensures LeavesOut(w, AssignKey(w3, v, key), chain, ways, b, u)
  {}

  lemma {:induction false} UpsLeaveOut(schema: Schema, g: Graph, w: World, v: Ref, ups: seq<Up>, chain: set<Ref>, later: nat,
                                       root: Ref, b: Ref, u: Up)
    requires Complete(g) && v in g && v in chain && Inside(g, ups, []) && CutOff(schema, g, root, b, u)
    requires forall x :: x in ups ==> x in Ups(schema, g[v])
    requires Stands(SaveEdges(schema, g), root, v, chain, b, u.target)
    requires Phase(w, chain, WalksAlong(schema, g, UpTargets(ups), chain, u.target) + later, b, u)
    ensures LeavesOut(w, SaveUps(schema, g, w, v, ups, chain), chain, WalksAlong(schema, g, UpTargets(ups), chain, u.target), b, u)
    ensures Phase(SaveUps(schema, g, w, v, ups, chain), chain, later, b, u)
    decreases |g.Keys - chain|, 1 + |ups|
  {
    if ups != [] {
      var t, x, targets := u.target, ups[0].target, UpTargets(ups);
      assert targets[0] == x && targets[1..] == UpTargets(ups[1..]);
      if x in chain {
        UpsLeaveOut(schema, g, w, v, ups[1..], chain, later, root, b, u);
      } else {
        var n, rest := Walks(schema, g, x, chain, t), WalksAlong(schema, g, targets[1..], chain, t);
        UpStands(schema, g, root, v, ups[0], chain, b, t);
        SaveLeavesOut(schema, g, w, x, chain, root, b, u);
        var saved := Save(schema, g, w, x, chain);
        CopyAfterSave(schema, g, w, saved, v, ups[0], chain, n, rest + later, root, b, u);
        UpsLeaveOut(schema, g, CopyKey(saved, v, ups[0]), v, ups[1..], chain, later, root, b, u);
        LeavesOutInSequence(w, CopyKey(saved, v, ups[0]), SaveUps(schema, g, w, v, ups, chain), chain, n, rest, b, u);
      }
    }
  }

  lemma {:induction false} DownsLeaveOut(schema: Schema, g: Graph, w: World, v: Ref, key: Key, downs: seq<Down>, chain: set<Ref>,
                                         root: Ref, b: Ref, u: Up)
    requires Complete(g) && v in g && v in chain && Inside(g, [], downs) && CutOff(schema, g, root, b, u)
    requires forall d :: d in downs ==> d in Downs(schema, g[v])
    requires Stands(SaveEdges(schema, g), root, v, chain, b, u.target)
    requires Phase(w, chain, WalksAlong(schema, g, DownTargets(downs), chain, u.target), b, u)
    ensures LeavesOut(w, SaveDowns(schema, g, w, key, downs, chain), chain,
                      WalksAlong(schema, g, DownTargets(downs), chain, u.target), b, u)
    decreases |g.Keys - chain|, 1 + |downs|
  {
    if downs != [] {
      var t, d, targets := u.target, downs[0], DownTargets(downs);
      assert targets[0] == d.target && targets[1..] == DownTargets(downs[1..]);
      if d.target in chain {
        DownsLeaveOut(schema, g, w, v, key, downs[1..], chain, root, b, u);
      } else {
        var n, rest := Walks(schema, g, d.target, chain, t), WalksAlong(schema, g, targets[1..], chain, t);
        DownStands(schema, g, root, v, d, chain, b, t);
        var told := AssignFk(w, d.target, d.keys, key);
        TellLeavesOut(schema, g, w, v, d, key, chain, n + rest, root, b, u);
        SaveLeavesOut(schema, g, told, d.target, chain, root, b, u);
        var w1 := Save(schema, g, told, d.target, chain);
        PhaseNext(told, w1, chain, n, rest, b, u);
        DownsLeaveOut(schema, g, w1, v, key, downs[1..], chain, root, b, u);
        LeavesOutInSequence(w, told, w1, chain, 0, n, b, u);
        LeavesOutInSequence(w, w1, SaveDowns(schema, g, w, key, downs, chain), chain, n, rest, b, u);
      }
    }
  }

  // --------------------------------------------------------- when it is stored

  /** From write `i` of `b` on, every write of it holds the key of the object. */
  ghost predicate SetFrom(w: World, b: Ref, u: Up, i: nat)
    requires u.reference.joinColumn.Some?
  {
    && i < |w.log| && w.log[i].ref == b && KeyOf(w, u.target).Some?
    && (forall j | i <= j < |w.log| && w.log[j].ref == b :: HoldsKey(w.log[j], u.reference, KeyOf(w, u.target)))
  }

  lemma StaysSet(w: World, w': World, b: Ref, u: Up, i: nat)
    requires u.reference.joinColumn.Some? && SetFrom(w, b, u, i) && Carries(w, w', b, u)
    ensures SetFrom(w', b, u, i)
  {
    forall j | i <= j < |w'.log| && w'.log[j].ref == b ensures HoldsKey(w'.log[j], u.reference, KeyOf(w', u.target)) {
      if j < |w.log| { assert w'.log[j] == w.log[j]; }
    }
  }

  /** What is written and leads on clear of the chain is written too. */
  lemma {:induction false} CoveredAlong(edges: Edges<Ref>, written: set<Ref>, chain: set<Ref>, path: seq<Ref>, a: Ref, x: Ref)
    requires Covered(edges, written, chain) && PathAvoiding(edges, path, a, chain, x) && a in written
    ensures x in written
    decreases |path|
  {
    if |path| > 1 {
      assert (path[0], path[1]) in edges;
      TailIsPath(edges, path, 1);
      CoveredAlong(edges, written, chain, path[1..], path[1], x);
    }
  }

  lemma ReachedIsWritten(schema: Schema, g: Graph, w: World, v: Ref, chain: set<Ref>, x: Ref) returns (i: nat)
    requires Complete(g) && v in g && v !in chain && ReachesAvoiding(SaveEdges(schema, g), v, chain, x)
    ensures var w' := Save(schema, g, w, v, chain); w.log <= w'.log && |w.log| <= i < |w'.log| && w'.log[i].ref == x
  {
    GraphIsClosed(schema, g);
    var w' := SaveCovers(schema, g, w, v, chain, g.Keys);
    var path: seq<Ref> :| PathAvoiding(SaveEdges(schema, g), path, v, chain, x);
    CoveredAlong(SaveEdges(schema, g), Written(w.log, w'.log), chain, path, v, x);
    i :| |w.log| <= i < |w'.log| && w'.log[i].ref == x;
  }

  /** A save that starts with the key known sets the column of what it writes. */
  lemma KnownIsSet(schema: Schema, g: Graph, w: World, v: Ref, chain: set<Ref>, b: Ref, u: Up) returns (i: nat)
    requires Complete(g) && v in g && v !in chain && SavesThrough(schema, g, b, u)
    requires KeyOf(w, u.target).Some? && ReachesAvoiding(SaveEdges(schema, g), v, chain, b)
    ensures SetFrom(Save(schema, g, w, v, chain), b, u, i)
  {
    i := ReachedIsWritten(schema, g, w, v, chain, b);
    SaveCarries(schema, g, w, v, chain, b, u);
  }

  /** A save of `b` that is not below the object it holds sets the column. */
  lemma OtherWayIsSet(schema: Schema, g: Graph, w: World, b: Ref, chain: set<Ref>, u: Up) returns (i: nat)
    requires Complete(g) && b !in chain && u.target !in chain + {b} && SavesThrough(schema, g, b, u)
    ensures SetFrom(Save(schema, g, w, b, chain), b, u, i)
  {
    var w1, w' := OwnWrite(schema, g, w, b, chain);
    ReferenceIsStored(schema, g, w, b, chain, u);
    i := |w1.log|;
  }

  lemma EndsByOtherWay(schema: Schema, g: Graph, w: World, root: Ref, b: Ref, u: Up) returns (i: nat)
    requires Complete(g) && root in g && SavesThrough(schema, g, b, u) && !OnlyThrough(schema, g, root, b, u)
    ensures SetFrom(Save(schema, g, w, root, {}), b, u, i)
  {
    assert {} + {u.target} == {u.target};
    var w0, inner := PathIsSaved(schema, g, w, root, {}, {u.target}, b, b, u);
    assert u.target != b && u.target !in inner by { assert u.target in {u.target}; }
    i := OtherWayIsSet(schema, g, w0, b, inner, u);
    StaysSet(Save(schema, g, w0, b, inner), Save(schema, g, w, root, {}), b, u, i);
  }

  lemma EndsBySecondSave(schema: Schema, g: Graph, w: World, root: Ref, b: Ref, u: Up) returns (i: nat)
    requires Complete(g) && root in g && SavesThrough(schema, g, b, u) && OnlyThrough(schema, g, root, b, u)
    requires Reaches(SaveEdges(schema, g), {root}, b) && Walks(schema, g, root, {}, u.target) >= 2
    ensures SetFrom(Save(schema, g, w, root, {}), b, u, i)
  {
    var edges, t := SaveEdges(schema, g), u.target;
    if root != t { StaysPut(edges, root, {t}); }
    var w0, inner := SecondSave(schema, g, w, root, {}, root, b, u);
    DominatorLeadsOn(edges, root, t, b, inner);
    i := KnownIsSet(schema, g, w0, t, inner, b, u);
    StaysSet(Save(schema, g, w0, t, inner), Save(schema, g, w, root, {}), b, u, i);
  }

  lemma ReachesFrom(edges: Edges<Ref>, root: Ref, b: Ref)
    requires Reaches(edges, {root}, b)
    ensures ReachesAvoiding(edges, root, {}, b)
  {
    var path: seq<Ref> :| IsPath(edges, path) && path[0] in {root} && path[|path| - 1] == b;
    assert PathAvoiding(edges, path, root, {}, b);
  }

  /** The key is known at the start, some way to `b` avoids the object it holds,
      or that object is saved more than once. */
  ghost predicate KeyComes(schema: Schema, g: Graph, w: World, root: Ref, b: Ref, u: Up)
    requires Complete(g) && root in g
  {
    KeyOf(w, u.target).Some? || !OnlyThrough(schema, g, root, b, u) || Walks(schema, g, root, {}, u.target) >= 2
  }

  lemma KeyIsSet(schema: Schema, g: Graph, w: World, root: Ref, b: Ref, u: Up) returns (i: nat)
    requires Complete(g) && root in g && SavesThrough(schema, g, b, u)
    requires Reaches(SaveEdges(schema, g), {root}, b) && KeyComes(schema, g, w, root, b, u)
    ensures SetFrom(Save(schema, g, w, root, {}), b, u, i)
  {
    if KeyOf(w, u.target).Some? {
      ReachesFrom(SaveEdges(schema, g), root, b);
      i := KnownIsSet(schema, g, w, root, {}, b, u);
    } else if !OnlyThrough(schema, g, root, b, u) {
      i := EndsByOtherWay(schema, g, w, root, b, u);
    } else {
      i := EndsBySecondSave(schema, g, w, root, b, u);
    }
  }

  /** A row ends with the key of the object a relation holds whenever that key is
      there in time for one of the row's writes. */
  lemma RowEndsWithKey(schema: Schema, g: Graph, w: World, root: Ref, b: Ref, u: Up) returns (w': World)
    requires Complete(g) && root in g && Ready(g, w, b) && SavesThrough(schema, g, b, u)
    requires Reaches(SaveEdges(schema, g), {root}, b) && KeyComes(schema, g, w, root, b, u)
    ensures w' == Save(schema, g, w, root, {})
    ensures u.reference.joinColumn.value in RowOf(g, w', b)
    ensures Some(RowOf(g, w', b)[u.reference.joinColumn.value]) == KeyOf(w', u.target)
  {
    w' := RowIsItsWrites(schema, g, w, root, b);
    var i := KeyIsSet(schema, g, w, root, b, u);
    MergedEndsWith(w'.log, b, i, u.reference.joinColumn.value, KeyOf(w', u.target).value);
  }

  // ------------------------------------------------------------- shadow keys

  /** Some write of `b` has the column. */
  ghost predicate Has(w: World, b: Ref, u: Up)
    requires u.reference.joinColumn.Some?
  {
    exists i :: 0 <= i < |w.log| && w.log[i].ref == b && u.reference.joinColumn.value in w.log[i].cells
  }

  lemma ShadowShows(schema: Schema, g: Graph, w: World, v: Ref, chain: set<Ref>, b: Ref, u: Up)
    requires Complete(g) && v in g && v !in chain && SavesThrough(schema, g, b, u)
    requires Shadow(ObjOf(w, b), u.reference).Some? && ReachesAvoiding(SaveEdges(schema, g), v, chain, b)
    ensures Has(Save(schema, g, w, v, chain), b, u)
  {
    var i := ReachedIsWritten(schema, g, w, v, chain, b);
    SaveCarries(schema, g, w, v, chain, b, u);
    assert u.reference.joinColumn.value in Save(schema, g, w, v, chain).log[i].cells;
  }

  lemma HasStays(w: World, w': World, b: Ref, u: Up)
    requires u.reference.joinColumn.Some? && Has(w, b, u) && w.log <= w'.log
    ensures Has(w', b, u)
  {
    var i :| 0 <= i < |w.log| && w.log[i].ref == b && u.reference.joinColumn.value in w.log[i].cells;
    assert w'.log[i] == w.log[i];
  }

  lemma ToldIsShadow(w: World, d: Down, key: Key, u: Up)
    requires ShadowsAny(u.reference, d.keys)
    ensures Shadow(ObjOf(AssignFk(w, d.target, d.keys, key), d.target), u.reference).Some?
  {}

  lemma OwnerTells(schema: Schema, g: Graph, w: World, p: Ref, chain: set<Ref>, d: Down, b: Ref, u: Up)
    requires Complete(g) && p in g && p !in chain && SavesThrough(schema, g, b, u)
    requires d in Downs(schema, g[p]) && d.target == b && b !in chain + {p} && ShadowsAny(u.reference, d.keys)
    ensures Has(Save(schema, g, w, p, chain), b, u)
  {
    var told, key, w1 := DownSavedBelow(schema, g, w, p, chain, d, b, u);
    ToldIsShadow(told, d, key, u);
    StaysPut(SaveEdges(schema, g), b, chain + {p});
    ShadowShows(schema, g, w1, b, chain + {p}, b, u);
    HasStays(Save(schema, g, w1, b, chain + {p}), Save(schema, g, w, p, chain), b, u);
  }

  lemma ToldShows(schema: Schema, g: Graph, w: World, root: Ref, p: Ref, d: Down, b: Ref, u: Up)
    requires Complete(g) && root in g && SavesThrough(schema, g, b, u)
    requires p in g && d in Downs(schema, g[p]) && d.target == b && ShadowsAny(u.reference, d.keys)
    requires ReachesAvoiding(SaveEdges(schema, g), root, {b}, p)
    ensures Has(Save(schema, g, w, root, {}), b, u)
  {
    assert {} + {b} == {b};
    var w0, inner := PathIsSaved(schema, g, w, root, {}, {b}, p, b, u);
    EndIsClear(SaveEdges(schema, g), root, b, p, inner);
    OwnerTells(schema, g, w0, p, inner, d, b, u);
    HasStays(Save(schema, g, w0, p, inner), Save(schema, g, w, root, {}), b, u);
  }

  lemma EndIsClear(edges: Edges<Ref>, root: Ref, b: Ref, p: Ref, inner: set<Ref>)
    requires ReachesAvoiding(edges, root, {b}, p) && inner !! {b}
    ensures b !in inner + {p}
  {
    assert b in {b};
  }

  // ------------------------------------------------------ the exact condition

  /** Neither key is there at the start, every way from the root to `b` passes
      the object it holds, that object is saved once, and nobody tells `b`. */
  ghost predicate NeverSet(schema: Schema, g: Graph, w: World, root: Ref, b: Ref, u: Up)
    requires Complete(g) && root in g
  {
    && Unset(w, b, u) && OnlyThrough(schema, g, root, b, u)
    && Walks(schema, g, root, {}, u.target) <= 1 && NeverTold(schema, g, root, b, u)
  }

  lemma NeverSetLacks(schema: Schema, g: Graph, w: World, root: Ref, b: Ref, u: Up)
    requires Complete(g) && root in g && w.log == [] && SavesThrough(schema, g, b, u) && NeverSet(schema, g, w, root, b, u)
    ensures Lacks(Save(schema, g, w, root, {}).log, 0, b, u.reference)
  {
    var edges := SaveEdges(schema, g);
    if root != u.target { StaysPut(edges, root, {u.target}); }
    if root != b { StaysPut(edges, root, {b}); }
    SaveLeavesOut(schema, g, w, root, {}, root, b, u);
  }

  lemma SetShows(schema: Schema, g: Graph, w: World, root: Ref, b: Ref, u: Up)
    requires Complete(g) && root in g && SavesThrough(schema, g, b, u) && Reaches(SaveEdges(schema, g), {root}, b)
    requires !NeverSet(schema, g, w, root, b, u)
    ensures Has(Save(schema, g, w, root, {}), b, u)
  {
    if KeyComes(schema, g, w, root, b, u) {
      var i := KeyIsSet(schema, g, w, root, b, u);
      assert HoldsKey(Save(schema, g, w, root, {}).log[i], u.reference, KeyOf(Save(schema, g, w, root, {}), u.target));
    } else if Shadow(ObjOf(w, b), u.reference).Some? {
      ReachesFrom(SaveEdges(schema, g), root, b);
      ShadowShows(schema, g, w, root, {}, b, u);
    } else {
      var p, d :| p in g && d in Downs(schema, g[p]) && d.target == b && ShadowsAny(u.reference, d.keys)
                  && ReachesAvoiding(SaveEdges(schema, g), root, {b}, p);
      ToldShows(schema, g, w, root, p, d, b, u);
    }
  }

  /** After a whole save the row of a reached object lacks the key of a saving
      relation exactly when it lacked it before and it is never set. */
  lemma RowLacksReferenceIff(schema: Schema, g: Graph, w: World, root: Ref, b: Ref, u: Up) returns (w': World)
    requires Complete(g) && root in g && Ready(g, w, b) && SavesThrough(schema, g, b, u)
    requires Reaches(SaveEdges(schema, g), {root}, b)
    ensures w' == Save(schema, g, w, root, {})
    ensures KeyOf(w', b).Some? && Id(g[b].entity, KeyOf(w', b).value) in w'.rows
    ensures u.reference.joinColumn.value !in RowOf(g, w', b) <==>
              u.reference.joinColumn.value !in RowOf(g, w, b) && NeverSet(schema, g, w, root, b, u)
  {
    w' := RowIsItsWrites(schema, g, w, root, b);
    SaveReachesEverything(schema, g, w, root);
    assert b in Written(w.log, w'.log);
    var column := u.reference.joinColumn.value;
    if NeverSet(schema, g, w, root, b, u) {
      NeverSetLacks(schema, g, w, root, b, u);
      MergedLacks(w'.log, b, column);
    } else {
      SetShows(schema, g, w, root, b, u);
      var i :| 0 <= i < |w'.log| && w'.log[i].ref == b && column in w'.log[i].cells;
      MergedHas(w'.log, b, i, column);
    }
  }

  // ---------------------------------------- two rows that reference each other

  const Mutual: Schema := map[
    "A" := Declared([], [ManyToOne("b", "B", Some("b_id"), None, All)], [], false),
    "B" := Declared([], [ManyToOne("a", "A", Some("a_id"), None, All)], [], false)]

  const TwoObjects: Graph := map[0 := Links("A", map["b" := 1], map[]), 1 := Links("B", map["a" := 0], map[])]

  const NewWorld: World := World(map[0 := Obj(None, map[]), 1 := Obj(None, map[])], map[], 1, [])

  lemma MutualLinks()
    ensures Complete(TwoObjects)
    ensures References(Mutual, "A") == [Reference("b", "B", Some("b_id"), None, true, true)]
    ensures References(Mutual, "B") == [Reference("a", "A", Some("a_id"), None, true, true)]
    ensures Ups(Mutual, TwoObjects[0]) == [Up(1, References(Mutual, "A")[0])]
    ensures Ups(Mutual, TwoObjects[1]) == [Up(0, References(Mutual, "B")[0])]
  {
    var a, b := Mutual["A"].manyToOne, Mutual["B"].manyToOne;
    assert a[1..] == [] && b[1..] == [];
    assert References(Mutual, "A")[1..] == [] && References(Mutual, "B")[1..] == [];
  }

  lemma MutualIsReached()
    ensures Complete(TwoObjects) && Reaches(SaveEdges(Mutual, TwoObjects), {0}, 1)
  {
    MutualLinks();
    assert LeadsTo(Mutual, TwoObjects, 0, 1) by { assert Ups(Mutual, TwoObjects[0])[0].target == 1; }
    StartReached(SaveEdges(Mutual, TwoObjects), {0}, 0);
    ReachesExtends(SaveEdges(Mutual, TwoObjects), {0}, 0, 1);
  }

  lemma MutualSavesThrough(u: Up)
    requires u == Up(0, Reference("a", "A", Some("a_id"), None, true, true))
    ensures Complete(TwoObjects) && SavesThrough(Mutual, TwoObjects, 1, u)
  {
    MutualLinks();
  }

  lemma MutualNeverSet(u: Up)
    requires u == Up(0, Reference("a", "A", Some("a_id"), None, true, true))
    ensures Complete(TwoObjects) && NeverSet(Mutual, TwoObjects, NewWorld, 0, 1, u)
  {
    MutualLinks();
    assert forall p :: p in TwoObjects ==> Downs(Mutual, TwoObjects[p]) == [];
    assert Shadow(Obj(None, map[]), u.reference).None?;
  }

  lemma MutualIsReady()
    ensures Ready(TwoObjects, NewWorld, 1)
  {}

  lemma MutualKeyed()
    ensures Complete(TwoObjects)
    ensures KeyOf(Save(Mutual, TwoObjects, NewWorld, 0, {}), 0).Some?
  {
    MutualLinks();
    SaveReachesEverything(Mutual, TwoObjects, NewWorld, 0);
    StartReached(SaveEdges(Mutual, TwoObjects), {0}, 0);
  }

  /** Of two new rows that reference each other, the one saved below the other
      is stored without its key, and stays so, though both end up stored. */
  lemma MutualReferenceIsLost()
    ensures Complete(TwoObjects)
    ensures var w' := Save(Mutual, TwoObjects, NewWorld, 0, {});
            && KeyOf(w', 0).Some? && KeyOf(w', 1).Some?
            && Id("B", KeyOf(w', 1).value) in w'.rows && "a_id" !in w'.rows[Id("B", KeyOf(w', 1).value)]
  {
    MutualLinks();
    var u := Up(0, Reference("a", "A", Some("a_id"), None, true, true));
    MutualSavesThrough(u);
    MutualNeverSet(u);
    MutualIsReached();
    MutualIsReady();
    var w' := RowLacksReferenceIff(Mutual, TwoObjects, NewWorld, 0, 1, u);
    MutualKeyed();
  }
}
