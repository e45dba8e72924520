/** The saves inside a save: along every path the cascade follows there is one,
    and an object led to twice is saved again with its key. */
module CascadeSaveNested {
  import opened Metadata
  import opened Digraphs
  import opened DigraphPaths
  import opened CascadeSave
  import opened CascadeSaveProofs
  import opened CascadeSaveLaws
  import opened CascadeSaveWalks

  /** The save of `x` from `w0` under `inner` happens inside the save of `v`. */
  ghost predicate SavedInside(schema: Schema, g: Graph, w0: World, x: Ref, inner: set<Ref>, w: World, w': World, b: Ref, u: Up)
    requires Complete(g) && u.reference.joinColumn.Some?
  {
    x in g && x !in inner && Carries(w, w0, b, u) && Carries(Save(schema, g, w0, x, inner), w', b, u)
  }

  lemma InsideCarries(schema: Schema, g: Graph, w0: World, x: Ref, inner: set<Ref>, w: World, w': World, w'': World, b: Ref, u: Up)
    requires Complete(g) && u.reference.joinColumn.Some?
    requires SavedInside(schema, g, w0, x, inner, w, w', b, u) && Carries(w', w'', b, u)
    ensures SavedInside(schema, g, w0, x, inner, w, w'', b, u)
  {
    CarriesInSequence(Save(schema, g, w0, x, inner), w', w'', b, u);
  }

  lemma CarriesInside(schema: Schema, g: Graph, w0: World, x: Ref, inner: set<Ref>, w: World, w1: World, w': World, b: Ref, u: Up)
    requires Complete(g) && u.reference.joinColumn.Some?
    requires Carries(w, w1, b, u) && SavedInside(schema, g, w0, x, inner, w1, w', b, u)
    ensures SavedInside(schema, g, w0, x, inner, w, w', b, u)
  {
    CarriesInSequence(w, w1, w0, b, u);
  }

  // ------------------------------------------------------------ one step down

  lemma UpHeadInside(schema: Schema, g: Graph, w: World, v: Ref, ups: seq<Up>, chain: set<Ref>, w0: World, x: Ref,
                     inner: set<Ref>, b: Ref, u: Up)
    requires Complete(g) && Inside(g, ups, []) && ups != [] && ups[0].target !in chain && SavesThrough(schema, g, b, u)
    requires SavedInside(schema, g, w0, x, inner, w, Save(schema, g, w, ups[0].target, chain), b, u)
    ensures SavedInside(schema, g, w0, x, inner, w, SaveUps(schema, g, w, v, ups, chain), b, u)
  {
    var saved, last := Save(schema, g, w, ups[0].target, chain), SaveUps(schema, g, w, v, ups, chain);
    var w1 := CopyKey(saved, v, ups[0]);
    CopyKeyCarries(saved, v, ups[0], b, u);
    UpsCarry(schema, g, w1, v, ups[1..], chain, b, u);
    CarriesInSequence(saved, w1, last, b, u);
    InsideCarries(schema, g, w0, x, inner, w, saved, last, b, u);
  }

  lemma UpStepCarries(schema: Schema, g: Graph, w: World, v: Ref, x: Up, chain: set<Ref>, b: Ref, u: Up)
    requires Complete(g) && x.target in g && x.target !in chain && SavesThrough(schema, g, b, u)
    ensures Carries(w, CopyKey(Save(schema, g, w, x.target, chain), v, x), b, u)
  {
    var saved := Save(schema, g, w, x.target, chain);
    SaveCarries(schema, g, w, x.target, chain, b, u);
    CopyKeyCarries(saved, v, x, b, u);
    CarriesInSequence(w, saved, CopyKey(saved, v, x), b, u);
  }

  lemma DownHeadInside(schema: Schema, g: Graph, w: World, key: Key, downs: seq<Down>, chain: set<Ref>, w0: World, x: Ref,
                       inner: set<Ref>, b: Ref, u: Up)
    requires Complete(g) && Inside(g, [], downs) && downs != [] && downs[0].target !in chain && SavesThrough(schema, g, b, u)
    requires var told := AssignFk(w, downs[0].target, downs[0].keys, key);
             SavedInside(schema, g, w0, x, inner, told, Save(schema, g, told, downs[0].target, chain), b, u)
    ensures SavedInside(schema, g, w0, x, inner, w, SaveDowns(schema, g, w, key, downs, chain), b, u)
  {
    var told := AssignFk(w, downs[0].target, downs[0].keys, key);
    var w1, last := Save(schema, g, told, downs[0].target, chain), SaveDowns(schema, g, w, key, downs, chain);
    AssignFkCarries(w, downs[0], key, b, u);
    CarriesInside(schema, g, w0, x, inner, w, told, w1, b, u);
    DownsCarry(schema, g, w1, key, downs[1..], chain, b, u);
    InsideCarries(schema, g, w0, x, inner, w, w1, last, b, u);
  }

  lemma DownStepCarries(schema: Schema, g: Graph, w: World, d: Down, key: Key, chain: set<Ref>, b: Ref, u: Up)
    requires Complete(g) && d.target in g && d.target !in chain && SavesThrough(schema, g, b, u)
    ensures Carries(w, Save(schema, g, AssignFk(w, d.target, d.keys, key), d.target, chain), b, u)
  {
    var told := AssignFk(w, d.target, d.keys, key);
    AssignFkCarries(w, d, key, b, u);
    SaveCarries(schema, g, told, d.target, chain, b, u);
    CarriesInSequence(w, told, Save(schema, g, told, d.target, chain), b, u);
  }

  lemma SaveEndsHere(schema: Schema, g: Graph, w: World, v: Ref, chain: set<Ref>, b: Ref, u: Up)
    requires Complete(g) && v in g && v !in chain && u.reference.joinColumn.Some?
    ensures SavedInside(schema, g, w, v, chain, w, Save(schema, g, w, v, chain), b, u)
  {}

  lemma {:induction false} UpIsSaved(schema: Schema, g: Graph, w: World, v: Ref, ups: seq<Up>, chain: set<Ref>, x: Up,
                                     b: Ref, u: Up)
    returns (w0: World)
    requires Complete(g) && Inside(g, ups, []) && x in ups && x.target !in chain && SavesThrough(schema, g, b, u)
    ensures SavedInside(schema, g, w0, x.target, chain, w, SaveUps(schema, g, w, v, ups, chain), b, u)
    decreases |ups|
  {
    var last := SaveUps(schema, g, w, v, ups, chain);
    if ups[0].target in chain {
      w0 := UpIsSaved(schema, g, w, v, ups[1..], chain, x, b, u);
    } else {
      if ups[0] == x {
        w0 := w;
        SaveEndsHere(schema, g, w, x.target, chain, b, u);
        UpHeadInside(schema, g, w, v, ups, chain, w0, x.target, chain, b, u);
      } else {
        var w1 := CopyKey(Save(schema, g, w, ups[0].target, chain), v, ups[0]);
        UpStepCarries(schema, g, w, v, ups[0], chain, b, u);
        w0 := UpIsSaved(schema, g, w1, v, ups[1..], chain, x, b, u);
        CarriesInside(schema, g, w0, x.target, chain, w, w1, last, b, u);
      }
    }
  }

  /** A dependent is saved right after it was told its parent's key. */
  lemma {:induction false} DownIsSaved(schema: Schema, g: Graph, w: World, key: Key, downs: seq<Down>, chain: set<Ref>, d: Down,
                                       b: Ref, u: Up)
    returns (told: World, w0: World)
    requires Complete(g) && Inside(g, [], downs) && d in downs && d.target !in chain && SavesThrough(schema, g, b, u)
    ensures w0 == AssignFk(told, d.target, d.keys, key)
    ensures SavedInside(schema, g, w0, d.target, chain, w, SaveDowns(schema, g, w, key, downs, chain), b, u)
    decreases |downs|
  {
    var e := downs[0];
    var last := SaveDowns(schema, g, w, key, downs, chain);
    if e.target in chain {
      told, w0 := DownIsSaved(schema, g, w, key, downs[1..], chain, d, b, u);
    } else {
      var given := AssignFk(w, e.target, e.keys, key);
      if e == d {
        told, w0 := w, given;
        SaveEndsHere(schema, g, given, d.target, chain, b, u);
        DownHeadInside(schema, g, w, key, downs, chain, w0, d.target, chain, b, u);
      } else {
        var w1 := Save(schema, g, given, e.target, chain);
        DownStepCarries(schema, g, w, e, key, chain, b, u);
        told, w0 := DownIsSaved(schema, g, w1, key, downs[1..], chain, d, b, u);
        CarriesInside(schema, g, w0, d.target, chain, w, w1, last, b, u);
      }
    }
  }

  lemma UpSavedBelow(schema: Schema, g: Graph, w: World, v: Ref, chain: set<Ref>, x: Up, b: Ref, u: Up) returns (w0: World)
    requires Complete(g) && v in g && v !in chain && SavesThrough(schema, g, b, u)
    requires x in Ups(schema, g[v]) && x.target !in chain + {v}
    ensures SavedInside(schema, g, w0, x.target, chain + {v}, w, Save(schema, g, w, v, chain), b, u)
  {
    LinksInside(schema, g, v);
    w0 := UpIsSaved(schema, g, w, v, Ups(schema, g[v]), chain + {v}, x, b, u);
    var w1 := SaveUps(schema, g, w, v, Ups(schema, g[v]), chain + {v});
    RestCarries(schema, g, w1, v, chain, b, u);
    InsideCarries(schema, g, w0, x.target, chain + {v}, w, w1, Save(schema, g, w, v, chain), b, u);
  }

  lemma DownSavedBelow(schema: Schema, g: Graph, w: World, v: Ref, chain: set<Ref>, d: Down, b: Ref, u: Up)
    returns (told: World, key: Key, w0: World)
    requires Complete(g) && v in g && v !in chain && SavesThrough(schema, g, b, u)
    requires d in Downs(schema, g[v]) && d.target !in chain + {v}
    ensures w0 == AssignFk(told, d.target, d.keys, key)
    ensures SavedInside(schema, g, w0, d.target, chain + {v}, w, Save(schema, g, w, v, chain), b, u)
  {
    LinksInside(schema, g, v);
    var inside := chain + {v};
    var w1 := SaveUps(schema, g, w, v, Ups(schema, g[v]), inside);
    UpsCarry(schema, g, w, v, Ups(schema, g[v]), inside, b, u);
    key := SavedKey(w1, v);
    var w2 := WriteRow(schema, w1, v, g[v]);
    WriteCarries(schema, g, w1, v, b, u);
    CarriesInSequence(w, w1, w2, b, u);
    told, w0 := DownIsSaved(schema, g, w2, key, Downs(schema, g[v]), inside, d, b, u);
    var w3 := SaveDowns(schema, g, w2, key, Downs(schema, g[v]), inside);
    DoneCarries(schema, g, w1, v, chain, b, u);
    CarriesInside(schema, g, w0, d.target, inside, w, w2, w3, b, u);
    InsideCarries(schema, g, w0, d.target, inside, w, w3, Save(schema, g, w, v, chain), b, u);
  }

  lemma NextIsSaved(schema: Schema, g: Graph, w: World, v: Ref, chain: set<Ref>, y: Ref, b: Ref, u: Up) returns (w0: World)
    requires Complete(g) && v in g && v !in chain && SavesThrough(schema, g, b, u)
    requires (v, y) in SaveEdges(schema, g) && y !in chain + {v}
    ensures SavedInside(schema, g, w0, y, chain + {v}, w, Save(schema, g, w, v, chain), b, u)
  {
    if x :| x in Ups(schema, g[v]) && x.target == y {
      w0 := UpSavedBelow(schema, g, w, v, chain, x, b, u);
    } else {
      var d :| d in Downs(schema, g[v]) && d.target == y;
      var told, key;
      told, key, w0 := DownSavedBelow(schema, g, w, v, chain, d, b, u);
    }
  }

  // -------------------------------------------------------------- along a path

  /** Along every path clear of the chain and of `clear` the cascade gets to a
      save of the object at its end, with nothing of `clear` up the stack. */
  lemma {:induction false} PathIsSaved(schema: Schema, g: Graph, w: World, v: Ref, chain: set<Ref>, clear: set<Ref>, x: Ref,
                                       b: Ref, u: Up)
    returns (w0: World, inner: set<Ref>)
    requires Complete(g) && v in g && v !in chain && SavesThrough(schema, g, b, u)
    requires chain !! clear && ReachesAvoiding(SaveEdges(schema, g), v, chain + clear, x)
    ensures inner !! clear && SavedInside(schema, g, w0, x, inner, w, Save(schema, g, w, v, chain), b, u)
    decreases |g.Keys - chain|
  {
    var edges, w' := SaveEdges(schema, g), Save(schema, g, w, v, chain);
    var path: seq<Ref> :| PathAvoiding(edges, path, v, chain + clear, x);
    if v == x {
      w0, inner := w, chain;
      SaveEndsHere(schema, g, w, v, chain, b, u);
    } else {
      var y := StepsOff(edges, path, v, chain + clear, x);
      assert chain + clear + {v} == (chain + {v}) + clear;
      var w1 := NextIsSaved(schema, g, w, v, chain, y, b, u);
      FewerLeft(g.Keys, chain, v);
      assert v !in clear by { assert path[0] == v; }
      w0, inner := PathIsSaved(schema, g, w1, y, chain + {v}, clear, x, b, u);
      CarriesInside(schema, g, w0, x, inner, w, w1, Save(schema, g, w1, y, chain + {v}), b, u);
      InsideCarries(schema, g, w0, x, inner, w, Save(schema, g, w1, y, chain + {v}), w', b, u);
    }
  }

  // ------------------------------------------------------------ led to twice

  /** Only what can be reached from the root short of `t` is up the stack. */
  ghost predicate ShortOf(edges: Edges<Ref>, root: Ref, t: Ref, chain: set<Ref>) {
    t !in chain && forall y :: y in chain ==> ReachesAvoiding(edges, root, {t}, y)
  }

  /** The cascade comes from the root by `v`. */
  ghost predicate ComesBy(edges: Edges<Ref>, root: Ref, t: Ref, v: Ref) {
    v == t || ReachesAvoiding(edges, root, {t}, v)
  }

  lemma ComesNext(edges: Edges<Ref>, root: Ref, t: Ref, v: Ref, y: Ref)
    requires v != t && ComesBy(edges, root, t, v) && (v, y) in edges
    ensures ComesBy(edges, root, t, y)
  {
    if y != t { StepsPast(edges, root, v, {t}, y); }
  }

  /** Two ways to `t` are ahead, or one and its key is known. */
  predicate Twice(w: World, t: Ref, ways: nat) {
    ways >= 2 || (ways == 1 && KeyOf(w, t).Some?)
  }

  /** Where the cascade leads to `t` twice, the second save finds its key. */
  lemma {:induction false} SecondSave(schema: Schema, g: Graph, w: World, v: Ref, chain: set<Ref>, root: Ref, b: Ref, u: Up)
    returns (w0: World, inner: set<Ref>)
    requires Complete(g) && v in g && v !in chain && SavesThrough(schema, g, b, u)
    requires ShortOf(SaveEdges(schema, g), root, u.target, chain) && ComesBy(SaveEdges(schema, g), root, u.target, v)
    requires Twice(w, u.target, Walks(schema, g, v, chain, u.target))
    ensures ShortOf(SaveEdges(schema, g), root, u.target, inner) && KeyOf(w0, u.target).Some?
    ensures SavedInside(schema, g, w0, u.target, inner, w, Save(schema, g, w, v, chain), b, u)
    decreases |g.Keys - chain|, 0
  {
    var t, w' := u.target, Save(schema, g, w, v, chain);
    if v == t {
      w0, inner := w, chain;
      SaveEndsHere(schema, g, w, v, chain, b, u);
    } else {
      FewerLeft(g.Keys, chain, v);
      LinksInside(schema, g, v);
      var inside := chain + {v};
      var ups := Ups(schema, g[v]);
      var w1 := SaveUps(schema, g, w, v, ups, inside);
      if Twice(w, t, WalksAlong(schema, g, UpTargets(ups), inside, t)) {
        w0, inner := SecondUp(schema, g, w, v, ups, inside, root, b, u);
        RestCarries(schema, g, w1, v, chain, b, u);
        InsideCarries(schema, g, w0, t, inner, w, w1, w', b, u);
      } else {
        w0, inner := SecondSaveDown(schema, g, w, v, chain, root, b, u);
      }
    }
  }

  lemma {:induction false} SecondSaveDown(schema: Schema, g: Graph, w: World, v: Ref, chain: set<Ref>, root: Ref, b: Ref, u: Up)
    returns (w0: World, inner: set<Ref>)
    requires Complete(g) && v in g && v !in chain && v != u.target && SavesThrough(schema, g, b, u)
    requires ShortOf(SaveEdges(schema, g), root, u.target, chain) && ComesBy(SaveEdges(schema, g), root, u.target, v)
    requires Inside(g, Ups(schema, g[v]), Downs(schema, g[v]))
    requires Twice(w, u.target, Walks(schema, g, v, chain, u.target))
    requires !Twice(w, u.target, WalksAlong(schema, g, UpTargets(Ups(schema, g[v])), chain + {v}, u.target))
    ensures ShortOf(SaveEdges(schema, g), root, u.target, inner) && KeyOf(w0, u.target).Some?
    ensures SavedInside(schema, g, w0, u.target, inner, w, Save(schema, g, w, v, chain), b, u)
    decreases |g.Keys - (chain + {v})|, 2 + |Downs(schema, g[v])|
  {
    var t, inside, downs := u.target, chain + {v}, Downs(schema, g[v]);
    var w1 := SaveUps(schema, g, w, v, Ups(schema, g[v]), inside);
    var w2 := WriteRow(schema, w1, v, g[v]);
    UpsCarry(schema, g, w, v, Ups(schema, g[v]), inside, b, u);
    WriteCarries(schema, g, w1, v, b, u);
    CarriesInSequence(w, w1, w2, b, u);
    UpsKeyTarget(schema, g, w, v, Ups(schema, g[v]), inside, t);
    w0, inner := SecondDown(schema, g, w2, v, SavedKey(w1, v), downs, inside, root, b, u);
    var w3 := SaveDowns(schema, g, w2, SavedKey(w1, v), downs, inside);
    CarriesInside(schema, g, w0, t, inner, w, w2, w3, b, u);
    DoneCarries(schema, g, w1, v, chain, b, u);
    InsideCarries(schema, g, w0, t, inner, w, w3, Save(schema, g, w, v, chain), b, u);
  }

  /** Where a way leads to `t`, it has its key afterwards. */
  lemma SaveKeysTarget(schema: Schema, g: Graph, w: World, v: Ref, chain: set<Ref>, t: Ref)
    requires Complete(g) && v in g && v !in chain && t !in chain
    ensures Walks(schema, g, v, chain, t) > 0 ==> KeyOf(Save(schema, g, w, v, chain), t).Some?
  {
    GraphIsClosed(schema, g);
    var w' := SaveCovers(schema, g, w, v, chain, g.Keys);
    WritesAreWalks(schema, g, w, v, chain, t);
    if Walks(schema, g, v, chain, t) > 0 { MoreTimesIsWritten(w.log, w'.log, t); }
  }

  /** What is not saved twice at once is led to again afterwards. */
  lemma AfterFirst(schema: Schema, g: Graph, w: World, x: Ref, chain: set<Ref>, t: Ref, rest: nat)
    requires Complete(g) && x in g && x !in chain && t !in chain
    requires Twice(w, t, Walks(schema, g, x, chain, t) + rest) && !Twice(w, t, Walks(schema, g, x, chain, t))
    ensures Twice(Save(schema, g, w, x, chain), t, rest)
  {
    GraphIsClosed(schema, g);
    var w' := SaveCovers(schema, g, w, x, chain, g.Keys);
    SaveKeysTarget(schema, g, w, x, chain, t);
  }

  lemma UpsKeyTarget(schema: Schema, g: Graph, w: World, v: Ref, ups: seq<Up>, chain: set<Ref>, t: Ref)
    requires Complete(g) && Inside(g, ups, []) && v in chain && t !in chain
    ensures WalksAlong(schema, g, UpTargets(ups), chain, t) > 0 ==> KeyOf(SaveUps(schema, g, w, v, ups, chain), t).Some?
  {
    GraphIsClosed(schema, g);
    var w' := UpsCovered(schema, g, w, v, ups, chain, g.Keys);
    UpWritesAreWalks(schema, g, w, v, ups, chain, t);
    if WalksAlong(schema, g, UpTargets(ups), chain, t) > 0 { MoreTimesIsWritten(w.log, w'.log, t); }
  }

  lemma {:induction false} SecondUp(schema: Schema, g: Graph, w: World, v: Ref, ups: seq<Up>, chain: set<Ref>, root: Ref, b: Ref,
                                    u: Up)
    returns (w0: World, inner: set<Ref>)
    requires Complete(g) && v in g && v in chain && Inside(g, ups, []) && SavesThrough(schema, g, b, u)
    requires ShortOf(SaveEdges(schema, g), root, u.target, chain)
    requires forall x :: x in ups ==> x in Ups(schema, g[v])
    requires Twice(w, u.target, WalksAlong(schema, g, UpTargets(ups), chain, u.target))
    ensures ShortOf(SaveEdges(schema, g), root, u.target, inner) && KeyOf(w0, u.target).Some?
    ensures SavedInside(schema, g, w0, u.target, inner, w, SaveUps(schema, g, w, v, ups, chain), b, u)
    decreases |g.Keys - chain|, 1 + |ups|
  {
    var t, x, targets := u.target, ups[0].target, UpTargets(ups);
    var last := SaveUps(schema, g, w, v, ups, chain);
    assert targets[0] == x && targets[1..] == UpTargets(ups[1..]);
    if x in chain {
      w0, inner := SecondUp(schema, g, w, v, ups[1..], chain, root, b, u);
    } else {
      if Twice(w, t, Walks(schema, g, x, chain, t)) {
        UpComes(schema, g, v, ups[0], chain, root, t);
        w0, inner := SecondSave(schema, g, w, x, chain, root, b, u);
        UpHeadInside(schema, g, w, v, ups, chain, w0, t, inner, b, u);
      } else {
        var w1 := CopyKey(Save(schema, g, w, x, chain), v, ups[0]);
        AfterFirst(schema, g, w, x, chain, t, WalksAlong(schema, g, targets[1..], chain, t));
        UpStepCarries(schema, g, w, v, ups[0], chain, b, u);
        w0, inner := SecondUp(schema, g, w1, v, ups[1..], chain, root, b, u);
        CarriesInside(schema, g, w0, t, inner, w, w1, last, b, u);
      }
    }
  }

  lemma UpComes(schema: Schema, g: Graph, v: Ref, x: Up, chain: set<Ref>, root: Ref, t: Ref)
    requires Complete(g) && v in g && v in chain && x in Ups(schema, g[v]) && ShortOf(SaveEdges(schema, g), root, t, chain)
    ensures ComesBy(SaveEdges(schema, g), root, t, x.target)
  {
    LinksInside(schema, g, v);
    assert LeadsTo(schema, g, v, x.target);
    ComesNext(SaveEdges(schema, g), root, t, v, x.target);
  }

  lemma DownComes(schema: Schema, g: Graph, v: Ref, d: Down, chain: set<Ref>, root: Ref, t: Ref)
    requires Complete(g) && v in g && v in chain && d in Downs(schema, g[v]) && ShortOf(SaveEdges(schema, g), root, t, chain)
    ensures ComesBy(SaveEdges(schema, g), root, t, d.target)
  {
    LinksInside(schema, g, v);
    assert LeadsTo(schema, g, v, d.target);
    ComesNext(SaveEdges(schema, g), root, t, v, d.target);
  }

  lemma {:induction false} SecondDown(schema: Schema, g: Graph, w: World, v: Ref, key: Key, downs: seq<Down>, chain: set<Ref>,
                                      root: Ref, b: Ref, u: Up)
    returns (w0: World, inner: set<Ref>)
    requires Complete(g) && v in g && v in chain && Inside(g, [], downs) && SavesThrough(schema, g, b, u)
    requires ShortOf(SaveEdges(schema, g), root, u.target, chain)
    requires forall d :: d in downs ==> d in Downs(schema, g[v])
    requires Twice(w, u.target, WalksAlong(schema, g, DownTargets(downs), chain, u.target))
    ensures ShortOf(SaveEdges(schema, g), root, u.target, inner) && KeyOf(w0, u.target).Some?
    ensures SavedInside(schema, g, w0, u.target, inner, w, SaveDowns(schema, g, w, key, downs, chain), b, u)
    decreases |g.Keys - chain|, 1 + |downs|
  {
    var t, d, targets := u.target, downs[0], DownTargets(downs);
    var last := SaveDowns(schema, g, w, key, downs, chain);
    assert targets[0] == d.target && targets[1..] == DownTargets(downs[1..]);
    if d.target in chain {
      w0, inner := SecondDown(schema, g, w, v, key, downs[1..], chain, root, b, u);
    } else {
      var told := AssignFk(w, d.target, d.keys, key);
      assert KeyOf(told, t) == KeyOf(w, t);
      if Twice(w, t, Walks(schema, g, d.target, chain, t)) {
        DownComes(schema, g, v, d, chain, root, t);
        w0, inner := SecondSave(schema, g, told, d.target, chain, root, b, u);
        DownHeadInside(schema, g, w, key, downs, chain, w0, t, inner, b, u);
      } else {
        var w1 := Save(schema, g, told, d.target, chain);
        AfterFirst(schema, g, told, d.target, chain, t, WalksAlong(schema, g, targets[1..], chain, t));
        DownStepCarries(schema, g, w, d, key, chain, b, u);
        w0, inner := SecondDown(schema, g, w1, v, key, downs[1..], chain, root, b, u);
        CarriesInside(schema, g, w0, t, inner, w, w1, last, b, u);
      }
    }
  }
}
