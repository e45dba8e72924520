/** Level by level down the relation tree: the batched load of every level
    refines the load of each object alone. */
module RelationTreeProofs {
  import opened Metadata
  import opened RelationRows
  import opened RelationLoading
  import opened RelationLoadingProofs

  ghost predicate DistinctNames(relations: seq<Relation>) {
    forall i, j :: 0 <= i < j < |relations| ==> relations[i].name != relations[j].name
  }

  /** Counts as the read validated them: each under a property of its own, none
      under a relation's. */
  ghost predicate CountsApart(db: Db, entity: Entity, specs: seq<CountSpec>) {
    && (forall i, j :: 0 <= i < j < |specs| ==> specs[i].property != specs[j].property)
    && (forall i :: 0 <= i < |specs| ==> Named(RelationsOf(db, entity), specs[i].property).None?)
  }

  /** The tree as the read validated it: each name once, and a relation of the
      entity it is asked on. */
  ghost predicate ValidTree(db: Db, entity: Entity, tree: Tree)
    decreases tree
  {
    match tree
    case Leaf => true
    case Node(name, options, children, rest) =>
      && Named(RelationsOf(db, entity), name).Some?
      && OptionsFor(rest, name).None?
      && (options.orderBy.Some? ==> Sortable(options.orderBy.value))
      && CountsApart(db, Named(RelationsOf(db, entity), name).value.related, options.withCount)
      && ValidTree(db, Named(RelationsOf(db, entity), name).value.related, children)
      && ValidTree(db, entity, rest)
  }

  ghost predicate ValidDb(db: Db) {
    db.sliceSize > 0 && forall entity :: DistinctNames(RelationsOf(db, entity))
  }

  ghost predicate OfEntity(h: Heap, instances: seq<Ref>, entity: Entity) {
    forall o :: o in instances ==> o < |h| && h[o].entity == entity
  }

  function NamesOf(relations: seq<Relation>): set<string> {
    set r | r in relations :: r.name
  }

  /** Which part of the heap each relation of a level was hydrated into. */
  type Spans = map<string, (nat, nat)>

  ghost predicate InSpan(spans: Spans, name: string, x: nat) {
    name in spans && spans[name].0 <= x < spans[name].1
  }

  ghost predicate ValidSpans(spans: Spans, lo: nat, hi: nat) {
    && (forall n :: n in spans ==> lo <= spans[n].0 <= spans[n].1 <= hi)
    && (forall m, n, x :: m != n && InSpan(spans, m, x) ==> !InSpan(spans, n, x))
  }

  ghost predicate ReadyIn(db: Db, h: Heap, instances: seq<Ref>, rel: Relation, options: Options, spans: Spans) {
    rel.name in spans && Ready(db, h, instances, rel, options, spans[rel.name].0, spans[rel.name].1)
  }

  lemma OptionsAreSortable(db: Db, entity: Entity, tree: Tree, name: string)
    requires ValidTree(db, entity, tree) && OptionsFor(tree, name).Some?
    ensures var options := OptionsFor(tree, name).value; options.orderBy.Some? ==> Sortable(options.orderBy.value)
  {
    if tree.name != name { OptionsAreSortable(db, entity, tree.rest, name); }
  }

  /** Loading other relations leaves a ready one ready. */
  lemma ReadyStays(db: Db, h: Heap, h': Heap, instances: seq<Ref>, names: set<string>, rel: Relation, options: Options,
                   lo: nat, hi: nat)
    requires Ready(db, h, instances, rel, options, lo, hi) && Grown(h, h', instances, names) && rel.name !in names
    requires forall o :: o in instances ==> o < lo
    ensures Ready(db, h', instances, rel, options, lo, hi)
  {
    forall o | o in instances
      ensures rel.name in h'[o].props
      ensures Shows(h', h'[o].props[rel.name], rel, OwnRelated(db, rel, options, h'[o]), lo, hi)
    {
      assert SameProp(h[o], h'[o], rel.name) && SameRow(h[o], h'[o]);
      assert MatchKey(rel, h'[o]) == MatchKey(rel, h[o]);
      ShowsStill(h, h', h[o].props[rel.name], rel, OwnRelated(db, rel, options, h[o]), lo, hi);
    }
  }

  lemma {:induction false} LoadRelationsIsOwn(db: Db, st: State, entity: Entity, instances: seq<Ref>,
                                              relations: seq<Relation>, tree: Tree)
    returns (spans: Spans)
    requires db.sliceSize > 0 && DistinctNames(relations) && ValidTree(db, entity, tree) && Valid(st.heap, instances)
    ensures var st' := LoadRelations(db, st, instances, relations, tree);
            && Grown(st.heap, st'.heap, instances, NamesOf(relations))
            && ValidSpans(spans, |st.heap|, |st'.heap|) && spans.Keys <= NamesOf(relations)
            && forall rel :: rel in relations && OptionsFor(tree, rel.name).Some? ==>
                 ReadyIn(db, st'.heap, instances, rel, OptionsFor(tree, rel.name).value, spans)
    decreases |relations|
  {
    if relations == [] {
      spans := map[];
    } else {
      var rel := relations[0];
      var options := OptionsFor(tree, rel.name);
      var rest := relations[1..];
      var st1 := if options.None? then st else LoadRelation(db, st, instances, rel, options.value);
      if options.Some? {
        OptionsAreSortable(db, entity, tree, rel.name);
        LoadRelationIsOwn(db, st, instances, rel, options.value);
      }
      assert Grown(st.heap, st1.heap, instances, {rel.name});
      var later := LoadRelationsIsOwn(db, st1, entity, instances, rest, tree);
      var st' := LoadRelations(db, st1, instances, rest, tree);
      assert rel.name !in NamesOf(rest);
      spans := later[rel.name := (|st.heap|, |st1.heap|)];
      GrownInSequence(st.heap, st1.heap, st'.heap, instances, {rel.name}, NamesOf(rest));
      assert {rel.name} + NamesOf(rest) == NamesOf(relations);
      SpansExtend(later, rel.name, |st.heap|, |st1.heap|, |st'.heap|);
      forall r | r in relations && OptionsFor(tree, r.name).Some?
        ensures ReadyIn(db, st'.heap, instances, r, OptionsFor(tree, r.name).value, spans)
      {
        if r == rel {
          ReadyStays(db, st1.heap, st'.heap, instances, NamesOf(rest), rel, options.value, |st.heap|, |st1.heap|);
        } else {
          assert r in rest && r.name != rel.name;
          assert ReadyIn(db, st'.heap, instances, r, OptionsFor(tree, r.name).value, later);
        }
      }
    }
  }

  lemma SpansExtend(later: Spans, name: string, lo: nat, mid: nat, hi: nat)
    requires name !in later && lo <= mid <= hi && ValidSpans(later, mid, hi)
    ensures ValidSpans(later[name := (lo, mid)], lo, hi)
  {
    var spans := later[name := (lo, mid)];
    forall m, n, x | m != n && InSpan(spans, m, x) ensures !InSpan(spans, n, x) {
      assert m != name ==> InSpan(later, m, x);
      assert n != name && InSpan(spans, n, x) ==> InSpan(later, n, x);
    }
  }

  // ------------------------------------------------------------ nested levels

  lemma {:induction false} AddNewAdds(refs: seq<Ref>, seen: seq<Ref>)
    ensures forall r :: r in AddNew(refs, seen) <==> r in refs || r in seen
    decreases |refs|
  {
    if refs != [] {
      AddNewAdds(refs[1..], if refs[0] in seen then seen else seen + [refs[0]]);
      assert refs == [refs[0]] + refs[1..];
    }
  }

  lemma {:induction false} CollectFindsAll(h: Heap, instances: seq<Ref>, name: string, seen: seq<Ref>, r: Ref)
    ensures r in Collect(h, instances, name, seen) <==>
              r in seen || exists o :: o in instances && r in PropRefs(Get(h, o), name)
    decreases |instances|
  {
    if instances != [] {
      var refs := PropRefs(Get(h, instances[0]), name);
      AddNewAdds(refs, seen);
      CollectFindsAll(h, instances[1..], name, AddNew(refs, seen), r);
      assert instances == [instances[0]] + instances[1..];
    }
  }

  /** The spans of the relations `tree` names. */
  ghost predicate InTreeSpans(spans: Spans, tree: Tree, x: nat) {
    tree.Node? && (InSpan(spans, tree.name, x) || InTreeSpans(spans, tree.rest, x))
  }

  ghost predicate TreeReady(db: Db, h: Heap, entity: Entity, instances: seq<Ref>, tree: Tree, spans: Spans)
    requires ValidTree(db, entity, tree)
  {
    tree.Node? ==>
      && ReadyIn(db, h, instances, Named(RelationsOf(db, entity), tree.name).value, tree.options, spans)
      && TreeReady(db, h, entity, instances, tree.rest, spans)
  }

  /** A finished instance shows its own load, and its view stays in its part of
      the heap. */
  ghost predicate ShowsOwn(db: Db, h: Heap, before: Obj, o: Ref, tree: Tree, spans: Spans, lo: nat) {
    && Relateds(h, o, tree) == OwnRelateds(db, before, tree)
    && forall x :: x in SupportBelow(h, o, tree) ==> InTreeSpans(spans, tree, x) || lo <= x < |h|
  }

  lemma {:induction false} OwnDependsOnRow(db: Db, a: Obj, b: Obj, tree: Tree)
    requires SameRow(a, b)
    ensures OwnRelateds(db, a, tree) == OwnRelateds(db, b, tree)
  {
    if tree.Node? {
      var rel := Named(RelationsOf(db, a.entity), tree.name);
      if rel.Some? { assert MatchKey(rel.value, a) == MatchKey(rel.value, b); }
      OwnDependsOnRow(db, a, b, tree.rest);
    }
  }

  lemma {:induction false} TreeIsReady(db: Db, h: Heap, entity: Entity, instances: seq<Ref>, whole: Tree, tree: Tree,
                                       spans: Spans)
    requires ValidTree(db, entity, tree)
    requires forall name :: OptionsFor(tree, name).Some? ==> OptionsFor(whole, name) == OptionsFor(tree, name)
    requires forall rel :: rel in RelationsOf(db, entity) && OptionsFor(whole, rel.name).Some? ==>
               ReadyIn(db, h, instances, rel, OptionsFor(whole, rel.name).value, spans)
    ensures TreeReady(db, h, entity, instances, tree, spans)
  {
    if tree.Node? {
      assert OptionsFor(tree, tree.name) == Some(tree.options);
      forall name | OptionsFor(tree.rest, name).Some? ensures OptionsFor(whole, name) == OptionsFor(tree.rest, name) {
        assert OptionsFor(tree, name) == OptionsFor(tree.rest, name);
      }
      TreeIsReady(db, h, entity, instances, whole, tree.rest, spans);
    }
  }

  lemma {:induction false} RestAvoidsSpan(spans: Spans, lo: nat, hi: nat, tree: Tree, name: string, x: nat)
    requires ValidSpans(spans, lo, hi) && OptionsFor(tree, name).None? && InTreeSpans(spans, tree, x)
    ensures !InSpan(spans, name, x) && lo <= x < hi
  {
    if !InSpan(spans, tree.name, x) { RestAvoidsSpan(spans, lo, hi, tree.rest, name, x); }
  }

  lemma {:induction false} TreeSpansInside(spans: Spans, lo: nat, hi: nat, tree: Tree, x: nat)
    requires ValidSpans(spans, lo, hi) && InTreeSpans(spans, tree, x)
    ensures lo <= x < hi
  {
    if !InSpan(spans, tree.name, x) { TreeSpansInside(spans, lo, hi, tree.rest, x); }
  }

  /** Nothing below one relation touches what the others are ready with. */
  lemma {:induction false} TreeReadyStays(db: Db, h: Heap, h': Heap, entity: Entity, instances: seq<Ref>, tree: Tree,
                                          spans: Spans, lo: nat, hi: nat, name: string)
    requires ValidTree(db, entity, tree) && TreeReady(db, h, entity, instances, tree, spans)
    requires ValidSpans(spans, lo, hi) && hi <= |h| <= |h'| && OptionsFor(tree, name).None?
    requires forall o :: o in instances ==> o < lo
    requires forall x :: 0 <= x < |h| && !InSpan(spans, name, x) ==> h'[x] == h[x]
    ensures TreeReady(db, h', entity, instances, tree, spans)
  {
    if tree.Node? {
      TreeReadyStays(db, h, h', entity, instances, tree.rest, spans, lo, hi, name);
      var rel := Named(RelationsOf(db, entity), tree.name).value;
      var from, to := spans[rel.name].0, spans[rel.name].1;
      forall o | o in instances
        ensures rel.name in h'[o].props
        ensures Shows(h', h'[o].props[rel.name], rel, OwnRelated(db, rel, tree.options, h'[o]), from, to)
      {
        assert h'[o] == h[o];
        forall x | from <= x < to && x < |h| ensures h'[x] == h[x] { assert InSpan(spans, rel.name, x); }
        ShowsStill(h, h', h[o].props[rel.name], rel, OwnRelated(db, rel, tree.options, h[o]), from, to);
      }
    }
  }

  /** The objects collected under a ready relation are its own fresh ones. */
  lemma CollectedAreFresh(db: Db, h: Heap, instances: seq<Ref>, rel: Relation, options: Options, spans: Spans, r: Ref)
    requires ReadyIn(db, h, instances, rel, options, spans) && r in Collect(h, instances, rel.name, [])
    ensures InSpan(spans, rel.name, r) && r < |h| && h[r].entity == rel.related
  {
    CollectFindsAll(h, instances, rel.name, [], r);
    var o :| o in instances && r in PropRefs(Get(h, o), rel.name);
    ShownRef(h, h[o].props[rel.name], rel, OwnRelated(db, rel, options, h[o]), spans[rel.name].0, spans[rel.name].1, r);
  }

  lemma ShownRef(h: Heap, value: Value, rel: Relation, rows: seq<Row>, lo: nat, hi: nat, r: Ref)
    requires Shows(h, value, rel, rows, lo, hi) && r in RefsIn(value)
    ensures lo <= r < hi <= |h| && h[r].entity == rel.related
  {}

  /** One object under a relation, once its nested level is loaded. */
  ghost predicate HeadRefShows(db: Db, h: Heap, h1: Heap, r: Ref, specs: seq<CountSpec>, children: Tree) {
    && r < |h| && ViewOf(h1, r, specs, children) == OwnView(db, h[r], specs, children)
    && forall x :: x in Support(h1, r, children) ==> x == r || |h| <= x < |h1|
  }

  /** Once every object under `rel` shows its own load, so does the relation. */
  lemma HeadShows(db: Db, h: Heap, h1: Heap, o: Ref, rel: Relation, options: Options, children: Tree, spans: Spans)
    requires o < |h| && o < |h1| && h1[o] == h[o] && rel.name in h[o].props && rel.name in spans
    requires Named(RelationsOf(db, h[o].entity), rel.name) == Some(rel)
    requires Shows(h, h[o].props[rel.name], rel, OwnRelated(db, rel, options, h[o]), spans[rel.name].0, spans[rel.name].1)
    requires forall r :: r in PropRefs(h[o], rel.name) ==> HeadRefShows(db, h, h1, r, options.withCount, children)
    ensures RelatedView(h1, o, rel.name, options.withCount, children)
            == OwnRelatedView(db, h[o], rel.name, options, children)
    ensures forall x :: x in SupportAll(h1, PropRefs(h[o], rel.name), children) ==>
              InSpan(spans, rel.name, x) || |h| <= x < |h1|
  {
    var rows, value := OwnRelated(db, rel, options, h[o]), h[o].props[rel.name];
    ValueShowsOwn(db, h, h1, value, rel, rows, options.withCount, children, spans);
    SupportOfAll(h, h1, PropRefs(h[o], rel.name), children, spans, rel.name);
  }

  /** The objects of a value, in the relation's part of the heap. */
  lemma ValueShowsOwn(db: Db, h: Heap, h1: Heap, value: Value, rel: Relation, rows: seq<Row>, specs: seq<CountSpec>,
                      children: Tree, spans: Spans)
    requires rel.name in spans && Shows(h, value, rel, rows, spans[rel.name].0, spans[rel.name].1)
    requires forall r :: r in RefsIn(value) ==> HeadRefShows(db, h, h1, r, specs, children)
    ensures Collection(rel) ==>
              value.Many? && ViewsOf(h1, value.refs, specs, children) == OwnViews(db, rel.related, rows, specs, children)
    ensures !Collection(rel) ==> value.One? && (value.ref.None? <==> rows == [])
    ensures !Collection(rel) && rows != [] ==>
              ViewOf(h1, value.ref.value, specs, children)
              == OwnView(db, Fresh(rel.related, rows[|rows| - 1]), specs, children)
    ensures forall r :: r in RefsIn(value) ==> InSpan(spans, rel.name, r)
  {
    PropsInSpan(h, value, rel, rows, spans);
    if Collection(rel) {
      ManyShow(db, h, h1, value.refs, rel.related, rows, specs, children);
    } else if rows != [] {
      assert value.ref.value in RefsIn(value);
    }
  }

  lemma ManyShow(db: Db, h: Heap, h1: Heap, refs: seq<Ref>, entity: Entity, rows: seq<Row>, specs: seq<CountSpec>,
                 children: Tree)
    requires |refs| == |rows| && forall i :: 0 <= i < |rows| ==> refs[i] < |h| && h[refs[i]] == Fresh(entity, rows[i])
    requires forall r :: r in refs ==> HeadRefShows(db, h, h1, r, specs, children)
    ensures ViewsOf(h1, refs, specs, children) == OwnViews(db, entity, rows, specs, children)
  {
    forall i | 0 <= i < |rows|
      ensures ViewsOf(h1, refs, specs, children)[i] == OwnViews(db, entity, rows, specs, children)[i]
    {
      assert refs[i] in refs && HeadRefShows(db, h, h1, refs[i], specs, children);
    }
  }

  lemma PropsInSpan(h: Heap, value: Value, rel: Relation, rows: seq<Row>, spans: Spans)
    requires rel.name in spans && Shows(h, value, rel, rows, spans[rel.name].0, spans[rel.name].1)
    ensures forall r :: r in RefsIn(value) ==> InSpan(spans, rel.name, r)
  {}

  lemma {:induction false} SupportOfAll(h: Heap, h1: Heap, refs: seq<Ref>, tree: Tree, spans: Spans, name: string)
    requires forall r :: r in refs ==> InSpan(spans, name, r)
    requires forall r, x :: r in refs && x in Support(h1, r, tree) ==> x == r || |h| <= x < |h1|
    ensures forall x :: x in SupportAll(h1, refs, tree) ==> InSpan(spans, name, x) || |h| <= x < |h1|
    decreases |refs|
  {
    if refs != [] {
      assert refs[0] in refs && forall r :: r in refs[1..] ==> r in refs;
      SupportOfAll(h, h1, refs[1..], tree, spans, name);
    }
  }

  /** What one level, with its counts, promises of its instances. */
  ghost predicate LevelShows(db: Db, h: Heap, h': Heap, instances: seq<Ref>, specs: seq<CountSpec>, tree: Tree) {
    && |h| <= |h'|
    && (forall x :: 0 <= x < |h| && x !in instances ==> h'[x] == h[x])
    && (forall o :: o in instances ==>
          && o < |h| && SameRow(h[o], h'[o]) && ViewOf(h', o, specs, tree) == OwnView(db, h[o], specs, tree)
          && forall x :: x in SupportBelow(h', o, tree) ==> |h| <= x < |h'|)
  }

  /** What the levels below promise, for the part of the tree still to load. */
  ghost predicate NestedShows(db: Db, h: Heap, h': Heap, instances: seq<Ref>, tree: Tree, spans: Spans) {
    && |h| <= |h'|
    && (forall x :: 0 <= x < |h| && !InTreeSpans(spans, tree, x) ==> h'[x] == h[x])
    && (forall o :: o in instances ==> o < |h| && ShowsOwn(db, h', h[o], o, tree, spans, |h|))
  }

  // ------------------------------------------------------------------ counts

  /** A count is told from the object's row. */
  lemma OwnCountOfRow(db: Db, entity: Entity, spec: CountSpec, a: Obj, b: Obj)
    requires SameRow(a, b)
    ensures OwnCount(db, entity, spec, a) == OwnCount(db, entity, spec, b)
  {
    var rel := Named(RelationsOf(db, entity), spec.relation);
    if rel.Some? { assert MatchKey(rel.value, a) == MatchKey(rel.value, b); }
  }

  lemma OwnCountsOfRow(db: Db, entity: Entity, specs: seq<CountSpec>, a: Obj, b: Obj)
    requires SameRow(a, b)
    ensures OwnCounts(db, entity, specs, a) == OwnCounts(db, entity, specs, b)
  {
    forall i | 0 <= i < |specs| ensures OwnCount(db, entity, specs[i], a) == OwnCount(db, entity, specs[i], b) {
      OwnCountOfRow(db, entity, specs[i], a, b);
    }
  }

  lemma {:induction false} CountsNothing(db: Db, entity: Entity, specs: seq<CountSpec>)
    requires db.sliceSize > 0
    ensures CountCost(db, entity, specs, 0) == 0
  {
    if specs != [] { CountsNothing(db, entity, specs[..|specs| - 1]); }
  }

  lemma {:induction false} CountsKeep(db: Db, entity: Entity, specs: seq<CountSpec>, o: Obj, n: string)
    ensures SameRow(o, WithCounts(db, entity, specs, o))
    ensures (forall i :: 0 <= i < |specs| ==> specs[i].property != n) ==> SameProp(o, WithCounts(db, entity, specs, o), n)
  {
    if specs != [] { CountsKeep(db, entity, specs[..|specs| - 1], o, n); }
  }

  lemma {:induction false} CountIsShown(db: Db, entity: Entity, specs: seq<CountSpec>, o: Obj, i: nat)
    requires i < |specs| && forall j, k :: 0 <= j < k < |specs| ==> specs[j].property != specs[k].property
    ensures ShownCount(WithCounts(db, entity, specs, o), specs[i]) == Some(OwnCount(db, entity, specs[i], o))
  {
    var front := specs[..|specs| - 1];
    if i == |specs| - 1 {
      CountsKeep(db, entity, front, o, "");
      OwnCountOfRow(db, entity, specs[i], o, WithCounts(db, entity, front, o));
    } else {
      CountIsShown(db, entity, front, o, i);
      assert front[i] == specs[i] && specs[i].property != specs[|specs| - 1].property;
    }
  }

  lemma CountsAreShown(db: Db, entity: Entity, specs: seq<CountSpec>, o: Obj)
    requires CountsApart(db, entity, specs)
    ensures ShownCounts(WithCounts(db, entity, specs, o), specs) == OwnCounts(db, entity, specs, o)
  {
    forall i | 0 <= i < |specs|
      ensures ShownCount(WithCounts(db, entity, specs, o), specs[i]) == Some(OwnCount(db, entity, specs[i], o))
    {
      CountIsShown(db, entity, specs, o, i);
    }
  }

  /** Counts overwrite no relation of the tree. */
  lemma {:induction false} CountsKeepTree(db: Db, entity: Entity, specs: seq<CountSpec>, o: Obj, tree: Tree)
    requires ValidTree(db, entity, tree) && CountsApart(db, entity, specs)
    ensures SameProps(o, WithCounts(db, entity, specs, o), tree)
  {
    if tree.Node? {
      CountsKeep(db, entity, specs, o, tree.name);
      CountsKeepTree(db, entity, specs, o, tree.rest);
    }
  }

  /** Once its counts are written a loaded level shows them too. */
  lemma CountedLevelShows(db: Db, h: Heap, h1: Heap, entity: Entity, instances: seq<Ref>, specs: seq<CountSpec>, tree: Tree)
    requires ValidTree(db, entity, tree) && CountsApart(db, entity, specs) && OfEntity(h, instances, entity)
    requires LevelShows(db, h, h1, instances, [], tree)
    ensures LevelShows(db, h, CountAll(db, h1, entity, instances, specs), instances, specs, tree)
  {
    var h' := CountAll(db, h1, entity, instances, specs);
    forall o | o in instances
      ensures SameRow(h[o], h'[o]) && ViewOf(h', o, specs, tree) == OwnView(db, h[o], specs, tree)
      ensures forall x :: x in SupportBelow(h', o, tree) ==> |h| <= x < |h'|
    {
      CountedShows(db, h, h1, h', entity, instances, specs, tree, o);
    }
  }

  lemma CountedShows(db: Db, h: Heap, h1: Heap, h': Heap, entity: Entity, instances: seq<Ref>, specs: seq<CountSpec>,
                     tree: Tree, o: Ref)
    requires ValidTree(db, entity, tree) && CountsApart(db, entity, specs) && OfEntity(h, instances, entity)
    requires LevelShows(db, h, h1, instances, [], tree) && o in instances
    requires h' == CountAll(db, h1, entity, instances, specs)
    ensures SameRow(h[o], h'[o]) && ViewOf(h', o, specs, tree) == OwnView(db, h[o], specs, tree)
    ensures SupportBelow(h', o, tree) == SupportBelow(h1, o, tree)
  {
    CountsKeep(db, entity, specs, h1[o], "");
    CountsAreShown(db, entity, specs, h1[o]);
    CountsKeepTree(db, entity, specs, h1[o], tree);
    BelowIsStable(h1, h', o, tree);
    OwnCountsOfRow(db, entity, specs, h[o], h1[o]);
    assert ViewOf(h1, o, [], tree).related == OwnView(db, h[o], [], tree).related;
  }

  // -------------------------------------------------------------- whole levels

  /** Each object reached along each path of the tree is assigned what loading
      that object alone would assign. */
  lemma {:induction false} LoadLevelIsOwn(db: Db, st: State, entity: Entity, instances: seq<Ref>, tree: Tree)
    requires ValidDb(db) && ValidTree(db, entity, tree) && OfEntity(st.heap, instances, entity)
    ensures LevelShows(db, st.heap, LoadLevel(db, st, entity, instances, tree).heap, instances, [], tree)
    decreases tree, 1
  {
    var st1 := LoadRelations(db, st, instances, RelationsOf(db, entity), tree);
    var h, h1 := st.heap, st1.heap;
    var spans := LoadRelationsIsOwn(db, st, entity, instances, RelationsOf(db, entity), tree);
    TreeIsReady(db, h1, entity, instances, tree, tree, spans);
    forall o | o in instances ensures o < |h1| && h1[o].entity == entity { assert SameRow(h[o], h1[o]); }
    LoadNestedIsOwn(db, st1, entity, instances, tree, spans, |h|, |h1|);
    var h' := LoadNested(db, st1, entity, instances, tree).heap;
    LevelFromNested(db, h, h1, h', instances, tree, spans, NamesOf(RelationsOf(db, entity)));
  }

  /** The same with counts asked for on the instances themselves. */
  lemma LoadCountedIsOwn(db: Db, st: State, entity: Entity, instances: seq<Ref>, specs: seq<CountSpec>, tree: Tree)
    requires ValidDb(db) && ValidTree(db, entity, tree) && CountsApart(db, entity, specs)
    requires OfEntity(st.heap, instances, entity)
    ensures var loaded := LoadCounts(db, LoadLevel(db, st, entity, instances, tree), entity, instances, specs);
            LevelShows(db, st.heap, loaded.heap, instances, specs, tree)
  {
    LoadLevelIsOwn(db, st, entity, instances, tree);
    CountedLevelShows(db, st.heap, LoadLevel(db, st, entity, instances, tree).heap, entity, instances, specs, tree);
  }

  lemma LevelFromNested(db: Db, h: Heap, h1: Heap, h': Heap, instances: seq<Ref>, tree: Tree, spans: Spans,
                        names: set<string>)
    requires Valid(h, instances) && Grown(h, h1, instances, names) && ValidSpans(spans, |h|, |h1|)
    requires NestedShows(db, h1, h', instances, tree, spans)
    ensures LevelShows(db, h, h', instances, [], tree)
  {
    forall x | 0 <= x < |h| ensures h'[x] == h1[x] {
      if InTreeSpans(spans, tree, x) { TreeSpansInside(spans, |h|, |h1|, tree, x); }
    }
    forall o | o in instances
      ensures SameRow(h[o], h'[o]) && ViewOf(h', o, [], tree) == OwnView(db, h[o], [], tree)
      ensures forall x :: x in SupportBelow(h', o, tree) ==> |h| <= x < |h'|
    {
      OwnDependsOnRow(db, h[o], h1[o], tree);
      forall x | x in SupportBelow(h', o, tree) ensures |h| <= x < |h'| {
        if InTreeSpans(spans, tree, x) { TreeSpansInside(spans, |h|, |h1|, tree, x); }
      }
    }
  }

  lemma {:induction false} LoadNestedIsOwn(db: Db, st: State, entity: Entity, instances: seq<Ref>, tree: Tree,
                                           spans: Spans, lo: nat, hi: nat)
    requires ValidDb(db) && ValidTree(db, entity, tree) && OfEntity(st.heap, instances, entity)
    requires (forall o :: o in instances ==> o < lo) && ValidSpans(spans, lo, hi) && lo <= hi <= |st.heap|
    requires TreeReady(db, st.heap, entity, instances, tree, spans)
    ensures NestedShows(db, st.heap, LoadNested(db, st, entity, instances, tree).heap, instances, tree, spans)
    decreases tree, 0
  {
    match tree
    case Leaf =>
    case Node(name, options, children, rest) =>
      var h := st.heap;
      var rel := Named(RelationsOf(db, entity), name).value;
      var related := Collect(h, instances, name, []);
      var st1 := if children.Leaf? || related == [] then st else LoadLevel(db, st, rel.related, related, children);
      var st2 := if related == [] then st1 else LoadCounts(db, st1, rel.related, related, options.withCount);
      forall r | r in related ensures r < |h| && h[r].entity == rel.related && InSpan(spans, name, r) {
        CollectedAreFresh(db, h, instances, rel, options, spans, r);
      }
      if !children.Leaf? && related != [] { LoadLevelIsOwn(db, st, rel.related, related, children); }
      RelatedShow(db, h, st1.heap, related, children);
      RelatedCounted(db, h, st1, st2, rel.related, related, options.withCount, children);
      NestedHead(db, h, st2.heap, entity, instances, tree, spans, lo, hi, related);
      TreeReadyStays(db, h, st2.heap, entity, instances, rest, spans, lo, hi, name);
      LoadNestedIsOwn(db, st2, entity, instances, rest, spans, lo, hi);
      NestedTail(db, h, st2.heap, LoadNested(db, st2, entity, instances, rest).heap, entity, instances, tree, spans, lo, hi);
  }

  /** Without a nested level the related objects already show their own load. */
  lemma RelatedShow(db: Db, h: Heap, h1: Heap, related: seq<Ref>, children: Tree)
    requires Valid(h, related)
    requires if children.Leaf? || related == [] then h1 == h else LevelShows(db, h, h1, related, [], children)
    ensures LevelShows(db, h, h1, related, [], children)
  {}

  lemma RelatedCounted(db: Db, h: Heap, st1: State, st2: State, entity: Entity, related: seq<Ref>, specs: seq<CountSpec>,
                       children: Tree)
    requires db.sliceSize > 0 && ValidTree(db, entity, children) && CountsApart(db, entity, specs)
    requires OfEntity(h, related, entity) && LevelShows(db, h, st1.heap, related, [], children)
    requires st2 == if related == [] then st1 else LoadCounts(db, st1, entity, related, specs)
    ensures LevelShows(db, h, st2.heap, related, specs, children)
  {
    if related != [] { CountedLevelShows(db, h, st1.heap, entity, related, specs, children); }
  }

  /** An instance whose first relation shows its own load. */
  ghost predicate HeadDone(db: Db, h: Heap, h1: Heap, o: Ref, tree: Tree, spans: Spans)
    requires tree.Node? && o < |h| <= |h1|
  {
    && h1[o] == h[o]
    && RelatedView(h1, o, tree.name, tree.options.withCount, tree.children)
       == OwnRelatedView(db, h[o], tree.name, tree.options, tree.children)
    && forall x :: x in SupportAll(h1, PropRefs(h[o], tree.name), tree.children) ==>
         InSpan(spans, tree.name, x) || |h| <= x < |h1|
  }

  /** The first relation of `tree`, once its nested level is loaded. */
  lemma NestedHead(db: Db, h: Heap, h1: Heap, entity: Entity, instances: seq<Ref>, tree: Tree, spans: Spans,
                   lo: nat, hi: nat, related: seq<Ref>)
    requires tree.Node? && ValidTree(db, entity, tree) && OfEntity(h, instances, entity)
    requires (forall o :: o in instances ==> o < lo) && ValidSpans(spans, lo, hi) && lo <= hi <= |h|
    requires TreeReady(db, h, entity, instances, tree, spans)
    requires related == Collect(h, instances, tree.name, [])
    requires forall r :: r in related ==> InSpan(spans, tree.name, r)
    requires LevelShows(db, h, h1, related, tree.options.withCount, tree.children)
    ensures |h| <= |h1| && forall x :: 0 <= x < |h| && !InSpan(spans, tree.name, x) ==> h1[x] == h[x]
    ensures forall o :: o in instances ==> o < |h| && HeadDone(db, h, h1, o, tree, spans)
  {
    forall x | 0 <= x < |h| && !InSpan(spans, tree.name, x) ensures h1[x] == h[x] { assert x !in related; }
    forall o | o in instances ensures o < |h| && HeadDone(db, h, h1, o, tree, spans) {
      assert !InSpan(spans, tree.name, o);
      InstanceHead(db, h, h1, entity, instances, tree, spans, related, o);
    }
  }

  lemma InstanceHead(db: Db, h: Heap, h1: Heap, entity: Entity, instances: seq<Ref>, tree: Tree, spans: Spans,
                     related: seq<Ref>, o: Ref)
    requires tree.Node? && ValidTree(db, entity, tree) && OfEntity(h, instances, entity) && o in instances
    requires TreeReady(db, h, entity, instances, tree, spans)
    requires related == Collect(h, instances, tree.name, [])
    requires forall r :: r in related ==> InSpan(spans, tree.name, r)
    requires LevelShows(db, h, h1, related, tree.options.withCount, tree.children) && h1[o] == h[o]
    ensures HeadDone(db, h, h1, o, tree, spans)
  {
    var rel := Named(RelationsOf(db, entity), tree.name).value;
    forall r | r in PropRefs(h[o], tree.name)
      ensures HeadRefShows(db, h, h1, r, tree.options.withCount, tree.children)
    {
      assert Get(h, o) == h[o];
      CollectFindsAll(h, instances, tree.name, [], r);
      RefShows(db, h, h1, related, r, tree.options.withCount, tree.children);
    }
    HeadShows(db, h, h1, o, rel, tree.options, tree.children, spans);
  }

  lemma RefShows(db: Db, h: Heap, h1: Heap, related: seq<Ref>, r: Ref, specs: seq<CountSpec>, children: Tree)
    requires LevelShows(db, h, h1, related, specs, children) && r in related
    ensures HeadRefShows(db, h, h1, r, specs, children)
  {}

  /** The first relation keeps what it shows while the others are loaded. */
  lemma NestedTail(db: Db, h: Heap, h1: Heap, h': Heap, entity: Entity, instances: seq<Ref>, tree: Tree, spans: Spans,
                   lo: nat, hi: nat)
    requires tree.Node? && ValidTree(db, entity, tree) && (forall o :: o in instances ==> o < lo)
    requires ValidSpans(spans, lo, hi) && lo <= hi <= |h| <= |h1|
    requires forall x :: 0 <= x < |h| && !InSpan(spans, tree.name, x) ==> h1[x] == h[x]
    requires forall o :: o in instances ==> HeadDone(db, h, h1, o, tree, spans)
    requires NestedShows(db, h1, h', instances, tree.rest, spans)
    ensures NestedShows(db, h, h', instances, tree, spans)
  {
    forall x | 0 <= x < |h| && !InTreeSpans(spans, tree, x) ensures h'[x] == h[x] {
      assert !InTreeSpans(spans, tree.rest, x);
    }
    forall x | 0 <= x < |h1| && (InSpan(spans, tree.name, x) || x < lo || hi <= x) ensures h'[x] == h1[x] {
      if InTreeSpans(spans, tree.rest, x) { RestAvoidsSpan(spans, lo, hi, tree.rest, tree.name, x); }
    }
    forall o | o in instances ensures ShowsOwn(db, h', h[o], o, tree, spans, |h|) {
      assert Get(h1, o) == h[o] && Get(h', o) == h[o];
      RelatedIsStable(h1, h', o, tree.name, tree.options.withCount, tree.children);
    }
  }
}
