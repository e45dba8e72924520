/** What loading a relation tree costs: for every relation and every count of
    every level one statement per slice of the distinct keys its objects are
    matched by. */
module RelationCosts {
  import opened Metadata
  import opened RelationRows
  import opened RelationLoading
  import opened RelationLoadingProofs
  import opened RelationTreeProofs

  // ------------------------------------------------------- levels, as values

  /** An object as it was read, without what was attached to it. */
  function Bare(o: Obj): Obj {
    o.(props := map[])
  }

  function Level(h: Heap, instances: seq<Ref>): set<Obj> {
    set o | o in instances && o < |h| :: Bare(h[o])
  }

  /** The distinct keys the objects of a level are matched by. */
  function KeySet(level: set<Obj>, rel: Relation): set<Key> {
    set o | o in level && MatchKey(rel, o).Some? :: MatchKey(rel, o).value
  }

  /** What an object's own read attaches to it. */
  function Attached(db: Db, rel: Relation, options: Options, o: Obj): seq<Row> {
    var rows := OwnRelated(db, rel, options, o);
    if Collection(rel) || rows == [] then rows else [rows[|rows| - 1]]
  }

  /** The next level: everything the own reads of a level attach. */
  function Read(db: Db, level: set<Obj>, rel: Relation, options: Options): set<Obj> {
    set o, row | o in level && row in Attached(db, rel, options, o) :: Fresh(rel.related, row)
  }

  // ------------------------------------------------------------ what it costs

  /** One statement per slice of distinct keys, none when nothing can be read. */
  function RelationCost(db: Db, level: set<Obj>, rel: Relation, options: Options): nat
    requires db.sliceSize > 0
  {
    var keys := KeySet(level, rel);
    if keys == {} || (Collection(rel) && options.take == Some(0)) || (rel.Counterpart? && rel.ownerColumn.None?) then 0
    else Slices(|keys|, db.sliceSize, 0)
  }

  function RelationsCost(db: Db, level: set<Obj>, relations: seq<Relation>, tree: Tree): nat
    requires db.sliceSize > 0
  {
    if relations == [] then 0
    else
      var options := OptionsFor(tree, relations[0].name);
      (if options.None? then 0 else RelationCost(db, level, relations[0], options.value))
      + RelationsCost(db, level, relations[1..], tree)
  }

  /** The counts asked for on the objects of a level. */
  function CountsCost(db: Db, level: set<Obj>, entity: Entity, specs: seq<CountSpec>): nat
    requires db.sliceSize > 0
  {
    CountCost(db, entity, specs, |KeySet(level, ByOwnKey)|)
  }

  /** The whole tree, told from the database and the objects alone. */
  function LevelCost(db: Db, level: set<Obj>, entity: Entity, tree: Tree): nat
    requires db.sliceSize > 0
    decreases tree, 1
  {
    RelationsCost(db, level, RelationsOf(db, entity), tree) + NestedCost(db, level, entity, tree)
  }

  function NestedCost(db: Db, level: set<Obj>, entity: Entity, tree: Tree): nat
    requires db.sliceSize > 0
    decreases tree, 0
  {
    match tree
    case Leaf => 0
    case Node(name, options, children, rest) =>
      var rel := Named(RelationsOf(db, entity), name);
      (if rel.None? then 0
       else
         var next := Read(db, level, rel.value, options);
         LevelCost(db, next, rel.value.related, children) + CountsCost(db, next, rel.value.related, options.withCount))
      + NestedCost(db, level, entity, rest)
  }

  // ---------------------------------------------------------------- the keys

  /** A list without repetition is as long as its set. */
  lemma {:induction false} DistinctSize(ids: seq<Key>, keys: set<Key>)
    requires Distinct(ids) && forall k :: k in keys <==> k in ids
    ensures |ids| == |keys|
  {
    if ids == [] {
      forall k ensures k !in keys { assert k !in ids; }
    } else {
      var last, front := ids[|ids| - 1], ids[..|ids| - 1];
      assert ids == front + [last] && last !in front;
      DistinctSize(front, keys - {last});
    }
  }

  lemma {:induction false} MatchKeysAre(h: Heap, instances: seq<Ref>, rel: Relation, seen: seq<Key>, k: Key)
    requires Valid(h, instances)
    ensures k in MatchKeys(h, instances, rel, seen) <==> k in seen || k in KeySet(Level(h, instances), rel)
    decreases |instances|
  {
    if instances == [] {
      assert Level(h, instances) == {};
    } else {
      var o, rest := instances[0], instances[1..];
      assert instances == [o] + rest && o in instances && forall x :: x in rest ==> x in instances;
      var key := MatchKey(rel, h[o]);
      MatchKeysAre(h, rest, rel, if key.None? || key.value in seen then seen else seen + [key.value], k);
      assert Level(h, instances) == {Bare(h[o])} + Level(h, rest);
      KeySetAdds(h[o], Level(h, rest), rel, k);
    }
  }

  lemma KeySetAdds(o: Obj, level: set<Obj>, rel: Relation, k: Key)
    ensures k in KeySet({Bare(o)} + level, rel) <==> MatchKey(rel, o) == Some(k) || k in KeySet(level, rel)
  {
    assert MatchKey(rel, Bare(o)) == MatchKey(rel, o);
    if k in KeySet(level, rel) {
      var x :| x in level && MatchKey(rel, x) == Some(k);
      assert x in {Bare(o)} + level;
    }
    if MatchKey(rel, o) == Some(k) { assert Bare(o) in {Bare(o)} + level; }
  }

  lemma KeysOfLevel(h: Heap, instances: seq<Ref>, rel: Relation)
    requires Valid(h, instances)
    ensures |MatchKeys(h, instances, rel, [])| == |KeySet(Level(h, instances), rel)|
    ensures MatchKeys(h, instances, rel, []) == [] <==> KeySet(Level(h, instances), rel) == {}
  {
    var ids, keys := MatchKeys(h, instances, rel, []), KeySet(Level(h, instances), rel);
    MatchKeysAreDistinct(h, instances, rel, []);
    forall k ensures k in keys <==> k in ids { MatchKeysAre(h, instances, rel, [], k); }
    DistinctSize(ids, keys);
    if keys != {} { var k :| k in keys; }
  }

  // ------------------------------------------------------------ one relation

  /** Loading one relation issues one statement per slice of the distinct keys
      of its instances, however many instances there are. */
  lemma LoadRelationCost(db: Db, st: State, instances: seq<Ref>, rel: Relation, options: Options)
    requires db.sliceSize > 0 && Valid(st.heap, instances)
    ensures LoadRelation(db, st, instances, rel, options).statements
            == st.statements + RelationCost(db, Level(st.heap, instances), rel, options)
  {
    KeysOfLevel(st.heap, instances, rel);
  }

  lemma LevelStays(h: Heap, h': Heap, instances: seq<Ref>, names: set<string>)
    requires Valid(h, instances) && Grown(h, h', instances, names)
    ensures Level(h', instances) == Level(h, instances)
  {
    forall o | o in instances ensures Bare(h'[o]) == Bare(h[o]) { assert SameRow(h[o], h'[o]); }
  }

  lemma {:induction false} LoadRelationsCost(db: Db, st: State, entity: Entity, instances: seq<Ref>, relations: seq<Relation>,
                                             tree: Tree)
    requires db.sliceSize > 0 && ValidTree(db, entity, tree) && Valid(st.heap, instances)
    ensures LoadRelations(db, st, instances, relations, tree).statements
            == st.statements + RelationsCost(db, Level(st.heap, instances), relations, tree)
    decreases |relations|
  {
    if relations != [] {
      var rel := relations[0];
      var options := OptionsFor(tree, rel.name);
      if options.None? {
        LoadRelationsCost(db, st, entity, instances, relations[1..], tree);
      } else {
        var st1 := LoadRelation(db, st, instances, rel, options.value);
        OptionsAreSortable(db, entity, tree, rel.name);
        LoadRelationIsOwn(db, st, instances, rel, options.value);
        LoadRelationCost(db, st, instances, rel, options.value);
        LevelStays(st.heap, st1.heap, instances, {rel.name});
        LoadRelationsCost(db, st1, entity, instances, relations[1..], tree);
      }
    }
  }

  // ------------------------------------------------------------ the next level

  lemma AttachedOfBare(db: Db, rel: Relation, options: Options, o: Obj)
    ensures Attached(db, rel, options, Bare(o)) == Attached(db, rel, options, o)
  {
    assert MatchKey(rel, Bare(o)) == MatchKey(rel, o);
  }

  /** Every object collected was attached by some own read ... */
  lemma CollectedIsRead(db: Db, h: Heap, instances: seq<Ref>, rel: Relation, options: Options, spans: Spans, r: Ref)
    requires ReadyIn(db, h, instances, rel, options, spans) && r in Collect(h, instances, rel.name, [])
    ensures r < |h| && Bare(h[r]) in Read(db, Level(h, instances), rel, options)
  {
    CollectFindsAll(h, instances, rel.name, [], r);
    var o :| o in instances && r in PropRefs(Get(h, o), rel.name);
    var rows := OwnRelated(db, rel, options, h[o]);
    assert Shows(h, h[o].props[rel.name], rel, rows, spans[rel.name].0, spans[rel.name].1);
    var row := RowBehind(h, h[o].props[rel.name], rel, rows, spans[rel.name].0, spans[rel.name].1, r);
    AttachedOfBare(db, rel, options, h[o]);
    assert Bare(h[o]) in Level(h, instances) && row in Attached(db, rel, options, Bare(h[o]));
    assert Bare(h[r]) == Fresh(rel.related, row);
  }

  lemma RowBehind(h: Heap, value: Value, rel: Relation, rows: seq<Row>, lo: nat, hi: nat, r: Ref) returns (row: Row)
    requires Shows(h, value, rel, rows, lo, hi) && r in RefsIn(value)
    ensures r < |h| && h[r] == Fresh(rel.related, row)
    ensures row in if Collection(rel) || rows == [] then rows else [rows[|rows| - 1]]
  {
    if Collection(rel) {
      var i :| 0 <= i < |value.refs| && value.refs[i] == r;
      row := rows[i];
    } else {
      row := rows[|rows| - 1];
    }
  }

  /** ... and all that was attached is collected. */
  lemma ReadIsCollected(db: Db, h: Heap, instances: seq<Ref>, rel: Relation, options: Options, spans: Spans, o: Ref, row: Row)
    requires ReadyIn(db, h, instances, rel, options, spans) && o in instances && o < |h|
    requires row in Attached(db, rel, options, h[o])
    ensures Fresh(rel.related, row) in Level(h, Collect(h, instances, rel.name, []))
  {
    var rows := OwnRelated(db, rel, options, h[o]);
    assert Shows(h, h[o].props[rel.name], rel, rows, spans[rel.name].0, spans[rel.name].1);
    var r := RefOf(h, h[o].props[rel.name], rel, rows, spans[rel.name].0, spans[rel.name].1, row);
    assert Get(h, o) == h[o] && r in PropRefs(Get(h, o), rel.name);
    CollectFindsAll(h, instances, rel.name, [], r);
    assert Bare(h[r]) == Fresh(rel.related, row);
  }

  lemma RefOf(h: Heap, value: Value, rel: Relation, rows: seq<Row>, lo: nat, hi: nat, row: Row) returns (r: Ref)
    requires Shows(h, value, rel, rows, lo, hi)
    requires row in if Collection(rel) || rows == [] then rows else [rows[|rows| - 1]]
    ensures r in RefsIn(value) && r < |h| && h[r] == Fresh(rel.related, row)
  {
    if Collection(rel) {
      var i :| 0 <= i < |rows| && rows[i] == row;
      r := value.refs[i];
    } else {
      r := value.ref.value;
    }
  }

  /** The objects collected under a loaded relation are the next level. */
  lemma CollectedLevel(db: Db, h: Heap, instances: seq<Ref>, rel: Relation, options: Options, spans: Spans)
    requires ReadyIn(db, h, instances, rel, options, spans)
    ensures Level(h, Collect(h, instances, rel.name, [])) == Read(db, Level(h, instances), rel, options)
  {
    var related := Collect(h, instances, rel.name, []);
    forall x | x in Level(h, related) ensures x in Read(db, Level(h, instances), rel, options) {
      var r :| r in related && r < |h| && Bare(h[r]) == x;
      CollectedIsRead(db, h, instances, rel, options, spans, r);
    }
    forall x | x in Read(db, Level(h, instances), rel, options) ensures x in Level(h, related) {
      var b, row :| b in Level(h, instances) && row in Attached(db, rel, options, b) && Fresh(rel.related, row) == x;
      var o :| o in instances && o < |h| && Bare(h[o]) == b;
      AttachedOfBare(db, rel, options, h[o]);
      ReadIsCollected(db, h, instances, rel, options, spans, o, row);
    }
  }

  // ------------------------------------------------------ levels that cost nothing

  lemma {:induction false} NothingAsked(db: Db, level: set<Obj>, relations: seq<Relation>, tree: Tree)
    requires db.sliceSize > 0 && (level == {} || tree.Leaf?)
    ensures RelationsCost(db, level, relations, tree) == 0
    decreases |relations|
  {
    if relations != [] {
      NothingAsked(db, level, relations[1..], tree);
      if level == {} { assert KeySet(level, relations[0]) == {}; }
    }
  }

  lemma {:induction false} NothingBelow(db: Db, level: set<Obj>, entity: Entity, tree: Tree)
    requires db.sliceSize > 0 && (level == {} || tree.Leaf?)
    ensures LevelCost(db, level, entity, tree) == 0 && NestedCost(db, level, entity, tree) == 0
    decreases tree
  {
    NothingAsked(db, level, RelationsOf(db, entity), tree);
    if tree.Node? {
      var rel := Named(RelationsOf(db, entity), tree.name);
      if rel.Some? {
        assert Read(db, level, rel.value, tree.options) == {} && KeySet({}, ByOwnKey) == {};
        NothingBelow(db, {}, rel.value.related, tree.children);
        CountsNothing(db, rel.value.related, tree.options.withCount);
      }
      NothingBelow(db, level, entity, tree.rest);
    }
  }

  // ------------------------------------------------------------ the whole tree

  lemma {:induction false} LoadNestedCost(db: Db, st: State, entity: Entity, instances: seq<Ref>, tree: Tree, spans: Spans,
                                          lo: nat, hi: nat)
    requires ValidDb(db) && ValidTree(db, entity, tree) && OfEntity(st.heap, instances, entity)
    requires (forall o :: o in instances ==> o < lo) && ValidSpans(spans, lo, hi) && lo <= hi <= |st.heap|
    requires TreeReady(db, st.heap, entity, instances, tree, spans)
    ensures LoadNested(db, st, entity, instances, tree).statements
            == st.statements + NestedCost(db, Level(st.heap, instances), entity, tree)
    decreases tree, 0
  {
    if tree.Node? {
      var h, level := st.heap, Level(st.heap, instances);
      var rel := Named(RelationsOf(db, entity), tree.name).value;
      var related := Collect(h, instances, tree.name, []);
      var st1 := if tree.children.Leaf? || related == [] then st else LoadLevel(db, st, rel.related, related, tree.children);
      var st2 := if related == [] then st1 else LoadCounts(db, st1, rel.related, related, tree.options.withCount);
      HeadCost(db, st, st1, st2, entity, instances, tree, spans, related);
      HeadKeeps(db, st, st1, st2, entity, instances, tree, spans, lo, hi, related);
      LoadNestedCost(db, st2, entity, instances, tree.rest, spans, lo, hi);
    }
  }

  /** What runs below one relation: its nested level, then the counts asked for
      on its objects. */
  ghost predicate HeadRuns(db: Db, st: State, st1: State, st2: State, entity: Entity, tree: Tree, related: seq<Ref>)
    requires db.sliceSize > 0 && tree.Node? && Named(RelationsOf(db, entity), tree.name).Some?
  {
    var rel := Named(RelationsOf(db, entity), tree.name).value;
    && st1 == (if tree.children.Leaf? || related == [] then st else LoadLevel(db, st, rel.related, related, tree.children))
    && st2 == (if related == [] then st1 else LoadCounts(db, st1, rel.related, related, tree.options.withCount))
  }

  lemma {:induction false} HeadCost(db: Db, st: State, st1: State, st2: State, entity: Entity, instances: seq<Ref>, tree: Tree,
                                    spans: Spans, related: seq<Ref>)
    requires ValidDb(db) && tree.Node? && ValidTree(db, entity, tree) && OfEntity(st.heap, instances, entity)
    requires TreeReady(db, st.heap, entity, instances, tree, spans)
    requires related == Collect(st.heap, instances, tree.name, []) && HeadRuns(db, st, st1, st2, entity, tree, related)
    ensures var rel := Named(RelationsOf(db, entity), tree.name).value;
            var next := Read(db, Level(st.heap, instances), rel, tree.options);
            st2.statements == st.statements + LevelCost(db, next, rel.related, tree.children)
                              + CountsCost(db, next, rel.related, tree.options.withCount)
    decreases tree.children, 2
  {
    var rel := Named(RelationsOf(db, entity), tree.name).value;
    CollectedLevel(db, st.heap, instances, rel, tree.options, spans);
    CollectedAreOf(db, st.heap, instances, rel, tree.options, spans, related);
    if tree.children.Leaf? || related == [] {
      NothingBelow(db, Level(st.heap, related), rel.related, tree.children);
    } else {
      LoadLevelCost(db, st, rel.related, related, tree.children);
      LoadLevelIsOwn(db, st, rel.related, related, tree.children);
    }
    RelatedShow(db, st.heap, st1.heap, related, tree.children);
    CountedCost(db, st.heap, st1, st2, rel.related, related, tree.options.withCount, tree.children);
  }

  /** The counts on the objects of a loaded level. */
  lemma CountedCost(db: Db, h: Heap, st1: State, st2: State, entity: Entity, related: seq<Ref>, specs: seq<CountSpec>,
                    tree: Tree)
    requires db.sliceSize > 0 && LevelShows(db, h, st1.heap, related, [], tree)
    requires st2 == if related == [] then st1 else LoadCounts(db, st1, entity, related, specs)
    ensures st2.statements == st1.statements + CountsCost(db, Level(h, related), entity, specs)
  {
    if related == [] {
      assert KeySet(Level(h, related), ByOwnKey) == {};
      CountsNothing(db, entity, specs);
    } else {
      forall o | o in related ensures Bare(st1.heap[o]) == Bare(h[o]) { assert SameRow(h[o], st1.heap[o]); }
      assert Level(st1.heap, related) == Level(h, related);
      KeysOfLevel(st1.heap, related, ByOwnKey);
    }
  }

  lemma CollectedAreOf(db: Db, h: Heap, instances: seq<Ref>, rel: Relation, options: Options, spans: Spans, related: seq<Ref>)
    requires ReadyIn(db, h, instances, rel, options, spans) && related == Collect(h, instances, rel.name, [])
    ensures OfEntity(h, related, rel.related) && forall r :: r in related ==> InSpan(spans, rel.name, r)
  {
    forall r | r in related ensures r < |h| && h[r].entity == rel.related && InSpan(spans, rel.name, r) {
      CollectedAreFresh(db, h, instances, rel, options, spans, r);
    }
  }

  /** The level below a relation leaves the others as they were. */
  lemma HeadKeeps(db: Db, st: State, st1: State, st2: State, entity: Entity, instances: seq<Ref>, tree: Tree, spans: Spans,
                  lo: nat, hi: nat, related: seq<Ref>)
    requires ValidDb(db) && tree.Node? && ValidTree(db, entity, tree) && OfEntity(st.heap, instances, entity)
    requires (forall o :: o in instances ==> o < lo) && ValidSpans(spans, lo, hi) && lo <= hi <= |st.heap|
    requires TreeReady(db, st.heap, entity, instances, tree, spans)
    requires related == Collect(st.heap, instances, tree.name, []) && HeadRuns(db, st, st1, st2, entity, tree, related)
    ensures |st.heap| <= |st2.heap| && OfEntity(st2.heap, instances, entity)
    ensures Level(st2.heap, instances) == Level(st.heap, instances)
    ensures TreeReady(db, st2.heap, entity, instances, tree.rest, spans)
  {
    var rel := Named(RelationsOf(db, entity), tree.name).value;
    CollectedAreOf(db, st.heap, instances, rel, tree.options, spans, related);
    if !(tree.children.Leaf? || related == []) { LoadLevelIsOwn(db, st, rel.related, related, tree.children); }
    RelatedShow(db, st.heap, st1.heap, related, tree.children);
    RelatedCounted(db, st.heap, st1, st2, rel.related, related, tree.options.withCount, tree.children);
    forall o | o in instances ensures st2.heap[o] == st.heap[o] { assert !InSpan(spans, tree.name, o); }
    TreeReadyStays(db, st.heap, st2.heap, entity, instances, tree.rest, spans, lo, hi, tree.name);
  }

  /** Loading a whole tree issues exactly the sum, over its levels and their
      relations and the counts on the objects below, of one statement per slice
      of that level's distinct keys. */
  lemma {:induction false} LoadLevelCost(db: Db, st: State, entity: Entity, instances: seq<Ref>, tree: Tree)
    requires ValidDb(db) && ValidTree(db, entity, tree) && OfEntity(st.heap, instances, entity)
    ensures LoadLevel(db, st, entity, instances, tree).statements
            == st.statements + LevelCost(db, Level(st.heap, instances), entity, tree)
    decreases tree, 1
  {
    var st1 := LoadRelations(db, st, instances, RelationsOf(db, entity), tree);
    var h, h1 := st.heap, st1.heap;
    var spans := LoadRelationsIsOwn(db, st, entity, instances, RelationsOf(db, entity), tree);
    LoadRelationsCost(db, st, entity, instances, RelationsOf(db, entity), tree);
    LevelStays(h, h1, instances, NamesOf(RelationsOf(db, entity)));
    TreeIsReady(db, h1, entity, instances, tree, tree, spans);
    forall o | o in instances ensures o < |h1| && h1[o].entity == entity { assert SameRow(h[o], h1[o]); }
    LoadNestedCost(db, st1, entity, instances, tree, spans, |h|, |h1|);
  }

  /** Counts asked for on the instances themselves cost theirs besides. */
  lemma LoadCountedCost(db: Db, st: State, entity: Entity, instances: seq<Ref>, specs: seq<CountSpec>, tree: Tree)
    requires ValidDb(db) && ValidTree(db, entity, tree) && OfEntity(st.heap, instances, entity)
    ensures LoadCounts(db, LoadLevel(db, st, entity, instances, tree), entity, instances, specs).statements
            == st.statements + LevelCost(db, Level(st.heap, instances), entity, tree)
               + CountsCost(db, Level(st.heap, instances), entity, specs)
  {
    var st1 := LoadLevel(db, st, entity, instances, tree);
    LoadLevelCost(db, st, entity, instances, tree);
    LoadLevelIsOwn(db, st, entity, instances, tree);
    CountedCost(db, st.heap, st1, if instances == [] then st1 else LoadCounts(db, st1, entity, instances, specs), entity,
                instances, specs, tree);
    CountsNothing(db, entity, specs);
  }

  // ---------------------------------------------------- one statement per relation

  /** The relations of one level the tree asks for. */
  function Requested(relations: seq<Relation>, tree: Tree): nat {
    if relations == [] then 0
    else (if OptionsFor(tree, relations[0].name).Some? then 1 else 0) + Requested(relations[1..], tree)
  }

  /** The collections counted. */
  function CountsAsked(db: Db, entity: Entity, specs: seq<CountSpec>): nat {
    if specs == [] then 0
    else
      var rel := Named(RelationsOf(db, entity), specs[|specs| - 1].relation);
      CountsAsked(db, entity, specs[..|specs| - 1]) + (if rel.Some? && Collection(rel.value) then 1 else 0)
  }

  /** The relations and counts the tree asks for on all its levels: a number of
      the schema and the request alone. */
  function Relations(db: Db, entity: Entity, tree: Tree): nat
    decreases tree, 1
  {
    Requested(RelationsOf(db, entity), tree) + RelationsBelow(db, entity, tree)
  }

  function RelationsBelow(db: Db, entity: Entity, tree: Tree): nat
    decreases tree, 0
  {
    match tree
    case Leaf => 0
    case Node(name, options, children, rest) =>
      var rel := Named(RelationsOf(db, entity), name);
      (if rel.None? then 0
       else Relations(db, rel.value.related, children) + CountsAsked(db, rel.value.related, options.withCount))
      + RelationsBelow(db, entity, rest)
  }

  ghost predicate OneSlice(db: Db, level: set<Obj>, relations: seq<Relation>, tree: Tree) {
    forall rel | rel in relations && OptionsFor(tree, rel.name).Some? :: |KeySet(level, rel)| <= db.sliceSize
  }

  /** On every level the distinct keys of every requested relation, and of every
      object counted on, fit a slice. */
  ghost predicate FitSlices(db: Db, level: set<Obj>, entity: Entity, tree: Tree)
    decreases tree, 1
  {
    OneSlice(db, level, RelationsOf(db, entity), tree) && FitBelow(db, level, entity, tree)
  }

  ghost predicate FitBelow(db: Db, level: set<Obj>, entity: Entity, tree: Tree)
    decreases tree, 0
  {
    match tree
    case Leaf => true
    case Node(name, options, children, rest) =>
      var rel := Named(RelationsOf(db, entity), name);
      && (rel.Some? ==>
            && FitSlices(db, Read(db, level, rel.value, options), rel.value.related, children)
            && (options.withCount != [] ==> |KeySet(Read(db, level, rel.value, options), ByOwnKey)| <= db.sliceSize))
      && FitBelow(db, level, entity, rest)
  }

  lemma {:induction false} OneSliceEach(db: Db, level: set<Obj>, relations: seq<Relation>, tree: Tree)
    requires db.sliceSize > 0 && OneSlice(db, level, relations, tree)
    ensures RelationsCost(db, level, relations, tree) <= Requested(relations, tree)
    decreases |relations|
  {
    if relations != [] {
      assert relations[0] in relations && forall rel :: rel in relations[1..] ==> rel in relations;
      OneSliceEach(db, level, relations[1..], tree);
      if OptionsFor(tree, relations[0].name).Some? { OneSliceIsEnough(|KeySet(level, relations[0])|, db.sliceSize); }
    }
  }

  lemma OneSliceIsEnough(n: nat, size: nat)
    requires n <= size && size > 0
    ensures Slices(n, size, 0) <= 1
  {
    assert Slices(n, size, size) == 0;
  }

  lemma {:induction false} OneSliceCounts(db: Db, entity: Entity, specs: seq<CountSpec>, keys: nat)
    requires db.sliceSize > 0 && (specs != [] ==> keys <= db.sliceSize)
    ensures CountCost(db, entity, specs, keys) <= CountsAsked(db, entity, specs)
  {
    if specs != [] {
      OneSliceCounts(db, entity, specs[..|specs| - 1], keys);
      OneSliceIsEnough(keys, db.sliceSize);
    }
  }

  lemma {:induction false} FittingCost(db: Db, level: set<Obj>, entity: Entity, tree: Tree)
    requires db.sliceSize > 0 && FitSlices(db, level, entity, tree)
    ensures LevelCost(db, level, entity, tree) <= Relations(db, entity, tree)
    decreases tree, 1
  {
    OneSliceEach(db, level, RelationsOf(db, entity), tree);
    FittingBelow(db, level, entity, tree);
  }

  lemma {:induction false} FittingBelow(db: Db, level: set<Obj>, entity: Entity, tree: Tree)
    requires db.sliceSize > 0 && FitBelow(db, level, entity, tree)
    ensures NestedCost(db, level, entity, tree) <= RelationsBelow(db, entity, tree)
    decreases tree, 0
  {
    if tree.Node? {
      var rel := Named(RelationsOf(db, entity), tree.name);
      if rel.Some? {
        var next := Read(db, level, rel.value, tree.options);
        FittingCost(db, next, rel.value.related, tree.children);
        OneSliceCounts(db, rel.value.related, tree.options.withCount, |KeySet(next, ByOwnKey)|);
      }
      FittingBelow(db, level, entity, tree.rest);
    }
  }

  /** Where each level's keys fit a slice: at most one statement per requested
      relation and count, however many objects there are. */
  lemma OneStatementPerRelation(db: Db, st: State, entity: Entity, instances: seq<Ref>, tree: Tree)
    requires ValidDb(db) && ValidTree(db, entity, tree) && OfEntity(st.heap, instances, entity)
    requires FitSlices(db, Level(st.heap, instances), entity, tree)
    ensures LoadLevel(db, st, entity, instances, tree).statements <= st.statements + Relations(db, entity, tree)
  {
    LoadLevelCost(db, st, entity, instances, tree);
    FittingCost(db, Level(st.heap, instances), entity, tree);
  }
}
