/** The loader as it runs: loops that slice keys, group rows by key, hydrate
    objects and assign relation properties in place. */
module RelationLoader {
  import opened Metadata
  import opened RelationRows
  import opened RelationLoading
  import opened RelationLoadingProofs
  import opened RelationReads
  import opened RelationTreeProofs

  lemma CountsNext(db: Db, entity: Entity, specs: seq<CountSpec>, i: nat, o: Obj, keys: nat)
    requires db.sliceSize > 0 && i < |specs|
    ensures WithCounts(db, entity, specs[..i + 1], o) == WithCount(db, entity, specs[i], WithCounts(db, entity, specs[..i], o))
    ensures var rel := Named(RelationsOf(db, entity), specs[i].relation);
            CountCost(db, entity, specs[..i + 1], keys)
            == CountCost(db, entity, specs[..i], keys)
               + (if rel.Some? && Collection(rel.value) then Slices(keys, db.sliceSize, 0) else 0)
  {
    assert specs[..i + 1][..i] == specs[..i];
  }

  lemma CountedTwice(db: Db, entity: Entity, spec: CountSpec, o: Obj)
    ensures var o1 := WithCount(db, entity, spec, o); o1.id == o.id && WithCount(db, entity, spec, o1) == o1
  {
    var o1 := WithCount(db, entity, spec, o);
    assert OwnCount(db, entity, spec, o1) == OwnCount(db, entity, spec, o);
    assert o1.props[spec.property := Number(OwnCount(db, entity, spec, o))] == o1.props;
  }

  lemma AssignNext(h: Heap, instances: seq<Ref>, i: nat, rel: Relation, pairs: seq<Pair>, base: Ref)
    requires i < |instances| && instances[i] < |h|
    ensures AssignAll(h, instances[i..], rel, pairs, base)
            == AssignAll(h[instances[i] := Assigned(h[instances[i]], rel, pairs, base)], instances[i + 1..], rel, pairs, base)
  {
    assert instances[i..][1..] == instances[i + 1..];
  }

  lemma {:induction false} GroupAppend(pairs: seq<Pair>, x: Pair, base: Ref, key: Key)
    ensures Group(pairs + [x], base, key)
            == Group(pairs, base, key) + (if x.parent == key then [base + |pairs|] else [])
    decreases |pairs|
  {
    if pairs == [] {
      assert [] + [x] == [x];
    } else {
      assert (pairs + [x])[1..] == pairs[1..] + [x] && (pairs + [x])[0] == pairs[0];
      GroupAppend(pairs[1..], x, base + 1, key);
      var first: seq<Ref> := if pairs[0].parent == key then [base] else [];
      var last: seq<Ref> := if x.parent == key then [base + |pairs|] else [];
      assert first + (Group(pairs[1..], base + 1, key) + last) == first + Group(pairs[1..], base + 1, key) + last;
    }
  }

  /** The GROUP BY statement of a count over a slice of keys. */
  function CountStatement(db: Db, rel: Relation, spec: CountSpec): seq<Key> -> seq<Counted> {
    ids => GroupCount(Selected(Source(db, rel), ids, ShapeOf(db, rel, CountOptions(spec))))
  }

  /** Any map read off the sliced counts holds the length of the own read. */
  lemma CountedIsOwn(db: Db, rel: Relation, spec: CountSpec, keys: seq<Key>, counted: seq<Counted>, k: Key,
                     byParent: map<Key, nat>)
    requires db.sliceSize > 0 && Collection(rel) && k in keys
    requires counted == Sliced(CountStatement(db, rel, spec), keys, db.sliceSize, 0)
    requires k in byParent ==> Counted(k, byParent[k]) in counted
    requires forall c :: c in counted ==> c.parent in byParent
    ensures (if k in byParent then byParent[k] else 0)
            == |OwnRows(Source(db, rel), k, ShapeOf(db, rel, CountOptions(spec)))|
  {
    var run := CountStatement(db, rel, spec);
    var shape := ShapeOf(db, rel, CountOptions(spec));
    if k in byParent {
      var slice := SlicedRowOrigin(run, keys, db.sliceSize, 0, Counted(k, byParent[k]));
      CountsAreLengths(Source(db, rel), slice, shape, k);
    } else {
      assert keys[0..] == keys;
      var slice := SliceOfKey(run, keys, db.sliceSize, 0, k);
      CountsAreLengths(Source(db, rel), slice, shape, k);
    }
  }

  /** With its own relations loaded a level is ready for the ones below. */
  lemma LevelIsReady(db: Db, st: State, st1: State, entity: Entity, instances: seq<Ref>, tree: Tree) returns (spans: Spans)
    requires ValidDb(db) && ValidTree(db, entity, tree) && OfEntity(st.heap, instances, entity)
    requires st1 == LoadRelations(db, st, instances, RelationsOf(db, entity), tree)
    ensures OfEntity(st1.heap, instances, entity) && forall o :: o in instances ==> o < |st.heap|
    ensures |st.heap| <= |st1.heap| && ValidSpans(spans, |st.heap|, |st1.heap|)
    ensures TreeReady(db, st1.heap, entity, instances, tree, spans)
  {
    spans := LoadRelationsIsOwn(db, st, entity, instances, RelationsOf(db, entity), tree);
    TreeIsReady(db, st1.heap, entity, instances, tree, tree, spans);
    forall o | o in instances ensures o < |st1.heap| && st1.heap[o].entity == entity { assert SameRow(st.heap[o], st1.heap[o]); }
  }

  /** Without counts nothing changes. */
  lemma NothingCounted(db: Db, st: State, entity: Entity, instances: seq<Ref>, specs: seq<CountSpec>)
    requires db.sliceSize > 0
    ensures specs == [] ==> LoadCounts(db, st, entity, instances, specs) == st
  {
    if specs == [] { assert CountAll(db, st.heap, entity, instances, specs) == st.heap; }
  }

  lemma ShownIsAttached(db: Db, h: Heap, h': Heap, instances: seq<Ref>, specs: seq<CountSpec>, tree: Tree)
    requires LevelShows(db, h, h', instances, specs, tree)
    ensures LevelAttached(db, h, h', instances, specs, tree)
  {
    forall o | o in instances ensures o < |h| && Attached(db, h', o, h[o], specs, tree) {
      ViewsAttach(db, h', o, h[o], specs, tree);
    }
  }

  lemma ReadyIsAttached(db: Db, h: Heap, h': Heap, instances: seq<Ref>, rel: Relation, options: Options, lo: nat)
    requires Grown(h, h', instances, {rel.name}) && Valid(h, instances) && Ready(db, h', instances, rel, options, lo, |h'|)
    ensures RelationAttached(db, h, h', instances, rel, options)
  {
    forall o | o in instances
      ensures o < |h| <= |h'| && rel.name in h'[o].props
      ensures AttachedValue(db, h', h'[o].props[rel.name], rel, OwnRelated(db, rel, options, h[o]), [], Leaf)
    {
      assert SameRow(h[o], h'[o]) && MatchKey(rel, h[o]) == MatchKey(rel, h'[o]);
    }
  }

  lemma AttachedAfter(db: Db, st: State, instances: seq<Ref>, rel: Relation, options: Options)
    requires db.sliceSize > 0 && Valid(st.heap, instances)
    ensures Loadable(db, rel, options) ==>
              RelationAttached(db, st.heap, LoadRelation(db, st, instances, rel, options).heap, instances, rel, options)
  {
    if Loadable(db, rel, options) {
      LoadRelationIsOwn(db, st, instances, rel, options);
      ReadyIsAttached(db, st.heap, LoadRelation(db, st, instances, rel, options).heap, instances, rel, options, |st.heap|);
    }
  }

  class Loader {
    const db: Db
    var heap: Heap
    var statements: nat

    constructor (db: Db, heap: Heap)
      ensures this.db == db && this.heap == heap && statements == 0
    {
      this.db := db;
      this.heap := heap;
      statements := 0;
    }

    ghost function Contents(): State
      reads this
    {
      State(heap, statements)
    }

    /** The distinct keys the parents are matched by, null keys left out. */
    method CollectKeys(instances: seq<Ref>, rel: Relation) returns (keys: seq<Key>)
      ensures keys == MatchKeys(heap, instances, rel, [])
    {
      keys := [];
      for i := 0 to |instances|
        invariant MatchKeys(heap, instances[i..], rel, keys) == MatchKeys(heap, instances, rel, [])
      {
        assert instances[i..][1..] == instances[i + 1..];
        var key := MatchKey(rel, Get(heap, instances[i]));
        if key.Some? && key.value !in keys { keys := keys + [key.value]; }
      }
    }

    /** Runs a batched read over slices of keys small enough for the driver and
        merges the row sets; a single slice is one plain statement. */
    method QueryInChunks<R>(ids: seq<Key>, run: seq<Key> -> seq<R>) returns (rows: seq<R>)
      requires db.sliceSize > 0 && ids != []
      modifies this`statements
      ensures rows == Sliced(run, ids, db.sliceSize, 0)
      ensures statements == old(statements) + Slices(|ids|, db.sliceSize, 0)
    {
      var size := db.sliceSize;
      if |ids| <= size {
        assert ids[0..|ids|] == ids;
        statements := statements + 1;
        return run(ids);
      }
      rows := [];
      var start := 0;
      while start < |ids|
        invariant rows + Sliced(run, ids, size, start) == Sliced(run, ids, size, 0)
        invariant statements + Slices(|ids|, size, start) == old(statements) + Slices(|ids|, size, 0)
      {
        var part := run(ids[start..SliceEnd(|ids|, start, size)]);
        statements := statements + 1;
        rows := rows + part;
        start := start + size;
      }
    }

    /** The objects of each parent, in row order, as a map by key. */
    method GroupByKey(pairs: seq<Pair>, base: Ref) returns (byKey: map<Key, seq<Ref>>)
      ensures forall k :: (k in byKey <==> Group(pairs, base, k) != []) && (k in byKey ==> byKey[k] == Group(pairs, base, k))
    {
      byKey := map[];
      for i := 0 to |pairs|
        invariant forall k :: (k in byKey <==> Group(pairs[..i], base, k) != [])
                              && (k in byKey ==> byKey[k] == Group(pairs[..i], base, k))
      {
        var key := pairs[i].parent;
        ghost var before := byKey;
        byKey := byKey[key := (if key in byKey then byKey[key] else []) + [base + i]];
        assert pairs[..i + 1] == pairs[..i] + [pairs[i]];
        forall k ensures (k in byKey <==> Group(pairs[..i + 1], base, k) != [])
                 ensures k in byKey ==> byKey[k] == Group(pairs[..i + 1], base, k)
        {
          GroupAppend(pairs[..i], pairs[i], base, k);
          assert k in before <==> Group(pairs[..i], base, k) != [];
        }
      }
      assert pairs[..|pairs|] == pairs;
    }

    /** `parent[relation] = byKey.get(key) ?? empty` for every parent. */
    method Assign(instances: seq<Ref>, rel: Relation, byKey: map<Key, seq<Ref>>, ghost pairs: seq<Pair>, ghost base: Ref)
      requires Valid(heap, instances)
      requires forall k :: (k in byKey <==> Group(pairs, base, k) != []) && (k in byKey ==> byKey[k] == Group(pairs, base, k))
      modifies this`heap
      ensures heap == AssignAll(old(heap), instances, rel, pairs, base)
    {
      for i := 0 to |instances|
        invariant |heap| == |old(heap)|
        invariant AssignAll(heap, instances[i..], rel, pairs, base) == AssignAll(old(heap), instances, rel, pairs, base)
      {
        assert instances[i] in instances;
        AssignNext(heap, instances, i, rel, pairs, base);
        var o := heap[instances[i]];
        var key := MatchKey(rel, o);
        var refs: seq<Ref> := [];
        if key.Some? && key.value in byKey { refs := byKey[key.value]; }
        assert refs == if key.None? then [] else Group(pairs, base, key.value);
        assert ValueOf(rel, refs) == ValueFor(rel, o, pairs, base);
        heap := heap[instances[i] := o.(props := o.props[rel.name := ValueOf(rel, refs)])];
      }
    }

    /** Loads one relation onto every parent with one statement per slice. */
    method LoadOne(instances: seq<Ref>, rel: Relation, options: Options)
      requires db.sliceSize > 0 && Valid(heap, instances)
      modifies this
      ensures Contents() == LoadRelation(db, old(Contents()), instances, rel, options)
      ensures Loadable(db, rel, options) ==> RelationAttached(db, old(heap), heap, instances, rel, options)
    {
      AttachedAfter(db, Contents(), instances, rel, options);
      var keys := CollectKeys(instances, rel);
      if NothingToRead(rel, options, keys) {
        Assign(instances, rel, map[], [], |heap|);
        return;
      }
      var pairs := QueryInChunks(keys, Batched(db, rel, options));
      var base := |heap|;
      var byKey := GroupByKey(pairs, base);
      heap := heap + Hydrated(rel.related, pairs);
      Assign(instances, rel, byKey, pairs, base);
    }

    method CollectRelated(instances: seq<Ref>, name: string) returns (related: seq<Ref>)
      ensures related == Collect(heap, instances, name, [])
    {
      related := [];
      for i := 0 to |instances|
        invariant Collect(heap, instances[i..], name, related) == Collect(heap, instances, name, [])
      {
        assert instances[i..][1..] == instances[i + 1..];
        var refs := PropRefs(Get(heap, instances[i]), name);
        ghost var before := related;
        for j := 0 to |refs|
          invariant AddNew(refs[j..], related) == AddNew(refs, before)
        {
          assert refs[j..][1..] == refs[j + 1..];
          if refs[j] !in related { related := related + [refs[j]]; }
        }
      }
    }

    /** One level of the tree, then the levels below it: every instance ends up
        showing what loading it alone would show. */
    method LoadLevel(entity: Entity, instances: seq<Ref>, tree: Tree)
      requires ValidDb(db) && ValidTree(db, entity, tree) && OfEntity(heap, instances, entity)
      modifies this
      ensures Contents() == RelationLoading.LoadLevel(db, old(Contents()), entity, instances, tree)
      ensures LevelShows(db, old(heap), heap, instances, [], tree) && LevelAttached(db, old(heap), heap, instances, [], tree)
      decreases tree, 1
    {
      ghost var st := Contents();
      LoadLevelIsOwn(db, st, entity, instances, tree);
      LoadEach(entity, instances, RelationsOf(db, entity), tree);
      ghost var spans := LevelIsReady(db, st, Contents(), entity, instances, tree);
      LoadNested(entity, instances, tree, spans, |st.heap|, |heap|);
      ShownIsAttached(db, st.heap, heap, instances, [], tree);
    }

    /** The requested ones of an entity's relations, in the order declared. */
    method LoadEach(entity: Entity, instances: seq<Ref>, relations: seq<Relation>, tree: Tree)
      requires db.sliceSize > 0 && ValidTree(db, entity, tree) && Valid(heap, instances)
      modifies this
      ensures Contents() == LoadRelations(db, old(Contents()), instances, relations, tree)
    {
      ghost var st1 := LoadRelations(db, Contents(), instances, relations, tree);
      assert relations[0..] == relations;
      for i := 0 to |relations|
        invariant Valid(heap, instances)
        invariant LoadRelations(db, Contents(), instances, relations[i..], tree) == st1
      {
        assert relations[i..][1..] == relations[i + 1..];
        var options := OptionsFor(tree, relations[i].name);
        if options.Some? {
          OptionsAreSortable(db, entity, tree, relations[i].name);
          LoadRelationIsOwn(db, Contents(), instances, relations[i], options.value);
          LoadOne(instances, relations[i], options.value);
        }
      }
    }

    /** The levels below the relations already attached to the instances. */
    method LoadNested(entity: Entity, instances: seq<Ref>, tree: Tree, ghost spans: Spans, ghost lo: nat, ghost hi: nat)
      requires ValidDb(db) && ValidTree(db, entity, tree) && OfEntity(heap, instances, entity)
      requires (forall o :: o in instances ==> o < lo) && ValidSpans(spans, lo, hi) && lo <= hi <= |heap|
      requires TreeReady(db, heap, entity, instances, tree, spans)
      modifies this
      ensures Contents() == RelationLoading.LoadNested(db, old(Contents()), entity, instances, tree)
      decreases tree, 0
    {
      var node := tree;
      while node.Node?
        invariant ValidTree(db, entity, node) && OfEntity(heap, instances, entity) && hi <= |heap|
        invariant TreeReady(db, heap, entity, instances, node, spans)
        invariant RelationLoading.LoadNested(db, Contents(), entity, instances, node)
                  == RelationLoading.LoadNested(db, old(Contents()), entity, instances, tree)
        invariant node == tree || node < tree
        decreases node
      {
        var rel := Named(RelationsOf(db, entity), node.name).value;
        var related := CollectRelated(instances, node.name);
        ghost var h := heap;
        forall r | r in related ensures r < |h| && h[r].entity == rel.related && InSpan(spans, node.name, r) {
          CollectedAreFresh(db, h, instances, rel, node.options, spans, r);
        }
        LoadRelated(rel.related, related, node.options.withCount, node.children);
        forall x | 0 <= x < |h| && !InSpan(spans, node.name, x) ensures heap[x] == h[x] {
          assert x !in related;
        }
        TreeReadyStays(db, h, heap, entity, instances, node.rest, spans, lo, hi, node.name);
        forall o | o in instances ensures heap[o] == h[o] { assert !InSpan(spans, node.name, o); }
        node := node.rest;
      }
    }

    /** What one node asks for on the objects of its relation: their own relations,
        then their counts. */
    method LoadRelated(entity: Entity, related: seq<Ref>, specs: seq<CountSpec>, children: Tree)
      requires ValidDb(db) && ValidTree(db, entity, children) && CountsApart(db, entity, specs)
      requires OfEntity(heap, related, entity)
      modifies this
      ensures var st := old(Contents());
              var st1 := if children.Leaf? || related == [] then st
                         else RelationLoading.LoadLevel(db, st, entity, related, children);
              Contents() == if related == [] then st1 else LoadCounts(db, st1, entity, related, specs)
      ensures LevelShows(db, old(heap), heap, related, specs, children)
      ensures LevelAttached(db, old(heap), heap, related, specs, children)
      decreases children, 2
    {
      if children.Node? && related != [] { LoadLevel(entity, related, children); }
      ghost var st1 := Contents();
      RelatedShow(db, old(heap), heap, related, children);
      if specs != [] && related != [] { LoadRelationCounts(entity, related, specs); }
      NothingCounted(db, st1, entity, related, specs);
      RelatedCounted(db, old(heap), st1, Contents(), entity, related, specs, children);
      ShownIsAttached(db, old(heap), heap, related, specs, children);
    }

    /** Writes the count of every requested relation to every parent: 0 without a
        key, and otherwise the length of what loading it would attach. The parent
        keys are collected once. */
    method LoadRelationCounts(entity: Entity, instances: seq<Ref>, specs: seq<CountSpec>)
      requires db.sliceSize > 0 && Valid(heap, instances)
      modifies this
      ensures |heap| == |old(heap)|
      ensures forall x :: 0 <= x < |heap| ==>
                heap[x] == if x in instances then WithCounts(db, entity, specs, old(heap)[x]) else old(heap)[x]
      ensures Contents() == LoadCounts(db, old(Contents()), entity, instances, specs)
    {
      if specs == [] || instances == [] {
        CountsNothing(db, entity, specs);
        return;
      }
      ghost var h := heap;
      var keys := CollectKeys(instances, ByOwnKey);
      forall x | x in instances && h[x].id.Some? ensures h[x].id.value in keys {
        KeyIsCollected(h, instances, ByOwnKey, x);
      }
      for i := 0 to |specs|
        invariant |heap| == |h| && statements == old(statements) + CountCost(db, entity, specs[..i], |keys|)
        invariant forall x :: 0 <= x < |h| ==>
                    heap[x] == if x in instances then WithCounts(db, entity, specs[..i], h[x]) else h[x]
      {
        forall x | 0 <= x < |h|
          ensures WithCounts(db, entity, specs[..i + 1], h[x]) == WithCount(db, entity, specs[i], WithCounts(db, entity, specs[..i], h[x]))
        {
          CountsNext(db, entity, specs, i, h[x], |keys|);
        }
        CountsNext(db, entity, specs, i, Obj("", None, map[], map[]), |keys|);
        CountOne(entity, instances, specs[i], keys);
      }
      assert specs[..|specs|] == specs;
    }

    /** One count: the statements, then the assignment to every parent. */
    method CountOne(entity: Entity, instances: seq<Ref>, spec: CountSpec, keys: seq<Key>)
      requires db.sliceSize > 0 && Valid(heap, instances)
      requires forall x :: x in instances && heap[x].id.Some? ==> heap[x].id.value in keys
      modifies this
      ensures |heap| == |old(heap)|
      ensures forall x :: 0 <= x < |heap| ==>
                heap[x] == if x in instances then WithCount(db, entity, spec, old(heap)[x]) else old(heap)[x]
      ensures var rel := Named(RelationsOf(db, entity), spec.relation);
              statements == old(statements)
                            + (if rel.Some? && Collection(rel.value) then Slices(|keys|, db.sliceSize, 0) else 0)
    {
      var rel := Named(RelationsOf(db, entity), spec.relation);
      var byParent: map<Key, nat> := map[];
      if rel.Some? && Collection(rel.value) { byParent := CountRelated(rel.value, spec, keys); }
      AssignCounts(entity, instances, spec, byParent);
    }

    /** `parent[property] = count`, 0 for a parent without a key or a count. */
    method AssignCounts(entity: Entity, instances: seq<Ref>, spec: CountSpec, byParent: map<Key, nat>)
      requires Valid(heap, instances)
      requires forall x :: x in instances ==>
                 OwnCount(db, entity, spec, heap[x])
                 == if heap[x].id.Some? && heap[x].id.value in byParent then byParent[heap[x].id.value] else 0
      modifies this`heap
      ensures |heap| == |old(heap)|
      ensures forall x :: 0 <= x < |heap| ==>
                heap[x] == if x in instances then WithCount(db, entity, spec, old(heap)[x]) else old(heap)[x]
    {
      ghost var h := heap;
      for i := 0 to |instances|
        invariant |heap| == |h|
        invariant forall x :: 0 <= x < |h| ==>
                    heap[x] == if x in instances[..i] then WithCount(db, entity, spec, h[x]) else h[x]
      {
        var p := instances[i];
        assert p in instances && instances[..i + 1] == instances[..i] + [p];
        CountedTwice(db, entity, spec, h[p]);
        var o := heap[p];
        var count := if o.id.Some? && o.id.value in byParent then byParent[o.id.value] else 0;
        assert count == OwnCount(db, entity, spec, h[p]);
        heap := heap[p := o.(props := o.props[spec.property := Number(count)])];
        assert heap[p] == WithCount(db, entity, spec, h[p]);
      }
      assert instances[..|instances|] == instances;
    }

    /** One GROUP BY statement per slice of keys, read into a map by key. */
    method CountRelated(rel: Relation, spec: CountSpec, keys: seq<Key>) returns (byParent: map<Key, nat>)
      requires db.sliceSize > 0 && Collection(rel)
      modifies this`statements
      ensures forall k :: k in keys ==>
                (if k in byParent then byParent[k] else 0)
                == |OwnRows(Source(db, rel), k, ShapeOf(db, rel, CountOptions(spec)))|
      ensures statements == old(statements) + Slices(|keys|, db.sliceSize, 0)
    {
      byParent := map[];
      if keys == [] { return; }
      var run := CountStatement(db, rel, spec);
      var counted := QueryInChunks(keys, run);
      byParent := MapCounts(counted);
      forall k | k in keys
        ensures (if k in byParent then byParent[k] else 0)
                == |OwnRows(Source(db, rel), k, ShapeOf(db, rel, CountOptions(spec)))|
      {
        CountedIsOwn(db, rel, spec, keys, counted, k, byParent);
      }
    }

    /** `byParent.set(key, count)` for every row read. */
    method MapCounts(counted: seq<Counted>) returns (byParent: map<Key, nat>)
      ensures forall k :: k in byParent ==> Counted(k, byParent[k]) in counted
      ensures forall c :: c in counted ==> c.parent in byParent
    {
      byParent := map[];
      for i := 0 to |counted|
        invariant forall k :: k in byParent ==> Counted(k, byParent[k]) in counted
        invariant forall c :: c in counted[..i] ==> c.parent in byParent
      {
        assert counted[i] in counted && counted[..i + 1] == counted[..i] + [counted[i]];
        byParent := byParent[counted[i].parent := counted[i].count];
      }
      assert counted[..|counted|] == counted;
    }
  }
}
