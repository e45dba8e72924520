/** What a relation read returns, position by position in the stored tables: which
    rows, in which order, which part of them, and what the caller then holds. */
module RelationReads {
  import opened Metadata
  import opened Positions
  import opened RelationRows
  import opened RelationLoading
  import opened RelationMeaning

  // -------------------------------------------------- where sorted rows come from

  lemma {:induction false} InsertPlace(order: Order, x: Pair, rest: seq<Pair>) returns (k: nat)
    ensures k <= |rest| && Insert(order, x, rest) == rest[..k] + [x] + rest[k..]
    ensures forall m :: 0 <= m < k ==> !Le(order, x, rest[m])
  {
    if rest == [] || Le(order, x, rest[0]) {
      k := 0;
      assert rest[..0] + [x] + rest[0..] == [x] + rest;
    } else {
      var k1 := InsertPlace(order, x, rest[1..]);
      k := k1 + 1;
      assert rest[..k] == [rest[0]] + rest[1..][..k1] && rest[k..] == rest[1..][k1..];
    }
  }

  /** Positions one further on, with the first put in at `k`. */
  function Placed(at: seq<nat>, k: nat): (r: seq<nat>)
    requires k <= |at|
    ensures |r| == |at| + 1
    ensures forall i :: 0 <= i < |r| ==> r[i] == if i < k then at[i] + 1 else if i == k then 0 else at[i - 1] + 1
  {
    seq(|at| + 1, i requires 0 <= i < |at| + 1 => if i < k then at[i] + 1 else if i == k then 0 else at[i - 1] + 1)
  }

  ghost predicate TiesRise(order: Order, sorted: seq<Pair>, at: seq<nat>) {
    |sorted| == |at| && forall i, j :: 0 <= i < j < |at| && Tie(order, sorted[i], sorted[j]) ==> at[i] < at[j]
  }

  lemma PlacedPicks(pairs: seq<Pair>, sorted: seq<Pair>, at: seq<nat>, k: nat)
    requires pairs != [] && Picks(pairs[1..], at, sorted) && k <= |at|
    ensures Picks(pairs, Placed(at, k), sorted[..k] + [pairs[0]] + sorted[k..])
  {
    var r, to := Placed(at, k), sorted[..k] + [pairs[0]] + sorted[k..];
    forall i | 0 <= i < |r| ensures r[i] < |pairs| && pairs[r[i]] == to[i] {
      if i < k { assert pairs[1..][at[i]] == sorted[i]; }
      if i > k { assert pairs[1..][at[i - 1]] == sorted[i - 1]; }
    }
  }

  lemma PlacedTies(order: Order, x: Pair, sorted: seq<Pair>, at: seq<nat>, k: nat)
    requires TiesRise(order, sorted, at) && k <= |at| && forall m :: 0 <= m < k ==> !Le(order, x, sorted[m])
    ensures TiesRise(order, sorted[..k] + [x] + sorted[k..], Placed(at, k))
  {}

  lemma PlacedHas(at: seq<nat>, k: nat, n: nat)
    requires k <= |at| && forall p :: 0 <= p < n ==> p in at
    ensures forall p :: 0 <= p < n + 1 ==> p in Placed(at, k)
  {
    var r := Placed(at, k);
    forall p | 0 <= p < n + 1 ensures p in r {
      if p == 0 {
        assert r[k] == 0;
      } else {
        assert p - 1 in at;
        var i :| 0 <= i < |at| && at[i] == p - 1;
        assert r[if i < k then i else i + 1] == p;
      }
    }
  }

  /** Sorting moves every row somewhere, and rows that tie keep their order. */
  lemma {:induction false} SortPicks(order: Order, pairs: seq<Pair>) returns (at: seq<nat>)
    ensures Picks(pairs, at, Sort(order, pairs)) && TiesRise(order, Sort(order, pairs), at)
    ensures forall p :: 0 <= p < |pairs| ==> p in at
  {
    if pairs == [] {
      at := [];
    } else {
      var at1 := SortPicks(order, pairs[1..]);
      var sorted := Sort(order, pairs[1..]);
      var k := InsertPlace(order, pairs[0], sorted);
      at := Placed(at1, k);
      PlacedPicks(pairs, sorted, at1, k);
      PlacedTies(order, pairs[0], sorted, at1, k);
      PlacedHas(at1, k, |pairs| - 1);
    }
  }

  // -------------------------------------------------- where kept rows come from

  /** The row is the parent's and may be returned. */
  predicate Kept(pairs: seq<Pair>, p: nat, parent: Key, shape: Shape) {
    p < |pairs| && pairs[p].parent == parent && Keeps(shape, pairs[p].row)
  }

  /** Filtering keeps the stored order. */
  lemma {:induction false} SelectPicks(pairs: seq<Pair>, parent: Key, shape: Shape) returns (at: seq<nat>)
    ensures Picks(pairs, at, Selected(OfParent(pairs, parent), [parent], shape)) && Rising(at)
    ensures forall p: nat :: p in at <==> Kept(pairs, p, parent, shape)
  {
    if pairs == [] {
      at := [];
    } else {
      var at1 := SelectPicks(pairs[1..], parent, shape);
      var rest := Selected(OfParent(pairs[1..], parent), [parent], shape);
      var own := OfParent(pairs[1..], parent);
      assert ([pairs[0]] + own)[1..] == own;
      var further := OneFurther(at1);
      FurtherPicks(pairs, at1, rest);
      FurtherKept(pairs, at1, parent, shape);
      if Kept(pairs, 0, parent, shape) {
        at := [0] + further;
        FirstPicks(pairs, further, rest);
      } else {
        at := further;
      }
    }
  }

  lemma FurtherKept(pairs: seq<Pair>, at: seq<nat>, parent: Key, shape: Shape)
    requires pairs != [] && forall p: nat :: p in at <==> Kept(pairs[1..], p, parent, shape)
    ensures forall p: nat :: p in OneFurther(at) <==> p > 0 && Kept(pairs, p, parent, shape)
  {
    forall p: nat ensures p in OneFurther(at) <==> p > 0 && Kept(pairs, p, parent, shape) {
      FurtherHas(at, p);
      if p > 0 { assert Kept(pairs, p, parent, shape) <==> Kept(pairs[1..], p - 1, parent, shape); }
    }
  }

  // ------------------------------------------------------------------ a read

  /** The key an object is matched by: the foreign key it holds for a to-one
      relation, its own for any other. */
  ghost predicate MatchedBy(rel: Relation, o: Obj, key: Key) {
    if rel.ToOne? then rel.fkColumn in o.cells && o.cells[rel.fkColumn] == key else o.id == Some(key)
  }

  /** The rows `ordered` are those of the source that a read under these options may
      return for the key, each once, found at the positions `at`. */
  ghost predicate ReadsAll(db: Db, rel: Relation, options: Options, key: Key, ordered: seq<Row>, at: seq<nat>) {
    && |ordered| == |at| && Apart(at)
    && (forall i :: 0 <= i < |at| ==>
          at[i] < |Source(db, rel)| && Source(db, rel)[at[i]] == Pair(key, ordered[i]) && Readable(db, rel, options, ordered[i]))
    && (forall p: nat ::
          p < |Source(db, rel)| && Source(db, rel)[p].parent == key && Readable(db, rel, options, Source(db, rel)[p].row) ==>
            p in at)
  }

  /** A paged collection is in the relation's order with the primary key breaking
      ties; an ordered one keeps the stored order of rows that compare equal; any
      other is in the stored order. */
  ghost predicate InOrder(rel: Relation, options: Options, ordered: seq<Row>, at: seq<nat>) {
    |ordered| == |at| && forall i, j :: 0 <= i < j < |at| ==>
      var a, b := ordered[i], ordered[j];
      if Collection(rel) && (options.take.Some? || options.skip > 0) then
        if options.orderBy.None? then a.key <= b.key
        else options.orderBy.value(a, b) && (options.orderBy.value(b, a) ==> a.key <= b.key)
      else if Collection(rel) && options.orderBy.Some? then
        options.orderBy.value(a, b) && (options.orderBy.value(b, a) ==> at[i] < at[j])
      else at[i] < at[j]
  }

  lemma KeptIsReadable(db: Db, rel: Relation, options: Options, key: Key, p: nat)
    ensures Kept(Source(db, rel), p, key, ShapeOf(db, rel, options))
            <==> p < |Source(db, rel)| && Source(db, rel)[p].parent == key && Readable(db, rel, options, Source(db, rel)[p].row)
  {
    if p < |Source(db, rel)| { KeepsIs(db, rel, options, Source(db, rel)[p].row); }
  }

  function Through(at: seq<nat>, via: seq<nat>): (r: seq<nat>)
    requires forall i :: 0 <= i < |via| ==> via[i] < |at|
    ensures |r| == |via| && forall i :: 0 <= i < |r| ==> r[i] == at[via[i]]
  {
    seq(|via|, i requires 0 <= i < |via| => at[via[i]])
  }

  lemma PicksThrough(pairs: seq<Pair>, at: seq<nat>, own: seq<Pair>, via: seq<nat>, sorted: seq<Pair>)
    requires Picks(pairs, at, own) && Rising(at) && Picks(own, via, sorted) && forall p :: 0 <= p < |own| ==> p in via
    ensures Picks(pairs, Through(at, via), sorted)
    ensures forall p :: p in at <==> p in Through(at, via)
    ensures forall i, j :: 0 <= i < |via| && 0 <= j < |via| && via[i] < via[j] ==> Through(at, via)[i] < Through(at, via)[j]
  {
    var r := Through(at, via);
    forall i, j | 0 <= i < j < |r| ensures r[i] != r[j] {
      if via[i] < via[j] { assert at[via[i]] < at[via[j]]; } else { assert at[via[j]] < at[via[i]]; }
    }
    forall p | p in at ensures p in r {
      var i :| 0 <= i < |at| && at[i] == p;
      assert i in via;
      var k :| 0 <= k < |via| && via[k] == i;
      assert r[k] == p;
    }
    forall p | p in r ensures p in at {
      var k :| 0 <= k < |r| && r[k] == p;
      assert at[via[k]] == p;
    }
  }

  /** How the statement orders the rows of one parent, if it does. */
  function OrderOf(shape: Shape): Option<Order> {
    if Pages(shape.page) then Some(WithinParent(shape.orderBy))
    else if shape.orderBy.Some? then Some(ByRelation(shape.orderBy.value))
    else None
  }

  /** The rows of one parent before the page is cut out of them. */
  lemma WholeRead(pairs: seq<Pair>, parent: Key, shape: Shape) returns (whole: seq<Pair>, at: seq<nat>)
    requires SortableShape(shape)
    ensures OwnRows(pairs, parent, shape) == if Pages(shape.page) then Window(whole, shape.page) else whole
    ensures Picks(pairs, at, whole) && forall p: nat :: p in at <==> Kept(pairs, p, parent, shape)
    ensures OrderOf(shape).None? ==> Rising(at)
    ensures OrderOf(shape).Some? ==> Sorted(OrderOf(shape).value, whole) && TiesRise(OrderOf(shape).value, whole, at)
  {
    var own := Selected(OfParent(pairs, parent), [parent], shape);
    var kept := SelectPicks(pairs, parent, shape);
    if OrderOf(shape).None? {
      whole, at := own, kept;
    } else {
      var order := OrderOf(shape).value;
      whole := Sort(order, own);
      SortSorts(order, own);
      var via := SortPicks(order, own);
      PicksThrough(pairs, kept, own, via, whole);
      at := Through(kept, via);
    }
  }

  lemma RowsInSlice(pairs: seq<Pair>, from: nat, to: nat)
    requires from <= to <= |pairs|
    ensures RowsIn(pairs[from..to]) == RowsIn(pairs)[from..to]
  {}

  /** `part` is `[skip, skip + take)` of `all`. */
  ghost predicate IsPage<T(!new)>(all: seq<T>, part: seq<T>, skip: nat, take: Option<nat>) {
    var from := if skip <= |all| then skip else |all|;
    var to := if take.None? || skip + take.value >= |all| then |all| else skip + take.value;
    part == all[from..to]
  }

  /** Cutting the page out of the rows of one parent. */
  lemma PageOf(whole: seq<Pair>, page: Page)
    ensures IsPage(RowsIn(whole), RowsIn(if Pages(page) then Window(whole, page) else whole), page.skip, page.take)
  {
    var n := |whole|;
    var from := if page.skip <= n then page.skip else n;
    var to := if page.take.None? || page.skip + page.take.value >= n then n else page.skip + page.take.value;
    RowsInSlice(whole, from, to);
    if !Pages(page) { assert whole[from..to] == whole; }
  }

  lemma EmptyPage<T(!new)>(all: seq<T>, skip: nat)
    ensures IsPage(all, [], skip, Some(0))
  {}

  lemma FullRead(db: Db, rel: Relation, options: Options, key: Key) returns (whole: seq<Pair>, at: seq<nat>)
    requires options.orderBy.Some? ==> Sortable(options.orderBy.value)
    ensures ReadsAll(db, rel, options, key, RowsIn(whole), at) && InOrder(rel, options, RowsIn(whole), at)
    ensures var page := ShapeOf(db, rel, options).page;
            OwnRows(Source(db, rel), key, ShapeOf(db, rel, options)) == if Pages(page) then Window(whole, page) else whole
  {
    whole, at := WholeRead(Source(db, rel), key, ShapeOf(db, rel, options));
    WholeIsAll(db, rel, options, key, whole, at);
    WholeIsOrdered(db, rel, options, whole, at);
  }

  lemma OwnIsRows(db: Db, rel: Relation, options: Options, o: Obj, key: Key)
    requires MatchedBy(rel, o, key)
    ensures OwnRelated(db, rel, options, o)
            == if Collection(rel) && options.take == Some(0) then []
               else RowsIn(OwnRows(Source(db, rel), key, ShapeOf(db, rel, options)))
  {
    assert MatchKey(rel, o) == Some(key);
  }

  lemma PageAsked(db: Db, rel: Relation, options: Options)
    ensures ShapeOf(db, rel, options).page == if Collection(rel) then Page(options.skip, options.take) else Page(0, None)
  {}

  /** What an object's own read returns: of the rows it may return, all of them, in
      order, `[skip, skip + take)` for a collection and every one for a single
      relation. */
  lemma OwnReadIs(db: Db, rel: Relation, options: Options, o: Obj, key: Key) returns (ordered: seq<Row>, at: seq<nat>)
    requires MatchedBy(rel, o, key) && (options.orderBy.Some? ==> Sortable(options.orderBy.value))
    ensures ReadsAll(db, rel, options, key, ordered, at) && InOrder(rel, options, ordered, at)
    ensures !Collection(rel) ==> OwnRelated(db, rel, options, o) == ordered
    ensures Collection(rel) ==> IsPage(ordered, OwnRelated(db, rel, options, o), options.skip, options.take)
  {
    var whole;
    whole, at := FullRead(db, rel, options, key);
    ordered := RowsIn(whole);
    OwnIsRows(db, rel, options, o, key);
    PageAsked(db, rel, options);
    if Collection(rel) {
      PageOf(whole, Page(options.skip, options.take));
      EmptyPage(ordered, options.skip);
    }
  }

  lemma WholeIsAll(db: Db, rel: Relation, options: Options, key: Key, whole: seq<Pair>, at: seq<nat>)
    requires Picks(Source(db, rel), at, whole)
    requires forall p: nat :: p in at <==> Kept(Source(db, rel), p, key, ShapeOf(db, rel, options))
    ensures ReadsAll(db, rel, options, key, RowsIn(whole), at)
  {
    forall p: nat
      ensures p in at
              <==> p < |Source(db, rel)| && Source(db, rel)[p].parent == key && Readable(db, rel, options, Source(db, rel)[p].row)
    {
      KeptIsReadable(db, rel, options, key, p);
    }
    forall i | 0 <= i < |at|
      ensures at[i] < |Source(db, rel)| && Source(db, rel)[at[i]] == Pair(key, RowsIn(whole)[i])
      ensures Readable(db, rel, options, RowsIn(whole)[i])
    {
      assert at[i] in at;
    }
  }

  lemma WholeIsOrdered(db: Db, rel: Relation, options: Options, whole: seq<Pair>, at: seq<nat>)
    requires |whole| == |at|
    requires var order := OrderOf(ShapeOf(db, rel, options));
             && (order.None? ==> Rising(at))
             && (order.Some? ==> Sorted(order.value, whole) && TiesRise(order.value, whole, at))
    ensures InOrder(rel, options, RowsIn(whole), at)
  {
    var order := OrderOf(ShapeOf(db, rel, options));
    if order.Some? {
      forall i, j | 0 <= i < j < |at|
        ensures Le(order.value, whole[i], whole[j]) && (Le(order.value, whole[j], whole[i]) ==> at[i] < at[j])
      {}
    }
  }

  // ------------------------------------------------------------------- counts

  /** A count is the number of stored rows that hold the object's key and that the
      count's own `where` and `withDeleted` let through. */
  lemma CountIs(db: Db, entity: Entity, spec: CountSpec, o: Obj, rel: Relation, key: Key)
    requires Named(RelationsOf(db, entity), spec.relation) == Some(rel) && Collection(rel) && o.id == Some(key)
    ensures var options := Options(spec.whereTest, None, None, 0, spec.withDeleted, []);
            OwnCount(db, entity, spec, o)
            == |set p: nat | p < |Source(db, rel)| && Source(db, rel)[p].parent == key
                             && Readable(db, rel, options, Source(db, rel)[p].row)|
  {
    var options := Options(spec.whereTest, None, None, 0, spec.withDeleted, []);
    var ordered, at := OwnReadIs(db, rel, options, o, key);
    var s := set p: nat | p < |Source(db, rel)| && Source(db, rel)[p].parent == key
                          && Readable(db, rel, options, Source(db, rel)[p].row);
    forall p: nat ensures p in s <==> p in at {
      if p in at {
        var i :| 0 <= i < |at| && at[i] == p;
      }
    }
    PositionsCounted(at, s);
    assert ordered[0..|ordered|] == ordered;
  }

  // --------------------------------------------------------- what is attached

  /** The object shows the row, its counts, and along `tree` what its own reads
      return, object by object. */
  ghost predicate Attached(db: Db, h: Heap, o: Ref, b: Obj, specs: seq<CountSpec>, tree: Tree)
    decreases tree, 1
  {
    && Get(h, o).entity == b.entity && Get(h, o).id == b.id && Get(h, o).cells == b.cells
    && (forall i :: 0 <= i < |specs| ==>
          specs[i].property in Get(h, o).props
          && Get(h, o).props[specs[i].property] == Number(OwnCount(db, b.entity, specs[i], b)))
    && AttachedBelow(db, h, o, b, tree)
  }

  ghost predicate AttachedBelow(db: Db, h: Heap, o: Ref, b: Obj, tree: Tree)
    decreases tree, 0
  {
    match tree
    case Leaf => true
    case Node(name, options, children, rest) =>
      var rel := Named(RelationsOf(db, b.entity), name);
      && AttachedBelow(db, h, o, b, rest)
      && (rel.Some? ==>
            && name in Get(h, o).props
            && AttachedValue(db, h, Get(h, o).props[name], rel.value, OwnRelated(db, rel.value, options, b), options.withCount,
                             children))
  }

  ghost predicate AttachedValue(db: Db, h: Heap, value: Value, rel: Relation, rows: seq<Row>, specs: seq<CountSpec>, tree: Tree)
    decreases tree, 2
  {
    if Collection(rel) then
      && value.Many? && |value.refs| == |rows|
      && forall i :: 0 <= i < |rows| ==>
           Attached(db, h, value.refs[i], Obj(rel.related, Some(rows[i].key), rows[i].cells, map[]), specs, tree)
    else
      && value.One? && (value.ref.None? <==> rows == [])
      && (value.ref.Some? && rows != [] ==>
            var row := rows[|rows| - 1];
            Attached(db, h, value.ref.value, Obj(rel.related, Some(row.key), row.cells, map[]), specs, tree))
  }

  /** Every instance of a level holds what its own reads return. */
  ghost predicate LevelAttached(db: Db, h: Heap, h': Heap, instances: seq<Ref>, specs: seq<CountSpec>, tree: Tree) {
    forall o :: o in instances ==> o < |h| && Attached(db, h', o, h[o], specs, tree)
  }

  /** Every instance holds, under the relation's name, what its own read returns. */
  ghost predicate RelationAttached(db: Db, h: Heap, h': Heap, instances: seq<Ref>, rel: Relation, options: Options) {
    forall o :: o in instances ==>
      && o < |h| <= |h'| && rel.name in h'[o].props
      && AttachedValue(db, h', h'[o].props[rel.name], rel, OwnRelated(db, rel, options, h[o]), [], Leaf)
  }

  /** Without a key to match by, an object reads nothing and counts 0. */
  lemma KeylessReadsNothing(db: Db, rel: Relation, options: Options, o: Obj, entity: Entity, spec: CountSpec)
    ensures (forall key :: !MatchedBy(rel, o, key)) ==> OwnRelated(db, rel, options, o) == []
    ensures o.id.None? ==> OwnCount(db, entity, spec, o) == 0
  {
    if MatchKey(rel, o).Some? { assert MatchedBy(rel, o, MatchKey(rel, o).value); }
  }

  /** An object that shows its own load holds just that. */
  lemma {:induction false} ViewsAttach(db: Db, h: Heap, o: Ref, b: Obj, specs: seq<CountSpec>, tree: Tree)
    requires ViewOf(h, o, specs, tree) == OwnView(db, b, specs, tree)
    ensures Attached(db, h, o, b, specs, tree)
    decreases tree, 1
  {
    forall i | 0 <= i < |specs|
      ensures ShownCount(Get(h, o), specs[i]) == Some(OwnCount(db, b.entity, specs[i], b))
    {
      assert ShownCounts(Get(h, o), specs)[i] == OwnCounts(db, b.entity, specs, b)[i];
    }
    RelatedsAttach(db, h, o, b, tree);
  }

  lemma {:induction false} RelatedsAttach(db: Db, h: Heap, o: Ref, b: Obj, tree: Tree)
    requires Relateds(h, o, tree) == OwnRelateds(db, b, tree)
    ensures AttachedBelow(db, h, o, b, tree)
    decreases tree, 0
  {
    match tree
    case Leaf =>
    case Node(name, options, children, rest) =>
      var head, tail := RelatedView(h, o, name, options.withCount, children), Relateds(h, o, rest);
      var own, owns := OwnRelatedView(db, b, name, options, children), OwnRelateds(db, b, rest);
      assert ([head] + tail)[0] == ([own] + owns)[0] && ([head] + tail)[1..] == ([own] + owns)[1..];
      assert ([head] + tail)[1..] == tail && ([own] + owns)[1..] == owns;
      RelatedsAttach(db, h, o, b, rest);
      var rel := Named(RelationsOf(db, b.entity), name);
      if rel.Some? {
        ValueAttaches(db, h, o, name, rel.value, OwnRelated(db, rel.value, options, b), options.withCount, children, own);
      }
  }

  lemma {:induction false} ValueAttaches(db: Db, h: Heap, o: Ref, name: string, rel: Relation, rows: seq<Row>,
                                         specs: seq<CountSpec>, tree: Tree, own: Related)
    requires RelatedView(h, o, name, specs, tree) == own
    requires own == if Collection(rel) then ManyViews(OwnViews(db, rel.related, rows, specs, tree))
                    else if rows == [] then OneView(None)
                    else OneView(Some(OwnView(db, Fresh(rel.related, rows[|rows| - 1]), specs, tree)))
    ensures name in Get(h, o).props && AttachedValue(db, h, Get(h, o).props[name], rel, rows, specs, tree)
    decreases tree, 2
  {
    var value := Get(h, o).props[name];
    if Collection(rel) {
      assert ViewsOf(h, value.refs, specs, tree) == OwnViews(db, rel.related, rows, specs, tree);
      forall i | 0 <= i < |rows|
        ensures Attached(db, h, value.refs[i], Obj(rel.related, Some(rows[i].key), rows[i].cells, map[]), specs, tree)
      {
        assert ViewsOf(h, value.refs, specs, tree)[i] == OwnViews(db, rel.related, rows, specs, tree)[i];
        ViewsAttach(db, h, value.refs[i], Fresh(rel.related, rows[i]), specs, tree);
      }
    } else if rows != [] {
      ViewsAttach(db, h, value.ref.value, Fresh(rel.related, rows[|rows| - 1]), specs, tree);
    }
  }
}
