/** The batched load of a relation tree shows, from every object, what loading
    that object alone would show. */
module RelationLoadingProofs {
  import opened Metadata
  import opened RelationRows
  import opened RelationLoading

  // --------------------------------------------------- what a view depends on

  /** The objects a view of `o` along `tree` reads. */
  function Support(h: Heap, o: Ref, tree: Tree): set<Ref>
    decreases tree, 1
  {
    {o} + SupportBelow(h, o, tree)
  }

  function SupportBelow(h: Heap, o: Ref, tree: Tree): set<Ref>
    decreases tree, 0
  {
    match tree
    case Leaf => {}
    case Node(name, _, children, rest) => SupportAll(h, PropRefs(Get(h, o), name), children) + SupportBelow(h, o, rest)
  }

  function SupportAll(h: Heap, refs: seq<Ref>, tree: Tree): (s: set<Ref>)
    ensures forall r :: r in refs ==> Support(h, r, tree) <= s
    decreases tree, 2, |refs|
  {
    if refs == [] then {} else Support(h, refs[0], tree) + SupportAll(h, refs[1..], tree)
  }

  ghost predicate SameOn(h: Heap, h': Heap, s: set<Ref>) {
    forall x :: x in s ==> Get(h', x) == Get(h, x)
  }

  /** Two objects with the same properties under the names of `tree`. */
  predicate SameProps(a: Obj, b: Obj, tree: Tree) {
    tree.Node? ==> SameProp(a, b, tree.name) && SameProps(a, b, tree.rest)
  }

  lemma {:induction false} SameObjSameProps(o: Obj, tree: Tree)
    ensures SameProps(o, o, tree)
  {
    if tree.Node? { SameObjSameProps(o, tree.rest); }
  }

  lemma {:induction false} ViewIsStable(h: Heap, h': Heap, o: Ref, specs: seq<CountSpec>, tree: Tree)
    requires SameOn(h, h', Support(h, o, tree))
    ensures ViewOf(h', o, specs, tree) == ViewOf(h, o, specs, tree) && Support(h', o, tree) == Support(h, o, tree)
    decreases tree, 1
  {
    SameObjSameProps(Get(h, o), tree);
    BelowIsStable(h, h', o, tree);
  }

  /** What an object shows below it is blind to its other properties. */
  lemma {:induction false} BelowIsStable(h: Heap, h': Heap, o: Ref, tree: Tree)
    requires SameProps(Get(h, o), Get(h', o), tree) && SameOn(h, h', SupportBelow(h, o, tree))
    ensures Relateds(h', o, tree) == Relateds(h, o, tree) && SupportBelow(h', o, tree) == SupportBelow(h, o, tree)
    decreases tree, 0
  {
    match tree
    case Leaf =>
    case Node(name, options, children, rest) =>
      RelatedIsStable(h, h', o, name, options.withCount, children);
      BelowIsStable(h, h', o, rest);
  }

  lemma {:induction false} RelatedIsStable(h: Heap, h': Heap, o: Ref, name: string, specs: seq<CountSpec>, children: Tree)
    requires SameProp(Get(h, o), Get(h', o), name) && SameOn(h, h', SupportAll(h, PropRefs(Get(h, o), name), children))
    ensures RelatedView(h', o, name, specs, children) == RelatedView(h, o, name, specs, children)
    ensures SupportAll(h', PropRefs(Get(h', o), name), children) == SupportAll(h, PropRefs(Get(h, o), name), children)
    decreases children, 3
  {
    AllAreStable(h, h', PropRefs(Get(h, o), name), specs, children);
    if name in Get(h, o).props {
      match Get(h, o).props[name]
      case Many(refs) =>
      case One(ref) =>
        if ref.Some? { assert ViewsOf(h', [ref.value], specs, children)[0] == ViewsOf(h, [ref.value], specs, children)[0]; }
      case Number(_) =>
    }
  }

  lemma {:induction false} AllAreStable(h: Heap, h': Heap, refs: seq<Ref>, specs: seq<CountSpec>, tree: Tree)
    requires SameOn(h, h', SupportAll(h, refs, tree))
    ensures ViewsOf(h', refs, specs, tree) == ViewsOf(h, refs, specs, tree) && SupportAll(h', refs, tree) == SupportAll(h, refs, tree)
    decreases tree, 2, |refs|
  {
    if refs != [] {
      ViewIsStable(h, h', refs[0], specs, tree);
      AllAreStable(h, h', refs[1..], specs, tree);
    }
  }

  // ----------------------------------------------------- loading one relation

  ghost predicate Valid(h: Heap, instances: seq<Ref>) {
    forall o :: o in instances ==> o < |h|
  }

  /** The heap only gained objects, and of the old ones only `instances`
      changed, in properties among `names`. */
  ghost predicate Grown(h: Heap, h': Heap, instances: seq<Ref>, names: set<string>) {
    && |h| <= |h'|
    && (forall x :: 0 <= x < |h| && x !in instances ==> h'[x] == h[x])
    && (forall x :: 0 <= x < |h| && x in instances ==> SameRow(h[x], h'[x]))
    && (forall x, n :: 0 <= x < |h| && x in instances && n !in names ==> SameProp(h[x], h'[x], n))
  }

  predicate SameRow(a: Obj, b: Obj) {
    a.entity == b.entity && a.id == b.id && a.cells == b.cells
  }

  predicate SameProp(a: Obj, b: Obj, n: string) {
    (n in a.props <==> n in b.props) && (n in a.props ==> b.props[n] == a.props[n])
  }

  lemma GrownInSequence(a: Heap, b: Heap, c: Heap, instances: seq<Ref>, m: set<string>, n: set<string>)
    requires Grown(a, b, instances, m) && Grown(b, c, instances, n)
    ensures Grown(a, c, instances, m + n)
  {
    forall x, k | 0 <= x < |a| && x in instances && k !in m + n ensures SameProp(a[x], c[x], k) {
      assert SameProp(a[x], b[x], k) && SameProp(b[x], c[x], k);
    }
  }

  lemma AssignedTwice(o: Obj, rel: Relation, pairs: seq<Pair>, base: Ref)
    ensures var o1 := Assigned(o, rel, pairs, base); SameRow(o, o1) && Assigned(o1, rel, pairs, base) == o1
  {
    var o1 := Assigned(o, rel, pairs, base);
    assert MatchKey(rel, o1) == MatchKey(rel, o);
    assert o1.props[rel.name := ValueFor(rel, o, pairs, base)] == o1.props;
  }

  lemma {:induction false} AssignAllSets(h: Heap, instances: seq<Ref>, rel: Relation, pairs: seq<Pair>, base: Ref)
    requires Valid(h, instances)
    ensures var h' := AssignAll(h, instances, rel, pairs, base);
            && |h'| == |h|
            && (forall x :: 0 <= x < |h| ==> h'[x] == if x in instances then Assigned(h[x], rel, pairs, base) else h[x])
    decreases |instances|
  {
    if instances != [] {
      var i, rest := instances[0], instances[1..];
      assert instances == [i] + rest && i in instances;
      assert forall o :: o in rest ==> o in instances;
      AssignedTwice(h[i], rel, pairs, base);
      AssignAllSets(h[i := Assigned(h[i], rel, pairs, base)], rest, rel, pairs, base);
    }
  }

  /** The objects grouped under a key are those of its rows, in row order. */
  lemma {:induction false} GroupIsOfParent(pairs: seq<Pair>, base: Ref, key: Key, i: nat)
    ensures |Group(pairs, base, key)| == |OfParent(pairs, key)|
    ensures i < |OfParent(pairs, key)| ==>
              var r := Group(pairs, base, key)[i]; base <= r < base + |pairs| && pairs[r - base] == OfParent(pairs, key)[i]
    decreases |pairs|
  {
    if pairs != [] {
      var k := if pairs[0].parent == key && i > 0 then i - 1 else i;
      GroupIsOfParent(pairs[1..], base + 1, key, k);
    }
  }

  lemma {:induction false} MatchKeysAreDistinct(h: Heap, instances: seq<Ref>, rel: Relation, seen: seq<Key>)
    requires Distinct(seen)
    ensures Distinct(MatchKeys(h, instances, rel, seen))
    decreases |instances|
  {
    if instances != [] {
      var key := MatchKey(rel, Get(h, instances[0]));
      var seen1 := if key.None? || key.value in seen then seen else seen + [key.value];
      MatchKeysAreDistinct(h, instances[1..], rel, seen1);
      assert instances == [instances[0]] + instances[1..];
    }
  }

  lemma {:induction false} KeysOnlyGrow(h: Heap, instances: seq<Ref>, rel: Relation, seen: seq<Key>, key: Key)
    requires key in seen
    ensures key in MatchKeys(h, instances, rel, seen)
    decreases |instances|
  {
    if instances != [] {
      var k := MatchKey(rel, Get(h, instances[0]));
      KeysOnlyGrow(h, instances[1..], rel, if k.None? || k.value in seen then seen else seen + [k.value], key);
    }
  }

  lemma {:induction false} KeyIsSeen(h: Heap, instances: seq<Ref>, rel: Relation, seen: seq<Key>, o: Ref)
    requires o in instances && MatchKey(rel, Get(h, o)).Some?
    ensures MatchKey(rel, Get(h, o)).value in MatchKeys(h, instances, rel, seen)
    decreases |instances|
  {
    var k := MatchKey(rel, Get(h, instances[0]));
    var seen1 := if k.None? || k.value in seen then seen else seen + [k.value];
    if o == instances[0] {
      KeysOnlyGrow(h, instances[1..], rel, seen1, k.value);
    } else {
      KeyIsSeen(h, instances[1..], rel, seen1, o);
    }
  }

  lemma KeyIsCollected(h: Heap, instances: seq<Ref>, rel: Relation, o: Ref)
    requires o in instances && o < |h| && MatchKey(rel, h[o]).Some?
    ensures MatchKey(rel, h[o]).value in MatchKeys(h, instances, rel, [])
  {
    assert Get(h, o) == h[o];
    KeyIsSeen(h, instances, rel, [], o);
  }

  /** A value shows `rows`: its objects lie in `[lo, hi)` and are as hydrated. */
  ghost predicate Shows(h: Heap, value: Value, rel: Relation, rows: seq<Row>, lo: nat, hi: nat) {
    if Collection(rel) then
      && value.Many? && |value.refs| == |rows|
      && forall i :: 0 <= i < |rows| ==>
           lo <= value.refs[i] < hi <= |h| && h[value.refs[i]] == Fresh(rel.related, rows[i])
    else
      && value.One?
      && (if rows == [] then value.ref.None?
          else value.ref.Some? && lo <= value.ref.value < hi <= |h|
               && h[value.ref.value] == Fresh(rel.related, rows[|rows| - 1]))
  }

  /** Every instance shows, under one relation, what its own read returns. */
  ghost predicate Ready(db: Db, h: Heap, instances: seq<Ref>, rel: Relation, options: Options, lo: nat, hi: nat) {
    forall o :: o in instances ==>
      && o < |h| && rel.name in h[o].props
      && Shows(h, h[o].props[rel.name], rel, OwnRelated(db, rel, options, h[o]), lo, hi)
  }

  ghost predicate Loadable(db: Db, rel: Relation, options: Options) {
    db.sliceSize > 0 && (options.orderBy.Some? ==> Sortable(options.orderBy.value))
  }

  lemma HydratedShow(h: Heap, rel: Relation, pairs: seq<Pair>, key: Key, rows: seq<Row>)
    requires rows == RowsIn(OfParent(pairs, key))
    ensures var h1 := h + Hydrated(rel.related, pairs);
            Shows(h1, ValueOf(rel, Group(pairs, |h|, key)), rel, rows, |h|, |h1|)
  {
    var h1 := h + Hydrated(rel.related, pairs);
    var g := Group(pairs, |h|, key);
    GroupIsHydrated(h, rel.related, pairs, key);
    if Collection(rel) {
      assert ValueOf(rel, g) == Many(g);
    } else if g != [] {
      assert ValueOf(rel, g) == One(Some(g[|g| - 1]));
    }
  }

  lemma RowIsHydrated(h: Heap, entity: Entity, pairs: seq<Pair>, key: Key, i: nat)
    requires i < |OfParent(pairs, key)|
    ensures |Group(pairs, |h|, key)| == |OfParent(pairs, key)|
    ensures |h| <= Group(pairs, |h|, key)[i] < |h| + |pairs|
    ensures (h + Hydrated(entity, pairs))[Group(pairs, |h|, key)[i]] == Fresh(entity, OfParent(pairs, key)[i].row)
  {
    GroupIsOfParent(pairs, |h|, key, i);
    HydratedAt(h, entity, pairs, Group(pairs, |h|, key)[i], OfParent(pairs, key)[i].row);
  }

  lemma HydratedAt(h: Heap, entity: Entity, pairs: seq<Pair>, r: Ref, row: Row)
    requires |h| <= r < |h| + |pairs| && pairs[r - |h|].row == row
    ensures (h + Hydrated(entity, pairs))[r] == Fresh(entity, row)
  {
    var objs := Hydrated(entity, pairs);
    assert (h + objs)[r] == objs[r - |h|];
  }

  lemma GroupIsHydrated(h: Heap, entity: Entity, pairs: seq<Pair>, key: Key)
    ensures var g, h1, rows := Group(pairs, |h|, key), h + Hydrated(entity, pairs), RowsIn(OfParent(pairs, key));
            |g| == |rows| && forall i :: 0 <= i < |g| ==> |h| <= g[i] < |h1| && h1[g[i]] == Fresh(entity, rows[i])
  {
    GroupIsOfParent(pairs, |h|, key, 0);
    forall i | 0 <= i < |OfParent(pairs, key)| { RowIsHydrated(h, entity, pairs, key, i); }
  }

  /** Over any slices, the batched read holds each parent's own read. */
  lemma BatchedHoldsOwn(db: Db, rel: Relation, options: Options, keys: seq<Key>, key: Key)
    requires Loadable(db, rel, options) && Distinct(keys) && key in keys
    ensures OfParent(Sliced(Batched(db, rel, options), keys, db.sliceSize, 0), key)
            == OwnRows(Source(db, rel), key, ShapeOf(db, rel, options))
  {
    var own := OwnRows(Source(db, rel), key, ShapeOf(db, rel, options));
    forall ids ensures OfParent(Batched(db, rel, options)(ids), key) == if key in ids then own else [] {
      StatementRefinesOwnRows(Source(db, rel), ids, ShapeOf(db, rel, options), key);
    }
    SlicedHoldsOwn(Batched(db, rel, options), keys, db.sliceSize, 0, key, own);
    assert keys[0..] == keys;
  }

  lemma NothingIsOwn(db: Db, h: Heap, instances: seq<Ref>, rel: Relation, options: Options, o: Ref)
    requires Valid(h, instances) && o in instances && NothingToRead(rel, options, MatchKeys(h, instances, rel, []))
    ensures OwnRelated(db, rel, options, h[o]) == []
    ensures Shows(h, ValueFor(rel, h[o], [], |h|), rel, OwnRelated(db, rel, options, h[o]), |h|, |h|)
  {
    if MatchKey(rel, h[o]).Some? { KeyIsCollected(h, instances, rel, o); }
  }

  lemma ReadIsOwn(db: Db, h: Heap, instances: seq<Ref>, rel: Relation, options: Options, o: Ref, pairs: seq<Pair>)
    requires Loadable(db, rel, options) && Valid(h, instances) && o in instances
    requires !NothingToRead(rel, options, MatchKeys(h, instances, rel, []))
    requires pairs == Sliced(Batched(db, rel, options), MatchKeys(h, instances, rel, []), db.sliceSize, 0)
    ensures OwnRelated(db, rel, options, h[o])
            == if MatchKey(rel, h[o]).None? then [] else RowsIn(OfParent(pairs, MatchKey(rel, h[o]).value))
  {
    MatchKeysAreDistinct(h, instances, rel, []);
    if MatchKey(rel, h[o]).Some? {
      KeyIsCollected(h, instances, rel, o);
      BatchedHoldsOwn(db, rel, options, MatchKeys(h, instances, rel, []), MatchKey(rel, h[o]).value);
    }
  }

  /** What is attached to an object shows its rows. */
  lemma ValueShows(h: Heap, rel: Relation, pairs: seq<Pair>, o: Obj, rows: seq<Row>)
    requires rows == if MatchKey(rel, o).None? then [] else RowsIn(OfParent(pairs, MatchKey(rel, o).value))
    ensures var h1 := h + Hydrated(rel.related, pairs);
            Shows(h1, ValueFor(rel, o, pairs, |h|), rel, rows, |h|, |h1|)
  {
    if MatchKey(rel, o).Some? { HydratedShow(h, rel, pairs, MatchKey(rel, o).value, rows); }
  }

  /** One batched relation gives every instance what its own read would. */
  lemma LoadRelationIsOwn(db: Db, st: State, instances: seq<Ref>, rel: Relation, options: Options)
    requires Loadable(db, rel, options) && Valid(st.heap, instances)
    ensures var st' := LoadRelation(db, st, instances, rel, options);
            && Grown(st.heap, st'.heap, instances, {rel.name})
            && Ready(db, st'.heap, instances, rel, options, |st.heap|, |st'.heap|)
  {
    var h := st.heap;
    var keys := MatchKeys(h, instances, rel, []);
    if NothingToRead(rel, options, keys) {
      forall o | o in instances
        ensures Shows(h, ValueFor(rel, h[o], [], |h|), rel, OwnRelated(db, rel, options, h[o]), |h|, |h|)
      {
        NothingIsOwn(db, h, instances, rel, options, o);
      }
      AssignedIsReady(db, h, h, instances, rel, options, [], |h|);
    } else {
      var pairs := Sliced(Batched(db, rel, options), keys, db.sliceSize, 0);
      var h1 := h + Hydrated(rel.related, pairs);
      forall o | o in instances
        ensures Shows(h1, ValueFor(rel, h[o], pairs, |h|), rel, OwnRelated(db, rel, options, h[o]), |h|, |h1|)
      {
        ReadIsOwn(db, h, instances, rel, options, o, pairs);
        ValueShows(h, rel, pairs, h[o], OwnRelated(db, rel, options, h[o]));
      }
      AssignedIsReady(db, h, h1, instances, rel, options, pairs, |h|);
    }
  }

  /** Assigning values that show each instance's own read makes it ready. */
  lemma AssignedIsReady(db: Db, h: Heap, h1: Heap, instances: seq<Ref>, rel: Relation, options: Options,
                        pairs: seq<Pair>, base: Ref)
    requires Valid(h, instances) && h <= h1 && base == |h|
    requires forall o :: o in instances ==>
               Shows(h1, ValueFor(rel, h[o], pairs, base), rel, OwnRelated(db, rel, options, h[o]), base, |h1|)
    ensures var h' := AssignAll(h1, instances, rel, pairs, base);
            Grown(h, h', instances, {rel.name}) && Ready(db, h', instances, rel, options, base, |h'|)
  {
    var h' := AssignAll(h1, instances, rel, pairs, base);
    AssignAllSets(h1, instances, rel, pairs, base);
    AssignedIsGrown(h, h1, h', instances, rel.name);
    forall o | o in instances
      ensures rel.name in h'[o].props
      ensures Shows(h', h'[o].props[rel.name], rel, OwnRelated(db, rel, options, h'[o]), base, |h'|)
    {
      assert h1[o] == h[o];
      AssignedShows(db, h1, h', rel, options, h[o], h'[o], pairs, base);
    }
  }

  lemma AssignedIsGrown(h: Heap, h1: Heap, h': Heap, instances: seq<Ref>, name: string)
    requires h <= h1 && |h'| == |h1|
    requires forall x :: 0 <= x < |h1| && x !in instances ==> h'[x] == h1[x]
    requires forall x :: 0 <= x < |h1| && x in instances ==>
               name in h'[x].props && h'[x] == h1[x].(props := h1[x].props[name := h'[x].props[name]])
    ensures Grown(h, h', instances, {name})
  {
    assert forall x :: 0 <= x < |h| ==> h1[x] == h[x];
  }

  lemma AssignedShows(db: Db, h: Heap, h': Heap, rel: Relation, options: Options, o: Obj, o': Obj, pairs: seq<Pair>,
                      base: Ref)
    requires o' == o.(props := o.props[rel.name := ValueFor(rel, o, pairs, base)]) && |h| == |h'|
    requires Shows(h, ValueFor(rel, o, pairs, base), rel, OwnRelated(db, rel, options, o), base, |h|)
    requires forall x :: base <= x < |h| ==> h'[x] == h[x]
    ensures rel.name in o'.props && Shows(h', o'.props[rel.name], rel, OwnRelated(db, rel, options, o'), base, |h'|)
  {
    assert MatchKey(rel, o') == MatchKey(rel, o);
    ShowsStill(h, h', ValueFor(rel, o, pairs, base), rel, OwnRelated(db, rel, options, o), base, |h|);
  }

  lemma ShowsStill(h: Heap, h': Heap, value: Value, rel: Relation, rows: seq<Row>, lo: nat, hi: nat)
    requires Shows(h, value, rel, rows, lo, hi) && |h| <= |h'|
    requires forall x :: lo <= x < hi && x < |h| ==> h'[x] == h[x]
    ensures Shows(h', value, rel, rows, lo, hi)
  {
    if Collection(rel) {
      forall i | 0 <= i < |rows| ensures h'[value.refs[i]] == Fresh(rel.related, rows[i]) {
        assert h[value.refs[i]] == Fresh(rel.related, rows[i]);
      }
    } else if rows != [] {
      assert h'[value.ref.value] == h[value.ref.value];
    }
  }
}
