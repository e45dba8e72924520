/** The statements a relation read issues, over tables as sequences of rows:
    filter, stable sort, per-parent page. */
module RelationRows {
  import opened Metadata

  /** A related row: its primary key, its foreign keys that are not NULL, and
      whether it is soft-deleted. */
  datatype Row = Row(key: Key, cells: map<string, Key>, trashed: bool)

  /** A related row together with the parent it is read for. */
  datatype Pair = Pair(parent: Key, row: Row)

  type Comparison = (Row, Row) -> bool

  /** How a statement orders its rows. */
  datatype Order =
    | ByRelation(le: Comparison)
    | WithinParent(cmp: Option<Comparison>)
    | AcrossParents(cmp: Option<Comparison>)

  /** The relation's order, the related primary key breaking ties. */
  predicate RowLe(cmp: Option<Comparison>, a: Row, b: Row) {
    if cmp.None? then a.key <= b.key
    else cmp.value(a, b) && (cmp.value(b, a) ==> a.key <= b.key)
  }

  predicate Le(order: Order, a: Pair, b: Pair) {
    match order
    case ByRelation(le) => le(a.row, b.row)
    case WithinParent(cmp) => RowLe(cmp, a.row, b.row)
    case AcrossParents(cmp) => a.parent < b.parent || (a.parent == b.parent && RowLe(cmp, a.row, b.row))
  }

  /** A comparison the database can sort by. */
  ghost predicate Sortable(le: Comparison) {
    (forall a, b :: le(a, b) || le(b, a)) && (forall a, b, c :: le(a, b) && le(b, c) ==> le(a, c))
  }

  ghost predicate SortableOrder(order: Order) {
    match order
    case ByRelation(le) => Sortable(le)
    case WithinParent(cmp) => cmp.Some? ==> Sortable(cmp.value)
    case AcrossParents(cmp) => cmp.Some? ==> Sortable(cmp.value)
  }

  lemma LeTotal(order: Order, a: Pair, b: Pair)
    requires SortableOrder(order)
    ensures Le(order, a, b) || Le(order, b, a)
  {}

  lemma RowLeTransitive(cmp: Option<Comparison>, a: Row, b: Row, c: Row)
    requires cmp.Some? ==> Sortable(cmp.value)
    requires RowLe(cmp, a, b) && RowLe(cmp, b, c)
    ensures RowLe(cmp, a, c)
  {
    if cmp.Some? && cmp.value(c, a) {
      assert cmp.value(b, a) by { assert cmp.value(b, c); }
      assert cmp.value(c, b) by { assert cmp.value(a, b); }
    }
  }

  lemma LeTransitive(order: Order, a: Pair, b: Pair, c: Pair)
    requires SortableOrder(order) && Le(order, a, b) && Le(order, b, c)
    ensures Le(order, a, c)
  {
    if order.WithinParent? || (order.AcrossParents? && a.parent == b.parent == c.parent) {
      RowLeTransitive(order.cmp, a.row, b.row, c.row);
    }
  }

  // ------------------------------------------------------------- stable sort

  function Insert(order: Order, x: Pair, rest: seq<Pair>): seq<Pair> {
    if rest == [] || Le(order, x, rest[0]) then [x] + rest
    else [rest[0]] + Insert(order, x, rest[1..])
  }

  /** ORDER BY: earlier rows stay ahead of later ones that compare equal. */
  function Sort(order: Order, pairs: seq<Pair>): seq<Pair> {
    if pairs == [] then [] else Insert(order, pairs[0], Sort(order, pairs[1..]))
  }

  lemma {:induction false} InsertKeepsRows(order: Order, x: Pair, rest: seq<Pair>)
    ensures multiset(Insert(order, x, rest)) == multiset{x} + multiset(rest)
  {
    if rest != [] && !Le(order, x, rest[0]) {
      InsertKeepsRows(order, x, rest[1..]);
      assert rest == [rest[0]] + rest[1..];
    }
  }

  lemma {:induction false} SortKeepsRows(order: Order, pairs: seq<Pair>)
    ensures multiset(Sort(order, pairs)) == multiset(pairs)
  {
    if pairs != [] {
      SortKeepsRows(order, pairs[1..]);
      InsertKeepsRows(order, pairs[0], Sort(order, pairs[1..]));
      assert pairs == [pairs[0]] + pairs[1..];
    }
  }

  ghost predicate Sorted(order: Order, pairs: seq<Pair>) {
    forall i, j :: 0 <= i < j < |pairs| ==> Le(order, pairs[i], pairs[j])
  }

  lemma {:induction false} InsertKeepsSorted(order: Order, x: Pair, rest: seq<Pair>)
    requires SortableOrder(order) && Sorted(order, rest)
    ensures Sorted(order, Insert(order, x, rest))
  {
    if rest == [] {
    } else if Le(order, x, rest[0]) {
      forall j | 0 < j < |rest| ensures Le(order, x, rest[j]) { LeTransitive(order, x, rest[0], rest[j]); }
    } else {
      LeTotal(order, x, rest[0]);
      InsertKeepsSorted(order, x, rest[1..]);
      var tail := Insert(order, x, rest[1..]);
      InsertKeepsRows(order, x, rest[1..]);
      forall j | 0 <= j < |tail| ensures Le(order, rest[0], tail[j]) {
        assert tail[j] in multiset(tail);
        assert tail[j] == x || tail[j] in rest[1..];
      }
    }
  }

  lemma {:induction false} SortSorts(order: Order, pairs: seq<Pair>)
    requires SortableOrder(order)
    ensures Sorted(order, Sort(order, pairs))
  {
    if pairs != [] {
      SortSorts(order, pairs[1..]);
      InsertKeepsSorted(order, pairs[0], Sort(order, pairs[1..]));
    }
  }

  predicate Tie(order: Order, x: Pair, p: Pair) {
    Le(order, x, p) && Le(order, p, x)
  }

  /** The rows that compare equal to `x`, in order. */
  function Tied(order: Order, x: Pair, pairs: seq<Pair>): seq<Pair> {
    if pairs == [] then []
    else
      var rest := Tied(order, x, pairs[1..]);
      if Tie(order, x, pairs[0]) then [pairs[0]] + rest else rest
  }

  lemma StrictlyBefore(order: Order, x: Pair, y: Pair, p: Pair)
    requires SortableOrder(order) && Tie(order, x, y) && !Le(order, y, p)
    ensures !Tie(order, x, p)
  {
    if Tie(order, x, p) { LeTransitive(order, y, x, p); }
  }

  lemma {:induction false} InsertIsStable(order: Order, x: Pair, y: Pair, rest: seq<Pair>)
    requires SortableOrder(order)
    ensures Tied(order, x, Insert(order, y, rest))
            == if Tie(order, x, y) then [y] + Tied(order, x, rest) else Tied(order, x, rest)
  {
    if rest == [] || Le(order, y, rest[0]) {
      assert ([y] + rest)[1..] == rest;
    } else {
      var tail := Insert(order, y, rest[1..]);
      assert ([rest[0]] + tail)[1..] == tail;
      InsertIsStable(order, x, y, rest[1..]);
      if Tie(order, x, y) { StrictlyBefore(order, x, y, rest[0]); }
    }
  }

  /** Rows that compare equal keep their order. */
  lemma {:induction false} SortIsStable(order: Order, pairs: seq<Pair>, x: Pair)
    requires SortableOrder(order)
    ensures Tied(order, x, Sort(order, pairs)) == Tied(order, x, pairs)
  {
    if pairs != [] {
      SortIsStable(order, pairs[1..], x);
      InsertIsStable(order, x, pairs[0], Sort(order, pairs[1..]));
    }
  }

  // ---------------------------------------------------------- one parent's rows

  /** The pairs of one parent, in order. */
  function OfParent(pairs: seq<Pair>, parent: Key): seq<Pair> {
    if pairs == [] then []
    else
      var rest := OfParent(pairs[1..], parent);
      if pairs[0].parent == parent then [pairs[0]] + rest else rest
  }

  lemma {:induction false} OfParentIsPart(pairs: seq<Pair>, parent: Key)
    ensures forall p :: p in OfParent(pairs, parent) ==> p.parent == parent && p in pairs
  {
    if pairs != [] { OfParentIsPart(pairs[1..], parent); }
  }

  lemma {:induction false} OfParentAppend(a: seq<Pair>, b: seq<Pair>, parent: Key)
    ensures OfParent(a + b, parent) == OfParent(a, parent) + OfParent(b, parent)
  {
    if a == [] {
      assert a + b == b;
    } else {
      assert (a + b)[1..] == a[1..] + b;
      OfParentAppend(a[1..], b, parent);
    }
  }

  ghost predicate AgreeOn(a: Order, b: Order, parent: Key) {
    forall x: Pair, y: Pair :: x.parent == parent && y.parent == parent ==> Le(a, x, y) == Le(b, x, y)
  }

  lemma GoesFirst(a: Order, b: Order, x: Pair, rest: seq<Pair>, parent: Key)
    requires SortableOrder(a) && AgreeOn(a, b, parent) && Sorted(a, rest) && x.parent == parent
    requires rest != [] && Le(a, x, rest[0])
    ensures Insert(b, x, OfParent(rest, parent)) == [x] + OfParent(rest, parent)
  {
    var selected := OfParent(rest, parent);
    if selected != [] {
      OfParentIsPart(rest, parent);
      assert selected[0] in selected;
      var j :| 0 <= j < |rest| && rest[j] == selected[0];
      if j > 0 { LeTransitive(a, x, rest[0], rest[j]); }
      assert Le(b, x, selected[0]);
    }
  }

  lemma {:induction false} InsertThenSelect(a: Order, b: Order, x: Pair, rest: seq<Pair>, parent: Key)
    requires SortableOrder(a) && AgreeOn(a, b, parent) && Sorted(a, rest)
    ensures OfParent(Insert(a, x, rest), parent)
            == if x.parent == parent then Insert(b, x, OfParent(rest, parent)) else OfParent(rest, parent)
  {
    if rest == [] {
      assert [x] + rest == [x];
    } else if Le(a, x, rest[0]) {
      assert ([x] + rest)[1..] == rest;
      if x.parent == parent { GoesFirst(a, b, x, rest, parent); }
    } else {
      var tail := Insert(a, x, rest[1..]);
      assert ([rest[0]] + tail)[1..] == tail;
      InsertThenSelect(a, b, x, rest[1..], parent);
      if x.parent == parent && rest[0].parent == parent {
        var selected := OfParent(rest[1..], parent);
        assert ([rest[0]] + selected)[1..] == selected;
      }
    }
  }

  /** Sorting all parents' rows and taking one parent's is sorting that
      parent's rows. */
  lemma {:induction false} SortThenSelect(a: Order, b: Order, pairs: seq<Pair>, parent: Key)
    requires SortableOrder(a) && AgreeOn(a, b, parent)
    ensures OfParent(Sort(a, pairs), parent) == Sort(b, OfParent(pairs, parent))
  {
    if pairs != [] {
      SortThenSelect(a, b, pairs[1..], parent);
      SortSorts(a, pairs[1..]);
      InsertThenSelect(a, b, pairs[0], Sort(a, pairs[1..]), parent);
      if pairs[0].parent == parent {
        var selected := OfParent(pairs[1..], parent);
        assert ([pairs[0]] + selected)[1..] == selected;
      }
    }
  }

  // --------------------------------------------------------------------- page

  /** `take` and `skip` of a relation read. */
  datatype Page = Page(skip: nat, take: Option<nat>)

  /** Whether the relation pages each parent's rows at all. */
  predicate Pages(page: Page) {
    page.take.Some? || page.skip > 0
  }

  predicate OnPage(page: Page, rank: nat) {
    page.skip < rank && (page.take.Some? ==> rank <= page.skip + page.take.value)
  }

  /** ROW_NUMBER() OVER (PARTITION BY parent): how many of the first `i` rows
      belong to the parent of row `i`, counting row `i`. */
  function RowNumber(sorted: seq<Pair>, i: nat): nat
    requires i < |sorted|
  {
    |OfParent(sorted[..i], sorted[i].parent)| + 1
  }

  /** The rows whose number is on the page, the first `i` of `sorted`. */
  function NumberedOnPage(sorted: seq<Pair>, page: Page, i: nat): seq<Pair>
    requires i <= |sorted|
  {
    if i == 0 then []
    else if OnPage(page, RowNumber(sorted, i - 1)) then NumberedOnPage(sorted, page, i - 1) + [sorted[i - 1]]
    else NumberedOnPage(sorted, page, i - 1)
  }

  /** The window of one parent's own list: `[skip, skip + take)`. */
  function Window<T>(rows: seq<T>, page: Page): seq<T> {
    var from := if page.skip <= |rows| then page.skip else |rows|;
    var to := if page.take.None? || page.skip + page.take.value >= |rows| then |rows| else page.skip + page.take.value;
    rows[from..to]
  }

  lemma WindowGrows<T>(rows: seq<T>, x: T, page: Page)
    ensures Window(rows + [x], page) == if OnPage(page, |rows| + 1) then Window(rows, page) + [x] else Window(rows, page)
  {}

  lemma OfParentGrows(pairs: seq<Pair>, x: Pair, parent: Key)
    ensures OfParent(pairs + [x], parent) == if x.parent == parent then OfParent(pairs, parent) + [x] else OfParent(pairs, parent)
  {
    OfParentAppend(pairs, [x], parent);
    assert OfParent([x], parent) == if x.parent == parent then [x] else [];
  }

  /** One more row: it is numbered among those of its own parent. */
  lemma NumberedStep(front: seq<Pair>, numbered: seq<Pair>, x: Pair, page: Page, parent: Key)
    requires OfParent(numbered, parent) == Window(OfParent(front, parent), page)
    ensures var next := if OnPage(page, |OfParent(front, x.parent)| + 1) then numbered + [x] else numbered;
            OfParent(next, parent) == Window(OfParent(front + [x], parent), page)
  {
    OfParentGrows(front, x, parent);
    OfParentGrows(numbered, x, parent);
    WindowGrows(OfParent(front, parent), x, page);
  }

  /** Numbering rows within each parent and keeping a range of numbers gives
      each parent the window of its own rows. */
  lemma {:induction false} NumberedIsWindow(sorted: seq<Pair>, page: Page, parent: Key, i: nat)
    requires i <= |sorted|
    ensures OfParent(NumberedOnPage(sorted, page, i), parent) == Window(OfParent(sorted[..i], parent), page)
  {
    if i == 0 {
      assert sorted[..0] == [];
    } else {
      NumberedIsWindow(sorted, page, parent, i - 1);
      assert sorted[..i] == sorted[..i - 1] + [sorted[i - 1]];
      NumberedStep(sorted[..i - 1], NumberedOnPage(sorted, page, i - 1), sorted[i - 1], page, parent);
    }
  }

  // --------------------------------------------------------------- statements

  /** What a relation read asks for: the related entity's scope (tenant and
      subtype), the relation's own `where`, whether trashed rows are read, the
      order and the page. */
  datatype Shape = Shape(entity: Entity, scope: (Entity, Row) -> bool, whereTest: Option<Row -> bool>, softDeletable: bool,
                         withDeleted: bool, orderBy: Option<Comparison>, page: Page)

  predicate Keeps(shape: Shape, row: Row) {
    && shape.scope(shape.entity, row)
    && (shape.whereTest.Some? ==> shape.whereTest.value(row))
    && (shape.softDeletable && !shape.withDeleted ==> !row.trashed)
  }

  /** WHERE parent IN (ids) AND the shape's predicates. */
  function Selected(pairs: seq<Pair>, ids: seq<Key>, shape: Shape): seq<Pair> {
    if pairs == [] then []
    else
      var rest := Selected(pairs[1..], ids, shape);
      if pairs[0].parent in ids && Keeps(shape, pairs[0].row) then [pairs[0]] + rest else rest
  }

  /** One batched statement over a slice of parent keys. */
  function Statement(pairs: seq<Pair>, ids: seq<Key>, shape: Shape): seq<Pair> {
    var selected := Selected(pairs, ids, shape);
    if Pages(shape.page) then
      var sorted := Sort(AcrossParents(shape.orderBy), selected);
      NumberedOnPage(sorted, shape.page, |sorted|)
    else if shape.orderBy.Some? then Sort(ByRelation(shape.orderBy.value), selected)
    else selected
  }

  /** The separate read for one parent: the list the relation stands for. */
  function OwnRows(pairs: seq<Pair>, parent: Key, shape: Shape): seq<Pair> {
    var own := Selected(OfParent(pairs, parent), [parent], shape);
    if Pages(shape.page) then Window(Sort(WithinParent(shape.orderBy), own), shape.page)
    else if shape.orderBy.Some? then Sort(ByRelation(shape.orderBy.value), own)
    else own
  }

  ghost predicate SortableShape(shape: Shape) {
    shape.orderBy.Some? ==> Sortable(shape.orderBy.value)
  }

  lemma {:induction false} SelectOfParent(pairs: seq<Pair>, ids: seq<Key>, shape: Shape, parent: Key)
    ensures OfParent(Selected(pairs, ids, shape), parent)
            == if parent in ids then Selected(OfParent(pairs, parent), [parent], shape) else []
  {
    if pairs != [] {
      SelectOfParent(pairs[1..], ids, shape, parent);
      var rest := Selected(pairs[1..], ids, shape);
      assert ([pairs[0]] + rest)[1..] == rest;
      var own := OfParent(pairs[1..], parent);
      assert ([pairs[0]] + own)[1..] == own;
    }
  }

  /** A batched statement holds, for each of its parents, exactly the list a
      separate read for that parent returns, and nothing for any other. */
  lemma StatementRefinesOwnRows(pairs: seq<Pair>, ids: seq<Key>, shape: Shape, parent: Key)
    requires SortableShape(shape)
    ensures OfParent(Statement(pairs, ids, shape), parent) == if parent in ids then OwnRows(pairs, parent, shape) else []
  {
    var selected := Selected(pairs, ids, shape);
    SelectOfParent(pairs, ids, shape, parent);
    if Pages(shape.page) {
      var sorted := Sort(AcrossParents(shape.orderBy), selected);
      NumberedIsWindow(sorted, shape.page, parent, |sorted|);
      assert sorted[..|sorted|] == sorted;
      SortThenSelect(AcrossParents(shape.orderBy), WithinParent(shape.orderBy), selected, parent);
    } else if shape.orderBy.Some? {
      SortThenSelect(ByRelation(shape.orderBy.value), ByRelation(shape.orderBy.value), selected, parent);
    }
  }

  // ------------------------------------------------------------------- slices

  /** Where the slice that begins at `start` ends. */
  function SliceEnd(n: nat, start: nat, size: nat): nat {
    if start + size < n then start + size else n
  }

  /** The row sets of `run` over consecutive slices of `size` keys, from
      position `start` on. */
  function Sliced<R>(run: seq<Key> -> seq<R>, ids: seq<Key>, size: nat, start: nat): seq<R>
    requires size > 0
    decreases |ids| - start
  {
    if start >= |ids| then []
    else run(ids[start..SliceEnd(|ids|, start, size)]) + Sliced(run, ids, size, start + size)
  }

  predicate Distinct(ids: seq<Key>) {
    forall i, j :: 0 <= i < j < |ids| ==> ids[i] != ids[j]
  }

  /** `run` holds `own` for `parent` in every slice that has it. */
  ghost predicate HoldsOwn(run: seq<Key> -> seq<Pair>, parent: Key, own: seq<Pair>) {
    forall ids {:trigger run(ids)} :: OfParent(run(ids), parent) == if parent in ids then own else []
  }

  /** The slicing is invisible: of distinct keys each falls in one slice, so a
      parent gets its own list once, whatever the slice size. */
  lemma {:induction false} SlicedHoldsOwn(run: seq<Key> -> seq<Pair>, ids: seq<Key>, size: nat, start: nat,
                                          parent: Key, own: seq<Pair>)
    requires size > 0 && Distinct(ids) && HoldsOwn(run, parent, own)
    ensures OfParent(Sliced(run, ids, size, start), parent)
            == if start <= |ids| && parent in ids[start..] then own else []
    decreases |ids| - start
  {
    if start < |ids| {
      var end := SliceEnd(|ids|, start, size);
      SlicedHoldsOwn(run, ids, size, start + size, parent, own);
      LaterKeys(ids, start, size, parent);
      SliceHoldsOwn(run, ids[start..end], parent, own);
      SliceStep(run(ids[start..end]), Sliced(run, ids, size, start + size), ids, start, end, parent, own);
    }
  }

  lemma SliceHoldsOwn(run: seq<Key> -> seq<Pair>, ids: seq<Key>, parent: Key, own: seq<Pair>)
    requires HoldsOwn(run, parent, own)
    ensures OfParent(run(ids), parent) == if parent in ids then own else []
  {}

  lemma LaterKeys(ids: seq<Key>, start: nat, size: nat, key: Key)
    requires size > 0 && start < |ids|
    ensures start <= SliceEnd(|ids|, start, size) <= |ids|
    ensures key in ids[SliceEnd(|ids|, start, size)..] <==> start + size <= |ids| && key in ids[start + size..]
  {}

  lemma SliceStep(part: seq<Pair>, later: seq<Pair>, ids: seq<Key>, start: nat, end: nat, parent: Key, own: seq<Pair>)
    requires Distinct(ids) && start <= end <= |ids|
    requires OfParent(part, parent) == if parent in ids[start..end] then own else []
    requires OfParent(later, parent) == if parent in ids[end..] then own else []
    ensures OfParent(part + later, parent) == if parent in ids[start..] then own else []
  {
    OfParentAppend(part, later, parent);
    SliceSplits(ids, start, end, parent);
  }

  lemma SliceSplits(ids: seq<Key>, start: nat, end: nat, key: Key)
    requires Distinct(ids) && start <= end <= |ids|
    ensures key in ids[start..] <==> key in ids[start..end] || key in ids[end..]
    ensures !(key in ids[start..end] && key in ids[end..])
  {
    assert ids[start..] == ids[start..end] + ids[end..];
  }

  /** A row of the sliced read comes from the statement over one slice. */
  lemma {:induction false} SlicedRowOrigin<R>(run: seq<Key> -> seq<R>, ids: seq<Key>, size: nat, start: nat, r: R)
    returns (slice: seq<Key>)
    requires size > 0 && r in Sliced(run, ids, size, start)
    ensures r in run(slice) && forall k :: k in slice ==> k in ids
    decreases |ids| - start
  {
    slice := ids[start..SliceEnd(|ids|, start, size)];
    if r !in run(slice) { slice := SlicedRowOrigin(run, ids, size, start + size, r); }
  }

  /** Every key is in some slice, whose rows are all in the sliced read. */
  lemma {:induction false} SliceOfKey<R>(run: seq<Key> -> seq<R>, ids: seq<Key>, size: nat, start: nat, key: Key)
    returns (slice: seq<Key>)
    requires size > 0 && start <= |ids| && key in ids[start..]
    ensures key in slice && forall r :: r in run(slice) ==> r in Sliced(run, ids, size, start)
    decreases |ids| - start
  {
    var end := SliceEnd(|ids|, start, size);
    slice := ids[start..end];
    assert ids[start..] == slice + ids[end..];
    if key !in slice { slice := SliceOfKey(run, ids, size, start + size, key); }
  }

  /** How many statements a read over `n` distinct keys costs, from `start` on. */
  function Slices(n: nat, size: nat, start: nat): nat
    requires size > 0
    decreases n - start
  {
    if start >= n then 0 else 1 + Slices(n, size, start + size)
  }

  /** It is the least number of slices of `size` that hold the keys left. */
  lemma {:induction false} SlicesIsCeiling(n: nat, size: nat, start: nat)
    requires size > 0 && start < n
    ensures (Slices(n, size, start) - 1) * size < n - start <= Slices(n, size, start) * size
    decreases n - start
  {
    var k := Slices(n, size, start + size);
    if start + size < n { SlicesIsCeiling(n, size, start + size); }
    assert (k + 1) * size == k * size + size && (k - 1) * size == k * size - size;
  }

  // ------------------------------------------------------------------- counts

  datatype Counted = Counted(parent: Key, count: nat)

  /** SELECT parent, COUNT(*) ... GROUP BY parent: one row per parent that has
      rows, in the order they first occur. */
  function GroupCount(pairs: seq<Pair>): seq<Counted>
    decreases |pairs|
  {
    if pairs == [] then []
    else
      var parent := pairs[0].parent;
      ShrinksWithout(pairs, parent);
      [Counted(parent, |OfParent(pairs, parent)|)] + GroupCount(Without(pairs, parent))
  }

  function Without(pairs: seq<Pair>, parent: Key): seq<Pair> {
    if pairs == [] then []
    else if pairs[0].parent == parent then Without(pairs[1..], parent)
    else [pairs[0]] + Without(pairs[1..], parent)
  }

  lemma {:induction false} ShrinksWithout(pairs: seq<Pair>, parent: Key)
    ensures |Without(pairs, parent)| <= |pairs|
    ensures pairs != [] && pairs[0].parent == parent ==> |Without(pairs, parent)| < |pairs|
  {
    if pairs != [] { ShrinksWithout(pairs[1..], parent); }
  }

  lemma {:induction false} OfParentWithout(pairs: seq<Pair>, gone: Key, parent: Key)
    ensures OfParent(Without(pairs, gone), parent) == if parent == gone then [] else OfParent(pairs, parent)
  {
    if pairs != [] {
      OfParentWithout(pairs[1..], gone, parent);
      var rest := Without(pairs[1..], gone);
      assert ([pairs[0]] + rest)[1..] == rest;
    }
  }

  /** The count the grouped statement reports for a parent; 0 when it has none. */
  function CountOf(counted: seq<Counted>, parent: Key): nat {
    if counted == [] then 0
    else if counted[0].parent == parent then counted[0].count
    else CountOf(counted[1..], parent)
  }

  /** Each group holds one parent's rows ... */
  lemma {:induction false} GroupCountIsLength(pairs: seq<Pair>, parent: Key)
    ensures CountOf(GroupCount(pairs), parent) == |OfParent(pairs, parent)|
    decreases |pairs|
  {
    if pairs != [] {
      var first := pairs[0].parent;
      ShrinksWithout(pairs, first);
      GroupCountIsLength(Without(pairs, first), parent);
      OfParentWithout(pairs, first, parent);
    }
  }

  /** ... so no parent is reported twice with different counts. */
  lemma {:induction false} GroupCountIsExact(pairs: seq<Pair>, c: Counted)
    requires c in GroupCount(pairs)
    ensures c.count == |OfParent(pairs, c.parent)| && c.count > 0
    decreases |pairs|
  {
    var first := pairs[0].parent;
    var rest := Without(pairs, first);
    ShrinksWithout(pairs, first);
    if c != Counted(first, |OfParent(pairs, first)|) {
      assert c in GroupCount(rest);
      GroupCountIsExact(rest, c);
      GroupedParentOccurs(rest, c);
      WithoutIsPart(pairs, first);
      OfParentWithout(pairs, first, c.parent);
    }
  }

  lemma {:induction false} GroupedParentOccurs(pairs: seq<Pair>, c: Counted)
    requires c in GroupCount(pairs)
    ensures exists p :: p in pairs && p.parent == c.parent
    decreases |pairs|
  {
    var first := pairs[0].parent;
    ShrinksWithout(pairs, first);
    if c != GroupCount(pairs)[0] {
      GroupedParentOccurs(Without(pairs, first), c);
      var p :| p in Without(pairs, first) && p.parent == c.parent;
      WithoutIsPart(pairs, first);
    } else {
      assert pairs[0] in pairs;
    }
  }

  lemma {:induction false} WithoutIsPart(pairs: seq<Pair>, gone: Key)
    ensures forall p :: p in Without(pairs, gone) ==> p in pairs && p.parent != gone
  {
    if pairs != [] { WithoutIsPart(pairs[1..], gone); }
  }

  lemma {:induction false} CountedOccurs(counted: seq<Counted>, parent: Key)
    requires CountOf(counted, parent) > 0
    ensures exists c :: c in counted && c.parent == parent
  {
    if counted[0].parent != parent {
      CountedOccurs(counted[1..], parent);
    } else {
      assert counted[0] in counted;
    }
  }

  /** The grouped statement over one slice reports exactly the parents of the
      slice that have rows, each with the length of its own unpaged list. */
  lemma CountsAreLengths(pairs: seq<Pair>, ids: seq<Key>, shape: Shape, parent: Key)
    requires !Pages(shape.page)
    ensures var counted := GroupCount(Selected(pairs, ids, shape));
            && (forall c :: c in counted && c.parent == parent ==>
                  parent in ids && c.count == |OwnRows(pairs, parent, shape)|)
            && (parent in ids && |OwnRows(pairs, parent, shape)| > 0 ==> exists c :: c in counted && c.parent == parent)
  {
    var selected := Selected(pairs, ids, shape);
    var counted := GroupCount(selected);
    SelectOfParent(pairs, ids, shape, parent);
    SortKeepsLength(shape, Selected(OfParent(pairs, parent), [parent], shape));
    GroupCountIsLength(selected, parent);
    forall c | c in counted && c.parent == parent
      ensures parent in ids && c.count == |OwnRows(pairs, parent, shape)|
    {
      GroupCountIsExact(selected, c);
    }
    if CountOf(counted, parent) > 0 { CountedOccurs(counted, parent); }
  }

  lemma SortKeepsLength(shape: Shape, own: seq<Pair>)
    ensures shape.orderBy.Some? ==> |Sort(ByRelation(shape.orderBy.value), own)| == |own|
  {
    if shape.orderBy.Some? {
      var sorted := Sort(ByRelation(shape.orderBy.value), own);
      SortKeepsRows(ByRelation(shape.orderBy.value), own);
      assert |multiset(sorted)| == |sorted| && |multiset(own)| == |own|;
    }
  }
}
