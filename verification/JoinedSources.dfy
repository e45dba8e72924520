/** The joined-table sources as the reads build them: loops over metadata that
    fill ordered sets, lists and a map of column holders. */
module JoinedSources {
  import opened Metadata
  import opened JoinedTables
  import opened JoinedReads
  import opened JoinedColumns

  lemma AddNext(seen: seq<string>, names: seq<string>, i: nat)
    requires i < |names|
    ensures AddAll(seen, names[i..]) == AddAll(Add(seen, names[i]), names[i + 1..])
  {
    assert names[i..][1..] == names[i + 1..];
  }

  /** `set.add(name)` for each name. */
  method AddEach(seen: seq<string>, names: seq<string>) returns (all: seq<string>)
    ensures all == AddAll(seen, names)
  {
    all := seen;
    for i := 0 to |names|
      invariant AddAll(all, names[i..]) == AddAll(seen, names)
    {
      AddNext(all, names, i);
      all := Add(all, names[i]);
    }
  }

  /** The join columns of the relations that have one. */
  method AddJoins(seen: seq<string>, joins: seq<Option<string>>) returns (all: seq<string>)
    ensures all == AddAll(seen, Present(joins))
  {
    all := seen;
    for i := 0 to |joins|
      invariant AddAll(all, Present(joins[i..])) == AddAll(seen, Present(joins))
    {
      assert joins[i..][1..] == joins[i + 1..];
      if joins[i].Some? {
        assert Present(joins[i..]) == [joins[i].value] + Present(joins[i + 1..]);
        all := Add(all, joins[i].value);
      } else {
        assert Present(joins[i..]) == Present(joins[i + 1..]);
      }
    }
  }

  method AddNonKeys(seen: seq<string>, columns: seq<Column>) returns (all: seq<string>)
    ensures all == AddAll(seen, NamesOf(NonKeys(columns)))
  {
    all := seen;
    for i := 0 to |columns|
      invariant AddAll(all, NamesOf(NonKeys(columns[i..]))) == AddAll(seen, NamesOf(NonKeys(columns)))
    {
      assert columns[i..][1..] == columns[i + 1..];
      if !columns[i].primary {
        assert NonKeys(columns[i..]) == [columns[i]] + NonKeys(columns[i + 1..]);
        all := Add(all, columns[i].name);
      } else {
        assert NonKeys(columns[i..]) == NonKeys(columns[i + 1..]);
      }
    }
  }

  /** What the root's table holds besides the key. */
  method JoinedRootColumns(root: Class) returns (columns: seq<string>)
    ensures columns == RootColumns(root)
    ensures forall x :: x in columns <==> Shared(root, x)
  {
    forall x { RootIs(root, x); }
    columns := AddNonKeys([], root.columns);
    columns := AddJoins(columns, root.manyToOne);
    columns := AddJoins(columns, root.oneToOne);
    columns := AddEach(columns, root.computed);
  }

  /** The select list of a subclass read: each column of the subclass the root's
      table does not hold, then the root's, every one of them once. */
  method BuildJoinedChildSelect(h: Hierarchy, c: Class) returns (select: Option<seq<Ref>>)
    ensures select == ChildSelect(h, c)
    ensures select.Some? && c.table != h.root.table ==>
              forall ref :: ref in select.value <==>
                if Shared(h.root, ref.column) then ref.table == h.root.table else ref.table == c.table && Has(c, ref.column)
  {
    if PrimaryKey(c).None? { return None; }
    var rootColumns := JoinedRootColumns(h.root);
    var childColumns := AddEach([], NamesOf(c.columns));
    childColumns := AddJoins(childColumns, c.manyToOne);
    childColumns := AddJoins(childColumns, c.oneToOne);
    childColumns := AddEach(childColumns, c.computed);
    var columns: seq<Ref> := [];
    for i := 0 to |childColumns|
      invariant columns + Refs(c.table, Without(childColumns[i..], rootColumns)) == Refs(c.table, ChildColumns(h, c))
    {
      assert childColumns[i..][1..] == childColumns[i + 1..];
      if childColumns[i] !in rootColumns {
        RefsNext(columns, c.table, childColumns[i], Without(childColumns[i + 1..], rootColumns));
        columns := columns + [Ref(c.table, childColumns[i])];
      } else {
        assert Without(childColumns[i..], rootColumns) == Without(childColumns[i + 1..], rootColumns);
      }
    }
    assert childColumns[|childColumns|..] == [] && columns + [] == columns;
    ghost var own := columns;
    for i := 0 to |rootColumns|
      invariant columns + Refs(h.root.table, rootColumns[i..]) == own + Refs(h.root.table, rootColumns)
    {
      assert rootColumns[i..][1..] == rootColumns[i + 1..];
      RefsNext(columns, h.root.table, rootColumns[i], rootColumns[i + 1..]);
      assert rootColumns[i..] == [rootColumns[i]] + rootColumns[i + 1..];
      columns := columns + [Ref(h.root.table, rootColumns[i])];
    }
    assert rootColumns[|rootColumns|..] == [] && columns + [] == columns;
    if c.table != h.root.table { forall ref { ChildSelectIs(h, c, ref); } }
    return Some(columns);
  }

  lemma RefsNext(done: seq<Ref>, table: string, name: string, rest: seq<string>)
    ensures done + Refs(table, [name] + rest) == (done + [Ref(table, name)]) + Refs(table, rest)
  {
    assert ([name] + rest)[1..] == rest;
  }

  /** The subclass's own columns, by property. */
  method OwnColumnNames(root: Class, columns: seq<Column>) returns (names: seq<string>)
    ensures names == OwnColumns(root, columns)
  {
    names := [];
    for i := 0 to |columns|
      invariant names + OwnColumns(root, columns[i..]) == OwnColumns(root, columns)
    {
      OwnNext(root, columns, i, names);
      if !exists r :: r in root.columns && r.property == columns[i].property { names := names + [columns[i].name]; }
    }
  }

  lemma OwnNext(root: Class, columns: seq<Column>, i: nat, names: seq<string>)
    requires i < |columns|
    ensures var more := if exists r :: r in root.columns && r.property == columns[i].property then names
                        else names + [columns[i].name];
            names + OwnColumns(root, columns[i..]) == more + OwnColumns(root, columns[i + 1..])
  {
    var rest := OwnColumns(root, columns[i + 1..]);
    assert columns[i..][1..] == columns[i + 1..];
    assert names + ([columns[i].name] + rest) == (names + [columns[i].name]) + rest;
    assert names + ([] + rest) == names + rest;
  }

  /** The join columns the root's table does not hold. */
  method JoinedChildJoinColumns(h: Hierarchy, c: Class) returns (columns: seq<string>)
    ensures columns == ChildJoinColumns(h, c)
    ensures forall x :: x in columns <==> Joins(c, x) && !Shared(h.root, x)
  {
    forall x { ChildJoinsAreDeclared(h, c, x); }
    var rootColumns := JoinedRootColumns(h.root);
    var relations := c.manyToOne + c.oneToOne;
    columns := [];
    for i := 0 to |relations|
      invariant AddAll(columns, Without(Present(relations[i..]), rootColumns)) == ChildJoinColumns(h, c)
    {
      JoinsNext(relations, i, rootColumns, columns);
      if relations[i].Some? && relations[i].value !in rootColumns { columns := Add(columns, relations[i].value); }
    }
  }

  lemma JoinsNext(relations: seq<Option<string>>, i: nat, gone: seq<string>, seen: seq<string>)
    requires i < |relations|
    ensures var next := if relations[i].Some? && relations[i].value !in gone then Add(seen, relations[i].value) else seen;
            AddAll(seen, Without(Present(relations[i..]), gone)) == AddAll(next, Without(Present(relations[i + 1..]), gone))
  {
    var rest := Present(relations[i + 1..]);
    assert relations[i..][1..] == relations[i + 1..];
    if relations[i].None? {
      assert Present(relations[i..]) == rest;
    } else {
      var name := relations[i].value;
      assert Present(relations[i..]) == [name] + rest && ([name] + rest)[1..] == rest;
      if name !in gone {
        assert ([name] + Without(rest, gone))[1..] == Without(rest, gone);
      } else {
        assert Without([name] + rest, gone) == Without(rest, gone);
      }
    }
  }

  /** What a read of the root selects from one subclass. */
  method JoinedSubclassColumns(h: Hierarchy, c: Class) returns (names: seq<string>)
    ensures names == SubclassColumns(h, c) && NoRepeats(names)
    ensures forall x :: x in names <==>
              DeclaresNew(h.root, c.columns, x) || (Joins(c, x) && !Shared(h.root, x)) || (x in c.computed && x !in h.root.computed)
  {
    SubclassColumnsAre(h, c);
    forall x { SubclassSelectIs(h, c, x); }
    var own := OwnColumnNames(h.root, c.columns);
    names := AddEach([], own);
    var joins := JoinedChildJoinColumns(h, c);
    names := AddEach(names, joins);
    names := AddEach(names, Without(c.computed, h.root.computed));
  }

  /** `holders.get(column) ?? []` */
  function Listed(holders: map<string, seq<nat>>, column: string): seq<nat> {
    if column in holders then holders[column] else []
  }

  /** Each column's holders, keyed by column; a column of the root's table or of
      no subclass has none. */
  method BuildHolders(h: Hierarchy) returns (holders: map<string, seq<nat>>)
    ensures forall c :: Listed(holders, c)
                        == if c in RootTableColumns(h.root) then [] else Holders(Selected(h), c, |h.subclasses|)
    ensures forall c :: HeldAt(h, c, Listed(holders, c))
  {
    forall c ensures HeldAt(h, c, if c in RootTableColumns(h.root) then [] else Holders(Selected(h), c, |h.subclasses|)) {
      HoldersAreHeld(h, c);
    }
    forall k | 0 <= k < |h.subclasses| ensures NoRepeats(Selected(h)[k]) { SubclassColumnsAre(h, h.subclasses[k]); }
    holders := CollectHolders(RootTableColumns(h.root), Selected(h));
  }

  /** The holders of a column among the first `k` subclasses. */
  function HoldersOf(rootColumns: seq<string>, lists: seq<seq<string>>, c: string, k: nat): seq<nat>
    requires k <= |lists|
  {
    if c in rootColumns then [] else Holders(lists, c, k)
  }

  ghost predicate Tracks(holders: map<string, seq<nat>>, rootColumns: seq<string>, lists: seq<seq<string>>, k: nat)
    requires k <= |lists|
  {
    forall c :: Listed(holders, c) == HoldersOf(rootColumns, lists, c, k)
  }

  lemma TracksNext(before: map<string, seq<nat>>, after: map<string, seq<nat>>, rootColumns: seq<string>,
                   lists: seq<seq<string>>, k: nat)
    requires k < |lists| && Tracks(before, rootColumns, lists, k)
    requires forall c :: Listed(after, c) == Listed(before, c) + (if c in lists[k] && c !in rootColumns then [k] else [])
    ensures Tracks(after, rootColumns, lists, k + 1)
  {
    forall c ensures Listed(after, c) == HoldersOf(rootColumns, lists, c, k + 1) {
      assert Listed(before, c) == HoldersOf(rootColumns, lists, c, k);
    }
  }

  method CollectHolders(rootColumns: seq<string>, lists: seq<seq<string>>) returns (holders: map<string, seq<nat>>)
    requires forall k :: 0 <= k < |lists| ==> NoRepeats(lists[k])
    ensures Tracks(holders, rootColumns, lists, |lists|)
  {
    holders := map[];
    for k := 0 to |lists|
      invariant Tracks(holders, rootColumns, lists, k)
    {
      ghost var before := holders;
      holders := AddHolder(holders, rootColumns, lists[k], k);
      TracksNext(before, holders, rootColumns, lists, k);
    }
  }

  /** Subclass `k` was added to the holders of each of its columns. */
  ghost predicate Added(before: map<string, seq<nat>>, after: map<string, seq<nat>>, rootColumns: seq<string>,
                        names: seq<string>, k: nat) {
    forall c :: Listed(after, c) == Listed(before, c) + (if c in names && c !in rootColumns then [k] else [])
  }

  lemma AddedNext(before: map<string, seq<nat>>, after: map<string, seq<nat>>, rootColumns: seq<string>, names: seq<string>,
                  column: string, k: nat)
    requires column !in names && Added(before, after, rootColumns, names, k)
    ensures Added(before, if column in rootColumns then after else after[column := Listed(after, column) + [k]], rootColumns,
                  names + [column], k)
  {
    assert Listed(before, column) + [] == Listed(before, column);
    assert forall c :: c in names + [column] <==> c in names || c == column;
  }

  /** One subclass's columns, each listed once. */
  method AddHolder(before: map<string, seq<nat>>, rootColumns: seq<string>, names: seq<string>, k: nat)
    returns (holders: map<string, seq<nat>>)
    requires NoRepeats(names)
    ensures forall c :: Listed(holders, c) == Listed(before, c) + (if c in names && c !in rootColumns then [k] else [])
  {
    holders := before;
    for i := 0 to |names|
      invariant Added(before, holders, rootColumns, names[..i], k)
    {
      var column := names[i];
      assert column !in names[..i] && names[..i + 1] == names[..i] + [column];
      AddedNext(before, holders, rootColumns, names[..i], column, k);
      if column !in rootColumns { holders := holders[column := Listed(holders, column) + [k]]; }
    }
    assert names[..|names|] == names;
  }

  // ------------------------------------------------------------------ counting

  /** The values a condition sees. */
  function ReadRow(h: Hierarchy, row: Joined, columns: seq<string>): seq<Cell> {
    if columns == [] then [] else [ReadColumn(h, row, columns[0])] + ReadRow(h, row, columns[1..])
  }

  function RootRow(root: Tuple, columns: seq<string>): seq<Cell> {
    if columns == [] then [] else [At(root, columns[0])] + RootRow(root, columns[1..])
  }

  /** COUNT(*) over the joined root under a condition on some of its columns. */
  function CountMatching(h: Hierarchy, rows: seq<Joined>, columns: seq<string>, test: seq<Cell> -> bool): nat {
    if rows == [] then 0
    else (if test(ReadRow(h, rows[0], columns)) then 1 else 0) + CountMatching(h, rows[1..], columns, test)
  }

  /** A column some subclass's table holds and the root's does not. */
  predicate Held(h: Hierarchy, column: string) {
    column !in RootTableColumns(h.root) && Holders(Selected(h), column, |h.subclasses|) != []
  }

  function OnRoot(columns: seq<string>, test: seq<Cell> -> bool): Tuple -> bool {
    (root: Tuple) => test(RootRow(root, columns))
  }

  lemma {:induction false} RootRowSuffices(h: Hierarchy, row: Joined, columns: seq<string>)
    requires forall c :: c in columns ==> !Held(h, c)
    ensures ReadRow(h, row, columns) == RootRow(row.root, columns)
  {
    if columns != [] {
      assert columns[0] in columns && forall c :: c in columns[1..] ==> c in columns;
      assert ReadColumn(h, row, columns[0]) == At(row.root, columns[0]);
      RootRowSuffices(h, row, columns[1..]);
    }
  }

  lemma {:induction false} CountOnRoot(h: Hierarchy, rows: seq<Joined>, columns: seq<string>, test: seq<Cell> -> bool)
    requires forall c :: c in columns ==> !Held(h, c)
    ensures CountMatching(h, rows, columns, test) == SelectJoined(rows, OnRoot(columns, test))
  {
    if rows != [] {
      RootRowSuffices(h, rows[0], columns);
      CountOnRoot(h, rows[1..], columns, test);
    }
  }

  /** The value an application gave a row's column: none where neither the row's
      class nor the root's table has it. */
  function LogicalCell(h: Hierarchy, l: Logical, column: string): Cell {
    if column in RootTableColumns(h.root) || (0 < l.kind <= |h.subclasses| && column in ChildColumns(h, h.subclasses[l.kind - 1]))
    then At(l.values, column) else None
  }

  function LogicalCells(h: Hierarchy, l: Logical, columns: seq<string>): seq<Cell> {
    seq(|columns|, i requires 0 <= i < |columns| => LogicalCell(h, l, columns[i]))
  }

  /** How many of the rows written pass the condition. */
  function LogicalCount(h: Hierarchy, rows: seq<Logical>, columns: seq<string>, test: seq<Cell> -> bool): nat {
    |set i | 0 <= i < |rows| && test(LogicalCells(h, rows[i], columns))|
  }

  lemma {:induction false} RowReadsAsWritten(h: Hierarchy, row: Joined, l: Logical, columns: seq<string>)
    requires forall c :: c in columns ==> ReadColumn(h, row, c) == LogicalCell(h, l, c)
    ensures ReadRow(h, row, columns) == LogicalCells(h, l, columns)
  {
    if columns != [] {
      assert columns[0] in columns && forall c :: c in columns[1..] ==> c in columns;
      RowReadsAsWritten(h, row, l, columns[1..]);
      assert LogicalCells(h, l, columns) == [LogicalCell(h, l, columns[0])] + LogicalCells(h, l, columns[1..]);
    }
  }

  lemma LogicalCountStep(h: Hierarchy, rows: seq<Logical>, columns: seq<string>, test: seq<Cell> -> bool)
    requires rows != []
    ensures var n := |rows| - 1;
            LogicalCount(h, rows, columns, test)
            == LogicalCount(h, rows[..n], columns, test) + (if test(LogicalCells(h, rows[n], columns)) then 1 else 0)
  {
    var n := |rows| - 1;
    var front := set i | 0 <= i < |rows[..n]| && test(LogicalCells(h, rows[..n][i], columns));
    var all := set i | 0 <= i < |rows| && test(LogicalCells(h, rows[i], columns));
    assert all == if test(LogicalCells(h, rows[n], columns)) then front + {n} else front;
  }

  lemma {:induction false} CountMatchingStep(h: Hierarchy, rows: seq<Joined>, columns: seq<string>, test: seq<Cell> -> bool)
    requires rows != []
    ensures var n := |rows| - 1;
            CountMatching(h, rows, columns, test)
            == CountMatching(h, rows[..n], columns, test) + (if test(ReadRow(h, rows[n], columns)) then 1 else 0)
  {
    if |rows| > 1 {
      CountMatchingStep(h, rows[1..], columns, test);
      assert rows[1..][..|rows| - 2] == rows[..|rows| - 1][1..];
    }
  }

  lemma {:induction false} CountIsOfWritten(h: Hierarchy, joined: seq<Joined>, rows: seq<Logical>, columns: seq<string>,
                                            test: seq<Cell> -> bool)
    requires |joined| == |rows|
    requires forall i, c :: 0 <= i < |rows| && c in columns ==> ReadColumn(h, joined[i], c) == LogicalCell(h, rows[i], c)
    ensures CountMatching(h, joined, columns, test) == LogicalCount(h, rows, columns, test)
    decreases |rows|
  {
    if rows != [] {
      var n := |rows| - 1;
      CountIsOfWritten(h, joined[..n], rows[..n], columns, test);
      RowReadsAsWritten(h, joined[n], rows[n], columns);
      LogicalCountStep(h, rows, columns, test);
      CountMatchingStep(h, joined, columns, test);
    }
  }

  /** Over the rows written, a count under any condition is the number of them
      whose values pass it: a column is read from whichever table stores it. */
  lemma CountIsLogical(h: Hierarchy, rows: seq<Logical>, pk: string, columns: seq<string>, test: seq<Cell> -> bool)
    requires Mapped(h, pk) && DistinctLogical(rows, pk)
    ensures CountMatching(h, JoinedRoot(Stored(h, rows), pk, |h.subclasses|), columns, test)
            == LogicalCount(h, rows, columns, test)
  {
    var joined := JoinedRoot(Stored(h, rows), pk, |h.subclasses|);
    StoredMatchesOnce(h, rows, pk);
    JoinsKeepRows(Stored(h, rows), pk, |h.subclasses|);
    if rows != [] { RootReadIsLogical(h, rows, pk, 0, pk); }
    forall i, c | 0 <= i < |rows| && c in columns ensures ReadColumn(h, joined[i], c) == LogicalCell(h, rows[i], c) {
      RootReadIsLogical(h, rows, pk, i, c);
    }
    CountIsOfWritten(h, joined, rows, columns, test);
  }

  /** Whether some column is read from a subclass. */
  method ReadsSubclass(holders: map<string, seq<nat>>, columns: seq<string>) returns (found: bool)
    ensures !found <==> forall c :: c in columns ==> Listed(holders, c) == []
  {
    found := false;
    for i := 0 to |columns|
      invariant !found <==> forall c :: c in columns[..i] ==> Listed(holders, c) == []
    {
      assert columns[..i + 1] == columns[..i] + [columns[i]];
      if Listed(holders, columns[i]) != [] { found := true; }
    }
    assert columns[..|columns|] == columns;
  }

  /** The subclass tables are joined only when the condition reads one of their
      columns, and that choice never shows in the count: over the rows written it
      is the number of those whose values pass the condition. */
  method Count(h: Hierarchy, db: Tables, pk: string, columns: seq<string>, test: seq<Cell> -> bool) returns (count: nat)
    requires forall k :: 0 <= k < |db.subs| ==> UniqueKeys(db.subs[k], pk)
    ensures count == CountMatching(h, JoinedRoot(db, pk, |db.subs|), columns, test)
    ensures forall rows :: db == Stored(h, rows) && Mapped(h, pk) && DistinctLogical(rows, pk) ==>
              count == LogicalCount(h, rows, columns, test)
  {
    forall rows | db == Stored(h, rows) && Mapped(h, pk) && DistinctLogical(rows, pk)
      ensures CountMatching(h, JoinedRoot(db, pk, |db.subs|), columns, test) == LogicalCount(h, rows, columns, test)
    {
      CountIsLogical(h, rows, pk, columns, test);
    }
    var holders := BuildHolders(h);
    var readsSubclassColumn := ReadsSubclass(holders, columns);
    if readsSubclassColumn {
      count := CountMatching(h, JoinedRoot(db, pk, |db.subs|), columns, test);
    } else {
      CountsOnRoot(h, db, pk, columns, test, holders);
      count := Select(db.root, OnRoot(columns, test));
    }
  }

  lemma CountsOnRoot(h: Hierarchy, db: Tables, pk: string, columns: seq<string>, test: seq<Cell> -> bool,
                     holders: map<string, seq<nat>>)
    requires forall k :: 0 <= k < |db.subs| ==> UniqueKeys(db.subs[k], pk)
    requires forall c :: c in columns ==> Listed(holders, c) == []
    requires forall c :: Listed(holders, c) == if c in RootTableColumns(h.root) then [] else Holders(Selected(h), c, |h.subclasses|)
    ensures CountMatching(h, JoinedRoot(db, pk, |db.subs|), columns, test) == Select(db.root, OnRoot(columns, test))
  {
    forall c | c in columns ensures !Held(h, c) { assert Listed(holders, c) == []; }
    CountOnRoot(h, JoinedRoot(db, pk, |db.subs|), columns, test);
    UniqueKeysKeepCounts(db, pk, OnRoot(columns, test));
  }
}
