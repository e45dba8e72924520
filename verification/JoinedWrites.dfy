/** The two INSERTs of a subclass row: which columns go to which table, decided
    by the root's column names, and what the reads make of them. */
module JoinedWrites {
  import opened Metadata
  import opened JoinedTables
  import opened JoinedReads

  // --------------------------------------------------------------- the split

  /** Declared columns that go to the root's table: keys and the root's own. */
  function ToRoot(columns: seq<Column>, root: seq<Column>): seq<string> {
    if columns == [] then []
    else
      var rest := ToRoot(columns[1..], root);
      if columns[0].primary || columns[0].name in NamesOf(root) then [columns[0].name] + rest else rest
  }

  /** Declared columns that go to the subclass's table: keys and what is not the
      root's. */
  function ToChild(columns: seq<Column>, root: seq<Column>): seq<string> {
    if columns == [] then []
    else
      var rest := ToChild(columns[1..], root);
      if columns[0].primary || columns[0].name !in NamesOf(root) then [columns[0].name] + rest else rest
  }

  /** The join columns no declared column has. */
  function Appended(c: Class): seq<string> {
    Without(Present(c.manyToOne + c.oneToOne), NamesOf(c.columns))
  }

  function Among(names: seq<string>, some: seq<string>): seq<string> {
    if names == [] then [] else (if names[0] in some then [names[0]] else []) + Among(names[1..], some)
  }

  /** What ends up in the subclass's table: the columns of its INSERT and the
      generated ones it declares. */
  function ChildWritten(h: Hierarchy, c: Class): seq<string> {
    ToChild(c.columns, h.root.columns) + Among(Appended(c), ChildJoinColumns(h, c)) + Without(c.computed, h.root.computed)
  }

  /** And in the root's table. */
  function RootWritten(h: Hierarchy, c: Class): seq<string> {
    ToRoot(c.columns, h.root.columns) + Without(Appended(c), ChildJoinColumns(h, c)) + h.root.computed
  }

  lemma {:induction false} ToRootAre(columns: seq<Column>, root: seq<Column>, x: string)
    ensures x in ToRoot(columns, root) <==> exists c :: c in columns && c.name == x && (c.primary || x in NamesOf(root))
  {
    if columns != [] {
      ToRootAre(columns[1..], root, x);
      assert columns == [columns[0]] + columns[1..];
    }
  }

  lemma {:induction false} ToChildAre(columns: seq<Column>, root: seq<Column>, x: string)
    ensures x in ToChild(columns, root) <==> exists c :: c in columns && c.name == x && (c.primary || x !in NamesOf(root))
  {
    if columns != [] {
      ToChildAre(columns[1..], root, x);
      assert columns == [columns[0]] + columns[1..];
    }
  }

  lemma {:induction false} AmongAre(names: seq<string>, some: seq<string>, x: string)
    ensures x in Among(names, some) <==> x in names && x in some
  {
    if names != [] {
      AmongAre(names[1..], some, x);
      assert names == [names[0]] + names[1..];
    }
  }

  lemma AppendedAre(c: Class, x: string)
    ensures x in Appended(c) <==> (x in Present(c.manyToOne) || x in Present(c.oneToOne)) && x !in NamesOf(c.columns)
  {
    PresentConcat(c.manyToOne, c.oneToOne);
    WithoutIsDifference(Present(c.manyToOne + c.oneToOne), NamesOf(c.columns));
  }

  lemma ChildJoinsAre(h: Hierarchy, c: Class, x: string)
    ensures x in ChildJoinColumns(h, c)
            <==> (x in Present(c.manyToOne) || x in Present(c.oneToOne)) && x !in RootColumns(h.root)
  {
    PresentConcat(c.manyToOne, c.oneToOne);
    WithoutIsDifference(Present(c.manyToOne + c.oneToOne), RootColumns(h.root));
    AddAllIsUnion([], Without(Present(c.manyToOne + c.oneToOne), RootColumns(h.root)));
  }

  // ------------------------------------------------------- where reads look

  /** A subclass as inheritance makes it: it has the root's columns, relations,
      generated columns and keys. */
  ghost predicate Inherited(h: Hierarchy, c: Class) {
    && (forall x :: x in NamesOf(h.root.columns) ==> x in NamesOf(c.columns))
    && (forall x :: x in Present(h.root.manyToOne) || x in Present(h.root.oneToOne) ==>
          x in Present(c.manyToOne) || x in Present(c.oneToOne))
    && (forall col :: col in c.columns ==> (col.primary <==> col.name in NamesOf(Keys(h.root.columns))))
    && (forall x :: x in h.root.computed ==> x in c.computed)
  }

  /** A column of the root's table is no key by another name, and a class that
      declares or generates one under its name has it from the root. */
  ghost predicate ApartAt(h: Hierarchy, c: Class, x: string) {
    x in RootColumns(h.root) ==>
      && x !in NamesOf(Keys(h.root.columns))
      && (x in NamesOf(c.columns) ==> x in NamesOf(h.root.columns))
      && (x in c.computed ==> x in h.root.computed)
  }

  ghost predicate NamesApart(h: Hierarchy, c: Class) {
    forall x :: ApartAt(h, c, x)
  }

  /** The class declares no column of its own under a name of the root's table. */
  ghost predicate OwnAt(h: Hierarchy, c: Class, x: string) {
    x in RootColumns(h.root) && x in NamesOf(c.columns) ==> x in NamesOf(h.root.columns)
  }

  /** The root's table generates the column while the class declares its own. */
  predicate GeneratedAt(h: Hierarchy, c: Class, x: string) {
    x in h.root.computed && x in NamesOf(c.columns) && x !in NamesOf(h.root.columns)
  }

  lemma RootColumnsAre(root: Class, x: string)
    ensures x in RootColumns(root) <==>
              x in NamesOf(NonKeys(root.columns)) || x in Present(root.manyToOne) || x in Present(root.oneToOne) || x in root.computed
    ensures x in RootTableColumns(root) <==> x in RootColumns(root) || x in NamesOf(Keys(root.columns))
  {
    var r1 := AddAll([], NamesOf(NonKeys(root.columns)));
    var r2 := AddAll(r1, Present(root.manyToOne));
    AddAllIsUnion([], NamesOf(NonKeys(root.columns)));
    AddAllIsUnion(r1, Present(root.manyToOne));
    AddAllIsUnion(r2, Present(root.oneToOne));
    AddAllIsUnion(AddAll(r2, Present(root.oneToOne)), root.computed);
    AddAllIsUnion(RootColumns(root), NamesOf(Keys(root.columns)));
  }

  /** A declared column goes to the subclass's table if it is a key or not the
      root's, and to the root's if it is a key or the root's. */
  lemma DeclaredGoes(h: Hierarchy, c: Class, x: string)
    requires Inherited(h, c)
    ensures var key, own := x in NamesOf(Keys(h.root.columns)), x in NamesOf(c.columns);
            && (x in ToChild(c.columns, h.root.columns) <==> own && (key || x !in NamesOf(h.root.columns)))
            && (x in ToRoot(c.columns, h.root.columns) <==> own && (key || x in NamesOf(h.root.columns)))
  {
    NamesAre(c.columns, x);
    ToChildAre(c.columns, h.root.columns, x);
    ToRootAre(c.columns, h.root.columns, x);
  }

  lemma ChildWrittenAre(h: Hierarchy, c: Class, x: string)
    requires Inherited(h, c)
    ensures var key, own := x in NamesOf(Keys(h.root.columns)), x in NamesOf(c.columns);
            x in ChildWritten(h, c)
            <==> (own && (key || x !in NamesOf(h.root.columns)))
                 || ((x in Present(c.manyToOne) || x in Present(c.oneToOne)) && !own && x !in RootColumns(h.root))
                 || (x in c.computed && x !in h.root.computed)
  {
    DeclaredGoes(h, c, x);
    AppendedAre(c, x);
    ChildJoinsAre(h, c, x);
    AmongAre(Appended(c), ChildJoinColumns(h, c), x);
    WithoutIsDifference(c.computed, h.root.computed);
  }

  lemma RootWrittenAre(h: Hierarchy, c: Class, x: string)
    requires Inherited(h, c)
    ensures var key, own := x in NamesOf(Keys(h.root.columns)), x in NamesOf(c.columns);
            x in RootWritten(h, c)
            <==> (own && (key || x in NamesOf(h.root.columns)))
                 || ((x in Present(c.manyToOne) || x in Present(c.oneToOne)) && !own && x in RootColumns(h.root))
                 || x in h.root.computed
  {
    DeclaredGoes(h, c, x);
    AppendedAre(c, x);
    ChildJoinsAre(h, c, x);
    WithoutIsDifference(Appended(c), ChildJoinColumns(h, c));
  }

  lemma ChildColumnsAre(h: Hierarchy, c: Class, x: string)
    ensures x in ChildColumns(h, c)
            <==> x !in RootColumns(h.root)
                 && (x in NamesOf(c.columns) || x in Present(c.manyToOne) || x in Present(c.oneToOne) || x in c.computed)
  {
    ColumnsDoNotRepeat(h, c);
    ClassColumnsAre(c);
  }

  /** The INSERT puts a column into the subclass's table exactly when the reads
      look for it there, if and only if its name is apart from the root's; what
      they look for there is always written ... */
  lemma ChildInsertIsReadIff(h: Hierarchy, c: Class, x: string)
    requires Inherited(h, c)
    ensures (x in ChildWritten(h, c) <==> x in ChildColumns(h, c)) <==> ApartAt(h, c, x)
    ensures x in ChildColumns(h, c) ==> x in ChildWritten(h, c)
  {
    ChildWrittenAre(h, c, x);
    ChildColumnsAre(h, c, x);
    RootColumnsAre(h.root, x);
    KeysOrNot(h.root.columns, x);
  }

  /** ... and its value into the root's exactly when it is a column of that table,
      if and only if the class declares no other of that name. */
  lemma RootInsertIsReadIff(h: Hierarchy, c: Class, x: string)
    requires Inherited(h, c)
    ensures (x in RootWritten(h, c) && !GeneratedAt(h, c, x) <==> x in RootTableColumns(h.root)) <==> OwnAt(h, c, x)
    ensures x in RootWritten(h, c) ==> x in RootTableColumns(h.root)
    ensures GeneratedAt(h, c, x) ==> x in RootWritten(h, c)
  {
    RootWrittenAre(h, c, x);
    RootColumnsAre(h.root, x);
    KeysOrNot(h.root.columns, x);
  }

  // ------------------------------------------------------- writing many rows

  /** What the INSERT of a row of class `kind` puts into the root's table. */
  function RootColumnsFor(h: Hierarchy, kind: nat): seq<string> {
    if 0 < kind <= |h.subclasses| then RootWritten(h, h.subclasses[kind - 1]) else RootTableColumns(h.root)
  }

  /** What the database generates for a row. */
  type Generator = (Tuple, string) -> Cell

  predicate GeneratedFor(h: Hierarchy, kind: nat, x: string) {
    0 < kind <= |h.subclasses| && GeneratedAt(h, h.subclasses[kind - 1], x)
  }

  /** The root's part of a row: the values written, but the generated one where
      the class declares its own column under the same name. */
  function RootTuple(h: Hierarchy, kind: nat, values: Tuple, generated: Generator): Tuple {
    map x | x in RootColumnsFor(h, kind) :: if GeneratedFor(h, kind, x) then generated(values, x) else At(values, x)
  }

  function RootInserts(h: Hierarchy, rows: seq<Logical>, generated: Generator): seq<Tuple> {
    if rows == [] then []
    else [RootTuple(h, rows[0].kind, rows[0].values, generated)] + RootInserts(h, rows[1..], generated)
  }

  function ChildInserts(h: Hierarchy, k: nat, rows: seq<Logical>): seq<Tuple>
    requires k < |h.subclasses|
  {
    if rows == [] then []
    else (if rows[0].kind == k + 1 then [Restricted(rows[0].values, ChildWritten(h, h.subclasses[k]))] else [])
         + ChildInserts(h, k, rows[1..])
  }

  function Inserted(h: Hierarchy, rows: seq<Logical>, generated: Generator): Tables {
    Tables(RootInserts(h, rows, generated), seq(|h.subclasses|, k requires 0 <= k < |h.subclasses| => ChildInserts(h, k, rows)))
  }

  // ------------------------------------------------- what the tables then hold

  ghost predicate AllInherit(h: Hierarchy) {
    forall c :: c in h.subclasses ==> Inherited(h, c)
  }

  ghost predicate AllApart(h: Hierarchy) {
    forall c :: c in h.subclasses ==> NamesApart(h, c)
  }

  /** No subclass declares a column of its own under a name of the root's table. */
  ghost predicate AllOwn(h: Hierarchy) {
    forall c, x :: c in h.subclasses ==> OwnAt(h, c, x)
  }

  lemma SameColumns(values: Tuple, a: seq<string>, b: seq<string>)
    requires forall x :: x in a <==> x in b
    ensures Restricted(values, a) == Restricted(values, b)
  {}

  lemma ApartAreOwn(h: Hierarchy)
    requires AllApart(h)
    ensures AllOwn(h)
  {
    forall c, x | c in h.subclasses ensures OwnAt(h, c, x) { assert ApartAt(h, c, x); }
  }

  lemma RootPartsAgree(h: Hierarchy, kind: nat, values: Tuple, generated: Generator)
    requires AllInherit(h) && AllOwn(h)
    ensures RootTuple(h, kind, values, generated) == Restricted(values, RootTableColumns(h.root))
  {
    if 0 < kind <= |h.subclasses| {
      var c := h.subclasses[kind - 1];
      forall x ensures x in RootWritten(h, c) && !GeneratedAt(h, c, x) <==> x in RootTableColumns(h.root)
               ensures GeneratedAt(h, c, x) ==> x in RootWritten(h, c)
               ensures x in RootWritten(h, c) ==> x in RootTableColumns(h.root)
      {
        assert OwnAt(h, c, x);
        RootInsertIsReadIff(h, c, x);
      }
    }
  }

  lemma {:induction false} RootInsertsAre(h: Hierarchy, rows: seq<Logical>, generated: Generator)
    requires AllInherit(h) && AllOwn(h)
    ensures RootInserts(h, rows, generated) == RootPart(h, rows)
  {
    if rows != [] {
      RootPartsAgree(h, rows[0].kind, rows[0].values, generated);
      RootInsertsAre(h, rows[1..], generated);
    }
  }

  lemma {:induction false} ChildInsertsAre(h: Hierarchy, k: nat, rows: seq<Logical>)
    requires k < |h.subclasses| && AllInherit(h) && NamesApart(h, h.subclasses[k])
    ensures ChildInserts(h, k, rows) == ChildPart(h, k, rows)
  {
    if rows != [] {
      var c := h.subclasses[k];
      forall x ensures x in ChildWritten(h, c) <==> x in ChildColumns(h, c) {
        assert ApartAt(h, c, x);
        ChildInsertIsReadIff(h, c, x);
      }
      SameColumns(rows[0].values, ChildWritten(h, c), ChildColumns(h, c));
      ChildInsertsAre(h, k, rows[1..]);
    }
  }

  /** One row of the class, holding one value. */
  function OneRow(k: nat, pk: string, x: string): seq<Logical> {
    [Logical(k + 1, map[pk := Some("1"), x := Some("7")])]
  }

  lemma OneRowSplit(h: Hierarchy, k: nat, rows: seq<Logical>, generated: Generator)
    requires k < |h.subclasses| && |rows| == 1 && rows[0].kind == k + 1
    ensures RootInserts(h, rows, generated) == [RootTuple(h, k + 1, rows[0].values, generated)]
    ensures ChildInserts(h, k, rows) == [Restricted(rows[0].values, ChildWritten(h, h.subclasses[k]))]
    ensures ChildPart(h, k, rows) == [Restricted(rows[0].values, ChildColumns(h, h.subclasses[k]))]
    ensures OfClass(h, k, rows)
            == [Restricted(rows[0].values, ChildColumns(h, h.subclasses[k]) + RootColumns(h.root))]
  {
    assert rows[1..] == [];
  }

  /** Nothing the database would make up. */
  const NoneGenerated: Generator := (values, column) => None

  /** A name that is not apart leaves a column in the subclass's table where no
      read looks for it. */
  lemma MisplacedColumn(h: Hierarchy, k: nat, x: string)
    requires k < |h.subclasses| && AllInherit(h) && !ApartAt(h, h.subclasses[k], x)
    ensures Inserted(h, OneRow(k, x, x), NoneGenerated).subs[k] != Stored(h, OneRow(k, x, x)).subs[k]
  {
    var rows := OneRow(k, x, x);
    ChildInsertIsReadIff(h, h.subclasses[k], x);
    OneRowSplit(h, k, rows, NoneGenerated);
    AtRestricted(rows[0].values, ChildWritten(h, h.subclasses[k]), x);
    AtRestricted(rows[0].values, ChildColumns(h, h.subclasses[k]), x);
  }

  /** The INSERTs leave the tables the reads are proved over, whatever the rows
      and what is generated, exactly when every subclass keeps its names apart from the root's. */
  lemma InsertedIsStoredIff(h: Hierarchy)
    requires AllInherit(h)
    ensures (forall rows, generated :: Inserted(h, rows, generated) == Stored(h, rows)) <==> AllApart(h)
  {
    if AllApart(h) {
      forall rows, generated ensures Inserted(h, rows, generated) == Stored(h, rows) {
        InsertedIsStored(h, rows, generated);
      }
    } else {
      var c, x :| c in h.subclasses && !ApartAt(h, c, x);
      var k :| 0 <= k < |h.subclasses| && h.subclasses[k] == c;
      MisplacedColumn(h, k, x);
      assert Inserted(h, OneRow(k, x, x), NoneGenerated) != Stored(h, OneRow(k, x, x));
    }
  }

  lemma InsertedIsStored(h: Hierarchy, rows: seq<Logical>, generated: Generator)
    requires AllInherit(h) && AllApart(h)
    ensures Inserted(h, rows, generated) == Stored(h, rows)
  {
    ApartAreOwn(h);
    RootInsertsAre(h, rows, generated);
    forall k | 0 <= k < |h.subclasses| ensures ChildInserts(h, k, rows) == ChildPart(h, k, rows) {
      assert h.subclasses[k] in h.subclasses;
      ChildInsertsAre(h, k, rows);
    }
  }

  // -------------------------------------------------- what the reads return

  /** The tuples with some columns only. */
  function Trimmed(table: seq<Tuple>, columns: seq<string>): seq<Tuple> {
    if table == [] then [] else [Restricted(table[0], columns)] + Trimmed(table[1..], columns)
  }

  lemma RestrictedTwice(values: Tuple, more: seq<string>, columns: seq<string>)
    requires forall x :: x in columns ==> x in more
    ensures Restricted(Restricted(values, more), columns) == Restricted(values, columns)
  {
    forall x | x in columns ensures At(Restricted(values, more), x) == At(values, x) { AtRestricted(values, more, x); }
  }

  /** A subclass's table holds all that reads look for there, and perhaps more. */
  lemma {:induction false} ChildInsertsTrimmed(h: Hierarchy, k: nat, rows: seq<Logical>)
    requires k < |h.subclasses| && AllInherit(h)
    ensures Trimmed(ChildInserts(h, k, rows), ChildColumns(h, h.subclasses[k])) == ChildPart(h, k, rows)
  {
    if rows != [] {
      var c := h.subclasses[k];
      ChildInsertsTrimmed(h, k, rows[1..]);
      if rows[0].kind == k + 1 {
        forall x | x in ChildColumns(h, c) ensures x in ChildWritten(h, c) { ChildInsertIsReadIff(h, c, x); }
        RestrictedTwice(rows[0].values, ChildWritten(h, c), ChildColumns(h, c));
        TrimmedFirst(Restricted(rows[0].values, ChildWritten(h, c)), ChildInserts(h, k, rows[1..]), ChildColumns(h, c));
      } else {
        assert ChildInserts(h, k, rows) == ChildInserts(h, k, rows[1..]) && ChildPart(h, k, rows) == ChildPart(h, k, rows[1..]);
      }
    }
  }

  lemma TrimmedFirst(first: Tuple, rest: seq<Tuple>, columns: seq<string>)
    ensures Trimmed([first] + rest, columns) == [Restricted(first, columns)] + Trimmed(rest, columns)
  {
    assert ([first] + rest)[1..] == rest;
  }

  lemma {:induction false} MatchesTrimmed(table: seq<Tuple>, columns: seq<string>, pk: string, key: Cell)
    requires pk in columns
    ensures Matches(Trimmed(table, columns), pk, key) == Trimmed(Matches(table, pk, key), columns)
  {
    if table != [] {
      MatchesTrimmed(table[1..], columns, pk, key);
      AtRestricted(table[0], columns, pk);
      assert Trimmed(table, columns)[1..] == Trimmed(table[1..], columns);
      var rest := Matches(table[1..], pk, key);
      TrimmedFirst(table[0], rest, columns);
      assert [] + rest == rest && [] + Trimmed(rest, columns) == Trimmed(rest, columns);
    }
  }

  lemma {:induction false} MergedTrimmed(own: seq<string>, shared: seq<string>, child: Tuple, roots: seq<Tuple>)
    ensures MergedAll(own, shared, Restricted(child, own), roots) == MergedAll(own, shared, child, roots)
  {
    if roots != [] {
      MergedTrimmed(own, shared, child, roots[1..]);
      MergedOwn(own, shared, child, roots[0]);
    }
  }

  lemma MergedOwn(own: seq<string>, shared: seq<string>, child: Tuple, root: Tuple)
    ensures Merged(own, shared, Restricted(child, own), root) == Merged(own, shared, child, root)
  {
    var a, b := Merged(own, shared, Restricted(child, own), root), Merged(own, shared, child, root);
    forall x | x in own + shared ensures a[x] == b[x] { AtRestricted(child, own, x); }
    assert a.Keys == b.Keys;
  }

  lemma InnerJoinNext(own: seq<string>, shared: seq<string>, first: Tuple, rest: seq<Tuple>, roots: seq<Tuple>, pk: string)
    ensures InnerJoin(own, shared, [first] + rest, roots, pk)
            == MergedAll(own, shared, first, Matches(roots, pk, At(first, pk))) + InnerJoin(own, shared, rest, roots, pk)
  {
    assert ([first] + rest)[1..] == rest;
  }

  lemma {:induction false} InnerJoinTrimmed(own: seq<string>, shared: seq<string>, children: seq<Tuple>, roots: seq<Tuple>,
                                            pk: string)
    requires pk in own
    ensures InnerJoin(own, shared, Trimmed(children, own), roots, pk) == InnerJoin(own, shared, children, roots, pk)
  {
    if children != [] {
      var first, rest := Restricted(children[0], own), Trimmed(children[1..], own);
      InnerJoinTrimmed(own, shared, children[1..], roots, pk);
      AtRestricted(children[0], own, pk);
      MergedTrimmed(own, shared, children[0], Matches(roots, pk, At(children[0], pk)));
      InnerJoinNext(own, shared, first, rest, roots, pk);
    }
  }

  /** A subclass's read of what was inserted. */
  lemma SubclassReadsInserted(h: Hierarchy, k: nat, rows: seq<Logical>, pk: string, generated: Generator)
    requires AllInherit(h) && AllOwn(h)
    requires k < |h.subclasses| && SharedKey(h, k, pk) && DistinctLogical(rows, pk)
    ensures ReadSubclass(h, k, Inserted(h, rows, generated), pk) == OfClass(h, k, rows)
  {
    var own, shared := ChildColumns(h, h.subclasses[k]), RootColumns(h.root);
    RootInsertsAre(h, rows, generated);
    ChildInsertsTrimmed(h, k, rows);
    InnerJoinTrimmed(own, shared, ChildInserts(h, k, rows), RootPart(h, rows), pk);
    SubclassReadIsLogical(h, k, rows, pk);
  }

  lemma {:induction false} TrimmedSize(table: seq<Tuple>, columns: seq<string>)
    ensures |Trimmed(table, columns)| == |table|
    ensures table != [] ==> First(Trimmed(table, columns)) == Some(Restricted(table[0], columns))
  {
    if table != [] { TrimmedSize(table[1..], columns); }
  }

  /** The join row of a root's row reads, over what was inserted, as over what
      reads look for. */
  lemma SameMatch(h: Hierarchy, k: nat, rows: seq<Logical>, pk: string, key: Cell)
    requires k < |h.subclasses| && AllInherit(h) && pk in ChildColumns(h, h.subclasses[k])
    ensures var own := ChildColumns(h, h.subclasses[k]);
            var found, stored := Matches(ChildInserts(h, k, rows), pk, key), Matches(ChildPart(h, k, rows), pk, key);
            && |found| == |stored|
            && (found != [] ==> First(stored) == Some(Restricted(found[0], own)))
  {
    var own := ChildColumns(h, h.subclasses[k]);
    ChildInsertsTrimmed(h, k, rows);
    MatchesTrimmed(ChildInserts(h, k, rows), own, pk, key);
    TrimmedSize(Matches(ChildInserts(h, k, rows), pk, key), own);
  }

  lemma InsertedMatchesOnce(h: Hierarchy, rows: seq<Logical>, pk: string, generated: Generator)
    requires AllInherit(h) && AllOwn(h) && Mapped(h, pk) && DistinctLogical(rows, pk)
    ensures AtMostOne(Inserted(h, rows, generated), pk, Inserted(h, rows, generated).root, |h.subclasses|)
  {
    RootInsertsAre(h, rows, generated);
    StoredMatchesOnce(h, rows, pk);
    var db := Stored(h, rows);
    forall r, k | r in RootPart(h, rows) && 0 <= k < |h.subclasses|
      ensures |Matches(ChildInserts(h, k, rows), pk, At(r, pk))| <= 1
    {
      SameMatch(h, k, rows, pk, At(r, pk));
      assert |Matches(db.subs[k], pk, At(r, pk))| <= 1;
    }
  }

  lemma {:induction false} CoalescesAlike(a: Joined, b: Joined, holders: seq<nat>, column: string)
    requires forall k :: k in holders ==> CellOf(a, k, column) == CellOf(b, k, column)
    ensures Coalesce(a, holders, column) == Coalesce(b, holders, column)
  {
    if holders != [] {
      assert holders[0] in holders && forall k :: k in holders[1..] ==> k in holders;
      CoalescesAlike(a, b, holders[1..], column);
    }
  }

  lemma SameCell(h: Hierarchy, k: nat, rows: seq<Logical>, pk: string, root: Tuple, column: string, generated: Generator)
    requires k < |h.subclasses| && AllInherit(h) && pk in ChildColumns(h, h.subclasses[k])
    requires column in ChildColumns(h, h.subclasses[k])
    ensures StoredCell(Inserted(h, rows, generated), pk, root, k, column) == StoredCell(Stored(h, rows), pk, root, k, column)
  {
    var found := Matches(ChildInserts(h, k, rows), pk, At(root, pk));
    SameMatch(h, k, rows, pk, At(root, pk));
    if found != [] { AtRestricted(found[0], ChildColumns(h, h.subclasses[k]), column); }
  }

  /** A column outside the root's table reads the same. */
  lemma ReadsAlike(h: Hierarchy, rows: seq<Logical>, pk: string, root: Tuple, column: string, generated: Generator)
    requires AllInherit(h) && Mapped(h, pk)
    ensures ReadColumn(h, Completed(Inserted(h, rows, generated), pk, root, |h.subclasses|), column)
            == ReadColumn(h, Completed(Stored(h, rows), pk, root, |h.subclasses|), column)
  {
    var n := |h.subclasses|;
    var a, b := Completed(Inserted(h, rows, generated), pk, root, n), Completed(Stored(h, rows), pk, root, n);
    if column !in RootTableColumns(h.root) {
      var holders := Holders(Selected(h), column, n);
      forall k | k in holders ensures CellOf(a, k, column) == CellOf(b, k, column) {
        SameHolder(h, k, rows, pk, root, column, generated);
      }
      CoalescesAlike(a, b, holders, column);
    }
  }

  lemma SameHolder(h: Hierarchy, k: nat, rows: seq<Logical>, pk: string, root: Tuple, column: string, generated: Generator)
    requires AllInherit(h) && Mapped(h, pk) && column !in RootTableColumns(h.root)
    requires k in Holders(Selected(h), column, |h.subclasses|)
    ensures CellOf(Completed(Inserted(h, rows, generated), pk, root, |h.subclasses|), k, column)
            == CellOf(Completed(Stored(h, rows), pk, root, |h.subclasses|), k, column)
  {
    HoldersAre(Selected(h), column, |h.subclasses|, k);
    SubclassColumnsAreStored(h, h.subclasses[k], column);
    SameCell(h, k, rows, pk, root, column, generated);
    CellIsStored(Inserted(h, rows, generated), pk, root, k, column);
    CellIsStored(Stored(h, rows), pk, root, k, column);
  }

  /** The i-th row reads as it was written: a column of the root's table or of
      its own subclass, NULL for any other. */
  ghost predicate ReadsAsWritten(h: Hierarchy, rows: seq<Logical>, joined: seq<Joined>, i: nat, column: string)
    requires i < |rows|
  {
    var l := rows[i];
    && |joined| == |rows|
    && ReadColumn(h, joined[i], column)
       == if column in RootTableColumns(h.root) then At(l.values, column)
          else if 0 < l.kind <= |h.subclasses| && column in ChildColumns(h, h.subclasses[l.kind - 1]) then At(l.values, column)
          else None
  }

  /** A root's read of what was inserted. */
  lemma RootReadsInserted(h: Hierarchy, rows: seq<Logical>, pk: string, i: nat, column: string, generated: Generator)
    requires AllInherit(h) && AllOwn(h)
    requires Mapped(h, pk) && DistinctLogical(rows, pk) && i < |rows|
    ensures ReadsAsWritten(h, rows, JoinedRoot(Inserted(h, rows, generated), pk, |h.subclasses|), i, column)
  {
    var n, db, stored := |h.subclasses|, Inserted(h, rows, generated), Stored(h, rows);
    RootInsertsAre(h, rows, generated);
    InsertedMatchesOnce(h, rows, pk, generated);
    StoredMatchesOnce(h, rows, pk);
    JoinsKeepRows(db, pk, n);
    JoinsKeepRows(stored, pk, n);
    RootPartAt(h, rows, i);
    CompletedAt(db, pk, db.root, n, i);
    CompletedAt(stored, pk, stored.root, n, i);
    ReadsAlike(h, rows, pk, db.root[i], column, generated);
    RootReadIsLogical(h, rows, pk, i, column);
  }

  // ------------------------------------------------------- a name taken twice

  /** A column declared under the name of one the root's table joins by or
      generates goes to the subclass's table, while the reads take it from the
      root's: the value written is lost. */
  lemma ClashIsLost(h: Hierarchy, k: nat, pk: string, x: string)
    requires AllInherit(h) && k < |h.subclasses| && SharedKey(h, k, pk) && !OwnAt(h, h.subclasses[k], x)
    ensures var rows := OneRow(k, pk, x); var read := ReadSubclass(h, k, Inserted(h, rows, NoneGenerated), pk);
            && DistinctLogical(rows, pk)
            && |read| == 1 && At(read[0], x) == None && At(OfClass(h, k, rows)[0], x) == Some("7")
    ensures x in RootTableColumns(h.root) && At(RootTuple(h, k + 1, OneRow(k, pk, x)[0].values, NoneGenerated), x) == None
  {
    var rows, c := OneRow(k, pk, x), h.subclasses[k];
    assert c in h.subclasses;
    ClashColumns(h, k, pk, x);
    var child, root := Restricted(rows[0].values, ChildWritten(h, c)), RootTuple(h, k + 1, rows[0].values, NoneGenerated);
    KeyInBoth(h, k, pk, rows[0].values);
    LostInRoot(h, k, x, rows[0].values);
    OneRowRead(h, k, rows, pk, NoneGenerated);
    MergedShared(ChildColumns(h, c), RootColumns(h.root), child, root, x);
    AtRestricted(rows[0].values, ChildColumns(h, c) + RootColumns(h.root), x);
  }

  lemma ClashColumns(h: Hierarchy, k: nat, pk: string, x: string)
    requires k < |h.subclasses| && SharedKey(h, k, pk) && !OwnAt(h, h.subclasses[k], x)
    ensures x in RootColumns(h.root) && x in RootTableColumns(h.root) && x !in ChildColumns(h, h.subclasses[k])
    ensures At(OneRow(k, pk, x)[0].values, pk) == Some("1") && At(OneRow(k, pk, x)[0].values, x) == Some("7")
  {
    RootColumnsAre(h.root, x);
    ChildColumnsAre(h, h.subclasses[k], x);
    ChildColumnsAre(h, h.subclasses[k], pk);
  }

  lemma MergedShared(own: seq<string>, shared: seq<string>, child: Tuple, root: Tuple, x: string)
    requires x in shared && x !in own
    ensures At(Merged(own, shared, child, root), x) == At(root, x)
  {}

  lemma OneRowRead(h: Hierarchy, k: nat, rows: seq<Logical>, pk: string, generated: Generator)
    requires k < |h.subclasses| && |rows| == 1 && rows[0].kind == k + 1
    requires var child := Restricted(rows[0].values, ChildWritten(h, h.subclasses[k]));
             At(child, pk).Some? && At(RootTuple(h, k + 1, rows[0].values, generated), pk) == At(child, pk)
    ensures ReadSubclass(h, k, Inserted(h, rows, generated), pk)
            == [Merged(ChildColumns(h, h.subclasses[k]), RootColumns(h.root),
                       Restricted(rows[0].values, ChildWritten(h, h.subclasses[k])),
                       RootTuple(h, k + 1, rows[0].values, generated))]
    ensures OfClass(h, k, rows) == [Restricted(rows[0].values, ChildColumns(h, h.subclasses[k]) + RootColumns(h.root))]
  {
    OneRowSplit(h, k, rows, generated);
    OneJoined(ChildColumns(h, h.subclasses[k]), RootColumns(h.root), Restricted(rows[0].values, ChildWritten(h, h.subclasses[k])),
              RootTuple(h, k + 1, rows[0].values, generated), pk);
  }

  lemma LostInRoot(h: Hierarchy, k: nat, x: string, values: Tuple)
    requires k < |h.subclasses| && Inherited(h, h.subclasses[k]) && !OwnAt(h, h.subclasses[k], x)
    ensures At(RootTuple(h, k + 1, values, NoneGenerated), x) == None
  {
    RootColumnsAre(h.root, x);
    RootInsertIsReadIff(h, h.subclasses[k], x);
  }

  lemma KeyInBoth(h: Hierarchy, k: nat, pk: string, values: Tuple)
    requires k < |h.subclasses| && Inherited(h, h.subclasses[k]) && SharedKey(h, k, pk)
    ensures At(RootTuple(h, k + 1, values, NoneGenerated), pk) == At(values, pk)
    ensures At(Restricted(values, ChildWritten(h, h.subclasses[k])), pk) == At(values, pk)
  {
    var c := h.subclasses[k];
    ChildInsertIsReadIff(h, c, pk);
    ChildColumnsAre(h, c, pk);
    RootColumnsAre(h.root, pk);
    RootInsertIsReadIff(h, c, pk);
    AtRestricted(values, ChildWritten(h, c), pk);
  }

  lemma OneJoined(own: seq<string>, shared: seq<string>, child: Tuple, root: Tuple, pk: string)
    requires At(child, pk).Some? && At(root, pk) == At(child, pk)
    ensures InnerJoin(own, shared, [child], [root], pk) == [Merged(own, shared, child, root)]
  {
    assert [child][1..] == [] && [root][1..] == [];
    assert Matches([root], pk, At(child, pk)) == [root];
    MergedOne(own, shared, child, root);
  }

  /** Rows inserted by the split are read back whole, once and in order by every
      subclass exactly when no subclass declares a column of its own under the
      name of a column of the root's table. */
  lemma SubclassReadsInsertedIff(h: Hierarchy, pk: string)
    requires AllInherit(h) && forall k :: 0 <= k < |h.subclasses| ==> SharedKey(h, k, pk)
    ensures (forall k, rows, generated :: 0 <= k < |h.subclasses| && DistinctLogical(rows, pk) ==>
               ReadSubclass(h, k, Inserted(h, rows, generated), pk) == OfClass(h, k, rows))
            <==> AllOwn(h)
  {
    if AllOwn(h) {
      forall k, rows, generated | 0 <= k < |h.subclasses| && DistinctLogical(rows, pk)
        ensures ReadSubclass(h, k, Inserted(h, rows, generated), pk) == OfClass(h, k, rows)
      {
        SubclassReadsInserted(h, k, rows, pk, generated);
      }
    } else {
      var c, x :| c in h.subclasses && !OwnAt(h, c, x);
      var k :| 0 <= k < |h.subclasses| && h.subclasses[k] == c;
      ClashIsLost(h, k, pk, x);
      assert ReadSubclass(h, k, Inserted(h, OneRow(k, pk, x), NoneGenerated), pk) != OfClass(h, k, OneRow(k, pk, x));
    }
  }

  /** And by the root, every column as it was written, under the same condition. */
  lemma RootReadsInsertedIff(h: Hierarchy, pk: string)
    requires AllInherit(h) && Mapped(h, pk)
    ensures (forall rows, generated, i: nat, column :: DistinctLogical(rows, pk) && i < |rows| ==>
               ReadsAsWritten(h, rows, JoinedRoot(Inserted(h, rows, generated), pk, |h.subclasses|), i, column))
            <==> AllOwn(h)
  {
    if AllOwn(h) {
      forall rows, generated, i: nat, column | DistinctLogical(rows, pk) && i < |rows|
        ensures ReadsAsWritten(h, rows, JoinedRoot(Inserted(h, rows, generated), pk, |h.subclasses|), i, column)
      {
        RootReadsInserted(h, rows, pk, i, column, generated);
      }
    } else {
      var c, x :| c in h.subclasses && !OwnAt(h, c, x);
      var k :| 0 <= k < |h.subclasses| && h.subclasses[k] == c;
      ClashIsUnread(h, k, pk, x);
    }
  }

  lemma ClashIsUnread(h: Hierarchy, k: nat, pk: string, x: string)
    requires AllInherit(h) && Mapped(h, pk) && k < |h.subclasses| && !OwnAt(h, h.subclasses[k], x)
    ensures DistinctLogical(OneRow(k, pk, x), pk)
    ensures !ReadsAsWritten(h, OneRow(k, pk, x),
                            JoinedRoot(Inserted(h, OneRow(k, pk, x), NoneGenerated), pk, |h.subclasses|), 0, x)
  {
    var rows := OneRow(k, pk, x);
    var db := Inserted(h, rows, NoneGenerated);
    var joined := JoinedRoot(db, pk, |h.subclasses|);
    ClashIsLost(h, k, pk, x);
    OneRowSplit(h, k, rows, NoneGenerated);
    if |joined| == 1 {
      assert HasRoot(joined, joined[0].root);
      JoinedRoots(db, pk, |h.subclasses|, joined[0].root);
      assert joined[0].root == db.root[0];
    }
  }

  // ---------------------------------------------------------------- an example

  /** A task is owned through a join column; a job, which extends it, declares a
      plain column of that name. */
  const Task: Class := Class("task", [Column("id", "id", true)], [Some("ownerId")], [], [])

  const Job: Class := Class("job", [Column("id", "id", true), Column("ownerId", "ownerId", false)], [Some("ownerId")], [], [])

  const Jobs: Hierarchy := Hierarchy(Task, [Job])

  lemma JobColumns()
    ensures NamesOf(Task.columns) == ["id"] && NamesOf(Keys(Task.columns)) == ["id"] && NamesOf(NonKeys(Task.columns)) == []
    ensures NamesOf(Job.columns) == ["id", "ownerId"] && Present(Task.manyToOne) == ["ownerId"]
    ensures Present(Job.manyToOne) == ["ownerId"] && Present(Task.oneToOne) == [] && Present(Job.oneToOne) == []
  {
    assert Task.columns[1..] == [] && Job.columns[1..][1..] == [] && Job.manyToOne[1..] == [] && Task.manyToOne[1..] == [];
    assert Job.columns[1..] == [Column("ownerId", "ownerId", false)];
  }

  /** The owner a job is saved with is read back as NULL. */
  lemma JobLosesOwner()
    ensures AllInherit(Jobs) && SharedKey(Jobs, 0, "id") && !OwnAt(Jobs, Job, "ownerId")
    ensures var rows := OneRow(0, "id", "ownerId");
            var read := ReadSubclass(Jobs, 0, Inserted(Jobs, rows, NoneGenerated), "id");
            |read| == 1 && At(rows[0].values, "ownerId") == Some("7") && At(read[0], "ownerId") == None
  {
    JobColumns();
    RootColumnsAre(Task, "id");
    RootColumnsAre(Task, "ownerId");
    ChildColumnsAre(Jobs, Job, "id");
    ClashIsLost(Jobs, 0, "id", "ownerId");
  }
}
