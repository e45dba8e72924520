/** Which table holds which column, told from what the classes declare. */
module JoinedColumns {
  import opened Metadata
  import opened Positions
  import opened JoinedTables
  import opened JoinedReads

  ghost predicate Declares(columns: seq<Column>, x: string, primary: bool) {
    exists i :: 0 <= i < |columns| && columns[i].name == x && columns[i].primary == primary
  }

  ghost predicate Joins(c: Class, x: string) {
    Some(x) in c.manyToOne || Some(x) in c.oneToOne
  }

  /** The root's table holds the column besides its key: the root declares it, joins
      a relation by it or generates it. */
  ghost predicate Shared(root: Class, x: string) {
    Declares(root.columns, x, false) || Joins(root, x) || x in root.computed
  }

  ghost predicate Has(c: Class, x: string) {
    Declares(c.columns, x, true) || Declares(c.columns, x, false) || Joins(c, x) || x in c.computed
  }

  /** No column of the root is this property. */
  ghost predicate NewProperty(root: Class, property: string) {
    forall i :: 0 <= i < |root.columns| ==> root.columns[i].property != property
  }

  ghost predicate DeclaresNew(root: Class, columns: seq<Column>, x: string) {
    exists i :: 0 <= i < |columns| && columns[i].name == x && NewProperty(root, columns[i].property)
  }

  lemma {:induction false} PresentAre(joins: seq<Option<string>>, x: string)
    ensures x in Present(joins) <==> Some(x) in joins
  {
    if joins != [] {
      PresentAre(joins[1..], x);
      assert joins == [joins[0]] + joins[1..];
    }
  }

  lemma DeclaresCons(first: Column, rest: seq<Column>, x: string, primary: bool)
    ensures Declares([first] + rest, x, primary) <==> (first.name == x && first.primary == primary) || Declares(rest, x, primary)
  {
    var all := [first] + rest;
    if first.name == x && first.primary == primary { assert all[0] == first; }
    if i :| 0 <= i < |rest| && rest[i].name == x && rest[i].primary == primary { assert all[i + 1] == rest[i]; }
  }

  lemma {:induction false} KeysAre(columns: seq<Column>, x: string)
    ensures x in NamesOf(Keys(columns)) <==> Declares(columns, x, true)
    ensures x in NamesOf(NonKeys(columns)) <==> Declares(columns, x, false)
  {
    if columns != [] {
      var first, rest := columns[0], columns[1..];
      assert columns == [first] + rest;
      KeysAre(rest, x);
      DeclaresCons(first, rest, x, true);
      DeclaresCons(first, rest, x, false);
      assert ([first] + Keys(rest))[1..] == Keys(rest) && ([first] + NonKeys(rest))[1..] == NonKeys(rest);
      assert [] + Keys(rest) == Keys(rest) && [] + NonKeys(rest) == NonKeys(rest);
    }
  }

  lemma ColumnsAreDeclared(h: Hierarchy, c: Class, x: string)
    ensures x in RootColumns(h.root) <==> Shared(h.root, x)
    ensures x in RootTableColumns(h.root) <==> Shared(h.root, x) || Declares(h.root.columns, x, true)
    ensures x in ClassColumns(c) <==> Has(c, x)
    ensures x in ChildColumns(h, c) <==> Has(c, x) && !Shared(h.root, x)
  {
    RootIs(h.root, x);
    ClassIs(c, x);
    ColumnsDoNotRepeat(h, c);
  }

  lemma RootIs(root: Class, x: string)
    ensures x in RootColumns(root) <==> Shared(root, x)
    ensures x in RootTableColumns(root) <==> Shared(root, x) || Declares(root.columns, x, true)
  {
    var r1 := AddAll([], NamesOf(NonKeys(root.columns)));
    var r2 := AddAll(r1, Present(root.manyToOne));
    AddAllIsUnion([], NamesOf(NonKeys(root.columns)));
    AddAllIsUnion(r1, Present(root.manyToOne));
    AddAllIsUnion(r2, Present(root.oneToOne));
    AddAllIsUnion(AddAll(r2, Present(root.oneToOne)), root.computed);
    AddAllIsUnion(RootColumns(root), NamesOf(Keys(root.columns)));
    KeysAre(root.columns, x);
    PresentAre(root.manyToOne, x);
    PresentAre(root.oneToOne, x);
  }

  lemma ClassIs(c: Class, x: string)
    ensures x in ClassColumns(c) <==> Has(c, x)
  {
    ClassColumnsAre(c);
    KeysOrNot(c.columns, x);
    KeysAre(c.columns, x);
    PresentAre(c.manyToOne, x);
    PresentAre(c.oneToOne, x);
  }

  /** A subclass read lists each column the class has or the root's table shares
      exactly once, and takes it from the root's table if that holds it. */
  lemma ChildSelectIs(h: Hierarchy, c: Class, ref: Ref)
    requires c.table != h.root.table
    ensures ChildSelect(h, c).None? <==> forall x :: !Declares(c.columns, x, true)
    ensures ChildSelect(h, c).Some? ==>
              var refs := ChildSelect(h, c).value;
              && (forall i, j :: 0 <= i < j < |refs| ==> refs[i].column != refs[j].column)
              && (ref in refs <==>
                    if Shared(h.root, ref.column) then ref.table == h.root.table else ref.table == c.table && Has(c, ref.column))
  {
    if Keys(c.columns) != [] {
      KeysAre(c.columns, Keys(c.columns)[0].name);
      EachColumnOnce(h, c, ref);
      ColumnsAreDeclared(h, c, ref.column);
    } else {
      forall x ensures !Declares(c.columns, x, true) { KeysAre(c.columns, x); }
    }
  }

  lemma ChildJoinsAreDeclared(h: Hierarchy, c: Class, x: string)
    ensures x in ChildJoinColumns(h, c) <==> Joins(c, x) && !Shared(h.root, x)
  {
    PresentConcat(c.manyToOne, c.oneToOne);
    WithoutIsDifference(Present(c.manyToOne + c.oneToOne), RootColumns(h.root));
    AddAllIsUnion([], Without(Present(c.manyToOne + c.oneToOne), RootColumns(h.root)));
    RootIs(h.root, x);
    PresentAre(c.manyToOne, x);
    PresentAre(c.oneToOne, x);
  }

  lemma {:induction false} NewAre(root: Class, columns: seq<Column>, x: string)
    ensures x in OwnColumns(root, columns) <==> DeclaresNew(root, columns, x)
  {
    if columns != [] {
      var first, rest := columns[0], columns[1..];
      assert columns == [first] + rest;
      NewAre(root, rest, x);
      assert (exists r :: r in root.columns && r.property == first.property) <==> !NewProperty(root, first.property);
      NewCons(root, first, rest, x);
    }
  }

  lemma NewCons(root: Class, first: Column, rest: seq<Column>, x: string)
    ensures DeclaresNew(root, [first] + rest, x)
            <==> (first.name == x && NewProperty(root, first.property)) || DeclaresNew(root, rest, x)
  {
    var all := [first] + rest;
    if first.name == x && NewProperty(root, first.property) { assert all[0] == first; }
    if i :| 0 <= i < |rest| && rest[i].name == x && NewProperty(root, rest[i].property) { assert all[i + 1] == rest[i]; }
  }

  /** A read of the root selects from a subclass the columns of its new properties,
      the join columns the root's table does not share, and what it generates and
      the root does not, each once. */
  lemma SubclassSelectIs(h: Hierarchy, c: Class, x: string)
    ensures NoRepeats(SubclassColumns(h, c))
    ensures x in SubclassColumns(h, c) <==>
              || DeclaresNew(h.root, c.columns, x)
              || (Joins(c, x) && !Shared(h.root, x))
              || (x in c.computed && x !in h.root.computed)
  {
    SubclassColumnsAre(h, c);
    NewAre(h.root, c.columns, x);
    RootIs(h.root, x);
    PresentAre(c.manyToOne, x);
    PresentAre(c.oneToOne, x);
  }

  /** The holders of a column are the subclasses a read of the root selects it from,
      in the hierarchy's order. */
  lemma {:induction false} HoldersInOrder(lists: seq<seq<string>>, column: string, k: nat)
    requires k <= |lists|
    ensures Rising(Holders(lists, column, k))
    ensures forall i: nat :: i in Holders(lists, column, k) <==> i < k && column in lists[i]
  {
    if k > 0 {
      HoldersInOrder(lists, column, k - 1);
      var front := Holders(lists, column, k - 1);
      forall i | 0 <= i < |front| ensures front[i] < k - 1 { assert front[i] in front; }
    }
  }

  /** The positions are, in order, those of the subclasses a read of the root takes
      the column from: none if the root's table has it. */
  ghost predicate HeldAt(h: Hierarchy, column: string, at: seq<nat>) {
    && Rising(at)
    && forall i: nat :: i in at <==>
         && !Shared(h.root, column) && !Declares(h.root.columns, column, true)
         && i < |h.subclasses| && column in SubclassColumns(h, h.subclasses[i])
  }

  lemma HoldersAreHeld(h: Hierarchy, column: string)
    ensures HeldAt(h, column, if column in RootTableColumns(h.root) then [] else Holders(Selected(h), column, |h.subclasses|))
  {
    RootIs(h.root, column);
    HoldersInOrder(Selected(h), column, |h.subclasses|);
  }
}
