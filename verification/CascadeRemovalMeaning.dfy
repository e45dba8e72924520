/** What the removals follow and take, told from the declared relations and the
    stored rows alone. */
module CascadeRemovalMeaning {
  import opened Metadata
  import opened Declarations
  import opened Digraphs
  import opened CascadeRemoval
  import opened CascadeRemovalProofs

  // ------------------------------------------------------------ declarations

  /** The column of a child that holds its parent's key: the join column of the
      first ManyToOne named `mappedBy`, or else `mappedBy` itself. */
  ghost predicate ChildColumn(schema: Schema, rel: OneToMany, column: string) {
    var back := DeclaredBy(schema, rel.related).manyToOne;
    || (exists i: nat :: FirstNamed(back, rel.mappedBy, i) && back[i].joinColumn == Some(column))
    || (column == rel.mappedBy && forall i: nat :: FirstNamed(back, rel.mappedBy, i) ==> back[i].joinColumn.None?)
  }

  /** The column of a counterpart that holds the key: its own side's join column. */
  ghost predicate CounterpartColumn(schema: Schema, rel: OneToOne, column: string) {
    var back := DeclaredBy(schema, rel.related).oneToOne;
    && rel.joinColumn.None? && rel.inverseSide.Some?
    && exists i: nat :: FirstOwning(back, rel.inverseSide.value, i) && back[i].joinColumn == Some(column)
  }

  // --------------------------------------------------------- what is followed

  ghost predicate FromChildren(schema: Schema, relations: seq<OneToMany>, d: Dependent) {
    exists rel :: rel in relations && ListsDelete(rel.cascade) && rel.related == d.related && ChildColumn(schema, rel, d.fkColumn)
  }

  ghost predicate FromCounterparts(schema: Schema, relations: seq<OneToOne>, d: Dependent) {
    exists rel :: rel in relations && ListsDelete(rel.cascade) && rel.related == d.related
                  && CounterpartColumn(schema, rel, d.fkColumn)
  }

  lemma ChildColumnIs(schema: Schema, rel: OneToMany, column: string)
    ensures var owner := MatchingManyToOne(DeclaredBy(schema, rel.related).manyToOne, rel.mappedBy);
            ChildColumn(schema, rel, column)
            <==> column == if owner.Some? && owner.value.joinColumn.Some? then owner.value.joinColumn.value else rel.mappedBy
  {
    var back := DeclaredBy(schema, rel.related).manyToOne;
    if MatchingManyToOne(back, rel.mappedBy).Some? {
      var i := MatchingIsFirst(back, rel.mappedBy);
      assert FirstNamed(back, rel.mappedBy, i);
    }
    forall i: nat | FirstNamed(back, rel.mappedBy, i) ensures MatchingManyToOne(back, rel.mappedBy) == Some(back[i]) {
      FirstMatching(back, rel.mappedBy, i);
    }
  }

  lemma CounterpartColumnIs(schema: Schema, rel: OneToOne, column: string)
    requires rel.joinColumn.None? && rel.inverseSide.Some?
    ensures var owner := OwningOneToOne(DeclaredBy(schema, rel.related).oneToOne, rel.inverseSide.value);
            CounterpartColumn(schema, rel, column) <==> owner.Some? && owner.value.joinColumn == Some(column)
  {
    var back := DeclaredBy(schema, rel.related).oneToOne;
    if OwningOneToOne(back, rel.inverseSide.value).Some? {
      var i := OwnerIsFirst(back, rel.inverseSide.value);
      assert FirstOwning(back, rel.inverseSide.value, i);
    }
    forall i: nat | FirstOwning(back, rel.inverseSide.value, i)
      ensures OwningOneToOne(back, rel.inverseSide.value) == Some(back[i])
    {
      FirstOwner(back, rel.inverseSide.value, i);
    }
  }

  lemma {:induction false} ChildrenAreDeclared(schema: Schema, relations: seq<OneToMany>, d: Dependent)
    ensures d in ChildrenOf(schema, relations) <==> FromChildren(schema, relations, d)
  {
    if relations != [] {
      assert relations == [relations[0]] + relations[1..];
      ChildColumnIs(schema, relations[0], d.fkColumn);
      ChildrenAreDeclared(schema, relations[1..], d);
    }
  }

  lemma {:induction false} CounterpartsAreDeclared(schema: Schema, relations: seq<OneToOne>, d: Dependent)
    ensures d in CounterpartsOf(schema, relations) <==> FromCounterparts(schema, relations, d)
  {
    if relations != [] {
      var rel := relations[0];
      assert relations == [rel] + relations[1..];
      if rel.joinColumn.None? && rel.inverseSide.Some? { CounterpartColumnIs(schema, rel, d.fkColumn); }
      CounterpartsAreDeclared(schema, relations[1..], d);
    }
  }

  /** The dependents of an entity are the children of the OneToManys and the
      counterparts of the inverse OneToOnes it declares with a delete cascade,
      each with the column that holds the key. */
  lemma DependentsAreDeclared(schema: Schema, entity: Entity, d: Dependent)
    ensures d in CascadingDependents(schema, entity)
            <==> FromChildren(schema, DeclaredBy(schema, entity).oneToMany, d)
                 || FromCounterparts(schema, DeclaredBy(schema, entity).oneToOne, d)
  {
    ChildrenAreDeclared(schema, DeclaredBy(schema, entity).oneToMany, d);
    CounterpartsAreDeclared(schema, DeclaredBy(schema, entity).oneToOne, d);
  }

  lemma AllAreDeclared(schema: Schema, entity: Entity)
    ensures forall d :: d in CascadingDependents(schema, entity) <==>
              FromChildren(schema, DeclaredBy(schema, entity).oneToMany, d)
              || FromCounterparts(schema, DeclaredBy(schema, entity).oneToOne, d)
  {
    forall d ensures d in CascadingDependents(schema, entity) <==>
                       FromChildren(schema, DeclaredBy(schema, entity).oneToMany, d)
                       || FromCounterparts(schema, DeclaredBy(schema, entity).oneToOne, d)
    {
      DependentsAreDeclared(schema, entity, d);
    }
  }

  /** A soft delete or restore follows a relation to soft-deletable rows only. */
  ghost predicate Reachable(schema: Schema, mode: Mode, entity: Entity) {
    !mode.Delete? ==> DeclaredBy(schema, entity).softDeletable
  }

  ghost predicate FromOwning(schema: Schema, mode: Mode, relations: seq<OneToOne>, o: Owned) {
    exists rel :: rel in relations && rel.joinColumn == Some(o.joinColumn) && ListsDelete(rel.cascade)
                  && rel.related == o.related && Reachable(schema, mode, rel.related)
  }

  /** The owned relations are the OneToOnes with a join column of their own and a
      delete cascade. */
  lemma {:induction false} OwnedAreDeclared(schema: Schema, mode: Mode, relations: seq<OneToOne>, o: Owned)
    ensures o in OwnedBy(schema, mode, relations) <==> FromOwning(schema, mode, relations, o)
  {
    if relations != [] {
      assert relations == [relations[0]] + relations[1..];
      OwnedAreDeclared(schema, mode, relations[1..], o);
    }
  }

  // ------------------------------------------------------------------- edges

  /** `b`'s row holds `a`'s key as a child or counterpart of a delete cascade. */
  ghost predicate HeldBy(schema: Schema, a: Id, b: Id, rowB: Row) {
    exists column :: column in rowB.cells && rowB.cells[column] == a.key
      && (FromChildren(schema, DeclaredBy(schema, a.entity).oneToMany, Dependent(b.entity, column))
          || FromCounterparts(schema, DeclaredBy(schema, a.entity).oneToOne, Dependent(b.entity, column)))
  }

  /** `a`'s row holds `b`'s key in a join column of a delete cascade. */
  ghost predicate Holds(schema: Schema, a: Id, rowA: Row, b: Id) {
    exists rel :: rel in DeclaredBy(schema, a.entity).oneToOne && ListsDelete(rel.cascade) && rel.related == b.entity
      && rel.joinColumn.Some? && rel.joinColumn.value in rowA.cells && rowA.cells[rel.joinColumn.value] == b.key
  }

  lemma DependsOnIs(schema: Schema, mode: Mode, a: Id, b: Id, rowB: Row)
    ensures DependsOn(schema, mode, a, b, rowB) <==> Reachable(schema, mode, b.entity) && HeldBy(schema, a, b, rowB)
  {
    AllAreDeclared(schema, a.entity);
    if d :| d in RemovableDependents(schema, mode, a.entity) && b.entity == d.related && CellIn(rowB, d.fkColumn, {a.key}) {
      assert d == Dependent(b.entity, d.fkColumn);
      assert d.fkColumn in rowB.cells && rowB.cells[d.fkColumn] == a.key;
    }
    if Reachable(schema, mode, b.entity) && HeldBy(schema, a, b, rowB) {
      var column :| column in rowB.cells && rowB.cells[column] == a.key
        && (FromChildren(schema, DeclaredBy(schema, a.entity).oneToMany, Dependent(b.entity, column))
            || FromCounterparts(schema, DeclaredBy(schema, a.entity).oneToOne, Dependent(b.entity, column)));
      var d := Dependent(b.entity, column);
      assert d in RemovableDependents(schema, mode, a.entity) && CellIn(rowB, d.fkColumn, {a.key});
    }
  }

  lemma OwnsIs(schema: Schema, mode: Mode, a: Id, rowA: Row, b: Id)
    ensures Owns(schema, mode, a, rowA, b) <==> Reachable(schema, mode, b.entity) && Holds(schema, a, rowA, b)
  {
    var relations := DeclaredBy(schema, a.entity).oneToOne;
    forall o ensures o in OwningRelations(schema, mode, a.entity) <==> FromOwning(schema, mode, relations, o) {
      OwnedAreDeclared(schema, mode, relations, o);
    }
    if o :| o in OwningRelations(schema, mode, a.entity) && b.entity == o.related && CellIn(rowA, o.joinColumn, {b.key}) {
      assert FromOwning(schema, mode, relations, o);
    }
    if Reachable(schema, mode, b.entity) && Holds(schema, a, rowA, b) {
      var rel :| rel in relations && ListsDelete(rel.cascade) && rel.related == b.entity
        && rel.joinColumn.Some? && rel.joinColumn.value in rowA.cells && rowA.cells[rel.joinColumn.value] == b.key;
      var o := Owned(rel.related, rel.joinColumn.value);
      assert FromOwning(schema, mode, relations, o) && CellIn(rowA, o.joinColumn, {b.key});
    }
  }

  /** A row the operation looks at: a live one for a soft delete, a trashed one for
      a restore, any for a hard delete. */
  ghost predicate Open(mode: Mode, row: Row) {
    match mode
    case Delete => true
    case SoftDelete => !row.trashed
    case Restore => row.trashed
  }

  /** The operation goes on from row `a` to row `b`. */
  ghost predicate GoesOn(schema: Schema, rows: Table, mode: Mode, a: Id, b: Id) {
    && a in rows && b in rows && Open(mode, rows[a]) && Open(mode, rows[b]) && Reachable(schema, mode, b.entity)
    && (HeldBy(schema, a, b, rows[b]) || Holds(schema, a, rows[a], b))
  }

  /** A removal goes from a row to those that hold its key and to those whose key
      it holds, along the declared delete cascades and no others. */
  lemma EdgesAreDeclared(schema: Schema, rows: Table, mode: Mode, a: Id, b: Id)
    ensures (a, b) in RemovalEdges(schema, rows, mode) <==> GoesOn(schema, rows, mode, a, b)
  {
    if a in rows && b in rows {
      DependsOnIs(schema, mode, a, b, rows[b]);
      OwnsIs(schema, mode, a, rows[a], b);
    }
  }

  // ------------------------------------------------------------ what is taken

  /** The rows a caller names. */
  ghost predicate Named(entity: Entity, c: Criteria, mode: Mode, id: Id, row: Row) {
    && id.entity == entity && Open(mode, row)
    && match c
       case Where(test) => test(id, row)
       case ColumnIn(column, keys) => column in row.cells && row.cells[column] in keys
       case KeyIn(keys) => id.key in keys
  }

  /** What one operation did to the table: rows of `taken` are gone, or have their
      flag flipped, and every other row is as it was. */
  ghost predicate Took(before: Table, after: Table, taken: set<Id>, mode: Mode) {
    && (forall id :: id in after ==> id in before)
    && (forall id :: id in before ==>
          match mode
          case Delete => (id in after <==> id !in taken) && (id in after ==> after[id] == before[id])
          case SoftDelete => id in after && after[id] == (if id in taken then before[id].(trashed := true) else before[id])
          case Restore => id in after && after[id] == (if id in taken then before[id].(trashed := false) else before[id]))
  }

  /** A set with everything the caller names and everything its rows lead to. */
  ghost predicate Whole(schema: Schema, rows: Table, entity: Entity, c: Criteria, mode: Mode, s: set<Id>) {
    && (forall id :: id in rows && Named(entity, c, mode, id, rows[id]) ==> id in s)
    && (forall a, b :: a in s && GoesOn(schema, rows, mode, a, b) ==> b in s)
  }

  lemma NamedAre(rows: Table, entity: Entity, c: Criteria, mode: Mode, id: Id)
    ensures id in Matched(rows, entity, c, mode) <==> id in rows && Named(entity, c, mode, id, rows[id])
  {}

  lemma TakenAre(rows: Table, taken: set<Id>, mode: Mode)
    ensures Took(rows, After(rows, taken, mode), taken, mode)
  {}

  lemma WholeIsClosed(schema: Schema, rows: Table, entity: Entity, c: Criteria, mode: Mode, s: set<Id>)
    ensures Whole(schema, rows, entity, c, mode, s)
            <==> Matched(rows, entity, c, mode) <= s && ClosedUnder(RemovalEdges(schema, rows, mode), s)
  {
    forall id ensures id in Matched(rows, entity, c, mode) <==> id in rows && Named(entity, c, mode, id, rows[id]) {
      NamedAre(rows, entity, c, mode, id);
    }
    forall a, b ensures (a, b) in RemovalEdges(schema, rows, mode) <==> GoesOn(schema, rows, mode, a, b) {
      EdgesAreDeclared(schema, rows, mode, a, b);
    }
  }

  /** What a removal takes is the least set with the rows the caller names and all
      that the declared cascades lead to. */
  lemma TakenIsLeast(schema: Schema, rows: Table, entity: Entity, c: Criteria, mode: Mode)
    ensures var taken := Reached(schema, rows, Matched(rows, entity, c, mode), mode);
            && Whole(schema, rows, entity, c, mode, taken)
            && forall s: set<Id> :: Whole(schema, rows, entity, c, mode, s) ==> taken <= s
  {
    var m := Matched(rows, entity, c, mode);
    var taken := Reached(schema, rows, m, mode);
    ReachedIsClosed(schema, rows, m, mode);
    WholeIsClosed(schema, rows, entity, c, mode, taken);
    forall s: set<Id> | Whole(schema, rows, entity, c, mode, s) ensures taken <= s {
      WholeIsClosed(schema, rows, entity, c, mode, s);
      forall id | id in taken ensures id in s { ClosedHoldsReached(RemovalEdges(schema, rows, mode), m, s, id); }
    }
  }

  /** No row the operation would still look at holds the key of a taken one as its
      child or counterpart. */
  ghost predicate NoneHeld(schema: Schema, rows: Table, taken: set<Id>, mode: Mode) {
    forall a, b :: a in taken && b in rows && Open(mode, rows[b]) && Reachable(schema, mode, b.entity) ==>
      !HeldBy(schema, a, b, rows[b])
  }

  lemma NothingHeld(schema: Schema, rows: Table, entity: Entity, c: Criteria, mode: Mode)
    ensures var taken := Reached(schema, rows, Matched(rows, entity, c, mode), mode);
            && Took(rows, After(rows, taken, mode), taken, mode)
            && NoneHeld(schema, After(rows, taken, mode), taken, mode)
  {
    var taken := Reached(schema, rows, Matched(rows, entity, c, mode), mode);
    var after := After(rows, taken, mode);
    TakenAre(rows, taken, mode);
    TakenIsLeast(schema, rows, entity, c, mode);
    AfterActive(rows, taken, mode);
    forall a, b | a in taken && b in after && Open(mode, after[b]) && Reachable(schema, mode, b.entity)
      ensures !HeldBy(schema, a, b, after[b])
    {
      if HeldBy(schema, a, b, after[b]) { assert GoesOn(schema, rows, mode, a, b); }
    }
  }

  /** The operation took `taken`: the least set with the rows the caller names and
      all that the declared cascades lead to. */
  ghost predicate Takes(schema: Schema, before: Table, after: Table, entity: Entity, c: Criteria, mode: Mode, taken: set<Id>) {
    && Took(before, after, taken, mode)
    && Whole(schema, before, entity, c, mode, taken)
    && (forall s: set<Id> :: Whole(schema, before, entity, c, mode, s) ==> taken <= s)
    && NoneHeld(schema, after, taken, mode)
  }

  lemma RemovalTakes(schema: Schema, rows: Table, entity: Entity, c: Criteria, mode: Mode)
    ensures var taken := Reached(schema, rows, Matched(rows, entity, c, mode), mode);
            Takes(schema, rows, After(rows, taken, mode), entity, c, mode, taken)
  {
    TakenIsLeast(schema, rows, entity, c, mode);
    NothingHeld(schema, rows, entity, c, mode);
  }
}
