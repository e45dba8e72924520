/** `restore` undoes `softDelete` exactly when nothing the soft delete reached was
    entangled with a row trashed before. */
module CascadeRemovalRestore {
  import opened Metadata
  import opened Digraphs
  import opened CascadeRemoval
  import opened CascadeRemovalProofs

  /** The criteria do not read the soft-delete column. */
  ghost predicate FlagBlind(c: Criteria) {
    c.Where? ==> forall id, row: Row, t :: c.test(id, row.(trashed := t)) == c.test(id, row)
  }

  /** A soft-delete cascade would lead from `a` to `b`, were `b` live. */
  predicate Follows(schema: Schema, rows: Table, a: Id, b: Id)
    requires a in rows && b in rows
  {
    DependsOn(schema, SoftDelete, a, b, rows[b]) || Owns(schema, SoftDelete, a, rows[a], b)
  }

  /** No trashed row matches, and none hangs off a row the soft delete reaches. */
  ghost predicate Untangled(schema: Schema, rows: Table, entity: Entity, c: Criteria) {
    && Matched(rows, entity, c, Restore) == {}
    && forall a, b | a in Reached(schema, rows, Matched(rows, entity, c, SoftDelete), SoftDelete)
                     && b in Active(rows, Restore) :: !Follows(schema, rows, a, b)
  }

  lemma {:induction false} SameOwned(schema: Schema, relations: seq<OneToOne>)
    ensures OwnedBy(schema, Restore, relations) == OwnedBy(schema, SoftDelete, relations)
  {
    if relations != [] { SameOwned(schema, relations[1..]); }
  }

  /** Among trashed rows, `restore` follows what the soft delete would. */
  lemma RestoreEdges(schema: Schema, rows: Table, a: Id, b: Id)
    ensures (a, b) in RemovalEdges(schema, rows, Restore) <==>
            a in Active(rows, Restore) && b in Active(rows, Restore) && Follows(schema, rows, a, b)
  {
    SameOwned(schema, DeclaredBy(schema, a.entity).oneToOne);
  }

  lemma SoftDeleteEdges(schema: Schema, rows: Table, a: Id, b: Id)
    ensures (a, b) in RemovalEdges(schema, rows, SoftDelete) <==>
            a in Active(rows, SoftDelete) && b in Active(rows, SoftDelete) && Follows(schema, rows, a, b)
  {}

  /** Trashing moves no foreign key. */
  lemma FollowsAfter(schema: Schema, rows: Table, x: set<Id>, a: Id, b: Id)
    requires a in rows && b in rows
    ensures Follows(schema, After(rows, x, SoftDelete), a, b) == Follows(schema, rows, a, b)
  {}

  lemma RestoreMatches(rows: Table, x: set<Id>, entity: Entity, c: Criteria)
    requires FlagBlind(c) && Matched(rows, entity, c, SoftDelete) <= x <= Active(rows, SoftDelete)
    ensures Matched(After(rows, x, SoftDelete), entity, c, Restore)
            == Matched(rows, entity, c, SoftDelete) + Matched(rows, entity, c, Restore)
  {
    var rows1 := After(rows, x, SoftDelete);
    forall id | id in rows ensures Matches(c, id, rows1[id]) == Matches(c, id, rows[id]) {
      if c.Where? { assert c.test(id, rows[id].(trashed := true)) == c.test(id, rows[id]); }
    }
  }

  lemma TrashedAfter(rows: Table, x: set<Id>)
    requires x <= Active(rows, SoftDelete)
    ensures Active(After(rows, x, SoftDelete), Restore) == Active(rows, Restore) + x
  {}

  /** Trashing `x` and reviving `y` is the identity exactly when they agree. */
  lemma BackAsBefore(rows: Table, x: set<Id>, y: set<Id>)
    requires x <= Active(rows, SoftDelete) && y <= Active(After(rows, x, SoftDelete), Restore)
    ensures After(After(rows, x, SoftDelete), y, Restore) == rows <==> x == y
  {
    var rows2 := After(After(rows, x, SoftDelete), y, Restore);
    if x == y { assert forall id :: id in rows ==> rows2[id] == rows[id]; }
    if rows2 == rows {
      forall id | id in x ensures id in y { assert !rows2[id].trashed; }
      forall id | id in y ensures id in x { assert !rows2[id].trashed; }
    }
  }

  /** What the soft delete trashed is closed for `restore` too, when untangled. */
  lemma TrashedIsClosed(schema: Schema, rows: Table, entity: Entity, c: Criteria, x: set<Id>)
    requires Untangled(schema, rows, entity, c) && x <= Active(rows, SoftDelete)
    requires IsClosure(RemovalEdges(schema, rows, SoftDelete), Matched(rows, entity, c, SoftDelete), x)
    ensures ClosedUnder(RemovalEdges(schema, After(rows, x, SoftDelete), Restore), x)
  {
    var rows1 := After(rows, x, SoftDelete);
    TrashedAfter(rows, x);
    forall a, b | (a, b) in RemovalEdges(schema, rows1, Restore) && a in x ensures b in x {
      RestoreEdges(schema, rows1, a, b);
      FollowsAfter(schema, rows, x, a, b);
      assert a in Reached(schema, rows, Matched(rows, entity, c, SoftDelete), SoftDelete);
    }
  }

  lemma SoftDeletedIsClosure(schema: Schema, st: State, entity: Entity, c: Criteria, fuel: nat) returns (x: set<Id>)
    requires Removal(schema, st, entity, c, SoftDelete, fuel).Some?
    ensures x <= Active(st.rows, SoftDelete) && Matched(st.rows, entity, c, SoftDelete) <= x
    ensures Removal(schema, st, entity, c, SoftDelete, fuel).value.rows == After(st.rows, x, SoftDelete)
    ensures IsClosure(RemovalEdges(schema, st.rows, SoftDelete), Matched(st.rows, entity, c, SoftDelete), x)
    ensures ClosedUnder(RemovalEdges(schema, st.rows, SoftDelete), x)
    ensures x == Reached(schema, st.rows, Matched(st.rows, entity, c, SoftDelete), SoftDelete)
  {
    var m := Matched(st.rows, entity, c, SoftDelete);
    ReachedIsClosed(schema, st.rows, m, SoftDelete);
    x := RemovalClosed(schema, st, entity, c, SoftDelete, fuel, Reached(schema, st.rows, m, SoftDelete), {});
    LeastClosedIsClosure(RemovalEdges(schema, st.rows, SoftDelete), m, x);
  }

  /** When untangled, `restore` reaches exactly what the soft delete reached. */
  lemma RestoreReachesTheSame(schema: Schema, rows: Table, entity: Entity, c: Criteria, x: set<Id>, y: set<Id>)
    requires FlagBlind(c) && Untangled(schema, rows, entity, c) && x <= Active(rows, SoftDelete)
    requires Matched(rows, entity, c, SoftDelete) <= x && ClosedUnder(RemovalEdges(schema, rows, SoftDelete), x)
    requires IsClosure(RemovalEdges(schema, rows, SoftDelete), Matched(rows, entity, c, SoftDelete), x)
    requires var rows1 := After(rows, x, SoftDelete);
             && IsClosure(RemovalEdges(schema, rows1, Restore), Matched(rows1, entity, c, Restore), y)
             && ClosedUnder(RemovalEdges(schema, rows1, Restore), y)
    ensures x == y
  {
    var rows1 := After(rows, x, SoftDelete);
    var m := Matched(rows, entity, c, SoftDelete);
    TrashedAfter(rows, x);
    RestoreMatches(rows, x, entity, c);
    TrashedIsClosed(schema, rows, entity, c, x);
    forall id | id in y ensures id in x {
      ClosedHoldsReached(RemovalEdges(schema, rows1, Restore), m, x, id);
    }
    forall a, b | (a, b) in RemovalEdges(schema, rows, SoftDelete) && a in x * y ensures b in x * y {
      SoftDeleteEdges(schema, rows, a, b);
      FollowsAfter(schema, rows, x, a, b);
      RestoreEdges(schema, rows1, a, b);
    }
    forall id | id in m ensures id in x * y { StartReached(RemovalEdges(schema, rows1, Restore), m, id); }
    forall id | id in x ensures id in y {
      ClosedHoldsReached(RemovalEdges(schema, rows, SoftDelete), m, x * y, id);
    }
  }

  lemma RestoredIsClosure(schema: Schema, st: State, entity: Entity, c: Criteria, fuel: nat) returns (y: set<Id>)
    requires Removal(schema, st, entity, c, Restore, fuel).Some?
    ensures y <= Active(st.rows, Restore) && Matched(st.rows, entity, c, Restore) <= y
    ensures Removal(schema, st, entity, c, Restore, fuel).value.rows == After(st.rows, y, Restore)
    ensures IsClosure(RemovalEdges(schema, st.rows, Restore), Matched(st.rows, entity, c, Restore), y)
    ensures ClosedUnder(RemovalEdges(schema, st.rows, Restore), y)
  {
    var m := Matched(st.rows, entity, c, Restore);
    ReachedIsClosed(schema, st.rows, m, Restore);
    y := RemovalClosed(schema, st, entity, c, Restore, fuel, Reached(schema, st.rows, m, Restore), {});
    LeastClosedIsClosure(RemovalEdges(schema, st.rows, Restore), m, y);
  }

  /** A soft-deleted set that is closed for `restore` meets no trashed row. */
  lemma NothingFollows(schema: Schema, rows: Table, x: set<Id>, a: Id, b: Id)
    requires x <= Active(rows, SoftDelete) && ClosedUnder(RemovalEdges(schema, After(rows, x, SoftDelete), Restore), x)
    requires a in x && b in Active(rows, Restore)
    ensures !Follows(schema, rows, a, b)
  {
    TrashedAfter(rows, x);
    FollowsAfter(schema, rows, x, a, b);
    RestoreEdges(schema, After(rows, x, SoftDelete), a, b);
  }

  lemma SameIsUntangled(schema: Schema, rows: Table, entity: Entity, c: Criteria, x: set<Id>)
    requires FlagBlind(c) && Matched(rows, entity, c, SoftDelete) <= x <= Active(rows, SoftDelete)
    requires x == Reached(schema, rows, Matched(rows, entity, c, SoftDelete), SoftDelete)
    requires Matched(After(rows, x, SoftDelete), entity, c, Restore) <= x
    requires ClosedUnder(RemovalEdges(schema, After(rows, x, SoftDelete), Restore), x)
    ensures Untangled(schema, rows, entity, c)
  {
    RestoreMatches(rows, x, entity, c);
    forall id ensures id !in Matched(rows, entity, c, Restore) {
      assert id in Matched(rows, entity, c, Restore) ==> id in x && id in Active(rows, Restore);
    }
    forall a, b | a in x && b in Active(rows, Restore) ensures !Follows(schema, rows, a, b) {
      NothingFollows(schema, rows, x, a, b);
    }
  }

  /** `restore` undoes `softDelete` if and only if no trashed row matched, and
      none hung off a row the soft delete reached. */
  lemma RestoreUndoesSoftDeleteIff(schema: Schema, st: State, entity: Entity, c: Criteria, f1: nat, f2: nat)
    requires FlagBlind(c) && Removal(schema, st, entity, c, SoftDelete, f1).Some?
    requires Removal(schema, Removal(schema, st, entity, c, SoftDelete, f1).value, entity, c, Restore, f2).Some?
    ensures Removal(schema, Removal(schema, st, entity, c, SoftDelete, f1).value, entity, c, Restore, f2).value.rows
            == st.rows
            <==> Untangled(schema, st.rows, entity, c)
  {
    var st1 := Removal(schema, st, entity, c, SoftDelete, f1).value;
    var x := SoftDeletedIsClosure(schema, st, entity, c, f1);
    var y := RestoredIsClosure(schema, st1, entity, c, f2);
    BackAsBefore(st.rows, x, y);
    if Untangled(schema, st.rows, entity, c) { RestoreReachesTheSame(schema, st.rows, entity, c, x, y); }
    if x == y { SameIsUntangled(schema, st.rows, entity, c, x); }
  }

  /** In that case the restore also halts whenever the soft delete did. */
  lemma RestoreHaltsAfterSoftDelete(schema: Schema, st: State, entity: Entity, c: Criteria, f1: nat)
    requires FlagBlind(c) && Removal(schema, st, entity, c, SoftDelete, f1).Some?
    requires Untangled(schema, st.rows, entity, c)
    ensures exists f2: nat ::
              Removal(schema, Removal(schema, st, entity, c, SoftDelete, f1).value, entity, c, Restore, f2).Some?
  {
    var rows := st.rows;
    var st1 := Removal(schema, st, entity, c, SoftDelete, f1).value;
    var x := SoftDeletedIsClosure(schema, st, entity, c, f1);
    var m' := Matched(st1.rows, entity, c, Restore);
    RestoreMatches(rows, x, entity, c);
    TrashedIsClosed(schema, rows, entity, c, x);
    var cycle := Endless(schema, st1.rows, Restore) * x;
    CycleWasThere(schema, rows, x, cycle);
    var x' := RemovalClosed(schema, st, entity, c, SoftDelete, f1, Active(rows, SoftDelete), cycle);
    AfterActive(rows, x, SoftDelete);
    AfterActive(rows, x', SoftDelete);
    assert x == x';
    forall id | id in Reached(schema, st1.rows, m', Restore) ensures id !in Endless(schema, st1.rows, Restore) {
      ClosedHoldsReached(RemovalEdges(schema, st1.rows, Restore), m', x, id);
      assert id in x && id !in cycle;
    }
    RemovalHaltsIff(schema, st1, entity, c, Restore);
  }

  /** A cycle the restore could follow inside `x` is one the soft delete met. */
  lemma CycleWasThere(schema: Schema, rows: Table, x: set<Id>, cycle: set<Id>)
    requires x <= Active(rows, SoftDelete)
    requires ClosedUnder(RemovalEdges(schema, After(rows, x, SoftDelete), Restore), x)
    requires cycle == Endless(schema, After(rows, x, SoftDelete), Restore) * x
    ensures Sustained(PendingEdges(schema, rows, SoftDelete), cycle)
  {
    var rows1 := After(rows, x, SoftDelete);
    var core := Endless(schema, rows1, Restore);
    CoreIsSustained(PendingEdges(schema, rows1, Restore), Active(rows1, Restore));
    forall a | a in cycle ensures HasSuccessor(PendingEdges(schema, rows, SoftDelete), cycle, a) {
      assert HasSuccessor(PendingEdges(schema, rows1, Restore), core, a);
      var b :| b in core && (a, b) in RemovalEdges(schema, rows1, Restore);
      RestoreEdges(schema, rows1, a, b);
      FollowsAfter(schema, rows, x, a, b);
      SoftDeleteEdges(schema, rows, a, b);
      assert b in cycle;
    }
  }
}
