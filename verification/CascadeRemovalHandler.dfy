/** The handler as it runs: the three removals as methods that call each other
    through the cascade and rewrite the stored rows statement by statement. */
module CascadeRemovalHandler {
  import opened Metadata
  import opened Digraphs
  import opened CascadeRemoval
  import opened CascadeRemovalProofs
  import opened CascadeRemovalMeaning

  datatype Outcome = Done | NotSoftDeletable(entity: Entity)

  /** What a removal that halts leaves. */
  lemma LeavesTheRest(schema: Schema, st: State, entity: Entity, c: Criteria, mode: Mode, fuel: nat, left: Table)
    requires Removal(schema, st, entity, c, mode, fuel).Some? && left == Removal(schema, st, entity, c, mode, fuel).value.rows
    ensures left == After(st.rows, Reached(schema, st.rows, Matched(st.rows, entity, c, mode), mode), mode)
  {
    RemovalIsClosure(schema, st, entity, c, mode, fuel);
    assert Gone(st.rows, left, mode) == Reached(schema, st.rows, Matched(st.rows, entity, c, mode), mode);
  }

  class CascadeHandler {
    const schema: Schema
    var rows: Table
    var log: seq<Statement>

    constructor (schema: Schema, rows: Table)
      ensures this.schema == schema && this.rows == rows && log == []
    {
      this.schema := schema;
      this.rows := rows;
      log := [];
    }

    ghost function Contents(): State
      reads this
    {
      State(rows, log)
    }

    // ------------------------------------------------------------ metadata

    method FindCascadingDependents(entity: Entity) returns (dependents: seq<Dependent>)
      ensures dependents == CascadingDependents(schema, entity)
      ensures forall d :: d in dependents <==>
                FromChildren(schema, DeclaredBy(schema, entity).oneToMany, d)
                || FromCounterparts(schema, DeclaredBy(schema, entity).oneToOne, d)
    {
      AllAreDeclared(schema, entity);
      var oneToMany := DeclaredBy(schema, entity).oneToMany;
      dependents := [];
      for i := 0 to |oneToMany|
        invariant dependents + ChildrenOf(schema, oneToMany[i..]) == ChildrenOf(schema, oneToMany)
      {
        var rel := oneToMany[i];
        assert oneToMany[i..][1..] == oneToMany[i + 1..];
        if !CascadesDelete(rel.cascade) { continue; }
        var owner := MatchingManyToOne(DeclaredBy(schema, rel.related).manyToOne, rel.mappedBy);
        var fkColumn := rel.mappedBy;
        if owner.Some? && owner.value.joinColumn.Some? { fkColumn := owner.value.joinColumn.value; }
        dependents := dependents + [Dependent(rel.related, fkColumn)];
      }
      var oneToOne := DeclaredBy(schema, entity).oneToOne;
      for i := 0 to |oneToOne|
        invariant dependents + CounterpartsOf(schema, oneToOne[i..]) == CascadingDependents(schema, entity)
      {
        var rel := oneToOne[i];
        assert oneToOne[i..][1..] == oneToOne[i + 1..];
        if rel.joinColumn.Some? || rel.inverseSide.None? || !CascadesDelete(rel.cascade) { continue; }
        var owner := OwningOneToOne(DeclaredBy(schema, rel.related).oneToOne, rel.inverseSide.value);
        if owner.None? { continue; }
        dependents := dependents + [Dependent(rel.related, owner.value.joinColumn.value)];
      }
    }

    // --------------------------------------------------------------- reads

    /** A read: trashed rows are left out unless asked for. */
    method Find(entity: Entity, c: Criteria, withDeleted: bool) returns (ids: set<Id>)
      ensures ids == set id | id in rows && id.entity == entity && Matches(c, id, rows[id])
                              && (withDeleted || !rows[id].trashed)
    {
      ids := set id | id in rows && id.entity == entity && Matches(c, id, rows[id])
                      && (withDeleted || !rows[id].trashed);
    }

    /** The parents a removal acts on: `softDelete` reads live rows, the others
        read trashed rows too, and `restore` keeps only those. */
    method RemovedParents(entity: Entity, c: Criteria, mode: Mode) returns (ids: set<Id>)
      ensures ids == Matched(rows, entity, c, mode)
    {
      var found := Find(entity, c, !mode.SoftDelete?);
      ids := set id | id in found && (mode.Restore? ==> rows[id].trashed);
    }

    method CollectOwnedTargets(entity: Entity, c: Criteria, mode: Mode) returns (owned: seq<Targets>)
      ensures owned == OwnedTargets(rows, Matched(rows, entity, c, mode), OwningRelations(schema, mode, entity))
    {
      var parents := RemovedParents(entity, c, mode);
      var owning := OwningRelations(schema, mode, entity);
      owned := [];
      for i := 0 to |owning|
        invariant owned + OwnedTargets(rows, parents, owning[i..]) == OwnedTargets(rows, parents, owning)
      {
        assert owning[i..][1..] == owning[i + 1..];
        var keys := OwnedKeys(rows, parents, owning[i].joinColumn);
        if keys != {} { owned := owned + [Targets(owning[i].related, keys)]; }
      }
    }

    // ------------------------------------------------------------- cascade

    method Execute(ids: set<Id>, mode: Mode)
      modifies this
      ensures Contents() == RunStatement(old(Contents()), ids, mode)
    {
      rows := After(rows, ids, mode);
      log := log + [Statement(ids, rows)];
    }

    method CascadeRemoveOneToMany(entity: Entity, c: Criteria, mode: Mode, ghost fuel: nat)
      requires RemoveDependents(schema, Contents(), RemovableDependents(schema, mode, entity),
                                KeysOf(Matched(rows, entity, c, mode)), mode, fuel).Some?
      modifies this
      ensures Some(Contents()) == old(RemoveDependents(schema, Contents(), RemovableDependents(schema, mode, entity),
                                                       KeysOf(Matched(rows, entity, c, mode)), mode, fuel))
      decreases fuel, 3
    {
      var all := FindCascadingDependents(entity);
      var dependents := KeepRemovable(schema, mode, all);
      if |dependents| == 0 { return; }
      var parents := RemovedParents(entity, c, mode);
      var keys := KeysOf(parents);
      if keys == {} { return; }
      for i := 0 to |dependents|
        invariant RemoveDependents(schema, Contents(), dependents[i..], keys, mode, fuel)
                  == old(RemoveDependents(schema, Contents(), dependents, keys, mode, fuel))
      {
        assert dependents[i..][1..] == dependents[i + 1..];
        Apply(dependents[i].related, ColumnIn(dependents[i].fkColumn, keys), mode, fuel);
      }
    }

    method RemoveTargets(owned: seq<Targets>, mode: Mode, ghost fuel: nat)
      requires RemoveOwned(schema, Contents(), owned, mode, fuel).Some?
      modifies this
      ensures Some(Contents()) == old(RemoveOwned(schema, Contents(), owned, mode, fuel))
      decreases fuel, 3
    {
      for i := 0 to |owned|
        invariant RemoveOwned(schema, Contents(), owned[i..], mode, fuel)
                  == old(RemoveOwned(schema, Contents(), owned, mode, fuel))
      {
        assert owned[i..][1..] == owned[i + 1..];
        Apply(owned[i].related, KeyIn(owned[i].keys), mode, fuel);
      }
    }

    method Apply(entity: Entity, c: Criteria, mode: Mode, ghost fuel: nat)
      requires Removal(schema, Contents(), entity, c, mode, fuel).Some?
      modifies this
      ensures Some(Contents()) == old(Removal(schema, Contents(), entity, c, mode, fuel))
      decreases fuel, 2
    {
      match mode
      case Delete => DeleteRows(entity, c, fuel);
      case SoftDelete => SoftDeleteRows(entity, c, fuel);
      case Restore => RestoreRows(entity, c, fuel);
    }

    method DeleteRows(entity: Entity, c: Criteria, ghost fuel: nat)
      requires Removal(schema, Contents(), entity, c, Mode.Delete, fuel).Some?
      modifies this
      ensures Some(Contents()) == old(Removal(schema, Contents(), entity, c, Mode.Delete, fuel))
      decreases fuel, 1
    {
      CascadeRemoveOneToMany(entity, c, Mode.Delete, fuel - 1);
      var owned := CollectOwnedTargets(entity, c, Mode.Delete);
      var hit := RemovedParents(entity, c, Mode.Delete);
      Execute(hit, Mode.Delete);
      RemoveTargets(owned, Mode.Delete, fuel - 1);
    }

    method SoftDeleteRows(entity: Entity, c: Criteria, ghost fuel: nat)
      requires Removal(schema, Contents(), entity, c, SoftDelete, fuel).Some?
      modifies this
      ensures Some(Contents()) == old(Removal(schema, Contents(), entity, c, SoftDelete, fuel))
      decreases fuel, 1
    {
      CascadeRemoveOneToMany(entity, c, SoftDelete, fuel - 1);
      var owned := CollectOwnedTargets(entity, c, SoftDelete);
      RemoveTargets(owned, SoftDelete, fuel - 1);
      var hit := RemovedParents(entity, c, SoftDelete);
      Execute(hit, SoftDelete);
    }

    method RestoreRows(entity: Entity, c: Criteria, ghost fuel: nat)
      requires Removal(schema, Contents(), entity, c, Restore, fuel).Some?
      modifies this
      ensures Some(Contents()) == old(Removal(schema, Contents(), entity, c, Restore, fuel))
      decreases fuel, 1
    {
      CascadeRemoveOneToMany(entity, c, Restore, fuel - 1);
      var owned := CollectOwnedTargets(entity, c, Restore);
      RemoveTargets(owned, Restore, fuel - 1);
      var hit := RemovedParents(entity, c, Restore);
      Execute(hit, Restore);
    }

    // ---------------------------------------------------------- public API

    /** The caller's operation. It needs the run to halt, and then takes the rows
        the caller names and whatever the declared cascades lead to, and no other;
        no row left holds the key of one it took as its child or counterpart. */
    method Run(entity: Entity, c: Criteria, mode: Mode) returns (outcome: Outcome)
      requires Removable(schema, mode, entity) ==>
                 Reached(schema, rows, Matched(rows, entity, c, mode), mode) !! Endless(schema, rows, mode)
      modifies this
      ensures outcome == if Reachable(schema, mode, entity) then Done else NotSoftDeletable(entity)
      ensures outcome.Done? ==>
                rows == After(old(rows), Reached(schema, old(rows), Matched(old(rows), entity, c, mode), mode), mode)
      ensures outcome.Done? ==>
                Takes(schema, old(rows), rows, entity, c, mode,
                      Reached(schema, old(rows), Matched(old(rows), entity, c, mode), mode))
      ensures !outcome.Done? ==> Contents() == old(Contents())
    {
      if !Removable(schema, mode, entity) { return NotSoftDeletable(entity); }
      RemovalHaltsIff(schema, Contents(), entity, c, mode);
      ghost var fuel: nat :| Removal(schema, Contents(), entity, c, mode, fuel).Some?;
      Apply(entity, c, mode, fuel);
      LeavesTheRest(schema, old(Contents()), entity, c, mode, fuel, rows);
      RemovalTakes(schema, old(rows), entity, c, mode);
      return Done;
    }
  }
}
