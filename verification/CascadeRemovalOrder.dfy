/** The order of a removal's statements: none leaves a row pointing, through a
    cascading dependent relation, at a row it hit. */
module CascadeRemovalOrder {
  import opened Metadata
  import opened Digraphs
  import opened CascadeRemoval
  import opened CascadeRemovalProofs

  /** No row the operation acts on holds the key of one of `ids` in a cascading
      dependent relation. */
  ghost predicate NoDependents(schema: Schema, mode: Mode, rows: Table, ids: set<Id>) {
    forall a, b :: a in ids && b in Active(rows, mode) ==> !DependsOn(schema, mode, a, b, rows[b])
  }

  ghost predicate OrderedStatements(schema: Schema, mode: Mode, before: seq<Statement>, after: seq<Statement>) {
    before <= after && forall i :: |before| <= i < |after| ==>
      NoDependents(schema, mode, after[i].left, after[i].hit)
  }

  /** Every statement of a removal runs after those on the rows that depend on
      what it hits: a hard delete never meets a foreign key held through a
      cascading dependent relation. */
  lemma {:induction false} DependentsGoFirst(schema: Schema, st: State, entity: Entity, c: Criteria, mode: Mode, fuel: nat)
    returns (r: State)
    requires Removal(schema, st, entity, c, mode, fuel).Some?
    ensures Removal(schema, st, entity, c, mode, fuel) == Some(r)
    ensures OrderedStatements(schema, mode, st.log, r.log)
    decreases fuel, 1
  {
    var keys := KeysOf(Matched(st.rows, entity, c, mode));
    var st1 := DependentStatements(schema, st, RemovableDependents(schema, mode, entity), keys, mode, fuel - 1);
    NoDependentAtParents(schema, st, entity, c, mode, fuel, st1);
    r := ParentStatements(schema, st1, entity, c, mode, fuel);
    StatementsChain(schema, mode, st.log, st1.log, r.log);
  }

  lemma StatementsChain(schema: Schema, mode: Mode, a: seq<Statement>, b: seq<Statement>, c: seq<Statement>)
    requires OrderedStatements(schema, mode, a, b) && OrderedStatements(schema, mode, b, c)
    ensures OrderedStatements(schema, mode, a, c)
  {
    forall i | |a| <= i < |c| ensures NoDependents(schema, mode, c[i].left, c[i].hit) {
      if i < |b| { assert c[i] == b[i]; }
    }
  }

  lemma NoDependentAtParents(schema: Schema, st: State, entity: Entity, c: Criteria, mode: Mode, fuel: nat, st1: State)
    requires fuel > 0
    requires RemoveDependents(schema, st, RemovableDependents(schema, mode, entity),
                              KeysOf(Matched(st.rows, entity, c, mode)), mode, fuel - 1) == Some(st1)
    ensures NoDependents(schema, mode, st1.rows, Matched(st1.rows, entity, c, mode))
  {
    EverythingIsClosed(schema, st.rows, mode);
    var m, dependents := Matched(st.rows, entity, c, mode), RemovableDependents(schema, mode, entity);
    DependentsInside(schema, st.rows, entity, m, mode, Active(st.rows, mode));
    var x := DependentsClosed(schema, st, dependents, KeysOf(m), mode, fuel - 1, Active(st.rows, mode), {});
    NoDependentAfter(schema, st.rows, entity, c, mode, x);
  }

  lemma NoDependentAfter(schema: Schema, rows: Table, entity: Entity, c: Criteria, mode: Mode, x: set<Id>)
    requires x <= Active(rows, mode)
    requires DependentsCovered(rows, RemovableDependents(schema, mode, entity), KeysOf(Matched(rows, entity, c, mode)), mode, x)
    ensures NoDependents(schema, mode, After(rows, x, mode), Matched(After(rows, x, mode), entity, c, mode))
  {
    NoDependentLeft(schema, rows, entity, Matched(rows, entity, c, mode), mode, x);
    MatchedAfter(rows, x, entity, c, mode);
  }

  lemma NoDependentLeft(schema: Schema, rows: Table, entity: Entity, m: set<Id>, mode: Mode, x: set<Id>)
    requires m <= Active(rows, mode) && (forall id :: id in m ==> id.entity == entity) && x <= Active(rows, mode)
    requires DependentsCovered(rows, RemovableDependents(schema, mode, entity), KeysOf(m), mode, x)
    ensures NoDependents(schema, mode, After(rows, x, mode), m)
  {
    AfterActive(rows, x, mode);
    forall a, b | a in m && b in Active(rows, mode) && DependsOn(schema, mode, a, b, rows[b]) ensures b in x {
      assert (a, b) in DependentEdges(schema, rows, mode);
      DependentTaken(schema, rows, entity, m, mode, x, a, b);
    }
  }

  lemma {:induction false} ParentStatements(schema: Schema, st: State, entity: Entity, c: Criteria, mode: Mode, fuel: nat)
    returns (r: State)
    requires fuel > 0 && RemoveParents(schema, st, entity, c, mode, fuel).Some?
    requires NoDependents(schema, mode, st.rows, Matched(st.rows, entity, c, mode))
    ensures RemoveParents(schema, st, entity, c, mode, fuel) == Some(r)
    ensures OrderedStatements(schema, mode, st.log, r.log)
    decreases fuel, 0
  {
    var hit := Matched(st.rows, entity, c, mode);
    var owned := OwnedTargets(st.rows, hit, OwningRelations(schema, mode, entity));
    if mode.Delete? {
      OneStatement(schema, st, hit, mode);
      r := TargetStatements(schema, RunStatement(st, hit, mode), owned, mode, fuel - 1);
      StatementsChain(schema, mode, st.log, RunStatement(st, hit, mode).log, r.log);
    } else {
      var st1 := TargetStatements(schema, st, owned, mode, fuel - 1);
      EverythingIsClosed(schema, st.rows, mode);
      TargetsInside(schema, st.rows, entity, hit, mode, Active(st.rows, mode));
      var y := OwnedClosed(schema, st, owned, mode, fuel - 1, Active(st.rows, mode), {});
      FewerDependents(schema, st.rows, hit, y, mode);
      MatchedAfter(st.rows, y, entity, c, mode);
      AfterActive(st.rows, y, mode);
      r := RunStatement(st1, Matched(st1.rows, entity, c, mode), mode);
      OneStatement(schema, st1, Matched(st1.rows, entity, c, mode), mode);
      StatementsChain(schema, mode, st.log, st1.log, r.log);
    }
  }

  lemma FewerDependents(schema: Schema, rows: Table, hit: set<Id>, x: set<Id>, mode: Mode)
    requires x <= Active(rows, mode) && NoDependents(schema, mode, rows, hit)
    ensures NoDependents(schema, mode, After(rows, x, mode), hit)
  {
    AfterActive(rows, x, mode);
  }

  lemma OneStatement(schema: Schema, st: State, hit: set<Id>, mode: Mode)
    requires hit <= Active(st.rows, mode) && NoDependents(schema, mode, st.rows, hit)
    ensures OrderedStatements(schema, mode, st.log, RunStatement(st, hit, mode).log)
  {
    FewerDependents(schema, st.rows, hit, hit, mode);
  }

  lemma {:induction false} DependentStatements(schema: Schema, st: State, dependents: seq<Dependent>, keys: set<Key>,
                                               mode: Mode, fuel: nat)
    returns (r: State)
    requires RemoveDependents(schema, st, dependents, keys, mode, fuel).Some?
    ensures RemoveDependents(schema, st, dependents, keys, mode, fuel) == Some(r)
    ensures OrderedStatements(schema, mode, st.log, r.log)
    decreases fuel, 2 + |dependents|
  {
    if dependents == [] || keys == {} {
      r := st;
    } else {
      var st1 := DependentsGoFirst(schema, st, dependents[0].related, ColumnIn(dependents[0].fkColumn, keys), mode, fuel);
      r := DependentStatements(schema, st1, dependents[1..], keys, mode, fuel);
      StatementsChain(schema, mode, st.log, st1.log, r.log);
    }
  }

  lemma {:induction false} TargetStatements(schema: Schema, st: State, owned: seq<Targets>, mode: Mode, fuel: nat)
    returns (r: State)
    requires RemoveOwned(schema, st, owned, mode, fuel).Some?
    ensures RemoveOwned(schema, st, owned, mode, fuel) == Some(r)
    ensures OrderedStatements(schema, mode, st.log, r.log)
    decreases fuel, 2 + |owned|
  {
    if owned == [] {
      r := st;
    } else {
      var st1 := DependentsGoFirst(schema, st, owned[0].related, KeyIn(owned[0].keys), mode, fuel);
      r := TargetStatements(schema, st1, owned[1..], mode, fuel);
      StatementsChain(schema, mode, st.log, st1.log, r.log);
    }
  }
}
