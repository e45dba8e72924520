/** The keys a hard delete can meet all the same: those of rows that own what it
    hits. Owned targets go after their owner, but only when the owner's own
    removal brought them in. */
module CascadeRemovalOwners {
  import opened Metadata
  import opened Digraphs
  import opened CascadeRemoval
  import opened CascadeRemovalProofs
  import opened CascadeRemovalOrder

  /** No row still there holds the key of one of `ids` in a cascading owning
      relation. */
  ghost predicate NoOwners(schema: Schema, rows: Table, ids: set<Id>) {
    forall a, b :: a in rows && b in ids ==> !Owns(schema, Delete, a, rows[a], b)
  }

  ghost predicate OwnersGoFirst(schema: Schema, before: seq<Statement>, after: seq<Statement>) {
    before <= after && forall i :: |before| <= i < |after| ==> NoOwners(schema, after[i].left, after[i].hit)
  }

  /** Every cascading owning relation is, from its target's side, a cascading
      dependent one. */
  ghost predicate OwnersDepend(schema: Schema) {
    forall entity, o :: o in OwningRelations(schema, Delete, entity) ==>
      Dependent(entity, o.joinColumn) in RemovableDependents(schema, Delete, o.related)
  }

  // ------------------------------------------------------ owners that depend

  lemma OwnerDepends(schema: Schema, a: Id, row: Row, b: Id)
    requires OwnersDepend(schema) && Owns(schema, Delete, a, row, b)
    ensures DependsOn(schema, Delete, b, a, row)
  {
    var o :| o in OwningRelations(schema, Delete, a.entity) && b.entity == o.related && CellIn(row, o.joinColumn, {b.key});
    var d := Dependent(a.entity, o.joinColumn);
    assert d in RemovableDependents(schema, Delete, b.entity) && CellIn(row, d.fkColumn, {b.key});
  }

  lemma DependentOwnersGoFirst(schema: Schema, st: State, entity: Entity, c: Criteria, fuel: nat)
    requires OwnersDepend(schema) && Removal(schema, st, entity, c, Delete, fuel).Some?
    ensures OwnersGoFirst(schema, st.log, Removal(schema, st, entity, c, Delete, fuel).value.log)
  {
    var r := DependentsGoFirst(schema, st, entity, c, Delete, fuel);
    forall i | |st.log| <= i < |r.log| ensures NoOwners(schema, r.log[i].left, r.log[i].hit) {
      assert NoDependents(schema, Delete, r.log[i].left, r.log[i].hit);
      forall a, b | a in r.log[i].left && b in r.log[i].hit ensures !Owns(schema, Delete, a, r.log[i].left[a], b) {
        if Owns(schema, Delete, a, r.log[i].left[a], b) { OwnerDepends(schema, a, r.log[i].left[a], b); }
      }
    }
  }

  // ---------------------------------------------------- an owner left behind

  /** Rows with no dependents and nothing owned go by one statement. */
  lemma LoneStatement(schema: Schema, st: State, entity: Entity, c: Criteria, m: set<Id>, fuel: nat)
    requires fuel > 0 && m == Matched(st.rows, entity, c, Delete)
    requires RemovableDependents(schema, Delete, entity) == [] || KeysOf(m) == {}
    requires OwnedTargets(st.rows, m, OwningRelations(schema, Delete, entity)) == []
    ensures Removal(schema, st, entity, c, Delete, fuel) == Some(RunStatement(st, m, Delete))
  {
    assert RemoveDependents(schema, st, RemovableDependents(schema, Delete, entity), KeysOf(m), Delete, fuel - 1) == Some(st);
    assert RemoveOwned(schema, RunStatement(st, m, Delete), [], Delete, fuel - 1) == Some(RunStatement(st, m, Delete));
  }

  lemma NothingMatched(schema: Schema, st: State, entity: Entity, c: Criteria, fuel: nat)
    requires fuel > 0 && Matched(st.rows, entity, c, Delete) == {}
    ensures var r := Removal(schema, st, entity, c, Delete, fuel);
            r.Some? && r.value.rows == st.rows
  {
    NoTargetsOfNothing(st.rows, OwningRelations(schema, Delete, entity));
    AfterNone(st.rows, Delete);
    assert KeysOf({}) == {};
    LoneStatement(schema, st, entity, c, {}, fuel);
  }

  lemma {:induction false} NoDependentsMatched(schema: Schema, st: State, dependents: seq<Dependent>, keys: set<Key>,
                                               fuel: nat)
    requires fuel > 0
    requires forall d :: d in dependents ==> Matched(st.rows, d.related, ColumnIn(d.fkColumn, keys), Delete) == {}
    ensures var r := RemoveDependents(schema, st, dependents, keys, Delete, fuel);
            r.Some? && r.value.rows == st.rows
    decreases |dependents|
  {
    if dependents != [] && keys != {} {
      var d := dependents[0];
      assert d in dependents && forall x :: x in dependents[1..] ==> x in dependents;
      NothingMatched(schema, st, d.related, ColumnIn(d.fkColumn, keys), fuel);
      var st1 := Removal(schema, st, d.related, ColumnIn(d.fkColumn, keys), Delete, fuel).value;
      NoDependentsMatched(schema, st1, dependents[1..], keys, fuel);
    }
  }

  /** A row that owns another, and nothing else. */
  function OwnerAndTarget(entity: Entity, o: Owned): Table {
    map[Id(entity, 1) := Row(map[o.joinColumn := 2], false), Id(o.related, 2) := Row(map[], false)]
  }

  lemma OnlyTargetMatched(entity: Entity, o: Owned)
    ensures Matched(OwnerAndTarget(entity, o), o.related, KeyIn({2}), Delete) == {Id(o.related, 2)}
    ensures KeysOf({Id(o.related, 2)}) == {2}
  {}

  lemma OnlyOwnerDepends(entity: Entity, o: Owned, d: Dependent)
    requires d != Dependent(entity, o.joinColumn)
    ensures Matched(OwnerAndTarget(entity, o), d.related, ColumnIn(d.fkColumn, {2}), Delete) == {}
  {}

  lemma NothingOwned(rows: Table, id: Id, owning: seq<Owned>)
    requires id in rows && rows[id].cells == map[]
    ensures OwnedTargets(rows, {id}, owning) == []
  {
    forall column ensures OwnedKeys(rows, {id}, column) == {} {}
  }

  /** Deleting the target of a relation that is not a dependent one leaves its
      owner's key behind. */
  lemma OwnerStays(schema: Schema, entity: Entity, o: Owned)
    requires o in OwningRelations(schema, Delete, entity)
    requires Dependent(entity, o.joinColumn) !in RemovableDependents(schema, Delete, o.related)
    ensures var r := Removal(schema, State(OwnerAndTarget(entity, o), []), o.related, KeyIn({2}), Delete, 2);
            r.Some? && !OwnersGoFirst(schema, [], r.value.log)
  {
    var rows, target := OwnerAndTarget(entity, o), Id(o.related, 2);
    var st, dependents := State(rows, []), RemovableDependents(schema, Delete, o.related);
    OnlyTargetMatched(entity, o);
    forall d | d in dependents ensures Matched(rows, d.related, ColumnIn(d.fkColumn, {2}), Delete) == {} {
      OnlyOwnerDepends(entity, o, d);
    }
    NoDependentsMatched(schema, st, dependents, {2}, 1);
    var st1 := RemoveDependents(schema, st, dependents, {2}, Delete, 1).value;
    NothingOwned(rows, target, OwningRelations(schema, Delete, o.related));
    var r := RunStatement(st1, {target}, Delete);
    assert Removal(schema, st, o.related, KeyIn({2}), Delete, 2) == Some(r);
    OwnerLeft(schema, entity, o, r.log[|r.log| - 1].left);
    assert !NoOwners(schema, r.log[|r.log| - 1].left, r.log[|r.log| - 1].hit);
  }

  lemma OwnerLeft(schema: Schema, entity: Entity, o: Owned, left: Table)
    requires o in OwningRelations(schema, Delete, entity)
    requires left == After(OwnerAndTarget(entity, o), {Id(o.related, 2)}, Delete)
    ensures Id(entity, 1) in left && Owns(schema, Delete, Id(entity, 1), left[Id(entity, 1)], Id(o.related, 2))
  {
    assert CellIn(left[Id(entity, 1)], o.joinColumn, {2});
  }

  /** No statement of any hard delete meets a key held through a cascading owning
      relation exactly when the target of every such relation cascades back to
      its owner. */
  lemma OwnersGoFirstIff(schema: Schema)
    ensures OwnersDepend(schema)
            <==> forall st, entity, c, fuel: nat :: Removal(schema, st, entity, c, Delete, fuel).Some? ==>
                   OwnersGoFirst(schema, st.log, Removal(schema, st, entity, c, Delete, fuel).value.log)
  {
    if OwnersDepend(schema) {
      forall st, entity, c, fuel: nat | Removal(schema, st, entity, c, Delete, fuel).Some?
        ensures OwnersGoFirst(schema, st.log, Removal(schema, st, entity, c, Delete, fuel).value.log)
      {
        DependentOwnersGoFirst(schema, st, entity, c, fuel);
      }
    } else {
      var entity, o :| o in OwningRelations(schema, Delete, entity)
                       && Dependent(entity, o.joinColumn) !in RemovableDependents(schema, Delete, o.related);
      OwnerStays(schema, entity, o);
      var st := State(OwnerAndTarget(entity, o), []);
      assert Removal(schema, st, o.related, KeyIn({2}), Delete, 2).Some?;
    }
  }

  /** Once a hard delete is over, no row left holds the key of one it removed
      through a cascading owning relation exactly when whoever owned a row it
      reached was reached too. */
  lemma OwnersGoneIff(schema: Schema, st: State, entity: Entity, c: Criteria, fuel: nat)
    requires Removal(schema, st, entity, c, Delete, fuel).Some?
    ensures var rows := Removal(schema, st, entity, c, Delete, fuel).value.rows;
            var reached := Reached(schema, st.rows, Matched(st.rows, entity, c, Delete), Delete);
            NoOwners(schema, rows, Gone(st.rows, rows, Delete))
            <==> forall a, b :: (a, b) in OwnedEdges(schema, st.rows, Delete) && b in reached ==> a in reached
  {
    RemovalIsClosure(schema, st, entity, c, Delete, fuel);
    var rows := Removal(schema, st, entity, c, Delete, fuel).value.rows;
    var reached := Reached(schema, st.rows, Matched(st.rows, entity, c, Delete), Delete);
    forall id ensures id in Gone(st.rows, rows, Delete) <==> id in reached {}
    assert Gone(st.rows, rows, Delete) == reached;
    OwnersLeft(schema, st.rows, reached);
  }

  lemma OwnersLeft(schema: Schema, rows: Table, gone: set<Id>)
    requires gone <= Active(rows, Delete)
    ensures NoOwners(schema, After(rows, gone, Delete), gone)
            <==> forall a, b :: (a, b) in OwnedEdges(schema, rows, Delete) && b in gone ==> a in gone
  {
    var left := After(rows, gone, Delete);
    forall a, b | (a, b) in OwnedEdges(schema, rows, Delete) && b in gone && a !in gone
      ensures a in left && Owns(schema, Delete, a, left[a], b)
    {}
    forall a, b | a in left && b in gone && Owns(schema, Delete, a, left[a], b)
      ensures (a, b) in OwnedEdges(schema, rows, Delete) && a !in gone
    {}
  }

  // ------------------------------------------------------------- an example

  /** A company's profiles go before the users that own them. */
  const Company: Schema := map[
    "Company" := Declared([OneToMany("profiles", "Profile", "companyId", All),
                           OneToMany("users", "User", "companyId", All)], [], [], false),
    "Profile" := Declared([], [], [], false),
    "User" := Declared([], [], [OneToOne("profile", "Profile", Some("profileId"), None, None, All)], false)]

  const OneCompany: Table := map[
    Id("Company", 1) := Row(map[], false),
    Id("Profile", 2) := Row(map["companyId" := 1], false),
    Id("User", 3) := Row(map["companyId" := 1, "profileId" := 2], false)]

  lemma CompanyRelations()
    ensures RemovableDependents(Company, Delete, "Company") == [Dependent("Profile", "companyId"), Dependent("User", "companyId")]
    ensures RemovableDependents(Company, Delete, "Profile") == [] && OwningRelations(Company, Delete, "Profile") == []
    ensures RemovableDependents(Company, Delete, "User") == []
    ensures OwningRelations(Company, Delete, "User") == [Owned("Profile", "profileId")]
  {
    var many, one := Company["Company"].oneToMany, Company["User"].oneToOne;
    assert many[1..][1..] == [] && one[1..] == [];
    assert CascadingDependents(Company, "Company") == [Dependent("Profile", "companyId"), Dependent("User", "companyId")];
  }

  /** The call made for the first relation of the company. */
  lemma ProfilesGoFirst(fuel: nat)
    requires fuel > 0
    ensures Removal(Company, State(OneCompany, []), "Profile", ColumnIn("companyId", {1}), Delete, fuel)
            == Some(RunStatement(State(OneCompany, []), {Id("Profile", 2)}, Delete))
  {
    CompanyRelations();
    assert Matched(OneCompany, "Profile", ColumnIn("companyId", {1}), Delete) == {Id("Profile", 2)};
    LoneStatement(Company, State(OneCompany, []), "Profile", ColumnIn("companyId", {1}), {Id("Profile", 2)}, fuel);
  }

  lemma CompanyBegins(fuel: nat) returns (st1: State)
    requires Removal(Company, State(OneCompany, []), "Company", KeyIn({1}), Delete, fuel).Some?
    ensures st1 == RunStatement(State(OneCompany, []), {Id("Profile", 2)}, Delete)
    ensures BeginsWith(Company, State(OneCompany, []), st1, "Company", KeyIn({1}), fuel)
  {
    CompanyMatches();
    CompanyRelations();
    if fuel > 1 { ProfilesGoFirst(fuel - 1); }
    st1 := RunStatement(State(OneCompany, []), {Id("Profile", 2)}, Delete);
  }

  lemma CompanyMatches()
    ensures KeysOf(Matched(OneCompany, "Company", KeyIn({1}), Delete)) == {1}
  {
    assert Matched(OneCompany, "Company", KeyIn({1}), Delete) == {Id("Company", 1)};
    assert KeysOf({Id("Company", 1)}) == {1};
  }

  /** The call for the first dependent relation ends in `st1`. */
  ghost predicate BeginsWith(schema: Schema, st: State, st1: State, entity: Entity, c: Criteria, fuel: nat) {
    var keys, dependents := KeysOf(Matched(st.rows, entity, c, Delete)), RemovableDependents(schema, Delete, entity);
    && fuel > 0 && keys != {} && dependents != []
    && Removal(schema, st, dependents[0].related, ColumnIn(dependents[0].fkColumn, keys), Delete, fuel - 1) == Some(st1)
  }

  lemma FirstStatementStays(schema: Schema, st: State, st1: State, entity: Entity, c: Criteria, fuel: nat)
    requires BeginsWith(schema, st, st1, entity, c, fuel) && Removal(schema, st, entity, c, Delete, fuel).Some?
    ensures st1.log <= Removal(schema, st, entity, c, Delete, fuel).value.log
  {
    var keys, dependents := KeysOf(Matched(st.rows, entity, c, Delete)), RemovableDependents(schema, Delete, entity);
    var st2 := DependentStatements(schema, st1, dependents[1..], keys, Delete, fuel - 1);
    NoDependentAtParents(schema, st, entity, c, Delete, fuel, st2);
    var r := ParentStatements(schema, st2, entity, c, Delete, fuel);
  }

  /** Its first statement hits a profile that a user, removed by a later one,
      still refers to. */
  lemma ProfileIsStillOwned(fuel: nat)
    requires Removal(Company, State(OneCompany, []), "Company", KeyIn({1}), Delete, fuel).Some?
    ensures var log := Removal(Company, State(OneCompany, []), "Company", KeyIn({1}), Delete, fuel).value.log;
            && log != [] && log[0].hit == {Id("Profile", 2)} && Id("User", 3) in log[0].left
            && Owns(Company, Delete, Id("User", 3), log[0].left[Id("User", 3)], Id("Profile", 2))
  {
    var st := State(OneCompany, []);
    var st1 := CompanyBegins(fuel);
    FirstStatementStays(Company, st, st1, "Company", KeyIn({1}), fuel);
    CompanyRelations();
    var left := st1.log[0].left;
    assert CellIn(left[Id("User", 3)], "profileId", {2}) && Owned("Profile", "profileId") in OwningRelations(Company, Delete, "User");
  }

  lemma CompanyHasDependents(a: Id, d: Dependent)
    requires a in OneCompany && d in RemovableDependents(Company, Delete, a.entity)
    ensures a == Id("Company", 1) && d.related != "Company"
  {
    CompanyRelations();
    assert a == Id("Company", 1) || a == Id("Profile", 2) || a == Id("User", 3);
  }

  lemma CompanyDependent(a: Id, b: Id)
    requires (a, b) in DependentEdges(Company, OneCompany, Delete)
    ensures a == Id("Company", 1) && b != a
  {
    var d :| d in RemovableDependents(Company, Delete, a.entity) && b.entity == d.related;
    CompanyHasDependents(a, d);
  }

  lemma CompanyIsFinite()
    ensures Endless(Company, OneCompany, Delete) == {}
  {
    var edges, core := PendingEdges(Company, OneCompany, Delete), Endless(Company, OneCompany, Delete);
    CoreIsSustained(edges, Active(OneCompany, Delete));
    forall a | a in core ensures a == Id("Company", 1) && exists b :: b in core && b != a {
      assert HasSuccessor(edges, core, a);
      var b :| b in core && (a, b) in edges;
      CompanyDependent(a, b);
    }
  }

  lemma CompanyDeleteHalts()
    ensures exists fuel: nat :: Removal(Company, State(OneCompany, []), "Company", KeyIn({1}), Delete, fuel).Some?
  {
    CompanyIsFinite();
    RemovalHaltsIff(Company, State(OneCompany, []), "Company", KeyIn({1}), Delete);
  }
}
