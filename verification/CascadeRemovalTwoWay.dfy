/** A soft delete that calls itself without end, where the hard delete halts. */
module CascadeRemovalTwoWay {
  import opened Metadata
  import opened Digraphs
  import opened CascadeRemoval
  import opened CascadeRemovalProofs

  /** A user owns a profile and the profile cascades back to its user. */
  const TwoWay: Schema := map[
    "User" := Declared([], [], [OneToOne("profile", "Profile", Some("profileId"), None, None, All)], true),
    "Profile" := Declared([], [], [OneToOne("user", "User", None, Some("profile"), None, All)], true)]

  const OneUser: Table := map[
    Id("User", 1) := Row(map["profileId" := 2], false),
    Id("Profile", 2) := Row(map[], false)]

  lemma TwoWayRelations(mode: Mode)
    ensures OwningRelations(TwoWay, mode, "User") == [Owned("Profile", "profileId")]
    ensures RemovableDependents(TwoWay, mode, "User") == []
    ensures OwningRelations(TwoWay, mode, "Profile") == []
    ensures RemovableDependents(TwoWay, mode, "Profile") == [Dependent("User", "profileId")]
  {
    var user := TwoWay["User"].oneToOne;
    var profile := TwoWay["Profile"].oneToOne;
    assert user[1..] == [] && profile[1..] == [];
    assert OwningOneToOne(user, "profile") == Some(user[0]);
    assert CascadingDependents(TwoWay, "Profile") == [Dependent("User", "profileId")];
  }

  lemma TwoWayOwns(mode: Mode)
    ensures Owns(TwoWay, mode, Id("User", 1), OneUser[Id("User", 1)], Id("Profile", 2))
    ensures DependsOn(TwoWay, mode, Id("Profile", 2), Id("User", 1), OneUser[Id("User", 1)])
  {
    TwoWayRelations(mode);
    var o := Owned("Profile", "profileId");
    var d := Dependent("User", "profileId");
    assert CellIn(OneUser[Id("User", 1)], "profileId", {2});
    assert o in OwningRelations(TwoWay, mode, "User");
    assert d in RemovableDependents(TwoWay, mode, "Profile");
  }

  lemma TwoWayCycle()
    ensures Sustained(PendingEdges(TwoWay, OneUser, SoftDelete), {Id("User", 1), Id("Profile", 2)})
  {
    var user, profile := Id("User", 1), Id("Profile", 2);
    TwoWayOwns(SoftDelete);
    assert user in Active(OneUser, SoftDelete) && profile in Active(OneUser, SoftDelete);
    PairIsSustained(PendingEdges(TwoWay, OneUser, SoftDelete), user, profile);
  }

  lemma TwoWayDependent(a: Id, b: Id)
    requires (a, b) in DependentEdges(TwoWay, OneUser, Delete)
    ensures a == Id("Profile", 2) && b == Id("User", 1)
  {
    TwoWayRelations(Delete);
    assert a == Id("User", 1) || a == Id("Profile", 2);
    var d :| d in RemovableDependents(TwoWay, Delete, a.entity) && b.entity == d.related;
  }

  lemma TwoWayDeleteIsFinite()
    ensures Endless(TwoWay, OneUser, Delete) == {}
  {
    var edges := PendingEdges(TwoWay, OneUser, Delete);
    var core := Endless(TwoWay, OneUser, Delete);
    CoreIsSustained(edges, Active(OneUser, Delete));
    forall a | a in core ensures a == Id("Profile", 2) && Id("User", 1) in core {
      assert HasSuccessor(edges, core, a);
      var b :| b in core && (a, b) in edges;
      TwoWayDependent(a, b);
    }
  }

  /** Cascades that point at each other make a soft delete call itself without
      end on two live rows; the hard delete of the same rows halts, because its
      owned targets wait for the parent statement. */
  lemma TwoWaySoftDeleteNeverHalts(log: seq<Statement>, fuel: nat)
    ensures Removal(TwoWay, State(OneUser, log), "User", KeyIn({1}), SoftDelete, fuel).None?
  {
    var st := State(OneUser, log);
    var user := Id("User", 1);
    TwoWayCycle();
    EverythingIsClosed(TwoWay, OneUser, SoftDelete);
    assert Matches(KeyIn({1}), user, OneUser[user]);
    if Removal(TwoWay, st, "User", KeyIn({1}), SoftDelete, fuel).Some? {
      var x := RemovalClosed(TwoWay, st, "User", KeyIn({1}), SoftDelete, fuel, Active(OneUser, SoftDelete),
                             {user, Id("Profile", 2)});
    }
  }

  lemma TwoWayDeleteHalts(log: seq<Statement>)
    ensures exists fuel: nat :: Removal(TwoWay, State(OneUser, log), "User", KeyIn({1}), Delete, fuel).Some?
  {
    TwoWayDeleteIsFinite();
    RemovalHaltsIff(TwoWay, State(OneUser, log), "User", KeyIn({1}), Delete);
  }
}
