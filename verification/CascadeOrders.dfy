/** The order the cascades work in: that of the declarations. */
module CascadeOrders {
  import opened Metadata
  import opened Declarations
  import opened Positions
  import Removal = CascadeRemoval
  import RemovalMeaning = CascadeRemovalMeaning
  import Save = CascadeSave
  import SaveMeaning = CascadeSaveMeaning

  // ----------------------------------------------------------------- removal

  ghost function DeletesMany(): OneToMany -> bool { (rel: OneToMany) => ListsDelete(rel.cascade) }

  ghost function AsChild(schema: Schema): (OneToMany, Removal.Dependent) -> bool {
    (rel: OneToMany, d: Removal.Dependent) => d.related == rel.related && RemovalMeaning.ChildColumn(schema, rel, d.fkColumn)
  }

  /** Dependents come one per OneToMany with a delete cascade, in the order
      declared ... */
  lemma {:induction false} ChildrenInOrder(schema: Schema, relations: seq<OneToMany>) returns (at: seq<nat>)
    ensures Drawn(relations, DeletesMany(), AsChild(schema), at, Removal.ChildrenOf(schema, relations))
  {
    if relations == [] {
      at := [];
    } else {
      var at1 := ChildrenInOrder(schema, relations[1..]);
      var rest, all := Removal.ChildrenOf(schema, relations[1..]), Removal.ChildrenOf(schema, relations);
      if ListsDelete(relations[0].cascade) {
        assert all == [all[0]] + rest;
        RemovalMeaning.ChildColumnIs(schema, relations[0], all[0].fkColumn);
      }
      at := DrawnNext(relations, DeletesMany(), AsChild(schema), at1, rest, all);
    }
  }

  ghost function DeletesCounterpart(schema: Schema): OneToOne -> bool {
    (rel: OneToOne) => ListsDelete(rel.cascade) && exists column :: RemovalMeaning.CounterpartColumn(schema, rel, column)
  }

  ghost function AsCounterpart(schema: Schema): (OneToOne, Removal.Dependent) -> bool {
    (rel: OneToOne, d: Removal.Dependent) =>
      d.related == rel.related && RemovalMeaning.CounterpartColumn(schema, rel, d.fkColumn)
  }

  /** ... then one per inverse OneToOne with one and an owning side. */
  lemma {:induction false} CounterpartsInOrder(schema: Schema, relations: seq<OneToOne>) returns (at: seq<nat>)
    ensures Drawn(relations, DeletesCounterpart(schema), AsCounterpart(schema), at, Removal.CounterpartsOf(schema, relations))
  {
    if relations == [] {
      at := [];
    } else {
      var rel := relations[0];
      var at1 := CounterpartsInOrder(schema, relations[1..]);
      var rest, all := Removal.CounterpartsOf(schema, relations[1..]), Removal.CounterpartsOf(schema, relations);
      if rel.joinColumn.None? && rel.inverseSide.Some? {
        forall column { RemovalMeaning.CounterpartColumnIs(schema, rel, column); }
        if DeletesCounterpart(schema)(rel) { assert all == [all[0]] + rest; }
      }
      at := DrawnNext(relations, DeletesCounterpart(schema), AsCounterpart(schema), at1, rest, all);
    }
  }

  ghost function DeletesOwned(schema: Schema, mode: Removal.Mode): OneToOne -> bool {
    (rel: OneToOne) =>
      rel.joinColumn.Some? && ListsDelete(rel.cascade) && RemovalMeaning.Reachable(schema, mode, rel.related)
  }

  ghost function AsOwned(): (OneToOne, Removal.Owned) -> bool {
    (rel: OneToOne, o: Removal.Owned) => o.related == rel.related && rel.joinColumn == Some(o.joinColumn)
  }

  /** What an entity owns comes in the order declared. */
  lemma {:induction false} OwnedInOrder(schema: Schema, mode: Removal.Mode, relations: seq<OneToOne>) returns (at: seq<nat>)
    ensures Drawn(relations, DeletesOwned(schema, mode), AsOwned(), at, Removal.OwnedBy(schema, mode, relations))
  {
    if relations == [] {
      at := [];
    } else {
      var at1 := OwnedInOrder(schema, mode, relations[1..]);
      var rest, all := Removal.OwnedBy(schema, mode, relations[1..]), Removal.OwnedBy(schema, mode, relations);
      if DeletesOwned(schema, mode)(relations[0]) { assert all == [all[0]] + rest; }
      at := DrawnNext(relations, DeletesOwned(schema, mode), AsOwned(), at1, rest, all);
    }
  }

  ghost function KeepsDependent(schema: Schema, mode: Removal.Mode): Removal.Dependent -> bool {
    (d: Removal.Dependent) => RemovalMeaning.Reachable(schema, mode, d.related)
  }

  ghost function Same(): (Removal.Dependent, Removal.Dependent) -> bool {
    (a: Removal.Dependent, b: Removal.Dependent) => a == b
  }

  /** Leaving out those a soft delete cannot reach keeps the order. */
  lemma {:induction false} KeptInOrder(schema: Schema, mode: Removal.Mode, dependents: seq<Removal.Dependent>)
    returns (at: seq<nat>)
    ensures Drawn(dependents, KeepsDependent(schema, mode), Same(), at, Removal.KeepRemovable(schema, mode, dependents))
  {
    if dependents == [] {
      at := [];
    } else {
      var at1 := KeptInOrder(schema, mode, dependents[1..]);
      var rest, all := Removal.KeepRemovable(schema, mode, dependents[1..]), Removal.KeepRemovable(schema, mode, dependents);
      if KeepsDependent(schema, mode)(dependents[0]) { assert all == [all[0]] + rest; }
      at := DrawnNext(dependents, KeepsDependent(schema, mode), Same(), at1, rest, all);
    }
  }

  // -------------------------------------------------------------------- save

  ghost function Owning(): OneToOne -> bool { (rel: OneToOne) => rel.joinColumn.Some? }

  ghost function AsReference(): (OneToOne, Save.Reference) -> bool {
    (rel: OneToOne, r: Save.Reference) => r == SaveMeaning.FromOneToOne(rel, r.saves) && (r.saves <==> ListsSave(rel.cascade))
  }

  lemma {:induction false} OwningInOrder(relations: seq<OneToOne>) returns (at: seq<nat>)
    ensures Drawn(relations, Owning(), AsReference(), at, Save.OwningReferences(relations))
  {
    if relations == [] {
      at := [];
    } else {
      var at1 := OwningInOrder(relations[1..]);
      var rest, all := Save.OwningReferences(relations[1..]), Save.OwningReferences(relations);
      var rel := relations[0];
      if rel.joinColumn.Some? {
        var r := Save.Reference(rel.property, rel.related, rel.joinColumn, rel.fkProperty, CascadesSave(rel.cascade), false);
        assert all == [r] + rest && r == SaveMeaning.FromOneToOne(rel, r.saves) && (r.saves <==> ListsSave(rel.cascade));
      }
      at := DrawnNext(relations, Owning(), AsReference(), at1, rest, all);
    }
  }

  lemma {:induction false} ManyToOnesInOrder(relations: seq<ManyToOne>)
    ensures |Save.ManyToOneReferences(relations)| == |relations|
    ensures forall i :: 0 <= i < |relations| ==>
              Save.ManyToOneReferences(relations)[i] == SaveMeaning.FromManyToOne(relations[i], ListsSave(relations[i].cascade))
  {
    if relations != [] { ManyToOnesInOrder(relations[1..]); }
  }

  /** The references of an entity are its ManyToOnes, then its owning OneToOnes, in
      the order declared. */
  lemma ReferencesInOrder(schema: Schema, entity: Entity) returns (many: seq<Save.Reference>, one: seq<Save.Reference>, at: seq<nat>)
    ensures Save.References(schema, entity) == many + one
    ensures |many| == |DeclaredBy(schema, entity).manyToOne|
    ensures forall i :: 0 <= i < |many| ==>
              var m := DeclaredBy(schema, entity).manyToOne[i]; many[i] == SaveMeaning.FromManyToOne(m, ListsSave(m.cascade))
    ensures Drawn(DeclaredBy(schema, entity).oneToOne, Owning(), AsReference(), at, one)
  {
    many, one := Save.ManyToOneReferences(DeclaredBy(schema, entity).manyToOne),
                 Save.OwningReferences(DeclaredBy(schema, entity).oneToOne);
    ManyToOnesInOrder(DeclaredBy(schema, entity).manyToOne);
    at := OwningInOrder(DeclaredBy(schema, entity).oneToOne);
  }

  ghost function SavesThrough(links: Save.Links): Save.Reference -> bool {
    (r: Save.Reference) => r.saves && r.property in links.one
  }

  ghost function AsUp(links: Save.Links): (Save.Reference, Save.Up) -> bool {
    (r: Save.Reference, u: Save.Up) => u.reference == r && r.property in links.one && u.target == links.one[r.property]
  }

  /** They are saved through in that order ... */
  lemma {:induction false} UpsInOrder(references: seq<Save.Reference>, links: Save.Links) returns (at: seq<nat>)
    ensures Drawn(references, SavesThrough(links), AsUp(links), at, Save.UpsAlong(references, links))
  {
    if references == [] {
      at := [];
    } else {
      var at1 := UpsInOrder(references[1..], links);
      var rest, all := Save.UpsAlong(references[1..], links), Save.UpsAlong(references, links);
      if SavesThrough(links)(references[0]) { assert all == [all[0]] + rest; }
      at := DrawnNext(references, SavesThrough(links), AsUp(links), at1, rest, all);
    }
  }

  function Targets(downs: seq<Save.Down>): (r: seq<Save.Ref>)
    ensures |r| == |downs| && forall i :: 0 <= i < |r| ==> r[i] == downs[i].target
  {
    seq(|downs|, i requires 0 <= i < |downs| => downs[i].target)
  }

  lemma TargetsNext(children: seq<Save.Ref>, keys: Save.FkWriteKeys, rest: seq<Save.Down>)
    ensures Targets(Save.DownsTo(children, keys) + rest) == children + Targets(rest)
  {}

  /** The objects the OneToManys of a save cascade hold, one relation after the
      other. */
  ghost function HeldChildren(relations: seq<OneToMany>, links: Save.Links): seq<Save.Ref> {
    if relations == [] then []
    else
      (if ListsSave(relations[0].cascade) && relations[0].property in links.many then links.many[relations[0].property] else [])
      + HeldChildren(relations[1..], links)
  }

  /** ... and the children in the order of the relations and of each list. */
  lemma {:induction false} ChildrenSavedInOrder(schema: Schema, relations: seq<OneToMany>, links: Save.Links)
    ensures Targets(Save.ChildDowns(schema, relations, links)) == HeldChildren(relations, links)
  {
    if relations != [] {
      var rel, rest := relations[0], Save.ChildDowns(schema, relations[1..], links);
      ChildrenSavedInOrder(schema, relations[1..], links);
      if ListsSave(rel.cascade) && rel.property in links.many {
        TargetsNext(links.many[rel.property], Save.FkKeysOfChild(schema, rel), rest);
      } else {
        assert [] + HeldChildren(relations[1..], links) == HeldChildren(relations[1..], links);
      }
    }
  }

  ghost function SavesCounterpart(schema: Schema, links: Save.Links): OneToOne -> bool {
    (rel: OneToOne) =>
      && ListsSave(rel.cascade) && rel.joinColumn.None? && rel.property in links.one
      && exists column :: RemovalMeaning.CounterpartColumn(schema, rel, column)
  }

  ghost function AsDown(links: Save.Links): (OneToOne, Save.Down) -> bool {
    (rel: OneToOne, d: Save.Down) => rel.property in links.one && d.target == links.one[rel.property]
  }

  /** then the counterparts, in the order declared. */
  lemma {:induction false} CounterpartsSavedInOrder(schema: Schema, relations: seq<OneToOne>, links: Save.Links)
    returns (at: seq<nat>)
    ensures Drawn(relations, SavesCounterpart(schema, links), AsDown(links), at, Save.CounterpartDowns(schema, relations, links))
  {
    if relations == [] {
      at := [];
    } else {
      var rel := relations[0];
      var at1 := CounterpartsSavedInOrder(schema, relations[1..], links);
      var rest, all := Save.CounterpartDowns(schema, relations[1..], links), Save.CounterpartDowns(schema, relations, links);
      if rel.joinColumn.None? && rel.inverseSide.Some? {
        forall column { RemovalMeaning.CounterpartColumnIs(schema, rel, column); }
        if SavesCounterpart(schema, links)(rel) { assert all == [all[0]] + rest; }
      }
      at := DrawnNext(relations, SavesCounterpart(schema, links), AsDown(links), at1, rest, all);
    }
  }
}
