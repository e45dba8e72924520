/** What a removal removes, when it halts, and what its statements leave. */
module CascadeRemovalProofs {
  import opened Metadata
  import opened Digraphs
  import opened CascadeRemoval

  // ---------------------------------------------------- one statement's effect

  lemma AfterActive(rows: Table, ids: set<Id>, mode: Mode)
    requires ids <= Active(rows, mode)
    ensures Active(After(rows, ids, mode), mode) == Active(rows, mode) - ids
    ensures forall id :: id in Active(rows, mode) - ids ==>
      id in rows && id in After(rows, ids, mode) && After(rows, ids, mode)[id] == rows[id]
  {}

  lemma AfterTwice(rows: Table, x: set<Id>, y: set<Id>, mode: Mode)
    ensures After(After(rows, x, mode), y, mode) == After(rows, x + y, mode)
  {}

  lemma AfterNone(rows: Table, mode: Mode)
    ensures After(rows, {}, mode) == rows
  {}

  /** A statement takes the edges at the rows it hits, and only those. */
  lemma EdgesAfter(schema: Schema, rows: Table, x: set<Id>, mode: Mode)
    requires x <= Active(rows, mode)
    ensures forall a, b :: (a, b) in DependentEdges(schema, After(rows, x, mode), mode) <==>
                           (a, b) in DependentEdges(schema, rows, mode) && a !in x && b !in x
    ensures forall a, b :: (a, b) in OwnedEdges(schema, After(rows, x, mode), mode) <==>
                           (a, b) in OwnedEdges(schema, rows, mode) && a !in x && b !in x
  {
    AfterActive(rows, x, mode);
  }

  lemma MatchedAfter(rows: Table, x: set<Id>, entity: Entity, c: Criteria, mode: Mode)
    requires x <= Active(rows, mode)
    ensures Matched(After(rows, x, mode), entity, c, mode) == Matched(rows, entity, c, mode) - x
  {
    AfterActive(rows, x, mode);
  }

  /** Removing one closed set and then another that is closed in what is left
      removes a closed set. */
  lemma ClosedInSequence(schema: Schema, rows: Table, x: set<Id>, y: set<Id>, mode: Mode)
    requires x <= Active(rows, mode) && y <= Active(rows, mode) - x
    requires ClosedUnder(RemovalEdges(schema, rows, mode), x)
    requires ClosedUnder(RemovalEdges(schema, After(rows, x, mode), mode), y)
    ensures ClosedUnder(RemovalEdges(schema, rows, mode), x + y)
  {
    EdgesAfter(schema, rows, x, mode);
  }

  lemma ClosedAfter(schema: Schema, rows: Table, x: set<Id>, mode: Mode, s: set<Id>)
    requires x <= Active(rows, mode) && ClosedUnder(RemovalEdges(schema, rows, mode), s)
    ensures ClosedUnder(RemovalEdges(schema, After(rows, x, mode), mode), s)
  {
    EdgesAfter(schema, rows, x, mode);
  }

  // ------------------------------------------------- what is removed: closed

  ghost predicate DependentsCovered(rows: Table, dependents: seq<Dependent>, keys: set<Key>, mode: Mode, x: set<Id>) {
    forall d, b | d in dependents && b in Active(rows, mode) && b.entity == d.related
                  && CellIn(rows[b], d.fkColumn, keys) :: b in x
  }

  ghost predicate TargetsCovered(rows: Table, owned: seq<Targets>, mode: Mode, x: set<Id>) {
    forall t, b :: t in owned && b in Active(rows, mode) && b.entity == t.related && b.key in t.keys ==> b in x
  }

  lemma {:induction false} TargetsCollected(rows: Table, ids: set<Id>, owning: seq<Owned>, o: Owned, a: Id)
    requires o in owning && a in ids && a in rows && o.joinColumn in rows[a].cells
    ensures exists t :: t in OwnedTargets(rows, ids, owning) && t.related == o.related
                        && rows[a].cells[o.joinColumn] in t.keys
  {
    var keys := OwnedKeys(rows, ids, owning[0].joinColumn);
    if o == owning[0] {
      assert rows[a].cells[o.joinColumn] in keys;
      assert Targets(o.related, keys) in OwnedTargets(rows, ids, owning);
    } else {
      TargetsCollected(rows, ids, owning[1..], o, a);
      var t :| t in OwnedTargets(rows, ids, owning[1..]) && t.related == o.related
               && rows[a].cells[o.joinColumn] in t.keys;
      assert t in OwnedTargets(rows, ids, owning);
    }
  }

  /** Where the edges of a matched row lead: to a dependent, removed first, or
      to a target collected once those are gone. */
  lemma MatchedEdgesCovered(schema: Schema, rows: Table, entity: Entity, m: set<Id>, mode: Mode,
                            x: set<Id>, z: set<Id>, y: set<Id>, a: Id, b: Id)
    requires m <= Active(rows, mode) && (forall id :: id in m ==> id.entity == entity)
    requires x <= z <= Active(rows, mode)
    requires DependentsCovered(rows, RemovableDependents(schema, mode, entity), KeysOf(m), mode, x)
    requires TargetsCovered(After(rows, z, mode),
                            OwnedTargets(After(rows, x, mode), m - x, OwningRelations(schema, mode, entity)), mode, y)
    requires a in m - x && (a, b) in RemovalEdges(schema, rows, mode)
    ensures b in z + y
    ensures (a, b) in DependentEdges(schema, rows, mode) ==> b in x
  {
    if (a, b) in DependentEdges(schema, rows, mode) {
      var d :| d in RemovableDependents(schema, mode, a.entity) && b.entity == d.related
               && CellIn(rows[b], d.fkColumn, {a.key});
      assert a.key in KeysOf(m);
      assert CellIn(rows[b], d.fkColumn, KeysOf(m));
    } else {
      var o :| o in OwningRelations(schema, mode, a.entity) && b.entity == o.related
               && CellIn(rows[a], o.joinColumn, {b.key});
      AfterActive(rows, x, mode);
      AfterActive(rows, z, mode);
      TargetsCollected(After(rows, x, mode), m - x, OwningRelations(schema, mode, entity), o, a);
    }
  }

  lemma ParentClosed(schema: Schema, rows: Table, entity: Entity, m: set<Id>, mode: Mode,
                     x: set<Id>, z: set<Id>, y: set<Id>)
    requires m <= Active(rows, mode) && (forall id :: id in m ==> id.entity == entity)
    requires x <= Active(rows, mode) && z == (if mode.Delete? then x + m else x) && y <= Active(rows, mode) - z
    requires DependentsCovered(rows, RemovableDependents(schema, mode, entity), KeysOf(m), mode, x)
    requires TargetsCovered(After(rows, z, mode),
                            OwnedTargets(After(rows, x, mode), m - x, OwningRelations(schema, mode, entity)), mode, y)
    requires ClosedUnder(RemovalEdges(schema, rows, mode), x)
    requires ClosedUnder(RemovalEdges(schema, After(rows, z, mode), mode), y)
    ensures ClosedUnder(RemovalEdges(schema, rows, mode), z + y + m)
  {
    EdgesAfter(schema, rows, z, mode);
    forall a, b | (a, b) in RemovalEdges(schema, rows, mode) && a in z + y + m ensures b in z + y + m {
      if a in m - x { MatchedEdgesCovered(schema, rows, entity, m, mode, x, z, y, a, b); }
    }
  }

  /** A closed set over the matched rows holds their dependents ... */
  lemma DependentsInside(schema: Schema, rows: Table, entity: Entity, m: set<Id>, mode: Mode, s: set<Id>)
    requires m <= Active(rows, mode) && (forall id :: id in m ==> id.entity == entity)
    requires ClosedUnder(RemovalEdges(schema, rows, mode), s) && m <= s
    ensures DependentsCovered(rows, RemovableDependents(schema, mode, entity), KeysOf(m), mode, s)
  {
    forall d, b | d in RemovableDependents(schema, mode, entity) && b in Active(rows, mode) && b.entity == d.related
                  && CellIn(rows[b], d.fkColumn, KeysOf(m))
      ensures b in s
    {
      var a :| a in m && a.key == rows[b].cells[d.fkColumn];
      assert CellIn(rows[b], d.fkColumn, {a.key});
      assert (a, b) in DependentEdges(schema, rows, mode);
    }
  }

  /** ... and the targets they own. */
  lemma TargetsInside(schema: Schema, rows: Table, entity: Entity, m: set<Id>, mode: Mode, s: set<Id>)
    requires m <= Active(rows, mode) && (forall id :: id in m ==> id.entity == entity)
    requires ClosedUnder(RemovalEdges(schema, rows, mode), s) && m <= s
    ensures TargetsCovered(rows, OwnedTargets(rows, m, OwningRelations(schema, mode, entity)), mode, s)
  {
    forall t, b | t in OwnedTargets(rows, m, OwningRelations(schema, mode, entity)) && b in Active(rows, mode)
                  && b.entity == t.related && b.key in t.keys
      ensures b in s
    {
      var o, a := TargetOrigin(rows, m, OwningRelations(schema, mode, entity), t, b.key);
      assert CellIn(rows[a], o.joinColumn, {b.key});
      assert (a, b) in OwnedEdges(schema, rows, mode);
    }
  }

  lemma {:induction false} TargetOrigin(rows: Table, ids: set<Id>, owning: seq<Owned>, t: Targets, key: Key)
    returns (o: Owned, a: Id)
    requires t in OwnedTargets(rows, ids, owning) && key in t.keys
    ensures o in owning && o.related == t.related && a in ids && a in rows
    ensures o.joinColumn in rows[a].cells && rows[a].cells[o.joinColumn] == key
  {
    var keys := OwnedKeys(rows, ids, owning[0].joinColumn);
    if keys != {} && t == Targets(owning[0].related, keys) {
      o := owning[0];
      a :| a in ids && a in rows && o.joinColumn in rows[a].cells && rows[a].cells[o.joinColumn] == key;
    } else {
      o, a := TargetOrigin(rows, ids, owning[1..], t, key);
    }
  }

  /** A sustained set the statement does not hit stays sustained. */
  lemma SustainedAfter(schema: Schema, rows: Table, x: set<Id>, mode: Mode, b: set<Id>)
    requires x <= Active(rows, mode) && x !! b && Sustained(PendingEdges(schema, rows, mode), b)
    ensures Sustained(PendingEdges(schema, After(rows, x, mode), mode), b)
  {
    EdgesAfter(schema, rows, x, mode);
    forall a | a in b ensures HasSuccessor(PendingEdges(schema, After(rows, x, mode), mode), b, a) {
      assert HasSuccessor(PendingEdges(schema, rows, mode), b, a);
    }
  }

  lemma DependentTaken(schema: Schema, rows: Table, entity: Entity, m: set<Id>, mode: Mode, x: set<Id>, a: Id, b: Id)
    requires forall id :: id in m ==> id.entity == entity
    requires DependentsCovered(rows, RemovableDependents(schema, mode, entity), KeysOf(m), mode, x)
    requires a in m && (a, b) in DependentEdges(schema, rows, mode)
    ensures b in x
  {
    var d :| d in RemovableDependents(schema, mode, a.entity) && b.entity == d.related
             && CellIn(rows[b], d.fkColumn, {a.key});
    assert a.key in KeysOf(m);
    assert CellIn(rows[b], d.fkColumn, KeysOf(m));
  }

  /** A matched row of a sustained set would pass the removal on to another one,
      so a removal that halts matched none. */
  lemma DeletedAvoids(schema: Schema, rows: Table, entity: Entity, m: set<Id>, x: set<Id>, s: set<Id>)
    requires forall id :: id in m ==> id.entity == entity
    requires DependentsCovered(rows, RemovableDependents(schema, Delete, entity), KeysOf(m), Delete, x)
    requires Sustained(PendingEdges(schema, rows, Delete), s) && x !! s
    ensures m !! s
  {
    forall a | a in s ensures a !in m {
      assert HasSuccessor(PendingEdges(schema, rows, Delete), s, a);
      var b :| b in s && (a, b) in DependentEdges(schema, rows, Delete);
      if a in m { DependentTaken(schema, rows, entity, m, Delete, x, a, b); }
    }
  }

  lemma ToggledAvoids(schema: Schema, rows: Table, entity: Entity, m: set<Id>, mode: Mode,
                      x: set<Id>, y: set<Id>, s: set<Id>)
    requires !mode.Delete? && m <= Active(rows, mode) && (forall id :: id in m ==> id.entity == entity)
    requires x <= Active(rows, mode)
    requires DependentsCovered(rows, RemovableDependents(schema, mode, entity), KeysOf(m), mode, x)
    requires TargetsCovered(After(rows, x, mode),
                            OwnedTargets(After(rows, x, mode), m - x, OwningRelations(schema, mode, entity)), mode, y)
    requires Sustained(PendingEdges(schema, rows, mode), s) && x !! s && y !! s
    ensures m !! s
  {
    forall a | a in s ensures a !in m {
      assert HasSuccessor(PendingEdges(schema, rows, mode), s, a);
      var b :| b in s && (a, b) in RemovalEdges(schema, rows, mode);
      if a in m { MatchedEdgesCovered(schema, rows, entity, m, mode, x, x, y, a, b); }
    }
  }

  /** A removal takes the rows it matches and everything they lead to. */
  lemma {:induction false} RemovalClosed(schema: Schema, st: State, entity: Entity, c: Criteria, mode: Mode, fuel: nat,
                                         s: set<Id>, cycle: set<Id>)
    returns (x: set<Id>)
    requires Removal(schema, st, entity, c, mode, fuel).Some?
    requires Sustained(PendingEdges(schema, st.rows, mode), cycle)
    requires ClosedUnder(RemovalEdges(schema, st.rows, mode), s) && Matched(st.rows, entity, c, mode) <= s
    ensures x <= Active(st.rows, mode)
    ensures Removal(schema, st, entity, c, mode, fuel).value.rows == After(st.rows, x, mode)
    ensures Matched(st.rows, entity, c, mode) <= x <= s
    ensures ClosedUnder(RemovalEdges(schema, st.rows, mode), x)
    ensures x !! cycle
    decreases fuel, 1
  {
    var m, dependents := Matched(st.rows, entity, c, mode), RemovableDependents(schema, mode, entity);
    var st1 := RemoveDependents(schema, st, dependents, KeysOf(m), mode, fuel - 1).value;
    DependentsInside(schema, st.rows, entity, m, mode, s);
    var x1 := DependentsClosed(schema, st, dependents, KeysOf(m), mode, fuel - 1, s, cycle);
    RestStaysClosed(schema, st.rows, x1, entity, c, mode, s, cycle);
    if mode.Delete? { DeletedAvoids(schema, st.rows, entity, m, x1, cycle); }
    var y := ParentsClosed(schema, st1, entity, c, mode, fuel, s, cycle);
    x := StepsClose(schema, st.rows, entity, c, mode, x1, y, s, cycle);
  }

  /** What is left once `x` is taken matches, closes and sustains as before. */
  lemma RestStaysClosed(schema: Schema, rows: Table, x: set<Id>, entity: Entity, c: Criteria, mode: Mode, s: set<Id>,
                        cycle: set<Id>)
    requires x <= Active(rows, mode) && x !! cycle
    requires ClosedUnder(RemovalEdges(schema, rows, mode), s) && Sustained(PendingEdges(schema, rows, mode), cycle)
    ensures Matched(After(rows, x, mode), entity, c, mode) == Matched(rows, entity, c, mode) - x
    ensures ClosedUnder(RemovalEdges(schema, After(rows, x, mode), mode), s)
    ensures Sustained(PendingEdges(schema, After(rows, x, mode), mode), cycle)
  {
    MatchedAfter(rows, x, entity, c, mode);
    ClosedAfter(schema, rows, x, mode, s);
    SustainedAfter(schema, rows, x, mode, cycle);
  }

  /** Dependents, matched rows and targets together. */
  lemma StepsClose(schema: Schema, rows: Table, entity: Entity, c: Criteria, mode: Mode, x: set<Id>, y: set<Id>, s: set<Id>,
                   cycle: set<Id>)
    returns (all: set<Id>)
    requires x <= Active(rows, mode) && x <= s && x !! cycle && y <= s && y !! cycle && Matched(rows, entity, c, mode) <= s
    requires Sustained(PendingEdges(schema, rows, mode), cycle)
    requires DependentsCovered(rows, RemovableDependents(schema, mode, entity), KeysOf(Matched(rows, entity, c, mode)), mode, x)
    requires ClosedUnder(RemovalEdges(schema, rows, mode), x)
    requires Matched(After(rows, x, mode), entity, c, mode) == Matched(rows, entity, c, mode) - x
    requires mode.Delete? ==> Matched(rows, entity, c, mode) !! cycle
    requires var rows1 := After(rows, x, mode);
             var first := After(rows1, StatementFirst(rows1, entity, c, mode), mode);
             && y <= Active(rows1, mode) - StatementFirst(rows1, entity, c, mode)
             && TargetsCovered(first,
                               OwnedTargets(rows1, Matched(rows1, entity, c, mode), OwningRelations(schema, mode, entity)),
                               mode, y)
             && ClosedUnder(RemovalEdges(schema, first, mode), y)
    ensures Matched(rows, entity, c, mode) <= all <= s && all <= Active(rows, mode) && all !! cycle
    ensures After(After(rows, x, mode), Matched(After(rows, x, mode), entity, c, mode) + y, mode) == After(rows, all, mode)
    ensures ClosedUnder(RemovalEdges(schema, rows, mode), all)
  {
    var m := Matched(rows, entity, c, mode);
    AfterActive(rows, x, mode);
    all := ParentsInSequence(rows, m, x, y, mode);
    if !mode.Delete? { ToggledAvoids(schema, rows, entity, m, mode, x, y, cycle); }
    ParentClosed(schema, rows, entity, m, mode, x, if mode.Delete? then x + m else x, y);
  }

  lemma ParentsInSequence(rows: Table, m: set<Id>, x: set<Id>, y: set<Id>, mode: Mode) returns (all: set<Id>)
    requires m <= Active(rows, mode) && x <= Active(rows, mode) && y <= Active(After(rows, x, mode), mode)
    requires mode.Delete? ==> y !! m
    ensures all == (if mode.Delete? then x + m else x) + y + m
    ensures all <= Active(rows, mode)
    ensures After(After(rows, x, mode), m - x + y, mode) == After(rows, all, mode)
    ensures After(After(rows, x, mode), if mode.Delete? then m - x else {}, mode)
            == After(rows, if mode.Delete? then x + m else x, mode)
    ensures y <= Active(rows, mode) - (if mode.Delete? then x + m else x)
  {
    all := (if mode.Delete? then x + m else x) + y + m;
    AfterActive(rows, x, mode);
    AfterTwice(rows, x, m - x + y, mode);
    assert x + (m - x + y) == all;
    AfterTwice(rows, x, if mode.Delete? then m - x else {}, mode);
    assert x + (m - x) == x + m;
    assert x + {} == x;
  }

  /** The rows the parent statement hits before the owned targets go. */
  function StatementFirst(rows: Table, entity: Entity, c: Criteria, mode: Mode): set<Id> {
    if mode.Delete? then Matched(rows, entity, c, mode) else {}
  }

  lemma {:induction false} ParentsClosed(schema: Schema, st: State, entity: Entity, c: Criteria, mode: Mode, fuel: nat,
                                         s: set<Id>, cycle: set<Id>)
    returns (y: set<Id>)
    requires fuel > 0 && RemoveParents(schema, st, entity, c, mode, fuel).Some?
    requires Sustained(PendingEdges(schema, st.rows, mode), cycle)
    requires mode.Delete? ==> Matched(st.rows, entity, c, mode) !! cycle
    requires ClosedUnder(RemovalEdges(schema, st.rows, mode), s) && Matched(st.rows, entity, c, mode) <= s
    ensures y <= s
    ensures y <= Active(st.rows, mode) - StatementFirst(st.rows, entity, c, mode)
    ensures RemoveParents(schema, st, entity, c, mode, fuel).value.rows
            == After(st.rows, Matched(st.rows, entity, c, mode) + y, mode)
    ensures var first := After(st.rows, StatementFirst(st.rows, entity, c, mode), mode);
            && TargetsCovered(first, OwnedTargets(st.rows, Matched(st.rows, entity, c, mode),
                                                  OwningRelations(schema, mode, entity)), mode, y)
            && ClosedUnder(RemovalEdges(schema, first, mode), y)
    ensures y !! cycle
    decreases fuel, 0
  {
    var hit := Matched(st.rows, entity, c, mode);
    var owned := OwnedTargets(st.rows, hit, OwningRelations(schema, mode, entity));
    if mode.Delete? {
      ClosedAfter(schema, st.rows, hit, mode, s);
      SustainedAfter(schema, st.rows, hit, mode, cycle);
      AfterActive(st.rows, hit, mode);
      TargetsInside(schema, st.rows, entity, hit, mode, s);
      y := OwnedClosed(schema, RunStatement(st, hit, mode), owned, mode, fuel - 1, s, cycle);
      AfterTwice(st.rows, hit, y, mode);
    } else {
      TargetsInside(schema, st.rows, entity, hit, mode, s);
      y := OwnedClosed(schema, st, owned, mode, fuel - 1, s, cycle);
      AfterNone(st.rows, mode);
      MatchedAfter(st.rows, y, entity, c, mode);
      AfterTwice(st.rows, y, hit - y, mode);
      assert y + (hit - y) == hit + y;
    }
  }

  lemma {:induction false} DependentsClosed(schema: Schema, st: State, dependents: seq<Dependent>, keys: set<Key>,
                                            mode: Mode, fuel: nat, s: set<Id>, cycle: set<Id>)
    returns (x: set<Id>)
    requires Sustained(PendingEdges(schema, st.rows, mode), cycle)
    requires RemoveDependents(schema, st, dependents, keys, mode, fuel).Some?
    requires ClosedUnder(RemovalEdges(schema, st.rows, mode), s)
    requires DependentsCovered(st.rows, dependents, keys, mode, s)
    ensures x <= s
    ensures x <= Active(st.rows, mode)
    ensures RemoveDependents(schema, st, dependents, keys, mode, fuel).value.rows == After(st.rows, x, mode)
    ensures DependentsCovered(st.rows, dependents, keys, mode, x)
    ensures ClosedUnder(RemovalEdges(schema, st.rows, mode), x)
    ensures x !! cycle
    decreases fuel, 2 + |dependents|
  {
    if dependents == [] || keys == {} {
      x := {};
      AfterNone(st.rows, mode);
    } else {
      var d := dependents[0];
      var c := ColumnIn(d.fkColumn, keys);
      var st1 := Removal(schema, st, d.related, c, mode, fuel).value;
      var x1 := RemovalClosed(schema, st, d.related, c, mode, fuel, s, cycle);
      AfterActive(st.rows, x1, mode);
      ClosedAfter(schema, st.rows, x1, mode, s);
      SustainedAfter(schema, st.rows, x1, mode, cycle);
      var x2 := DependentsClosed(schema, st1, dependents[1..], keys, mode, fuel, s, cycle);
      AfterTwice(st.rows, x1, x2, mode);
      ClosedInSequence(schema, st.rows, x1, x2, mode);
      x := x1 + x2;
      forall e, b | e in dependents && b in Active(st.rows, mode) && b.entity == e.related
                    && CellIn(st.rows[b], e.fkColumn, keys)
        ensures b in x
      {
        if e == d {
          assert b in Matched(st.rows, d.related, c, mode);
        } else {
          assert e in dependents[1..];
        }
      }
    }
  }

  lemma {:induction false} OwnedClosed(schema: Schema, st: State, owned: seq<Targets>, mode: Mode, fuel: nat,
                                       s: set<Id>, cycle: set<Id>)
    returns (x: set<Id>)
    requires Sustained(PendingEdges(schema, st.rows, mode), cycle)
    requires RemoveOwned(schema, st, owned, mode, fuel).Some?
    requires ClosedUnder(RemovalEdges(schema, st.rows, mode), s)
    requires TargetsCovered(st.rows, owned, mode, s)
    ensures x <= s
    ensures x <= Active(st.rows, mode)
    ensures RemoveOwned(schema, st, owned, mode, fuel).value.rows == After(st.rows, x, mode)
    ensures TargetsCovered(st.rows, owned, mode, x)
    ensures ClosedUnder(RemovalEdges(schema, st.rows, mode), x)
    ensures x !! cycle
    decreases fuel, 2 + |owned|
  {
    if owned == [] {
      x := {};
      AfterNone(st.rows, mode);
    } else {
      var t := owned[0];
      var st1 := Removal(schema, st, t.related, KeyIn(t.keys), mode, fuel).value;
      var x1 := RemovalClosed(schema, st, t.related, KeyIn(t.keys), mode, fuel, s, cycle);
      AfterActive(st.rows, x1, mode);
      ClosedAfter(schema, st.rows, x1, mode, s);
      SustainedAfter(schema, st.rows, x1, mode, cycle);
      var x2 := OwnedClosed(schema, st1, owned[1..], mode, fuel, s, cycle);
      AfterTwice(st.rows, x1, x2, mode);
      ClosedInSequence(schema, st.rows, x1, x2, mode);
      x := x1 + x2;
      forall u, b | u in owned && b in Active(st.rows, mode) && b.entity == u.related && b.key in u.keys
        ensures b in x
      {
        if u == t {
          assert b in Matched(st.rows, t.related, KeyIn(t.keys), mode);
        } else {
          assert u in owned[1..];
        }
      }
    }
  }

  /** The rows an operation has taken out of its reach. */
  ghost function Reached(schema: Schema, rows: Table, from: set<Id>, mode: Mode): set<Id> {
    set id | id in Active(rows, mode) && Reaches(RemovalEdges(schema, rows, mode), from, id)
  }

  lemma ReachedIsClosed(schema: Schema, rows: Table, from: set<Id>, mode: Mode)
    requires from <= Active(rows, mode)
    ensures from <= Reached(schema, rows, from, mode)
    ensures ClosedUnder(RemovalEdges(schema, rows, mode), Reached(schema, rows, from, mode))
  {
    var edges := RemovalEdges(schema, rows, mode);
    forall id | id in from ensures id in Reached(schema, rows, from, mode) { StartReached(edges, from, id); }
    forall a, b | (a, b) in edges && a in Reached(schema, rows, from, mode)
      ensures b in Reached(schema, rows, from, mode)
    {
      ReachesExtends(edges, from, a, b);
    }
  }

  /** A removal that halts hits exactly the rows it reaches from those it
      matches, and leaves every other row as it was. */
  lemma RemovalIsClosure(schema: Schema, st: State, entity: Entity, c: Criteria, mode: Mode, fuel: nat)
    requires Removal(schema, st, entity, c, mode, fuel).Some?
    ensures var rows := Removal(schema, st, entity, c, mode, fuel).value.rows;
            && rows == After(st.rows, Gone(st.rows, rows, mode), mode)
            && IsClosure(RemovalEdges(schema, st.rows, mode), Matched(st.rows, entity, c, mode), Gone(st.rows, rows, mode))
  {
    var m := Matched(st.rows, entity, c, mode);
    ReachedIsClosed(schema, st.rows, m, mode);
    var x := RemovalClosed(schema, st, entity, c, mode, fuel, Reached(schema, st.rows, m, mode), {});
    AfterActive(st.rows, x, mode);
    assert Gone(st.rows, Removal(schema, st, entity, c, mode, fuel).value.rows, mode) == x;
    LeastClosedIsClosure(RemovalEdges(schema, st.rows, mode), m, x);
  }

  lemma EverythingIsClosed(schema: Schema, rows: Table, mode: Mode)
    ensures ClosedUnder(RemovalEdges(schema, rows, mode), Active(rows, mode))
  {}

  // -------------------------------------------------------- when it halts

  /** More nested calls than needed change nothing. */
  lemma {:induction false} RemovalMonotone(schema: Schema, st: State, entity: Entity, c: Criteria, mode: Mode,
                                           fuel: nat, more: nat)
    requires fuel <= more && Removal(schema, st, entity, c, mode, fuel).Some?
    ensures Removal(schema, st, entity, c, mode, more) == Removal(schema, st, entity, c, mode, fuel)
    decreases fuel, 1
  {
    var hit := Matched(st.rows, entity, c, mode);
    var dependents := RemovableDependents(schema, mode, entity);
    DependentsMonotone(schema, st, dependents, KeysOf(hit), mode, fuel - 1, more - 1);
    var st1 := RemoveDependents(schema, st, dependents, KeysOf(hit), mode, fuel - 1).value;
    ParentsMonotone(schema, st1, entity, c, mode, fuel, more);
  }

  lemma {:induction false} ParentsMonotone(schema: Schema, st: State, entity: Entity, c: Criteria, mode: Mode,
                                           fuel: nat, more: nat)
    requires 0 < fuel <= more && RemoveParents(schema, st, entity, c, mode, fuel).Some?
    ensures RemoveParents(schema, st, entity, c, mode, more) == RemoveParents(schema, st, entity, c, mode, fuel)
    decreases fuel, 0
  {
    var hit := Matched(st.rows, entity, c, mode);
    var owned := OwnedTargets(st.rows, hit, OwningRelations(schema, mode, entity));
    OwnedMonotone(schema, if mode.Delete? then RunStatement(st, hit, mode) else st, owned, mode, fuel - 1, more - 1);
  }

  lemma {:induction false} DependentsMonotone(schema: Schema, st: State, dependents: seq<Dependent>, keys: set<Key>,
                                              mode: Mode, fuel: nat, more: nat)
    requires fuel <= more && RemoveDependents(schema, st, dependents, keys, mode, fuel).Some?
    ensures RemoveDependents(schema, st, dependents, keys, mode, more)
            == RemoveDependents(schema, st, dependents, keys, mode, fuel)
    decreases fuel, 2 + |dependents|
  {
    if dependents != [] && keys != {} {
      var c := ColumnIn(dependents[0].fkColumn, keys);
      RemovalMonotone(schema, st, dependents[0].related, c, mode, fuel, more);
      var st1 := Removal(schema, st, dependents[0].related, c, mode, fuel).value;
      DependentsMonotone(schema, st1, dependents[1..], keys, mode, fuel, more);
    }
  }

  lemma {:induction false} OwnedMonotone(schema: Schema, st: State, owned: seq<Targets>, mode: Mode, fuel: nat, more: nat)
    requires fuel <= more && RemoveOwned(schema, st, owned, mode, fuel).Some?
    ensures RemoveOwned(schema, st, owned, mode, more) == RemoveOwned(schema, st, owned, mode, fuel)
    decreases fuel, 2 + |owned|
  {
    if owned != [] {
      RemovalMonotone(schema, st, owned[0].related, KeyIn(owned[0].keys), mode, fuel, more);
      var st1 := Removal(schema, st, owned[0].related, KeyIn(owned[0].keys), mode, fuel).value;
      OwnedMonotone(schema, st1, owned[1..], mode, fuel, more);
    }
  }

  /** The rows from which the edges followed before the statement never end. */
  function Endless(schema: Schema, rows: Table, mode: Mode): set<Id> {
    Core(PendingEdges(schema, rows, mode), Active(rows, mode))
  }

  ghost function RankOf(schema: Schema, start: Table, mode: Mode, id: Id): nat {
    Rank(PendingEdges(schema, start, mode), Active(start, mode), id)
  }

  /** What every call of a run that began on `start` keeps: it works on what is
      left of `start`, inside a closed set that holds no endless row. */
  ghost predicate InsideRun(schema: Schema, start: Table, rows: Table, mode: Mode, s: set<Id>) {
    && Active(rows, mode) <= Active(start, mode)
    && PendingEdges(schema, rows, mode) <= PendingEdges(schema, start, mode)
    && ClosedUnder(RemovalEdges(schema, rows, mode), s)
    && s !! Endless(schema, start, mode)
  }

  ghost predicate RankedBelow(schema: Schema, start: Table, mode: Mode, ids: set<Id>, n: nat) {
    forall id :: id in ids ==> RankOf(schema, start, mode, id) < n
  }

  lemma InsideRunAfter(schema: Schema, start: Table, rows: Table, x: set<Id>, mode: Mode, s: set<Id>)
    requires InsideRun(schema, start, rows, mode, s) && x <= Active(rows, mode)
    ensures InsideRun(schema, start, After(rows, x, mode), mode, s)
    ensures |Active(After(rows, x, mode), mode)| <= |Active(rows, mode)|
    ensures x != {} ==> |Active(After(rows, x, mode), mode)| < |Active(rows, mode)|
  {
    FewerActive(rows, x, mode);
    AfterActive(rows, x, mode);
    FewerPending(schema, rows, x, mode);
    ClosedAfter(schema, rows, x, mode, s);
  }

  lemma FewerActive(rows: Table, x: set<Id>, mode: Mode)
    requires x <= Active(rows, mode)
    ensures |Active(After(rows, x, mode), mode)| <= |Active(rows, mode)|
    ensures x != {} ==> |Active(After(rows, x, mode), mode)| < |Active(rows, mode)|
  {
    AfterActive(rows, x, mode);
    assert Active(rows, mode) == Active(After(rows, x, mode), mode) + x;
  }

  lemma FewerPending(schema: Schema, rows: Table, x: set<Id>, mode: Mode)
    requires x <= Active(rows, mode)
    ensures PendingEdges(schema, After(rows, x, mode), mode) <= PendingEdges(schema, rows, mode)
  {
    EdgesAfter(schema, rows, x, mode);
    forall e | e in PendingEdges(schema, After(rows, x, mode), mode) ensures e in PendingEdges(schema, rows, mode) {
      assert e == (e.0, e.1);
    }
  }

  lemma PendingDescends(schema: Schema, start: Table, mode: Mode, a: Id, b: Id)
    requires (a, b) in PendingEdges(schema, start, mode) && a !in Endless(schema, start, mode)
    ensures RankOf(schema, start, mode, b) < RankOf(schema, start, mode, a)
  {
    RankDescends(PendingEdges(schema, start, mode), Active(start, mode), a, b);
  }

  /** The rows a statement over `dependents` matches. */
  function DependentRows(rows: Table, dependents: seq<Dependent>, keys: set<Key>, mode: Mode): set<Id> {
    set b, d | b in Active(rows, mode) && d in dependents && b.entity == d.related
               && CellIn(rows[b], d.fkColumn, keys) :: b
  }

  function TargetRows(rows: Table, owned: seq<Targets>, mode: Mode): set<Id> {
    set b, t | b in Active(rows, mode) && t in owned && b.entity == t.related && b.key in t.keys :: b
  }

  lemma NoTargetsOfNothing(rows: Table, owning: seq<Owned>)
    ensures OwnedTargets(rows, {}, owning) == []
  {}

  lemma {:induction false} RemovalHalts(schema: Schema, start: Table, st: State, entity: Entity, c: Criteria, mode: Mode,
                                        s: set<Id>, n: nat)
    returns (fuel: nat)
    requires InsideRun(schema, start, st.rows, mode, s)
    requires Matched(st.rows, entity, c, mode) <= s
    requires RankedBelow(schema, start, mode, Matched(st.rows, entity, c, mode), n)
    ensures Removal(schema, st, entity, c, mode, fuel).Some?
    decreases |Active(st.rows, mode)|, n, 1, 0
  {
    if Matched(st.rows, entity, c, mode) == {} {
      fuel := 1;
      NothingMatched(schema, st, entity, c, mode);
    } else {
      var f1, st1 := FirstStepHalts(schema, start, st, entity, c, mode, s, n);
      var f2 := ParentsHalt(schema, start, st1, entity, c, mode, s, n, |Active(st.rows, mode)|);
      fuel := BothStepsHalt(schema, st, entity, c, mode, f1, st1, f2);
    }
  }

  lemma {:induction false} FirstStepHalts(schema: Schema, start: Table, st: State, entity: Entity, c: Criteria, mode: Mode,
                                          s: set<Id>, n: nat)
    returns (fuel: nat, st1: State)
    requires InsideRun(schema, start, st.rows, mode, s)
    requires Matched(st.rows, entity, c, mode) <= s && Matched(st.rows, entity, c, mode) != {}
    requires RankedBelow(schema, start, mode, Matched(st.rows, entity, c, mode), n)
    ensures n > 0 && InsideRun(schema, start, st1.rows, mode, s)
    ensures RemoveDependents(schema, st, RemovableDependents(schema, mode, entity),
                             KeysOf(Matched(st.rows, entity, c, mode)), mode, fuel) == Some(st1)
    ensures Matched(st1.rows, entity, c, mode) <= Matched(st.rows, entity, c, mode)
    ensures |Active(st1.rows, mode)| <= |Active(st.rows, mode)|
    decreases |Active(st.rows, mode)|, n, 0, 1
  {
    var m := Matched(st.rows, entity, c, mode);
    var dependents := RemovableDependents(schema, mode, entity);
    DependentsRanked(schema, start, st.rows, entity, m, mode, s, n);
    fuel := DependentsHalt(schema, start, st, dependents, KeysOf(m), mode, s, n - 1);
    st1 := RemoveDependents(schema, st, dependents, KeysOf(m), mode, fuel).value;
    var x := DependentsClosed(schema, st, dependents, KeysOf(m), mode, fuel, s, {});
    MatchedAfter(st.rows, x, entity, c, mode);
    InsideRunAfter(schema, start, st.rows, x, mode, s);
  }

  lemma BothStepsHalt(schema: Schema, st: State, entity: Entity, c: Criteria, mode: Mode, f1: nat, st1: State, f2: nat)
    returns (fuel: nat)
    requires f2 > 0 && RemoveParents(schema, st1, entity, c, mode, f2).Some?
    requires RemoveDependents(schema, st, RemovableDependents(schema, mode, entity),
                              KeysOf(Matched(st.rows, entity, c, mode)), mode, f1) == Some(st1)
    ensures Removal(schema, st, entity, c, mode, fuel).Some?
  {
    fuel := 1 + f1 + f2;
    DependentsMonotone(schema, st, RemovableDependents(schema, mode, entity),
                       KeysOf(Matched(st.rows, entity, c, mode)), mode, f1, f1 + f2);
    ParentsMonotone(schema, st1, entity, c, mode, f2, 1 + f1 + f2);
  }

  lemma NothingMatched(schema: Schema, st: State, entity: Entity, c: Criteria, mode: Mode)
    requires Matched(st.rows, entity, c, mode) == {}
    ensures Removal(schema, st, entity, c, mode, 1).Some?
  {
    assert KeysOf(Matched(st.rows, entity, c, mode)) == {};
    NoTargetsOfNothing(st.rows, OwningRelations(schema, mode, entity));
  }

  lemma DependentsRanked(schema: Schema, start: Table, rows: Table, entity: Entity, m: set<Id>, mode: Mode,
                         s: set<Id>, n: nat)
    requires InsideRun(schema, start, rows, mode, s) && m <= s && m <= Active(rows, mode) && m != {}
    requires forall id :: id in m ==> id.entity == entity
    requires RankedBelow(schema, start, mode, m, n)
    ensures n > 0
    ensures DependentsCovered(rows, RemovableDependents(schema, mode, entity), KeysOf(m), mode, s)
    ensures RankedBelow(schema, start, mode,
                        DependentRows(rows, RemovableDependents(schema, mode, entity), KeysOf(m), mode), n - 1)
  {
    DependentsInside(schema, rows, entity, m, mode, s);
    forall b | b in DependentRows(rows, RemovableDependents(schema, mode, entity), KeysOf(m), mode)
      ensures RankOf(schema, start, mode, b) < n - 1
    {
      var d :| d in RemovableDependents(schema, mode, entity) && b.entity == d.related
               && CellIn(rows[b], d.fkColumn, KeysOf(m));
      var a :| a in m && a.key == rows[b].cells[d.fkColumn];
      assert CellIn(rows[b], d.fkColumn, {a.key});
      assert (a, b) in DependentEdges(schema, rows, mode);
      PendingDescends(schema, start, mode, a, b);
    }
    var id :| id in m;
  }

  lemma TargetsRanked(schema: Schema, start: Table, rows: Table, entity: Entity, m: set<Id>, mode: Mode,
                      s: set<Id>, n: nat)
    requires InsideRun(schema, start, rows, mode, s) && m <= s && m <= Active(rows, mode) && !mode.Delete?
    requires forall id :: id in m ==> id.entity == entity
    requires n > 0 && RankedBelow(schema, start, mode, m, n)
    ensures RankedBelow(schema, start, mode,
                        TargetRows(rows, OwnedTargets(rows, m, OwningRelations(schema, mode, entity)), mode), n - 1)
  {
    forall b | b in TargetRows(rows, OwnedTargets(rows, m, OwningRelations(schema, mode, entity)), mode)
      ensures RankOf(schema, start, mode, b) < n - 1
    {
      var t :| t in OwnedTargets(rows, m, OwningRelations(schema, mode, entity)) && b.entity == t.related && b.key in t.keys;
      var o, a := TargetOrigin(rows, m, OwningRelations(schema, mode, entity), t, b.key);
      assert CellIn(rows[a], o.joinColumn, {b.key});
      assert (a, b) in OwnedEdges(schema, rows, mode);
      PendingDescends(schema, start, mode, a, b);
    }
  }

  /** A hard delete reaches its targets with fewer rows left; the other two
      with a lower rank. */
  lemma {:induction false} ParentsHalt(schema: Schema, start: Table, st: State, entity: Entity, c: Criteria, mode: Mode,
                                       s: set<Id>, n: nat, bound: nat)
    returns (fuel: nat)
    requires InsideRun(schema, start, st.rows, mode, s) && n > 0 && |Active(st.rows, mode)| <= bound
    requires Matched(st.rows, entity, c, mode) <= s
    requires RankedBelow(schema, start, mode, Matched(st.rows, entity, c, mode), n)
    ensures fuel > 0 && RemoveParents(schema, st, entity, c, mode, fuel).Some?
    decreases bound, n, 0, 1
  {
    var hit := Matched(st.rows, entity, c, mode);
    if hit == {} {
      NoTargetsOfNothing(st.rows, OwningRelations(schema, mode, entity));
      fuel := 1;
    } else if mode.Delete? {
      fuel := DeletedParentsHalt(schema, start, st, entity, c, s, bound);
    } else {
      fuel := ToggledParentsHalt(schema, start, st, entity, c, mode, s, n, bound);
    }
  }

  lemma {:induction false} DeletedParentsHalt(schema: Schema, start: Table, st: State, entity: Entity, c: Criteria, s: set<Id>,
                                              bound: nat)
    returns (fuel: nat)
    requires InsideRun(schema, start, st.rows, Delete, s) && |Active(st.rows, Delete)| <= bound
    requires Matched(st.rows, entity, c, Delete) != {} && Matched(st.rows, entity, c, Delete) <= s
    ensures fuel > 0 && RemoveParents(schema, st, entity, c, Delete, fuel).Some?
    decreases bound, 0, 0, 0
  {
    var hit := Matched(st.rows, entity, c, Delete);
    TargetsInside(schema, st.rows, entity, hit, Delete, s);
    InsideRunAfter(schema, start, st.rows, hit, Delete, s);
    FewerActive(st.rows, hit, Delete);
    var f := OwnedHalt(schema, start, RunStatement(st, hit, Delete),
                       OwnedTargets(st.rows, hit, OwningRelations(schema, Delete, entity)), Delete, s, |Active(start, Delete)| + 1);
    fuel := f + 1;
  }

  lemma {:induction false} ToggledParentsHalt(schema: Schema, start: Table, st: State, entity: Entity, c: Criteria, mode: Mode,
                                              s: set<Id>, n: nat, bound: nat)
    returns (fuel: nat)
    requires InsideRun(schema, start, st.rows, mode, s) && n > 0 && |Active(st.rows, mode)| <= bound && !mode.Delete?
    requires Matched(st.rows, entity, c, mode) <= s
    requires RankedBelow(schema, start, mode, Matched(st.rows, entity, c, mode), n)
    ensures fuel > 0 && RemoveParents(schema, st, entity, c, mode, fuel).Some?
    decreases bound, n, 0, 0
  {
    var hit := Matched(st.rows, entity, c, mode);
    TargetsInside(schema, st.rows, entity, hit, mode, s);
    TargetsRanked(schema, start, st.rows, entity, hit, mode, s, n);
    var f := OwnedHalt(schema, start, st, OwnedTargets(st.rows, hit, OwningRelations(schema, mode, entity)), mode, s, n - 1);
    fuel := f + 1;
  }

  /** After one dependent relation is done, the others are as ready as before. */
  lemma RestOfDependents(schema: Schema, start: Table, st: State, dependents: seq<Dependent>,
                         keys: set<Key>, mode: Mode, s: set<Id>, n: nat, fuel: nat)
    requires dependents != [] && InsideRun(schema, start, st.rows, mode, s)
    requires DependentsCovered(st.rows, dependents, keys, mode, s)
    requires RankedBelow(schema, start, mode, DependentRows(st.rows, dependents, keys, mode), n)
    requires Removal(schema, st, dependents[0].related, ColumnIn(dependents[0].fkColumn, keys), mode, fuel).Some?
    ensures var rows1 := Removal(schema, st, dependents[0].related, ColumnIn(dependents[0].fkColumn, keys), mode, fuel).value.rows;
            && InsideRun(schema, start, rows1, mode, s)
            && DependentsCovered(rows1, dependents[1..], keys, mode, s)
            && RankedBelow(schema, start, mode, DependentRows(rows1, dependents[1..], keys, mode), n)
            && |Active(rows1, mode)| <= |Active(st.rows, mode)|
  {
    var d := dependents[0];
    var c := ColumnIn(d.fkColumn, keys);
    var x := RemovalClosed(schema, st, d.related, c, mode, fuel, s, {});
    AfterActive(st.rows, x, mode);
    InsideRunAfter(schema, start, st.rows, x, mode, s);
    var rows1 := Removal(schema, st, d.related, c, mode, fuel).value.rows;
    assert DependentRows(rows1, dependents[1..], keys, mode) <= DependentRows(st.rows, dependents, keys, mode);
  }

  lemma RestOfTargets(schema: Schema, start: Table, st: State, owned: seq<Targets>, mode: Mode, s: set<Id>, n: nat, fuel: nat)
    requires owned != [] && InsideRun(schema, start, st.rows, mode, s)
    requires TargetsCovered(st.rows, owned, mode, s)
    requires RankedBelow(schema, start, mode, TargetRows(st.rows, owned, mode), n)
    requires Removal(schema, st, owned[0].related, KeyIn(owned[0].keys), mode, fuel).Some?
    ensures var rows1 := Removal(schema, st, owned[0].related, KeyIn(owned[0].keys), mode, fuel).value.rows;
            && InsideRun(schema, start, rows1, mode, s)
            && TargetsCovered(rows1, owned[1..], mode, s)
            && RankedBelow(schema, start, mode, TargetRows(rows1, owned[1..], mode), n)
            && |Active(rows1, mode)| <= |Active(st.rows, mode)|
  {
    var t := owned[0];
    var x := RemovalClosed(schema, st, t.related, KeyIn(t.keys), mode, fuel, s, {});
    AfterActive(st.rows, x, mode);
    InsideRunAfter(schema, start, st.rows, x, mode, s);
    var rows1 := Removal(schema, st, t.related, KeyIn(t.keys), mode, fuel).value.rows;
    assert TargetRows(rows1, owned[1..], mode) <= TargetRows(st.rows, owned, mode);
  }

  lemma {:induction false} DependentsHalt(schema: Schema, start: Table, st: State, dependents: seq<Dependent>,
                                          keys: set<Key>, mode: Mode, s: set<Id>, n: nat)
    returns (fuel: nat)
    requires InsideRun(schema, start, st.rows, mode, s)
    requires DependentsCovered(st.rows, dependents, keys, mode, s)
    requires RankedBelow(schema, start, mode, DependentRows(st.rows, dependents, keys, mode), n)
    ensures RemoveDependents(schema, st, dependents, keys, mode, fuel).Some?
    decreases |Active(st.rows, mode)|, n, 2, |dependents|
  {
    if dependents == [] || keys == {} {
      fuel := 0;
    } else {
      var d := dependents[0];
      var c := ColumnIn(d.fkColumn, keys);
      assert Matched(st.rows, d.related, c, mode) <= DependentRows(st.rows, dependents, keys, mode);
      var f1 := RemovalHalts(schema, start, st, d.related, c, mode, s, n);
      var st1 := Removal(schema, st, d.related, c, mode, f1).value;
      RestOfDependents(schema, start, st, dependents, keys, mode, s, n, f1);
      var f2 := DependentsHalt(schema, start, st1, dependents[1..], keys, mode, s, n);
      fuel := f1 + f2;
      RemovalMonotone(schema, st, d.related, c, mode, f1, fuel);
      DependentsMonotone(schema, st1, dependents[1..], keys, mode, f2, fuel);
    }
  }

  lemma {:induction false} OwnedHalt(schema: Schema, start: Table, st: State, owned: seq<Targets>, mode: Mode,
                                     s: set<Id>, n: nat)
    returns (fuel: nat)
    requires InsideRun(schema, start, st.rows, mode, s)
    requires TargetsCovered(st.rows, owned, mode, s)
    requires RankedBelow(schema, start, mode, TargetRows(st.rows, owned, mode), n)
    ensures RemoveOwned(schema, st, owned, mode, fuel).Some?
    decreases |Active(st.rows, mode)|, n, 2, |owned|
  {
    if owned == [] {
      fuel := 0;
    } else {
      var t := owned[0];
      assert Matched(st.rows, t.related, KeyIn(t.keys), mode) <= TargetRows(st.rows, owned, mode);
      var f1 := RemovalHalts(schema, start, st, t.related, KeyIn(t.keys), mode, s, n);
      var st1 := Removal(schema, st, t.related, KeyIn(t.keys), mode, f1).value;
      RestOfTargets(schema, start, st, owned, mode, s, n, f1);
      var f2 := OwnedHalt(schema, start, st1, owned[1..], mode, s, n);
      fuel := f1 + f2;
      RemovalMonotone(schema, st, t.related, KeyIn(t.keys), mode, f1, fuel);
      OwnedMonotone(schema, st1, owned[1..], mode, f2, fuel);
    }
  }

  /** A removal halts exactly when no row it reaches can be walked from forever
      along the edges it follows before a parent statement. */
  lemma RemovalHaltsIff(schema: Schema, st: State, entity: Entity, c: Criteria, mode: Mode)
    ensures (exists fuel: nat :: Removal(schema, st, entity, c, mode, fuel).Some?)
            <==> Reached(schema, st.rows, Matched(st.rows, entity, c, mode), mode) !! Endless(schema, st.rows, mode)
  {
    var m := Matched(st.rows, entity, c, mode);
    var s := Reached(schema, st.rows, m, mode);
    ReachedIsClosed(schema, st.rows, m, mode);
    if fuel: nat :| Removal(schema, st, entity, c, mode, fuel).Some? {
      CoreIsSustained(PendingEdges(schema, st.rows, mode), Active(st.rows, mode));
      var x := RemovalClosed(schema, st, entity, c, mode, fuel, s, Endless(schema, st.rows, mode));
      LeastClosedIsClosure(RemovalEdges(schema, st.rows, mode), m, x);
    } else if s !! Endless(schema, st.rows, mode) {
      var fuel := RemovalHalts(schema, st.rows, st, entity, c, mode, s, |Active(st.rows, mode)| + 1);
    }
  }
}
