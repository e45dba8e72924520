/** The rows over which a removal never ends, told by their cycles. */
module CascadeRemovalCycles {
  import opened Metadata
  import opened Digraphs
  import opened DigraphPaths
  import opened CascadeRemoval
  import opened CascadeRemovalProofs

  /** The row lies on a cycle of the edges a removal follows before it reaches a
      parent statement. */
  ghost predicate OnPendingCycle(schema: Schema, rows: Table, mode: Mode, id: Id) {
    OnCycle(PendingEdges(schema, rows, mode), Active(rows, mode), id)
  }

  lemma PendingAreRemovalEdges(schema: Schema, rows: Table, mode: Mode, s: set<Id>)
    requires ClosedUnder(RemovalEdges(schema, rows, mode), s)
    ensures ClosedUnder(PendingEdges(schema, rows, mode), s)
  {}

  /** A row from which the edges lead into a cycle leads to a row on one. */
  lemma EndlessLeadsToCycle(schema: Schema, rows: Table, m: set<Id>, mode: Mode, id: Id) returns (on: Id)
    requires m <= Active(rows, mode) && id in Reached(schema, rows, m, mode) && id in Endless(schema, rows, mode)
    ensures on in Reached(schema, rows, m, mode) && OnPendingCycle(schema, rows, mode, on)
  {
    ReachedIsClosed(schema, rows, m, mode);
    PendingAreRemovalEdges(schema, rows, mode, Reached(schema, rows, m, mode));
    on := CoreMeetsCycle(PendingEdges(schema, rows, mode), Active(rows, mode), Reached(schema, rows, m, mode), id);
  }

  /** A removal halts exactly when no row it reaches lies on a cycle of the edges
      it follows before a parent statement. */
  lemma RemovalHaltsIffNoCycle(schema: Schema, st: State, entity: Entity, c: Criteria, mode: Mode)
    ensures (exists fuel: nat :: Removal(schema, st, entity, c, mode, fuel).Some?)
            <==> forall id | id in Reached(schema, st.rows, Matched(st.rows, entity, c, mode), mode) ::
                   !OnPendingCycle(schema, st.rows, mode, id)
  {
    var s := Reached(schema, st.rows, Matched(st.rows, entity, c, mode), mode);
    RemovalHaltsIff(schema, st, entity, c, mode);
    if id :| id in s && id in Endless(schema, st.rows, mode) {
      var on := EndlessLeadsToCycle(schema, st.rows, Matched(st.rows, entity, c, mode), mode, id);
    }
    forall id | id in s && OnPendingCycle(schema, st.rows, mode, id) ensures id in Endless(schema, st.rows, mode) {
      CycleIsInCore(PendingEdges(schema, st.rows, mode), Active(st.rows, mode), id);
    }
  }
}
