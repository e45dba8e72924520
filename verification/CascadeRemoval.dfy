/** What the three removals do to the stored rows: `delete`, `softDelete` and
    `restore` each remove the dependents of the rows they match, then the
    targets those rows own, through the same operation. */
module CascadeRemoval {
  import opened Metadata
  import opened Digraphs

  datatype Mode = Delete | SoftDelete | Restore

  /** A relation whose rows hold the parent's key. */
  datatype Dependent = Dependent(related: Entity, fkColumn: string)

  /** An owning-side OneToOne: the parent's row holds the target's key. */
  datatype Owned = Owned(related: Entity, joinColumn: string)

  // ---------------------------------------------------------------- metadata

  function ChildrenOf(schema: Schema, relations: seq<OneToMany>): seq<Dependent> {
    if relations == [] then []
    else
      var rel := relations[0];
      var rest := ChildrenOf(schema, relations[1..]);
      if !CascadesDelete(rel.cascade) then rest
      else
        var owner := MatchingManyToOne(DeclaredBy(schema, rel.related).manyToOne, rel.mappedBy);
        var fkColumn := if owner.Some? && owner.value.joinColumn.Some? then owner.value.joinColumn.value
                        else rel.mappedBy;
        [Dependent(rel.related, fkColumn)] + rest
  }

  function CounterpartsOf(schema: Schema, relations: seq<OneToOne>): seq<Dependent> {
    if relations == [] then []
    else
      var rel := relations[0];
      var rest := CounterpartsOf(schema, relations[1..]);
      if rel.joinColumn.Some? || rel.inverseSide.None? || !CascadesDelete(rel.cascade) then rest
      else
        var owner := OwningOneToOne(DeclaredBy(schema, rel.related).oneToOne, rel.inverseSide.value);
        if owner.None? then rest
        else [Dependent(rel.related, owner.value.joinColumn.value)] + rest
  }

  function CascadingDependents(schema: Schema, entity: Entity): seq<Dependent> {
    ChildrenOf(schema, DeclaredBy(schema, entity).oneToMany)
    + CounterpartsOf(schema, DeclaredBy(schema, entity).oneToOne)
  }

  /** A soft-delete cascade only reaches soft-deletable rows. */
  predicate Removable(schema: Schema, mode: Mode, entity: Entity) {
    mode.Delete? || DeclaredBy(schema, entity).softDeletable
  }

  function KeepRemovable(schema: Schema, mode: Mode, dependents: seq<Dependent>): (r: seq<Dependent>)
    ensures forall d :: d in r <==> d in dependents && Removable(schema, mode, d.related)
  {
    if dependents == [] then []
    else
      var rest := KeepRemovable(schema, mode, dependents[1..]);
      if Removable(schema, mode, dependents[0].related) then [dependents[0]] + rest else rest
  }

  function RemovableDependents(schema: Schema, mode: Mode, entity: Entity): seq<Dependent> {
    KeepRemovable(schema, mode, CascadingDependents(schema, entity))
  }

  function OwnedBy(schema: Schema, mode: Mode, relations: seq<OneToOne>): seq<Owned> {
    if relations == [] then []
    else
      var rel := relations[0];
      var rest := OwnedBy(schema, mode, relations[1..]);
      if rel.joinColumn.None? || !CascadesDelete(rel.cascade) || !Removable(schema, mode, rel.related) then rest
      else [Owned(rel.related, rel.joinColumn.value)] + rest
  }

  function OwningRelations(schema: Schema, mode: Mode, entity: Entity): seq<Owned> {
    OwnedBy(schema, mode, DeclaredBy(schema, entity).oneToOne)
  }

  // -------------------------------------------------------------------- rows

  /** `cells` holds the foreign keys that are not NULL. */
  datatype Row = Row(cells: map<string, Key>, trashed: bool)

  type Table = map<Id, Row>

  datatype Criteria =
    | Where(test: (Id, Row) -> bool)
    | ColumnIn(column: string, keys: set<Key>)
    | KeyIn(keys: set<Key>)

  predicate CellIn(row: Row, column: string, keys: set<Key>) {
    column in row.cells && row.cells[column] in keys
  }

  predicate Matches(c: Criteria, id: Id, row: Row) {
    match c
    case Where(test) => test(id, row)
    case ColumnIn(column, keys) => CellIn(row, column, keys)
    case KeyIn(keys) => id.key in keys
  }

  /** Whether an operation acts on the row: `softDelete` on live rows,
      `restore` on trashed ones, a hard delete on both. */
  predicate ActsOn(mode: Mode, row: Row) {
    match mode
    case Delete => true
    case SoftDelete => !row.trashed
    case Restore => row.trashed
  }

  function Active(rows: Table, mode: Mode): set<Id> {
    set id | id in rows && ActsOn(mode, rows[id])
  }

  function Matched(rows: Table, entity: Entity, c: Criteria, mode: Mode): set<Id> {
    set id | id in rows && id.entity == entity && Matches(c, id, rows[id]) && ActsOn(mode, rows[id])
  }

  function KeysOf(ids: set<Id>): set<Key> {
    set id | id in ids :: id.key
  }

  /** The rows after one statement hit `ids`. */
  function After(rows: Table, ids: set<Id>, mode: Mode): Table {
    if mode.Delete? then map id | id in rows && id !in ids :: rows[id]
    else map id | id in rows :: if id in ids then rows[id].(trashed := mode.SoftDelete?) else rows[id]
  }

  // ------------------------------------------------------------- the cascade

  /** A statement that ran: the rows it hit and the table it left. */
  datatype Statement = Statement(hit: set<Id>, left: Table)

  datatype State = State(rows: Table, log: seq<Statement>)

  function RunStatement(st: State, ids: set<Id>, mode: Mode): State {
    var left := After(st.rows, ids, mode);
    State(left, st.log + [Statement(ids, left)])
  }

  /** The keys the matched rows hold in one relation's join column. */
  function OwnedKeys(rows: Table, ids: set<Id>, column: string): set<Key> {
    set id | id in ids && id in rows && column in rows[id].cells :: rows[id].cells[column]
  }

  datatype Targets = Targets(related: Entity, keys: set<Key>)

  function OwnedTargets(rows: Table, ids: set<Id>, owning: seq<Owned>): seq<Targets> {
    if owning == [] then []
    else
      var keys := OwnedKeys(rows, ids, owning[0].joinColumn);
      var rest := OwnedTargets(rows, ids, owning[1..]);
      if keys == {} then rest else [Targets(owning[0].related, keys)] + rest
  }

  /** One removal, down to `fuel` nested calls; None when that is not enough. */
  function Removal(schema: Schema, st: State, entity: Entity, c: Criteria, mode: Mode, fuel: nat): Option<State>
    decreases fuel, 1
  {
    if fuel == 0 then None
    else
      var keys := KeysOf(Matched(st.rows, entity, c, mode));
      match RemoveDependents(schema, st, RemovableDependents(schema, mode, entity), keys, mode, fuel - 1)
      case None => None
      case Some(st1) => RemoveParents(schema, st1, entity, c, mode, fuel)
  }

  /** The parent statement and the owned targets: a hard delete can only take
      a target once the row that references it is gone. */
  function RemoveParents(schema: Schema, st: State, entity: Entity, c: Criteria, mode: Mode, fuel: nat): Option<State>
    requires fuel > 0
    decreases fuel, 0
  {
    var hit := Matched(st.rows, entity, c, mode);
    var owned := OwnedTargets(st.rows, hit, OwningRelations(schema, mode, entity));
    if mode.Delete? then
      RemoveOwned(schema, RunStatement(st, hit, mode), owned, mode, fuel - 1)
    else
      match RemoveOwned(schema, st, owned, mode, fuel - 1)
      case None => None
      case Some(st1) => Some(RunStatement(st1, Matched(st1.rows, entity, c, mode), mode))
  }

  function RemoveDependents(schema: Schema, st: State, dependents: seq<Dependent>, keys: set<Key>,
                            mode: Mode, fuel: nat): Option<State>
    decreases fuel, 2 + |dependents|
  {
    if dependents == [] || keys == {} then Some(st)
    else
      var d := dependents[0];
      match Removal(schema, st, d.related, ColumnIn(d.fkColumn, keys), mode, fuel)
      case None => None
      case Some(st1) => RemoveDependents(schema, st1, dependents[1..], keys, mode, fuel)
  }

  function RemoveOwned(schema: Schema, st: State, owned: seq<Targets>, mode: Mode, fuel: nat): Option<State>
    decreases fuel, 2 + |owned|
  {
    if owned == [] then Some(st)
    else
      match Removal(schema, st, owned[0].related, KeyIn(owned[0].keys), mode, fuel)
      case None => None
      case Some(st1) => RemoveOwned(schema, st1, owned[1..], mode, fuel)
  }

  // --------------------------------------------------------- the row graph

  /** `b`'s row holds `a`'s key through a cascading dependent relation. */
  predicate DependsOn(schema: Schema, mode: Mode, a: Id, b: Id, rowB: Row) {
    exists d :: d in RemovableDependents(schema, mode, a.entity) && b.entity == d.related
                && CellIn(rowB, d.fkColumn, {a.key})
  }

  /** `a`'s row holds `b`'s key through a cascading owning relation. */
  predicate Owns(schema: Schema, mode: Mode, a: Id, rowA: Row, b: Id) {
    exists o :: o in OwningRelations(schema, mode, a.entity) && b.entity == o.related
                && CellIn(rowA, o.joinColumn, {b.key})
  }

  function DependentEdges(schema: Schema, rows: Table, mode: Mode): Edges<Id> {
    set a, b | a in Active(rows, mode) && b in Active(rows, mode) && DependsOn(schema, mode, a, b, rows[b]) :: (a, b)
  }

  function OwnedEdges(schema: Schema, rows: Table, mode: Mode): Edges<Id> {
    set a, b | a in Active(rows, mode) && b in Active(rows, mode) && Owns(schema, mode, a, rows[a], b) :: (a, b)
  }

  /** Every edge a removal follows. */
  function RemovalEdges(schema: Schema, rows: Table, mode: Mode): Edges<Id> {
    DependentEdges(schema, rows, mode) + OwnedEdges(schema, rows, mode)
  }

  /** The edges it follows while the matched rows are still there: a hard
      delete reaches owned targets only after the parent statement. */
  function PendingEdges(schema: Schema, rows: Table, mode: Mode): Edges<Id> {
    if mode.Delete? then DependentEdges(schema, rows, mode) else RemovalEdges(schema, rows, mode)
  }

  /** The rows an operation took out of those it acts on. */
  function Gone(before: Table, after: Table, mode: Mode): set<Id> {
    Active(before, mode) - Active(after, mode)
  }
}
