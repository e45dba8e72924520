/** The batched loader as a function on the heap of loaded objects, and the
    object-by-object load it stands for. */
module RelationLoading {
  import opened Metadata
  import opened RelationRows

  type Ref = nat

  datatype Value = Many(refs: seq<Ref>) | One(ref: Option<Ref>) | Number(n: nat)

  /** A loaded instance: its primary key unless the read left it out, its
      foreign keys, and the relation properties assigned so far. */
  datatype Obj = Obj(entity: Entity, id: Option<Key>, cells: map<string, Key>, props: map<string, Value>)

  type Heap = seq<Obj>

  /** A relation as the loaders resolve it. */
  datatype Relation =
    | ToOne(name: string, related: Entity, fkColumn: string)
    | Children(name: string, related: Entity, fkColumn: string)
    | Linked(name: string, related: Entity, joinTable: string, joinColumn: string, inverseColumn: string)
    | Counterpart(name: string, related: Entity, ownerColumn: Option<string>)

  /** A requested count: its property, the relation counted and its options. */
  datatype CountSpec = CountSpec(property: string, relation: string, whereTest: Option<Row -> bool>,
                                 withDeleted: Option<bool>)

  datatype Options = Options(whereTest: Option<Row -> bool>, orderBy: Option<Comparison>, take: Option<nat>,
                             skip: nat, withDeleted: Option<bool>, withCount: seq<CountSpec>)

  /** The requested relations of one level, each with its own nested level. */
  datatype Tree = Leaf | Node(name: string, options: Options, children: Tree, rest: Tree)

  datatype Db = Db(rows: map<Entity, seq<Row>>, joins: map<string, seq<map<string, Key>>>,
                   scope: (Entity, Row) -> bool, softDeletable: set<Entity>,
                   relations: map<Entity, seq<Relation>>, withDeleted: bool, sliceSize: nat)

  function RowsOf(db: Db, entity: Entity): seq<Row> {
    if entity in db.rows then db.rows[entity] else []
  }

  function RelationsOf(db: Db, entity: Entity): seq<Relation> {
    if entity in db.relations then db.relations[entity] else []
  }

  function Named(relations: seq<Relation>, name: string): (r: Option<Relation>)
    ensures r.Some? ==> r.value in relations && r.value.name == name
    ensures r.None? ==> forall x :: x in relations ==> x.name != name
  {
    if relations == [] then None
    else if relations[0].name == name then Some(relations[0])
    else Named(relations[1..], name)
  }

  predicate Collection(rel: Relation) {
    rel.Children? || rel.Linked?
  }

  // ---------------------------------------------------------- what is read

  function ByKey(rows: seq<Row>): seq<Pair> {
    if rows == [] then [] else [Pair(rows[0].key, rows[0])] + ByKey(rows[1..])
  }

  function ByForeignKey(rows: seq<Row>, column: string): seq<Pair> {
    if rows == [] then []
    else
      var rest := ByForeignKey(rows[1..], column);
      if column in rows[0].cells then [Pair(rows[0].cells[column], rows[0])] + rest else rest
  }

  /** One row of the related table joined to the join table. */
  function JoinedTo(row: Row, joins: seq<map<string, Key>>, joinColumn: string, inverseColumn: string): seq<Pair> {
    if joins == [] then []
    else
      var j := joins[0];
      var rest := JoinedTo(row, joins[1..], joinColumn, inverseColumn);
      if joinColumn in j && inverseColumn in j && j[inverseColumn] == row.key then [Pair(j[joinColumn], row)] + rest
      else rest
  }

  function ByJoin(rows: seq<Row>, joins: seq<map<string, Key>>, joinColumn: string, inverseColumn: string): seq<Pair> {
    if rows == [] then []
    else JoinedTo(rows[0], joins, joinColumn, inverseColumn) + ByJoin(rows[1..], joins, joinColumn, inverseColumn)
  }

  /** The related rows under the key their parents are matched by. */
  function Source(db: Db, rel: Relation): seq<Pair> {
    var rows := RowsOf(db, rel.related);
    match rel
    case ToOne(_, _, _) => ByKey(rows)
    case Children(_, _, column) => ByForeignKey(rows, column)
    case Linked(_, _, table, joinColumn, inverseColumn) =>
      ByJoin(rows, if table in db.joins then db.joins[table] else [], joinColumn, inverseColumn)
    case Counterpart(_, _, column) => if column.None? then [] else ByForeignKey(rows, column.value)
  }

  /** Only a collection takes a `where`, an order and a page. */
  function ShapeOf(db: Db, rel: Relation, options: Options): Shape {
    var withDeleted := if options.withDeleted.Some? then options.withDeleted.value else db.withDeleted;
    if Collection(rel) then
      Shape(rel.related, db.scope, options.whereTest, rel.related in db.softDeletable, withDeleted,
            options.orderBy, Page(options.skip, options.take))
    else
      Shape(rel.related, db.scope, None, rel.related in db.softDeletable, withDeleted, None, Page(0, None))
  }

  /** The key an object is matched by: its own foreign key for a to-one
      relation, its primary key for the others. */
  function MatchKey(rel: Relation, o: Obj): Option<Key> {
    if rel.ToOne? then (if rel.fkColumn in o.cells then Some(o.cells[rel.fkColumn]) else None) else o.id
  }

  function Fresh(entity: Entity, row: Row): Obj {
    Obj(entity, Some(row.key), row.cells, map[])
  }

  // ------------------------------------------- the load of one object alone

  datatype View = View(entity: Entity, id: Option<Key>, cells: map<string, Key>, counts: seq<Option<nat>>,
                       related: seq<Related>)

  datatype Related = ManyViews(views: seq<View>) | OneView(view: Option<View>) | Unassigned

  /** The related rows one object's own read returns. */
  function OwnRelated(db: Db, rel: Relation, options: Options, o: Obj): seq<Row> {
    if MatchKey(rel, o).None? || (Collection(rel) && options.take == Some(0)) then []
    else RowsIn(OwnRows(Source(db, rel), MatchKey(rel, o).value, ShapeOf(db, rel, options)))
  }

  function RowsIn(pairs: seq<Pair>): (rows: seq<Row>)
    ensures |rows| == |pairs| && forall i :: 0 <= i < |rows| ==> rows[i] == pairs[i].row
  {
    if pairs == [] then [] else [pairs[0].row] + RowsIn(pairs[1..])
  }

  function CountOptions(spec: CountSpec): Options {
    Options(spec.whereTest, None, None, 0, spec.withDeleted, [])
  }

  /** The length of the unpaged collection loading the relation would attach. */
  function OwnCount(db: Db, entity: Entity, spec: CountSpec, o: Obj): nat {
    var rel := Named(RelationsOf(db, entity), spec.relation);
    if rel.None? || !Collection(rel.value) then 0 else |OwnRelated(db, rel.value, CountOptions(spec), o)|
  }

  function OwnCounts(db: Db, entity: Entity, specs: seq<CountSpec>, o: Obj): seq<Option<nat>> {
    seq(|specs|, i requires 0 <= i < |specs| => Some(OwnCount(db, entity, specs[i], o)))
  }

  /** An object with the counts and the relations asked for on it. */
  function OwnView(db: Db, o: Obj, specs: seq<CountSpec>, tree: Tree): View
    decreases tree, 1
  {
    View(o.entity, o.id, o.cells, OwnCounts(db, o.entity, specs, o), OwnRelateds(db, o, tree))
  }

  function OwnRelateds(db: Db, o: Obj, tree: Tree): seq<Related>
    decreases tree, 0
  {
    match tree
    case Leaf => []
    case Node(name, options, children, rest) => [OwnRelatedView(db, o, name, options, children)] + OwnRelateds(db, o, rest)
  }

  function OwnRelatedView(db: Db, o: Obj, name: string, options: Options, children: Tree): Related
    decreases children, 3
  {
    var rel := Named(RelationsOf(db, o.entity), name);
    if rel.None? then Unassigned
    else
      var rows := OwnRelated(db, rel.value, options, o);
      if Collection(rel.value) then ManyViews(OwnViews(db, rel.value.related, rows, options.withCount, children))
      else if rows == [] then OneView(None)
      else OneView(Some(OwnView(db, Fresh(rel.value.related, rows[|rows| - 1]), options.withCount, children)))
  }

  function OwnViews(db: Db, entity: Entity, rows: seq<Row>, specs: seq<CountSpec>, tree: Tree): (views: seq<View>)
    ensures |views| == |rows|
    ensures forall i :: 0 <= i < |rows| ==> views[i] == OwnView(db, Fresh(entity, rows[i]), specs, tree)
    decreases tree, 2, |rows|
  {
    if rows == [] then []
    else [OwnView(db, Fresh(entity, rows[0]), specs, tree)] + OwnViews(db, entity, rows[1..], specs, tree)
  }

  // ------------------------------------------------------ the batched load

  datatype State = State(heap: Heap, statements: nat)

  function Get(h: Heap, o: Ref): Obj {
    if o < |h| then h[o] else Obj("", None, map[], map[])
  }

  /** The distinct keys the instances are matched by, in first-seen order. */
  function MatchKeys(h: Heap, instances: seq<Ref>, rel: Relation, seen: seq<Key>): seq<Key> {
    if instances == [] then seen
    else
      var key := MatchKey(rel, Get(h, instances[0]));
      MatchKeys(h, instances[1..], rel, if key.None? || key.value in seen then seen else seen + [key.value])
  }

  function Hydrated(entity: Entity, pairs: seq<Pair>): (objs: seq<Obj>)
    ensures |objs| == |pairs| && forall i :: 0 <= i < |pairs| ==> objs[i] == Fresh(entity, pairs[i].row)
  {
    if pairs == [] then [] else [Fresh(entity, pairs[0].row)] + Hydrated(entity, pairs[1..])
  }

  /** The objects hydrated from the rows of one parent; the first row became
      object `base`. */
  function Group(pairs: seq<Pair>, base: Ref, key: Key): seq<Ref> {
    if pairs == [] then []
    else (if pairs[0].parent == key then [base] else []) + Group(pairs[1..], base + 1, key)
  }

  function ValueOf(rel: Relation, refs: seq<Ref>): Value {
    if Collection(rel) then Many(refs)
    else if refs == [] then One(None)
    else One(Some(refs[|refs| - 1]))
  }

  function ValueFor(rel: Relation, o: Obj, pairs: seq<Pair>, base: Ref): Value {
    var key := MatchKey(rel, o);
    ValueOf(rel, if key.None? then [] else Group(pairs, base, key.value))
  }

  /** `parent[relation] = ...` */
  function Assigned(o: Obj, rel: Relation, pairs: seq<Pair>, base: Ref): Obj {
    o.(props := o.props[rel.name := ValueFor(rel, o, pairs, base)])
  }

  /** The same for each instance in turn. */
  function AssignAll(h: Heap, instances: seq<Ref>, rel: Relation, pairs: seq<Pair>, base: Ref): Heap
    decreases |instances|
  {
    if instances == [] then h
    else
      var i := instances[0];
      AssignAll(if i < |h| then h[i := Assigned(h[i], rel, pairs, base)] else h, instances[1..], rel, pairs, base)
  }

  predicate NothingToRead(rel: Relation, options: Options, keys: seq<Key>) {
    keys == [] || (Collection(rel) && options.take == Some(0)) || (rel.Counterpart? && rel.ownerColumn.None?)
  }

  /** The batched statement of a relation over a slice of keys. */
  function Batched(db: Db, rel: Relation, options: Options): seq<Key> -> seq<Pair> {
    ids => Statement(Source(db, rel), ids, ShapeOf(db, rel, options))
  }

  /** One relation of one level: one statement per slice of distinct keys. */
  function LoadRelation(db: Db, st: State, instances: seq<Ref>, rel: Relation, options: Options): State
    requires db.sliceSize > 0
  {
    var keys := MatchKeys(st.heap, instances, rel, []);
    if NothingToRead(rel, options, keys) then
      State(AssignAll(st.heap, instances, rel, [], |st.heap|), st.statements)
    else
      var pairs := Sliced(Batched(db, rel, options), keys, db.sliceSize, 0);
      State(AssignAll(st.heap + Hydrated(rel.related, pairs), instances, rel, pairs, |st.heap|),
            st.statements + Slices(|keys|, db.sliceSize, 0))
  }

  /** The options `tree` gives a relation, if it names it. */
  function OptionsFor(tree: Tree, name: string): Option<Options> {
    if tree.Leaf? then None
    else if tree.name == name then Some(tree.options)
    else OptionsFor(tree.rest, name)
  }

  function LoadRelations(db: Db, st: State, instances: seq<Ref>, relations: seq<Relation>, tree: Tree): State
    requires db.sliceSize > 0
    decreases |relations|
  {
    if relations == [] then st
    else
      var options := OptionsFor(tree, relations[0].name);
      var st1 := if options.None? then st else LoadRelation(db, st, instances, relations[0], options.value);
      LoadRelations(db, st1, instances, relations[1..], tree)
  }

  function RefsIn(value: Value): seq<Ref> {
    match value
    case Many(refs) => refs
    case One(ref) => if ref.Some? then [ref.value] else []
    case Number(_) => []
  }

  function PropRefs(o: Obj, name: string): seq<Ref> {
    if name in o.props then RefsIn(o.props[name]) else []
  }

  function AddNew(refs: seq<Ref>, seen: seq<Ref>): seq<Ref> {
    if refs == [] then seen
    else AddNew(refs[1..], if refs[0] in seen then seen else seen + [refs[0]])
  }

  /** Every distinct object the instances hold under a property. */
  function Collect(h: Heap, instances: seq<Ref>, name: string, seen: seq<Ref>): seq<Ref> {
    if instances == [] then seen
    else Collect(h, instances[1..], name, AddNew(PropRefs(Get(h, instances[0]), name), seen))
  }

  /** An object with its count written. */
  function WithCount(db: Db, entity: Entity, spec: CountSpec, o: Obj): Obj {
    o.(props := o.props[spec.property := Number(OwnCount(db, entity, spec, o))])
  }

  /** The counts of all specs, written one after the other. */
  function WithCounts(db: Db, entity: Entity, specs: seq<CountSpec>, o: Obj): (r: Obj)
    ensures r.id == o.id
  {
    if specs == [] then o
    else WithCount(db, entity, specs[|specs| - 1], WithCounts(db, entity, specs[..|specs| - 1], o))
  }

  /** One GROUP BY statement per slice of parent keys for each spec that names a
      collection. */
  function CountCost(db: Db, entity: Entity, specs: seq<CountSpec>, keys: nat): nat
    requires db.sliceSize > 0
  {
    if specs == [] then 0
    else
      var rel := Named(RelationsOf(db, entity), specs[|specs| - 1].relation);
      CountCost(db, entity, specs[..|specs| - 1], keys)
      + (if rel.Some? && Collection(rel.value) then Slices(keys, db.sliceSize, 0) else 0)
  }

  /** Any relation whose parents are matched by their own key. */
  const ByOwnKey: Relation := Children("", "", "")

  function CountAll(db: Db, h: Heap, entity: Entity, instances: seq<Ref>, specs: seq<CountSpec>): Heap {
    seq(|h|, x requires 0 <= x < |h| => if x in instances then WithCounts(db, entity, specs, h[x]) else h[x])
  }

  /** Every requested count on every instance. */
  function LoadCounts(db: Db, st: State, entity: Entity, instances: seq<Ref>, specs: seq<CountSpec>): State
    requires db.sliceSize > 0
  {
    State(CountAll(db, st.heap, entity, instances, specs),
          st.statements + CountCost(db, entity, specs, |MatchKeys(st.heap, instances, ByOwnKey, [])|))
  }

  /** The levels below the relations already assigned to `instances`, and the
      counts asked for on the objects of each. */
  function LoadNested(db: Db, st: State, entity: Entity, instances: seq<Ref>, tree: Tree): State
    requires db.sliceSize > 0
    decreases tree, 0
  {
    match tree
    case Leaf => st
    case Node(name, options, children, rest) =>
      var rel := Named(RelationsOf(db, entity), name);
      var related := Collect(st.heap, instances, name, []);
      var st1 := if children.Leaf? || rel.None? || related == [] then st
                 else LoadLevel(db, st, rel.value.related, related, children);
      var st2 := if rel.None? || related == [] then st1
                 else LoadCounts(db, st1, rel.value.related, related, options.withCount);
      LoadNested(db, st2, entity, instances, rest)
  }

  /** One level of the tree and, through it, the levels below. */
  function LoadLevel(db: Db, st: State, entity: Entity, instances: seq<Ref>, tree: Tree): State
    requires db.sliceSize > 0
    decreases tree, 1
  {
    LoadNested(db, LoadRelations(db, st, instances, RelationsOf(db, entity), tree), entity, instances, tree)
  }

  // -------------------------------------------------- what objects show

  function ShownCount(o: Obj, spec: CountSpec): Option<nat> {
    if spec.property in o.props && o.props[spec.property].Number? then Some(o.props[spec.property].n) else None
  }

  function ShownCounts(o: Obj, specs: seq<CountSpec>): seq<Option<nat>> {
    seq(|specs|, i requires 0 <= i < |specs| => ShownCount(o, specs[i]))
  }

  function ViewOf(h: Heap, o: Ref, specs: seq<CountSpec>, tree: Tree): View
    decreases tree, 1
  {
    View(Get(h, o).entity, Get(h, o).id, Get(h, o).cells, ShownCounts(Get(h, o), specs), Relateds(h, o, tree))
  }

  function Relateds(h: Heap, o: Ref, tree: Tree): seq<Related>
    decreases tree, 0
  {
    match tree
    case Leaf => []
    case Node(name, options, children, rest) => [RelatedView(h, o, name, options.withCount, children)] + Relateds(h, o, rest)
  }

  function RelatedView(h: Heap, o: Ref, name: string, specs: seq<CountSpec>, children: Tree): Related
    decreases children, 3
  {
    if name !in Get(h, o).props then Unassigned
    else
      match Get(h, o).props[name]
      case Many(refs) => ManyViews(ViewsOf(h, refs, specs, children))
      case One(ref) => OneView(if ref.None? then None else Some(ViewOf(h, ref.value, specs, children)))
      case Number(_) => Unassigned
  }

  function ViewsOf(h: Heap, refs: seq<Ref>, specs: seq<CountSpec>, tree: Tree): (views: seq<View>)
    ensures |views| == |refs| && forall i :: 0 <= i < |refs| ==> views[i] == ViewOf(h, refs[i], specs, tree)
    decreases tree, 2, |refs|
  {
    if refs == [] then [] else [ViewOf(h, refs[0], specs, tree)] + ViewsOf(h, refs[1..], specs, tree)
  }
}
