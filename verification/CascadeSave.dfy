/** What a cascading save does: it follows the saving relations of a possibly
    cyclic graph of objects, cut off at the objects being saved up the stack. */
module CascadeSave {
  import opened Metadata

  /** The identity of an object in the caller's graph. */
  type Ref = nat

  // ---------------------------------------------------------------- metadata

  /** A relation whose row holds the target's key: ManyToOne, or the owning
      side of a OneToOne. */
  datatype Reference = Reference(property: string, related: Entity, joinColumn: Option<string>,
                                 fkProperty: Option<string>, saves: bool, manyToOne: bool)

  function ManyToOneReferences(relations: seq<ManyToOne>): seq<Reference> {
    if relations == [] then []
    else
      var r := relations[0];
      [Reference(r.property, r.related, r.joinColumn, r.fkProperty, CascadesSave(r.cascade), true)]
      + ManyToOneReferences(relations[1..])
  }

  function OwningReferences(relations: seq<OneToOne>): seq<Reference> {
    if relations == [] then []
    else
      var r := relations[0];
      var rest := OwningReferences(relations[1..]);
      if r.joinColumn.None? then rest
      else [Reference(r.property, r.related, r.joinColumn, r.fkProperty, CascadesSave(r.cascade), false)] + rest
  }

  function References(schema: Schema, entity: Entity): seq<Reference> {
    ManyToOneReferences(DeclaredBy(schema, entity).manyToOne) + OwningReferences(DeclaredBy(schema, entity).oneToOne)
  }

  /** The properties of a child that take the parent's key. */
  datatype FkWriteKeys = FkWriteKeys(fkColumn: string, shadowKey: string, fkProperty: Option<string>)

  function FkKeysOfChild(schema: Schema, rel: OneToMany): FkWriteKeys {
    var m := MatchingManyToOne(DeclaredBy(schema, rel.related).manyToOne, rel.mappedBy);
    if m.None? then FkWriteKeys(rel.mappedBy, rel.mappedBy + "Id", None)
    else FkWriteKeys(if m.value.joinColumn.Some? then m.value.joinColumn.value else rel.mappedBy,
                     m.value.property + "Id", m.value.fkProperty)
  }

  function FkKeysOfCounterpart(owner: OneToOne): FkWriteKeys
    requires owner.joinColumn.Some?
  {
    FkWriteKeys(owner.joinColumn.value, owner.property + "Id", owner.fkProperty)
  }

  // ------------------------------------------------------------ object graph

  /** The relation properties of an object that hold objects; a cascade reads
      them and never writes them. */
  datatype Links = Links(entity: Entity, one: map<string, Ref>, many: map<string, seq<Ref>>)

  type Graph = map<Ref, Links>

  /** Every object a relation property holds is in the graph. */
  predicate Complete(g: Graph) {
    forall v :: v in g ==>
      && (forall p :: p in g[v].one ==> g[v].one[p] in g)
      && (forall p, i :: p in g[v].many && 0 <= i < |g[v].many[p]| ==> g[v].many[p][i] in g)
  }

  /** A reference the cascade saves through, and the object it holds. */
  datatype Up = Up(target: Ref, reference: Reference)

  function UpsAlong(references: seq<Reference>, links: Links): (ups: seq<Up>)
    ensures forall u :: u in ups ==> u.reference in references && u.reference.saves
                                     && u.reference.property in links.one && u.target == links.one[u.reference.property]
    ensures forall r :: r in references && r.saves && r.property in links.one ==> Up(links.one[r.property], r) in ups
  {
    if references == [] then []
    else
      var r := references[0];
      var rest := UpsAlong(references[1..], links);
      if r.property in links.one && r.saves then [Up(links.one[r.property], r)] + rest else rest
  }

  /** A dependent the cascade saves, and where it takes the parent's key. */
  datatype Down = Down(target: Ref, keys: FkWriteKeys)

  function DownsTo(children: seq<Ref>, keys: FkWriteKeys): (downs: seq<Down>)
    ensures |downs| == |children|
    ensures forall i :: 0 <= i < |children| ==> downs[i] == Down(children[i], keys)
  {
    if children == [] then [] else [Down(children[0], keys)] + DownsTo(children[1..], keys)
  }

  function ChildDowns(schema: Schema, relations: seq<OneToMany>, links: Links): seq<Down> {
    if relations == [] then []
    else
      var rel := relations[0];
      var rest := ChildDowns(schema, relations[1..], links);
      if rel.property !in links.many || !CascadesSave(rel.cascade) then rest
      else DownsTo(links.many[rel.property], FkKeysOfChild(schema, rel)) + rest
  }

  function CounterpartDowns(schema: Schema, relations: seq<OneToOne>, links: Links): seq<Down> {
    if relations == [] then []
    else
      var rel := relations[0];
      var rest := CounterpartDowns(schema, relations[1..], links);
      if rel.joinColumn.Some? || rel.inverseSide.None? || !CascadesSave(rel.cascade) || rel.property !in links.one then rest
      else
        var owner := OwningOneToOne(DeclaredBy(schema, rel.related).oneToOne, rel.inverseSide.value);
        if owner.None? then rest
        else [Down(links.one[rel.property], FkKeysOfCounterpart(owner.value))] + rest
  }

  function Ups(schema: Schema, links: Links): seq<Up> {
    UpsAlong(References(schema, links.entity), links)
  }

  function Downs(schema: Schema, links: Links): seq<Down> {
    ChildDowns(schema, DeclaredBy(schema, links.entity).oneToMany, links)
    + CounterpartDowns(schema, DeclaredBy(schema, links.entity).oneToOne, links)
  }

  /** The targets of a save stay in a complete graph. */
  predicate Inside(g: Graph, ups: seq<Up>, downs: seq<Down>) {
    (forall u :: u in ups ==> u.target in g) && (forall d :: d in downs ==> d.target in g)
  }

  lemma {:induction false} ChildDownsInside(schema: Schema, g: Graph, v: Ref, relations: seq<OneToMany>)
    requires Complete(g) && v in g
    ensures forall d :: d in ChildDowns(schema, relations, g[v]) ==> d.target in g
  {
    if relations != [] { ChildDownsInside(schema, g, v, relations[1..]); }
  }

  lemma {:induction false} CounterpartDownsInside(schema: Schema, g: Graph, v: Ref, relations: seq<OneToOne>)
    requires Complete(g) && v in g
    ensures forall d :: d in CounterpartDowns(schema, relations, g[v]) ==> d.target in g
  {
    if relations != [] { CounterpartDownsInside(schema, g, v, relations[1..]); }
  }

  lemma LinksInside(schema: Schema, g: Graph, v: Ref)
    requires Complete(g) && v in g
    ensures Inside(g, Ups(schema, g[v]), Downs(schema, g[v]))
  {
    ChildDownsInside(schema, g, v, DeclaredBy(schema, g[v].entity).oneToMany);
    CounterpartDownsInside(schema, g, v, DeclaredBy(schema, g[v].entity).oneToOne);
  }

  // ------------------------------------------------------------------- state

  /** What a save writes on an object: its generated key, and the properties
      that hold foreign keys. */
  datatype Obj = Obj(key: Option<Key>, fields: map<string, Key>)

  /** One INSERT or UPDATE, and the foreign keys its row held. */
  datatype Write = Write(ref: Ref, id: Id, inserted: bool, cells: map<string, Key>)

  datatype World = World(objs: map<Ref, Obj>, rows: map<Id, map<string, Key>>, nextKey: Key, log: seq<Write>)

  function ObjOf(w: World, v: Ref): Obj {
    if v in w.objs then w.objs[v] else Obj(None, map[])
  }

  function KeyOf(w: World, v: Ref): Option<Key> {
    ObjOf(w, v).key
  }

  function SetObj(w: World, v: Ref, o: Obj): World {
    w.(objs := w.objs[v := o])
  }

  function Assigned(o: Obj, keys: FkWriteKeys, key: Key): Obj {
    var fields := o.fields[keys.fkColumn := key][keys.shadowKey := key];
    o.(fields := if keys.fkProperty.Some? then fields[keys.fkProperty.value := key] else fields)
  }

  function AssignFk(w: World, child: Ref, keys: FkWriteKeys, key: Key): World {
    SetObj(w, child, Assigned(ObjOf(w, child), keys, key))
  }

  function AssignKey(w: World, v: Ref, key: Key): World {
    SetObj(w, v, ObjOf(w, v).(key := Some(key)))
  }

  /** The `<property>Id` value of a relation, or its configured property's. */
  function Shadow(o: Obj, r: Reference): Option<Key> {
    if r.property + "Id" in o.fields then Some(o.fields[r.property + "Id"])
    else if r.fkProperty.Some? && r.fkProperty.value in o.fields then Some(o.fields[r.fkProperty.value])
    else None
  }

  /** The key a row stores for a relation: the held object's, or, while that
      object has none, the shadow's. */
  function ForeignKey(w: World, v: Ref, links: Links, r: Reference): Option<Key> {
    if r.property in links.one && KeyOf(w, links.one[r.property]).Some? then KeyOf(w, links.one[r.property])
    else Shadow(ObjOf(w, v), r)
  }

  function Cells(w: World, v: Ref, links: Links, references: seq<Reference>): map<string, Key> {
    if references == [] then map[]
    else
      var r := references[|references| - 1];
      var rest := Cells(w, v, links, references[..|references| - 1]);
      if r.joinColumn.None? || ForeignKey(w, v, links, r).None? then rest
      else rest[r.joinColumn.value := ForeignKey(w, v, links, r).value]
  }

  function RowCells(schema: Schema, w: World, v: Ref, links: Links): map<string, Key> {
    Cells(w, v, links, References(schema, links.entity))
  }

  /** The key of the row a write stores: the object's, or a generated one. */
  function SavedKey(w: World, v: Ref): Key {
    if KeyOf(w, v).Some? then KeyOf(w, v).value else w.nextKey
  }

  /** INSERT for an object without its key, UPDATE otherwise. The generated key
      is not on the object yet. */
  function WriteRow(schema: Schema, w: World, v: Ref, links: Links): World {
    var cells := RowCells(schema, w, v, links);
    var id := Id(links.entity, SavedKey(w, v));
    var inserted := KeyOf(w, v).None?;
    var rows := if inserted then w.rows[id := cells]
                else if id in w.rows then w.rows[id := w.rows[id] + cells] else w.rows;
    World(w.objs, rows, if inserted then w.nextKey + 1 else w.nextKey,
          w.log + [Write(v, id, inserted, cells)])
  }

  // ------------------------------------------------------------- the cascade

  lemma FewerLeft<T>(all: set<T>, chain: set<T>, v: T)
    requires v in all && v !in chain
    ensures |all - (chain + {v})| < |all - chain|
  {
    assert all - chain == (all - (chain + {v})) + {v};
  }

  /** Saves `v`, called while the objects of `chain` are being saved. */
  function Save(schema: Schema, g: Graph, w: World, v: Ref, chain: set<Ref>): World
    requires Complete(g) && v in g && v !in chain
    decreases |g.Keys - chain|, 0
  {
    FewerLeft(g.Keys, chain, v);
    LinksInside(schema, g, v);
    var w1 := SaveUps(schema, g, w, v, Ups(schema, g[v]), chain + {v});
    var w2 := WriteRow(schema, w1, v, g[v]);
    var w3 := SaveDowns(schema, g, w2, SavedKey(w1, v), Downs(schema, g[v]), chain + {v});
    AssignKey(w3, v, SavedKey(w1, v))
  }

  /** A ManyToOne also copies the saved key to the join column; the target of a
      OneToOne already holds it. */
  function CopyKey(w: World, v: Ref, u: Up): World {
    if u.reference.manyToOne && u.reference.joinColumn.Some? && KeyOf(w, u.target).Some? then
      var o := ObjOf(w, v);
      SetObj(w, v, o.(fields := o.fields[u.reference.joinColumn.value := KeyOf(w, u.target).value]))
    else w
  }

  function SaveUps(schema: Schema, g: Graph, w: World, v: Ref, ups: seq<Up>, chain: set<Ref>): World
    requires Complete(g) && Inside(g, ups, [])
    decreases |g.Keys - chain|, 1 + |ups|
  {
    if ups == [] then w
    else
      var w1 := if ups[0].target in chain then w
                else CopyKey(Save(schema, g, w, ups[0].target, chain), v, ups[0]);
      SaveUps(schema, g, w1, v, ups[1..], chain)
  }

  function SaveDowns(schema: Schema, g: Graph, w: World, key: Key, downs: seq<Down>, chain: set<Ref>): World
    requires Complete(g) && Inside(g, [], downs)
    decreases |g.Keys - chain|, 1 + |downs|
  {
    if downs == [] then w
    else
      var d := downs[0];
      var w1 := if d.target in chain then w
                else Save(schema, g, AssignFk(w, d.target, d.keys, key), d.target, chain);
      SaveDowns(schema, g, w1, key, downs[1..], chain)
  }
}
