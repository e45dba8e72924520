/** The relation metadata the cascades read: what each entity declares, and
    which cascade operations each relation lists. */
module Metadata {

  datatype Option<+T> = None | Some(value: T)

  type Entity = string
  type Key = int

  /** The identity of a stored row. */
  datatype Id = Id(entity: Entity, key: Key)

  datatype CascadeType = InsertOp | UpdateOp | DeleteOp | RemoveOp

  /** The `cascade` option: true, or the listed operations (none when unset). */
  datatype Cascade = All | Only(types: set<CascadeType>)

  predicate CascadesDelete(cascade: Cascade) {
    cascade.All? || DeleteOp in cascade.types || RemoveOp in cascade.types
  }

  predicate CascadesSave(cascade: Cascade) {
    cascade.All? || InsertOp in cascade.types || UpdateOp in cascade.types
  }

  datatype OneToMany = OneToMany(property: string, related: Entity, mappedBy: string, cascade: Cascade)

  datatype ManyToOne = ManyToOne(property: string, related: Entity, joinColumn: Option<string>,
                                 fkProperty: Option<string>, cascade: Cascade)

  /** The owning side has a join column; the inverse side names the owner's property. */
  datatype OneToOne = OneToOne(property: string, related: Entity, joinColumn: Option<string>,
                               inverseSide: Option<string>, fkProperty: Option<string>, cascade: Cascade)

  datatype Declared = Declared(oneToMany: seq<OneToMany>, manyToOne: seq<ManyToOne>,
                               oneToOne: seq<OneToOne>, softDeletable: bool)

  type Schema = map<Entity, Declared>

  function DeclaredBy(schema: Schema, entity: Entity): Declared {
    if entity in schema then schema[entity] else Declared([], [], [], false)
  }

  /** The ManyToOne of the child that `mappedBy` names, if it declares one. */
  function MatchingManyToOne(relations: seq<ManyToOne>, mappedBy: string): (r: Option<ManyToOne>)
    ensures r.Some? ==> r.value in relations && r.value.property == mappedBy
    ensures r.None? ==> forall m :: m in relations ==> m.property != mappedBy
  {
    if relations == [] then None
    else if relations[0].property == mappedBy then Some(relations[0])
    else MatchingManyToOne(relations[1..], mappedBy)
  }

  /** The owning OneToOne named `property`: the one with a join column. */
  function OwningOneToOne(relations: seq<OneToOne>, property: string): (r: Option<OneToOne>)
    ensures r.Some? ==> r.value in relations && r.value.property == property && r.value.joinColumn.Some?
    ensures r.None? ==> forall o :: o in relations ==> o.property != property || o.joinColumn.None?
  {
    if relations == [] then None
    else if relations[0].property == property && relations[0].joinColumn.Some? then Some(relations[0])
    else OwningOneToOne(relations[1..], property)
  }
}
