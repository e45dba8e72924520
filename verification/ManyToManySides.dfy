/** A ManyToMany relation declared on both sides: the inverse side borrows the
    owner's join table with its two columns swapped. */
module ManyToManySides {
  import opened Metadata
  import opened RelationRows
  import opened RelationLoading

  datatype JoinTable = JoinTable(name: string, joinColumn: string, inverseColumn: string)

  /** One declared side: the owner has a join table, the inverse a `mappedBy`. */
  datatype Side = Side(property: string, related: Entity, joinTable: Option<JoinTable>, mappedBy: Option<string>)

  type Sides = map<Entity, seq<Side>>

  function SidesOf(sides: Sides, entity: Entity): seq<Side> {
    if entity in sides then sides[entity] else []
  }

  /** The first side of that name that has a join table. */
  function OwnerNamed(sides: seq<Side>, property: string): Option<JoinTable> {
    if sides == [] then None
    else if sides[0].property == property && sides[0].joinTable.Some? then sides[0].joinTable
    else OwnerNamed(sides[1..], property)
  }

  function Resolve(sides: Sides, side: Side): Option<JoinTable> {
    if side.joinTable.Some? then side.joinTable
    else if side.mappedBy.None? then None
    else
      var owner := OwnerNamed(SidesOf(sides, side.related), side.mappedBy.value);
      if owner.None? then None
      else Some(JoinTable(owner.value.name, owner.value.inverseColumn, owner.value.joinColumn))
  }

  /** The relation a side is read as. */
  function AsLinked(side: Side, table: JoinTable): Relation {
    Linked(side.property, side.related, table.name, table.joinColumn, table.inverseColumn)
  }

  function JoinRows(db: Db, name: string): seq<map<string, Key>> {
    if name in db.joins then db.joins[name] else []
  }

  /** How many rows of a join table link two keys. */
  function Links(joins: seq<map<string, Key>>, from: string, to: string, a: Key, b: Key): nat {
    if joins == [] then 0
    else
      var j := joins[0];
      (if from in j && to in j && j[from] == a && j[to] == b then 1 else 0) + Links(joins[1..], from, to, a, b)
  }

  lemma {:induction false} LinksConverse(joins: seq<map<string, Key>>, from: string, to: string, a: Key, b: Key)
    ensures Links(joins, from, to, a, b) == Links(joins, to, from, b, a)
  {
    if joins != [] { LinksConverse(joins[1..], from, to, a, b); }
  }

  predicate DistinctKeys(rows: seq<Row>) {
    forall i, j :: 0 <= i < j < |rows| ==> rows[i].key != rows[j].key
  }

  // ----------------------------------------------- how often a row is read

  lemma {:induction false} JoinedMultiplicity(row: Row, joins: seq<map<string, Key>>, from: string, to: string, p: Pair)
    ensures multiset(JoinedTo(row, joins, from, to))[p]
            == if p.row == row then Links(joins, from, to, p.parent, row.key) else 0
  {
    if joins != [] { JoinedMultiplicity(row, joins[1..], from, to, p); }
  }

  lemma {:induction false} SourceMultiplicity(rows: seq<Row>, joins: seq<map<string, Key>>, from: string, to: string, p: Pair)
    requires DistinctKeys(rows)
    ensures multiset(ByJoin(rows, joins, from, to))[p]
            == if p.row in rows then Links(joins, from, to, p.parent, p.row.key) else 0
  {
    if rows != [] {
      SourceMultiplicity(rows[1..], joins, from, to, p);
      JoinedMultiplicity(rows[0], joins, from, to, p);
      assert rows == [rows[0]] + rows[1..];
      assert p.row in rows[1..] ==> p.row != rows[0];
    }
  }

  lemma {:induction false} OfParentMultiplicity(pairs: seq<Pair>, parent: Key, p: Pair)
    ensures multiset(OfParent(pairs, parent))[p] == if p.parent == parent then multiset(pairs)[p] else 0
  {
    if pairs != [] {
      OfParentMultiplicity(pairs[1..], parent, p);
      assert pairs == [pairs[0]] + pairs[1..];
    }
  }

  lemma {:induction false} SelectedMultiplicity(pairs: seq<Pair>, ids: seq<Key>, shape: Shape, p: Pair)
    ensures multiset(Selected(pairs, ids, shape))[p]
            == if p.parent in ids && Keeps(shape, p.row) then multiset(pairs)[p] else 0
  {
    if pairs != [] {
      SelectedMultiplicity(pairs[1..], ids, shape, p);
      assert pairs == [pairs[0]] + pairs[1..];
    }
  }

  lemma {:induction false} RowsMultiplicity(pairs: seq<Pair>, parent: Key, row: Row)
    requires forall p :: p in pairs ==> p.parent == parent
    ensures multiset(RowsIn(pairs))[row] == multiset(pairs)[Pair(parent, row)]
  {
    if pairs != [] {
      assert pairs == [pairs[0]] + pairs[1..];
      RowsMultiplicity(pairs[1..], parent, row);
    }
  }

  /** Unpaged, the order and the grouping lose and repeat no row. */
  lemma OwnMultiplicity(pairs: seq<Pair>, parent: Key, shape: Shape, row: Row)
    requires !Pages(shape.page)
    ensures multiset(RowsIn(OwnRows(pairs, parent, shape)))[row]
            == if Keeps(shape, row) then multiset(pairs)[Pair(parent, row)] else 0
  {
    var p := Pair(parent, row);
    var own := Selected(OfParent(pairs, parent), [parent], shape);
    OfParentMultiplicity(pairs, parent, p);
    SelectedMultiplicity(OfParent(pairs, parent), [parent], shape, p);
    if shape.orderBy.Some? { SortKeepsRows(ByRelation(shape.orderBy.value), own); }
    var rows := OwnRows(pairs, parent, shape);
    assert multiset(rows) == multiset(own);
    forall q | q in rows ensures q.parent == parent {
      assert q in multiset(own);
      SelectedMultiplicity(OfParent(pairs, parent), [parent], shape, q);
    }
    RowsMultiplicity(rows, parent, row);
  }

  /** Reading one side returns a related row once per join row that links it,
      if the row passes the read's scoping. */
  lemma LinkedMultiplicity(db: Db, side: Side, table: JoinTable, options: Options, o: Obj, row: Row)
    requires options.take.None? && options.skip == 0
    requires o.id.Some? && row in RowsOf(db, side.related) && DistinctKeys(RowsOf(db, side.related))
    ensures var rel := AsLinked(side, table);
            multiset(OwnRelated(db, rel, options, o))[row]
            == if Keeps(ShapeOf(db, rel, options), row)
               then Links(JoinRows(db, table.name), table.joinColumn, table.inverseColumn, o.id.value, row.key) else 0
  {
    var rel := AsLinked(side, table);
    SourceMultiplicity(RowsOf(db, side.related), JoinRows(db, table.name), table.joinColumn, table.inverseColumn,
                       Pair(o.id.value, row));
    OwnMultiplicity(Source(db, rel), o.id.value, ShapeOf(db, rel, options), row);
  }

  // ---------------------------------------------------------- the two sides

  /** `inverse` is declared as the other side of `owner`, and its `mappedBy`
      finds it. */
  predicate Opposite(sides: Sides, owner: Side, inverse: Side) {
    && owner.joinTable.Some? && inverse.joinTable.None? && inverse.mappedBy == Some(owner.property)
    && OwnerNamed(SidesOf(sides, inverse.related), owner.property) == owner.joinTable
  }

  lemma OppositeSwaps(sides: Sides, owner: Side, inverse: Side)
    requires Opposite(sides, owner, inverse)
    ensures var t := Resolve(sides, owner).value;
            Resolve(sides, inverse) == Some(JoinTable(t.name, t.inverseColumn, t.joinColumn))
  {}

  /** The two sides are converse relations: `a` reads `b` as often as `b` reads
      `a`, exactly when both rows pass scoping, neither does, or nothing links
      them. */
  lemma SidesAreConverseIff(db: Db, sides: Sides, owner: Side, inverse: Side, a: Row, b: Row,
                            fromOwner: Options, fromInverse: Options)
    requires Opposite(sides, owner, inverse)
    requires a in RowsOf(db, inverse.related) && b in RowsOf(db, owner.related)
    requires DistinctKeys(RowsOf(db, inverse.related)) && DistinctKeys(RowsOf(db, owner.related))
    requires fromOwner.take.None? && fromOwner.skip == 0 && fromInverse.take.None? && fromInverse.skip == 0
    ensures var r, s := AsLinked(owner, Resolve(sides, owner).value), AsLinked(inverse, Resolve(sides, inverse).value);
            var t := Resolve(sides, owner).value;
            multiset(OwnRelated(db, r, fromOwner, Fresh(inverse.related, a)))[b]
            == multiset(OwnRelated(db, s, fromInverse, Fresh(owner.related, b)))[a]
            <==> (Keeps(ShapeOf(db, r, fromOwner), b) == Keeps(ShapeOf(db, s, fromInverse), a)
                  || Links(JoinRows(db, t.name), t.joinColumn, t.inverseColumn, a.key, b.key) == 0)
  {
    var t, u := Resolve(sides, owner).value, Resolve(sides, inverse).value;
    OppositeSwaps(sides, owner, inverse);
    LinkedMultiplicity(db, owner, t, fromOwner, Fresh(inverse.related, a), b);
    LinkedMultiplicity(db, inverse, u, fromInverse, Fresh(owner.related, b), a);
    LinksConverse(JoinRows(db, t.name), t.joinColumn, t.inverseColumn, a.key, b.key);
  }
}
