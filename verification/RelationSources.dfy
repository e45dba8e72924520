/** The rows a relation reads from, position by position in the stored tables. */
module RelationSources {
  import opened Metadata
  import opened Positions
  import opened RelationRows
  import opened RelationLoading
  import opened ManyToManySides

  // ------------------------------------------------------------ foreign keys

  ghost predicate HasKey(rows: seq<Row>, p: nat, column: string) {
    p < |rows| && column in rows[p].cells
  }

  /** `pairs` are the rows at these positions, each under the key it holds. */
  ghost predicate PairedBy(rows: seq<Row>, column: string, at: seq<nat>, pairs: seq<Pair>) {
    && |pairs| == |at| && Rising(at)
    && forall i :: 0 <= i < |at| ==>
         HasKey(rows, at[i], column) && pairs[i] == Pair(rows[at[i]].cells[column], rows[at[i]])
  }

  lemma PairedFurther(rows: seq<Row>, column: string, at: seq<nat>, pairs: seq<Pair>)
    requires rows != [] && PairedBy(rows[1..], column, at, pairs)
    requires forall p: nat :: p in at <==> HasKey(rows[1..], p, column)
    ensures PairedBy(rows, column, OneFurther(at), pairs)
    ensures forall p: nat :: p in OneFurther(at) <==> p > 0 && HasKey(rows, p, column)
  {
    forall i | 0 <= i < |at| ensures HasKey(rows, at[i] + 1, column) && rows[at[i] + 1] == rows[1..][at[i]] {
      assert HasKey(rows[1..], at[i], column);
    }
    forall p: nat ensures p in OneFurther(at) <==> p > 0 && HasKey(rows, p, column) {
      FurtherHas(at, p);
      if p > 0 { assert HasKey(rows, p, column) <==> HasKey(rows[1..], p - 1, column); }
    }
  }

  lemma PairedFirst(rows: seq<Row>, column: string, at: seq<nat>, pairs: seq<Pair>)
    requires HasKey(rows, 0, column) && PairedBy(rows, column, at, pairs) && forall p :: p in at ==> p > 0
    ensures PairedBy(rows, column, [0] + at, [Pair(rows[0].cells[column], rows[0])] + pairs)
  {
    forall i | 0 <= i < |at| ensures at[i] > 0 { assert at[i] in at; }
  }

  /** A read by foreign key pairs every row that holds one with it, in the stored
      order. */
  lemma {:induction false} ForeignKeysPair(rows: seq<Row>, column: string) returns (at: seq<nat>)
    ensures PairedBy(rows, column, at, ByForeignKey(rows, column))
    ensures forall p: nat :: p in at <==> HasKey(rows, p, column)
  {
    if rows == [] {
      at := [];
    } else {
      var at1 := ForeignKeysPair(rows[1..], column);
      var rest := ByForeignKey(rows[1..], column);
      PairedFurther(rows, column, at1, rest);
      at := OneFurther(at1);
      if HasKey(rows, 0, column) {
        PairedFirst(rows, column, at, rest);
        at := [0] + at;
      }
    }
  }

  /** A read by primary key pairs every row with its own. */
  lemma {:induction false} KeysPair(rows: seq<Row>)
    ensures |ByKey(rows)| == |rows| && forall i :: 0 <= i < |rows| ==> ByKey(rows)[i] == Pair(rows[i].key, rows[i])
  {
    if rows != [] { KeysPair(rows[1..]); }
  }

  // ------------------------------------------------------------- join tables

  /** The join row at `p` links the row to a parent. */
  ghost predicate LinksTo(joins: seq<map<string, Key>>, p: nat, joinColumn: string, inverseColumn: string, key: Key) {
    p < |joins| && joinColumn in joins[p] && inverseColumn in joins[p] && joins[p][inverseColumn] == key
  }

  ghost predicate LinkedBy(row: Row, joins: seq<map<string, Key>>, joinColumn: string, inverseColumn: string, at: seq<nat>,
                           pairs: seq<Pair>) {
    && |pairs| == |at| && Rising(at)
    && forall i :: 0 <= i < |at| ==>
         LinksTo(joins, at[i], joinColumn, inverseColumn, row.key) && pairs[i] == Pair(joins[at[i]][joinColumn], row)
  }

  lemma LinkedFurther(row: Row, joins: seq<map<string, Key>>, joinColumn: string, inverseColumn: string, at: seq<nat>,
                      pairs: seq<Pair>)
    requires joins != [] && LinkedBy(row, joins[1..], joinColumn, inverseColumn, at, pairs)
    requires forall p: nat :: p in at <==> LinksTo(joins[1..], p, joinColumn, inverseColumn, row.key)
    ensures LinkedBy(row, joins, joinColumn, inverseColumn, OneFurther(at), pairs)
    ensures forall p: nat :: p in OneFurther(at) <==> p > 0 && LinksTo(joins, p, joinColumn, inverseColumn, row.key)
  {
    forall i | 0 <= i < |at|
      ensures LinksTo(joins, at[i] + 1, joinColumn, inverseColumn, row.key) && joins[at[i] + 1] == joins[1..][at[i]]
    {
      assert LinksTo(joins[1..], at[i], joinColumn, inverseColumn, row.key);
    }
    forall p: nat ensures p in OneFurther(at) <==> p > 0 && LinksTo(joins, p, joinColumn, inverseColumn, row.key) {
      FurtherHas(at, p);
      if p > 0 {
        assert LinksTo(joins, p, joinColumn, inverseColumn, row.key)
               <==> LinksTo(joins[1..], p - 1, joinColumn, inverseColumn, row.key);
      }
    }
  }

  lemma LinkedFirst(row: Row, joins: seq<map<string, Key>>, joinColumn: string, inverseColumn: string, at: seq<nat>,
                    pairs: seq<Pair>)
    requires LinksTo(joins, 0, joinColumn, inverseColumn, row.key)
    requires LinkedBy(row, joins, joinColumn, inverseColumn, at, pairs) && forall p :: p in at ==> p > 0
    ensures LinkedBy(row, joins, joinColumn, inverseColumn, [0] + at, [Pair(joins[0][joinColumn], row)] + pairs)
  {
    forall i | 0 <= i < |at| ensures at[i] > 0 { assert at[i] in at; }
  }

  /** Joined to the join table a row is paired with the parent of every join row
      that names it, in the join table's order. */
  lemma {:induction false} JoinsPair(row: Row, joins: seq<map<string, Key>>, joinColumn: string, inverseColumn: string)
    returns (at: seq<nat>)
    ensures LinkedBy(row, joins, joinColumn, inverseColumn, at, JoinedTo(row, joins, joinColumn, inverseColumn))
    ensures forall p: nat :: p in at <==> LinksTo(joins, p, joinColumn, inverseColumn, row.key)
  {
    if joins == [] {
      at := [];
    } else {
      var at1 := JoinsPair(row, joins[1..], joinColumn, inverseColumn);
      var rest := JoinedTo(row, joins[1..], joinColumn, inverseColumn);
      LinkedFurther(row, joins, joinColumn, inverseColumn, at1, rest);
      at := OneFurther(at1);
      if LinksTo(joins, 0, joinColumn, inverseColumn, row.key) {
        LinkedFirst(row, joins, joinColumn, inverseColumn, at, rest);
        at := [0] + at;
      }
    }
  }

  function Joined(parts: seq<seq<Pair>>): seq<Pair> {
    if parts == [] then [] else parts[0] + Joined(parts[1..])
  }

  ghost predicate LinkedAll(row: Row, joins: seq<map<string, Key>>, joinColumn: string, inverseColumn: string,
                            pairs: seq<Pair>) {
    exists at :: LinkedBy(row, joins, joinColumn, inverseColumn, at, pairs)
                 && forall p: nat :: p in at <==> LinksTo(joins, p, joinColumn, inverseColumn, row.key)
  }

  /** For each related row in turn, its parents by all join rows that name it. */
  ghost predicate Linkage(rows: seq<Row>, joins: seq<map<string, Key>>, joinColumn: string, inverseColumn: string,
                          parts: seq<seq<Pair>>) {
    |parts| == |rows| && forall i :: 0 <= i < |rows| ==> LinkedAll(rows[i], joins, joinColumn, inverseColumn, parts[i])
  }

  lemma LinkageNext(row: Row, rest: seq<Row>, joins: seq<map<string, Key>>, joinColumn: string, inverseColumn: string,
                    part: seq<Pair>, parts: seq<seq<Pair>>)
    requires LinkedAll(row, joins, joinColumn, inverseColumn, part) && Linkage(rest, joins, joinColumn, inverseColumn, parts)
    ensures Linkage([row] + rest, joins, joinColumn, inverseColumn, [part] + parts)
    ensures Joined([part] + parts) == part + Joined(parts)
  {
    assert ([part] + parts)[1..] == parts;
  }

  /** The related rows one after the other, each as often as join rows name it. */
  lemma {:induction false} RowsJoin(rows: seq<Row>, joins: seq<map<string, Key>>, joinColumn: string, inverseColumn: string)
    returns (parts: seq<seq<Pair>>)
    ensures ByJoin(rows, joins, joinColumn, inverseColumn) == Joined(parts)
    ensures Linkage(rows, joins, joinColumn, inverseColumn, parts)
  {
    if rows == [] {
      parts := [];
    } else {
      var at := JoinsPair(rows[0], joins, joinColumn, inverseColumn);
      var rest := RowsJoin(rows[1..], joins, joinColumn, inverseColumn);
      var part := JoinedTo(rows[0], joins, joinColumn, inverseColumn);
      LinkageNext(rows[0], rows[1..], joins, joinColumn, inverseColumn, part, rest);
      assert rows == [rows[0]] + rows[1..];
      parts := [part] + rest;
    }
  }

  // ----------------------------------------------------------------- sources

  /** Which stored rows each kind of relation reads, and under which key. */
  lemma SourceIs(db: Db, rel: Relation)
    ensures match rel
            case ToOne(_, _, _) =>
              var rows := RowsOf(db, rel.related);
              |Source(db, rel)| == |rows| && forall i :: 0 <= i < |rows| ==> Source(db, rel)[i] == Pair(rows[i].key, rows[i])
            case Children(_, _, column) => exists at :: Drawn(RowsOf(db, rel.related), column, at, Source(db, rel))
            case Counterpart(_, _, column) =>
              if column.None? then Source(db, rel) == []
              else exists at :: Drawn(RowsOf(db, rel.related), column.value, at, Source(db, rel))
            case Linked(_, _, table, joinColumn, inverseColumn) =>
              exists parts :: Linkage(RowsOf(db, rel.related), JoinRows(db, table), joinColumn, inverseColumn, parts)
                              && Source(db, rel) == Joined(parts)
  {
    var rows := RowsOf(db, rel.related);
    match rel
    case ToOne(_, _, _) => KeysPair(rows);
    case Children(_, _, column) =>
      var at := ForeignKeysPair(rows, column);
      assert Drawn(rows, column, at, Source(db, rel));
    case Counterpart(_, _, column) =>
      if column.Some? {
        var at := ForeignKeysPair(rows, column.value);
        assert Drawn(rows, column.value, at, Source(db, rel));
      }
    case Linked(_, _, table, joinColumn, inverseColumn) =>
      var parts := RowsJoin(rows, JoinRows(db, table), joinColumn, inverseColumn);
  }

  /** Every row that holds a key in the column, paired with it, in order. */
  ghost predicate Drawn(rows: seq<Row>, column: string, at: seq<nat>, pairs: seq<Pair>) {
    PairedBy(rows, column, at, pairs) && forall p: nat :: p in at <==> HasKey(rows, p, column)
  }

  // ------------------------------------------------------------------- links

  ghost predicate LinkAt(joins: seq<map<string, Key>>, p: nat, from: string, to: string, a: Key, b: Key) {
    p < |joins| && from in joins[p] && to in joins[p] && joins[p][from] == a && joins[p][to] == b
  }

  lemma {:induction false} LinkPositions(joins: seq<map<string, Key>>, from: string, to: string, a: Key, b: Key)
    returns (at: seq<nat>)
    ensures |at| == Links(joins, from, to, a, b) && Rising(at)
    ensures forall p: nat :: p in at <==> LinkAt(joins, p, from, to, a, b)
  {
    if joins == [] {
      at := [];
    } else {
      var at1 := LinkPositions(joins[1..], from, to, a, b);
      at := OneFurther(at1);
      forall p: nat ensures p in at <==> p > 0 && LinkAt(joins, p, from, to, a, b) {
        FurtherHas(at1, p);
        if p > 0 { assert LinkAt(joins, p, from, to, a, b) <==> LinkAt(joins[1..], p - 1, from, to, a, b); }
      }
      if LinkAt(joins, 0, from, to, a, b) {
        forall i | 0 <= i < |at| ensures at[i] > 0 { assert at[i] in at; }
        at := [0] + at;
      }
    }
  }

  /** Two keys are linked as often as join rows hold both. */
  lemma LinksAre(joins: seq<map<string, Key>>, from: string, to: string, a: Key, b: Key)
    ensures Links(joins, from, to, a, b)
            == |set p: nat | p < |joins| && from in joins[p] && to in joins[p] && joins[p][from] == a && joins[p][to] == b|
  {
    var at := LinkPositions(joins, from, to, a, b);
    var s := set p: nat | p < |joins| && from in joins[p] && to in joins[p] && joins[p][from] == a && joins[p][to] == b;
    forall p: nat ensures p in s <==> p in at { assert p in at <==> LinkAt(joins, p, from, to, a, b); }
    PositionsCounted(at, s);
  }

  // ------------------------------------------------------------------- sides

  /** `i` is the first side of that name with a join table. */
  ghost predicate FirstSide(sides: seq<Side>, property: string, i: nat) {
    && i < |sides| && sides[i].property == property && sides[i].joinTable.Some?
    && forall j :: 0 <= j < i ==> sides[j].property != property || sides[j].joinTable.None?
  }

  lemma {:induction false} FirstSideOwns(sides: seq<Side>, property: string, i: nat)
    requires FirstSide(sides, property, i)
    ensures OwnerNamed(sides, property) == sides[i].joinTable
  {
    if i > 0 {
      assert FirstSide(sides[1..], property, i - 1);
      FirstSideOwns(sides[1..], property, i - 1);
    }
  }

  lemma {:induction false} OwnerIsFirstSide(sides: seq<Side>, property: string) returns (i: nat)
    requires OwnerNamed(sides, property).Some?
    ensures FirstSide(sides, property, i)
  {
    if sides[0].property == property && sides[0].joinTable.Some? {
      i := 0;
    } else {
      var k := OwnerIsFirstSide(sides[1..], property);
      i := k + 1;
    }
  }

  /** A side with a join table is read through it; another through that of the first
      side `mappedBy` names, its two columns swapped; and without one not at all. */
  lemma ResolveIs(sides: Sides, side: Side)
    ensures var others := if side.related in sides then sides[side.related] else [];
            if side.joinTable.Some? then Resolve(sides, side) == side.joinTable
            else if side.mappedBy.None? then Resolve(sides, side) == None
            else
              && (forall i: nat :: FirstSide(others, side.mappedBy.value, i) ==>
                    var t := others[i].joinTable.value;
                    Resolve(sides, side) == Some(JoinTable(t.name, t.inverseColumn, t.joinColumn)))
              && (Resolve(sides, side).Some? ==> exists i: nat :: FirstSide(others, side.mappedBy.value, i))
  {
    var others := SidesOf(sides, side.related);
    if side.joinTable.None? && side.mappedBy.Some? {
      forall i: nat | FirstSide(others, side.mappedBy.value, i)
        ensures OwnerNamed(others, side.mappedBy.value) == others[i].joinTable
      {
        FirstSideOwns(others, side.mappedBy.value, i);
      }
      if OwnerNamed(others, side.mappedBy.value).Some? {
        var i := OwnerIsFirstSide(others, side.mappedBy.value);
        assert FirstSide(others, side.mappedBy.value, i);
      }
    }
  }
}
