/** What the separate reads attach, in terms of the stored rows: the meaning the
    batched load is proved equal to. */
module RelationMeaning {
  import opened Metadata
  import opened RelationRows
  import opened RelationLoading

  /** Whether a read of a relation under these options may return the row. */
  predicate Readable(db: Db, rel: Relation, options: Options, row: Row) {
    && db.scope(rel.related, row)
    && (Collection(rel) && options.whereTest.Some? ==> options.whereTest.value(row))
    && (row.trashed && rel.related in db.softDeletable ==>
          if options.withDeleted.Some? then options.withDeleted.value else db.withDeleted)
  }

  predicate Unpaged(options: Options) {
    options.take.None? && options.skip == 0
  }

  lemma {:induction false} OfParentIs(pairs: seq<Pair>, parent: Key, p: Pair)
    ensures p in OfParent(pairs, parent) <==> p in pairs && p.parent == parent
  {
    if pairs != [] {
      OfParentIs(pairs[1..], parent, p);
      assert pairs == [pairs[0]] + pairs[1..];
    }
  }

  lemma {:induction false} SelectedIs(pairs: seq<Pair>, ids: seq<Key>, shape: Shape, p: Pair)
    ensures p in Selected(pairs, ids, shape) <==> p in pairs && p.parent in ids && Keeps(shape, p.row)
  {
    if pairs != [] {
      SelectedIs(pairs[1..], ids, shape, p);
      assert pairs == [pairs[0]] + pairs[1..];
    }
  }

  lemma SortedHas(order: Order, pairs: seq<Pair>, p: Pair)
    ensures p in Sort(order, pairs) <==> p in pairs
  {
    SortKeepsRows(order, pairs);
    assert p in multiset(Sort(order, pairs)) <==> p in multiset(pairs);
  }

  lemma OwnRowsAre(pairs: seq<Pair>, parent: Key, shape: Shape, p: Pair)
    requires !Pages(shape.page)
    ensures p in OwnRows(pairs, parent, shape) <==> p in pairs && p.parent == parent && Keeps(shape, p.row)
  {
    OfParentIs(pairs, parent, p);
    SelectedIs(OfParent(pairs, parent), [parent], shape, p);
    if shape.orderBy.Some? {
      SortedHas(ByRelation(shape.orderBy.value), Selected(OfParent(pairs, parent), [parent], shape), p);
    }
  }

  lemma {:induction false} RowsInAre(pairs: seq<Pair>, row: Row)
    ensures row in RowsIn(pairs) <==> exists p :: p in pairs && p.row == row
  {
    if pairs != [] {
      RowsInAre(pairs[1..], row);
      assert pairs == [pairs[0]] + pairs[1..];
    }
  }

  lemma KeepsIs(db: Db, rel: Relation, options: Options, row: Row)
    ensures Keeps(ShapeOf(db, rel, options), row) <==> Readable(db, rel, options, row)
  {}

  lemma {:induction false} ByForeignKeyIs(rows: seq<Row>, column: string, p: Pair)
    ensures p in ByForeignKey(rows, column) <==> p.row in rows && column in p.row.cells && p.row.cells[column] == p.parent
  {
    if rows != [] {
      ByForeignKeyIs(rows[1..], column, p);
      assert rows == [rows[0]] + rows[1..];
    }
  }

  lemma {:induction false} ByKeyIs(rows: seq<Row>, p: Pair)
    ensures p in ByKey(rows) <==> p.row in rows && p.row.key == p.parent
  {
    if rows != [] {
      ByKeyIs(rows[1..], p);
      assert rows == [rows[0]] + rows[1..];
    }
  }

  /** An unpaged read returns exactly the readable rows its source pairs with the
      object's key. */
  lemma OwnRelatedIs(db: Db, rel: Relation, options: Options, o: Obj, row: Row)
    requires Unpaged(options) || !Collection(rel)
    ensures row in OwnRelated(db, rel, options, o)
            <==> MatchKey(rel, o).Some? && !(Collection(rel) && options.take == Some(0))
                 && Pair(MatchKey(rel, o).value, row) in Source(db, rel) && Readable(db, rel, options, row)
  {
    var key := MatchKey(rel, o);
    if key.Some? {
      var shape := ShapeOf(db, rel, options);
      var own := OwnRows(Source(db, rel), key.value, shape);
      KeepsIs(db, rel, options, row);
      OwnRowsAre(Source(db, rel), key.value, shape, Pair(key.value, row));
      RowsInAre(own, row);
      forall p | p in own ensures p.parent == key.value { OwnRowsAre(Source(db, rel), key.value, shape, p); }
    }
  }

  /** A OneToMany attaches the rows that hold the object's key in the join column
      and pass the tenant and subtype scope, the relation's own `where` and, unless
      trashed rows are asked for, the soft-delete test. */
  lemma ChildrenAre(db: Db, name: string, related: Entity, column: string, options: Options, o: Obj, row: Row)
    requires Unpaged(options)
    ensures var rel := Children(name, related, column);
            row in OwnRelated(db, rel, options, o)
            <==> row in RowsOf(db, related) && o.id.Some? && column in row.cells && row.cells[column] == o.id.value
                 && Readable(db, rel, options, row)
  {
    var rel := Children(name, related, column);
    OwnRelatedIs(db, rel, options, o, row);
    if o.id.Some? { ByForeignKeyIs(RowsOf(db, related), column, Pair(o.id.value, row)); }
  }

  /** A to-one relation attaches the row whose key the object's foreign key names,
      whatever the options' `where`, order and page. */
  lemma TargetIs(db: Db, name: string, related: Entity, column: string, options: Options, o: Obj, row: Row)
    ensures var rel := ToOne(name, related, column);
            row in OwnRelated(db, rel, options, o)
            <==> row in RowsOf(db, related) && column in o.cells && o.cells[column] == row.key
                 && Readable(db, rel, options, row)
  {
    var rel := ToOne(name, related, column);
    OwnRelatedIs(db, rel, options, o, row);
    if column in o.cells { ByKeyIs(RowsOf(db, related), Pair(o.cells[column], row)); }
  }

  /** The inverse side of a OneToOne attaches a row that holds the object's key in
      the owner's join column; without an owning side, none. */
  lemma CounterpartIs(db: Db, name: string, related: Entity, column: Option<string>, options: Options, o: Obj, row: Row)
    ensures var rel := Counterpart(name, related, column);
            row in OwnRelated(db, rel, options, o)
            <==> column.Some? && row in RowsOf(db, related) && o.id.Some?
                 && column.value in row.cells && row.cells[column.value] == o.id.value && Readable(db, rel, options, row)
  {
    var rel := Counterpart(name, related, column);
    OwnRelatedIs(db, rel, options, o, row);
    if o.id.Some? && column.Some? { ByForeignKeyIs(RowsOf(db, related), column.value, Pair(o.id.value, row)); }
  }
}
