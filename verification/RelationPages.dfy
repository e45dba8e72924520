/** A page of a relation does not depend on the order the database happens to
    hold its tables in. */
module RelationPages {
  import opened Metadata
  import opened RelationRows
  import opened RelationLoading
  import opened RelationMeaning
  import opened ManyToManySides

  // ------------------------------------------------------- one sorted order

  /** Rows that compare equal both ways are one row. */
  ghost predicate TiesBroken(order: Order, pairs: seq<Pair>) {
    forall p, q | p in pairs && q in pairs && Le(order, p, q) && Le(order, q, p) :: p == q
  }

  lemma SameMembers(a: seq<Pair>, b: seq<Pair>, p: Pair)
    requires multiset(a) == multiset(b)
    ensures p in a <==> p in b
  {
    assert p in multiset(a) <==> p in multiset(b);
  }

  lemma FirstIsLeast(order: Order, pairs: seq<Pair>, p: Pair)
    requires Sorted(order, pairs) && p in pairs && p != pairs[0]
    ensures Le(order, pairs[0], p)
  {
    var i :| 0 <= i < |pairs| && pairs[i] == p;
  }

  lemma SameFirst(order: Order, a: seq<Pair>, b: seq<Pair>)
    requires Sorted(order, a) && Sorted(order, b) && multiset(a) == multiset(b) && TiesBroken(order, a)
    requires a != [] && b != []
    ensures a[0] == b[0]
  {
    SameMembers(a, b, a[0]);
    SameMembers(a, b, b[0]);
    if a[0] != b[0] {
      FirstIsLeast(order, a, b[0]);
      FirstIsLeast(order, b, a[0]);
    }
  }

  lemma SameSize<T>(a: seq<T>, b: seq<T>)
    requires multiset(a) == multiset(b)
    ensures |a| == |b|
  {
    assert |a| == |multiset(a)| == |multiset(b)| == |b|;
  }

  lemma TailRows(pairs: seq<Pair>)
    requires pairs != []
    ensures multiset(pairs[1..]) == multiset(pairs) - multiset{pairs[0]}
    ensures forall p :: p in pairs[1..] ==> p in pairs
  {
    assert pairs == [pairs[0]] + pairs[1..];
  }

  /** Without ties there is one sorted order of the same rows. */
  lemma {:induction false} SortedIsUnique(order: Order, a: seq<Pair>, b: seq<Pair>)
    requires Sorted(order, a) && Sorted(order, b) && multiset(a) == multiset(b) && TiesBroken(order, a)
    ensures a == b
    decreases |a|
  {
    SameSize(a, b);
    if a != [] {
      SameFirst(order, a, b);
      TailRows(a);
      TailRows(b);
      SortedIsUnique(order, a[1..], b[1..]);
    }
  }

  // ------------------------------------------------------------ the same rows

  lemma {:induction false} ForeignKeyMultiplicity(rows: seq<Row>, column: string, p: Pair)
    ensures multiset(ByForeignKey(rows, column))[p]
            == if column in p.row.cells && p.row.cells[column] == p.parent then multiset(rows)[p.row] else 0
  {
    if rows != [] {
      assert rows == [rows[0]] + rows[1..];
      ForeignKeyMultiplicity(rows[1..], column, p);
    }
  }

  lemma {:induction false} LinksAppend(a: seq<map<string, Key>>, b: seq<map<string, Key>>, from: string, target: string,
                                       parent: Key, key: Key)
    ensures Links(a + b, from, target, parent, key) == Links(a, from, target, parent, key) + Links(b, from, target, parent, key)
  {
    if a == [] {
      assert a + b == b;
    } else {
      assert (a + b)[1..] == a[1..] + b;
      LinksAppend(a[1..], b, from, target, parent, key);
    }
  }

  function Without<T>(xs: seq<T>, i: nat): seq<T>
    requires i < |xs|
  {
    xs[..i] + xs[i + 1..]
  }

  lemma WithoutOne<T>(xs: seq<T>, i: nat)
    requires i < |xs|
    ensures multiset(xs) == multiset{xs[i]} + multiset(Without(xs, i))
  {
    assert xs == xs[..i] + [xs[i]] + xs[i + 1..];
  }

  lemma LinksWithout(joins: seq<map<string, Key>>, i: nat, from: string, target: string, parent: Key, key: Key)
    requires i < |joins|
    ensures Links(joins, from, target, parent, key)
            == Links([joins[i]], from, target, parent, key) + Links(Without(joins, i), from, target, parent, key)
  {
    var front, back := joins[..i], joins[i + 1..];
    assert joins == front + ([joins[i]] + back);
    LinksAppend(front, [joins[i]] + back, from, target, parent, key);
    LinksAppend([joins[i]], back, from, target, parent, key);
    LinksAppend(front, back, from, target, parent, key);
  }

  lemma {:induction false} LinksPermuted(a: seq<map<string, Key>>, b: seq<map<string, Key>>, from: string, target: string,
                                         parent: Key, key: Key)
    requires multiset(a) == multiset(b)
    ensures Links(a, from, target, parent, key) == Links(b, from, target, parent, key)
    decreases |a|
  {
    SameSize(a, b);
    if a != [] {
      assert a[0] in multiset(a) && a[0] in multiset(b);
      var i :| 0 <= i < |b| && b[i] == a[0];
      WithoutOne(a, 0);
      WithoutOne(b, i);
      assert multiset(Without(a, 0)) == multiset(a) - multiset{a[0]};
      assert multiset(Without(b, i)) == multiset(b) - multiset{b[i]};
      LinksPermuted(Without(a, 0), Without(b, i), from, target, parent, key);
      LinksWithout(a, 0, from, target, parent, key);
      LinksWithout(b, i, from, target, parent, key);
    }
  }

  /** The same tables, row for row, in whatever order: what a collection reads
      differs in order only. */
  ghost predicate Permuted(db: Db, db': Db, rel: Relation) {
    && multiset(RowsOf(db, rel.related)) == multiset(RowsOf(db', rel.related))
    && (rel.Linked? ==> multiset(JoinRows(db, rel.joinTable)) == multiset(JoinRows(db', rel.joinTable)))
    && db'.scope == db.scope && db'.softDeletable == db.softDeletable && db'.withDeleted == db.withDeleted
  }

  lemma PermutedKeys(a: seq<Row>, b: seq<Row>)
    requires multiset(a) == multiset(b) && DistinctKeys(a)
    ensures forall row :: row in a <==> row in b
    ensures forall row, other :: row in a && other in a && row.key == other.key ==> row == other
  {
    forall row ensures row in a <==> row in b { assert row in multiset(a) <==> row in multiset(b); }
  }

  lemma SourcePermuted(db: Db, db': Db, rel: Relation, p: Pair)
    requires Collection(rel) && Permuted(db, db', rel)
    requires DistinctKeys(RowsOf(db, rel.related)) && DistinctKeys(RowsOf(db', rel.related))
    ensures multiset(Source(db, rel))[p] == multiset(Source(db', rel))[p]
    ensures p in Source(db, rel) ==> p.row in RowsOf(db, rel.related)
  {
    var rows, rows' := RowsOf(db, rel.related), RowsOf(db', rel.related);
    PermutedKeys(rows, rows');
    assert p in Source(db, rel) <==> multiset(Source(db, rel))[p] > 0;
    if rel.Children? {
      ForeignKeyMultiplicity(rows, rel.fkColumn, p);
      ForeignKeyMultiplicity(rows', rel.fkColumn, p);
      assert multiset(rows)[p.row] > 0 ==> p.row in rows;
    } else {
      var joins, joins' := JoinRows(db, rel.joinTable), JoinRows(db', rel.joinTable);
      SourceMultiplicity(rows, joins, rel.joinColumn, rel.inverseColumn, p);
      SourceMultiplicity(rows', joins', rel.joinColumn, rel.inverseColumn, p);
      LinksPermuted(joins, joins', rel.joinColumn, rel.inverseColumn, p.parent, p.row.key);
    }
  }

  // --------------------------------------------------------------- the page

  lemma OwnPermuted(pairs: seq<Pair>, pairs': seq<Pair>, parent: Key, shape: Shape)
    requires multiset(pairs) == multiset(pairs')
    ensures multiset(Selected(OfParent(pairs, parent), [parent], shape))
            == multiset(Selected(OfParent(pairs', parent), [parent], shape))
  {
    var own, own' := OfParent(pairs, parent), OfParent(pairs', parent);
    forall p ensures multiset(Selected(own, [parent], shape))[p] == multiset(Selected(own', [parent], shape))[p] {
      OfParentMultiplicity(pairs, parent, p);
      OfParentMultiplicity(pairs', parent, p);
      SelectedMultiplicity(own, [parent], shape, p);
      SelectedMultiplicity(own', [parent], shape, p);
    }
  }

  lemma KeyBreaksTies(pairs: seq<Pair>, parent: Key, cmp: Option<Comparison>)
    requires forall p :: p in pairs ==> p.parent == parent
    requires forall p, q :: p in pairs && q in pairs && p.row.key == q.row.key ==> p.row == q.row
    ensures TiesBroken(WithinParent(cmp), pairs)
  {}

  lemma OwnIsOfParent(pairs: seq<Pair>, parent: Key, shape: Shape, p: Pair)
    ensures p in Selected(OfParent(pairs, parent), [parent], shape) ==> p in pairs && p.parent == parent
  {
    SelectedIs(OfParent(pairs, parent), [parent], shape, p);
    OfParentIs(pairs, parent, p);
  }

  lemma OwnHasNoTies(pairs: seq<Pair>, parent: Key, shape: Shape)
    requires forall p, q :: p in pairs && q in pairs && p.row.key == q.row.key ==> p.row == q.row
    ensures TiesBroken(WithinParent(shape.orderBy), Selected(OfParent(pairs, parent), [parent], shape))
  {
    var own := Selected(OfParent(pairs, parent), [parent], shape);
    forall p ensures p in own ==> p in pairs && p.parent == parent { OwnIsOfParent(pairs, parent, shape, p); }
    KeyBreaksTies(own, parent, shape.orderBy);
  }

  lemma SortedTheSame(order: Order, a: seq<Pair>, b: seq<Pair>)
    requires SortableOrder(order) && multiset(a) == multiset(b) && TiesBroken(order, a)
    ensures Sort(order, a) == Sort(order, b)
  {
    SortSorts(order, a);
    SortSorts(order, b);
    SortKeepsRows(order, a);
    SortKeepsRows(order, b);
    forall p ensures p in Sort(order, a) <==> p in a { SameMembers(Sort(order, a), a, p); }
    SortedIsUnique(order, Sort(order, a), Sort(order, b));
  }

  lemma PagePermuted(pairs: seq<Pair>, pairs': seq<Pair>, parent: Key, shape: Shape)
    requires Pages(shape.page) && SortableShape(shape) && multiset(pairs) == multiset(pairs')
    requires forall p, q :: p in pairs && q in pairs && p.row.key == q.row.key ==> p.row == q.row
    ensures OwnRows(pairs, parent, shape) == OwnRows(pairs', parent, shape)
  {
    OwnPermuted(pairs, pairs', parent, shape);
    OwnHasNoTies(pairs, parent, shape);
    SortedTheSame(WithinParent(shape.orderBy), Selected(OfParent(pairs, parent), [parent], shape),
                  Selected(OfParent(pairs', parent), [parent], shape));
  }

  /** A paged read is the same list for every order of the tables, because the
      related primary key breaks all ties. */
  lemma PageIsStable(db: Db, db': Db, rel: Relation, options: Options, o: Obj)
    requires Collection(rel) && Permuted(db, db', rel)
    requires DistinctKeys(RowsOf(db, rel.related)) && DistinctKeys(RowsOf(db', rel.related))
    requires Pages(Page(options.skip, options.take)) && (options.orderBy.Some? ==> Sortable(options.orderBy.value))
    ensures OwnRelated(db, rel, options, o) == OwnRelated(db', rel, options, o)
  {
    SourcesPermuted(db, db', rel);
    if MatchKey(rel, o).Some? {
      PagePermuted(Source(db, rel), Source(db', rel), MatchKey(rel, o).value, ShapeOf(db, rel, options));
    }
  }

  lemma SourcesPermuted(db: Db, db': Db, rel: Relation)
    requires Collection(rel) && Permuted(db, db', rel)
    requires DistinctKeys(RowsOf(db, rel.related)) && DistinctKeys(RowsOf(db', rel.related))
    ensures multiset(Source(db, rel)) == multiset(Source(db', rel))
    ensures forall p, q :: p in Source(db, rel) && q in Source(db, rel) && p.row.key == q.row.key ==> p.row == q.row
  {
    forall p
      ensures multiset(Source(db, rel))[p] == multiset(Source(db', rel))[p]
      ensures p in Source(db, rel) ==> p.row in RowsOf(db, rel.related)
    {
      SourcePermuted(db, db', rel, p);
    }
    PermutedKeys(RowsOf(db, rel.related), RowsOf(db', rel.related));
  }
}
