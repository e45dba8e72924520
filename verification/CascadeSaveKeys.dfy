/** The keys a save puts into rows and onto objects, told from the declared
    relations and the caller's graph. */
module CascadeSaveKeys {
  import opened Metadata
  import opened Declarations
  import opened CascadeSave
  import opened CascadeSaveProofs
  import opened CascadeSaveLaws
  import opened CascadeSaveMeaning

  // -------------------------------------------------------------- dependents

  /** The write of some object has that key in that column. */
  ghost predicate KeyWritten(before: seq<Write>, after: seq<Write>, v: Ref, column: string, key: Key) {
    exists j :: |before| <= j < |after| && after[j].ref == v && column in after[j].cells && after[j].cells[column] == key
  }

  /** No other relation of the entity has the join column of `r`. */
  ghost predicate ColumnIsOwn(schema: Schema, entity: Entity, column: string, r: Reference) {
    && (forall m :: m in DeclaredBy(schema, entity).manyToOne && m.joinColumn == Some(column) ==>
          r == FromManyToOne(m, r.saves) && (r.saves <==> ListsSave(m.cascade)))
    && (forall o :: o in DeclaredBy(schema, entity).oneToOne && o.joinColumn == Some(column) ==>
          r == FromOneToOne(o, r.saves) && (r.saves <==> ListsSave(o.cascade)))
  }

  /** No other relation saved through copies a key to the properties `r` is read
      from while its object has none: `<property>Id` and its own `fkProperty`. */
  ghost predicate NotCopiedOver(schema: Schema, links: Links, r: Reference) {
    && (forall m :: m in DeclaredBy(schema, links.entity).manyToOne && ListsSave(m.cascade) && m.property in links.one
                    && m.joinColumn.Some? && r != FromManyToOne(m, true) ==>
          m.joinColumn.value != r.property + "Id" && r.fkProperty != m.joinColumn)
    && (forall o :: o in DeclaredBy(schema, links.entity).oneToOne && ListsSave(o.cascade) && o.property in links.one
                    && o.joinColumn.Some? && r != FromOneToOne(o, true) ==>
          o.joinColumn.value != r.property + "Id" && r.fkProperty != o.joinColumn)
  }

  lemma OwnColumnIs(schema: Schema, entity: Entity, r: Reference)
    requires Refers(schema, entity, r) && r.joinColumn.Some? && ColumnIsOwn(schema, entity, r.joinColumn.value, r)
    ensures r in References(schema, entity) && OwnColumn(References(schema, entity), r)
  {
    ReferencesAreDeclared(schema, entity, r);
    forall s | s in References(schema, entity) && s.joinColumn == r.joinColumn ensures s == r {
      ReferencesAreDeclared(schema, entity, s);
    }
  }

  lemma ShadowApartIs(schema: Schema, g: Graph, v: Ref, r: Reference)
    requires v in g && NotCopiedOver(schema, g[v], r)
    ensures ShadowApart(schema, g, v, r)
  {
    forall u | u in Ups(schema, g[v]) && u.reference != r && u.reference.joinColumn.Some?
      ensures !Shadows(r, u.reference.joinColumn.value)
    {
      ReferencesAreDeclared(schema, g[v].entity, u.reference);
    }
  }

  lemma WrittenLater(a: seq<Write>, b: seq<Write>, c: seq<Write>, d: seq<Write>, v: Ref, column: string, key: Key)
    requires a <= b <= c <= d && KeyWritten(b, c, v, column, key)
    ensures KeyWritten(a, d, v, column, key)
  {
    var j :| |b| <= j < |c| && c[j].ref == v && column in c[j].cells && c[j].cells[column] == key;
    assert d[j] == c[j];
  }

  /** What `d` makes of its target: `back` reads the key it is told. */
  ghost predicate Tells(schema: Schema, g: Graph, parent: Ref, d: Down, back: Reference) {
    && d.target in g && back in References(schema, g[d.target].entity) && back.property + "Id" == d.keys.shadowKey
    && OwnColumn(References(schema, g[d.target].entity), back) && ShadowApart(schema, g, d.target, back)
    && (back.property in g[d.target].one ==> g[d.target].one[back.property] == parent)
  }

  lemma {:induction false} DownWrites(schema: Schema, g: Graph, w: World, parent: Ref, key: Key, downs: seq<Down>, chain: set<Ref>,
                                      d: Down, back: Reference)
    requires Complete(g) && parent in g && Inside(g, [], downs) && (forall x :: x in downs ==> x in Downs(schema, g[parent]))
    requires parent in chain && d in downs && d.target !in chain && Tells(schema, g, parent, d, back)
    requires KeyOf(w, parent).Some? ==> KeyOf(w, parent) == Some(key)
    ensures KeyWritten(w.log, SaveDowns(schema, g, w, key, downs, chain).log, d.target, back.joinColumn.value, key)
    decreases |downs|
  {
    GraphIsClosed(schema, g);
    if downs[0].target in chain {
      DownWrites(schema, g, w, parent, key, downs[1..], chain, d, back);
    } else {
      var told := AssignFk(w, downs[0].target, downs[0].keys, key);
      AssignFkBelow(w, downs[0].target, downs[0].keys, key, chain);
      var w1 := SaveCovers(schema, g, told, downs[0].target, chain, g.Keys);
      var last := DownsCovered(schema, g, w1, key, downs[1..], chain, g.Keys);
      if downs[0] == d {
        DependentHoldsParentKey(schema, g, w, parent, key, d, chain, back);
        WrittenLater(w.log, w.log, w1.log, last.log, d.target, back.joinColumn.value, key);
      } else {
        assert KeyOf(w1, parent) == KeyOf(w, parent);
        DownWrites(schema, g, w1, parent, key, downs[1..], chain, d, back);
        WrittenLater(w.log, w1.log, last.log, last.log, d.target, back.joinColumn.value, key);
      }
    }
  }

  lemma DependentIsWritten(schema: Schema, g: Graph, w: World, parent: Ref, chain: set<Ref>, d: Down, back: Reference)
    requires Complete(g) && parent in g && parent !in chain && d in Downs(schema, g[parent]) && d.target !in chain + {parent}
    requires Tells(schema, g, parent, d, back)
    ensures var w' := Save(schema, g, w, parent, chain);
            KeyOf(w', parent).Some?
            && KeyWritten(w.log, w'.log, d.target, back.joinColumn.value, KeyOf(w', parent).value)
  {
    var w1, w2, w3, w' := SaveParts(schema, g, w, parent, chain);
    LinksInside(schema, g, parent);
    var key, inside := SavedKey(w1, parent), chain + {parent};
    DownWrites(schema, g, w2, parent, key, Downs(schema, g[parent]), inside, d, back);
    WrittenLater(w.log, w2.log, w3.log, w'.log, d.target, back.joinColumn.value, key);
  }

  /** Every child a OneToMany saves is written with its parent's key in the join
      column of the ManyToOne that `mappedBy` names, unless the child holds some
      other object there. */
  lemma ChildHoldsParentKey(schema: Schema, g: Graph, w: World, parent: Ref, chain: set<Ref>, rel: OneToMany, child: Ref, i: nat)
    requires Complete(g) && parent in g && parent !in chain
    requires rel in DeclaredBy(schema, g[parent].entity).oneToMany && ListsSave(rel.cascade)
    requires rel.property in g[parent].many && child in g[parent].many[rel.property] && child !in chain + {parent}
    requires g[child].entity == rel.related && FirstNamed(DeclaredBy(schema, rel.related).manyToOne, rel.mappedBy, i)
    requires var m := DeclaredBy(schema, rel.related).manyToOne[i];
             && m.joinColumn.Some?
             && ColumnIsOwn(schema, rel.related, m.joinColumn.value, FromManyToOne(m, ListsSave(m.cascade)))
             && NotCopiedOver(schema, g[child], FromManyToOne(m, ListsSave(m.cascade)))
             && (m.property in g[child].one ==> g[child].one[m.property] == parent)
    ensures var m, w' := DeclaredBy(schema, rel.related).manyToOne[i], Save(schema, g, w, parent, chain);
            KeyOf(w', parent).Some? && KeyWritten(w.log, w'.log, child, m.joinColumn.value, KeyOf(w', parent).value)
  {
    var m := DeclaredBy(schema, rel.related).manyToOne[i];
    var back, d := FromManyToOne(m, ListsSave(m.cascade)), Down(child, FkKeysOfChild(schema, rel));
    FirstMatching(DeclaredBy(schema, rel.related).manyToOne, rel.mappedBy, i);
    ChildrenAreHeld(schema, DeclaredBy(schema, g[parent].entity).oneToMany, g[parent], d);
    assert Refers(schema, rel.related, back);
    OwnColumnIs(schema, rel.related, back);
    ShadowApartIs(schema, g, child, back);
    DependentIsWritten(schema, g, w, parent, chain, d, back);
  }

  /** And so is the counterpart an inverse OneToOne saves, in the join column of the
      side it names. */
  lemma CounterpartHoldsKey(schema: Schema, g: Graph, w: World, parent: Ref, chain: set<Ref>, rel: OneToOne, i: nat)
    requires Complete(g) && parent in g && parent !in chain
    requires rel in DeclaredBy(schema, g[parent].entity).oneToOne && ListsSave(rel.cascade)
    requires rel.joinColumn.None? && rel.inverseSide.Some? && rel.property in g[parent].one
    requires g[parent].one[rel.property] !in chain + {parent} && g[g[parent].one[rel.property]].entity == rel.related
    requires FirstOwning(DeclaredBy(schema, rel.related).oneToOne, rel.inverseSide.value, i)
    requires var owner, other := DeclaredBy(schema, rel.related).oneToOne[i], g[g[parent].one[rel.property]];
             && ColumnIsOwn(schema, rel.related, owner.joinColumn.value, FromOneToOne(owner, ListsSave(owner.cascade)))
             && NotCopiedOver(schema, other, FromOneToOne(owner, ListsSave(owner.cascade)))
             && (owner.property in other.one ==> other.one[owner.property] == parent)
    ensures var owner, w' := DeclaredBy(schema, rel.related).oneToOne[i], Save(schema, g, w, parent, chain);
            KeyOf(w', parent).Some?
            && KeyWritten(w.log, w'.log, g[parent].one[rel.property], owner.joinColumn.value, KeyOf(w', parent).value)
  {
    var owner, other := DeclaredBy(schema, rel.related).oneToOne[i], g[parent].one[rel.property];
    var back, d := FromOneToOne(owner, ListsSave(owner.cascade)), Down(other, FkKeysOfCounterpart(owner));
    assert CounterpartOf(schema, rel, g[parent], d);
    CounterpartsAreHeld(schema, DeclaredBy(schema, g[parent].entity).oneToOne, g[parent], d);
    assert Refers(schema, rel.related, back);
    OwnColumnIs(schema, rel.related, back);
    ShadowApartIs(schema, g, other, back);
    DependentIsWritten(schema, g, w, parent, chain, d, back);
  }

  // -------------------------------------------------------- keys on objects

  /** The object takes the key under these names, and changes in nothing else. */
  ghost predicate ToldUnder(o: Obj, told: Obj, key: Key, column: string, shadow: string, other: Option<string>) {
    && told.key == o.key
    && (forall name :: name in told.fields <==> name in o.fields || name == column || name == shadow || Some(name) == other)
    && (forall name :: name in told.fields ==>
          told.fields[name] == if name == column || name == shadow || Some(name) == other then key else o.fields[name])
  }

  /** What a child is told: its parent's key under the join column of the ManyToOne
      that `mappedBy` names, or `mappedBy` without one, under `<property>Id`, and in
      the `fkProperty` if there is one. */
  lemma ChildIsTold(schema: Schema, rel: OneToMany, o: Obj, key: Key)
    ensures var back, told := DeclaredBy(schema, rel.related).manyToOne, Assigned(o, FkKeysOfChild(schema, rel), key);
            if i: nat :| FirstNamed(back, rel.mappedBy, i) then
              ToldUnder(o, told, key, if back[i].joinColumn.Some? then back[i].joinColumn.value else rel.mappedBy,
                        rel.mappedBy + "Id", back[i].fkProperty)
            else ToldUnder(o, told, key, rel.mappedBy, rel.mappedBy + "Id", None)
  {
    var back := DeclaredBy(schema, rel.related).manyToOne;
    forall i: nat | FirstNamed(back, rel.mappedBy, i) ensures MatchingManyToOne(back, rel.mappedBy) == Some(back[i]) {
      FirstMatching(back, rel.mappedBy, i);
    }
    if MatchingManyToOne(back, rel.mappedBy).Some? {
      var i := MatchingIsFirst(back, rel.mappedBy);
      assert FirstNamed(back, rel.mappedBy, i);
    }
  }

  /** What a counterpart is told: the same under its own side's join column. */
  lemma CounterpartIsTold(owner: OneToOne, o: Obj, key: Key)
    requires owner.joinColumn.Some?
    ensures ToldUnder(o, Assigned(o, FkKeysOfCounterpart(owner), key), key, owner.joinColumn.value, owner.property + "Id",
                      owner.fkProperty)
  {}

  /** The one write of `v` in a save. */
  ghost predicate OnlyWrite(before: seq<Write>, after: seq<Write>, v: Ref, j: nat) {
    && |before| <= j < |after| && after[j].ref == v
    && forall i :: |before| <= i < |after| && after[i].ref == v ==> i == j
  }

  /** A row stores the key of the object a relation holds, saved through or not, when
      the object had one before; and it stores keys in join columns of the entity's
      relations only. */
  lemma KnownKeyIsStored(schema: Schema, g: Graph, w: World, v: Ref, chain: set<Ref>, r: Reference) returns (j: nat)
    requires Complete(g) && v in g && v !in chain && Refers(schema, g[v].entity, r) && r.joinColumn.Some?
    requires ColumnIsOwn(schema, g[v].entity, r.joinColumn.value, r)
    ensures var log := Save(schema, g, w, v, chain).log;
            && OnlyWrite(w.log, log, v, j) && log[j].id.entity == g[v].entity
            && (r.property in g[v].one && KeyOf(w, g[v].one[r.property]).Some? ==>
                  r.joinColumn.value in log[j].cells
                  && Some(log[j].cells[r.joinColumn.value]) == KeyOf(w, g[v].one[r.property]))
            && forall column :: column in log[j].cells ==>
                 exists s :: Refers(schema, g[v].entity, s) && s.joinColumn == Some(column)
  {
    OwnColumnIs(schema, g[v].entity, r);
    var w1, w' := OwnWrite(schema, g, w, v, chain);
    j := |w1.log|;
    CellOf(w1, v, g[v], References(schema, g[v].entity), r);
    forall column | column in w'.log[j].cells
      ensures exists s :: Refers(schema, g[v].entity, s) && s.joinColumn == Some(column)
    {
      var s := CellOrigin(w1, v, g[v], References(schema, g[v].entity), column);
      ReferencesAreDeclared(schema, g[v].entity, s);
    }
  }

  /** A row whose object holds nothing in a relation stores the key the caller put
      on it: in `<property>Id`, or else in the relation's `fkProperty`; without
      either, none. */
  lemma PlainKeyIsStored(schema: Schema, g: Graph, w: World, v: Ref, chain: set<Ref>, r: Reference) returns (j: nat)
    requires Complete(g) && v in g && v !in chain && Refers(schema, g[v].entity, r) && r.joinColumn.Some?
    requires ColumnIsOwn(schema, g[v].entity, r.joinColumn.value, r) && NotCopiedOver(schema, g[v], r)
    requires r.property !in g[v].one
    ensures var w', fields := Save(schema, g, w, v, chain), (if v in w.objs then w.objs[v].fields else map[]);
            && OnlyWrite(w.log, w'.log, v, j)
            && var cells := w'.log[j].cells;
               if r.property + "Id" in fields then
                 r.joinColumn.value in cells && cells[r.joinColumn.value] == fields[r.property + "Id"]
               else if r.fkProperty.Some? && r.fkProperty.value in fields then
                 r.joinColumn.value in cells && cells[r.joinColumn.value] == fields[r.fkProperty.value]
               else r.joinColumn.value !in cells
  {
    OwnColumnIs(schema, g[v].entity, r);
    ShadowApartIs(schema, g, v, r);
    var w1, w' := OwnWrite(schema, g, w, v, chain);
    j := |w1.log|;
    CellOf(w1, v, g[v], References(schema, g[v].entity), r);
    forall u | u in Ups(schema, g[v]) && u.target !in chain + {v} && u.reference.joinColumn.Some?
      ensures !Shadows(r, u.reference.joinColumn.value)
    {
      assert u.reference != r;
    }
    UpsKeepShadow(schema, g, w, v, Ups(schema, g[v]), chain + {v}, r);
  }

  /** A ManyToOne saved through leaves the target's key on the object too, under the
      name of the join column. */
  lemma ReferenceIsCopied(schema: Schema, g: Graph, w: World, v: Ref, chain: set<Ref>, m: ManyToOne)
    requires Complete(g) && v in g && v !in chain && m in DeclaredBy(schema, g[v].entity).manyToOne && ListsSave(m.cascade)
    requires m.property in g[v].one && g[v].one[m.property] !in chain + {v} && m.joinColumn.Some?
    requires ColumnIsOwn(schema, g[v].entity, m.joinColumn.value, FromManyToOne(m, true))
    ensures var w' := Save(schema, g, w, v, chain);
            && KeyOf(w', g[v].one[m.property]).Some? && v in w'.objs
            && m.joinColumn.value in w'.objs[v].fields
            && Some(w'.objs[v].fields[m.joinColumn.value]) == KeyOf(w', g[v].one[m.property])
  {
    var r := FromManyToOne(m, true);
    assert Refers(schema, g[v].entity, r);
    OwnColumnIs(schema, g[v].entity, r);
    var u := Up(g[v].one[m.property], r);
    assert u in Ups(schema, g[v]);
    LinksInside(schema, g, v);
    var w1, w2, w3, w' := SaveParts(schema, g, w, v, chain);
    UpIsCopied(schema, g, w, v, Ups(schema, g[v]), chain + {v}, u);
    KeysOutlast(schema, g, w1, w2, w3, v, chain + {v});
    assert ObjOf(w3, v) == ObjOf(w2, v) == ObjOf(w1, v);
  }

  ghost predicate Copied(w: World, v: Ref, u: Up) {
    && u.reference.joinColumn.Some? && KeyOf(w, u.target).Some?
    && u.reference.joinColumn.value in ObjOf(w, v).fields
    && Some(ObjOf(w, v).fields[u.reference.joinColumn.value]) == KeyOf(w, u.target)
  }

  lemma {:induction false} CopyStays(schema: Schema, g: Graph, w: World, v: Ref, ups: seq<Up>, chain: set<Ref>, u: Up)
    requires Complete(g) && v in g && Inside(g, ups, []) && v in chain && (forall x :: x in ups ==> x in Ups(schema, g[v]))
    requires u in Ups(schema, g[v]) && OwnColumn(References(schema, g[v].entity), u.reference) && Copied(w, v, u)
    ensures Copied(SaveUps(schema, g, w, v, ups, chain), v, u)
    decreases |ups|
  {
    if ups != [] {
      if ups[0].target in chain {
        CopyStays(schema, g, w, v, ups[1..], chain, u);
      } else {
        GraphIsClosed(schema, g);
        var w0 := SaveCovers(schema, g, w, ups[0].target, chain, g.Keys);
        CopyKeepsCopied(schema, g, w, w0, v, ups[0], u, chain);
        CopyStays(schema, g, CopyKey(w0, v, ups[0]), v, ups[1..], chain, u);
      }
    }
  }

  lemma CopyKeepsCopied(schema: Schema, g: Graph, w: World, w0: World, v: Ref, x: Up, u: Up, chain: set<Ref>)
    requires v in g && v in chain && Below(w, w0, chain, {}) && Copied(w, v, u)
    requires x in Ups(schema, g[v]) && u in Ups(schema, g[v]) && OwnColumn(References(schema, g[v].entity), u.reference)
    ensures Copied(CopyKey(w0, v, x), v, u)
  {
    assert ObjOf(w0, v) == ObjOf(w, v) && KeyOf(w0, u.target) == KeyOf(w, u.target);
    if x.reference.joinColumn == u.reference.joinColumn {
      assert x.reference == u.reference && x.target == u.target;
    }
  }

  lemma {:induction false} UpIsCopied(schema: Schema, g: Graph, w: World, v: Ref, ups: seq<Up>, chain: set<Ref>, u: Up)
    requires Complete(g) && v in g && Inside(g, ups, []) && v in chain && (forall x :: x in ups ==> x in Ups(schema, g[v]))
    requires u in ups && u.target !in chain && u.reference.manyToOne && OwnColumn(References(schema, g[v].entity), u.reference)
    ensures Copied(SaveUps(schema, g, w, v, ups, chain), v, u)
    decreases |ups|
  {
    if ups[0].target in chain {
      UpIsCopied(schema, g, w, v, ups[1..], chain, u);
    } else {
      GraphIsClosed(schema, g);
      var w0 := SaveCovers(schema, g, w, ups[0].target, chain, g.Keys);
      if ups[0] == u {
        CopyStays(schema, g, CopyKey(w0, v, u), v, ups[1..], chain, u);
      } else {
        UpIsCopied(schema, g, CopyKey(w0, v, ups[0]), v, ups[1..], chain, u);
      }
    }
  }
}
