/** What a cascading save follows and what each row takes from it, told from the
    declared relations and the objects alone. */
module CascadeSaveMeaning {
  import opened Metadata
  import opened Declarations
  import opened Digraphs
  import opened CascadeSave
  import opened CascadeSaveProofs
  import opened CascadeSaveLaws

  // ------------------------------------------------------- what is followed

  ghost predicate HoldsOne(links: Links, property: string, b: Ref) {
    property in links.one && links.one[property] == b
  }

  /** A OneToOne that some row can hold the key of: its own side has a join column,
      or the side it names does. */
  ghost predicate Stored(schema: Schema, rel: OneToOne) {
    rel.joinColumn.Some?
    || (rel.inverseSide.Some? && exists i: nat :: FirstOwning(DeclaredBy(schema, rel.related).oneToOne, rel.inverseSide.value, i))
  }

  /** `a` holds `b` in a relation with a save cascade. */
  ghost predicate SavesTo(schema: Schema, g: Graph, a: Ref, b: Ref)
    requires a in g
  {
    var declared := DeclaredBy(schema, g[a].entity);
    || (exists rel :: rel in declared.manyToOne && ListsSave(rel.cascade) && HoldsOne(g[a], rel.property, b))
    || (exists rel :: rel in declared.oneToOne && ListsSave(rel.cascade) && Stored(schema, rel) && HoldsOne(g[a], rel.property, b))
    || (exists rel :: rel in declared.oneToMany && ListsSave(rel.cascade) && rel.property in g[a].many && b in g[a].many[rel.property])
  }

  /** What a row may hold the key of. */
  ghost predicate Refers(schema: Schema, entity: Entity, r: Reference) {
    || (exists m :: m in DeclaredBy(schema, entity).manyToOne && r == FromManyToOne(m, r.saves) && (r.saves <==> ListsSave(m.cascade)))
    || (exists o :: o in DeclaredBy(schema, entity).oneToOne && o.joinColumn.Some? && r == FromOneToOne(o, r.saves)
                    && (r.saves <==> ListsSave(o.cascade)))
  }

  function FromManyToOne(m: ManyToOne, saves: bool): Reference {
    Reference(m.property, m.related, m.joinColumn, m.fkProperty, saves, true)
  }

  function FromOneToOne(o: OneToOne, saves: bool): Reference {
    Reference(o.property, o.related, o.joinColumn, o.fkProperty, saves, false)
  }

  lemma {:induction false} ManyToOnesAre(relations: seq<ManyToOne>, r: Reference)
    ensures r in ManyToOneReferences(relations)
            <==> exists m :: m in relations && r == FromManyToOne(m, r.saves) && (r.saves <==> ListsSave(m.cascade))
  {
    if relations != [] {
      ManyToOnesAre(relations[1..], r);
      assert relations == [relations[0]] + relations[1..];
    }
  }

  lemma {:induction false} OwningAre(relations: seq<OneToOne>, r: Reference)
    ensures r in OwningReferences(relations)
            <==> exists o :: o in relations && o.joinColumn.Some? && r == FromOneToOne(o, r.saves) && (r.saves <==> ListsSave(o.cascade))
  {
    if relations != [] {
      OwningAre(relations[1..], r);
      assert relations == [relations[0]] + relations[1..];
    }
  }

  lemma ReferencesAreDeclared(schema: Schema, entity: Entity, r: Reference)
    ensures r in References(schema, entity) <==> Refers(schema, entity, r)
  {
    ManyToOnesAre(DeclaredBy(schema, entity).manyToOne, r);
    OwningAre(DeclaredBy(schema, entity).oneToOne, r);
  }

  ghost predicate UpTo(schema: Schema, links: Links, b: Ref) {
    var declared := DeclaredBy(schema, links.entity);
    || (exists rel :: rel in declared.manyToOne && ListsSave(rel.cascade) && HoldsOne(links, rel.property, b))
    || (exists rel :: rel in declared.oneToOne && rel.joinColumn.Some? && ListsSave(rel.cascade) && HoldsOne(links, rel.property, b))
  }

  lemma UpsAreHeld(schema: Schema, links: Links, b: Ref)
    ensures (exists u :: u in Ups(schema, links) && u.target == b) <==> UpTo(schema, links, b)
  {
    var declared := DeclaredBy(schema, links.entity);
    forall r ensures r in References(schema, links.entity) <==> Refers(schema, links.entity, r) {
      ReferencesAreDeclared(schema, links.entity, r);
    }
    if u :| u in Ups(schema, links) && u.target == b {
      assert Refers(schema, links.entity, u.reference);
    }
    if rel :| rel in declared.manyToOne && ListsSave(rel.cascade) && HoldsOne(links, rel.property, b) {
      assert Refers(schema, links.entity, FromManyToOne(rel, true));
      assert Up(b, FromManyToOne(rel, true)) in Ups(schema, links);
    }
    if rel :| rel in declared.oneToOne && rel.joinColumn.Some? && ListsSave(rel.cascade) && HoldsOne(links, rel.property, b) {
      assert Refers(schema, links.entity, FromOneToOne(rel, true));
      assert Up(b, FromOneToOne(rel, true)) in Ups(schema, links);
    }
  }

  lemma {:induction false} ChildrenAreHeld(schema: Schema, relations: seq<OneToMany>, links: Links, d: Down)
    ensures d in ChildDowns(schema, relations, links)
            <==> exists rel :: rel in relations && ListsSave(rel.cascade) && rel.property in links.many
                               && d.target in links.many[rel.property] && d.keys == FkKeysOfChild(schema, rel)
  {
    if relations != [] {
      ChildrenAreHeld(schema, relations[1..], links, d);
      var rel := relations[0];
      assert relations == [rel] + relations[1..];
      if rel.property in links.many {
        var keys := FkKeysOfChild(schema, rel);
        assert d in DownsTo(links.many[rel.property], keys) <==> d.target in links.many[rel.property] && d.keys == keys by {
          DownsToAre(links.many[rel.property], keys, d);
        }
      }
    }
  }

  lemma DownsToAre(children: seq<Ref>, keys: FkWriteKeys, d: Down)
    ensures d in DownsTo(children, keys) <==> d.target in children && d.keys == keys
  {
    if d.target in children && d.keys == keys {
      var i :| 0 <= i < |children| && children[i] == d.target;
      assert DownsTo(children, keys)[i] == d;
    }
  }

  ghost predicate CounterpartOf(schema: Schema, rel: OneToOne, links: Links, d: Down) {
    && ListsSave(rel.cascade) && HoldsOne(links, rel.property, d.target) && rel.joinColumn.None? && rel.inverseSide.Some?
    && exists i: nat ::
         var back := DeclaredBy(schema, rel.related).oneToOne;
         FirstOwning(back, rel.inverseSide.value, i) && d.keys == FkKeysOfCounterpart(back[i])
  }

  lemma CounterpartIs(schema: Schema, rel: OneToOne, links: Links, d: Down)
    requires rel.joinColumn.None? && rel.inverseSide.Some? && ListsSave(rel.cascade) && rel.property in links.one
    ensures var owner := OwningOneToOne(DeclaredBy(schema, rel.related).oneToOne, rel.inverseSide.value);
            CounterpartOf(schema, rel, links, d)
            <==> owner.Some? && d == Down(links.one[rel.property], FkKeysOfCounterpart(owner.value))
  {
    var back, name := DeclaredBy(schema, rel.related).oneToOne, rel.inverseSide.value;
    if OwningOneToOne(back, name).Some? {
      var i := OwnerIsFirst(back, name);
      assert FirstOwning(back, name, i);
    }
    forall i: nat | FirstOwning(back, name, i) ensures OwningOneToOne(back, name) == Some(back[i]) { FirstOwner(back, name, i); }
  }

  lemma {:induction false} CounterpartsAreHeld(schema: Schema, relations: seq<OneToOne>, links: Links, d: Down)
    ensures d in CounterpartDowns(schema, relations, links)
            <==> exists rel :: rel in relations && CounterpartOf(schema, rel, links, d)
  {
    if relations != [] {
      CounterpartsAreHeld(schema, relations[1..], links, d);
      var rel := relations[0];
      assert relations == [rel] + relations[1..];
      if rel.joinColumn.None? && rel.inverseSide.Some? && ListsSave(rel.cascade) && rel.property in links.one {
        CounterpartIs(schema, rel, links, d);
      }
    }
  }

  ghost predicate DownTo(schema: Schema, links: Links, b: Ref) {
    var declared := DeclaredBy(schema, links.entity);
    || (exists rel :: rel in declared.oneToMany && ListsSave(rel.cascade) && rel.property in links.many
                      && b in links.many[rel.property])
    || (exists rel :: rel in declared.oneToOne && ListsSave(rel.cascade) && rel.joinColumn.None? && Stored(schema, rel)
                      && HoldsOne(links, rel.property, b))
  }

  lemma DownsAreHeld(schema: Schema, links: Links, b: Ref)
    ensures (exists d :: d in Downs(schema, links) && d.target == b) <==> DownTo(schema, links, b)
  {
    var declared := DeclaredBy(schema, links.entity);
    forall d ensures d in Downs(schema, links) <==>
        (exists rel :: rel in declared.oneToMany && ListsSave(rel.cascade) && rel.property in links.many
                       && d.target in links.many[rel.property] && d.keys == FkKeysOfChild(schema, rel))
        || (exists rel :: rel in declared.oneToOne && CounterpartOf(schema, rel, links, d))
    {
      ChildrenAreHeld(schema, declared.oneToMany, links, d);
      CounterpartsAreHeld(schema, declared.oneToOne, links, d);
    }
    if rel :| rel in declared.oneToMany && ListsSave(rel.cascade) && rel.property in links.many && b in links.many[rel.property] {
      assert Down(b, FkKeysOfChild(schema, rel)) in Downs(schema, links);
    }
    if rel :| rel in declared.oneToOne && ListsSave(rel.cascade) && rel.joinColumn.None? && Stored(schema, rel)
              && HoldsOne(links, rel.property, b) {
      var back := DeclaredBy(schema, rel.related).oneToOne;
      var i: nat :| FirstOwning(back, rel.inverseSide.value, i);
      assert CounterpartOf(schema, rel, links, Down(b, FkKeysOfCounterpart(back[i])));
    }
  }

  /** A save of `a` leads to a save of `b` exactly when `a` holds `b` in a relation
      with a save cascade. */
  lemma EdgesAreDeclared(schema: Schema, g: Graph, a: Ref, b: Ref)
    ensures (a, b) in SaveEdges(schema, g) <==> a in g && b in g && SavesTo(schema, g, a, b)
  {
    if a in g {
      UpsAreHeld(schema, g[a], b);
      DownsAreHeld(schema, g[a], b);
    }
  }

  /** Everything a save leads to from `root`. */
  ghost predicate Whole(schema: Schema, g: Graph, root: Ref, s: set<Ref>) {
    root in s && forall a, b :: a in s && a in g && b in g && SavesTo(schema, g, a, b) ==> b in s
  }

  /** A save writes the least set with its root and all that its objects hold in
      relations with a save cascade. */
  lemma SaveWritesLeast(schema: Schema, g: Graph, w: World, root: Ref)
    requires Complete(g) && root in g
    ensures var w' := Save(schema, g, w, root, {});
            && Whole(schema, g, root, Written(w.log, w'.log))
            && (forall s: set<Ref> :: Whole(schema, g, root, s) ==> Written(w.log, w'.log) <= s)
            && (forall x :: x in Written(w.log, w'.log) ==> KeyOf(w', x).Some?)
  {
    var edges, w' := SaveEdges(schema, g), Save(schema, g, w, root, {});
    var written := Written(w.log, w'.log);
    SaveReachesEverything(schema, g, w, root);
    StartReached(edges, {root}, root);
    forall a, b ensures (a, b) in edges <==> a in g && b in g && SavesTo(schema, g, a, b) { EdgesAreDeclared(schema, g, a, b); }
    forall a, b | (a, b) in edges && a in written ensures b in written { ReachesExtends(edges, {root}, a, b); }
    forall s: set<Ref> | Whole(schema, g, root, s) ensures written <= s {
      forall x | x in written ensures x in s { ClosedHoldsReached(edges, {root}, s, x); }
    }
  }
}
