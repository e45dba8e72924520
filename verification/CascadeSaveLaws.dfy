/** The foreign keys a cascading save stores: each belongs to a row stored
    before it, and each is the one its relation asks for. */
module CascadeSaveLaws {
  import opened Metadata
  import opened Digraphs
  import opened CascadeSave
  import opened CascadeSaveProofs

  // -------------------------------------------------------------- well-formed

  /** A write to `name` is read as the shadow of `r`. */
  predicate Shadows(r: Reference, name: string) {
    name == r.property + "Id" || r.fkProperty == Some(name)
  }

  predicate ShadowsAny(r: Reference, keys: FkWriteKeys) {
    Shadows(r, keys.fkColumn) || Shadows(r, keys.shadowKey)
    || (keys.fkProperty.Some? && Shadows(r, keys.fkProperty.value))
  }

  ghost predicate ColumnsAgree(schema: Schema, entity: Entity) {
    forall r, s | r in References(schema, entity) && s in References(schema, entity)
                  && r.joinColumn.Some? && r.joinColumn == s.joinColumn :: r.related == s.related
  }

  /** A relation holds objects of the entity it names. */
  ghost predicate TypedOne(schema: Schema, g: Graph, v: Ref)
    requires Complete(g) && v in g
  {
    forall r :: r in References(schema, g[v].entity) && r.property in g[v].one ==>
      g[g[v].one[r.property]].entity == r.related
  }

  /** A property that takes an object's key is no other relation's shadow. */
  ghost predicate NamedApart(schema: Schema, g: Graph, v: Ref)
    requires Complete(g) && v in g
  {
    LinksInside(schema, g, v);
    && (forall u, r | u in Ups(schema, g[v]) && r in References(schema, g[v].entity) && u.reference.joinColumn.Some?
                      && Shadows(r, u.reference.joinColumn.value) :: r.related == g[u.target].entity)
    && (forall d, r | d in Downs(schema, g[v]) && r in References(schema, g[d.target].entity)
                      && ShadowsAny(r, d.keys) :: r.related == g[v].entity)
  }

  /** Join columns, relation properties and their shadows are distinct names. */
  ghost predicate WellNamed(schema: Schema, g: Graph)
    requires Complete(g)
  {
    && (forall entity :: ColumnsAgree(schema, entity))
    && (forall v :: v in g ==> TypedOne(schema, g, v) && NamedApart(schema, g, v))
  }

  // ---------------------------------------------------- referential integrity

  /** Every key on an object, in a shadow or in a row's join column belongs to a
      stored row, and no stored key is ahead of the generator. */
  ghost predicate KeyStored(g: Graph, w: World, v: Ref)
    requires v in g
  {
    KeyOf(w, v).Some? ==> Id(g[v].entity, KeyOf(w, v).value) in w.rows
  }

  ghost predicate ShadowsStored(schema: Schema, g: Graph, w: World, v: Ref)
    requires v in g
  {
    forall r :: r in References(schema, g[v].entity) && Shadow(ObjOf(w, v), r).Some? ==>
      Id(r.related, Shadow(ObjOf(w, v), r).value) in w.rows
  }

  ghost predicate RowStored(schema: Schema, w: World, entity: Entity, cells: map<string, Key>) {
    forall r :: r in References(schema, entity) && r.joinColumn.Some? && r.joinColumn.value in cells ==>
      Id(r.related, cells[r.joinColumn.value]) in w.rows
  }

  ghost predicate Sound(schema: Schema, g: Graph, w: World) {
    && (forall v :: v in g ==> KeyStored(g, w, v) && ShadowsStored(schema, g, w, v))
    && (forall id :: id in w.rows ==> RowStored(schema, w, id.entity, w.rows[id]))
    && (forall id :: id in w.rows ==> id.key < w.nextKey)
  }

  ghost predicate KnownBefore(stored: set<Id>, log: seq<Write>, i: nat, id: Id) {
    id in stored || exists j :: 0 <= j < i && j < |log| && log[j].id == id
  }

  /** At write `i` every foreign key points to a row stored at the start or
      written before. */
  ghost predicate InOrderAt(schema: Schema, stored: set<Id>, log: seq<Write>, i: nat)
    requires i < |log|
  {
    forall r :: r in References(schema, log[i].id.entity) && r.joinColumn.Some? && r.joinColumn.value in log[i].cells ==>
      KnownBefore(stored, log, i, Id(r.related, log[i].cells[r.joinColumn.value]))
  }

  ghost predicate InOrder(schema: Schema, stored: set<Id>, log: seq<Write>) {
    forall i :: 0 <= i < |log| ==> InOrderAt(schema, stored, log, i)
  }

  ghost predicate RowsKnown(stored: set<Id>, w: World) {
    forall id :: id in w.rows ==> KnownBefore(stored, w.log, |w.log|, id)
  }

  ghost predicate Consistent(schema: Schema, g: Graph, stored: set<Id>, w: World) {
    Sound(schema, g, w) && InOrder(schema, stored, w.log) && RowsKnown(stored, w)
  }

  // ---------------------------------------------------------------- one step

  lemma {:induction false} CellOrigin(w: World, v: Ref, links: Links, references: seq<Reference>, column: string)
    returns (r: Reference)
    requires column in Cells(w, v, links, references)
    ensures r in references && r.joinColumn == Some(column)
    ensures ForeignKey(w, v, links, r) == Some(Cells(w, v, links, references)[column])
    decreases |references|
  {
    var last := references[|references| - 1];
    if last.joinColumn == Some(column) && ForeignKey(w, v, links, last).Some? {
      r := last;
    } else {
      r := CellOrigin(w, v, links, references[..|references| - 1], column);
    }
  }

  lemma ForeignKeyStored(schema: Schema, g: Graph, w: World, v: Ref, r: Reference)
    requires Complete(g) && WellNamed(schema, g) && Sound(schema, g, w) && v in g
    requires r in References(schema, g[v].entity) && ForeignKey(w, v, g[v], r).Some?
    ensures Id(r.related, ForeignKey(w, v, g[v], r).value) in w.rows
  {
    assert TypedOne(schema, g, v) && ShadowsStored(schema, g, w, v);
    if r.property in g[v].one { assert KeyStored(g, w, g[v].one[r.property]); }
  }

  lemma CellsStored(schema: Schema, g: Graph, w: World, v: Ref)
    requires Complete(g) && WellNamed(schema, g) && Sound(schema, g, w) && v in g
    ensures RowStored(schema, w, g[v].entity, RowCells(schema, w, v, g[v]))
  {
    var cells := RowCells(schema, w, v, g[v]);
    forall r | r in References(schema, g[v].entity) && r.joinColumn.Some? && r.joinColumn.value in cells
      ensures Id(r.related, cells[r.joinColumn.value]) in w.rows
    {
      var s := CellOrigin(w, v, g[v], References(schema, g[v].entity), r.joinColumn.value);
      ForeignKeyStored(schema, g, w, v, s);
      assert ColumnsAgree(schema, g[v].entity);
    }
  }

  lemma MoreRowsStored(schema: Schema, w: World, w': World, entity: Entity, cells: map<string, Key>)
    requires RowStored(schema, w, entity, cells) && w.rows.Keys <= w'.rows.Keys
    ensures RowStored(schema, w', entity, cells)
  {}

  lemma MergedStored(schema: Schema, w: World, entity: Entity, a: map<string, Key>, b: map<string, Key>)
    requires RowStored(schema, w, entity, a) && RowStored(schema, w, entity, b)
    ensures RowStored(schema, w, entity, a + b)
  {}

  lemma WrittenRows(schema: Schema, g: Graph, w: World, v: Ref)
    requires v in g && (KeyOf(w, v).Some? ==> Id(g[v].entity, SavedKey(w, v)) in w.rows)
    ensures var w' := WriteRow(schema, w, v, g[v]);
            var id := Id(g[v].entity, SavedKey(w, v));
            var cells := RowCells(schema, w, v, g[v]);
            && w'.objs == w.objs && w'.rows.Keys == w.rows.Keys + {id}
            && (w'.rows[id] == cells || (id in w.rows && w'.rows[id] == w.rows[id] + cells))
            && (forall x :: x in w.rows && x != id ==> w'.rows[x] == w.rows[x])
            && (id in w.rows || w'.nextKey == id.key + 1) && w.nextKey <= w'.nextKey
  {}

  lemma ObjectsStayStored(schema: Schema, g: Graph, w: World, w': World)
    requires Sound(schema, g, w) && w'.objs == w.objs && w.rows.Keys <= w'.rows.Keys
    ensures forall x :: x in g ==> KeyStored(g, w', x) && ShadowsStored(schema, g, w', x)
  {
    forall x | x in g ensures KeyStored(g, w', x) && ShadowsStored(schema, g, w', x) {
      assert KeyStored(g, w, x) && ShadowsStored(schema, g, w, x);
    }
  }

  lemma WriteIsSound(schema: Schema, g: Graph, w: World, v: Ref)
    requires Complete(g) && WellNamed(schema, g) && Sound(schema, g, w) && v in g
    ensures Sound(schema, g, WriteRow(schema, w, v, g[v]))
    ensures w.rows.Keys + {Id(g[v].entity, SavedKey(w, v))} == WriteRow(schema, w, v, g[v]).rows.Keys
  {
    var w' := WriteRow(schema, w, v, g[v]);
    var cells := RowCells(schema, w, v, g[v]);
    var id := Id(g[v].entity, SavedKey(w, v));
    assert KeyStored(g, w, v);
    WrittenRows(schema, g, w, v);
    ObjectsStayStored(schema, g, w, w');
    CellsStored(schema, g, w, v);
    MoreRowsStored(schema, w, w', g[v].entity, cells);
    forall x | x in w.rows ensures RowStored(schema, w', x.entity, w.rows[x]) {
      MoreRowsStored(schema, w, w', x.entity, w.rows[x]);
    }
    if id in w.rows { MergedStored(schema, w', id.entity, w.rows[id], cells); }
  }

  lemma WriteIsInOrder(schema: Schema, g: Graph, stored: set<Id>, w: World, v: Ref)
    requires Complete(g) && WellNamed(schema, g) && Consistent(schema, g, stored, w) && v in g
    ensures Consistent(schema, g, stored, WriteRow(schema, w, v, g[v]))
  {
    var w' := WriteRow(schema, w, v, g[v]);
    WriteIsSound(schema, g, w, v);
    CellsStored(schema, g, w, v);
    forall i, id | 0 <= i <= |w.log| && KnownBefore(stored, w.log, i, id) ensures KnownBefore(stored, w'.log, i, id) {
      if id !in stored {
        var j :| 0 <= j < i && j < |w.log| && w.log[j].id == id;
        assert w'.log[j] == w.log[j];
      }
    }
    forall i | 0 <= i < |w'.log| ensures InOrderAt(schema, stored, w'.log, i) {
      if i < |w.log| { assert w'.log[i] == w.log[i] && InOrderAt(schema, stored, w.log, i); }
    }
    forall id | id in w'.rows ensures KnownBefore(stored, w'.log, |w'.log|, id) {
      if id in w.rows {
        assert KnownBefore(stored, w'.log, |w.log|, id);
      } else {
        assert w'.log[|w.log|].id == id;
      }
    }
  }

  /** Changing one object keeps the world sound if that object stays sound. */
  lemma SetObjIsSound(schema: Schema, g: Graph, stored: set<Id>, w: World, v: Ref, o: Obj)
    requires Consistent(schema, g, stored, w) && v in g
    requires KeyStored(g, SetObj(w, v, o), v) && ShadowsStored(schema, g, SetObj(w, v, o), v)
    ensures Consistent(schema, g, stored, SetObj(w, v, o))
  {
    var w' := SetObj(w, v, o);
    forall x | x in g ensures KeyStored(g, w', x) && ShadowsStored(schema, g, w', x) {
      if x != v { assert KeyStored(g, w, x) && ShadowsStored(schema, g, w, x); }
    }
    forall id | id in w'.rows ensures RowStored(schema, w', id.entity, w'.rows[id]) {
      assert RowStored(schema, w, id.entity, w.rows[id]);
    }
  }

  lemma ShadowAfter(o: Obj, name: string, key: Key, r: Reference)
    ensures var s := Shadow(o.(fields := o.fields[name := key]), r);
            s == Shadow(o, r) || (s == Some(key) && Shadows(r, name))
  {}

  lemma ShadowAfterAll(o: Obj, keys: FkWriteKeys, key: Key, r: Reference)
    ensures var s := Shadow(Assigned(o, keys, key), r);
            s == Shadow(o, r) || (s == Some(key) && ShadowsAny(r, keys))
  {
    var o1 := o.(fields := o.fields[keys.fkColumn := key]);
    var o2 := o1.(fields := o1.fields[keys.shadowKey := key]);
    ShadowAfter(o, keys.fkColumn, key, r);
    ShadowAfter(o1, keys.shadowKey, key, r);
    if keys.fkProperty.Some? { ShadowAfter(o2, keys.fkProperty.value, key, r); }
  }

  lemma CopyKeyIsSound(schema: Schema, g: Graph, stored: set<Id>, w: World, v: Ref, u: Up)
    requires Complete(g) && v in g && NamedApart(schema, g, v) && Consistent(schema, g, stored, w)
    requires u in Ups(schema, g[v])
    ensures Consistent(schema, g, stored, CopyKey(w, v, u))
  {
    var w' := CopyKey(w, v, u);
    LinksInside(schema, g, v);
    if w' != w {
      var key := KeyOf(w, u.target).value;
      assert KeyStored(g, w, v) && ShadowsStored(schema, g, w, v) && KeyStored(g, w, u.target);
      forall r | r in References(schema, g[v].entity) && Shadow(ObjOf(w', v), r).Some?
        ensures Id(r.related, Shadow(ObjOf(w', v), r).value) in w.rows
      {
        ShadowAfter(ObjOf(w, v), u.reference.joinColumn.value, key, r);
      }
      SetObjIsSound(schema, g, stored, w, v, ObjOf(w', v));
    }
  }

  lemma AssignFkIsSound(schema: Schema, g: Graph, stored: set<Id>, w: World, parent: Ref, d: Down, key: Key)
    requires Complete(g) && WellNamed(schema, g) && Consistent(schema, g, stored, w)
    requires parent in g && d in Downs(schema, g[parent]) && Id(g[parent].entity, key) in w.rows
    ensures d.target in g && Consistent(schema, g, stored, AssignFk(w, d.target, d.keys, key))
  {
    LinksInside(schema, g, parent);
    var t := d.target;
    var w' := AssignFk(w, t, d.keys, key);
    assert KeyStored(g, w, t) && ShadowsStored(schema, g, w, t);
    forall r | r in References(schema, g[t].entity) && Shadow(ObjOf(w', t), r).Some?
      ensures Id(r.related, Shadow(ObjOf(w', t), r).value) in w.rows
    {
      ShadowAfterAll(ObjOf(w, t), d.keys, key, r);
      assert NamedApart(schema, g, parent);
    }
    SetObjIsSound(schema, g, stored, w, t, ObjOf(w', t));
  }

  lemma AssignKeyIsSound(schema: Schema, g: Graph, stored: set<Id>, w: World, v: Ref, key: Key)
    requires Consistent(schema, g, stored, w) && v in g && Id(g[v].entity, key) in w.rows
    ensures Consistent(schema, g, stored, AssignKey(w, v, key))
  {
    assert ShadowsStored(schema, g, w, v);
    var w' := AssignKey(w, v, key);
    forall r ensures Shadow(ObjOf(w', v), r) == Shadow(ObjOf(w, v), r) {}
    SetObjIsSound(schema, g, stored, w, v, ObjOf(w', v));
  }

  // --------------------------------------------------------------- whole runs

  /** No write of a cascading save, cycles included, stores a foreign key whose
      row is not there yet. */
  lemma {:induction false} SaveKeepsIntegrity(schema: Schema, g: Graph, stored: set<Id>, w: World, v: Ref, chain: set<Ref>)
    returns (w': World)
    requires Complete(g) && WellNamed(schema, g) && Consistent(schema, g, stored, w) && v in g && v !in chain
    ensures w' == Save(schema, g, w, v, chain)
    ensures Consistent(schema, g, stored, w') && w.rows.Keys <= w'.rows.Keys
    decreases |g.Keys - chain|, 0
  {
    FewerLeft(g.Keys, chain, v);
    LinksInside(schema, g, v);
    var inside := chain + {v};
    var w1 := UpsKeepIntegrity(schema, g, stored, w, v, Ups(schema, g[v]), inside);
    var key := SavedKey(w1, v);
    var w2 := WriteRow(schema, w1, v, g[v]);
    WriteIsInOrder(schema, g, stored, w1, v);
    WriteIsSound(schema, g, w1, v);
    var w3 := DownsKeepIntegrity(schema, g, stored, w2, v, key, Downs(schema, g[v]), inside);
    w' := AssignKey(w3, v, key);
    AssignKeyIsSound(schema, g, stored, w3, v, key);
  }

  lemma {:induction false} UpsKeepIntegrity(schema: Schema, g: Graph, stored: set<Id>, w: World, v: Ref, ups: seq<Up>,
                                            chain: set<Ref>)
    returns (w': World)
    requires Complete(g) && WellNamed(schema, g) && Consistent(schema, g, stored, w) && Inside(g, ups, [])
    requires v in g && (forall u :: u in ups ==> u in Ups(schema, g[v]))
    ensures w' == SaveUps(schema, g, w, v, ups, chain)
    ensures Consistent(schema, g, stored, w') && w.rows.Keys <= w'.rows.Keys
    decreases |g.Keys - chain|, 1 + |ups|
  {
    if ups == [] {
      w' := w;
    } else if ups[0].target in chain {
      w' := UpsKeepIntegrity(schema, g, stored, w, v, ups[1..], chain);
    } else {
      var w1 := SaveKeepsIntegrity(schema, g, stored, w, ups[0].target, chain);
      CopyKeyIsSound(schema, g, stored, w1, v, ups[0]);
      w' := UpsKeepIntegrity(schema, g, stored, CopyKey(w1, v, ups[0]), v, ups[1..], chain);
    }
  }

  lemma {:induction false} DownsKeepIntegrity(schema: Schema, g: Graph, stored: set<Id>, w: World, parent: Ref, key: Key,
                                              downs: seq<Down>, chain: set<Ref>)
    returns (w': World)
    requires Complete(g) && WellNamed(schema, g) && Consistent(schema, g, stored, w) && Inside(g, [], downs)
    requires parent in g && Id(g[parent].entity, key) in w.rows
    requires forall d :: d in downs ==> d in Downs(schema, g[parent])
    ensures w' == SaveDowns(schema, g, w, key, downs, chain)
    ensures Consistent(schema, g, stored, w') && w.rows.Keys <= w'.rows.Keys
    decreases |g.Keys - chain|, 1 + |downs|
  {
    if downs == [] {
      w' := w;
    } else if downs[0].target in chain {
      w' := DownsKeepIntegrity(schema, g, stored, w, parent, key, downs[1..], chain);
    } else {
      var d := downs[0];
      AssignFkIsSound(schema, g, stored, w, parent, d, key);
      var w1 := SaveKeepsIntegrity(schema, g, stored, AssignFk(w, d.target, d.keys, key), d.target, chain);
      w' := DownsKeepIntegrity(schema, g, stored, w1, parent, key, downs[1..], chain);
    }
  }

  // -------------------------------------------- which key a row stores

  lemma OneWrite(a: seq<Write>, b: seq<Write>, c: seq<Write>, d: seq<Write>, v: Ref)
    requires a <= b <= c <= d && |c| == |b| + 1
    requires v !in Written(a, b) && v !in Written(c, d)
    ensures d[|b|] == c[|b|]
    ensures forall i :: |a| <= i < |d| && d[i].ref == v ==> i == |b|
  {
    forall i | |a| <= i < |d| && i != |b| ensures d[i].ref != v {
      if i < |b| {
        assert d[i] == b[i] && b[i].ref in Written(a, b);
      } else {
        assert d[i].ref in Written(c, d);
      }
    }
  }

  /** Where the write of `v` itself is in the log of its save: after the saves
      of what it references, before those of its dependents, and only once. */
  lemma OwnWrite(schema: Schema, g: Graph, w: World, v: Ref, chain: set<Ref>) returns (w1: World, w': World)
    requires Complete(g) && v in g && v !in chain
    ensures w' == Save(schema, g, w, v, chain)
    ensures Inside(g, Ups(schema, g[v]), []) && w1 == SaveUps(schema, g, w, v, Ups(schema, g[v]), chain + {v})
    ensures w.log <= w1.log < w'.log
    ensures w'.log[|w1.log|]
            == Write(v, Id(g[v].entity, SavedKey(w1, v)), KeyOf(w1, v).None?, RowCells(schema, w1, v, g[v]))
    ensures forall i :: |w.log| <= i < |w'.log| && w'.log[i].ref == v ==> i == |w1.log|
    ensures KeyOf(w', v) == Some(SavedKey(w1, v))
    ensures Below(w, w1, chain + {v}, {v}) && Keyed(w, w1)
    ensures forall u :: u in Ups(schema, g[v]) ==> u.target in Written(w.log, w1.log) + (chain + {v})
    ensures forall d :: d in Downs(schema, g[v]) ==> d.target in Written(w'.log[..|w1.log| + 1], w'.log) + (chain + {v})
    ensures forall x {:trigger KeyOf(w', x)} :: KeyOf(w1, x).Some? ==> KeyOf(w', x) == KeyOf(w1, x)
  {
    var w2, w3;
    w1, w2, w3, w' := SaveParts(schema, g, w, v, chain);
    OneWrite(w.log, w1.log, w2.log, w3.log, v);
    assert w'.log[..|w1.log| + 1] == w2.log;
    KeysOutlast(schema, g, w1, w2, w3, v, chain + {v});
  }

  /** A save is its references, its own write, its dependents, and its key. */
  lemma SaveParts(schema: Schema, g: Graph, w: World, v: Ref, chain: set<Ref>)
    returns (w1: World, w2: World, w3: World, w': World)
    requires Complete(g) && v in g && v !in chain
    ensures Inside(g, Ups(schema, g[v]), []) && w1 == SaveUps(schema, g, w, v, Ups(schema, g[v]), chain + {v})
    ensures w2 == WriteRow(schema, w1, v, g[v])
    ensures w' == Save(schema, g, w, v, chain) && w' == AssignKey(w3, v, SavedKey(w1, v))
    ensures Below(w, w1, chain + {v}, {v}) && Keyed(w, w1) && Below(w2, w3, chain + {v}, {})
    ensures forall u :: u in Ups(schema, g[v]) ==> u.target in Written(w.log, w1.log) + (chain + {v})
    ensures forall d :: d in Downs(schema, g[v]) ==> d.target in Written(w2.log, w3.log) + (chain + {v})
  {
    FewerLeft(g.Keys, chain, v);
    LinksInside(schema, g, v);
    GraphIsClosed(schema, g);
    var inside := chain + {v};
    w1 := UpsCovered(schema, g, w, v, Ups(schema, g[v]), inside, g.Keys);
    w2 := WriteRow(schema, w1, v, g[v]);
    w3 := DownsCovered(schema, g, w2, SavedKey(w1, v), Downs(schema, g[v]), inside, g.Keys);
    w' := AssignKey(w3, v, SavedKey(w1, v));
  }

  lemma KeysOutlast(schema: Schema, g: Graph, w1: World, w2: World, w3: World, v: Ref, chain: set<Ref>)
    requires v in g && v in chain && w2 == WriteRow(schema, w1, v, g[v]) && Below(w2, w3, chain, {})
    ensures forall x {:trigger KeyOf(AssignKey(w3, v, SavedKey(w1, v)), x)} ::
              KeyOf(w1, x).Some? ==> KeyOf(AssignKey(w3, v, SavedKey(w1, v)), x) == KeyOf(w1, x)
  {
    forall x | KeyOf(w1, x).Some? ensures KeyOf(AssignKey(w3, v, SavedKey(w1, v)), x) == KeyOf(w1, x) {
      assert KeyOf(w2, x) == KeyOf(w1, x) && KeyOf(w3, x) == KeyOf(w2, x);
    }
  }

  /** No two relations of an entity share a join column. */
  predicate OwnColumn(references: seq<Reference>, r: Reference) {
    r.joinColumn.Some? && forall s :: s in references && s.joinColumn == r.joinColumn ==> s == r
  }

  lemma {:induction false} CellOf(w: World, v: Ref, links: Links, references: seq<Reference>, r: Reference)
    requires r in references && OwnColumn(references, r)
    ensures r.joinColumn.value in Cells(w, v, links, references) <==> ForeignKey(w, v, links, r).Some?
    ensures r.joinColumn.value in Cells(w, v, links, references) ==>
              Some(Cells(w, v, links, references)[r.joinColumn.value]) == ForeignKey(w, v, links, r)
    decreases |references|
  {
    var last := references[|references| - 1];
    var front := references[..|references| - 1];
    if last != r {
      CellOf(w, v, links, front, r);
    } else if r in front {
      CellOf(w, v, links, front, r);
    } else {
      assert forall s :: s in front ==> s in references;
      if r.joinColumn.value in Cells(w, v, links, front) {
        var s := CellOrigin(w, v, links, front, r.joinColumn.value);
      }
    }
  }

  /** No key the save of `v` copies to a join column is read as `r`'s shadow. */
  ghost predicate ShadowApart(schema: Schema, g: Graph, v: Ref, r: Reference)
    requires v in g
  {
    forall u :: u in Ups(schema, g[v]) && u.reference != r && u.reference.joinColumn.Some? ==>
      !Shadows(r, u.reference.joinColumn.value)
  }

  lemma {:induction false} UpsKeepShadow(schema: Schema, g: Graph, w: World, v: Ref, ups: seq<Up>, chain: set<Ref>, r: Reference)
    requires Complete(g) && Inside(g, ups, []) && v in chain
    requires forall u :: u in ups && u.target !in chain && u.reference.joinColumn.Some? ==>
               !Shadows(r, u.reference.joinColumn.value)
    ensures Shadow(ObjOf(SaveUps(schema, g, w, v, ups, chain), v), r) == Shadow(ObjOf(w, v), r)
    decreases |ups|
  {
    if ups != [] {
      var u := ups[0];
      if u.target in chain {
        UpsKeepShadow(schema, g, w, v, ups[1..], chain, r);
      } else {
        UpKeepsShadow(schema, g, w, v, u, chain, r);
        UpsKeepShadow(schema, g, CopyKey(Save(schema, g, w, u.target, chain), v, u), v, ups[1..], chain, r);
      }
    }
  }

  lemma UpKeepsShadow(schema: Schema, g: Graph, w: World, v: Ref, u: Up, chain: set<Ref>, r: Reference)
    requires Complete(g) && v in chain && u.target in g && u.target !in chain
    requires u.reference.joinColumn.Some? ==> !Shadows(r, u.reference.joinColumn.value)
    ensures Shadow(ObjOf(CopyKey(Save(schema, g, w, u.target, chain), v, u), v), r) == Shadow(ObjOf(w, v), r)
  {
    GraphIsClosed(schema, g);
    var w0 := SaveCovers(schema, g, w, u.target, chain, g.Keys);
    assert ObjOf(w0, v) == ObjOf(w, v);
  }

  /** The row of `v` stores the key of a target the cascade saves through; the
      target's row was written first. */
  lemma ReferenceIsStored(schema: Schema, g: Graph, w: World, v: Ref, chain: set<Ref>, u: Up)
    requires Complete(g) && v in g && v !in chain && u in Ups(schema, g[v]) && u.target !in chain + {v}
    requires OwnColumn(References(schema, g[v].entity), u.reference)
    ensures var w' := Save(schema, g, w, v, chain);
            exists i, j :: |w.log| <= i < j < |w'.log| && w'.log[i].ref == u.target && w'.log[j].ref == v
                           && u.reference.joinColumn.value in w'.log[j].cells
                           && Some(w'.log[j].cells[u.reference.joinColumn.value]) == KeyOf(w', u.target)
  {
    var w1, w' := OwnWrite(schema, g, w, v, chain);
    assert u.target in Written(w.log, w1.log);
    var i :| |w.log| <= i < |w1.log| && w1.log[i].ref == u.target;
    assert w'.log[i] == w1.log[i];
    CellOf(w1, v, g[v], References(schema, g[v].entity), u.reference);
    assert KeyOf(w', u.target) == KeyOf(w1, u.target);
  }

  /** A row lacks the key of a relation exactly when the object the relation
      holds is being saved up the stack, has no key yet, and its saver has put
      none on the row's object: the cascade is told of that object too late. */
  lemma ReferenceIsLostIff(schema: Schema, g: Graph, w: World, v: Ref, chain: set<Ref>, u: Up)
    requires Complete(g) && v in g && v !in chain && u in Ups(schema, g[v])
    requires OwnColumn(References(schema, g[v].entity), u.reference) && ShadowApart(schema, g, v, u.reference)
    ensures var w' := Save(schema, g, w, v, chain);
            exists j :: |w.log| <= j < |w'.log| && w'.log[j].ref == v
              && (u.reference.joinColumn.value !in w'.log[j].cells <==>
                  u.target in chain + {v} && KeyOf(w, u.target).None? && Shadow(ObjOf(w, v), u.reference).None?)
  {
    var w1, w' := OwnWrite(schema, g, w, v, chain);
    CellOf(w1, v, g[v], References(schema, g[v].entity), u.reference);
    if u.target in chain + {v} {
      assert KeyOf(w1, u.target) == KeyOf(w, u.target);
      forall x | x in Ups(schema, g[v]) && x.target !in chain + {v} && x.reference.joinColumn.Some?
        ensures !Shadows(u.reference, x.reference.joinColumn.value)
      {
        assert x.reference != u.reference;
      }
      UpsKeepShadow(schema, g, w, v, Ups(schema, g[v]), chain + {v}, u.reference);
    }
    assert w'.log[|w1.log|].ref == v;
  }

  /** A dependent's row stores its parent's key, assigned before its own save,
      unless the dependent holds some other object in the relation back. */
  lemma DependentHoldsParentKey(schema: Schema, g: Graph, w: World, parent: Ref, key: Key, d: Down, chain: set<Ref>,
                                back: Reference)
    requires Complete(g) && parent in g && d in Downs(schema, g[parent]) && d.target in g
    requires parent in chain && d.target !in chain && (KeyOf(w, parent).Some? ==> KeyOf(w, parent) == Some(key))
    requires back in References(schema, g[d.target].entity) && back.property + "Id" == d.keys.shadowKey
    requires OwnColumn(References(schema, g[d.target].entity), back) && ShadowApart(schema, g, d.target, back)
    requires back.property in g[d.target].one ==> g[d.target].one[back.property] == parent
    ensures var w' := Save(schema, g, AssignFk(w, d.target, d.keys, key), d.target, chain);
            exists j :: |w.log| <= j < |w'.log| && w'.log[j].ref == d.target
                        && back.joinColumn.value in w'.log[j].cells && w'.log[j].cells[back.joinColumn.value] == key
  {
    var c := d.target;
    var w0 := AssignFk(w, c, d.keys, key);
    AssignFkBelow(w, c, d.keys, key, chain);
    var w1, w' := OwnWrite(schema, g, w0, c, chain);
    CellOf(w1, c, g[c], References(schema, g[c].entity), back);
    forall x | x in Ups(schema, g[c]) && x.target !in chain + {c} && x.reference.joinColumn.Some?
      ensures !Shadows(back, x.reference.joinColumn.value)
    {}
    UpsKeepShadow(schema, g, w0, c, Ups(schema, g[c]), chain + {c}, back);
    assert KeyOf(w1, parent) == KeyOf(w0, parent) == KeyOf(w, parent);
    assert w'.log[|w1.log|].ref == c;
  }
}
