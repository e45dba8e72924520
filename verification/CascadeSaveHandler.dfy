/** The cascade as it runs: methods that walk the caller's objects, write keys
    onto them in place and issue one INSERT or UPDATE per saved object. */
module CascadeSaveHandler {
  import opened Metadata
  import opened Digraphs
  import opened CascadeSave
  import opened CascadeSaveProofs
  import opened CascadeSaveLaws
  import opened CascadeSaveMeaning

  lemma FirstUp(schema: Schema, g: Graph, w: World, v: Ref, u: Up, rest: seq<Up>, chain: set<Ref>)
    requires Complete(g) && Inside(g, [u] + rest, [])
    ensures u.target in g && Inside(g, rest, [])
    ensures SaveUps(schema, g, w, v, [u] + rest, chain)
            == SaveUps(schema, g, if u.target in chain then w else CopyKey(Save(schema, g, w, u.target, chain), v, u),
                       v, rest, chain)
  {
    assert u in [u] + rest && ([u] + rest)[1..] == rest;
    assert forall x :: x in rest ==> x in [u] + rest;
  }

  lemma FirstDown(schema: Schema, g: Graph, w: World, key: Key, d: Down, rest: seq<Down>, chain: set<Ref>)
    requires Complete(g) && Inside(g, [], [d] + rest)
    ensures d.target in g && Inside(g, [], rest)
    ensures SaveDowns(schema, g, w, key, [d] + rest, chain)
            == SaveDowns(schema, g, if d.target in chain then w
                                    else Save(schema, g, AssignFk(w, d.target, d.keys, key), d.target, chain),
                         key, rest, chain)
  {
    assert d in [d] + rest && ([d] + rest)[1..] == rest;
    assert forall x :: x in rest ==> x in [d] + rest;
  }

  lemma NextChildren(schema: Schema, relations: seq<OneToMany>, links: Links, i: nat, later: seq<Down>)
    requires i < |relations| && relations[i].property in links.many && CascadesSave(relations[i].cascade)
    ensures ChildDowns(schema, relations[i..], links) + later
            == DownsTo(links.many[relations[i].property], FkKeysOfChild(schema, relations[i]))
               + (ChildDowns(schema, relations[i + 1..], links) + later)
  {
    assert relations[i..][1..] == relations[i + 1..];
  }

  lemma NextChild(children: seq<Ref>, keys: FkWriteKeys, i: nat, rest: seq<Down>)
    requires i < |children|
    ensures DownsTo(children[i..], keys) + rest == [Down(children[i], keys)] + (DownsTo(children[i + 1..], keys) + rest)
  {
    assert children[i..][1..] == children[i + 1..];
  }

  /** A relation that names no counterpart to save adds nothing. */
  lemma CounterpartSkipped(schema: Schema, relations: seq<OneToOne>, links: Links, i: nat)
    requires i < |relations|
    requires var rel := relations[i];
             || rel.joinColumn.Some? || rel.inverseSide.None? || !CascadesSave(rel.cascade) || rel.property !in links.one
             || OwningOneToOne(DeclaredBy(schema, rel.related).oneToOne, rel.inverseSide.value).None?
    ensures CounterpartDowns(schema, relations[i..], links) == CounterpartDowns(schema, relations[i + 1..], links)
  {
    assert relations[i..][1..] == relations[i + 1..];
  }

  lemma CounterpartNext(schema: Schema, relations: seq<OneToOne>, links: Links, i: nat, owner: OneToOne)
    requires i < |relations|
    requires var rel := relations[i];
             && rel.joinColumn.None? && rel.inverseSide.Some? && CascadesSave(rel.cascade) && rel.property in links.one
             && OwningOneToOne(DeclaredBy(schema, rel.related).oneToOne, rel.inverseSide.value) == Some(owner)
    ensures CounterpartDowns(schema, relations[i..], links)
            == DownsTo([links.one[relations[i].property]], FkKeysOfCounterpart(owner))
               + CounterpartDowns(schema, relations[i + 1..], links)
  {
    assert relations[i..][1..] == relations[i + 1..];
  }

  /** Saving the children from `i` on is saving child `i`, then those after it. */
  lemma ChildStep(schema: Schema, g: Graph, w: World, children: seq<Ref>, keys: FkWriteKeys, key: Key, i: nat,
                  rest: seq<Down>, chain: set<Ref>)
    requires Complete(g) && i < |children| && Inside(g, [], DownsTo(children[i..], keys) + rest)
    ensures children[i] in g && Inside(g, [], DownsTo(children[i + 1..], keys) + rest)
    ensures SaveDowns(schema, g, w, key, DownsTo(children[i..], keys) + rest, chain)
            == SaveDowns(schema, g, if children[i] in chain then w
                                    else Save(schema, g, AssignFk(w, children[i], keys, key), children[i], chain),
                         key, DownsTo(children[i + 1..], keys) + rest, chain)
  {
    NextChild(children, keys, i, rest);
    FirstDown(schema, g, w, key, Down(children[i], keys), DownsTo(children[i + 1..], keys) + rest, chain);
  }

  lemma NoChildrenLeft(children: seq<Ref>, keys: FkWriteKeys, rest: seq<Down>)
    ensures DownsTo(children[0..], keys) + rest == DownsTo(children, keys) + rest
    ensures DownsTo(children[|children|..], keys) + rest == rest
  {
    assert children[0..] == children;
    assert children[|children|..] == [];
  }

  class CascadeHandler {
    const schema: Schema
    const graph: Graph
    var objs: map<Ref, Obj>
    var rows: map<Id, map<string, Key>>
    var nextKey: Key
    var log: seq<Write>

    constructor (schema: Schema, graph: Graph, w: World)
      ensures this.schema == schema && this.graph == graph && Contents() == w
    {
      this.schema := schema;
      this.graph := graph;
      objs := w.objs;
      rows := w.rows;
      nextKey := w.nextKey;
      log := w.log;
    }

    ghost function Contents(): World
      reads this
    {
      World(objs, rows, nextKey, log)
    }

    method Get(v: Ref) returns (o: Obj)
      ensures o == ObjOf(Contents(), v)
    {
      o := if v in objs then objs[v] else Obj(None, map[]);
    }

    /** The key a row stores for a relation of `v`. */
    method ResolveFkValue(v: Ref, r: Reference) returns (key: Option<Key>)
      requires v in graph
      ensures key == ForeignKey(Contents(), v, graph[v], r)
    {
      if r.property in graph[v].one {
        var target := Get(graph[v].one[r.property]);
        if target.key.Some? { return target.key; }
      }
      var o := Get(v);
      return Shadow(o, r);
    }

    /** INSERT or UPDATE of `v`, with the key of each relation its row holds. */
    method WriteItem(v: Ref) returns (key: Key)
      requires v in graph
      modifies this
      ensures key == old(SavedKey(Contents(), v))
      ensures Contents() == WriteRow(schema, old(Contents()), v, graph[v])
    {
      ghost var w := Contents();
      var references := References(schema, graph[v].entity);
      var cells: map<string, Key> := map[];
      for i := 0 to |references|
        invariant Contents() == w
        invariant cells == Cells(w, v, graph[v], references[..i])
      {
        assert references[..i + 1][..i] == references[..i];
        var value := ResolveFkValue(v, references[i]);
        if references[i].joinColumn.Some? && value.Some? {
          cells := cells[references[i].joinColumn.value := value.value];
        }
      }
      assert references[..|references|] == references;
      assert cells == RowCells(schema, w, v, graph[v]);
      var o := Get(v);
      if o.key.None? {
        key := nextKey;
        nextKey := nextKey + 1;
        rows := rows[Id(graph[v].entity, key) := cells];
      } else {
        key := o.key.value;
        var id := Id(graph[v].entity, key);
        if id in rows { rows := rows[id := rows[id] + cells]; }
      }
      log := log + [Write(v, Id(graph[v].entity, key), o.key.None?, cells)];
    }

    /** The body of a save: what the row references, the row, its dependents,
        and only then the generated key on the object. */
    method SaveItem(v: Ref, chain: set<Ref>)
      requires Complete(graph) && v in graph && v !in chain
      modifies this
      ensures Contents() == Save(schema, graph, old(Contents()), v, chain)
      decreases |graph.Keys - chain|, 0
    {
      FewerLeft(graph.Keys, chain, v);
      LinksInside(schema, graph, v);
      CascadeSaveManyToOne(v, chain + {v});
      var key := WriteItem(v);
      CascadeSaveOneToMany(v, key, chain + {v});
      var o := Get(v);
      objs := objs[v := o.(key := Some(key))];
    }

    method CascadeSaveManyToOne(v: Ref, chain: set<Ref>)
      requires Complete(graph) && v in graph && v in chain && Inside(graph, Ups(schema, graph[v]), [])
      modifies this
      ensures Contents() == SaveUps(schema, graph, old(Contents()), v, Ups(schema, graph[v]), chain)
      decreases |graph.Keys - chain|, 2
    {
      var references := References(schema, graph[v].entity);
      var links := graph[v];
      for i := 0 to |references|
        invariant Inside(graph, UpsAlong(references[i..], links), [])
        invariant SaveUps(schema, graph, Contents(), v, UpsAlong(references[i..], links), chain)
                  == SaveUps(schema, graph, old(Contents()), v, Ups(schema, links), chain)
      {
        var rel := references[i];
        assert references[i..][1..] == references[i + 1..];
        ghost var rest := UpsAlong(references[i + 1..], links);
        if rel.property !in links.one || !rel.saves { continue; }
        var target := links.one[rel.property];
        assert UpsAlong(references[i..], links) == [Up(target, rel)] + rest;
        FirstUp(schema, graph, Contents(), v, Up(target, rel), rest, chain);
        if target in chain { continue; }
        SaveItem(target, chain);
        CopySavedKey(v, target, rel);
      }
    }

    /** A ManyToOne also copies the key of the object just saved. */
    method CopySavedKey(v: Ref, target: Ref, rel: Reference)
      modifies this
      ensures Contents() == CopyKey(old(Contents()), v, Up(target, rel))
    {
      var saved := Get(target);
      if rel.manyToOne && rel.joinColumn.Some? && saved.key.Some? {
        var o := Get(v);
        objs := objs[v := o.(fields := o.fields[rel.joinColumn.value := saved.key.value])];
      }
    }

    /** The children of each OneToMany, then the counterpart of each inverse
        OneToOne. */
    method CascadeSaveOneToMany(v: Ref, key: Key, chain: set<Ref>)
      requires Complete(graph) && v in graph && v in chain && Inside(graph, [], Downs(schema, graph[v]))
      modifies this
      ensures Contents() == SaveDowns(schema, graph, old(Contents()), key, Downs(schema, graph[v]), chain)
      decreases |graph.Keys - chain|, 4
    {
      SaveOneToMany(v, key, chain, CounterpartDowns(schema, DeclaredBy(schema, graph[v].entity).oneToOne, graph[v]));
      SaveInverseOneToOne(v, key, chain);
    }

    method SaveOneToMany(v: Ref, key: Key, chain: set<Ref>, ghost later: seq<Down>)
      requires Complete(graph) && v in graph
      requires Inside(graph, [], ChildDowns(schema, DeclaredBy(schema, graph[v].entity).oneToMany, graph[v]) + later)
      modifies this
      ensures Inside(graph, [], later)
      ensures SaveDowns(schema, graph, Contents(), key, later, chain)
              == old(SaveDowns(schema, graph, Contents(), key,
                       ChildDowns(schema, DeclaredBy(schema, graph[v].entity).oneToMany, graph[v]) + later, chain))
      decreases |graph.Keys - chain|, 3
    {
      var relations := DeclaredBy(schema, graph[v].entity).oneToMany;
      var links := graph[v];
      ghost var total := SaveDowns(schema, graph, Contents(), key, ChildDowns(schema, relations, links) + later, chain);
      for i := 0 to |relations|
        invariant Inside(graph, [], ChildDowns(schema, relations[i..], links) + later)
        invariant SaveDowns(schema, graph, Contents(), key, ChildDowns(schema, relations[i..], links) + later, chain)
                  == total
      {
        var rel := relations[i];
        assert relations[i..][1..] == relations[i + 1..];
        if rel.property !in links.many || !CascadesSave(rel.cascade) { continue; }
        var children := links.many[rel.property];
        var keys := FkKeysOfChild(schema, rel);
        ghost var rest := ChildDowns(schema, relations[i + 1..], links) + later;
        NextChildren(schema, relations, links, i, later);
        SaveChildren(children, keys, key, chain, rest);
      }
      assert ChildDowns(schema, relations[|relations|..], links) + later == later;
    }

    method SaveInverseOneToOne(v: Ref, key: Key, chain: set<Ref>)
      requires Complete(graph) && v in graph
      requires Inside(graph, [], CounterpartDowns(schema, DeclaredBy(schema, graph[v].entity).oneToOne, graph[v]))
      modifies this
      ensures Contents() == old(SaveDowns(schema, graph, Contents(), key,
                CounterpartDowns(schema, DeclaredBy(schema, graph[v].entity).oneToOne, graph[v]), chain))
      decreases |graph.Keys - chain|, 3
    {
      var relations := DeclaredBy(schema, graph[v].entity).oneToOne;
      var links := graph[v];
      ghost var total := SaveDowns(schema, graph, Contents(), key, CounterpartDowns(schema, relations, links), chain);
      for i := 0 to |relations|
        invariant Inside(graph, [], CounterpartDowns(schema, relations[i..], links))
        invariant SaveDowns(schema, graph, Contents(), key, CounterpartDowns(schema, relations[i..], links), chain) == total
      {
        var rel := relations[i];
        if rel.joinColumn.Some? || rel.inverseSide.None? || !CascadesSave(rel.cascade) || rel.property !in links.one {
          CounterpartSkipped(schema, relations, links, i);
          continue;
        }
        var owner := OwningOneToOne(DeclaredBy(schema, rel.related).oneToOne, rel.inverseSide.value);
        if owner.None? {
          CounterpartSkipped(schema, relations, links, i);
          continue;
        }
        CounterpartNext(schema, relations, links, i, owner.value);
        SaveChildren([links.one[rel.property]], FkKeysOfCounterpart(owner.value), key, chain,
                     CounterpartDowns(schema, relations[i + 1..], links));
      }
    }

    /** Gives each dependent the parent's key and saves it, ancestors left out. */
    method SaveChildren(children: seq<Ref>, keys: FkWriteKeys, key: Key, chain: set<Ref>, ghost rest: seq<Down>)
      requires Complete(graph) && Inside(graph, [], DownsTo(children, keys) + rest)
      modifies this
      ensures Inside(graph, [], rest)
      ensures SaveDowns(schema, graph, Contents(), key, rest, chain)
              == old(SaveDowns(schema, graph, Contents(), key, DownsTo(children, keys) + rest, chain))
      decreases |graph.Keys - chain|, 2
    {
      ghost var total := SaveDowns(schema, graph, Contents(), key, DownsTo(children, keys) + rest, chain);
      NoChildrenLeft(children, keys, rest);
      for i := 0 to |children|
        invariant Inside(graph, [], DownsTo(children[i..], keys) + rest)
        invariant SaveDowns(schema, graph, Contents(), key, DownsTo(children[i..], keys) + rest, chain) == total
      {
        ChildStep(schema, graph, Contents(), children, keys, key, i, rest, chain);
        SaveChild(children[i], keys, key, chain);
      }
    }

    /** One child takes the parent's key and is saved, unless it is being saved up
        the stack. */
    method SaveChild(child: Ref, keys: FkWriteKeys, key: Key, chain: set<Ref>)
      requires Complete(graph) && child in graph
      modifies this
      ensures Contents() == if child in chain then old(Contents())
                            else Save(schema, graph, AssignFk(old(Contents()), child, keys, key), child, chain)
      decreases |graph.Keys - chain|, 1
    {
      if child in chain { return; }
      var o := Get(child);
      objs := objs[child := Assigned(o, keys, key)];
      SaveItem(child, chain);
    }

    /** The caller's save: no cascade is running. It writes the root and all that
        its objects hold in relations with a save cascade, and nothing else. */
    method SaveRoot(root: Ref)
      requires Complete(graph) && root in graph
      modifies this
      ensures old(log) <= log
      ensures Contents() == Save(schema, graph, old(Contents()), root, {})
      ensures Whole(schema, graph, root, Written(old(log), log))
      ensures forall s: set<Ref> :: Whole(schema, graph, root, s) ==> Written(old(log), log) <= s
      ensures forall v :: v in Written(old(log), log) ==> KeyOf(Contents(), v).Some?
      ensures old(InsertedOnce(log) && Pending(Contents(), {})) ==> InsertedOnce(log)
      ensures WellNamed(schema, graph) && old(log == [] && Sound(schema, graph, Contents())) ==>
                Sound(schema, graph, Contents()) && InOrder(schema, old(rows.Keys), log)
    {
      ghost var w := Contents();
      SaveWritesLeast(schema, graph, w, root);
      GraphIsClosed(schema, graph);
      ghost var w' := SaveCovers(schema, graph, w, root, {}, graph.Keys);
      if InsertedOnce(log) && Pending(w, {}) { SaveInsertsOnce(schema, graph, w, root, {}); }
      if WellNamed(schema, graph) && log == [] && Sound(schema, graph, w) {
        var w'' := SaveKeepsIntegrity(schema, graph, rows.Keys, w, root, {});
      }
      SaveItem(root, {});
    }
  }
}
