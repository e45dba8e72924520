/** Joined-table inheritance: a logical row is split over the root's table and
    its subclass's, and put together again by the reads. */
module JoinedTables {
  import opened Metadata

  datatype Column = Column(property: string, name: string, primary: bool)

  /** An entity class of the hierarchy: its table, its columns (a subclass's
      include the inherited ones), the join columns of its relations (None for
      an inverse side) and the generated columns it declares. */
  datatype Class = Class(table: string, columns: seq<Column>, manyToOne: seq<Option<string>>,
                         oneToOne: seq<Option<string>>, computed: seq<string>)

  datatype Hierarchy = Hierarchy(root: Class, subclasses: seq<Class>)

  // ------------------------------------------------------------------ columns

  /** Adding to an insertion-ordered set. */
  function Add(seen: seq<string>, name: string): seq<string> {
    if name in seen then seen else seen + [name]
  }

  function AddAll(seen: seq<string>, names: seq<string>): seq<string>
    decreases |names|
  {
    if names == [] then seen else AddAll(Add(seen, names[0]), names[1..])
  }

  function Present(joins: seq<Option<string>>): seq<string> {
    if joins == [] then []
    else (if joins[0].Some? then [joins[0].value] else []) + Present(joins[1..])
  }

  function NamesOf(columns: seq<Column>): seq<string> {
    if columns == [] then [] else [columns[0].name] + NamesOf(columns[1..])
  }

  function NonKeys(columns: seq<Column>): seq<Column> {
    if columns == [] then [] else (if columns[0].primary then [] else [columns[0]]) + NonKeys(columns[1..])
  }

  function Keys(columns: seq<Column>): seq<Column> {
    if columns == [] then [] else (if columns[0].primary then [columns[0]] else []) + Keys(columns[1..])
  }

  function PrimaryKey(c: Class): Option<string> {
    if Keys(c.columns) == [] then None else Some(Keys(c.columns)[0].name)
  }

  /** What the root's table holds besides the key. */
  function RootColumns(root: Class): seq<string> {
    AddAll(AddAll(AddAll(AddAll([], NamesOf(NonKeys(root.columns))), Present(root.manyToOne)), Present(root.oneToOne)),
           root.computed)
  }

  /** Every column of the root's table. */
  function RootTableColumns(root: Class): seq<string> {
    AddAll(RootColumns(root), NamesOf(Keys(root.columns)))
  }

  /** Every column a subclass has, wherever it is stored. */
  function ClassColumns(c: Class): seq<string> {
    AddAll(AddAll(AddAll(AddAll([], NamesOf(c.columns)), Present(c.manyToOne)), Present(c.oneToOne)), c.computed)
  }

  function Without(names: seq<string>, gone: seq<string>): seq<string> {
    if names == [] then [] else (if names[0] in gone then [] else [names[0]]) + Without(names[1..], gone)
  }

  /** What a subclass's own table holds, its key included. */
  function ChildColumns(h: Hierarchy, c: Class): seq<string> {
    Without(ClassColumns(c), RootColumns(h.root))
  }

  /** The columns a class does not share, by property, with the root. */
  function OwnColumns(root: Class, columns: seq<Column>): seq<string> {
    if columns == [] then []
    else (if exists r :: r in root.columns && r.property == columns[0].property then [] else [columns[0].name])
         + OwnColumns(root, columns[1..])
  }

  /** The join columns of the relations a subclass declares. */
  function ChildJoinColumns(h: Hierarchy, c: Class): seq<string> {
    AddAll([], Without(Present(c.manyToOne + c.oneToOne), RootColumns(h.root)))
  }

  /** A subclass's columns as a read of the root selects them. */
  function SubclassColumns(h: Hierarchy, c: Class): seq<string> {
    AddAll(AddAll(AddAll([], OwnColumns(h.root, c.columns)), ChildJoinColumns(h, c)), Without(c.computed, h.root.computed))
  }

  ghost predicate NoRepeats(names: seq<string>) {
    forall i, j :: 0 <= i < j < |names| ==> names[i] != names[j]
  }

  lemma {:induction false} AddAllIsUnion(seen: seq<string>, names: seq<string>)
    ensures forall x :: x in AddAll(seen, names) <==> x in seen || x in names
    ensures NoRepeats(seen) ==> NoRepeats(AddAll(seen, names))
    decreases |names|
  {
    if names != [] {
      AddAllIsUnion(Add(seen, names[0]), names[1..]);
      assert names == [names[0]] + names[1..];
    }
  }

  lemma {:induction false} WithoutIsDifference(names: seq<string>, gone: seq<string>)
    ensures forall x :: x in Without(names, gone) <==> x in names && x !in gone
    ensures NoRepeats(names) ==> NoRepeats(Without(names, gone))
  {
    if names != [] {
      WithoutIsDifference(names[1..], gone);
      assert names == [names[0]] + names[1..];
    }
  }

  /** The columns of both tables, each with the table that stores it. */
  datatype Ref = Ref(table: string, column: string)

  function Refs(table: string, names: seq<string>): seq<Ref> {
    if names == [] then [] else [Ref(table, names[0])] + Refs(table, names[1..])
  }

  /** The select list of a subclass read; None without a key. */
  function ChildSelect(h: Hierarchy, c: Class): Option<seq<Ref>> {
    if PrimaryKey(c).None? then None
    else Some(Refs(c.table, ChildColumns(h, c)) + Refs(h.root.table, RootColumns(h.root)))
  }

  lemma {:induction false} RefsAre(table: string, names: seq<string>)
    ensures |Refs(table, names)| == |names|
    ensures forall i :: 0 <= i < |names| ==> Refs(table, names)[i] == Ref(table, names[i])
  {
    if names != [] { RefsAre(table, names[1..]); }
  }

  /** A subclass read lists every column of the class and of the root's table
      exactly once: from the root's table if that stores it, and from the
      subclass's otherwise. */
  lemma EachColumnOnce(h: Hierarchy, c: Class, ref: Ref)
    requires PrimaryKey(c).Some? && c.table != h.root.table
    ensures var refs := ChildSelect(h, c).value;
            && (forall i, j :: 0 <= i < j < |refs| ==> refs[i].column != refs[j].column)
            && (ref in refs <==>
                  if ref.column in RootColumns(h.root) then ref.table == h.root.table
                  else ref.table == c.table && ref.column in ClassColumns(c))
  {
    var own, shared := ChildColumns(h, c), RootColumns(h.root);
    ColumnsDoNotRepeat(h, c);
    RefsOnce(c.table, own, h.root.table, shared);
    RefsHave(c.table, own, ref);
    RefsHave(h.root.table, shared, ref);
  }

  lemma RefsHave(table: string, names: seq<string>, ref: Ref)
    ensures ref in Refs(table, names) <==> ref.table == table && ref.column in names
  {
    RefsAre(table, names);
    if ref.table == table && ref.column in names {
      var i :| 0 <= i < |names| && names[i] == ref.column;
      assert Refs(table, names)[i] == ref;
    }
  }

  lemma RefsOnce(a: string, own: seq<string>, b: string, shared: seq<string>)
    requires NoRepeats(own) && NoRepeats(shared) && forall x :: x in own ==> x !in shared
    ensures var refs := Refs(a, own) + Refs(b, shared);
            forall i, j :: 0 <= i < j < |refs| ==> refs[i].column != refs[j].column
  {
    RefsAre(a, own);
    RefsAre(b, shared);
    var refs := Refs(a, own) + Refs(b, shared);
    forall i, j | 0 <= i < j < |refs| ensures refs[i].column != refs[j].column {
      if i < |own| <= j { assert own[i] in own && shared[j - |own|] in shared; }
    }
  }

  lemma ColumnsDoNotRepeat(h: Hierarchy, c: Class)
    ensures NoRepeats(RootColumns(h.root)) && NoRepeats(ChildColumns(h, c))
    ensures forall x :: x in ChildColumns(h, c) <==> x in ClassColumns(c) && x !in RootColumns(h.root)
  {
    var r := h.root;
    var r1 := AddAll([], NamesOf(NonKeys(r.columns)));
    var r2 := AddAll(r1, Present(r.manyToOne));
    var r3 := AddAll(r2, Present(r.oneToOne));
    AddAllIsUnion([], NamesOf(NonKeys(r.columns)));
    AddAllIsUnion(r1, Present(r.manyToOne));
    AddAllIsUnion(r2, Present(r.oneToOne));
    AddAllIsUnion(r3, r.computed);
    ClassColumnsAre(c);
    WithoutIsDifference(ClassColumns(c), RootColumns(r));
  }

  lemma ClassColumnsAre(c: Class)
    ensures NoRepeats(ClassColumns(c))
    ensures forall x ::
              x in ClassColumns(c) <==>
                (x in NamesOf(c.columns) || x in Present(c.manyToOne) || x in Present(c.oneToOne) || x in c.computed)
  {
    var c1 := AddAll([], NamesOf(c.columns));
    var c2 := AddAll(c1, Present(c.manyToOne));
    AddAllIsUnion([], NamesOf(c.columns));
    AddAllIsUnion(c1, Present(c.manyToOne));
    AddAllIsUnion(c2, Present(c.oneToOne));
    AddAllIsUnion(AddAll(c2, Present(c.oneToOne)), c.computed);
  }

  lemma {:induction false} OwnColumnsAre(root: Class, columns: seq<Column>, x: string)
    ensures x in OwnColumns(root, columns)
            <==> exists c :: c in columns && c.name == x && forall r :: r in root.columns ==> r.property != c.property
  {
    if columns != [] {
      OwnColumnsAre(root, columns[1..], x);
      assert columns == [columns[0]] + columns[1..];
    }
  }

  lemma {:induction false} NamesAre(columns: seq<Column>, x: string)
    ensures x in NamesOf(columns) <==> exists c :: c in columns && c.name == x
  {
    if columns != [] {
      NamesAre(columns[1..], x);
      assert columns == [columns[0]] + columns[1..];
    }
  }

  lemma {:induction false} KeysOrNot(columns: seq<Column>, x: string)
    ensures x in NamesOf(columns) <==> x in NamesOf(Keys(columns)) || x in NamesOf(NonKeys(columns))
  {
    if columns != [] {
      KeysOrNot(columns[1..], x);
      var key, other := Keys(columns[1..]), NonKeys(columns[1..]);
      if columns[0].primary { assert ([columns[0]] + key)[1..] == key; } else { assert ([columns[0]] + other)[1..] == other; }
      assert [] + key == key && [] + other == other;
    }
  }

  lemma SubclassColumnsAre(h: Hierarchy, c: Class)
    ensures forall x ::
              x in SubclassColumns(h, c) <==>
                (x in OwnColumns(h.root, c.columns)
                 || ((x in Present(c.manyToOne) || x in Present(c.oneToOne)) && x !in RootColumns(h.root))
                 || (x in c.computed && x !in h.root.computed))
    ensures NoRepeats(SubclassColumns(h, c))
  {
    var s1 := AddAll([], OwnColumns(h.root, c.columns));
    PresentConcat(c.manyToOne, c.oneToOne);
    WithoutIsDifference(Present(c.manyToOne + c.oneToOne), RootColumns(h.root));
    AddAllIsUnion([], Without(Present(c.manyToOne + c.oneToOne), RootColumns(h.root)));
    WithoutIsDifference(c.computed, h.root.computed);
    AddAllIsUnion([], OwnColumns(h.root, c.columns));
    AddAllIsUnion(s1, ChildJoinColumns(h, c));
    AddAllIsUnion(AddAll(s1, ChildJoinColumns(h, c)), Without(c.computed, h.root.computed));
  }

  lemma {:induction false} PresentConcat(a: seq<Option<string>>, b: seq<Option<string>>)
    ensures Present(a + b) == Present(a) + Present(b)
  {
    if a == [] {
      assert a + b == b;
    } else {
      assert (a + b)[1..] == a[1..] + b;
      PresentConcat(a[1..], b);
    }
  }

  /** An inherited property keeps its column name. */
  ghost predicate Inherits(h: Hierarchy, c: Class) {
    forall own, r :: own in c.columns && r in h.root.columns && own.property == r.property ==> own.name == r.name
  }

  /** The two ways the reads compute a subclass's columns agree: outside the
      root's table, a column is selected from a subclass by a read of the root
      exactly when a read of the subclass takes it from its own table. */
  lemma SubclassColumnsAreStored(h: Hierarchy, c: Class, x: string)
    requires Inherits(h, c) && x !in RootTableColumns(h.root)
    ensures x in SubclassColumns(h, c) <==> x in ChildColumns(h, c)
  {
    ColumnsDoNotRepeat(h, c);
    ClassColumnsAre(c);
    SubclassColumnsAre(h, c);
    RootTableHas(h.root, x);
    NamesAre(c.columns, x);
    OwnColumnsAre(h.root, c.columns, x);
    if x in NamesOf(c.columns) {
      var own :| own in c.columns && own.name == x;
      forall r | r in h.root.columns ensures r.property != own.property {
        if r.name == x { NamesAre(h.root.columns, x); }
      }
    }
  }

  lemma RootTableHas(root: Class, x: string)
    requires x !in RootTableColumns(root)
    ensures x !in RootColumns(root) && x !in root.computed && x !in NamesOf(root.columns)
  {
    var r1 := AddAll([], NamesOf(NonKeys(root.columns)));
    var r2 := AddAll(r1, Present(root.manyToOne));
    AddAllIsUnion([], NamesOf(NonKeys(root.columns)));
    AddAllIsUnion(r1, Present(root.manyToOne));
    AddAllIsUnion(r2, Present(root.oneToOne));
    AddAllIsUnion(AddAll(r2, Present(root.oneToOne)), root.computed);
    AddAllIsUnion(RootColumns(root), NamesOf(Keys(root.columns)));
    KeysOrNot(root.columns, x);
  }
}
