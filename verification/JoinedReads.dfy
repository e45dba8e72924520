/** Reading a joined-table hierarchy: INNER JOIN for a subclass, LEFT JOIN and
    COALESCE for the root. */
module JoinedReads {
  import opened Metadata
  import opened JoinedTables

  /** A stored value; None is NULL. */
  type Cell = Option<string>

  type Tuple = map<string, Cell>

  function At(t: Tuple, column: string): Cell {
    if column in t then t[column] else None
  }

  /** The root's table, and each subclass's in the hierarchy's order. */
  datatype Tables = Tables(root: seq<Tuple>, subs: seq<seq<Tuple>>)

  /** The rows of a table with that key; NULL matches nothing. */
  function Matches(table: seq<Tuple>, pk: string, key: Cell): seq<Tuple> {
    if table == [] then []
    else (if key.Some? && At(table[0], pk) == key then [table[0]] else []) + Matches(table[1..], pk, key)
  }

  ghost predicate UniqueKeys(table: seq<Tuple>, pk: string) {
    forall i, j :: 0 <= i < j < |table| && At(table[i], pk).Some? ==> At(table[i], pk) != At(table[j], pk)
  }

  // ---------------------------------------------------- reading a subclass

  /** One row of the subclass read: the columns of the select list, each from
      its table. */
  function Merged(own: seq<string>, shared: seq<string>, child: Tuple, root: Tuple): Tuple {
    map c | c in own + shared :: if c in own then At(child, c) else At(root, c)
  }

  function MergedAll(own: seq<string>, shared: seq<string>, child: Tuple, roots: seq<Tuple>): seq<Tuple> {
    if roots == [] then [] else [Merged(own, shared, child, roots[0])] + MergedAll(own, shared, child, roots[1..])
  }

  /** FROM child INNER JOIN root ON the key. */
  function InnerJoin(own: seq<string>, shared: seq<string>, children: seq<Tuple>, roots: seq<Tuple>, pk: string): seq<Tuple> {
    if children == [] then []
    else MergedAll(own, shared, children[0], Matches(roots, pk, At(children[0], pk)))
         + InnerJoin(own, shared, children[1..], roots, pk)
  }

  /** A row as the application sees it: which class it is of (0 the root, k the
      k-th subclass) and its values. */
  datatype Logical = Logical(kind: nat, values: Tuple)

  function Restricted(values: Tuple, columns: seq<string>): Tuple {
    map c | c in columns :: At(values, c)
  }

  /** Writing: every row puts its shared columns in the root's table ... */
  function RootPart(h: Hierarchy, rows: seq<Logical>): seq<Tuple> {
    if rows == [] then []
    else [Restricted(rows[0].values, RootTableColumns(h.root))] + RootPart(h, rows[1..])
  }

  /** ... and its own in its subclass's. */
  function ChildPart(h: Hierarchy, k: nat, rows: seq<Logical>): seq<Tuple>
    requires k < |h.subclasses|
  {
    if rows == [] then []
    else (if rows[0].kind == k + 1 then [Restricted(rows[0].values, ChildColumns(h, h.subclasses[k]))] else [])
         + ChildPart(h, k, rows[1..])
  }

  function Stored(h: Hierarchy, rows: seq<Logical>): Tables {
    Tables(RootPart(h, rows), seq(|h.subclasses|, k requires 0 <= k < |h.subclasses| => ChildPart(h, k, rows)))
  }

  /** The rows of one subclass with the columns its class and the root's table
      have. */
  function OfClass(h: Hierarchy, k: nat, rows: seq<Logical>): seq<Tuple>
    requires k < |h.subclasses|
  {
    if rows == [] then []
    else (if rows[0].kind == k + 1
          then [Restricted(rows[0].values, ChildColumns(h, h.subclasses[k]) + RootColumns(h.root))] else [])
         + OfClass(h, k, rows[1..])
  }

  function ReadSubclass(h: Hierarchy, k: nat, db: Tables, pk: string): seq<Tuple>
    requires k < |h.subclasses| == |db.subs|
  {
    InnerJoin(ChildColumns(h, h.subclasses[k]), RootColumns(h.root), db.subs[k], db.root, pk)
  }

  ghost predicate DistinctLogical(rows: seq<Logical>, pk: string) {
    && (forall i :: 0 <= i < |rows| ==> At(rows[i].values, pk).Some?)
    && (forall i, j :: 0 <= i < j < |rows| ==> At(rows[i].values, pk) != At(rows[j].values, pk))
  }

  /** The key is a column of both tables. */
  ghost predicate SharedKey(h: Hierarchy, k: nat, pk: string)
    requires k < |h.subclasses|
  {
    pk in RootTableColumns(h.root) && pk in ChildColumns(h, h.subclasses[k])
  }

  lemma AtRestricted(values: Tuple, columns: seq<string>, c: string)
    ensures At(Restricted(values, columns), c) == if c in columns then At(values, c) else None
    ensures c in Restricted(values, columns) <==> c in columns
  {}

  lemma {:induction false} NoMatch(h: Hierarchy, rows: seq<Logical>, pk: string, key: Cell)
    requires pk in RootTableColumns(h.root) && forall i :: 0 <= i < |rows| ==> At(rows[i].values, pk) != key
    ensures Matches(RootPart(h, rows), pk, key) == []
  {
    if rows != [] { NoMatch(h, rows[1..], pk, key); }
  }

  /** A stored row's key finds its own root part and nothing else. */
  lemma {:induction false} MatchIsOwn(h: Hierarchy, rows: seq<Logical>, pk: string, i: nat)
    requires pk in RootTableColumns(h.root) && DistinctLogical(rows, pk) && i < |rows|
    ensures Matches(RootPart(h, rows), pk, At(rows[i].values, pk))
            == [Restricted(rows[i].values, RootTableColumns(h.root))]
  {
    var key := At(rows[i].values, pk);
    assert RootPart(h, rows)[1..] == RootPart(h, rows[1..]);
    if i == 0 {
      NoMatch(h, rows[1..], pk, key);
    } else {
      MatchIsOwn(h, rows[1..], pk, i - 1);
    }
  }

  lemma MergedIsWhole(h: Hierarchy, k: nat, values: Tuple)
    requires k < |h.subclasses|
    ensures var own, shared := ChildColumns(h, h.subclasses[k]), RootColumns(h.root);
            Merged(own, shared, Restricted(values, own), Restricted(values, RootTableColumns(h.root)))
            == Restricted(values, own + shared)
  {
    var own, shared := ChildColumns(h, h.subclasses[k]), RootColumns(h.root);
    AddAllIsUnion(shared, NamesOf(Keys(h.root.columns)));
    var merged := Merged(own, shared, Restricted(values, own), Restricted(values, RootTableColumns(h.root)));
    forall c | c in own + shared ensures merged[c] == At(values, c) {
      if c !in own { assert c in shared; }
    }
  }

  /** The subclass read puts every stored row of the subclass together again,
      whole, once, and no other row. */
  lemma SubclassReadIsLogical(h: Hierarchy, k: nat, rows: seq<Logical>, pk: string)
    requires k < |h.subclasses| && SharedKey(h, k, pk) && DistinctLogical(rows, pk)
    ensures ReadSubclass(h, k, Stored(h, rows), pk) == OfClass(h, k, rows)
  {
    assert rows[0..] == rows;
    SubclassReadFrom(h, k, rows, pk, 0);
  }

  lemma {:induction false} SubclassReadFrom(h: Hierarchy, k: nat, rows: seq<Logical>, pk: string, from: nat)
    requires k < |h.subclasses| && SharedKey(h, k, pk) && DistinctLogical(rows, pk) && from <= |rows|
    ensures InnerJoin(ChildColumns(h, h.subclasses[k]), RootColumns(h.root), ChildPart(h, k, rows[from..]), RootPart(h, rows), pk)
            == OfClass(h, k, rows[from..])
    decreases |rows| - from
  {
    if from < |rows| {
      var own, shared := ChildColumns(h, h.subclasses[k]), RootColumns(h.root);
      var l, rest := rows[from], rows[from..][1..];
      assert rest == rows[from + 1..];
      SubclassReadFrom(h, k, rows, pk, from + 1);
      if l.kind == k + 1 {
        MatchIsOwn(h, rows, pk, from);
        MergedIsWhole(h, k, l.values);
        JoinOne(own, shared, Restricted(l.values, own), ChildPart(h, k, rest), RootPart(h, rows), pk,
                Restricted(l.values, RootTableColumns(h.root)));
      } else {
        assert ChildPart(h, k, rows[from..]) == ChildPart(h, k, rest);
      }
    }
  }

  lemma JoinOne(own: seq<string>, shared: seq<string>, child: Tuple, rest: seq<Tuple>, roots: seq<Tuple>, pk: string, root: Tuple)
    requires Matches(roots, pk, At(child, pk)) == [root]
    ensures InnerJoin(own, shared, [child] + rest, roots, pk)
            == [Merged(own, shared, child, root)] + InnerJoin(own, shared, rest, roots, pk)
  {
    assert ([child] + rest)[1..] == rest;
    MergedOne(own, shared, child, root);
  }

  lemma MergedOne(own: seq<string>, shared: seq<string>, child: Tuple, root: Tuple)
    ensures MergedAll(own, shared, child, [root]) == [Merged(own, shared, child, root)]
  {
    assert [root][1..] == [];
  }

  // ------------------------------------------------------ reading the root

  /** A row of the joined root: the root's tuple and, per subclass so far, the
      tuple joined to it. */
  datatype Joined = Joined(root: Tuple, subs: seq<Option<Tuple>>)

  function Extended(row: Joined, matches: seq<Tuple>): seq<Joined> {
    if matches == [] then [] else [Joined(row.root, row.subs + [Some(matches[0])])] + Extended(row, matches[1..])
  }

  /** LEFT JOIN table ON the key. */
  function LeftJoin(rows: seq<Joined>, table: seq<Tuple>, pk: string): seq<Joined> {
    if rows == [] then []
    else
      var matches := Matches(table, pk, At(rows[0].root, pk));
      (if matches == [] then [Joined(rows[0].root, rows[0].subs + [None])] else Extended(rows[0], matches))
      + LeftJoin(rows[1..], table, pk)
  }

  function Unjoined(roots: seq<Tuple>): seq<Joined> {
    if roots == [] then [] else [Joined(roots[0], [])] + Unjoined(roots[1..])
  }

  /** The root joined to its first `k` subclass tables. */
  function JoinedRoot(db: Tables, pk: string, k: nat): seq<Joined>
    requires k <= |db.subs|
  {
    if k == 0 then Unjoined(db.root) else LeftJoin(JoinedRoot(db, pk, k - 1), db.subs[k - 1], pk)
  }

  /** A root row with the one match each table has for it, if any. */
  function Completed(db: Tables, pk: string, root: Tuple, k: nat): Joined
    requires k <= |db.subs|
  {
    Joined(root, seq(k, i requires 0 <= i < k => First(Matches(db.subs[i], pk, At(root, pk)))))
  }

  function First<T>(xs: seq<T>): Option<T> {
    if xs == [] then None else Some(xs[0])
  }

  function CompletedAll(db: Tables, pk: string, roots: seq<Tuple>, k: nat): seq<Joined>
    requires k <= |db.subs|
  {
    if roots == [] then [] else [Completed(db, pk, roots[0], k)] + CompletedAll(db, pk, roots[1..], k)
  }

  /** Every root row has at most one match in each of the first `k` tables. */
  ghost predicate AtMostOne(db: Tables, pk: string, roots: seq<Tuple>, k: nat)
    requires k <= |db.subs|
  {
    forall r, i :: r in roots && 0 <= i < k ==> |Matches(db.subs[i], pk, At(r, pk))| <= 1
  }

  lemma CompletedNext(db: Tables, pk: string, root: Tuple, k: nat)
    requires 0 < k <= |db.subs|
    ensures Completed(db, pk, root, k)
            == Joined(root, Completed(db, pk, root, k - 1).subs + [First(Matches(db.subs[k - 1], pk, At(root, pk)))])
  {}

  lemma {:induction false} LeftJoinCompletes(db: Tables, pk: string, roots: seq<Tuple>, k: nat)
    requires 0 < k <= |db.subs| && AtMostOne(db, pk, roots, k)
    ensures LeftJoin(CompletedAll(db, pk, roots, k - 1), db.subs[k - 1], pk) == CompletedAll(db, pk, roots, k)
  {
    if roots != [] {
      assert roots == [roots[0]] + roots[1..] && roots[0] in roots;
      LeftJoinCompletes(db, pk, roots[1..], k);
      CompletedNext(db, pk, roots[0], k);
      var rows := CompletedAll(db, pk, roots, k - 1);
      assert rows[1..] == CompletedAll(db, pk, roots[1..], k - 1);
      OneExtension(rows[0], Matches(db.subs[k - 1], pk, At(roots[0], pk)));
    }
  }

  /** A row with at most one match stays one row. */
  lemma OneExtension(row: Joined, matches: seq<Tuple>)
    requires |matches| <= 1
    ensures (if matches == [] then [Joined(row.root, row.subs + [None])] else Extended(row, matches))
            == [Joined(row.root, row.subs + [First(matches)])]
  {
    if matches != [] { assert matches[1..] == [] && Extended(row, matches[1..]) == []; }
  }

  lemma {:induction false} Unjoins(db: Tables, pk: string, roots: seq<Tuple>)
    ensures Unjoined(roots) == CompletedAll(db, pk, roots, 0)
  {
    if roots != [] {
      Unjoins(db, pk, roots[1..]);
      assert Completed(db, pk, roots[0], 0) == Joined(roots[0], []);
    }
  }

  /** Without two matches for a row the joins keep the root's rows, each once,
      in order, next to its one match per subclass table. */
  lemma {:induction false} JoinsKeepRows(db: Tables, pk: string, k: nat)
    requires k <= |db.subs| && AtMostOne(db, pk, db.root, k)
    ensures JoinedRoot(db, pk, k) == CompletedAll(db, pk, db.root, k)
  {
    if k == 0 {
      Unjoins(db, pk, db.root);
    } else {
      JoinsKeepRows(db, pk, k - 1);
      LeftJoinCompletes(db, pk, db.root, k);
    }
  }

  lemma {:induction false} NoneMatch(table: seq<Tuple>, pk: string, key: Cell)
    requires forall i :: 0 <= i < |table| ==> At(table[i], pk) != key
    ensures Matches(table, pk, key) == []
  {
    if table != [] { NoneMatch(table[1..], pk, key); }
  }

  /** A primary key matches at most once. */
  lemma {:induction false} UniqueMatches(table: seq<Tuple>, pk: string, key: Cell)
    requires UniqueKeys(table, pk)
    ensures |Matches(table, pk, key)| <= 1
  {
    if table != [] {
      if key.Some? && At(table[0], pk) == key {
        NoneMatch(table[1..], pk, key);
      } else {
        UniqueMatches(table[1..], pk, key);
      }
    }
  }

  // ------------------------------------------------------------------- counts

  function Select(roots: seq<Tuple>, test: Tuple -> bool): nat {
    if roots == [] then 0 else (if test(roots[0]) then 1 else 0) + Select(roots[1..], test)
  }

  function SelectJoined(rows: seq<Joined>, test: Tuple -> bool): nat {
    if rows == [] then 0 else (if test(rows[0].root) then 1 else 0) + SelectJoined(rows[1..], test)
  }

  lemma {:induction false} ExtendedCount(row: Joined, matches: seq<Tuple>, test: Tuple -> bool)
    ensures SelectJoined(Extended(row, matches), test) == if test(row.root) then |matches| else 0
    ensures forall x :: x in Extended(row, matches) ==> x.root == row.root
    ensures |Extended(row, matches)| == |matches|
  {
    if matches != [] {
      ExtendedCount(row, matches[1..], test);
      assert Extended(row, matches)[1..] == Extended(row, matches[1..]);
    }
  }

  lemma {:induction false} CountConcat(a: seq<Joined>, b: seq<Joined>, test: Tuple -> bool)
    ensures SelectJoined(a + b, test) == SelectJoined(a, test) + SelectJoined(b, test)
  {
    if a == [] {
      assert a + b == b;
    } else {
      assert (a + b)[1..] == a[1..] + b;
      CountConcat(a[1..], b, test);
    }
  }

  /** A joined row the next table repeats. */
  ghost predicate Repeats(rows: seq<Joined>, table: seq<Tuple>, pk: string, test: Tuple -> bool) {
    exists x :: x in rows && test(x.root) && |Matches(table, pk, At(x.root, pk))| > 1
  }

  /** One more join never loses a row, and repeats one exactly when a row it
      counts has two matches. */
  lemma {:induction false} LeftJoinCount(rows: seq<Joined>, table: seq<Tuple>, pk: string, test: Tuple -> bool)
    ensures SelectJoined(LeftJoin(rows, table, pk), test) >= SelectJoined(rows, test)
    ensures SelectJoined(LeftJoin(rows, table, pk), test) == SelectJoined(rows, test) <==> !Repeats(rows, table, pk, test)
  {
    if rows != [] {
      LeftJoinCount(rows[1..], table, pk, test);
      assert rows == [rows[0]] + rows[1..] && rows[0] in rows;
      var matches := Matches(table, pk, At(rows[0].root, pk));
      var first := if matches == [] then [Joined(rows[0].root, rows[0].subs + [None])] else Extended(rows[0], matches);
      ExtendedCount(rows[0], matches, test);
      CountConcat(first, LeftJoin(rows[1..], table, pk), test);
      assert SelectJoined([Joined(rows[0].root, rows[0].subs + [None])], test) == if test(rows[0].root) then 1 else 0;
      RepeatsNext(rows[0], rows[1..], table, pk, test);
    }
  }

  lemma RepeatsNext(first: Joined, rest: seq<Joined>, table: seq<Tuple>, pk: string, test: Tuple -> bool)
    ensures Repeats([first] + rest, table, pk, test)
            <==> (test(first.root) && |Matches(table, pk, At(first.root, pk))| > 1) || Repeats(rest, table, pk, test)
  {
    var rows := [first] + rest;
    assert rows[0] == first && first in rows;
    assert forall x :: x in rows <==> x == first || x in rest;
  }

  predicate HasRoot(rows: seq<Joined>, root: Tuple) {
    rows != [] && (rows[0].root == root || HasRoot(rows[1..], root))
  }

  lemma {:induction false} HasRootIs(rows: seq<Joined>, root: Tuple)
    ensures HasRoot(rows, root) <==> exists x :: x in rows && x.root == root
  {
    if rows != [] {
      HasRootIs(rows[1..], root);
      assert rows == [rows[0]] + rows[1..];
    }
  }

  lemma {:induction false} HasRootConcat(a: seq<Joined>, b: seq<Joined>, root: Tuple)
    ensures HasRoot(a + b, root) <==> HasRoot(a, root) || HasRoot(b, root)
  {
    if a == [] {
      assert a + b == b;
    } else {
      assert (a + b)[1..] == a[1..] + b;
      HasRootConcat(a[1..], b, root);
    }
  }

  lemma {:induction false} ExtendedRoot(row: Joined, matches: seq<Tuple>, root: Tuple)
    ensures HasRoot(Extended(row, matches), root) <==> matches != [] && row.root == root
  {
    if matches != [] {
      ExtendedRoot(row, matches[1..], root);
      assert Extended(row, matches)[1..] == Extended(row, matches[1..]);
    }
  }

  lemma {:induction false} LeftJoinRoots(rows: seq<Joined>, table: seq<Tuple>, pk: string, root: Tuple)
    ensures HasRoot(LeftJoin(rows, table, pk), root) <==> HasRoot(rows, root)
  {
    if rows != [] {
      LeftJoinRoots(rows[1..], table, pk, root);
      var matches := Matches(table, pk, At(rows[0].root, pk));
      var first := if matches == [] then [Joined(rows[0].root, rows[0].subs + [None])] else Extended(rows[0], matches);
      ExtendedRoot(rows[0], matches, root);
      HasRootConcat(first, LeftJoin(rows[1..], table, pk), root);
    }
  }

  lemma {:induction false} JoinedRoots(db: Tables, pk: string, k: nat, root: Tuple)
    requires k <= |db.subs|
    ensures HasRoot(JoinedRoot(db, pk, k), root) <==> root in db.root
  {
    if k == 0 {
      UnjoinedRoots(db.root, root);
    } else {
      JoinedRoots(db, pk, k - 1, root);
      LeftJoinRoots(JoinedRoot(db, pk, k - 1), db.subs[k - 1], pk, root);
    }
  }

  lemma {:induction false} UnjoinedRoots(roots: seq<Tuple>, root: Tuple)
    ensures HasRoot(Unjoined(roots), root) <==> root in roots
  {
    if roots != [] {
      UnjoinedRoots(roots[1..], root);
      assert roots == [roots[0]] + roots[1..] && Unjoined(roots)[1..] == Unjoined(roots[1..]);
    }
  }

  lemma {:induction false} UnjoinedCount(roots: seq<Tuple>, test: Tuple -> bool)
    ensures SelectJoined(Unjoined(roots), test) == Select(roots, test)
  {
    if roots != [] { UnjoinedCount(roots[1..], test); }
  }

  /** Whether a counted root row has two rows in one of the first `k` tables. */
  ghost predicate Doubled(db: Tables, pk: string, k: nat, test: Tuple -> bool)
    requires k <= |db.subs|
  {
    exists i: nat :: i < k && DoubledIn(db.root, db.subs[i], pk, test)
  }

  ghost predicate DoubledIn(roots: seq<Tuple>, table: seq<Tuple>, pk: string, test: Tuple -> bool) {
    exists r :: r in roots && test(r) && |Matches(table, pk, At(r, pk))| > 1
  }

  lemma RepeatsIsDoubled(db: Tables, pk: string, k: nat, test: Tuple -> bool)
    requires 0 < k <= |db.subs|
    ensures Repeats(JoinedRoot(db, pk, k - 1), db.subs[k - 1], pk, test)
            <==> DoubledIn(db.root, db.subs[k - 1], pk, test)
  {
    forall r ensures HasRoot(JoinedRoot(db, pk, k - 1), r) <==> r in db.root { JoinedRoots(db, pk, k - 1, r); }
    RepeatsByRoots(JoinedRoot(db, pk, k - 1), db.root, db.subs[k - 1], pk, test);
  }

  lemma RepeatsByRoots(rows: seq<Joined>, roots: seq<Tuple>, table: seq<Tuple>, pk: string, test: Tuple -> bool)
    requires forall r :: HasRoot(rows, r) <==> r in roots
    ensures Repeats(rows, table, pk, test) <==> DoubledIn(roots, table, pk, test)
  {
    if x :| x in rows && test(x.root) && |Matches(table, pk, At(x.root, pk))| > 1 {
      HasRootIs(rows, x.root);
    }
    if r :| r in roots && test(r) && |Matches(table, pk, At(r, pk))| > 1 {
      HasRootIs(rows, r);
      var x :| x in rows && x.root == r;
    }
  }

  lemma DoubledNext(db: Tables, pk: string, k: nat, test: Tuple -> bool)
    requires 0 < k <= |db.subs|
    ensures Doubled(db, pk, k, test)
            <==> Doubled(db, pk, k - 1, test) || Repeats(JoinedRoot(db, pk, k - 1), db.subs[k - 1], pk, test)
  {
    RepeatsIsDoubled(db, pk, k, test);
    if i: nat :| i < k && DoubledIn(db.root, db.subs[i], pk, test) {
      if i < k - 1 { assert Doubled(db, pk, k - 1, test); }
    }
  }

  /** The count over the join is at least the count over the root's table, and
      equal to it unless a counted row is doubled. */
  ghost predicate Counted(rows: seq<Joined>, test: Tuple -> bool, total: nat, doubled: bool) {
    SelectJoined(rows, test) >= total && (SelectJoined(rows, test) == total <==> !doubled)
  }

  lemma CountGrows(rows: seq<Joined>, next: seq<Joined>, table: seq<Tuple>, pk: string, test: Tuple -> bool, total: nat,
                   doubled: bool)
    requires next == LeftJoin(rows, table, pk) && Counted(rows, test, total, doubled)
    ensures Counted(next, test, total, doubled || Repeats(rows, table, pk, test))
  {
    LeftJoinCount(rows, table, pk, test);
  }

  /** Whether one of the first `k` joins repeats a counted row. */
  ghost predicate EverRepeats(db: Tables, pk: string, k: nat, test: Tuple -> bool)
    requires k <= |db.subs|
  {
    k > 0 && (EverRepeats(db, pk, k - 1, test) || Repeats(JoinedRoot(db, pk, k - 1), db.subs[k - 1], pk, test))
  }

  lemma {:induction false} EverRepeatsIsDoubled(db: Tables, pk: string, k: nat, test: Tuple -> bool)
    requires k <= |db.subs|
    ensures EverRepeats(db, pk, k, test) <==> Doubled(db, pk, k, test)
  {
    if k > 0 {
      EverRepeatsIsDoubled(db, pk, k - 1, test);
      DoubledNext(db, pk, k, test);
    }
  }

  lemma CountNext(db: Tables, pk: string, k: nat, test: Tuple -> bool, total: nat, doubled: bool, next: bool)
    requires 0 < k <= |db.subs| && Counted(JoinedRoot(db, pk, k - 1), test, total, doubled)
    requires next <==> doubled || Repeats(JoinedRoot(db, pk, k - 1), db.subs[k - 1], pk, test)
    ensures Counted(JoinedRoot(db, pk, k), test, total, next)
  {
    CountGrows(JoinedRoot(db, pk, k - 1), JoinedRoot(db, pk, k), db.subs[k - 1], pk, test, total, doubled);
  }

  lemma {:induction false} CountedAll(db: Tables, pk: string, k: nat, test: Tuple -> bool)
    requires k <= |db.subs|
    ensures Counted(JoinedRoot(db, pk, k), test, Select(db.root, test), EverRepeats(db, pk, k, test))
  {
    if k == 0 {
      UnjoinedCount(db.root, test);
    } else {
      CountedAll(db, pk, k - 1, test);
      CountNext(db, pk, k, test, Select(db.root, test), EverRepeats(db, pk, k - 1, test), EverRepeats(db, pk, k, test));
    }
  }

  /** A count over the joined root, under any condition on the root's columns,
      equals the count over the root's table alone exactly when no counted row
      has two rows in one subclass table. */
  lemma CountsAgreeIff(db: Tables, pk: string, k: nat, test: Tuple -> bool)
    requires k <= |db.subs|
    ensures SelectJoined(JoinedRoot(db, pk, k), test) >= Select(db.root, test)
    ensures SelectJoined(JoinedRoot(db, pk, k), test) == Select(db.root, test) <==> !Doubled(db, pk, k, test)
  {
    CountedAll(db, pk, k, test);
    EverRepeatsIsDoubled(db, pk, k, test);
  }

  /** With a primary key on every subclass table a count reads the same from
      the root's table alone. */
  lemma UniqueKeysKeepCounts(db: Tables, pk: string, test: Tuple -> bool)
    requires forall k :: 0 <= k < |db.subs| ==> UniqueKeys(db.subs[k], pk)
    ensures SelectJoined(JoinedRoot(db, pk, |db.subs|), test) == Select(db.root, test)
  {
    forall r, k | r in db.root && 0 <= k < |db.subs| ensures |Matches(db.subs[k], pk, At(r, pk))| <= 1 {
      UniqueMatches(db.subs[k], pk, At(r, pk));
    }
    CountsAgreeIff(db, pk, |db.subs|, test);
  }

  // ----------------------------------------------------------------- coalesce

  /** The columns a read of the root selects from each subclass. */
  function Selected(h: Hierarchy): (lists: seq<seq<string>>)
    ensures |lists| == |h.subclasses|
  {
    seq(|h.subclasses|, k requires 0 <= k < |h.subclasses| => SubclassColumns(h, h.subclasses[k]))
  }

  /** The subclasses, among the first `k`, whose own table holds the column. */
  function Holders(lists: seq<seq<string>>, column: string, k: nat): seq<nat>
    requires k <= |lists|
  {
    if k == 0 then [] else Holders(lists, column, k - 1) + (if column in lists[k - 1] then [k - 1] else [])
  }

  function CellOf(row: Joined, k: nat, column: string): Cell {
    if k < |row.subs| && row.subs[k].Some? then At(row.subs[k].value, column) else None
  }

  /** COALESCE over the holders: the first that is not NULL. */
  function Coalesce(row: Joined, holders: seq<nat>, column: string): Cell {
    if holders == [] then None
    else if CellOf(row, holders[0], column).Some? then CellOf(row, holders[0], column)
    else Coalesce(row, holders[1..], column)
  }

  /** How a read of the root refers to a column. */
  function ReadColumn(h: Hierarchy, row: Joined, column: string): Cell {
    if column in RootTableColumns(h.root) then At(row.root, column)
    else
      var holders := Holders(Selected(h), column, |h.subclasses|);
      if holders == [] then At(row.root, column) else Coalesce(row, holders, column)
  }

  lemma {:induction false} HoldersAre(lists: seq<seq<string>>, column: string, k: nat, i: nat)
    requires k <= |lists|
    ensures i in Holders(lists, column, k) <==> i < k && column in lists[i]
  {
    if k > 0 { HoldersAre(lists, column, k - 1, i); }
  }

  /** With values in one place only, COALESCE finds it. */
  lemma {:induction false} CoalesceFinds(row: Joined, holders: seq<nat>, column: string, k: nat)
    requires forall i :: i in holders && i != k ==> CellOf(row, i, column).None?
    ensures Coalesce(row, holders, column) == if k in holders then CellOf(row, k, column) else None
  {
    if holders != [] {
      assert holders == [holders[0]] + holders[1..];
      CoalesceFinds(row, holders[1..], column, k);
    }
  }

  /** Every joined row reads a subclass column off its one subclass row, if that
      subclass holds the column, and NULL otherwise. */
  lemma CoalesceIsOwnRow(h: Hierarchy, row: Joined, column: string, k: nat)
    requires column !in RootTableColumns(h.root) && column !in row.root
    requires |row.subs| == |h.subclasses| && forall i :: 0 <= i < |row.subs| && i != k ==> row.subs[i].None?
    ensures ReadColumn(h, row, column)
            == if k < |h.subclasses| && column in SubclassColumns(h, h.subclasses[k]) then CellOf(row, k, column) else None
  {
    var holders := Holders(Selected(h), column, |h.subclasses|);
    HoldersAre(Selected(h), column, |h.subclasses|, k);
    CoalesceFinds(row, holders, column, k);
  }

  /** What a subclass's table stores in a column for a root row. */
  function StoredCell(db: Tables, pk: string, root: Tuple, k: nat, column: string): Cell
    requires k < |db.subs|
  {
    var found := First(Matches(db.subs[k], pk, At(root, pk)));
    if found.Some? then At(found.value, column) else None
  }

  /** COALESCE gives a value one of the holders has, if any has one. */
  lemma {:induction false} CoalesceHas(row: Joined, holders: seq<nat>, column: string)
    ensures Coalesce(row, holders, column).Some? ==>
              exists i :: i in holders && CellOf(row, i, column) == Coalesce(row, holders, column)
    ensures Coalesce(row, holders, column).None? ==> forall i :: i in holders ==> CellOf(row, i, column).None?
  {
    if holders != [] {
      assert holders == [holders[0]] + holders[1..];
      if CellOf(row, holders[0], column).None? { CoalesceHas(row, holders[1..], column); } else { assert holders[0] in holders; }
    }
  }

  /** The subclass tables that hold `column` agree on it for a root row. */
  ghost predicate HoldersAgree(h: Hierarchy, db: Tables, pk: string, root: Tuple, column: string)
    requires |db.subs| == |h.subclasses|
  {
    forall j, k | 0 <= j < |db.subs| && 0 <= k < |db.subs| && column in SubclassColumns(h, h.subclasses[j])
                  && column in SubclassColumns(h, h.subclasses[k]) ::
      StoredCell(db, pk, root, j, column).Some? && StoredCell(db, pk, root, k, column).Some? ==>
        StoredCell(db, pk, root, j, column) == StoredCell(db, pk, root, k, column)
  }

  /** A joined row reads `column` as every table that stores a value of it does. */
  ghost predicate ReadAsStored(h: Hierarchy, db: Tables, pk: string, root: Tuple, row: Joined, column: string)
    requires |db.subs| == |h.subclasses|
  {
    forall k | 0 <= k < |db.subs| && column in SubclassColumns(h, h.subclasses[k]) ::
      StoredCell(db, pk, root, k, column).Some? ==> ReadColumn(h, row, column) == StoredCell(db, pk, root, k, column)
  }

  lemma CellIsStored(db: Tables, pk: string, root: Tuple, k: nat, column: string)
    requires k < |db.subs|
    ensures CellOf(Completed(db, pk, root, |db.subs|), k, column) == StoredCell(db, pk, root, k, column)
  {}

  lemma ReadIsOneStored(h: Hierarchy, db: Tables, pk: string, root: Tuple, column: string)
    requires column !in RootTableColumns(h.root) && |db.subs| == |h.subclasses|
    ensures var read := ReadColumn(h, Completed(db, pk, root, |db.subs|), column);
            forall k | 0 <= k < |db.subs| && column in SubclassColumns(h, h.subclasses[k]) ::
              StoredCell(db, pk, root, k, column).Some? ==>
                exists j :: 0 <= j < |db.subs| && column in SubclassColumns(h, h.subclasses[j])
                            && read.Some? && StoredCell(db, pk, root, j, column) == read
  {
    var row, n := Completed(db, pk, root, |db.subs|), |db.subs|;
    var holders := Holders(Selected(h), column, n);
    CoalesceHas(row, holders, column);
    forall k | 0 <= k < n && column in SubclassColumns(h, h.subclasses[k]) && StoredCell(db, pk, root, k, column).Some?
      ensures exists j :: 0 <= j < n && column in SubclassColumns(h, h.subclasses[j])
                          && Coalesce(row, holders, column).Some?
                          && StoredCell(db, pk, root, j, column) == Coalesce(row, holders, column)
    {
      HoldersAre(Selected(h), column, n, k);
      CellIsStored(db, pk, root, k, column);
      var j :| j in holders && CellOf(row, j, column) == Coalesce(row, holders, column);
      HoldersAre(Selected(h), column, n, j);
      CellIsStored(db, pk, root, j, column);
    }
  }

  lemma ReadAsStoredIff(h: Hierarchy, db: Tables, pk: string, root: Tuple, column: string)
    requires column !in RootTableColumns(h.root) && |db.subs| == |h.subclasses|
    ensures ReadAsStored(h, db, pk, root, Completed(db, pk, root, |db.subs|), column) <==> HoldersAgree(h, db, pk, root, column)
  {
    ReadIsOneStored(h, db, pk, root, column);
  }

  /** A read of the root shows a subclass column of every row as it is stored if
      and only if no key has two different values of it in two subclass tables;
      otherwise one table's value hides another's. */
  lemma RootReadsAsStoredIff(h: Hierarchy, db: Tables, pk: string, column: string)
    requires column !in RootTableColumns(h.root) && |db.subs| == |h.subclasses| && AtMostOne(db, pk, db.root, |db.subs|)
    ensures var joined := JoinedRoot(db, pk, |db.subs|);
            && |joined| == |db.root|
            && ((forall i | 0 <= i < |db.root| :: ReadAsStored(h, db, pk, db.root[i], joined[i], column))
                <==> (forall i | 0 <= i < |db.root| :: HoldersAgree(h, db, pk, db.root[i], column)))
  {
    var n := |db.subs|;
    JoinsKeepRows(db, pk, n);
    if db.root != [] { CompletedAt(db, pk, db.root, n, 0); }
    forall i | 0 <= i < |db.root|
      ensures JoinedRoot(db, pk, n)[i] == Completed(db, pk, db.root[i], n)
      ensures ReadAsStored(h, db, pk, db.root[i], Completed(db, pk, db.root[i], n), column)
              <==> HoldersAgree(h, db, pk, db.root[i], column)
    {
      CompletedAt(db, pk, db.root, n, i);
      ReadAsStoredIff(h, db, pk, db.root[i], column);
    }
  }

  // -------------------------------------------------- reading what was written

  lemma {:induction false} NoChildMatch(h: Hierarchy, k: nat, rows: seq<Logical>, pk: string, key: Cell)
    requires k < |h.subclasses| && pk in ChildColumns(h, h.subclasses[k])
    requires forall i :: 0 <= i < |rows| ==> At(rows[i].values, pk) != key
    ensures Matches(ChildPart(h, k, rows), pk, key) == []
  {
    if rows != [] {
      NoChildMatch(h, k, rows[1..], pk, key);
      ChildPartNext(h, k, rows);
    }
  }

  lemma ChildPartNext(h: Hierarchy, k: nat, rows: seq<Logical>)
    requires k < |h.subclasses| && rows != []
    ensures rows[0].kind == k + 1 ==> ChildPart(h, k, rows) != [] && ChildPart(h, k, rows)[1..] == ChildPart(h, k, rows[1..])
    ensures rows[0].kind != k + 1 ==> ChildPart(h, k, rows) == ChildPart(h, k, rows[1..])
  {}

  /** A row's key finds its own part in its own subclass's table, and nothing in
      the others. */
  lemma {:induction false} ChildMatch(h: Hierarchy, k: nat, rows: seq<Logical>, pk: string, i: nat)
    requires k < |h.subclasses| && pk in ChildColumns(h, h.subclasses[k]) && DistinctLogical(rows, pk) && i < |rows|
    ensures Matches(ChildPart(h, k, rows), pk, At(rows[i].values, pk))
            == if rows[i].kind == k + 1 then [Restricted(rows[i].values, ChildColumns(h, h.subclasses[k]))] else []
  {
    var key := At(rows[i].values, pk);
    ChildPartNext(h, k, rows);
    if i == 0 {
      NoChildMatch(h, k, rows[1..], pk, key);
    } else {
      ChildMatch(h, k, rows[1..], pk, i - 1);
    }
  }

  lemma {:induction false} RootPartAt(h: Hierarchy, rows: seq<Logical>, i: nat)
    requires i < |rows|
    ensures |RootPart(h, rows)| == |rows| && RootPart(h, rows)[i] == Restricted(rows[i].values, RootTableColumns(h.root))
  {
    if |rows| > 1 { RootPartAt(h, rows[1..], if i > 0 then i - 1 else 0); }
  }

  lemma {:induction false} CompletedAt(db: Tables, pk: string, roots: seq<Tuple>, k: nat, i: nat)
    requires k <= |db.subs| && i < |roots|
    ensures |CompletedAll(db, pk, roots, k)| == |roots| && CompletedAll(db, pk, roots, k)[i] == Completed(db, pk, roots[i], k)
  {
    if |roots| > 1 { CompletedAt(db, pk, roots[1..], k, if i > 0 then i - 1 else 0); }
  }

  /** Every class keeps the shared key, and inherited properties their names. */
  ghost predicate Mapped(h: Hierarchy, pk: string) {
    && pk in RootTableColumns(h.root)
    && forall k :: 0 <= k < |h.subclasses| ==> pk in ChildColumns(h, h.subclasses[k]) && Inherits(h, h.subclasses[k])
  }

  lemma StoredMatchesOnce(h: Hierarchy, rows: seq<Logical>, pk: string)
    requires Mapped(h, pk) && DistinctLogical(rows, pk)
    ensures AtMostOne(Stored(h, rows), pk, RootPart(h, rows), |h.subclasses|)
  {
    var db := Stored(h, rows);
    forall r, k | r in RootPart(h, rows) && 0 <= k < |h.subclasses| ensures |Matches(db.subs[k], pk, At(r, pk))| <= 1 {
      var i :| 0 <= i < |RootPart(h, rows)| && RootPart(h, rows)[i] == r;
      if rows != [] { RootPartAt(h, rows, 0); }
      RootPartAt(h, rows, i);
      ChildMatch(h, k, rows, pk, i);
    }
  }

  /** The joined row of the i-th row written: its root's part, and its own
      subclass's part alone. */
  lemma RootRowIs(h: Hierarchy, rows: seq<Logical>, pk: string, i: nat) returns (row: Joined)
    requires Mapped(h, pk) && DistinctLogical(rows, pk) && i < |rows|
    ensures row.root == Restricted(rows[i].values, RootTableColumns(h.root)) && |row.subs| == |h.subclasses|
    ensures forall k :: 0 <= k < |row.subs| ==>
              row.subs[k] == if rows[i].kind == k + 1 then Some(Restricted(rows[i].values, ChildColumns(h, h.subclasses[k])))
                             else None
    ensures var joined := JoinedRoot(Stored(h, rows), pk, |h.subclasses|); |joined| == |rows| && joined[i] == row
  {
    var db, n := Stored(h, rows), |h.subclasses|;
    StoredMatchesOnce(h, rows, pk);
    JoinsKeepRows(db, pk, n);
    RootPartAt(h, rows, i);
    CompletedAt(db, pk, db.root, n, i);
    row := Completed(db, pk, db.root[i], n);
    AtRestricted(rows[i].values, RootTableColumns(h.root), pk);
    forall k | 0 <= k < n
      ensures row.subs[k] == if rows[i].kind == k + 1 then Some(Restricted(rows[i].values, ChildColumns(h, h.subclasses[k])))
                             else None
    {
      ChildMatch(h, k, rows, pk, i);
    }
  }

  /** The joined read of the root returns the rows written, in order and each
      once, and reads every column of the i-th as it was written: a column of
      the root's table, or of the row's own subclass; any other is NULL. */
  lemma RootReadIsLogical(h: Hierarchy, rows: seq<Logical>, pk: string, i: nat, column: string)
    requires Mapped(h, pk) && DistinctLogical(rows, pk) && i < |rows|
    ensures var joined := JoinedRoot(Stored(h, rows), pk, |h.subclasses|); var l := rows[i];
            && |joined| == |rows|
            && ReadColumn(h, joined[i], column)
               == if column in RootTableColumns(h.root) then At(l.values, column)
                  else if 0 < l.kind <= |h.subclasses| && column in ChildColumns(h, h.subclasses[l.kind - 1])
                       then At(l.values, column)
                  else None
  {
    var n, l := |h.subclasses|, rows[i];
    var row := RootRowIs(h, rows, pk, i);
    AtRestricted(l.values, RootTableColumns(h.root), column);
    if column !in RootTableColumns(h.root) {
      var k := if 0 < l.kind <= n then l.kind - 1 else n;
      CoalesceIsOwnRow(h, row, column, k);
      if k < n {
        SubclassColumnsAreStored(h, h.subclasses[k], column);
        AtRestricted(l.values, ChildColumns(h, h.subclasses[k]), column);
      }
    }
  }
}
