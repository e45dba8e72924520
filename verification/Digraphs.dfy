/** Finite directed graphs given by their edge set: reachability along paths,
    and the core: the nodes from which one can walk forever. */
module Digraphs {

  type Edges<T(==)> = set<(T, T)>

  ghost predicate IsPath<T(!new)>(edges: Edges<T>, path: seq<T>) {
    |path| > 0 && forall i :: 0 <= i < |path| - 1 ==> (path[i], path[i + 1]) in edges
  }

  /** `x` lies at the end of a path that starts in `from`. */
  ghost predicate Reaches<T(!new)>(edges: Edges<T>, from: set<T>, x: T) {
    exists path: seq<T> :: IsPath(edges, path) && path[0] in from && path[|path| - 1] == x
  }

  ghost predicate ClosedUnder<T(!new)>(edges: Edges<T>, s: set<T>) {
    forall a, b :: (a, b) in edges && a in s ==> b in s
  }

  /** A set is exactly what `from` reaches. */
  ghost predicate IsClosure<T(!new)>(edges: Edges<T>, from: set<T>, s: set<T>) {
    forall x :: x in s <==> Reaches(edges, from, x)
  }

  lemma StartReached<T(!new)>(edges: Edges<T>, from: set<T>, x: T)
    requires x in from
    ensures Reaches(edges, from, x)
  {
    assert IsPath(edges, [x]) && [x][0] in from;
  }

  lemma ReachesExtends<T(!new)>(edges: Edges<T>, from: set<T>, a: T, b: T)
    requires Reaches(edges, from, a) && (a, b) in edges
    ensures Reaches(edges, from, b)
  {
    var path: seq<T> :| IsPath(edges, path) && path[0] in from && path[|path| - 1] == a;
    var longer := path + [b];
    forall i | 0 <= i < |longer| - 1 ensures (longer[i], longer[i + 1]) in edges {
      if i < |path| - 1 { assert (path[i], path[i + 1]) in edges; }
    }
    assert IsPath(edges, longer) && longer[0] in from;
  }

  /** A closed set that holds the start of a path holds all of it. */
  lemma {:induction false} PathStaysInside<T(!new)>(edges: Edges<T>, s: set<T>, path: seq<T>)
    requires ClosedUnder(edges, s) && IsPath(edges, path) && path[0] in s
    ensures path[|path| - 1] in s
    decreases |path|
  {
    if |path| > 1 {
      assert (path[0], path[1]) in edges;
      var rest := path[1..];
      forall i | 0 <= i < |rest| - 1 ensures (rest[i], rest[i + 1]) in edges {
        assert (path[i + 1], path[i + 2]) in edges;
      }
      PathStaysInside(edges, s, rest);
    }
  }

  lemma ClosedHoldsReached<T(!new)>(edges: Edges<T>, from: set<T>, s: set<T>, x: T)
    requires ClosedUnder(edges, s) && from <= s && Reaches(edges, from, x)
    ensures x in s
  {
    var path: seq<T> :| IsPath(edges, path) && path[0] in from && path[|path| - 1] == x;
    PathStaysInside(edges, s, path);
  }

  /** The least closed set over `from` is its closure. */
  lemma LeastClosedIsClosure<T(!new)>(edges: Edges<T>, from: set<T>, s: set<T>)
    requires from <= s && ClosedUnder(edges, s)
    requires forall x :: x in s ==> Reaches(edges, from, x)
    ensures IsClosure(edges, from, s)
  {
    forall x | Reaches(edges, from, x) ensures x in s {
      ClosedHoldsReached(edges, from, s, x);
    }
  }

  ghost predicate HasSuccessor<T(!new)>(edges: Edges<T>, s: set<T>, a: T) {
    exists b :: b in s && (a, b) in edges
  }

  /** Every member of `s` has a successor in `s`. */
  ghost predicate Sustained<T(!new)>(edges: Edges<T>, s: set<T>) {
    forall a {:trigger HasSuccessor(edges, s, a)} :: a in s ==> HasSuccessor(edges, s, a)
  }

  /** Two nodes with an edge each way are sustained. */
  lemma PairIsSustained<T(!new)>(edges: Edges<T>, a: T, b: T)
    requires (a, b) in edges && (b, a) in edges
    ensures Sustained(edges, {a, b})
  {
    assert b in {a, b} && HasSuccessor(edges, {a, b}, a);
    assert a in {a, b} && HasSuccessor(edges, {a, b}, b);
  }

  function Trim<T(==)>(edges: Edges<T>, s: set<T>): (r: set<T>)
    ensures r <= s
  {
    set e | e in edges && e.0 in s && e.1 in s :: e.0
  }

  /** What is left of `s` after nodes without a successor in it are removed
      again and again: the nodes on, or leading to, a cycle inside `s`. */
  function Core<T(==)>(edges: Edges<T>, s: set<T>): (r: set<T>)
    ensures r <= s
    decreases |s|
  {
    var t := Trim(edges, s);
    if t == s then s else SmallerSet(t, s); Core(edges, t)
  }

  lemma SmallerSet<T>(t: set<T>, s: set<T>)
    requires t < s
    ensures |t| < |s|
  {
    assert s == t + (s - t);
  }

  lemma TrimKeeps<T>(edges: Edges<T>, s: set<T>, a: T, b: T)
    requires (a, b) in edges && a in s && b in s
    ensures a in Trim(edges, s)
  {
    var e := (a, b);
    assert e in edges && e.0 in s && e.1 in s;
  }

  /** The core is sustained ... */
  lemma {:induction false} CoreIsSustained<T(!new)>(edges: Edges<T>, s: set<T>)
    ensures Sustained(edges, Core(edges, s))
    decreases |s|
  {
    var t := Trim(edges, s);
    if t == s {
      forall a | a in s ensures HasSuccessor(edges, s, a) {
        assert a in t;
        var e :| e in edges && e.0 in s && e.1 in s && e.0 == a;
        assert e == (a, e.1);
      }
    } else {
      SmallerSet(t, s);
      CoreIsSustained(edges, t);
    }
  }

  /** ... and contains every sustained subset. */
  lemma {:induction false} CoreIsGreatest<T(!new)>(edges: Edges<T>, s: set<T>, b: set<T>)
    requires b <= s && Sustained(edges, b)
    ensures b <= Core(edges, s)
    decreases |s|
  {
    var t := Trim(edges, s);
    if t != s {
      SmallerSet(t, s);
      forall a | a in b ensures a in t {
        assert HasSuccessor(edges, b, a);
        var c :| c in b && (a, c) in edges;
        TrimKeeps(edges, s, a, c);
      }
      CoreIsGreatest(edges, t, b);
    }
  }

  /** How many trimmings a node outside the core survives. */
  ghost function Rank<T>(edges: Edges<T>, s: set<T>, x: T): (r: nat)
    ensures r <= |s|
    decreases |s|
  {
    var t := Trim(edges, s);
    if x !in s || t == s then 0 else SmallerSet(t, s); 1 + Rank(edges, t, x)
  }

  /** Outside the core every edge goes down in rank. */
  lemma {:induction false} RankDescends<T(!new)>(edges: Edges<T>, s: set<T>, a: T, b: T)
    requires a in s && a !in Core(edges, s) && (a, b) in edges
    ensures Rank(edges, s, b) < Rank(edges, s, a)
    decreases |s|
  {
    var t := Trim(edges, s);
    SmallerSet(t, s);
    if b in s { TrimKeeps(edges, s, a, b); }
    if a in t { RankDescends(edges, t, a, b); }
  }

  /** An edge into the core starts in the core. */
  lemma CoreAbsorbsPredecessors<T(!new)>(edges: Edges<T>, s: set<T>, a: T, b: T)
    requires a in s && (a, b) in edges && b in Core(edges, s)
    ensures a in Core(edges, s)
  {
    var larger := Core(edges, s) + {a};
    CoreIsSustained(edges, s);
    forall x | x in larger ensures HasSuccessor(edges, larger, x) {
      if x in Core(edges, s) {
        assert HasSuccessor(edges, Core(edges, s), x);
        var y :| y in Core(edges, s) && (x, y) in edges;
        assert y in larger;
      } else {
        assert b in larger;
      }
    }
    CoreIsGreatest(edges, s, larger);
  }
}
