/** Paths that stay clear of some nodes, and the cycles behind a core. */
module DigraphPaths {
  import opened Digraphs

  /** `path` leads from `a` to `x` and meets nothing in `s`. */
  ghost predicate PathAvoiding<T(!new)>(edges: Edges<T>, path: seq<T>, a: T, s: set<T>, x: T) {
    && IsPath(edges, path) && path[0] == a && path[|path| - 1] == x
    && forall i :: 0 <= i < |path| ==> path[i] !in s
  }

  ghost predicate ReachesAvoiding<T(!new)>(edges: Edges<T>, a: T, s: set<T>, x: T) {
    exists path :: PathAvoiding(edges, path, a, s, x)
  }

  lemma TailIsPath<T(!new)>(edges: Edges<T>, path: seq<T>, i: nat)
    requires IsPath(edges, path) && i < |path|
    ensures IsPath(edges, path[i..])
  {
    var rest := path[i..];
    forall k | 0 <= k < |rest| - 1 ensures (rest[k], rest[k + 1]) in edges {
      assert (path[i + k], path[i + k + 1]) in edges;
    }
  }

  lemma MiddleIsPath<T(!new)>(edges: Edges<T>, path: seq<T>, i: nat, j: nat)
    requires IsPath(edges, path) && i < j <= |path|
    ensures IsPath(edges, path[i..j])
  {
    var part := path[i..j];
    forall k | 0 <= k < |part| - 1 ensures (part[k], part[k + 1]) in edges {
      assert (path[i + k], path[i + k + 1]) in edges;
    }
  }

  lemma StaysPut<T(!new)>(edges: Edges<T>, a: T, s: set<T>)
    requires a !in s
    ensures ReachesAvoiding(edges, a, s, a)
  {
    assert PathAvoiding(edges, [a], a, s, a);
  }

  lemma StepsOn<T(!new)>(edges: Edges<T>, a: T, b: T, s: set<T>, x: T)
    requires (a, b) in edges && a !in s && ReachesAvoiding(edges, b, s, x)
    ensures ReachesAvoiding(edges, a, s, x)
  {
    var path: seq<T> :| PathAvoiding(edges, path, b, s, x);
    var longer := [a] + path;
    forall i | 0 <= i < |longer| - 1 ensures (longer[i], longer[i + 1]) in edges {
      if i > 0 { assert (path[i - 1], path[i]) in edges; }
    }
    assert PathAvoiding(edges, longer, a, s, x);
  }

  /** A path to another node can leave its start for good. */
  lemma {:induction false} StepsOff<T(!new)>(edges: Edges<T>, path: seq<T>, a: T, s: set<T>, x: T) returns (b: T)
    requires PathAvoiding(edges, path, a, s, x) && a != x
    ensures (a, b) in edges && b !in s && b != a && ReachesAvoiding(edges, b, s + {a}, x)
    decreases |path|
  {
    if i: nat :| 0 < i < |path| && path[i] == a {
      TailIsPath(edges, path, i);
      b := StepsOff(edges, path[i..], a, s, x);
    } else {
      b := path[1];
      assert (path[0], path[1]) in edges;
      TailIsPath(edges, path, 1);
      assert PathAvoiding(edges, path[1..], b, s + {a}, x);
    }
  }

  /** Two paths in sequence. */
  lemma {:induction false} PathsJoin<T(!new)>(edges: Edges<T>, first: seq<T>, a: T, b: T, s: set<T>, x: T)
    requires PathAvoiding(edges, first, a, s, b) && ReachesAvoiding(edges, b, s, x)
    ensures ReachesAvoiding(edges, a, s, x)
    decreases |first|
  {
    if |first| > 1 {
      assert (first[0], first[1]) in edges;
      TailIsPath(edges, first, 1);
      PathsJoin(edges, first[1..], first[1], b, s, x);
      StepsOn(edges, a, first[1], s, x);
    }
  }

  lemma ReachesJoin<T(!new)>(edges: Edges<T>, a: T, b: T, s: set<T>, x: T)
    requires ReachesAvoiding(edges, a, s, b) && ReachesAvoiding(edges, b, s, x)
    ensures ReachesAvoiding(edges, a, s, x)
  {
    var first: seq<T> :| PathAvoiding(edges, first, a, s, b);
    PathsJoin(edges, first, a, b, s, x);
  }

  lemma LeadsPastCut<T(!new)>(edges: Edges<T>, a: T, b: T, t: T, x: T)
    requires !ReachesAvoiding(edges, a, {t}, x) && ReachesAvoiding(edges, b, {t}, x)
    ensures !ReachesAvoiding(edges, a, {t}, b)
  {
    if ReachesAvoiding(edges, a, {t}, b) { ReachesJoin(edges, a, b, {t}, x); }
  }

  /** One more step. */
  lemma StepsPast<T(!new)>(edges: Edges<T>, a: T, b: T, s: set<T>, x: T)
    requires ReachesAvoiding(edges, a, s, b) && (b, x) in edges && x !in s
    ensures ReachesAvoiding(edges, a, s, x)
  {
    var path: seq<T> :| PathAvoiding(edges, path, a, s, b);
    StaysPut(edges, x, s);
    StepsOn(edges, b, x, s, x);
    ReachesJoin(edges, a, b, s, x);
  }

  /** When every path from `a` to `x` passes `t`, what can be reached short of
      `t` is no way on to `x`: from `t` itself `x` is reached clear of it. */
  lemma DominatorLeadsOn<T(!new)>(edges: Edges<T>, a: T, t: T, x: T, s: set<T>)
    requires !ReachesAvoiding(edges, a, {t}, x) && Reaches(edges, {a}, x)
    requires t !in s && forall y :: y in s ==> ReachesAvoiding(edges, a, {t}, y)
    ensures ReachesAvoiding(edges, t, s, x)
  {
    var path: seq<T> :| IsPath(edges, path) && path[0] in {a} && path[|path| - 1] == x;
    assert !PathAvoiding(edges, path, a, {t}, x);
    assert t in path;
    var i := LastOf(path, t);
    TailIsPath(edges, path, i);
    var q := path[i..];
    forall k | 0 <= k < |q| ensures q[k] !in s {
      if k > 0 {
        TailIsPath(edges, q, k);
        assert PathAvoiding(edges, q[k..], q[k], {t}, x);
        LeadsPastCut(edges, a, q[k], t, x);
      }
    }
    assert PathAvoiding(edges, q, t, s, x);
  }

  lemma {:induction false} LastOf<T>(path: seq<T>, t: T) returns (i: nat)
    requires t in path
    ensures i < |path| && path[i] == t && forall k :: i < k < |path| ==> path[k] != t
  {
    i := |path| - 1;
    while path[i] != t
      invariant i < |path| && forall k :: i < k < |path| ==> path[k] != t
      invariant t in path[..i + 1]
      decreases i
    {
      assert path[..i + 1] == path[..i] + [path[i]];
      i := i - 1;
    }
  }

  // ------------------------------------------------------------------- cycles

  /** `x` lies on a closed path inside `s`. */
  ghost predicate OnCycle<T(!new)>(edges: Edges<T>, s: set<T>, x: T) {
    exists cycle: seq<T> :: |cycle| > 1 && IsPath(edges, cycle) && cycle[0] == cycle[|cycle| - 1] == x
                            && forall i :: 0 <= i < |cycle| ==> cycle[i] in s
  }

  /** A path inside `s` leads from `x` to a cycle inside `s`. */
  ghost predicate LeadsToCycle<T(!new)>(edges: Edges<T>, s: set<T>, x: T) {
    exists path: seq<T> :: IsPath(edges, path) && path[0] == x && (forall i :: 0 <= i < |path| ==> path[i] in s)
                           && OnCycle(edges, s, path[|path| - 1])
  }

  /** Walking inside a sustained set one stays in it as long as one likes. */
  lemma {:induction false} WalkOn<T(!new)>(edges: Edges<T>, s: set<T>, x: T, n: nat) returns (path: seq<T>)
    requires Sustained(edges, s) && x in s
    ensures |path| == n + 1 && path[0] == x && IsPath(edges, path) && forall i :: 0 <= i < |path| ==> path[i] in s
  {
    path := [x];
    if n > 0 {
      assert HasSuccessor(edges, s, x);
      var y :| y in s && (x, y) in edges;
      var rest := WalkOn(edges, s, y, n - 1);
      path := [x] + rest;
      forall i | 0 <= i < |path| - 1 ensures (path[i], path[i + 1]) in edges {
        if i > 0 { assert (rest[i - 1], rest[i]) in edges; }
      }
    }
  }

  /** A path longer than the set it stays in repeats a node. */
  lemma {:induction false} LongPathRepeats<T(!new)>(path: seq<T>, s: set<T>) returns (i: nat, j: nat)
    requires |path| > |s| && forall k :: 0 <= k < |path| ==> path[k] in s
    ensures i < j < |path| && path[i] == path[j]
    decreases |path|
  {
    var last := |path| - 1;
    if k: nat :| k < last && path[k] == path[last] {
      i, j := k, last;
    } else {
      var front := path[..last];
      assert path[last] in s && |s - {path[last]}| == |s| - 1;
      i, j := LongPathRepeats(front, s - {path[last]});
    }
  }

  lemma CoreLeadsToCycle<T(!new)>(edges: Edges<T>, s: set<T>, x: T)
    requires x in Core(edges, s)
    ensures LeadsToCycle(edges, s, x)
  {
    var core := Core(edges, s);
    CoreIsSustained(edges, s);
    var path := WalkOn(edges, core, x, |core|);
    var i, j := LongPathRepeats(path, core);
    MiddleIsPath(edges, path, 0, i + 1);
    LoopIsCycle(edges, s, path, i, j);
    assert path[0..i + 1][i] == path[i];
  }

  lemma LoopIsCycle<T(!new)>(edges: Edges<T>, s: set<T>, path: seq<T>, i: nat, j: nat)
    requires IsPath(edges, path) && i < j < |path| && path[i] == path[j]
    requires forall k :: 0 <= k < |path| ==> path[k] in s
    ensures OnCycle(edges, s, path[i])
  {
    MiddleIsPath(edges, path, i, j + 1);
    var cycle := path[i..j + 1];
    assert cycle[0] == cycle[|cycle| - 1] == path[i];
  }

  lemma CycleIsInCore<T(!new)>(edges: Edges<T>, s: set<T>, x: T)
    requires OnCycle(edges, s, x)
    ensures x in Core(edges, s)
  {
    var cycle: seq<T> :| |cycle| > 1 && IsPath(edges, cycle) && cycle[0] == cycle[|cycle| - 1] == x
                         && forall i :: 0 <= i < |cycle| ==> cycle[i] in s;
    var nodes := set i | 0 <= i < |cycle| - 1 :: cycle[i];
    forall a | a in nodes ensures HasSuccessor(edges, nodes, a) {
      var i :| 0 <= i < |cycle| - 1 && cycle[i] == a;
      assert (cycle[i], cycle[i + 1]) in edges;
      if i + 1 == |cycle| - 1 { assert cycle[i + 1] == cycle[0]; }
      assert cycle[i + 1] in nodes;
    }
    assert cycle[0] in nodes;
    CoreIsGreatest(edges, s, nodes);
  }

  lemma {:induction false} PathIntoCore<T(!new)>(edges: Edges<T>, s: set<T>, path: seq<T>)
    requires IsPath(edges, path) && (forall i :: 0 <= i < |path| ==> path[i] in s)
    requires path[|path| - 1] in Core(edges, s)
    ensures path[0] in Core(edges, s)
    decreases |path|
  {
    if |path| > 1 {
      TailIsPath(edges, path, 1);
      PathIntoCore(edges, s, path[1..]);
      assert (path[0], path[1]) in edges;
      CoreAbsorbsPredecessors(edges, s, path[0], path[1]);
    }
  }

  /** The core is exactly the nodes from which a path inside the set leads to a
      cycle inside it. */
  lemma CoreIsCyclic<T(!new)>(edges: Edges<T>, s: set<T>, x: T)
    ensures x in Core(edges, s) <==> LeadsToCycle(edges, s, x)
  {
    if x in Core(edges, s) { CoreLeadsToCycle(edges, s, x); }
    if LeadsToCycle(edges, s, x) {
      var path: seq<T> :| IsPath(edges, path) && path[0] == x && (forall i :: 0 <= i < |path| ==> path[i] in s)
                          && OnCycle(edges, s, path[|path| - 1]);
      CycleIsInCore(edges, s, path[|path| - 1]);
      PathIntoCore(edges, s, path);
    }
  }

  /** From a node of the core a closed set holds the way to a cycle. */
  lemma CoreMeetsCycle<T(!new)>(edges: Edges<T>, s: set<T>, closed: set<T>, x: T) returns (y: T)
    requires x in Core(edges, s) && x in closed && ClosedUnder(edges, closed)
    ensures y in closed && OnCycle(edges, s, y)
  {
    CoreIsCyclic(edges, s, x);
    var path: seq<T> :| IsPath(edges, path) && path[0] == x && (forall i :: 0 <= i < |path| ==> path[i] in s)
                        && OnCycle(edges, s, path[|path| - 1]);
    PathStaysInside(edges, closed, path);
    y := path[|path| - 1];
  }
}
