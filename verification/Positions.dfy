/** Lists told by the positions their elements come from. */
module Positions {

  ghost predicate Apart(at: seq<nat>) {
    forall i, j :: 0 <= i < j < |at| ==> at[i] != at[j]
  }

  ghost predicate Rising(at: seq<nat>) {
    forall i, j :: 0 <= i < j < |at| ==> at[i] < at[j]
  }

  /** `to` holds the elements of `from` at the positions `at`. */
  ghost predicate Picks<T>(from: seq<T>, at: seq<nat>, to: seq<T>) {
    |to| == |at| && (forall i :: 0 <= i < |at| ==> at[i] < |from| && from[at[i]] == to[i]) && Apart(at)
  }

  function OneFurther(at: seq<nat>): (r: seq<nat>)
    ensures |r| == |at| && forall i :: 0 <= i < |r| ==> r[i] == at[i] + 1
  {
    seq(|at|, i requires 0 <= i < |at| => at[i] + 1)
  }

  lemma FurtherHas(at: seq<nat>, p: nat)
    ensures p in OneFurther(at) <==> p > 0 && p - 1 in at
  {
    if p > 0 && p - 1 in at {
      var i :| 0 <= i < |at| && at[i] == p - 1;
      assert OneFurther(at)[i] == p;
    }
  }

  lemma FurtherPicks<T>(all: seq<T>, at: seq<nat>, rest: seq<T>)
    requires all != [] && Picks(all[1..], at, rest) && Rising(at)
    ensures Picks(all, OneFurther(at), rest) && Rising(OneFurther(at)) && forall p :: p in OneFurther(at) ==> p > 0
  {
    forall i | 0 <= i < |at| ensures OneFurther(at)[i] < |all| && all[OneFurther(at)[i]] == rest[i] {
      assert all[1..][at[i]] == rest[i];
    }
  }

  lemma FirstPicks<T>(all: seq<T>, at: seq<nat>, rest: seq<T>)
    requires all != [] && Picks(all, at, rest) && Rising(at) && forall p :: p in at ==> p > 0
    ensures Picks(all, [0] + at, [all[0]] + rest) && Rising([0] + at)
  {
    forall i | 0 <= i < |at| ensures at[i] > 0 { assert at[i] in at; }
  }

  /** As many positions as there are elements in their set. */
  lemma {:induction false} PositionsCounted(at: seq<nat>, s: set<nat>)
    requires Apart(at) && forall p :: p in s <==> p in at
    ensures |s| == |at|
  {
    if at == [] {
      forall p ensures p !in s { assert p !in at; }
      assert s == {};
    } else {
      var last, front := at[|at| - 1], at[..|at| - 1];
      assert at == front + [last] && last !in front;
      PositionsCounted(front, s - {last});
    }
  }

  // ------------------------------------------------------ one for each kept

  /** `to` has, in order, one element for each kept element of `from`, at the
      positions `at`, and `made` relates the two. */
  ghost predicate Drawn<S(!new), T(!new)>(from: seq<S>, keep: S -> bool, made: (S, T) -> bool, at: seq<nat>, to: seq<T>) {
    && |to| == |at| && Rising(at)
    && (forall i :: 0 <= i < |at| ==> at[i] < |from| && made(from[at[i]], to[i]))
    && forall p: nat :: p in at <==> p < |from| && keep(from[p])
  }

  /** The same from position 1 on. */
  ghost predicate DrawnAfter<S(!new), T(!new)>(from: seq<S>, keep: S -> bool, made: (S, T) -> bool, at: seq<nat>, to: seq<T>) {
    && |to| == |at| && Rising(at)
    && (forall i :: 0 <= i < |at| ==> 0 < at[i] < |from| && made(from[at[i]], to[i]))
    && forall p: nat :: p in at <==> 0 < p < |from| && keep(from[p])
  }

  lemma DrawnFurther<S(!new), T(!new)>(from: seq<S>, keep: S -> bool, made: (S, T) -> bool, at: seq<nat>, rest: seq<T>)
    requires from != [] && Drawn(from[1..], keep, made, at, rest)
    ensures DrawnAfter(from, keep, made, OneFurther(at), rest)
  {
    forall i | 0 <= i < |at| ensures 0 < at[i] + 1 < |from| && made(from[at[i] + 1], rest[i]) {
      assert from[1..][at[i]] == from[at[i] + 1];
    }
    forall p: nat ensures p in OneFurther(at) <==> 0 < p < |from| && keep(from[p]) {
      FurtherHas(at, p);
      if 0 < p < |from| { assert from[1..][p - 1] == from[p]; }
    }
  }

  lemma DrawnFirst<S(!new), T(!new)>(from: seq<S>, keep: S -> bool, made: (S, T) -> bool, at: seq<nat>, rest: seq<T>, first: T)
    requires from != [] && DrawnAfter(from, keep, made, at, rest) && keep(from[0]) && made(from[0], first)
    ensures Drawn(from, keep, made, [0] + at, [first] + rest)
  {
    var all := [0] + at;
    forall p: nat ensures p in all <==> p < |from| && keep(from[p]) {
      assert p in all <==> p == 0 || p in at;
    }
  }

  /** One element more in front, kept or not. */
  lemma DrawnNext<S(!new), T(!new)>(from: seq<S>, keep: S -> bool, made: (S, T) -> bool, at: seq<nat>, rest: seq<T>, to: seq<T>)
    returns (next: seq<nat>)
    requires from != [] && Drawn(from[1..], keep, made, at, rest)
    requires if keep(from[0]) then |to| > 0 && to == [to[0]] + rest && made(from[0], to[0]) else to == rest
    ensures Drawn(from, keep, made, next, to)
  {
    DrawnFurther(from, keep, made, at, rest);
    next := OneFurther(at);
    if keep(from[0]) {
      DrawnFirst(from, keep, made, next, rest, to[0]);
      next := [0] + next;
    } else {
      assert DrawnAfter(from, keep, made, next, to);
    }
  }
}
