/** What the log holds after any run, told from the calls alone. */
module QueryHistory {
  import opened Metadata
  import opened Positions
  import opened QueryTracking

  /** The entries tracked since the last reset, in order. */
  function TrackedSince(calls: seq<Call>, n: nat): seq<Entry>
    requires n <= |calls|
  {
    if n == 0 then []
    else
      match calls[n - 1]
      case Track(e) => TrackedSince(calls, n - 1) + [e]
      case Reset => []
  }

  /** Among the last `maxLogEntries` if there is a bound, and not older than the time
      to live, if there is one, when the newest was tracked. */
  ghost predicate Held(s: Settings, all: seq<Entry>, i: nat)
    requires i < |all|
  {
    && (s.maxLogEntries.None? || s.maxLogEntries.value <= 0 || i >= |all| - s.maxLogEntries.value)
    && (s.ttlMs <= 0 || all[i].timestamp >= all[|all| - 1].timestamp - s.ttlMs)
  }

  /** The log is `all` from `k` on, and those are the entries held. */
  ghost predicate Recent(s: Settings, all: seq<Entry>, k: nat, entries: seq<Entry>) {
    k <= |all| && entries == all[k..] && forall i :: 0 <= i < |all| ==> (i >= k <==> Held(s, all, i))
  }

  lemma {:induction false} TrackedIsChronological(calls: seq<Call>, n: nat, now: int)
    requires n <= |calls| && Forward(calls) && Before(calls, n, now)
    ensures UpTo(TrackedSince(calls, n), now)
  {
    if n > 0 {
      TrackedIsChronological(calls, n - 1, now);
      if calls[n - 1].Track? { TrackedIsChronological(calls, n - 1, calls[n - 1].entry.timestamp); }
    }
  }

  /** Eviction of a tail leaves a tail: what comes before it is expired. */
  lemma EvictedTail(s: Settings, all: seq<Entry>, k: nat, now: int) returns (j: nat)
    requires k <= |all| && Chronological(all)
    ensures k <= j <= |all| && Evicted(s, all[k..], now) == all[j..]
    ensures forall i :: k <= i < |all| ==> (i >= j <==> s.ttlMs <= 0 || all[i].timestamp >= now - s.ttlMs)
  {
    j := k;
    if s.ttlMs > 0 {
      while j < |all| && all[j].timestamp < now - s.ttlMs
        invariant k <= j <= |all| && forall i :: k <= i < j ==> all[i].timestamp < now - s.ttlMs
      {
        j := j + 1;
      }
      forall i | 0 <= i < j - k ensures all[k..][i].timestamp < now - s.ttlMs { assert all[k..][i] == all[k + i]; }
      DropExpiredIs(all[k..], now - s.ttlMs, j - k);
      assert all[k..][j - k..] == all[j..];
    }
  }

  lemma AppendedTail(s: Settings, all: seq<Entry>, j: nat, e: Entry) returns (k: nat)
    requires j <= |all| && (!Unbounded(s) ==> |all| - j <= s.maxLogEntries.value)
    ensures j <= k <= j + 1 && k <= |all| + 1 && Appended(s, all[j..], e) == (all + [e])[k..]
    ensures k == j + 1 <==> !Unbounded(s) && |all| - j == s.maxLogEntries.value
  {
    k := if !Unbounded(s) && |all| - j == s.maxLogEntries.value then j + 1 else j;
    if k == j + 1 {
      assert all[j..][1..] + [e] == (all + [e])[k..];
    } else {
      assert all[j..] + [e] == (all + [e])[k..];
    }
  }

  /** One track keeps the log the recent entries. */
  lemma RecordedIsRecent(s: Settings, all: seq<Entry>, k0: nat, entries: seq<Entry>, e: Entry) returns (k: nat)
    requires Recent(s, all, k0, entries) && UpTo(all, e.timestamp)
    ensures Recent(s, all + [e], k, Recorded(s, entries, e))
  {
    if !Unbounded(s) && |all| > s.maxLogEntries.value { assert !Held(s, all, |all| - s.maxLogEntries.value - 1); }
    var j := EvictedTail(s, all, k0, e.timestamp);
    k := AppendedTail(s, all, j, e);
    var all1 := all + [e];
    forall i | 0 <= i < |all1| ensures i >= k <==> Held(s, all1, i) {
      if i < |all| { TrackKeeps(s, all, e, k0, j, k, i); }
    }
  }

  lemma TrackKeeps(s: Settings, all: seq<Entry>, e: Entry, k0: nat, j: nat, k: nat, i: nat)
    requires i < |all| && k0 <= j <= k <= |all| + 1 && UpTo(all, e.timestamp)
    requires i >= k0 <==> Held(s, all, i)
    requires i >= k0 ==> (i >= j <==> s.ttlMs <= 0 || all[i].timestamp >= e.timestamp - s.ttlMs)
    requires k == if !Unbounded(s) && |all| - j == s.maxLogEntries.value then j + 1 else j
    requires !Unbounded(s) ==> |all| - j <= s.maxLogEntries.value
    ensures i >= k <==> Held(s, all + [e], i)
  {}

  /** One more track of a run. */
  lemma RecentNext(s: Settings, calls: seq<Call>, i: nat, k0: nat) returns (k: nat)
    requires i < |calls| && Forward(calls) && s.enabled && calls[i].Track?
    requires Recent(s, TrackedSince(calls, i), k0, Run(s, calls, i).entries)
    ensures Recent(s, TrackedSince(calls, i) + [calls[i].entry], k, Run(s, calls, i + 1).entries)
  {
    TrackedIsChronological(calls, i, calls[i].entry.timestamp);
    EntriesOfRun(s, calls, i);
    k := RecordedIsRecent(s, TrackedSince(calls, i), k0, Run(s, calls, i).entries, calls[i].entry);
  }

  /** After any run whose clock does not run back, the log is exactly the entries
      tracked since the last reset that are among the last `maxLogEntries` and not
      expired at the newest of them, in order. */
  lemma {:induction false} LogIsRecent(s: Settings, calls: seq<Call>, n: nat) returns (k: nat)
    requires n <= |calls| && Forward(calls) && s.enabled
    ensures Recent(s, TrackedSince(calls, n), k, Run(s, calls, n).entries)
  {
    k := 0;
    if n > 0 {
      var k0 := LogIsRecent(s, calls, n - 1);
      if calls[n - 1].Track? {
        k := RecentNext(s, calls, n - 1, k0);
        assert TrackedSince(calls, n) == TrackedSince(calls, n - 1) + [calls[n - 1].entry];
      } else {
        StepOfRun(s, calls, n - 1);
        assert TrackedSince(calls, n) == [] && Run(s, calls, n).entries == [];
      }
    }
  }

  /** A disabled tracker records and warns about nothing. */
  lemma {:induction false} DisabledRecordsNothing(s: Settings, calls: seq<Call>, n: nat)
    requires n <= |calls| && !s.enabled
    ensures Run(s, calls, n) == Log([], {})
  {
    if n > 0 { DisabledRecordsNothing(s, calls, n - 1); }
  }

  ghost predicate InWindowAt(entries: seq<Entry>, p: nat, entity: Entity, windowStart: int) {
    p < |entries| && entries[p].entity == entity && entries[p].timestamp >= windowStart
  }

  lemma FurtherInWindow(entries: seq<Entry>, at: seq<nat>, entity: Entity, windowStart: int)
    requires entries != [] && forall p: nat :: p in at <==> InWindowAt(entries[1..], p, entity, windowStart)
    ensures forall p: nat :: p in OneFurther(at) <==> p > 0 && InWindowAt(entries, p, entity, windowStart)
  {
    forall p: nat ensures p in OneFurther(at) <==> p > 0 && InWindowAt(entries, p, entity, windowStart) {
      FurtherHas(at, p);
      if p > 0 { assert InWindowAt(entries, p, entity, windowStart) <==> InWindowAt(entries[1..], p - 1, entity, windowStart); }
    }
  }

  /** The window of an entity holds all its entries from `windowStart` on, in the
      log's order. */
  lemma {:induction false} WindowPicks(entries: seq<Entry>, entity: Entity, windowStart: int) returns (at: seq<nat>)
    ensures Picks(entries, at, InWindow(entries, entity, windowStart)) && Rising(at)
    ensures forall p: nat :: p in at <==> InWindowAt(entries, p, entity, windowStart)
  {
    if entries == [] {
      at := [];
    } else {
      var at1 := WindowPicks(entries[1..], entity, windowStart);
      var rest := InWindow(entries[1..], entity, windowStart);
      FurtherPicks(entries, at1, rest);
      FurtherInWindow(entries, at1, entity, windowStart);
      var further := OneFurther(at1);
      if InWindowAt(entries, 0, entity, windowStart) {
        FirstPicks(entries, further, rest);
        at := [0] + further;
      } else {
        at := further;
        assert [] + rest == rest;
      }
    }
  }
}
