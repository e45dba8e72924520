/** What a query tracker records and when it warns, as functions on a list, and
    what holds over every run of calls. */
module QueryTracking {
  import opened Metadata

  datatype Entry = Entry(entity: Entity, sql: string, duration: int, timestamp: int)

  /** `maxLogEntries` is None when it is infinite. */
  datatype Settings = Settings(enabled: bool, windowMs: int, threshold: int, slowQueryMs: Option<int>,
                               maxLogEntries: Option<int>, ttlMs: int)

  predicate Unbounded(s: Settings) {
    s.maxLogEntries.None? || s.maxLogEntries.value <= 0
  }

  datatype Log = Log(entries: seq<Entry>, warned: set<Entity>)

  const EMPTY := Log([], {})

  datatype Warning = Warning(entity: Entity, samples: seq<Entry>)

  /** Drops the leading entries older than `cutoff`. */
  function DropExpired(entries: seq<Entry>, cutoff: int): seq<Entry> {
    if entries != [] && entries[0].timestamp < cutoff then DropExpired(entries[1..], cutoff) else entries
  }

  function Evicted(s: Settings, entries: seq<Entry>, now: int): seq<Entry> {
    if s.ttlMs > 0 then DropExpired(entries, now - s.ttlMs) else entries
  }

  function Appended(s: Settings, entries: seq<Entry>, e: Entry): seq<Entry> {
    if Unbounded(s) || |entries| < s.maxLogEntries.value then entries + [e]
    else if entries == [] then [e]
    else entries[1..] + [e]
  }

  /** The scan back from the newest entry, which stops at the first one older
      than the window; newest first. */
  function Scan(entries: seq<Entry>, entity: Entity, windowStart: int): seq<Entry> {
    if entries == [] || entries[|entries| - 1].timestamp < windowStart then []
    else
      var last := entries[|entries| - 1];
      (if last.entity == entity then [last] else []) + Scan(entries[..|entries| - 1], entity, windowStart)
  }

  function Reversed(entries: seq<Entry>): seq<Entry> {
    if entries == [] then [] else Reversed(entries[1..]) + [entries[0]]
  }

  function Recorded(s: Settings, entries: seq<Entry>, e: Entry): seq<Entry> {
    Appended(s, Evicted(s, entries, e.timestamp), e)
  }

  function Detected(s: Settings, log: Log, e: Entry): Option<Warning> {
    var samples := Scan(Recorded(s, log.entries, e), e.entity, e.timestamp - s.windowMs);
    if e.entity in log.warned || |samples| < s.threshold then None else Some(Warning(e.entity, Reversed(samples)))
  }

  /** One `track`: evict, append, detect. */
  function Tracked(s: Settings, log: Log, e: Entry): Log {
    if !s.enabled then log
    else Log(Recorded(s, log.entries, e), if Detected(s, log, e).Some? then log.warned + {e.entity} else log.warned)
  }

  datatype Call = Track(entry: Entry) | Reset

  function Step(s: Settings, log: Log, call: Call): Log {
    match call
    case Track(e) => Tracked(s, log, e)
    case Reset => EMPTY
  }

  /** The log after the first `n` calls. */
  function Run(s: Settings, calls: seq<Call>, n: nat): Log
    requires n <= |calls|
  {
    if n == 0 then EMPTY else Step(s, Run(s, calls, n - 1), calls[n - 1])
  }

  // ------------------------------------------------------------- chronology

  ghost predicate Chronological(entries: seq<Entry>) {
    forall i, j :: 0 <= i < j < |entries| ==> entries[i].timestamp <= entries[j].timestamp
  }

  /** The clock never runs back between two tracks. */
  ghost predicate Forward(calls: seq<Call>) {
    forall i, j :: 0 <= i < j < |calls| && calls[i].Track? && calls[j].Track? ==>
      calls[i].entry.timestamp <= calls[j].entry.timestamp
  }

  function Last<T>(n: nat, xs: seq<T>): seq<T> {
    if |xs| <= n then xs else xs[|xs| - n..]
  }

  lemma {:induction false} DropExpiredIsSuffix(entries: seq<Entry>, cutoff: int)
    ensures var kept := DropExpired(entries, cutoff);
            && |kept| <= |entries| && kept == entries[|entries| - |kept|..]
            && (forall i :: 0 <= i < |entries| - |kept| ==> entries[i].timestamp < cutoff)
            && (kept != [] ==> kept[0].timestamp >= cutoff)
  {
    if entries != [] && entries[0].timestamp < cutoff { DropExpiredIsSuffix(entries[1..], cutoff); }
  }

  lemma SuffixIsLive(entries: seq<Entry>, k: nat, cutoff: int, e: Entry)
    requires Chronological(entries) && k <= |entries| && (k < |entries| ==> entries[k].timestamp >= cutoff)
    requires forall i :: 0 <= i < k ==> entries[i].timestamp < cutoff
    ensures e in entries[k..] <==> e in entries && e.timestamp >= cutoff
  {
    if e in entries && e.timestamp >= cutoff {
      var i :| 0 <= i < |entries| && entries[i] == e;
      assert entries[k..][i - k] == e;
    }
  }

  /** On a chronological list it drops exactly the expired entries. */
  lemma DropExpiredIsExact(entries: seq<Entry>, cutoff: int)
    requires Chronological(entries)
    ensures var kept := DropExpired(entries, cutoff);
            Chronological(kept) && (forall e :: e in kept <==> e in entries && e.timestamp >= cutoff)
  {
    DropExpiredIsSuffix(entries, cutoff);
    var k := |entries| - |DropExpired(entries, cutoff)|;
    assert k < |entries| ==> entries[k] == entries[k..][0];
    forall e ensures e in entries[k..] <==> e in entries && e.timestamp >= cutoff { SuffixIsLive(entries, k, cutoff, e); }
  }

  /** Chronological, and nothing newer than `now`. */
  ghost predicate UpTo(entries: seq<Entry>, now: int) {
    Chronological(entries) && forall i :: 0 <= i < |entries| ==> entries[i].timestamp <= now
  }

  lemma RecordedIsChronological(s: Settings, entries: seq<Entry>, e: Entry)
    requires UpTo(entries, e.timestamp)
    ensures UpTo(Recorded(s, entries, e), e.timestamp)
  {
    DropExpiredIsSuffix(entries, e.timestamp - s.ttlMs);
    AppendedIsChronological(s, Evicted(s, entries, e.timestamp), e);
  }

  lemma AppendedIsChronological(s: Settings, entries: seq<Entry>, e: Entry)
    requires UpTo(entries, e.timestamp)
    ensures UpTo(Appended(s, entries, e), e.timestamp)
  {}

  /** The clock of the first `n` calls has not passed `now`. */
  ghost predicate Before(calls: seq<Call>, n: nat, now: int)
    requires n <= |calls|
  {
    forall i :: 0 <= i < n && calls[i].Track? ==> calls[i].entry.timestamp <= now
  }

  /** No entry of a run is newer than any later track. */
  lemma {:induction false} RunIsChronological(s: Settings, calls: seq<Call>, n: nat, now: int)
    requires n <= |calls| && Forward(calls) && Before(calls, n, now)
    ensures UpTo(Run(s, calls, n).entries, now)
  {
    if n > 0 {
      var call := calls[n - 1];
      RunIsChronological(s, calls, n - 1, now);
      if call.Track? && s.enabled {
        RunIsChronological(s, calls, n - 1, call.entry.timestamp);
        RecordedIsChronological(s, Run(s, calls, n - 1).entries, call.entry);
      }
    }
  }

  lemma StepOfRun(s: Settings, calls: seq<Call>, i: nat)
    requires i < |calls|
    ensures Run(s, calls, i + 1) == Step(s, Run(s, calls, i), calls[i])
  {}

  lemma EntriesOfRun(s: Settings, calls: seq<Call>, i: nat)
    requires i < |calls| && calls[i].Track? && s.enabled
    ensures Run(s, calls, i + 1).entries == Recorded(s, Run(s, calls, i).entries, calls[i].entry)
  {
    StepOfRun(s, calls, i);
  }

  lemma EntriesBefore(s: Settings, calls: seq<Call>, i: nat)
    requires Forward(calls) && i < |calls| && calls[i].Track?
    ensures UpTo(Run(s, calls, i).entries, calls[i].entry.timestamp)
  {
    RunIsChronological(s, calls, i, calls[i].entry.timestamp);
  }

  lemma RecordedIsLive(s: Settings, entries: seq<Entry>, e: Entry, x: Entry)
    requires UpTo(entries, e.timestamp) && s.ttlMs > 0 && x in Recorded(s, entries, e)
    ensures e.timestamp - s.ttlMs <= x.timestamp <= e.timestamp
  {
    var kept := DropExpired(entries, e.timestamp - s.ttlMs);
    assert forall y :: y in kept ==> e.timestamp - s.ttlMs <= y.timestamp by {
      DropExpiredIsExact(entries, e.timestamp - s.ttlMs);
    }
    assert x == e || x in kept;
    DropExpiredIsSuffix(entries, e.timestamp - s.ttlMs);
  }

  /** Whatever the calls before, an entry retained by a track was not expired
      at that track. */
  lemma RetainedIsLive(s: Settings, calls: seq<Call>, i: nat, x: Entry)
    requires Forward(calls) && i < |calls| && calls[i].Track? && s.enabled && s.ttlMs > 0
    requires x in Run(s, calls, i + 1).entries
    ensures calls[i].entry.timestamp - s.ttlMs <= x.timestamp <= calls[i].entry.timestamp
  {
    EntriesBefore(s, calls, i);
    EntriesOfRun(s, calls, i);
    RecordedIsLive(s, Run(s, calls, i).entries, calls[i].entry, x);
  }

  // ------------------------------------------------- the bounded log's twin

  /** The same settings without a bound. */
  function Twin(s: Settings): Settings {
    s.(maxLogEntries := None)
  }

  lemma {:induction false} DropExpiredIs(entries: seq<Entry>, cutoff: int, k: nat)
    requires k <= |entries| && forall i :: 0 <= i < k ==> entries[i].timestamp < cutoff
    requires k < |entries| ==> entries[k].timestamp >= cutoff
    ensures DropExpired(entries, cutoff) == entries[k..]
  {
    if k > 0 {
      DropExpiredIs(entries[1..], cutoff, k - 1);
      assert entries[1..][k - 1..] == entries[k..];
    }
  }

  lemma LastOfAppended(s: Settings, entries: seq<Entry>, e: Entry)
    requires !Unbounded(s)
    ensures Appended(s, Last(s.maxLogEntries.value, entries), e) == Last(s.maxLogEntries.value, entries + [e])
  {
    var n := s.maxLogEntries.value;
    if |entries| < n {
      assert Last(n, entries) == entries;
    } else {
      assert Last(n, entries + [e]) == Last(n, entries)[1..] + [e];
    }
  }

  /** Two expired entries head the bounded log, while in the unbounded one a
      live entry it has overwritten shields them. */
  ghost predicate Shielded(s: Settings, all: seq<Entry>, e: Entry)
    requires !Unbounded(s)
  {
    var n, cutoff := s.maxLogEntries.value, e.timestamp - s.ttlMs;
    && s.enabled && s.ttlMs > 0 && 2 <= n < |all|
    && all[|all| - n].timestamp < cutoff && all[|all| - n + 1].timestamp < cutoff
    && exists i :: 0 <= i < |all| - n && all[i].timestamp >= cutoff
  }

  /** How many leading entries go. */
  function Leading(entries: seq<Entry>, cutoff: int): nat {
    DropExpiredIsSuffix(entries, cutoff);
    |entries| - |DropExpired(entries, cutoff)|
  }

  lemma LeadingGo(entries: seq<Entry>, cutoff: int)
    ensures Leading(entries, cutoff) <= |entries|
    ensures DropExpired(entries, cutoff) == entries[Leading(entries, cutoff)..]
    ensures forall i :: 0 <= i < Leading(entries, cutoff) ==> entries[i].timestamp < cutoff
    ensures Leading(entries, cutoff) < |entries| ==> entries[Leading(entries, cutoff)].timestamp >= cutoff
  {
    DropExpiredIsSuffix(entries, cutoff);
  }

  /** Eviction reaches what the bounded log kept, so both drop the same. */
  lemma LastOfReached(n: nat, all: seq<Entry>, cutoff: int)
    requires n <= |all| && |all| - n <= Leading(all, cutoff)
    ensures DropExpired(Last(n, all), cutoff) == Last(n, DropExpired(all, cutoff))
  {
    var k, d := Leading(all, cutoff), |all| - n;
    LeadingGo(all, cutoff);
    DropExpiredIs(all[d..], cutoff, k - d);
    assert all[d..][k - d..] == all[k..];
  }

  /** Eviction stops at a live entry the bounded log has overwritten. */
  lemma LastOfUnreached(s: Settings, all: seq<Entry>, e: Entry, gone: nat, kept: nat)
    requires !Unbounded(s) && gone < |all| - s.maxLogEntries.value && kept <= s.maxLogEntries.value
    ensures var n := s.maxLogEntries.value;
            Appended(s, Last(n, all)[kept..], e) == Last(n, all[gone..] + [e]) <==> kept <= 1
  {
    var n := s.maxLogEntries.value;
    var last := Last(n, all);
    assert Last(n, all[gone..] + [e]) == last[1..] + [e];
    if kept <= 1 {
      assert last[0..] == last;
    } else {
      assert |Appended(s, last[kept..], e)| == n - kept + 1;
    }
  }

  lemma ShieldedIff(s: Settings, all: seq<Entry>, e: Entry)
    requires !Unbounded(s) && s.enabled && s.ttlMs > 0 && |all| > s.maxLogEntries.value
    ensures Shielded(s, all, e) <==>
              var cutoff := e.timestamp - s.ttlMs;
              Leading(all, cutoff) < |all| - s.maxLogEntries.value && Leading(Last(s.maxLogEntries.value, all), cutoff) >= 2
  {
    var n, cutoff := s.maxLogEntries.value, e.timestamp - s.ttlMs;
    var last := Last(n, all);
    LeadingGo(all, cutoff);
    LeadingGo(last, cutoff);
    assert last[0] == all[|all| - n];
    if n >= 2 { assert last[1] == all[|all| - n + 1]; }
  }

  lemma RecordedIs(s: Settings, entries: seq<Entry>, e: Entry)
    requires s.ttlMs > 0
    ensures Leading(entries, e.timestamp - s.ttlMs) <= |entries|
    ensures Recorded(s, entries, e) == Appended(s, entries[Leading(entries, e.timestamp - s.ttlMs)..], e)
  {
    LeadingGo(entries, e.timestamp - s.ttlMs);
  }

  lemma TwinRecordedIs(s: Settings, entries: seq<Entry>, e: Entry)
    requires s.ttlMs > 0
    ensures Leading(entries, e.timestamp - s.ttlMs) <= |entries|
    ensures Recorded(Twin(s), entries, e) == entries[Leading(entries, e.timestamp - s.ttlMs)..] + [e]
  {
    LeadingGo(entries, e.timestamp - s.ttlMs);
  }

  lemma LastOfEvicted(s: Settings, all: seq<Entry>, now: int, n: nat)
    requires s.ttlMs <= 0 || |all| - n <= Leading(all, now - s.ttlMs)
    ensures Evicted(s, Last(n, all), now) == Last(n, Evicted(s, all, now))
  {
    if |all| <= n {
      DropExpiredIsSuffix(all, now - s.ttlMs);
    } else if s.ttlMs > 0 {
      LastOfReached(n, all, now - s.ttlMs);
    }
  }

  lemma RecordedFrom(s: Settings, entries: seq<Entry>, e: Entry, kept: seq<Entry>)
    requires Evicted(s, entries, e.timestamp) == kept
    ensures Recorded(s, entries, e) == Appended(s, kept, e)
  {}

  lemma TwinRecordedFrom(s: Settings, entries: seq<Entry>, e: Entry, kept: seq<Entry>)
    requires Evicted(s, entries, e.timestamp) == kept
    ensures Recorded(Twin(s), entries, e) == kept + [e]
  {}

  /** Where eviction meets the bounded log's head, or nothing was overwritten. */
  lemma LastOfRecorded(s: Settings, all: seq<Entry>, e: Entry)
    requires !Unbounded(s)
    requires s.ttlMs <= 0 || |all| - s.maxLogEntries.value <= Leading(all, e.timestamp - s.ttlMs)
    ensures Recorded(s, Last(s.maxLogEntries.value, all), e) == Last(s.maxLogEntries.value, Recorded(Twin(s), all, e))
  {
    var n, kept := s.maxLogEntries.value, Evicted(s, all, e.timestamp);
    LastOfEvicted(s, all, e.timestamp, n);
    RecordedFrom(s, Last(n, all), e, Last(n, kept));
    LastOfAppended(s, kept, e);
    TwinRecordedFrom(s, all, e, kept);
  }

  /** Where a live overwritten entry stops it. */
  lemma LastOfStopped(s: Settings, all: seq<Entry>, e: Entry)
    requires !Unbounded(s) && s.ttlMs > 0 && |all| - s.maxLogEntries.value > Leading(all, e.timestamp - s.ttlMs)
    ensures Recorded(s, Last(s.maxLogEntries.value, all), e) == Last(s.maxLogEntries.value, Recorded(Twin(s), all, e))
            <==> Leading(Last(s.maxLogEntries.value, all), e.timestamp - s.ttlMs) <= 1
  {
    var n, cutoff := s.maxLogEntries.value, e.timestamp - s.ttlMs;
    RecordedIs(s, Last(n, all), e);
    TwinRecordedIs(s, all, e);
    LastOfUnreached(s, all, e, Leading(all, cutoff), Leading(Last(n, all), cutoff));
  }

  /** One track keeps the bounded log the tail of the unbounded one exactly when
      nothing is shielded. */
  lemma LastOfRecordedIff(s: Settings, all: seq<Entry>, e: Entry)
    requires !Unbounded(s) && s.enabled
    ensures Recorded(s, Last(s.maxLogEntries.value, all), e) == Last(s.maxLogEntries.value, Recorded(Twin(s), all, e))
            <==> !Shielded(s, all, e)
  {
    var n, cutoff := s.maxLogEntries.value, e.timestamp - s.ttlMs;
    if s.ttlMs > 0 && |all| > n {
      ShieldedIff(s, all, e);
      if |all| - n > Leading(all, cutoff) { LastOfStopped(s, all, e); } else { LastOfRecorded(s, all, e); }
    } else {
      LastOfRecorded(s, all, e);
    }
  }

  /** The bounded log is the last `maxLogEntries` entries of the unbounded one. */
  ghost predicate Tracks(s: Settings, calls: seq<Call>, n: nat)
    requires !Unbounded(s) && n <= |calls|
  {
    Run(s, calls, n).entries == Last(s.maxLogEntries.value, Run(Twin(s), calls, n).entries)
  }

  ghost predicate ShieldedAt(s: Settings, calls: seq<Call>, i: nat)
    requires !Unbounded(s) && i < |calls|
  {
    calls[i].Track? && Shielded(s, Run(Twin(s), calls, i).entries, calls[i].entry)
  }

  lemma TracksNextIff(s: Settings, calls: seq<Call>, i: nat)
    requires !Unbounded(s) && i < |calls| && Tracks(s, calls, i)
    ensures Tracks(s, calls, i + 1) <==> !ShieldedAt(s, calls, i)
  {
    StepOfRun(s, calls, i);
    StepOfRun(Twin(s), calls, i);
    if calls[i].Track? && s.enabled {
      LastOfRecordedIff(s, Run(Twin(s), calls, i).entries, calls[i].entry);
    }
  }

  lemma {:induction false} UnshieldedTracks(s: Settings, calls: seq<Call>, n: nat)
    requires !Unbounded(s) && n <= |calls| && forall i | 0 <= i < |calls| :: !ShieldedAt(s, calls, i)
    ensures Tracks(s, calls, n)
  {
    if n > 0 {
      UnshieldedTracks(s, calls, n - 1);
      TracksNextIff(s, calls, n - 1);
    }
  }

  /** Throughout a run, with any clock, the bounded log is the tail of the log the
      same calls leave without a bound, if and only if no track is shielded. */
  lemma BoundedTracksTwinIff(s: Settings, calls: seq<Call>)
    requires !Unbounded(s)
    ensures (forall n: nat | n <= |calls| :: Tracks(s, calls, n)) <==> forall i | 0 <= i < |calls| :: !ShieldedAt(s, calls, i)
  {
    if forall n: nat | n <= |calls| :: Tracks(s, calls, n) {
      forall i | 0 <= i < |calls| ensures !ShieldedAt(s, calls, i) { TracksNextIff(s, calls, i); }
    } else if forall i | 0 <= i < |calls| :: !ShieldedAt(s, calls, i) {
      forall n: nat | n <= |calls| ensures Tracks(s, calls, n) { UnshieldedTracks(s, calls, n); }
    }
  }

  /** In particular whenever the clock does not run back, and under any clock
      when entries do not expire. */
  lemma BoundedIsLastOfTwin(s: Settings, calls: seq<Call>, n: nat)
    requires !Unbounded(s) && n <= |calls| && (Forward(calls) || s.ttlMs <= 0)
    ensures Run(s, calls, n).entries == Last(s.maxLogEntries.value, Run(Twin(s), calls, n).entries)
  {
    forall i | 0 <= i < |calls| ensures !ShieldedAt(s, calls, i) {
      if s.ttlMs > 0 && calls[i].Track? { EntriesBefore(Twin(s), calls, i); }
    }
    BoundedTracksTwinIff(s, calls);
    assert Tracks(s, calls, n);
  }

  /** With a clock set back it can hold less: an old leading entry that is
      still live shields the expired ones behind it in the unbounded log only. */
  lemma ClockSetBackBreaksTwin(sql: string)
    ensures var s := Settings(true, 100, 10, None, Some(2), 10);
            var calls := [Track(Entry("User", sql, 0, 100)), Track(Entry("User", sql, 0, 50)),
                          Track(Entry("User", sql, 0, 55)), Track(Entry("User", sql, 0, 70))];
            |Run(s, calls, 4).entries| == 1 && |Last(2, Run(Twin(s), calls, 4).entries)| == 2
  {
    var s := Settings(true, 100, 10, None, Some(2), 10);
    var a, b, c, d := Entry("User", sql, 0, 100), Entry("User", sql, 0, 50), Entry("User", sql, 0, 55), Entry("User", sql, 0, 70);
    var calls := [Track(a), Track(b), Track(c), Track(d)];
    ThreeLive(s, calls, a, b, c);
    ThreeLive(Twin(s), calls, a, b, c);
    EntriesOfRun(s, calls, 3);
    EntriesOfRun(Twin(s), calls, 3);
    LiveHeadShields(Twin(s), [a, b, c], d);
    DropExpiredIs([b, c], 60, 2);
    assert Recorded(s, [b, c], d) == [d];
  }

  /** Three tracks on an empty log, the first entry live throughout. */
  lemma ThreeLive(s: Settings, calls: seq<Call>, a: Entry, b: Entry, c: Entry)
    requires s.enabled && a.timestamp >= b.timestamp - s.ttlMs && a.timestamp >= c.timestamp - s.ttlMs
    requires Unbounded(s) || s.maxLogEntries.value >= 2
    requires |calls| >= 3 && calls[0] == Track(a) && calls[1] == Track(b) && calls[2] == Track(c)
    ensures Run(s, calls, 3).entries == Appended(s, [a, b], c)
  {
    EntriesOfRun(s, calls, 0);
    assert Recorded(s, [], a) == [] + [a];
    EntriesOfRun(s, calls, 1);
    LiveHeadShields(s, [a], b);
    assert [a] + [b] == [a, b];
    EntriesOfRun(s, calls, 2);
    LiveHeadShields(s, [a, b], c);
  }

  lemma LiveHeadShields(s: Settings, entries: seq<Entry>, e: Entry)
    requires entries != [] && entries[0].timestamp >= e.timestamp - s.ttlMs
    ensures Recorded(s, entries, e) == Appended(s, entries, e)
  {}

  // ---------------------------------------------------------------- warnings

  /** The entries of an entity in the window, oldest first. */
  function InWindow(entries: seq<Entry>, entity: Entity, windowStart: int): seq<Entry> {
    if entries == [] then []
    else
      var first := entries[0];
      (if first.entity == entity && first.timestamp >= windowStart then [first] else [])
      + InWindow(entries[1..], entity, windowStart)
  }

  lemma {:induction false} InWindowAppend(a: seq<Entry>, e: Entry, entity: Entity, windowStart: int)
    ensures InWindow(a + [e], entity, windowStart)
            == InWindow(a, entity, windowStart) + (if e.entity == entity && e.timestamp >= windowStart then [e] else [])
  {
    if a == [] {
      assert [] + [e] == [e];
    } else {
      assert (a + [e])[1..] == a[1..] + [e];
      InWindowAppend(a[1..], e, entity, windowStart);
    }
  }

  lemma {:induction false} OldHasNoWindow(entries: seq<Entry>, entity: Entity, windowStart: int)
    requires forall e :: e in entries ==> e.timestamp < windowStart
    ensures InWindow(entries, entity, windowStart) == []
  {
    if entries != [] {
      assert entries[0] in entries && forall e :: e in entries[1..] ==> e in entries;
      OldHasNoWindow(entries[1..], entity, windowStart);
    }
  }

  lemma {:induction false} ReversedCons(e: Entry, rest: seq<Entry>)
    ensures Reversed([e] + rest) == Reversed(rest) + [e]
  {
    assert ([e] + rest)[1..] == rest;
  }

  /** The early exit misses nothing: the reversed scan is exactly the retained
      entries of the entity in the window, oldest first. */
  lemma {:induction false} ScanIsWindow(entries: seq<Entry>, entity: Entity, windowStart: int)
    requires Chronological(entries)
    ensures Reversed(Scan(entries, entity, windowStart)) == InWindow(entries, entity, windowStart)
    ensures |Scan(entries, entity, windowStart)| == |InWindow(entries, entity, windowStart)|
  {
    if entries == [] {
    } else if entries[|entries| - 1].timestamp < windowStart {
      forall e | e in entries ensures e.timestamp < windowStart {
        var i :| 0 <= i < |entries| && entries[i] == e;
      }
      OldHasNoWindow(entries, entity, windowStart);
    } else {
      var rest, last := entries[..|entries| - 1], entries[|entries| - 1];
      assert entries == rest + [last];
      ScanIsWindow(rest, entity, windowStart);
      InWindowAppend(rest, last, entity, windowStart);
      ReversedCons(last, Scan(rest, entity, windowStart));
      assert [] + Scan(rest, entity, windowStart) == Scan(rest, entity, windowStart);
    }
  }

  /** The call is a track whose window, in the log it leaves, holds `threshold`
      entries of its entity, itself included. */
  ghost predicate CallReaches(s: Settings, call: Call, entries: seq<Entry>, entity: Entity) {
    && s.enabled && call.Track? && call.entry.entity == entity
    && |InWindow(entries, entity, call.entry.timestamp - s.windowMs)| >= s.threshold
  }

  /** The `i`th call does. */
  ghost predicate Reaches(s: Settings, calls: seq<Call>, i: nat, entity: Entity)
    requires i < |calls|
  {
    CallReaches(s, calls[i], Run(s, calls, i + 1).entries, entity)
  }

  /** An entity has been warned since the last reset. */
  ghost predicate ReachedSinceReset(s: Settings, calls: seq<Call>, n: nat, entity: Entity)
    requires n <= |calls|
  {
    exists i :: 0 <= i < n && Reaches(s, calls, i, entity) && forall k :: i < k < n ==> calls[k].Track?
  }

  /** An entity not warned yet is, once its window holds `threshold` entries. */
  function Judged(s: Settings, warned: set<Entity>, entity: Entity, window: seq<Entry>): Option<Warning> {
    if entity in warned || |window| < s.threshold then None else Some(Warning(entity, window))
  }

  lemma ScanIsJudged(s: Settings, recorded: seq<Entry>, warned: set<Entity>, entity: Entity, windowStart: int)
    requires Chronological(recorded)
    ensures var samples := Scan(recorded, entity, windowStart);
            (if entity in warned || |samples| < s.threshold then None else Some(Warning(entity, Reversed(samples))))
            == Judged(s, warned, entity, InWindow(recorded, entity, windowStart))
  {
    ScanIsWindow(recorded, entity, windowStart);
  }

  lemma RecordedIsJudged(s: Settings, log: Log, e: Entry)
    requires UpTo(log.entries, e.timestamp)
    ensures var recorded := Recorded(s, log.entries, e);
            var samples := Scan(recorded, e.entity, e.timestamp - s.windowMs);
            (if e.entity in log.warned || |samples| < s.threshold then None else Some(Warning(e.entity, Reversed(samples))))
            == Judged(s, log.warned, e.entity, InWindow(recorded, e.entity, e.timestamp - s.windowMs))
  {
    RecordedIsChronological(s, log.entries, e);
    ScanIsJudged(s, Recorded(s, log.entries, e), log.warned, e.entity, e.timestamp - s.windowMs);
  }

  lemma DetectedFrom(s: Settings, log: Log, e: Entry, judged: Option<Warning>)
    requires var samples := Scan(Recorded(s, log.entries, e), e.entity, e.timestamp - s.windowMs);
             judged == if e.entity in log.warned || |samples| < s.threshold then None
                       else Some(Warning(e.entity, Reversed(samples)))
    ensures Detected(s, log, e) == judged
  {}

  /** What detection sees on a chronological log. */
  lemma DetectedIsWindow(s: Settings, log: Log, e: Entry)
    requires UpTo(log.entries, e.timestamp)
    ensures Detected(s, log, e)
            == Judged(s, log.warned, e.entity, InWindow(Recorded(s, log.entries, e), e.entity, e.timestamp - s.windowMs))
  {
    RecordedIsJudged(s, log, e);
    DetectedFrom(s, log, e,
                 Judged(s, log.warned, e.entity, InWindow(Recorded(s, log.entries, e), e.entity, e.timestamp - s.windowMs)));
  }

  lemma JudgedWarns(s: Settings, warned: set<Entity>, of: Entity, window: seq<Entry>, entity: Entity)
    ensures entity in (if Judged(s, warned, of, window).Some? then warned + {of} else warned)
            <==> entity in warned || (entity == of && |window| >= s.threshold)
  {}

  /** Who is warned after one more call. */
  lemma StepWarns(s: Settings, log: Log, next: Log, call: Call, entity: Entity)
    requires next == Step(s, log, call)
    requires call.Track? ==> UpTo(log.entries, call.entry.timestamp)
    ensures entity in next.warned
            <==> call.Track? && (entity in log.warned || CallReaches(s, call, next.entries, entity))
  {
    if call.Track? && s.enabled {
      var e := call.entry;
      DetectedIsWindow(s, log, e);
      JudgedWarns(s, log.warned, e.entity, InWindow(next.entries, e.entity, e.timestamp - s.windowMs), entity);
    }
  }

  lemma WarnedStep(s: Settings, calls: seq<Call>, i: nat, entity: Entity)
    requires i < |calls| && Forward(calls)
    ensures entity in Run(s, calls, i + 1).warned
            <==> calls[i].Track? && (entity in Run(s, calls, i).warned || Reaches(s, calls, i, entity))
  {
    if calls[i].Track? { EntriesBefore(s, calls, i); }
    StepOfRun(s, calls, i);
    StepWarns(s, Run(s, calls, i), Run(s, calls, i + 1), calls[i], entity);
  }

  lemma ReachedStep(s: Settings, calls: seq<Call>, i: nat, entity: Entity)
    requires i < |calls|
    ensures ReachedSinceReset(s, calls, i + 1, entity)
            <==> calls[i].Track? && (ReachedSinceReset(s, calls, i, entity) || Reaches(s, calls, i, entity))
  {
    if ReachedSinceReset(s, calls, i, entity) && calls[i].Track? {
      var j :| 0 <= j < i && Reaches(s, calls, j, entity) && forall k :: j < k < i ==> calls[k].Track?;
      assert forall k :: j < k < i + 1 ==> calls[k].Track?;
    }
  }

  lemma NoneYet(s: Settings, calls: seq<Call>, entity: Entity)
    ensures entity !in Run(s, calls, 0).warned && !ReachedSinceReset(s, calls, 0, entity)
  {}

  lemma WarnedNext(s: Settings, calls: seq<Call>, i: nat, entity: Entity)
    requires i < |calls| && Forward(calls)
    requires entity in Run(s, calls, i).warned <==> ReachedSinceReset(s, calls, i, entity)
    ensures entity in Run(s, calls, i + 1).warned <==> ReachedSinceReset(s, calls, i + 1, entity)
  {
    WarnedStep(s, calls, i, entity);
    ReachedStep(s, calls, i, entity);
  }

  /** The warned set is exactly the entities that reached the threshold since
      the last reset. */
  lemma {:induction false} WarnedIsReached(s: Settings, calls: seq<Call>, n: nat, entity: Entity)
    requires n <= |calls| && Forward(calls)
    ensures entity in Run(s, calls, n).warned <==> ReachedSinceReset(s, calls, n, entity)
  {
    NoneYet(s, calls, entity);
    for i := 0 to n
      invariant entity in Run(s, calls, i).warned <==> ReachedSinceReset(s, calls, i, entity)
    {
      WarnedNext(s, calls, i, entity);
    }
  }

  /** A warning is emitted at the `i`th call, with the whole window, exactly
      when it is the first since the last reset to reach the threshold. */
  lemma WarnsOnceAtTheFirst(s: Settings, calls: seq<Call>, i: nat)
    requires i < |calls| && Forward(calls) && s.enabled && calls[i].Track?
    ensures var e := calls[i].entry;
            Detected(s, Run(s, calls, i), e)
            == if !Reaches(s, calls, i, e.entity) || ReachedSinceReset(s, calls, i, e.entity) then None
               else Some(Warning(e.entity, InWindow(Run(s, calls, i + 1).entries, e.entity, e.timestamp - s.windowMs)))
  {
    var log, next := Run(s, calls, i), Run(s, calls, i + 1);
    EntriesBefore(s, calls, i);
    StepOfRun(s, calls, i);
    WarnedIsReached(s, calls, i, calls[i].entry.entity);
    StepEmits(s, log, next, calls[i], ReachedSinceReset(s, calls, i, calls[i].entry.entity));
  }

  /** What one track reports, given whether its entity was warned before. */
  lemma StepEmits(s: Settings, log: Log, next: Log, call: Call, since: bool)
    requires s.enabled && call.Track? && next == Step(s, log, call) && UpTo(log.entries, call.entry.timestamp)
    requires call.entry.entity in log.warned <==> since
    ensures var e := call.entry;
            Detected(s, log, e)
            == if !CallReaches(s, call, next.entries, e.entity) || since then None
               else Some(Warning(e.entity, InWindow(next.entries, e.entity, e.timestamp - s.windowMs)))
  {
    DetectedIsWindow(s, log, call.entry);
  }

  lemma {:induction false} ScanIsShort(entries: seq<Entry>, entity: Entity, windowStart: int)
    ensures |Scan(entries, entity, windowStart)| <= |entries|
  {
    if entries != [] { ScanIsShort(entries[..|entries| - 1], entity, windowStart); }
  }

  lemma RecordedIsShort(s: Settings, entries: seq<Entry>, e: Entry)
    requires !Unbounded(s) && |entries| <= s.maxLogEntries.value
    ensures |Recorded(s, entries, e)| <= s.maxLogEntries.value
  {
    DropExpiredIsSuffix(entries, e.timestamp - s.ttlMs);
  }

  lemma SmallTrackNeverWarns(s: Settings, log: Log, e: Entry)
    requires !Unbounded(s) && s.maxLogEntries.value < s.threshold && |log.entries| <= s.maxLogEntries.value
    ensures Detected(s, log, e).None? && |Recorded(s, log.entries, e)| <= s.maxLogEntries.value
  {
    RecordedIsShort(s, log.entries, e);
    ScanIsShort(Recorded(s, log.entries, e), e.entity, e.timestamp - s.windowMs);
  }

  /** A log smaller than the threshold never warns. */
  lemma {:induction false} SmallLogNeverWarns(s: Settings, calls: seq<Call>, n: nat)
    requires n <= |calls| && !Unbounded(s) && s.maxLogEntries.value < s.threshold
    ensures Run(s, calls, n).warned == {} && |Run(s, calls, n).entries| <= s.maxLogEntries.value
  {
    if n > 0 {
      var log := Run(s, calls, n - 1);
      SmallLogNeverWarns(s, calls, n - 1);
      StepOfRun(s, calls, n - 1);
      if calls[n - 1].Track? { SmallTrackNeverWarns(s, log, calls[n - 1].entry); }
    }
  }
}
