/** The tracker as it runs: a circular buffer, or a plain list when no bound is
    set, kept equal to the list of QueryTracking. */
module QueryTracker {
  import opened Metadata
  import opened QueryTracking

  /** The buffer position of the `i`th entry after `head`. */
  function Slot(head: nat, i: nat, n: nat): nat
    requires n > 0
  {
    (head + i) % n
  }

  lemma SlotIs(head: nat, i: nat, n: nat)
    requires n > 0 && head < n && i <= n
    ensures Slot(head, i, n) == if head + i < n then head + i else head + i - n
  {}

  lemma NextSlot(head: nat, next: nat, i: nat, n: nat)
    requires n > 0 && head < n && next == Slot(head, 1, n) && i + 1 <= n
    ensures Slot(next, i, n) == Slot(head, i + 1, n)
  {
    SlotIs(head, 1, n);
    SlotIs(next, i, n);
    SlotIs(head, i + 1, n);
  }

  lemma ScanNext(entries: seq<Entry>, i: nat, entity: Entity, windowStart: int, samples: seq<Entry>)
    requires 0 < i <= |entries|
    ensures samples + Scan(entries[..i], entity, windowStart)
            == if entries[i - 1].timestamp < windowStart then samples
               else (if entries[i - 1].entity == entity then samples + [entries[i - 1]] else samples)
                    + Scan(entries[..i - 1], entity, windowStart)
  {
    var rest := Scan(entries[..i - 1], entity, windowStart);
    assert entries[..i][..i - 1] == entries[..i - 1];
    assert samples + ([entries[i - 1]] + rest) == samples + [entries[i - 1]] + rest;
  }

  /** One step of the scan leaves the rest to do. */
  lemma ScanStep(entries: seq<Entry>, i: nat, entity: Entity, windowStart: int, samples: seq<Entry>, all: seq<Entry>)
    requires 0 < i <= |entries| && samples + Scan(entries[..i], entity, windowStart) == all
    ensures entries[i - 1].timestamp < windowStart ==> samples == all
    ensures entries[i - 1].timestamp >= windowStart ==>
              (if entries[i - 1].entity == entity then samples + [entries[i - 1]] else samples)
              + Scan(entries[..i - 1], entity, windowStart) == all
  {
    ScanNext(entries, i, entity, windowStart, samples);
  }

  /** What is found up to `i`, and what is still to be found below it. */
  ghost predicate Scanned(entries: seq<Entry>, i: nat, entity: Entity, windowStart: int, samples: seq<Entry>) {
    i <= |entries| && samples + Scan(entries[..i], entity, windowStart) == Scan(entries, entity, windowStart)
  }

  lemma ScanStarts(entries: seq<Entry>, entity: Entity, windowStart: int)
    ensures Scanned(entries, |entries|, entity, windowStart, [])
  {
    assert entries[..|entries|] == entries;
    assert [] + Scan(entries, entity, windowStart) == Scan(entries, entity, windowStart);
  }

  lemma ScanGoesOn(entries: seq<Entry>, i: nat, entity: Entity, windowStart: int, samples: seq<Entry>)
    requires 0 < i <= |entries| && Scanned(entries, i, entity, windowStart, samples)
    ensures entries[i - 1].timestamp < windowStart ==> samples == Scan(entries, entity, windowStart)
    ensures entries[i - 1].timestamp >= windowStart ==>
              Scanned(entries, i - 1, entity, windowStart,
                      if entries[i - 1].entity == entity then samples + [entries[i - 1]] else samples)
  {
    ScanStep(entries, i, entity, windowStart, samples, Scan(entries, entity, windowStart));
  }

  lemma ScanEnds(entries: seq<Entry>, entity: Entity, windowStart: int, samples: seq<Entry>)
    requires Scanned(entries, 0, entity, windowStart, samples)
    ensures samples == Scan(entries, entity, windowStart)
  {
    assert samples + Scan([], entity, windowStart) == samples;
  }

  /** What one track leaves and reports, from the log it recorded. */
  lemma TrackIs(s: Settings, log: Log, e: Entry, recorded: seq<Entry>, warned: set<Entity>, warning: Option<Warning>)
    requires s.enabled && recorded == Appended(s, Evicted(s, log.entries, e.timestamp), e)
    requires var samples := Scan(recorded, e.entity, e.timestamp - s.windowMs);
             warning == if e.entity in log.warned || |samples| < s.threshold then None
                        else Some(Warning(e.entity, Reversed(samples)))
    requires warned == if warning.Some? then log.warned + {e.entity} else log.warned
    ensures Log(recorded, warned) == Tracked(s, log, e) && warning == Detected(s, log, e)
  {}

  class Tracker {
    const settings: Settings
    var buffer: array<Option<Entry>>
    var head: nat
    var size: nat
    var unboundedLog: seq<Entry>
    var warned: set<Entity>

    ghost predicate Valid()
      reads this, buffer
    {
      Unbounded(settings) ||
      (&& buffer.Length == settings.maxLogEntries.value
       && head < buffer.Length && size <= buffer.Length
       && forall i :: 0 <= i < size ==> buffer[Slot(head, i, buffer.Length)].Some?)
    }

    /** The log, oldest entry first. */
    ghost function Entries(): (entries: seq<Entry>)
      requires Valid()
      reads this, buffer
    {
      if Unbounded(settings) then unboundedLog
      else seq(size, i requires 0 <= i < size reads this, buffer requires Valid() && !Unbounded(settings) =>
                 buffer[Slot(head, i, buffer.Length)].value)
    }

    ghost function Contents(): Log
      requires Valid()
      reads this, buffer
    {
      Log(Entries(), warned)
    }

    constructor (settings: Settings)
      ensures Valid() && fresh(buffer) && this.settings == settings && Contents() == EMPTY
    {
      this.settings := settings;
      var n := if Unbounded(settings) then 0 else settings.maxLogEntries.value;
      buffer := new Option<Entry>[n](_ => None);
      head, size, unboundedLog, warned := 0, 0, [], {};
    }

    /** The `i`th oldest entry. */
    method EntryAt(i: nat) returns (entry: Entry)
      requires Valid() && i < |Entries()|
      ensures entry == Entries()[i]
    {
      if Unbounded(settings) { return unboundedLog[i]; }
      return buffer[Slot(head, i, buffer.Length)].value;
    }

    /** Advances past the leading entries older than the time to live. */
    method EvictExpired(now: int)
      requires Valid()
      modifies this`head, this`size, this`unboundedLog
      ensures Valid() && Entries() == DropExpired(old(Entries()), now - settings.ttlMs)
    {
      var cutoff := now - settings.ttlMs;
      if Unbounded(settings) {
        var removeCount := 0;
        while removeCount < |unboundedLog| && unboundedLog[removeCount].timestamp < cutoff
          invariant removeCount <= |unboundedLog|
          invariant forall i :: 0 <= i < removeCount ==> unboundedLog[i].timestamp < cutoff
        {
          removeCount := removeCount + 1;
        }
        DropExpiredIs(unboundedLog, cutoff, removeCount);
        unboundedLog := unboundedLog[removeCount..];
      } else {
        while size > 0
          invariant Valid() && DropExpired(Entries(), cutoff) == DropExpired(old(Entries()), cutoff)
        {
          var entry := EntryAt(0);
          if entry.timestamp >= cutoff { break; }
          Advance();
        }
      }
    }

    /** The head moves to the next oldest entry. */
    method Advance()
      requires Valid() && !Unbounded(settings) && size > 0
      modifies this`head, this`size
      ensures Valid() && Entries() == old(Entries())[1..] && size == old(size) - 1
    {
      var n := buffer.Length;
      var next := (head + 1) % n;
      SlotIs(head, 1, n);
      forall i | 0 <= i < size - 1 ensures Slot(next, i, n) == Slot(head, i + 1, n) { NextSlot(head, next, i, n); }
      head := next;
      size := size - 1;
    }

    /** Appends in place, over the oldest entry once the buffer is full. */
    method Append(entry: Entry)
      requires Valid()
      modifies this`head, this`size, this`unboundedLog, buffer
      ensures Valid() && Entries() == Appended(settings, old(Entries()), entry)
    {
      if Unbounded(settings) {
        unboundedLog := unboundedLog + [entry];
      } else if size < buffer.Length {
        WriteNext(entry);
      } else {
        WriteOver(entry);
      }
    }

    /** One more slot in use. */
    method WriteNext(entry: Entry)
      requires Valid() && !Unbounded(settings) && size < buffer.Length
      modifies this`size, buffer
      ensures Valid() && Entries() == old(Entries()) + [entry]
    {
      var n := buffer.Length;
      var writeIdx := Slot(head, size, n);
      SlotIs(head, size, n);
      forall i | 0 <= i < size ensures Slot(head, i, n) != writeIdx { SlotIs(head, i, n); }
      buffer[writeIdx] := Some(entry);
      size := size + 1;
    }

    /** The oldest entry's slot takes the new one. */
    method WriteOver(entry: Entry)
      requires Valid() && !Unbounded(settings) && size == buffer.Length
      modifies this`head, buffer
      ensures Valid() && Entries() == old(Entries())[1..] + [entry]
    {
      var n := buffer.Length;
      var writeIdx := Slot(head, size, n);
      SlotIs(head, size, n);
      var next := (head + 1) % n;
      SlotIs(head, 1, n);
      forall i | 0 <= i < n - 1 ensures Slot(next, i, n) == Slot(head, i + 1, n) && Slot(next, i, n) != writeIdx {
        NextSlot(head, next, i, n);
        SlotIs(head, i + 1, n);
      }
      SlotIs(next, n - 1, n);
      buffer[writeIdx] := Some(entry);
      head := next;
    }

    /** The full log, oldest entry first. */
    method GetLog() returns (log: seq<Entry>)
      requires Valid()
      ensures log == Entries()
    {
      if Unbounded(settings) { return unboundedLog; }
      log := [];
      for i := 0 to size
        invariant log == Entries()[..i]
      {
        var entry := EntryAt(i);
        log := log + [entry];
      }
    }

    /** Scans back from the newest entry until one is older than the window. */
    method ScanBack(entity: Entity, windowStart: int) returns (samples: seq<Entry>)
      requires Valid()
      ensures samples == Scan(Entries(), entity, windowStart)
    {
      samples := [];
      var i := if Unbounded(settings) then |unboundedLog| else size;
      ghost var entries := Entries();
      ScanStarts(entries, entity, windowStart);
      while i > 0
        invariant 0 <= i <= |entries| && Scanned(entries, i, entity, windowStart, samples)
      {
        var entry := EntryAt(i - 1);
        ScanGoesOn(entries, i, entity, windowStart, samples);
        if entry.timestamp < windowStart { return; }
        if entry.entity == entity { samples := samples + [entry]; }
        i := i - 1;
      }
      ScanEnds(entries, entity, windowStart, samples);
    }

    /** Warns about an entity once its window reaches the threshold. */
    method DetectNPlusOne(entity: Entity, now: int) returns (warning: Option<Warning>)
      requires Valid()
      modifies this`warned
      ensures Valid() && Entries() == old(Entries())
      ensures var samples := Scan(Entries(), entity, now - settings.windowMs);
              warning == if entity in old(warned) || |samples| < settings.threshold then None
                         else Some(Warning(entity, Reversed(samples)))
      ensures warned == if warning.Some? then old(warned) + {entity} else old(warned)
    {
      if entity in warned { return None; }
      var samples := ScanBack(entity, now - settings.windowMs);
      if |samples| < settings.threshold { return None; }
      warned := warned + {entity};
      var chronological := Reverse(samples);
      return Some(Warning(entity, chronological));
    }

    static method Reverse(samples: seq<Entry>) returns (reversed: seq<Entry>)
      ensures reversed == Reversed(samples)
    {
      reversed := [];
      for i := 0 to |samples|
        invariant Reversed(samples[i..]) + reversed == Reversed(samples)
      {
        assert samples[i..][1..] == samples[i + 1..];
        reversed := [samples[i]] + reversed;
      }
    }

    /** Records a query and reports whether it is slow and whether it makes its
        entity's queries look like one per parent. */
    method Track(entity: Entity, sql: string, duration: int, now: int)
      returns (slow: Option<Entry>, warning: Option<Warning>)
      requires Valid()
      modifies this, buffer
      ensures Valid() && buffer == old(buffer)
      ensures var e := Entry(entity, sql, duration, now);
              && Contents() == Tracked(settings, old(Contents()), e)
              && warning == (if settings.enabled then Detected(settings, old(Contents()), e) else None)
              && (slow == Some(e) || slow == None)
              && (slow.Some? <==> settings.enabled && settings.slowQueryMs.Some? && duration > settings.slowQueryMs.value)
    {
      slow, warning := None, None;
      if !settings.enabled { return; }
      ghost var log := Contents();
      if settings.ttlMs > 0 { EvictExpired(now); }
      var entry := Entry(entity, sql, duration, now);
      Append(entry);
      ghost var recorded := Entries();
      if settings.slowQueryMs.Some? && duration > settings.slowQueryMs.value { slow := Some(entry); }
      warning := DetectNPlusOne(entity, now);
      TrackIs(settings, log, entry, recorded, warned, warning);
    }

    method Reset()
      requires Valid()
      modifies this
      ensures Valid() && Contents() == EMPTY && buffer == old(buffer)
    {
      if Unbounded(settings) {
        unboundedLog := [];
      } else {
        head, size := 0, 0;
      }
      warned := {};
    }
  }
}
