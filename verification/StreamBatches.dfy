/** Streaming a read in batches: the loop over offset and remaining rows covers
    the window a single read with the same options returns. */
module StreamBatches {
  import opened Metadata

  /** `limit` of a read: a count, or an offset and a count. */
  datatype Limit = Rows(count: nat) | Range(offset: nat, count: nat)

  datatype Options = Options(limit: Option<Limit>, take: Option<nat>, skip: Option<nat>)

  /** The row count the read passes when it has an offset but no end. */
  const OPEN_END: nat := 2147483647

  /** The position a read of `length` rows starts at ... */
  function From(length: nat, offset: nat): nat {
    if offset <= length then offset else length
  }

  /** ... and the one it stops at; None is no bound. */
  function To(length: nat, offset: nat, count: Option<nat>): nat {
    if count.None? || offset + count.value >= length then length else offset + count.value
  }

  /** At most `count` rows from `offset` on. */
  function Slice<T>(rows: seq<T>, offset: nat, count: Option<nat>): seq<T> {
    rows[From(|rows|, offset)..To(|rows|, offset, count)]
  }

  /** The rows `find` returns under these options. */
  function FindWindow<T>(rows: seq<T>, o: Options): seq<T> {
    if o.limit.Some? && o.limit.value.Range? then
      Slice(rows, o.limit.value.offset,
            Some(if o.take.Some? && o.take.value > 0 then o.take.value else o.limit.value.count))
    else if o.skip.Some? || (o.take.Some? && o.limit.None?) then
      var offset := if o.skip.Some? then o.skip.value else 0;
      if o.take.Some? then Slice(rows, offset, o.take)
      else if offset > 0 then Slice(rows, offset, Some(OPEN_END))
      else rows
    else if o.limit.Some? then Slice(rows, 0, Some(o.limit.value.count))
    else rows
  }

  /** An offset without an end, which `find` caps and a stream does not. */
  predicate OpenEnded(o: Options) {
    !(o.limit.Some? && o.limit.value.Range?) && o.skip.Some? && o.skip.value > 0 && o.take.None?
  }

  /** `rows[from..stop]` cut into pieces of `n`, the last one shorter if need be. */
  function Chunks<T>(rows: seq<T>, from: nat, stop: nat, n: nat): seq<seq<T>>
    requires n > 0 && stop <= |rows|
    decreases stop - from
  {
    if from >= stop then []
    else if stop - from <= n then [rows[from..stop]]
    else [rows[from..from + n]] + Chunks(rows, from + n, stop, n)
  }

  function Flatten<T>(batches: seq<seq<T>>): seq<T> {
    if batches == [] then [] else batches[0] + Flatten(batches[1..])
  }

  lemma {:induction false} ChunksFlatten<T>(rows: seq<T>, from: nat, stop: nat, n: nat)
    requires n > 0 && from <= stop <= |rows|
    ensures Flatten(Chunks(rows, from, stop, n)) == rows[from..stop]
    decreases stop - from
  {
    if stop - from > n {
      ChunksFlatten(rows, from + n, stop, n);
      FlattenMore(rows[from..from + n], Chunks(rows, from + n, stop, n));
      SliceGlued(rows, from, from + n, stop);
    } else if from < stop {
      FlattenOne(rows[from..stop]);
    }
  }

  lemma SliceGlued<T>(rows: seq<T>, from: nat, middle: nat, stop: nat)
    requires from <= middle <= stop <= |rows|
    ensures rows[from..middle] + rows[middle..stop] == rows[from..stop]
  {}

  lemma FlattenOne<T>(only: seq<T>)
    ensures Flatten([only]) == only
  {
    assert [only][1..] == [] && only + [] == only;
  }

  /** Every piece but the last has `n` rows, and the last at least one. */
  ghost predicate Sized<T>(batches: seq<seq<T>>, n: nat) {
    && (forall i :: 0 <= i < |batches| ==> 1 <= |batches[i]| <= n)
    && (forall i :: 0 <= i < |batches| - 1 ==> |batches[i]| == n)
  }

  lemma {:induction false} ChunksAreSized<T>(rows: seq<T>, from: nat, stop: nat, n: nat)
    requires n > 0 && from <= stop <= |rows|
    ensures Sized(Chunks(rows, from, stop, n), n)
    decreases stop - from
  {
    if stop - from > n {
      ChunksAreSized(rows, from + n, stop, n);
      SizedMore(rows[from..from + n], Chunks(rows, from + n, stop, n), n);
    }
  }

  lemma SizedMore<T>(first: seq<T>, rest: seq<seq<T>>, n: nat)
    requires n > 0 && |first| == n && Sized(rest, n)
    ensures Sized([first] + rest, n)
  {}

  lemma NextStart(i: nat, n: nat)
    requires i > 0
    ensures i * n == (i - 1) * n + n
  {}

  /** The `i`th piece starts `i * n` rows on. */
  lemma ChunkAt<T>(rows: seq<T>, from: nat, stop: nat, n: nat, i: nat)
    requires n > 0 && from <= stop <= |rows| && i < |Chunks(rows, from, stop, n)|
    ensures var at := from + i * n;
            at < stop && Chunks(rows, from, stop, n)[i] == rows[at..if at + n <= stop then at + n else stop]
    decreases i
  {
    ChunkFrom(rows, from, stop, n, i, from + i * n);
  }

  lemma {:induction false} ChunkFrom<T>(rows: seq<T>, from: nat, stop: nat, n: nat, i: nat, at: nat)
    requires n > 0 && from <= stop <= |rows| && i < |Chunks(rows, from, stop, n)| && at == from + i * n
    ensures at < stop && Chunks(rows, from, stop, n)[i] == rows[at..if at + n <= stop then at + n else stop]
    decreases i
  {
    if i > 0 {
      NextStart(i, n);
      ChunkFrom(rows, from + n, stop, n, i - 1, at);
    }
  }

  lemma FlattenMore<T>(first: seq<T>, rest: seq<seq<T>>)
    ensures Flatten([first] + rest) == first + Flatten(rest)
    ensures rest == [] ==> Flatten([first] + rest) == first
  {
    assert ([first] + rest)[1..] == rest;
  }

  /** The stream covers what `find` returns except past the cap of an open
      end. */
  lemma WindowsAgreeIff<T>(rows: seq<T>, o: Options)
    ensures StreamWindow(rows, o) == FindWindow(rows, o)
            <==> !(OpenEnded(o) && |rows| > o.skip.value + OPEN_END)
  {
    if OpenEnded(o) {
      var offset := o.skip.value;
      if |rows| > offset + OPEN_END {
        assert |Slice(rows, offset, None)| != |Slice(rows, offset, Some(OPEN_END))|;
      }
    }
    assert Slice(rows, 0, None) == rows;
  }

  /** Where the stream starts and how many rows it may yield. */
  function Bounds(o: Options): (nat, Option<nat>) {
    if o.limit.Some? && o.limit.value.Range? then
      (o.limit.value.offset, Some(if o.take.Some? && o.take.value > 0 then o.take.value else o.limit.value.count))
    else if o.skip.Some? || (o.take.Some? && o.limit.None?) then
      (if o.skip.Some? then o.skip.value else 0, o.take)
    else if o.limit.Some? then (0, Some(o.limit.value.count))
    else (0, None)
  }

  function StreamWindow<T>(rows: seq<T>, o: Options): seq<T> {
    Slice(rows, Bounds(o).0, Bounds(o).1)
  }

  /** The options ask for the row at position `p`: a limit with an offset sets both
      ends, a positive `take` in place of its count; else `skip` and `take`; else a
      plain limit. */
  ghost predicate Asked(o: Options, p: nat) {
    if o.limit.Some? && o.limit.value.Range? then
      var offset := o.limit.value.offset;
      offset <= p < offset + (if o.take.Some? && o.take.value > 0 then o.take.value else o.limit.value.count)
    else if o.skip.Some? then o.skip.value <= p && (o.take.Some? ==> p < o.skip.value + o.take.value)
    else if o.limit.Some? then p < o.limit.value.count
    else o.take.Some? ==> p < o.take.value
  }

  /** A stream yields the rows asked for and no other. */
  lemma StreamedAre<T>(rows: seq<T>, o: Options) returns (from: nat, stop: nat)
    ensures from <= stop <= |rows| && StreamWindow(rows, o) == rows[from..stop]
    ensures forall p: nat :: p < |rows| ==> (from <= p < stop <==> Asked(o, p))
  {
    from, stop := From(|rows|, Bounds(o).0), To(|rows|, Bounds(o).0, Bounds(o).1);
  }

  /** The size of the next batch asked for. */
  function BatchSize(n: nat, remaining: Option<nat>): nat {
    if remaining.Some? && remaining.value < n then remaining.value else n
  }

  function Less(remaining: Option<nat>, k: nat): Option<nat> {
    if remaining.Some? && k <= remaining.value then Some(remaining.value - k) else None
  }

  /** The reads the loop makes while `left` rows are left. */
  function Finds(left: nat, remaining: Option<nat>, n: nat): nat
    requires n > 0
    decreases left
  {
    var size := BatchSize(n, remaining);
    if remaining == Some(0) then 0
    else if left < size || left == 0 then 1
    else 1 + Finds(left - size, Less(remaining, size), n)
  }

  /** Whether the last batch read is as large as a batch gets. */
  predicate EndsFull<T>(batches: seq<seq<T>>, n: nat) {
    batches == [] || |batches[|batches| - 1]| == n
  }

  /** One read per batch, and one more exactly when the last batch was full and
      the limit leaves room for another. */
  lemma {:induction false} FindsIsExact<T>(rows: seq<T>, from: nat, stop: nat, remaining: Option<nat>, n: nat)
    requires n > 0 && from <= stop <= |rows| && (remaining.Some? ==> stop - from <= remaining.value)
    ensures var chunks := Chunks(rows, from, stop, n);
            Finds(stop - from, remaining, n)
            == |chunks| + (if EndsFull(chunks, n) && remaining != Some(stop - from) then 1 else 0)
    decreases stop - from
  {
    var chunks := Chunks(rows, from, stop, n);
    if stop - from > n {
      var rest := Chunks(rows, from + n, stop, n);
      FindsIsExact(rows, from + n, stop, Less(remaining, n), n);
      assert Finds(stop - from, remaining, n) == 1 + Finds(stop - (from + n), Less(remaining, n), n);
      LastOfMore(rows[from..from + n], rest, n);
    } else if from < stop {
      assert chunks == [rows[from..stop]];
    }
  }

  lemma LastOfMore<T>(first: seq<T>, rest: seq<seq<T>>, n: nat)
    requires |first| == n
    ensures EndsFull([first] + rest, n) == EndsFull(rest, n) && |[first] + rest| == 1 + |rest|
  {}

  /** The size of the batch read with `left` rows to go. */
  function Taken(left: nat, size: nat): nat {
    if left < size then left else size
  }

  /** The batch read at `offset`. */
  lemma BatchIs<T>(rows: seq<T>, offset: nat, remaining: Option<nat>, n: nat, stop: nat)
    requires stop == To(|rows|, offset, remaining)
    ensures var p, batch := From(|rows|, offset), Slice(rows, offset, Some(BatchSize(n, remaining)));
            && p <= stop <= |rows| && |batch| == Taken(stop - p, BatchSize(n, remaining))
            && batch == rows[p..p + |batch|]
            && (remaining.Some? ==> stop - p <= remaining.value)
  {}

  lemma ChunksStep<T>(rows: seq<T>, p: nat, stop: nat, remaining: Option<nat>, n: nat, batch: seq<T>)
    requires n > 0 && remaining != Some(0) && p <= stop <= |rows| && |batch| == Taken(stop - p, BatchSize(n, remaining))
    requires (remaining.Some? ==> stop - p <= remaining.value) && batch == rows[p..p + |batch|]
    ensures Chunks(rows, p, stop, n) == if batch == [] then [] else [batch] + Chunks(rows, p + |batch|, stop, n)
  {
    if |batch| == stop - p {
      assert Chunks(rows, stop, stop, n) == [];
      if batch != [] { assert Chunks(rows, p, stop, n) == [batch]; }
    }
  }

  lemma FindsStep(left: nat, remaining: Option<nat>, n: nat, k: nat)
    requires n > 0 && remaining != Some(0) && k == Taken(left, BatchSize(n, remaining))
    ensures Finds(left, remaining, n)
            == if k < BatchSize(n, remaining) then 1 else 1 + Finds(left - k, Less(remaining, k), n)
  {}

  /** Where the next batch starts. */
  lemma NextOffset(length: nat, offset: nat, remaining: Option<nat>, k: nat, size: nat)
    requires size > 0 && (remaining.Some? ==> size <= remaining.value)
    requires k == Taken(To(length, offset, remaining) - From(length, offset), size) && k > 0
    ensures From(length, offset) == offset && From(length, offset + k) == offset + k
    ensures To(length, offset + k, Less(remaining, k)) == To(length, offset, remaining)
  {}

  /** What the caller's options make of the window to stream. */
  method ResolveWindow(options: Options) returns (offset: nat, remaining: Option<nat>)
    ensures (offset, remaining) == Bounds(options)
  {
    offset, remaining := 0, None;
    if options.limit.Some? && options.limit.value.Range? {
      offset := options.limit.value.offset;
      remaining := Some(if options.take.Some? && options.take.value > 0 then options.take.value
                        else options.limit.value.count);
    } else if options.skip.Some? || (options.take.Some? && options.limit.None?) {
      if options.skip.Some? { offset := options.skip.value; }
      if options.take.Some? { remaining := options.take; }
    } else if options.limit.Some? {
      remaining := Some(options.limit.value.count);
    }
  }

  /** Yields the window in batches, each read by its own `find` with a limit
      tuple: the window cut into chunks of `max(batchSize, 1)`. */
  method StreamBatch<T>(rows: seq<T>, options: Options, batchSize: int) returns (batches: seq<seq<T>>, finds: nat)
    ensures var n, window := if batchSize > 1 then batchSize else 1, StreamWindow(rows, options);
            && Flatten(batches) == window
            && (forall i :: 0 <= i < |batches| ==> 1 <= |batches[i]| <= n)
            && (forall i :: 0 <= i < |batches| - 1 ==> |batches[i]| == n)
            && finds == |batches| + (if EndsFull(batches, n) && Bounds(options).1 != Some(|window|) then 1 else 0)
  {
    var offset, remaining := ResolveWindow(options);
    var n := if batchSize > 1 then batchSize else 1;
    batches, finds := ReadBatches(rows, offset, remaining, n);
    BatchesAre(rows, offset, remaining, n, batches);
    BatchesCost(rows, offset, remaining, n, batches);
  }

  /** What the chunks of a slice hold ... */
  lemma BatchesAre<T>(rows: seq<T>, offset: nat, remaining: Option<nat>, n: nat, batches: seq<seq<T>>)
    requires n > 0 && batches == Chunks(rows, From(|rows|, offset), To(|rows|, offset, remaining), n)
    ensures Flatten(batches) == Slice(rows, offset, remaining)
    ensures forall i :: 0 <= i < |batches| ==> 1 <= |batches[i]| <= n
    ensures forall i :: 0 <= i < |batches| - 1 ==> |batches[i]| == n
  {
    ChunksFlatten(rows, From(|rows|, offset), To(|rows|, offset, remaining), n);
    ChunksAreSized(rows, From(|rows|, offset), To(|rows|, offset, remaining), n);
  }

  /** ... and cost. */
  lemma BatchesCost<T>(rows: seq<T>, offset: nat, remaining: Option<nat>, n: nat, batches: seq<seq<T>>)
    requires n > 0 && batches == Chunks(rows, From(|rows|, offset), To(|rows|, offset, remaining), n)
    ensures Finds(To(|rows|, offset, remaining) - From(|rows|, offset), remaining, n)
            == |batches| + (if EndsFull(batches, n) && remaining != Some(|Slice(rows, offset, remaining)|) then 1 else 0)
  {
    FindsIsExact(rows, From(|rows|, offset), To(|rows|, offset, remaining), remaining, n);
  }

  /** The chunks after this batch. */
  lemma NextChunks<T>(rows: seq<T>, offset: nat, remaining: Option<nat>, n: nat, stop: nat, batch: seq<T>)
    returns (next: seq<seq<T>>)
    requires n > 0 && remaining != Some(0) && stop == To(|rows|, offset, remaining)
    requires batch == Slice(rows, offset, Some(BatchSize(n, remaining)))
    ensures From(|rows|, offset) + |batch| <= stop <= |rows|
    ensures next == Chunks(rows, From(|rows|, offset) + |batch|, stop, n)
    ensures Chunks(rows, From(|rows|, offset), stop, n) == if batch == [] then [] else [batch] + next
  {
    BatchIs(rows, offset, remaining, n, stop);
    var p := From(|rows|, offset);
    next := Chunks(rows, p + |batch|, stop, n);
    ChunksStep(rows, p, stop, remaining, n, batch);
  }

  /** One turn of the loop: what it costs ... */
  lemma TurnCosts<T>(rows: seq<T>, offset: nat, remaining: Option<nat>, n: nat, stop: nat, batch: seq<T>)
    requires n > 0 && remaining != Some(0) && stop == To(|rows|, offset, remaining)
    requires batch == Slice(rows, offset, Some(BatchSize(n, remaining)))
    ensures From(|rows|, offset) + |batch| <= stop
    ensures Finds(stop - From(|rows|, offset), remaining, n)
            == if |batch| < BatchSize(n, remaining) then 1
               else 1 + Finds(stop - From(|rows|, offset) - |batch|, Less(remaining, |batch|), n)
  {
    BatchIs(rows, offset, remaining, n, stop);
    FindsStep(stop - From(|rows|, offset), remaining, n, |batch|);
  }

  /** ... and where the next turn starts. */
  lemma TurnMoves<T>(rows: seq<T>, offset: nat, remaining: Option<nat>, n: nat, stop: nat, batch: seq<T>)
    requires n > 0 && remaining != Some(0) && stop == To(|rows|, offset, remaining)
    requires batch == Slice(rows, offset, Some(BatchSize(n, remaining)))
    ensures |batch| <= BatchSize(n, remaining)
    ensures |batch| < BatchSize(n, remaining) ==> From(|rows|, offset) + |batch| == stop
    ensures batch != [] ==>
              && From(|rows|, offset) == offset && From(|rows|, offset + |batch|) == offset + |batch|
              && To(|rows|, offset + |batch|, Less(remaining, |batch|)) == stop
  {
    BatchIs(rows, offset, remaining, n, stop);
    if batch != [] { NextOffset(|rows|, offset, remaining, |batch|, BatchSize(n, remaining)); }
  }

  lemma NoChunks<T>(rows: seq<T>, stop: nat, n: nat, done: seq<seq<T>>)
    requires n > 0 && stop <= |rows|
    ensures done + Chunks(rows, stop, stop, n) == done
  {}

  lemma Yielded<T>(done: seq<seq<T>>, batch: seq<T>, chunks: seq<seq<T>>, next: seq<seq<T>>)
    requires chunks == if batch == [] then [] else [batch] + next
    ensures done + chunks == if batch == [] then done else (done + [batch]) + next
  {}

  /** What the loop has yielded and what is left of `all` and `total`. */
  ghost predicate Midway<T>(rows: seq<T>, offset: nat, remaining: Option<nat>, n: nat, stop: nat, batches: seq<seq<T>>,
                            finds: nat, all: seq<seq<T>>, total: nat)
    requires n > 0
  {
    && To(|rows|, offset, remaining) == stop && From(|rows|, offset) <= stop <= |rows|
    && batches + Chunks(rows, From(|rows|, offset), stop, n) == all
    && finds + Finds(stop - From(|rows|, offset), remaining, n) == total
  }

  /** A batch that is not full is the last ... */
  lemma LastTurn<T>(rows: seq<T>, offset: nat, remaining: Option<nat>, n: nat, stop: nat, batches: seq<seq<T>>, finds: nat,
                    all: seq<seq<T>>, total: nat, batch: seq<T>)
    requires n > 0 && remaining != Some(0) && Midway(rows, offset, remaining, n, stop, batches, finds, all, total)
    requires batch == Slice(rows, offset, Some(BatchSize(n, remaining))) && |batch| < BatchSize(n, remaining)
    ensures total == finds + 1 && all == if batch == [] then batches else batches + [batch]
  {
    var next := NextChunks(rows, offset, remaining, n, stop, batch);
    TurnCosts(rows, offset, remaining, n, stop, batch);
    TurnMoves(rows, offset, remaining, n, stop, batch);
    Yielded(batches, batch, Chunks(rows, From(|rows|, offset), stop, n), next);
    NoChunks(rows, stop, n, batches + [batch]);
  }

  /** ... and a full one leaves the rest to do. */
  lemma FullTurn<T>(rows: seq<T>, offset: nat, remaining: Option<nat>, n: nat, stop: nat, batches: seq<seq<T>>, finds: nat,
                    all: seq<seq<T>>, total: nat, batch: seq<T>)
    requires n > 0 && remaining != Some(0) && Midway(rows, offset, remaining, n, stop, batches, finds, all, total)
    requires batch == Slice(rows, offset, Some(BatchSize(n, remaining))) && |batch| >= BatchSize(n, remaining)
    ensures batch != []
    ensures Midway(rows, offset + |batch|, Less(remaining, |batch|), n, stop, batches + [batch], finds + 1, all, total)
    ensures From(|rows|, offset) < From(|rows|, offset + |batch|)
  {
    TurnMoves(rows, offset, remaining, n, stop, batch);
    FullTurnYields(rows, offset, remaining, n, stop, batches, all, batch);
    FullTurnCosts(rows, offset, remaining, n, stop, finds, total, batch);
  }

  lemma FullTurnYields<T>(rows: seq<T>, offset: nat, remaining: Option<nat>, n: nat, stop: nat, batches: seq<seq<T>>,
                          all: seq<seq<T>>, batch: seq<T>)
    requires n > 0 && remaining != Some(0) && To(|rows|, offset, remaining) == stop && From(|rows|, offset) <= stop <= |rows|
    requires batches + Chunks(rows, From(|rows|, offset), stop, n) == all
    requires batch == Slice(rows, offset, Some(BatchSize(n, remaining))) && |batch| >= BatchSize(n, remaining)
    ensures batch != [] && From(|rows|, offset) + |batch| <= stop
    ensures batches + [batch] + Chunks(rows, From(|rows|, offset) + |batch|, stop, n) == all
  {
    var next := NextChunks(rows, offset, remaining, n, stop, batch);
    Yielded(batches, batch, Chunks(rows, From(|rows|, offset), stop, n), next);
  }

  lemma FullTurnCosts<T>(rows: seq<T>, offset: nat, remaining: Option<nat>, n: nat, stop: nat, finds: nat, total: nat,
                         batch: seq<T>)
    requires n > 0 && remaining != Some(0) && To(|rows|, offset, remaining) == stop && From(|rows|, offset) <= stop <= |rows|
    requires finds + Finds(stop - From(|rows|, offset), remaining, n) == total
    requires batch == Slice(rows, offset, Some(BatchSize(n, remaining))) && |batch| >= BatchSize(n, remaining)
    ensures From(|rows|, offset) + |batch| <= stop
    ensures finds + 1 + Finds(stop - (From(|rows|, offset) + |batch|), Less(remaining, |batch|), n) == total
  {
    TurnCosts(rows, offset, remaining, n, stop, batch);
  }

  lemma NoTurn<T>(rows: seq<T>, offset: nat, n: nat, stop: nat, batches: seq<seq<T>>, finds: nat, all: seq<seq<T>>, total: nat)
    requires n > 0 && Midway(rows, offset, Some(0), n, stop, batches, finds, all, total)
    ensures batches == all && finds == total
  {
    assert From(|rows|, offset) == stop;
    NoChunks(rows, stop, n, batches);
  }

  lemma FirstTurn<T>(rows: seq<T>, offset: nat, count: Option<nat>, n: nat)
    requires n > 0
    ensures var from, stop := From(|rows|, offset), To(|rows|, offset, count);
            && from <= stop
            && Midway(rows, offset, count, n, stop, [], 0, Chunks(rows, from, stop, n), Finds(stop - from, count, n))
  {}

  /** The loop over offset and remaining rows. */
  method ReadBatches<T>(rows: seq<T>, start: nat, count: Option<nat>, n: nat) returns (batches: seq<seq<T>>, finds: nat)
    requires n > 0
    ensures var from, stop := From(|rows|, start), To(|rows|, start, count);
            batches == Chunks(rows, from, stop, n) && finds == Finds(stop - from, count, n)
  {
    ghost var from, stop := From(|rows|, start), To(|rows|, start, count);
    ghost var all, total := Chunks(rows, from, stop, n), Finds(stop - from, count, n);
    FirstTurn(rows, start, count, n);
    var offset: nat, remaining: Option<nat> := start, count;
    batches, finds := [], 0;
    while remaining != Some(0)
      invariant Midway(rows, offset, remaining, n, stop, batches, finds, all, total)
      decreases stop - From(|rows|, offset)
    {
      var size := BatchSize(n, remaining);
      var batch := Slice(rows, offset, Some(size));
      if |batch| < size {
        LastTurn(rows, offset, remaining, n, stop, batches, finds, all, total, batch);
      } else {
        FullTurn(rows, offset, remaining, n, stop, batches, finds, all, total, batch);
      }
      finds := finds + 1;
      if batch == [] { return; }
      batches := batches + [batch];
      remaining := Less(remaining, |batch|);
      if |batch| < size { return; }
      offset := offset + |batch|;
    }
    NoTurn(rows, offset, n, stop, batches, finds, all, total);
  }
}
