/**
 The queue backend: a dataset plus a memory buffer that together act as one append-only
 log, whatever has been flushed. Rows are opaque; the dataset is a sequence; whether a
 dataset write succeeds is an argument of the call that attempts it.
 */
module LanceLog {
  import opened Basics
  import opened Sequences
  import F = FlushProtocol
  import opened Sorting
  import opened Streams
  import G = GroupSampler

  /** The rows at the given positions, in the given order, skipping positions past the end. */
  function Gather<T>(log: seq<T>, indices: seq<nat>): seq<T> {
    if indices == [] then []
    else (if indices[0] < |log| then [log[indices[0]]] else []) + Gather(log, indices[1..])
  }

  lemma {:induction false} GatherConcat<T>(log: seq<T>, a: seq<nat>, b: seq<nat>)
    ensures Gather(log, a + b) == Gather(log, a) + Gather(log, b)
  {
    if a == [] {
      assert a + b == b;
    } else {
      GatherConcat(log, a[1..], b);
      TailOfConcat(a, b);
      Assoc(if a[0] < |log| then [log[a[0]]] else [], Gather(log, a[1..]), Gather(log, b));
    }
  }

  function Range(start: nat, count: nat): seq<nat> {
    seq(count, i requires 0 <= i => start + i)
  }

  lemma SliceStarts<T>(s: seq<T>, start: nat, count: nat)
    requires count > 0
    ensures Slice(s, start, count) == (if start < |s| then [s[start]] else []) + Slice(s, start + 1, count - 1)
  {
  }

  /** Reading a contiguous run of positions is reading a slice. */
  lemma {:induction false} GatherRange<T>(log: seq<T>, start: nat, count: nat)
    ensures Gather(log, Range(start, count)) == Slice(log, start, count)
    decreases count
  {
    if count > 0 {
      GatherRange(log, start + 1, count - 1);
      SliceStarts(log, start, count);
      assert Range(start, count)[1..] == Range(start + 1, count - 1);
    }
  }

  /** The positions that a list of (first, length) runs stands for. */
  function Expand(runs: seq<(nat, nat)>): seq<nat> {
    if runs == [] then [] else Range(runs[0].0, runs[0].1) + Expand(runs[1..])
  }

  lemma {:induction false} ExpandSnoc(runs: seq<(nat, nat)>, run: (nat, nat))
    ensures Expand(runs + [run]) == Expand(runs) + Range(run.0, run.1)
  {
    if runs == [] {
      assert [run][1..] == [];
    } else {
      ExpandSnoc(runs[1..], run);
      TailOfConcat(runs, [run]);
      Assoc(Range(runs[0].0, runs[0].1), Expand(runs[1..]), Range(run.0, run.1));
    }
  }

  // ---- Consumption ----

  /** The indexes below `total` that a task has not consumed, ascending. */
  function Ready(total: nat, consumed: set<int>): seq<int> {
    if total == 0 then []
    else Ready(total - 1, consumed) + if total - 1 in consumed then [] else [total - 1]
  }

  lemma {:induction false} ReadyIsUnconsumed(total: nat, consumed: set<int>)
    ensures forall x :: x in Ready(total, consumed) <==> 0 <= x < total && x !in consumed
    ensures StrictlyAscending(Ready(total, consumed))
  {
    if total > 0 {
      ReadyIsUnconsumed(total - 1, consumed);
      var before := Ready(total - 1, consumed);
      forall i | 0 <= i < |before|
        ensures before[i] < total - 1
      {
        assert before[i] in before;
      }
    }
  }

  /** A group batch is drawn from the ready indexes. */
  lemma BatchIsReady(total: nat, consumed: set<int>, n: nat, count: int)
    requires n > 0 && count % n == 0
    ensures forall x :: x in G.Batch(Ready(total, consumed), n, count / n) ==> 0 <= x < total && x !in consumed
  {
    ReadyIsUnconsumed(total, consumed);
    if count > 0 {
      assert count / n > 0;
      G.BatchIsBest(Ready(total, consumed), n, count / n);
    }
  }

  /** A Python slice `s[:k]`: a negative bound counts from the end. */
  function Take<T>(s: seq<T>, k: int): (r: seq<T>)
    ensures r <= s
  {
    if k >= 0 then s[..Min(k, |s|)] else s[..if |s| + k > 0 then |s| + k else 0]
  }

  /** A bound that is not negative takes that many, as far as there are; a negative one leaves that many out. */
  lemma TakeCounts<T>(s: seq<T>, k: int)
    ensures k >= 0 ==> |Take(s, k)| == Min(k, |s|)
    ensures k < 0 ==> |Take(s, k)| == if -k <= |s| then |s| + k else 0
  {
  }

  /** Taking from the ready list takes the smallest indexes a task has not consumed. */
  lemma TakesSmallest(total: nat, consumed: set<int>, k: int, x: int, y: int)
    requires x in Take(Ready(total, consumed), k)
    requires 0 <= y < x && y !in consumed
    ensures y in Take(Ready(total, consumed), k)
  {
    var ready := Ready(total, consumed);
    var taken := Take(ready, k);
    ReadyIsUnconsumed(total, consumed);
    var i :| 0 <= i < |taken| && taken[i] == x;
    assert ready[i] == x && x in ready && y in ready;
    var j :| 0 <= j < |ready| && ready[j] == y;
    assert j < i;
    assert taken[j] == y;
  }

  function ConsumedBy(consumed: map<string, set<int>>, task: string): set<int> {
    if task in consumed then consumed[task] else {}
  }

  /** What a put does: append, and flush once the buffer has reached the threshold. */
  function AfterPut<T>(s: F.Store<T>, rows: seq<T>, batchSize: int, stored: bool): F.Store<T> {
    var appended := F.Next(s, F.Put(rows));
    if |appended.buffer| >= batchSize then AfterFlush(appended, stored) else appended
  }

  /** A flush that nothing interrupts. */
  function AfterFlush<T>(s: F.Store<T>, stored: bool): F.Store<T> {
    F.Next(F.Next(s, F.Detach), if stored then F.Persist(0) else F.Restore(0))
  }

  lemma FlushKeepsRows<T>(s: F.Store<T>, stored: bool)
    requires s.flights == []
    ensures AfterFlush(s, stored).flights == []
    ensures F.Rows(AfterFlush(s, stored)) == F.Rows(s)
  {
    F.DetachRows(s);
    F.StepInOrder(F.Next(s, F.Detach), if stored then F.Persist(0) else F.Restore(0));
  }

  lemma PutAppends<T>(s: F.Store<T>, rows: seq<T>, batchSize: int, stored: bool)
    requires s.flights == []
    ensures AfterPut(s, rows, batchSize, stored).flights == []
    ensures F.Rows(AfterPut(s, rows, batchSize, stored)) == F.Rows(s) + rows
  {
    F.PutRows(s, rows);
    FlushKeepsRows(F.Next(s, F.Put(rows)), stored);
  }

  /** A slice across a seam is a slice of either side. */
  lemma SliceOfConcat<T>(a: seq<T>, b: seq<T>, offset: nat, limit: nat)
    ensures var first := Slice(a, offset, limit);
            Slice(a + b, offset, limit)
            == first + Slice(b, if offset > |a| then offset - |a| else 0, limit - |first|)
  {
  }

  lemma SettledRows<T>(s: F.Store<T>)
    requires s.flights == []
    ensures F.Rows(s) == s.persisted + s.buffer
  {
    assert s.persisted + [] == s.persisted;
  }

  // ---- Draining a log ----

  /** Batches of one to a hundred rows, full ones but for the last. */
  ghost predicate Batched<T>(batches: seq<seq<T>>) {
    && (forall batch :: batch in batches ==> 1 <= |batch| <= 100)
    && (forall i :: 0 <= i < |batches| - 1 ==> |batches[i]| == 100)
  }

  /** A stream stands at `pos` after these batches; if there is more to come, the last one was full. */
  ghost predicate Streaming<T>(log: seq<T>, offset: nat, pos: nat, remaining: nat, batches: seq<seq<T>>) {
    && offset <= pos && (pos == offset || pos <= |log|) && Flatten(batches) == Slice(log, offset, pos - offset)
    && Batched(batches)
    && (remaining > 0 && pos < |log| && batches != [] ==> |batches[|batches| - 1]| == 100)
  }

  lemma BatchedSnoc<T>(batches: seq<seq<T>>, batch: seq<T>)
    requires Batched(batches) && 1 <= |batch| <= 100 && (batches != [] ==> |batches[|batches| - 1]| == 100)
    ensures Batched(batches + [batch])
  {
  }

  lemma BatchSize<T>(log: seq<T>, pos: nat, remaining: nat, batch: seq<T>)
    requires remaining > 0 && pos < |log| && batch == Slice(log, pos, Min(remaining, 100))
    ensures 1 <= |batch| <= 100 && |batch| <= remaining && pos + |batch| <= |log|
    ensures |batch| == 100 || |batch| == remaining || pos + |batch| == |log|
  {
  }

  lemma BatchFollows<T>(log: seq<T>, offset: nat, pos: nat, k: nat, batches: seq<seq<T>>, batch: seq<T>)
    requires offset <= pos && (pos == offset || pos <= |log|) && Flatten(batches) == Slice(log, offset, pos - offset)
    requires batch == Slice(log, pos, k)
    ensures Flatten(batches + [batch]) == Slice(log, offset, pos + |batch| - offset)
  {
    SliceOfPrefix(log, log, pos, k);
    SliceExtends(log, offset, pos - offset, |batch|);
    FlattenSnoc(batches, batch);
  }

  lemma StreamMoves<T>(log: seq<T>, offset: nat, pos: nat, remaining: nat, batches: seq<seq<T>>, batch: seq<T>)
    requires Streaming(log, offset, pos, remaining, batches) && remaining > 0 && pos < |log|
    requires batch == Slice(log, pos, Min(remaining, 100))
    ensures 1 <= |batch| <= remaining
    ensures Streaming(log, offset, pos + |batch|, remaining - |batch|, batches + [batch])
  {
    BatchSize(log, pos, remaining, batch);
    BatchFollows(log, offset, pos, Min(remaining, 100), batches, batch);
    BatchedSnoc(batches, batch);
    assert (batches + [batch])[|batches|] == batch;
  }

  // ---- The backend ----

  class LanceBackend<T> {
    const batchSize: int
    var dataset: seq<T>
    var persistedCount: nat
    var buffer: seq<T>
    var consumed: map<string, set<int>>

    ghost predicate Valid()
      reads this
    {
      persistedCount == |dataset|
    }

    ghost function Snapshot(): F.Store<T>
      reads this
    {
      F.Store(dataset, [], buffer)
    }

    /** The log that readers see. */
    ghost function Log(): seq<T>
      reads this
    {
      dataset + buffer
    }

    constructor (batchSize: int, recovered: seq<T>)
      ensures Valid() && this.batchSize == batchSize
      ensures Log() == recovered && buffer == [] && consumed == map[]
    {
      this.batchSize := batchSize;
      dataset, persistedCount, buffer, consumed := recovered, |recovered|, [], map[];
    }

    method TotalCount() returns (count: nat)
      requires Valid()
      ensures count == |Log()|
    {
      count := persistedCount + |buffer|;
    }

    method Flush(stored: bool)
      requires Valid()
      modifies this`dataset, this`persistedCount, this`buffer
      ensures Valid()
      ensures Snapshot() == AfterFlush(old(Snapshot()), stored)
      ensures Log() == old(Log())
      ensures if stored then dataset == old(Log()) && buffer == [] else dataset == old(dataset) && buffer == old(buffer)
    {
      if buffer == [] {
        assert dataset + [] == dataset;
        return;
      }
      FlushKeepsRows(Snapshot(), stored);
      var toWrite := buffer;
      buffer := [];
      if stored {
        dataset := dataset + toWrite;
        persistedCount := persistedCount + |toWrite|;
      } else {
        buffer := toWrite + buffer;
      }
    }

    method PutBatch(records: seq<T>, stored: bool)
      requires Valid()
      modifies this`dataset, this`persistedCount, this`buffer
      ensures Valid()
      ensures Snapshot() == AfterPut(old(Snapshot()), records, batchSize, stored)
      ensures Log() == old(Log()) + records
      ensures if |old(buffer)| + |records| >= batchSize && stored then dataset == old(Log()) + records && buffer == []
              else dataset == old(dataset) && buffer == old(buffer) + records
    {
      PutAppends(Snapshot(), records, batchSize, stored);
      buffer := buffer + records;
      if |buffer| >= batchSize {
        Flush(stored);
      }
      SettledRows(Snapshot());
      SettledRows(old(Snapshot()));
    }

    method Put(record: T, stored: bool)
      requires Valid()
      modifies this`dataset, this`persistedCount, this`buffer
      ensures Valid()
      ensures Snapshot() == AfterPut(old(Snapshot()), [record], batchSize, stored)
      ensures Log() == old(Log()) + [record]
    {
      PutBatch([record], stored);
    }

    /** Rows of one tensor batch are numbered from the current length of the log on. */
    method PutTensor(rows: seq<T>, stored: bool) returns (indexes: seq<nat>)
      requires Valid()
      modifies this`dataset, this`persistedCount, this`buffer
      ensures Valid()
      ensures Snapshot() == AfterPut(old(Snapshot()), rows, batchSize, stored)
      ensures Log() == old(Log()) + rows
      ensures indexes == Range(|old(Log())|, |rows|)
      ensures Gather(Log(), indexes) == rows
    {
      var start := TotalCount();
      indexes := Range(start, |rows|);
      PutBatch(rows, stored);
      GatherRange(Log(), start, |rows|);
    }

    method Read(offset: nat, limit: nat) returns (records: seq<T>)
      requires Valid()
      ensures records == Slice(Log(), offset, limit)
    {
      SliceOfConcat(dataset, buffer, offset, limit);
      records := [];
      if offset < persistedCount {
        var n := Min(limit, persistedCount - offset);
        records := Slice(dataset, offset, n);
      }
      if |records| < limit {
        var bufOffset := if offset - persistedCount > 0 then offset - persistedCount else 0;
        var bufLimit := limit - |records|;
        records := records + Slice(buffer, bufOffset, bufLimit);
      }
    }

    method SplitRuns(indices: seq<nat>) returns (runs: seq<(nat, nat)>)
      ensures Expand(runs) == indices
    {
      runs := [];
      var i := 0;
      while i < |indices|
        invariant 0 <= i <= |indices|
        invariant Expand(runs) == indices[..i]
      {
        var start := indices[i];
        var j := i + 1;
        while j < |indices| && indices[j] == indices[j - 1] + 1
          invariant i < j <= |indices|
          invariant forall k :: i <= k < j ==> indices[k] == start + (k - i)
        {
          j := j + 1;
        }
        ExpandSnoc(runs, (start, j - i));
        assert Range(start, j - i) == indices[i..j];
        assert indices[..i] + indices[i..j] == indices[..j];
        runs := runs + [(start, j - i)];
        i := j;
      }
      assert indices[..i] == indices;
    }

    method GetByIndices(indices: seq<nat>) returns (out: seq<T>)
      requires Valid()
      ensures out == Gather(Log(), indices)
    {
      var runs := SplitRuns(indices);
      out := [];
      for k := 0 to |runs|
        invariant out == Gather(Log(), Expand(runs[..k]))
      {
        var part := Read(runs[k].0, runs[k].1);
        ExpandSnoc(runs[..k], runs[k]);
        assert runs[..k] + [runs[k]] == runs[..k + 1];
        GatherConcat(Log(), Expand(runs[..k]), Range(runs[k].0, runs[k].1));
        GatherRange(Log(), runs[k].0, runs[k].1);
        out := out + part;
      }
      assert runs[..|runs|] == runs;
    }

    /** A stream that does not wait: it ends when the asked number of rows is delivered or the log is. */
    method GetStream(limit: nat, offset: nat) returns (batches: seq<seq<T>>)
      requires Valid()
      ensures Flatten(batches) == Slice(Log(), offset, limit)
      ensures Batched(batches)
    {
      batches := [];
      var pos, remaining := offset, limit;
      while remaining > 0
        invariant 0 <= remaining <= limit && pos == offset + limit - remaining
        invariant Streaming(Log(), offset, pos, remaining, batches)
        decreases remaining
      {
        var total := TotalCount();
        if pos >= total {
          SliceToEnd(Log(), offset, pos - offset, limit);
          return;
        }
        var batch := Read(pos, Min(remaining, 100));
        StreamMoves(Log(), offset, pos, remaining, batches, batch);
        batches := batches + [batch];
        pos := pos + |batch|;
        remaining := remaining - |batch|;
      }
    }

    /** The next unconsumed indexes of a task, in order, marked consumed. */
    method GetMeta(task: string, count: int) returns (sampled: seq<int>)
      requires Valid()
      modifies this`consumed
      ensures sampled == Take(Ready(|Log()|, ConsumedBy(old(consumed), task)), count)
      ensures forall x :: x in sampled ==> 0 <= x < |Log()| && x !in ConsumedBy(old(consumed), task)
      ensures count >= 0 ==> |sampled| == Min(count, |Ready(|Log()|, ConsumedBy(old(consumed), task))|)
      ensures consumed == old(consumed)[task := ConsumedBy(old(consumed), task) + set x | x in sampled]
    {
      var total := TotalCount();
      var done := ConsumedBy(consumed, task);
      var ready := Ready(total, done);
      ReadyIsUnconsumed(total, done);
      sampled := Take(ready, count);
      TakeCounts(ready, count);
      assert forall x :: x in sampled ==> x in ready;
      consumed := consumed[task := done + set x | x in sampled];
    }

    /** As `GetMeta`, with the choice left to a group sampler; the sampler may replay a cached batch. */
    method GetMetaGrouped(task: string, count: int, sampler: G.GroupNSampler, key: Option<G.CacheKey>)
      returns (r: Result<seq<int>, G.SampleError>)
      requires Valid()
      modifies this`consumed, sampler`cache
      ensures r == if count % sampler.n != 0 then Err(G.NotAMultiple)
                   else if key.Some? && key.value in old(sampler.cache) then Ok(old(sampler.cache)[key.value])
                   else Ok(G.Batch(Ready(|Log()|, ConsumedBy(old(consumed), task)), sampler.n, count / sampler.n))
      ensures r.Ok? && !(key.Some? && key.value in old(sampler.cache)) ==>
                forall x :: x in r.value ==> 0 <= x < |Log()| && x !in ConsumedBy(old(consumed), task)
      ensures consumed == old(consumed)[task := ConsumedBy(old(consumed), task) +
                                                if r.Ok? then set x | x in r.value else {}]
    {
      var total := TotalCount();
      var done := ConsumedBy(consumed, task);
      var ready := Ready(total, done);
      consumed := consumed[task := done];
      r := sampler.Sample(ready, count, key);
      if r.Ok? {
        BatchIsReady(total, done, sampler.n, count);
        consumed := consumed[task := done + set x | x in r.value];
      } else {
        assert done + {} == done;
      }
    }

    method MarkConsumed(task: string, indexes: seq<int>)
      modifies this`consumed
      ensures consumed == old(consumed)[task := ConsumedBy(old(consumed), task) + set x | x in indexes]
    {
      consumed := consumed[task := ConsumedBy(consumed, task) + set x | x in indexes];
    }
  }

  /**
   The generator behind `get_stream`, resumed once per turn of its loop; anything may happen to the queue between
   two turns. A turn that finds nothing new ends a stream that does not wait, and otherwise waits for the next turn.
   */
  class LogStream<T> {
    const backend: LanceBackend<T>
    const offset: nat
    const limit: nat
    const wait: bool
    var pos: nat
    var remaining: nat
    var ended: bool
    /** The log as each turn found it, and all rows handed out so far. */
    ghost var seen: seq<seq<T>>
    ghost var out: seq<T>

    /** Whatever the queue went through, the stream has delivered what its turns found. */
    ghost predicate Valid()
      reads this
    {
      && out == Delivered(seen, offset, limit)
      && |out| <= limit && pos == offset + |out| && remaining == limit - |out|
      && (remaining == 0 ==> ended)
    }

    constructor (backend: LanceBackend<T>, limit: nat, offset: nat, wait: bool)
      ensures Valid() && this.backend == backend && this.limit == limit && this.offset == offset && this.wait == wait
      ensures seen == [] && ended == (limit == 0)
    {
      this.backend, this.limit, this.offset, this.wait := backend, limit, offset, wait;
      pos, remaining, ended := offset, limit, limit == 0;
      seen, out := [], [];
    }

    method NextRows() returns (batch: seq<T>)
      requires backend.Valid()
      ensures batch == Pull(backend.Log(), pos, remaining)
    {
      var total := backend.TotalCount();
      if pos >= total {
        PullPastEnd(backend.Log(), pos, remaining);
        return [];
      }
      batch := backend.Read(pos, Min(remaining, 100));
    }

    /** One turn; a stream that waits may run out of time instead of finding something. */
    method Resume(timedOut: bool) returns (batch: seq<T>)
      requires backend.Valid() && Valid()
      modifies this
      ensures Valid() && out == old(out) + batch
      ensures old(ended) ==> batch == [] && unchanged(this)
      ensures !old(ended) ==>
                && seen == old(seen) + [backend.Log()]
                && batch == Pull(backend.Log(), old(pos), old(remaining))
                && (ended <==> remaining == 0 || (batch == [] && (!wait || timedOut)))
    {
      batch := [];
      if ended {
        assert out + [] == out;
        return;
      }
      batch := NextRows();
      Advance(batch, !wait || timedOut, backend.Log());
    }

    /** The stream moves past a batch it found in `log`; an empty one may be its last. */
    method Advance(batch: seq<T>, givesUp: bool, ghost log: seq<T>)
      requires Valid() && batch == Pull(log, pos, remaining)
      modifies this
      ensures Valid() && out == old(out) + batch && seen == old(seen) + [log]
      ensures ended <==> remaining == 0 || (batch == [] && givesUp)
    {
      TurnTaken(seen, log, offset, limit, out, batch);
      seen, out := seen + [log], out + batch;
      pos := pos + |batch|;
      remaining := remaining - |batch|;
      ended := remaining == 0 || (batch == [] && givesUp);
    }
  }
}
