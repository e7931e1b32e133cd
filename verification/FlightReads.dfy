/**
 What readers and streams get to see while flushes come and go: the dataset and the buffer, and nothing that is in
 flight. Rows behind a flight appear at positions that are not theirs.
 */
module FlightReads {
  import opened Sequences
  import opened Streams
  import F = FlushProtocol

  /** The log as readers find it. */
  function Visible<T>(s: F.Store<T>): seq<T> {
    s.persisted + s.buffer
  }

  // ---- A log with a hole ----

  lemma HoleShifts<T>(p: seq<T>, x: seq<T>, b: seq<T>, q: nat)
    requires x != [] && Distinct(p + x + b) && |p| <= q < |p + x + b|
    ensures q < |p + b| ==> (p + b)[q] != (p + x + b)[q]
  {
    if q < |p + b| {
      assert (p + b)[q] == b[q - |p|] == (p + x + b)[q + |x|];
    }
  }

  lemma SliceBeforeHole<T>(p: seq<T>, x: seq<T>, b: seq<T>, offset: nat, limit: nat)
    requires offset + limit <= |p|
    ensures Slice(p + b, offset, limit) == Slice(p + x + b, offset, limit)
  {
  }

  lemma SliceMeetsHole<T>(p: seq<T>, x: seq<T>, b: seq<T>, offset: nat, limit: nat)
    requires x != [] && Distinct(p + x + b) && limit > 0 && offset + limit > |p| && offset < |p + x + b|
    ensures Slice(p + b, offset, limit) != Slice(p + x + b, offset, limit)
  {
    var q := if offset < |p| then |p| else offset;
    HoleShifts(p, x, b, q);
    var seen, there := Slice(p + b, offset, limit), Slice(p + x + b, offset, limit);
    assert q - offset < |there| && there[q - offset] == (p + x + b)[q];
    if q - offset < |seen| {
      assert seen[q - offset] == (p + b)[q];
    }
  }

  lemma NothingPastEnd<T>(p: seq<T>, x: seq<T>, b: seq<T>, offset: nat, limit: nat)
    requires offset >= |p + x + b|
    ensures Slice(p + b, offset, limit) == Slice(p + x + b, offset, limit) == []
  {
  }

  lemma SettledView<T>(s: F.Store<T>)
    requires s.flights == []
    ensures Visible(s) == F.Rows(s)
  {
    assert s.persisted + [] == s.persisted;
  }

  /**
   For rows that can be told apart, a read returns what the log holds there exactly when nothing is in flight, or it
   asks for nothing, or it stays within the dataset, or it starts past the end.
   */
  lemma ReadSeesRowsExactly<T>(s: F.Store<T>, offset: nat, limit: nat)
    requires F.FlightsNonEmpty(s) && Distinct(F.Rows(s))
    ensures Slice(Visible(s), offset, limit) == Slice(F.Rows(s), offset, limit) <==>
            s.flights == [] || limit == 0 || offset + limit <= |s.persisted| || offset >= |F.Rows(s)|
  {
    if s.flights == [] {
      SettledView(s);
    } else {
      var p, x, b := s.persisted, Flatten(s.flights), s.buffer;
      F.FirstFlightCounts(s.flights);
      if offset >= |F.Rows(s)| {
        NothingPastEnd(p, x, b, offset, limit);
      } else if offset + limit <= |p| {
        SliceBeforeHole(p, x, b, offset, limit);
      } else if limit > 0 {
        SliceMeetsHole(p, x, b, offset, limit);
      }
    }
  }

  /** The batch is taken with nothing in flight, or is empty, or lies within the dataset. */
  predicate BatchSettled<T>(s: F.Store<T>, pos: nat, batch: seq<T>) {
    s.flights == [] || batch == [] || pos + |batch| <= |s.persisted|
  }

  lemma PulledAgain<T>(log: seq<T>, pos: nat, remaining: nat, batch: seq<T>)
    requires batch == Pull(log, pos, remaining)
    ensures batch == Slice(log, pos, |batch|)
    ensures batch != [] ==> pos + |batch| <= |log|
  {
  }

  /** A stream's batch is what the log holds at its position exactly when it is settled. */
  lemma BatchSeesRowsExactly<T>(s: F.Store<T>, pos: nat, remaining: nat, batch: seq<T>)
    requires F.FlightsNonEmpty(s) && Distinct(F.Rows(s)) && batch == Pull(Visible(s), pos, remaining)
    ensures batch == Slice(F.Rows(s), pos, |batch|) <==> BatchSettled(s, pos, batch)
  {
    PulledAgain(Visible(s), pos, remaining, batch);
    ReadSeesRowsExactly(s, pos, |batch|);
    F.CountMissesFlights(s);
  }

  /** The row at `x` can be read: nothing is in flight, or it is in the dataset already. */
  predicate Readable<T>(s: F.Store<T>, x: int) {
    0 <= x < |Visible(s)| && (s.flights == [] || x < |s.persisted|)
  }

  lemma ReadableIsRow<T>(s: F.Store<T>, x: int)
    requires Readable(s, x)
    ensures x < |F.Rows(s)| && Visible(s)[x] == F.Rows(s)[x]
  {
    if s.flights == [] {
      SettledView(s);
    }
  }

  /** Looking up an index returns its row exactly when the row is readable. */
  lemma LookupExactly<T>(s: F.Store<T>, x: nat)
    requires F.FlightsNonEmpty(s) && Distinct(F.Rows(s)) && x < |F.Rows(s)|
    ensures x < |Visible(s)| && Visible(s)[x] == F.Rows(s)[x] <==> Readable(s, x)
  {
    if Readable(s, x) {
      ReadableIsRow(s, x);
    } else if x < |Visible(s)| {
      F.FirstFlightCounts(s.flights);
      HoleShifts(s.persisted, Flatten(s.flights), s.buffer, x);
    }
  }

  // ---- Runs ----

  /** In every reachable state readers see all the rows in their places exactly when no flush is in flight. */
  lemma ReadersSeeRows<T>(recovered: seq<T>, steps: seq<F.Step<T>>, n: nat)
    requires n <= |steps|
    ensures var s := F.StoreAfter(recovered, steps, n);
            Visible(s) == F.Rows(s) <==> s.flights == []
  {
    var s := F.StoreAfter(recovered, steps, n);
    F.FlightsStayNonEmpty(recovered, steps, n);
    F.CountMissesFlights(s);
    if s.flights == [] {
      SettledView(s);
    }
  }

  /** In an orderly run, a row that can be read is the one that was put at its position, now and later. */
  lemma ReadableIsPut<T>(recovered: seq<T>, steps: seq<F.Step<T>>, m: nat, n: nat, x: int)
    requires m <= n <= |steps| && F.OrderlyRun(recovered, steps, n)
    requires Readable(F.StoreAfter(recovered, steps, m), x)
    ensures x < |F.Puts(recovered, steps, n)|
    ensures Visible(F.StoreAfter(recovered, steps, m))[x] == F.Puts(recovered, steps, n)[x]
  {
    ReadableIsRow(F.StoreAfter(recovered, steps, m), x);
    F.RowsGrow(recovered, steps, m, n);
    F.OrderKept(recovered, steps, n);
  }

  // ---- Streams over runs ----

  function Views<T>(stores: seq<F.Store<T>>): seq<seq<T>> {
    seq(|stores|, i requires 0 <= i < |stores| => Visible(stores[i]))
  }

  lemma ViewsTail<T>(stores: seq<F.Store<T>>)
    requires stores != []
    ensures Views(stores)[0] == Visible(stores[0]) && Views(stores)[1..] == Views(stores[1..])
  {
  }

  /** Every batch of a stream that finds these stores is settled. */
  predicate AllSettled<T>(stores: seq<F.Store<T>>, pos: nat, remaining: nat)
    decreases |stores|
  {
    stores == [] ||
    var batch := Pull(Visible(stores[0]), pos, remaining);
    BatchSettled(stores[0], pos, batch) && AllSettled(stores[1..], pos + |batch|, remaining - |batch|)
  }

  /** The stores are stages of one log that only grows. */
  ghost predicate Stages<T>(stores: seq<F.Store<T>>, last: seq<T>) {
    forall i :: 0 <= i < |stores| ==> F.FlightsNonEmpty(stores[i]) && F.Rows(stores[i]) <= last
  }

  lemma StagesTail<T>(stores: seq<F.Store<T>>, last: seq<T>)
    requires stores != [] && Stages(stores, last)
    ensures F.FlightsNonEmpty(stores[0]) && F.Rows(stores[0]) <= last && Stages(stores[1..], last)
  {
  }

  lemma SameBelowEnd<T>(rows: seq<T>, last: seq<T>, pos: nat, k: nat)
    requires rows <= last && (k == 0 || pos + k <= |rows|)
    ensures Slice(rows, pos, k) == Slice(last, pos, k)
  {
  }

  lemma DistinctPrefix<T>(rows: seq<T>, last: seq<T>)
    requires rows <= last && Distinct(last)
    ensures Distinct(rows)
  {
    forall i, j | 0 <= i < j < |rows|
      ensures rows[i] != rows[j]
    {
      assert rows[i] == last[i] && rows[j] == last[j];
    }
  }

  lemma BatchInLastExactly<T>(s: F.Store<T>, last: seq<T>, pos: nat, remaining: nat, batch: seq<T>)
    requires F.FlightsNonEmpty(s) && F.Rows(s) <= last && Distinct(last) && batch == Pull(Visible(s), pos, remaining)
    ensures batch == Slice(last, pos, |batch|) <==> BatchSettled(s, pos, batch)
  {
    DistinctPrefix(F.Rows(s), last);
    BatchSeesRowsExactly(s, pos, remaining, batch);
    PulledAgain(Visible(s), pos, remaining, batch);
    F.CountMissesFlights(s);
    SameBelowEnd(F.Rows(s), last, pos, |batch|);
  }

  lemma FollowsExactly<T>(batch: seq<T>, more: seq<T>, last: seq<T>, pos: nat, remaining: nat)
    requires |batch| <= remaining
    ensures Follows(batch + more, last, pos, remaining) <==>
            batch == Slice(last, pos, |batch|) && Follows(more, last, pos + |batch|, remaining - |batch|)
  {
    if Follows(batch + more, last, pos, remaining) {
      FollowsBoth(batch, more, last, pos, remaining);
    }
    if batch == Slice(last, pos, |batch|) && Follows(more, last, pos + |batch|, remaining - |batch|) {
      FollowsOn(batch, more, last, pos, remaining);
    }
  }

  lemma SettledStep<T>(stores: seq<F.Store<T>>, pos: nat, remaining: nat, batch: seq<T>)
    requires stores != [] && batch == Pull(Visible(stores[0]), pos, remaining)
    ensures AllSettled(stores, pos, remaining) <==>
            BatchSettled(stores[0], pos, batch) && AllSettled(stores[1..], pos + |batch|, remaining - |batch|)
  {
  }

  lemma ViewedStep<T>(s: F.Store<T>, last: seq<T>, pos: nat, remaining: nat, batch: seq<T>, more: seq<T>, rest: bool)
    requires F.FlightsNonEmpty(s) && F.Rows(s) <= last && Distinct(last) && batch == Pull(Visible(s), pos, remaining)
    requires Follows(more, last, pos + |batch|, remaining - |batch|) <==> rest
    ensures Follows(batch + more, last, pos, remaining) <==> BatchSettled(s, pos, batch) && rest
  {
    BatchInLastExactly(s, last, pos, remaining, batch);
    FollowsExactly(batch, more, last, pos, remaining);
  }

  lemma {:induction false} ViewedExactly<T>(stores: seq<F.Store<T>>, last: seq<T>, pos: nat, remaining: nat)
    requires Stages(stores, last) && Distinct(last)
    ensures Follows(Delivered(Views(stores), pos, remaining), last, pos, remaining) <==>
            AllSettled(stores, pos, remaining)
    decreases |stores|
  {
    if stores != [] {
      var s := stores[0];
      var batch := Pull(Visible(s), pos, remaining);
      var more := Delivered(Views(stores[1..]), pos + |batch|, remaining - |batch|);
      StagesTail(stores, last);
      ViewsTail(stores);
      FirstTurn(Views(stores), pos, remaining, batch, more);
      ViewedExactly(stores[1..], last, pos + |batch|, remaining - |batch|);
      ViewedStep(s, last, pos, remaining, batch, more,
                 AllSettled(stores[1..], pos + |batch|, remaining - |batch|));
      SettledStep(stores, pos, remaining, batch);
    }
  }

  /** The stores at the given moments of a run. */
  function At<T>(recovered: seq<T>, steps: seq<F.Step<T>>, moments: seq<nat>): seq<F.Store<T>>
    requires forall i :: 0 <= i < |moments| ==> moments[i] <= |steps|
  {
    seq(|moments|, i requires 0 <= i < |moments| => F.StoreAfter(recovered, steps, moments[i]))
  }

  lemma RunStages<T>(recovered: seq<T>, steps: seq<F.Step<T>>, moments: seq<nat>)
    requires F.OrderlyRun(recovered, steps, |steps|)
    requires forall i :: 0 <= i < |moments| ==> moments[i] <= |steps|
    ensures Stages(At(recovered, steps, moments), F.Puts(recovered, steps, |steps|))
  {
    var stores := At(recovered, steps, moments);
    forall i | 0 <= i < |stores|
      ensures F.FlightsNonEmpty(stores[i]) && F.Rows(stores[i]) <= F.Puts(recovered, steps, |steps|)
    {
      F.FlightsStayNonEmpty(recovered, steps, moments[i]);
      F.RowsGrow(recovered, steps, moments[i], |steps|);
      F.OrderKept(recovered, steps, |steps|);
    }
  }

  /**
   In an orderly run of rows that can be told apart, a stream that looks at any moments delivers consecutive rows of
   the log exactly when each of its batches is settled.
   */
  lemma StreamFollowsExactly<T>(recovered: seq<T>, steps: seq<F.Step<T>>, moments: seq<nat>, pos: nat, remaining: nat)
    requires F.OrderlyRun(recovered, steps, |steps|) && Distinct(F.Puts(recovered, steps, |steps|))
    requires forall i :: 0 <= i < |moments| ==> moments[i] <= |steps|
    ensures var stores := At(recovered, steps, moments);
            Follows(Delivered(Views(stores), pos, remaining), F.Puts(recovered, steps, |steps|), pos, remaining) <==>
            AllSettled(stores, pos, remaining)
  {
    RunStages(recovered, steps, moments);
    ViewedExactly(At(recovered, steps, moments), F.Puts(recovered, steps, |steps|), pos, remaining);
  }

  /** Rows that cannot be told apart included, looking only with nothing in flight is always enough. */
  lemma StreamFollowsRun<T>(recovered: seq<T>, steps: seq<F.Step<T>>, moments: seq<nat>, pos: nat, remaining: nat)
    requires F.OrderlyRun(recovered, steps, |steps|)
    requires forall i :: 0 <= i < |moments| ==>
               moments[i] <= |steps| && F.StoreAfter(recovered, steps, moments[i]).flights == []
    ensures Follows(Delivered(Views(At(recovered, steps, moments)), pos, remaining),
                    F.Puts(recovered, steps, |steps|), pos, remaining)
  {
    var stores, last := At(recovered, steps, moments), F.Puts(recovered, steps, |steps|);
    RunStages(recovered, steps, moments);
    forall i | 0 <= i < |stores|
      ensures Views(stores)[i] <= last
    {
      SettledView(stores[i]);
    }
    StreamFollowsLog(Views(stores), pos, remaining, last);
  }

  // ---- A look at the wrong moment ----

  /** A row fails to be stored and comes back after another was put. */
  function ComingBack<T>(a: T, b: T): seq<F.Step<T>> {
    [F.Put([a]), F.Detach, F.Put([b]), F.Restore(0)]
  }

  lemma ComingBackStores<T>(a: T, b: T)
    ensures F.StoreAfter([], ComingBack(a, b), 3) == F.Store([], [[a]], [b])
    ensures F.StoreAfter([], ComingBack(a, b), 4) == F.Store([], [], [a, b])
  {
    var e, steps := [], ComingBack(a, b);
    assert F.StoreAfter(e, steps, 1) == F.Next(F.StoreAfter(e, steps, 0), steps[0]) == F.Store([], [], [a]);
    assert F.StoreAfter(e, steps, 2) == F.Next(F.StoreAfter(e, steps, 1), steps[1]) == F.Store([], [[a]], []);
    assert F.StoreAfter(e, steps, 3) == F.Next(F.StoreAfter(e, steps, 2), steps[2]) == F.Store([], [[a]], [b]);
    assert F.StoreAfter(e, steps, 4) == F.Next(F.StoreAfter(e, steps, 3), steps[3]) == F.Store([], [], [a, b]);
  }

  lemma ComingBackPuts<T>(a: T, b: T)
    ensures F.Puts([], ComingBack(a, b), 4) == [a, b]
  {
    var e, steps := [], ComingBack(a, b);
    assert F.Puts(e, steps, 1) == F.Puts(e, steps, 0) + F.Added(steps[0]) == [a];
    assert F.Puts(e, steps, 2) == F.Puts(e, steps, 1) + F.Added(steps[1]) == [a];
    assert F.Puts(e, steps, 3) == F.Puts(e, steps, 2) + F.Added(steps[2]) == [a, b];
    assert F.Puts(e, steps, 4) == F.Puts(e, steps, 3) + F.Added(steps[3]) == [a, b];
  }

  lemma TwoLooks<T>(a: T, b: T)
    ensures Delivered([[b], [a, b]], 0, 2) == [b, b]
  {
    var logs := [[b], [a, b]];
    assert logs[1..] == [[a, b]];
    assert Pull([b], 0, 2) == [b] && Pull([a, b], 1, 1) == [b];
    LastTurn([a, b], 1, 1);
    FirstTurn(logs, 0, 2, [b], [b]);
  }

  /** A stream that looks while a flush is in flight and once more afterwards delivers one row twice and misses one. */
  lemma StreamMissesFlight<T>(a: T, b: T)
    ensures var steps := ComingBack(a, b);
            && F.Puts([], steps, 4) == [a, b]
            && Delivered(Views(At([], steps, [3, 4])), 0, 2) == [b, b]
  {
    var steps := ComingBack(a, b);
    ComingBackPuts(a, b);
    ComingBackStores(a, b);
    var stores := At([], steps, [3, 4]);
    assert stores == [F.Store([], [[a]], [b]), F.Store([], [], [a, b])];
    var none: seq<T> := [];
    assert none + [b] == [b] && none + [a, b] == [a, b];
    assert Views(stores) == [[b], [a, b]];
    TwoLooks(a, b);
  }
}
