/**
 Writing the buffer of a queue to its dataset, one lock hold at a time: a flush
 detaches the buffer, and later either the dataset takes the detached rows, or they go
 back in front of the buffer, or the flush is cancelled while it waits to give them back.
 Puts and other flushes may come in between.
 */
module FlushProtocol {
  import opened Sequences

  datatype Store<T> = Store(persisted: seq<T>, flights: seq<seq<T>>, buffer: seq<T>)

  /** `Persist`, `Restore` and `Drop` end the i-th oldest flush in flight; without one they do nothing. */
  datatype Step<T> =
    | Put(rows: seq<T>)
    | Detach
    | Persist(flight: nat)
    | Restore(flight: nat)
    | Drop(flight: nat)

  function Without<T>(parts: seq<T>, i: nat): seq<T>
    requires i < |parts|
  {
    parts[..i] + parts[i + 1..]
  }

  function Next<T>(s: Store<T>, step: Step<T>): Store<T> {
    match step
    case Put(rows) => s.(buffer := s.buffer + rows)
    case Detach => if s.buffer == [] then s else Store(s.persisted, s.flights + [s.buffer], [])
    case Persist(i) =>
      if i < |s.flights| then Store(s.persisted + s.flights[i], Without(s.flights, i), s.buffer) else s
    case Restore(i) =>
      if i < |s.flights| then Store(s.persisted, Without(s.flights, i), s.flights[i] + s.buffer) else s
    case Drop(i) =>
      if i < |s.flights| then Store(s.persisted, Without(s.flights, i), s.buffer) else s
  }

  /** A run starts from whatever the dataset held when the queue was opened. */
  function StoreAfter<T>(recovered: seq<T>, steps: seq<Step<T>>, n: nat): Store<T>
    requires n <= |steps|
  {
    if n == 0 then Store(recovered, [], []) else Next(StoreAfter(recovered, steps, n - 1), steps[n - 1])
  }

  function Added<T>(step: Step<T>): seq<T> {
    if step.Put? then step.rows else []
  }

  /** The rows that go down with a cancelled flush. */
  function Lost<T>(s: Store<T>, step: Step<T>): seq<T> {
    if step.Drop? && step.flight < |s.flights| then s.flights[step.flight] else []
  }

  function AllLost<T>(recovered: seq<T>, steps: seq<Step<T>>, n: nat): seq<T>
    requires n <= |steps|
  {
    if n == 0 then []
    else AllLost(recovered, steps, n - 1) + Lost(StoreAfter(recovered, steps, n - 1), steps[n - 1])
  }

  /** Everything the dataset held or was ever put, in order. */
  function Puts<T>(recovered: seq<T>, steps: seq<Step<T>>, n: nat): seq<T>
    requires n <= |steps|
  {
    if n == 0 then recovered else Puts(recovered, steps, n - 1) + Added(steps[n - 1])
  }

  /** The rows the queue still answers for: on disk, in flight by age, buffered. */
  function Rows<T>(s: Store<T>): seq<T> {
    s.persisted + Flatten(s.flights) + s.buffer
  }

  predicate FlightsNonEmpty<T>(s: Store<T>) {
    forall i :: 0 <= i < |s.flights| ==> s.flights[i] != []
  }

  /** Completions that keep the queue first-in first-out: store the oldest flight, give back the newest. */
  predicate Orderly<T>(s: Store<T>, step: Step<T>) {
    match step
    case Persist(i) => 0 < i ==> i >= |s.flights|
    case Restore(i) => i + 1 >= |s.flights|
    case Drop(i) => i >= |s.flights|
    case _ => true
  }

  // ---- One step ----

  lemma FlightsAround<T>(flights: seq<seq<T>>, i: nat)
    requires i < |flights|
    ensures Flatten(flights) == Flatten(flights[..i]) + flights[i] + Flatten(flights[i + 1..])
    ensures Flatten(Without(flights, i)) == Flatten(flights[..i]) + Flatten(flights[i + 1..])
  {
    FlattenSplit(flights, i);
    FlattenConcat(flights[..i], flights[i + 1..]);
  }

  lemma RegroupFive<T>(p: seq<T>, o: seq<T>, f: seq<T>, y: seq<T>, b: seq<T>)
    ensures p + (o + f + y) + b == p + o + f + y + b
  {
  }

  lemma RegroupStored<T>(p: seq<T>, o: seq<T>, f: seq<T>, y: seq<T>, b: seq<T>)
    ensures (p + f) + (o + y) + b == p + f + o + y + b
  {
  }

  lemma RegroupRestored<T>(p: seq<T>, o: seq<T>, f: seq<T>, y: seq<T>, b: seq<T>)
    ensures p + (o + y) + (f + b) == p + o + y + f + b
  {
  }

  /** The rows around flight `i`. */
  lemma RowsAround<T>(s: Store<T>, i: nat, older: seq<T>, flight: seq<T>, younger: seq<T>)
    requires i < |s.flights|
    requires older == Flatten(s.flights[..i]) && flight == s.flights[i] && younger == Flatten(s.flights[i + 1..])
    ensures Rows(s) == s.persisted + older + flight + younger + s.buffer
  {
    FlightsAround(s.flights, i);
    RegroupFive(s.persisted, older, flight, younger, s.buffer);
  }

  lemma StoredRows<T>(s: Store<T>, i: nat, older: seq<T>, flight: seq<T>, younger: seq<T>)
    requires i < |s.flights|
    requires older == Flatten(s.flights[..i]) && flight == s.flights[i] && younger == Flatten(s.flights[i + 1..])
    ensures Rows(Next(s, Persist(i))) == s.persisted + flight + older + younger + s.buffer
  {
    FlightsAround(s.flights, i);
    RegroupStored(s.persisted, older, flight, younger, s.buffer);
  }

  lemma RestoredRows<T>(s: Store<T>, i: nat, older: seq<T>, flight: seq<T>, younger: seq<T>)
    requires i < |s.flights|
    requires older == Flatten(s.flights[..i]) && flight == s.flights[i] && younger == Flatten(s.flights[i + 1..])
    ensures Rows(Next(s, Restore(i))) == s.persisted + older + younger + flight + s.buffer
  {
    FlightsAround(s.flights, i);
    RegroupRestored(s.persisted, older, flight, younger, s.buffer);
  }

  lemma DropShrinks<T>(s: Store<T>, i: nat)
    requires i < |s.flights|
    ensures |Rows(Next(s, Drop(i)))| + |s.flights[i]| == |Rows(s)|
  {
    FlightsAround(s.flights, i);
  }

  lemma DetachRows<T>(s: Store<T>)
    ensures Rows(Next(s, Detach)) == Rows(s)
  {
    if s.buffer != [] {
      FlattenSnoc(s.flights, s.buffer);
      assert s.persisted + (Flatten(s.flights) + s.buffer) + [] == Rows(s);
    }
  }

  lemma MultisetConcat<T>(a: seq<T>, b: seq<T>)
    ensures multiset(a + b) == multiset(a) + multiset(b)
  {
  }

  lemma PutRows<T>(s: Store<T>, rows: seq<T>)
    ensures Rows(Next(s, Put(rows))) == Rows(s) + rows
  {
  }

  /** The rows the queue still answers for, order aside. */
  function Content<T>(s: Store<T>): multiset<T> {
    multiset(s.persisted) + multiset(Flatten(s.flights)) + multiset(s.buffer)
  }

  lemma ContentIsRows<T>(s: Store<T>)
    ensures Content(s) == multiset(Rows(s))
  {
    MultisetConcat(s.persisted + Flatten(s.flights), s.buffer);
    MultisetConcat(s.persisted, Flatten(s.flights));
  }

  lemma FlightOut<T>(flights: seq<seq<T>>, i: nat)
    requires i < |flights|
    ensures multiset(Flatten(flights)) == multiset(Flatten(Without(flights, i))) + multiset(flights[i])
  {
    var older, younger := Flatten(flights[..i]), Flatten(flights[i + 1..]);
    FlightsAround(flights, i);
    MultisetConcat(older + flights[i], younger);
    MultisetConcat(older, flights[i]);
    MultisetConcat(older, younger);
  }

  lemma StoreConserves<T>(s: Store<T>, i: nat)
    requires i < |s.flights|
    ensures Content(Next(s, Persist(i))) == Content(s)
  {
    FlightOut(s.flights, i);
    MultisetConcat(s.persisted, s.flights[i]);
  }

  lemma RestoreConserves<T>(s: Store<T>, i: nat)
    requires i < |s.flights|
    ensures Content(Next(s, Restore(i))) == Content(s)
  {
    FlightOut(s.flights, i);
    MultisetConcat(s.flights[i], s.buffer);
  }

  lemma DropConserves<T>(s: Store<T>, i: nat)
    requires i < |s.flights|
    ensures Content(Next(s, Drop(i))) + multiset(s.flights[i]) == Content(s)
  {
    FlightOut(s.flights, i);
  }

  lemma DetachConserves<T>(s: Store<T>)
    ensures Content(Next(s, Detach)) == Content(s)
  {
    FlattenSnoc(s.flights, s.buffer);
    MultisetConcat(Flatten(s.flights), s.buffer);
  }

  lemma PutConserves<T>(s: Store<T>, rows: seq<T>)
    ensures Content(Next(s, Put(rows))) == Content(s) + multiset(rows)
  {
    MultisetConcat(s.buffer, rows);
  }

  /** One step adds what is put and loses what is cancelled, and nothing else. */
  lemma StepConserves<T>(s: Store<T>, step: Step<T>)
    ensures Content(Next(s, step)) + multiset(Lost(s, step)) == Content(s) + multiset(Added(step))
  {
    match step
    case Put(rows) => PutConserves(s, rows);
    case Detach => DetachConserves(s);
    case Persist(i) => if i < |s.flights| { StoreConserves(s, i); }
    case Restore(i) => if i < |s.flights| { RestoreConserves(s, i); }
    case Drop(i) => if i < |s.flights| { DropConserves(s, i); }
  }

  lemma OldestStored<T>(s: Store<T>)
    requires s.flights != []
    ensures Rows(Next(s, Persist(0))) == Rows(s)
  {
    var flight, younger := s.flights[0], Flatten(s.flights[1..]);
    assert s.flights[..0] == [];
    RowsAround(s, 0, [], flight, younger);
    StoredRows(s, 0, [], flight, younger);
    assert s.persisted + [] + flight == s.persisted + flight + [];
  }

  lemma NewestRestored<T>(s: Store<T>)
    requires s.flights != []
    ensures Rows(Next(s, Restore(|s.flights| - 1))) == Rows(s)
  {
    var i := |s.flights| - 1;
    var older, flight := Flatten(s.flights[..i]), s.flights[i];
    assert s.flights[i + 1..] == [];
    RowsAround(s, i, older, flight, []);
    RestoredRows(s, i, older, flight, []);
    assert s.persisted + older + flight + [] == s.persisted + older + [] + flight;
  }

  lemma StepInOrder<T>(s: Store<T>, step: Step<T>)
    requires Orderly(s, step)
    ensures Rows(Next(s, step)) == Rows(s) + Added(step)
  {
    match step
    case Put(rows) => PutRows(s, rows);
    case Detach => DetachRows(s);
    case Persist(i) => if i < |s.flights| { OldestStored(s); }
    case Restore(i) => if i < |s.flights| { NewestRestored(s); }
    case Drop(_) =>
  }

  // ---- Whole runs ----

  lemma RowsAtStart<T>(recovered: seq<T>)
    ensures Rows(Store(recovered, [], [])) == recovered
  {
  }

  /** A store with everything that was put into it and everything it lost. */
  datatype Ledger<T> = Ledger(store: Store<T>, lost: seq<T>, puts: seq<T>)

  function Entry<T>(l: Ledger<T>, step: Step<T>): Ledger<T> {
    Ledger(Next(l.store, step), l.lost + Lost(l.store, step), l.puts + Added(step))
  }

  function LedgerFrom<T>(l: Ledger<T>, steps: seq<Step<T>>): Ledger<T>
    decreases |steps|
  {
    if steps == [] then l else LedgerFrom(Entry(l, steps[0]), steps[1..])
  }

  lemma {:induction false} LedgerSnoc<T>(l: Ledger<T>, steps: seq<Step<T>>, step: Step<T>)
    ensures LedgerFrom(l, steps + [step]) == Entry(LedgerFrom(l, steps), step)
    decreases |steps|
  {
    if steps == [] {
      assert [step][1..] == [] && steps + [step] == [step];
    } else {
      LedgerSnoc(Entry(l, steps[0]), steps[1..], step);
      TailOfConcat(steps, [step]);
    }
  }

  lemma EntryIs<T>(recovered: seq<T>, steps: seq<Step<T>>, n: nat)
    requires 0 < n <= |steps|
    ensures Ledger(StoreAfter(recovered, steps, n), AllLost(recovered, steps, n), Puts(recovered, steps, n))
         == Entry(Ledger(StoreAfter(recovered, steps, n - 1), AllLost(recovered, steps, n - 1),
                         Puts(recovered, steps, n - 1)), steps[n - 1])
  {
  }

  lemma {:induction false} LedgerIs<T>(recovered: seq<T>, steps: seq<Step<T>>, n: nat)
    requires n <= |steps|
    ensures LedgerFrom(Ledger(Store(recovered, [], []), [], recovered), steps[..n])
         == Ledger(StoreAfter(recovered, steps, n), AllLost(recovered, steps, n), Puts(recovered, steps, n))
  {
    if n > 0 {
      LedgerIs(recovered, steps, n - 1);
      TakeNext(steps, n - 1);
      LedgerSnoc(Ledger(Store(recovered, [], []), [], recovered), steps[..n - 1], steps[n - 1]);
      EntryIs(recovered, steps, n);
    }
  }

  ghost predicate Balanced<T>(l: Ledger<T>) {
    Content(l.store) + multiset(l.lost) == multiset(l.puts)
  }

  lemma Balance<T>(rows: multiset<T>, lost: multiset<T>, puts: multiset<T>, next: multiset<T>, dropped: multiset<T>,
                   added: multiset<T>)
    requires rows + lost == puts && next + dropped == rows + added
    ensures next + (lost + dropped) == puts + added
  {
    assert next + (lost + dropped) == (next + dropped) + lost;
    assert (rows + added) + lost == (rows + lost) + added;
  }

  lemma EntryBalances<T>(l: Ledger<T>, step: Step<T>)
    requires Balanced(l)
    ensures Balanced(Entry(l, step))
  {
    var s := l.store;
    StepConserves(s, step);
    MultisetConcat(l.puts, Added(step));
    MultisetConcat(l.lost, Lost(s, step));
    Balance(Content(s), multiset(l.lost), multiset(l.puts), Content(Next(s, step)), multiset(Lost(s, step)),
            multiset(Added(step)));
  }

  lemma StartBalances<T>(recovered: seq<T>)
    ensures Balanced(Ledger(Store(recovered, [], []), [], recovered))
  {
  }

  lemma {:induction false} LedgerBalances<T>(l: Ledger<T>, steps: seq<Step<T>>)
    requires Balanced(l)
    ensures Balanced(LedgerFrom(l, steps))
    decreases |steps|
  {
    if steps != [] {
      EntryBalances(l, steps[0]);
      LedgerBalances(Entry(l, steps[0]), steps[1..]);
    }
  }

  /** In every interleaving of puts, flushes and cancellations, exactly the rows of cancelled flushes are lost. */
  lemma OnlyCancelledRowsAreLost<T>(recovered: seq<T>, steps: seq<Step<T>>, n: nat)
    requires n <= |steps|
    ensures multiset(Rows(StoreAfter(recovered, steps, n))) + multiset(AllLost(recovered, steps, n))
         == multiset(Puts(recovered, steps, n))
  {
    var s := StoreAfter(recovered, steps, n);
    StartBalances(recovered);
    LedgerBalances(Ledger(Store(recovered, [], []), [], recovered), steps[..n]);
    LedgerIs(recovered, steps, n);
    ContentIsRows(s);
  }

  /** The step cancels a flush that is in flight. */
  predicate Cancels<T>(s: Store<T>, step: Step<T>) {
    step.Drop? && step.flight < |s.flights|
  }

  lemma LossNeedsDrop<T>(s: Store<T>, step: Step<T>, before: seq<T>, after: seq<T>)
    requires FlightsNonEmpty(s) && after == before + Lost(s, step)
    ensures after == [] <==> before == [] && !Cancels(s, step)
  {
    if Cancels(s, step) {
      assert |before + Lost(s, step)| > 0;
    } else {
      assert before + [] == before;
    }
  }

  /** No step before `n` cancels a flush in flight. */
  predicate NoneCancelled<T>(recovered: seq<T>, steps: seq<Step<T>>, n: nat)
    requires n <= |steps|
  {
    n == 0 || (NoneCancelled(recovered, steps, n - 1) && !Cancels(StoreAfter(recovered, steps, n - 1), steps[n - 1]))
  }

  lemma {:induction false} LossesNeedDrops<T>(recovered: seq<T>, steps: seq<Step<T>>, n: nat)
    requires n <= |steps|
    ensures AllLost(recovered, steps, n) == [] <==> NoneCancelled(recovered, steps, n)
  {
    if n > 0 {
      LossesNeedDrops(recovered, steps, n - 1);
      FlightsStayNonEmpty(recovered, steps, n - 1);
      LossNeedsDrop(StoreAfter(recovered, steps, n - 1), steps[n - 1], AllLost(recovered, steps, n - 1),
                    AllLost(recovered, steps, n));
    }
  }

  lemma SameSizeNothingMore<T>(rows: seq<T>, lost: seq<T>, puts: multiset<T>)
    requires multiset(rows) + multiset(lost) == puts
    ensures multiset(rows) == puts <==> lost == []
  {
    assert |multiset(rows) + multiset(lost)| == |rows| + |lost|;
    assert |multiset(rows)| == |rows|;
  }

  /** No row is lost or repeated, failing flushes included, exactly when no flush in flight is cancelled. */
  lemma NothingLostOrRepeated<T>(recovered: seq<T>, steps: seq<Step<T>>, n: nat)
    requires n <= |steps|
    ensures multiset(Rows(StoreAfter(recovered, steps, n))) == multiset(Puts(recovered, steps, n)) <==>
            NoneCancelled(recovered, steps, n)
  {
    OnlyCancelledRowsAreLost(recovered, steps, n);
    LossesNeedDrops(recovered, steps, n);
    SameSizeNothingMore(Rows(StoreAfter(recovered, steps, n)), AllLost(recovered, steps, n),
                        multiset(Puts(recovered, steps, n)));
  }

  lemma {:induction false} FlightsStayNonEmpty<T>(recovered: seq<T>, steps: seq<Step<T>>, n: nat)
    requires n <= |steps|
    ensures FlightsNonEmpty(StoreAfter(recovered, steps, n))
  {
    if n > 0 {
      FlightsStayNonEmpty(recovered, steps, n - 1);
    }
  }

  lemma InOrderSoFar<T>(s: Store<T>, step: Step<T>, puts: seq<T>, next: Store<T>, putsNext: seq<T>)
    requires Rows(s) == puts && Orderly(s, step) && next == Next(s, step) && putsNext == puts + Added(step)
    ensures Rows(next) == putsNext
  {
    StepInOrder(s, step);
  }

  /** Every step before `n` is orderly. */
  predicate OrderlyRun<T>(recovered: seq<T>, steps: seq<Step<T>>, n: nat)
    requires n <= |steps|
  {
    n == 0 || (OrderlyRun(recovered, steps, n - 1) && Orderly(StoreAfter(recovered, steps, n - 1), steps[n - 1]))
  }

  /** Orderly completions keep the rows in the order they were put. */
  lemma {:induction false} OrderKept<T>(recovered: seq<T>, steps: seq<Step<T>>, n: nat)
    requires n <= |steps| && OrderlyRun(recovered, steps, n)
    ensures Rows(StoreAfter(recovered, steps, n)) == Puts(recovered, steps, n)
  {
    if n == 0 {
      RowsAtStart(recovered);
    } else {
      OrderKept(recovered, steps, n - 1);
      InOrderSoFar(StoreAfter(recovered, steps, n - 1), steps[n - 1], Puts(recovered, steps, n - 1),
                   StoreAfter(recovered, steps, n), Puts(recovered, steps, n));
    }
  }

  lemma {:induction false} SingleFlightIsOrderly<T>(recovered: seq<T>, steps: seq<Step<T>>, n: nat)
    requires n <= |steps| && NoneCancelled(recovered, steps, n)
    requires forall m :: 0 <= m < n ==> |StoreAfter(recovered, steps, m).flights| <= 1
    ensures OrderlyRun(recovered, steps, n)
  {
    if n > 0 {
      SingleFlightIsOrderly(recovered, steps, n - 1);
    }
  }

  /** With never more than one flush in flight and none cancelled, every run keeps the order. */
  lemma SingleFlightKeepsOrder<T>(recovered: seq<T>, steps: seq<Step<T>>, n: nat)
    requires n <= |steps| && NoneCancelled(recovered, steps, n)
    requires forall m :: 0 <= m < n ==> |StoreAfter(recovered, steps, m).flights| <= 1
    ensures Rows(StoreAfter(recovered, steps, n)) == Puts(recovered, steps, n)
  {
    SingleFlightIsOrderly(recovered, steps, n);
    OrderKept(recovered, steps, n);
  }

  lemma SwapChanges<T>(before: seq<T>, x: seq<T>, y: seq<T>, after: seq<T>)
    requires x != [] && y != [] && Distinct(before + x + y + after)
    ensures before + y + x + after != before + x + y + after
  {
    var whole := before + x + y + after;
    assert whole[|before|] == x[0] && whole[|before| + |x|] == y[0];
    assert (before + y + x + after)[|before|] == y[0];
  }

  lemma FirstFlightCounts<T>(flights: seq<seq<T>>)
    requires flights != [] && flights[0] != []
    ensures Flatten(flights) != []
  {
  }

  lemma YoungerStoredReorders<T>(s: Store<T>, i: nat)
    requires FlightsNonEmpty(s) && Distinct(Rows(s)) && 0 < i < |s.flights|
    ensures Rows(Next(s, Persist(i))) != Rows(s)
  {
    var older, flight, younger := Flatten(s.flights[..i]), s.flights[i], Flatten(s.flights[i + 1..]);
    FirstFlightCounts(s.flights[..i]);
    RowsAround(s, i, older, flight, younger);
    StoredRows(s, i, older, flight, younger);
    Assoc(s.persisted + older + flight, younger, s.buffer);
    Assoc(s.persisted + flight + older, younger, s.buffer);
    SwapChanges(s.persisted, older, flight, younger + s.buffer);
  }

  lemma OlderRestoredReorders<T>(s: Store<T>, i: nat)
    requires FlightsNonEmpty(s) && Distinct(Rows(s)) && i + 1 < |s.flights|
    ensures Rows(Next(s, Restore(i))) != Rows(s)
  {
    var older, flight, younger := Flatten(s.flights[..i]), s.flights[i], Flatten(s.flights[i + 1..]);
    assert s.flights[i + 1..][0] == s.flights[i + 1];
    FirstFlightCounts(s.flights[i + 1..]);
    RowsAround(s, i, older, flight, younger);
    RestoredRows(s, i, older, flight, younger);
    SwapChanges(s.persisted + older, flight, younger, s.buffer);
  }

  /** When rows can be told apart, the orderly steps are exactly the ones that keep the order. */
  lemma OrderKeptExactly<T>(s: Store<T>, step: Step<T>)
    requires FlightsNonEmpty(s) && Distinct(Rows(s))
    ensures Rows(Next(s, step)) == Rows(s) + Added(step) <==> Orderly(s, step)
  {
    if Orderly(s, step) {
      StepInOrder(s, step);
    } else {
      assert Rows(s) + [] == Rows(s);
      if step.Persist? {
        YoungerStoredReorders(s, step.flight);
      } else if step.Restore? {
        OlderRestoredReorders(s, step.flight);
      } else {
        DropShrinks(s, step.flight);
      }
    }
  }

  /**
   How the code runs: nothing comes between detaching the buffer and the attempt to store it, so a flush is
   stored right after its detachment or not at all, and only failed flushes stay in flight.
   */
  predicate StoredAtOnce<T>(recovered: seq<T>, steps: seq<Step<T>>) {
    forall m :: 0 <= m < |steps| && steps[m].Persist? ==>
      0 < m && steps[m - 1].Detach? && steps[m].flight + 1 == |StoreAfter(recovered, steps, m).flights|
  }

  // ---- Runs that go wrong ----

  /** A failed flush is still waiting for the lock when a later one is stored. */
  function Overtaking<T>(a: T, b: T): seq<Step<T>> {
    [Put([a]), Detach, Put([b]), Detach, Persist(1), Restore(0)]
  }

  lemma OvertakingStores<T>(a: T, b: T)
    ensures var steps := Overtaking(a, b);
            && |StoreAfter([], steps, 4).flights| == 2
            && StoreAfter([], steps, 6) == Store([b], [], [a])
  {
    var e, steps := [], Overtaking(a, b);
    assert StoreAfter(e, steps, 1) == Next(StoreAfter(e, steps, 0), steps[0]) == Store([], [], [a]);
    assert StoreAfter(e, steps, 2) == Next(StoreAfter(e, steps, 1), steps[1]) == Store([], [[a]], []);
    assert StoreAfter(e, steps, 3) == Next(StoreAfter(e, steps, 2), steps[2]) == Store([], [[a]], [b]);
    assert StoreAfter(e, steps, 4) == Next(StoreAfter(e, steps, 3), steps[3]) == Store([], [[a], [b]], []);
    assert StoreAfter(e, steps, 5) == Next(StoreAfter(e, steps, 4), steps[4]) == Store([b], [[a]], []);
    assert StoreAfter(e, steps, 6) == Next(StoreAfter(e, steps, 5), steps[5]) == Store([b], [], [a]);
  }

  lemma OvertakingPuts<T>(a: T, b: T)
    ensures Puts([], Overtaking(a, b), 6) == [a, b]
  {
    var e, steps := [], Overtaking(a, b);
    assert Puts(e, steps, 1) == Puts(e, steps, 0) + Added(steps[0]) == [a];
    assert Puts(e, steps, 2) == Puts(e, steps, 1) + Added(steps[1]) == [a];
    assert Puts(e, steps, 3) == Puts(e, steps, 2) + Added(steps[2]) == [a, b];
    assert Puts(e, steps, 4) == Puts(e, steps, 3) + Added(steps[3]) == [a, b];
    assert Puts(e, steps, 5) == Puts(e, steps, 4) + Added(steps[4]) == [a, b];
    assert Puts(e, steps, 6) == Puts(e, steps, 5) + Added(steps[5]) == [a, b];
  }

  /** When a failed flush is overtaken, its rows end up behind. */
  lemma TwoFlightsReorder<T>(a: T, b: T)
    ensures var steps := Overtaking(a, b);
            && StoredAtOnce([], steps)
            && Puts([], steps, |steps|) == [a, b]
            && StoreAfter([], steps, |steps|) == Store([b], [], [a])
  {
    OvertakingStores(a, b);
    OvertakingPuts(a, b);
  }

  /** A flush cancelled while it waits to give its rows back takes them with it. */
  lemma CancelledFlushLoses<T>(a: T) returns (steps: seq<Step<T>>)
    ensures Puts([], steps, |steps|) == [a] && StoreAfter([], steps, |steps|) == Store([], [], [])
  {
    steps := [Put([a]), Detach, Drop(0)];
    var e: seq<T> := [];
    assert StoreAfter(e, steps, 1) == Next(StoreAfter(e, steps, 0), steps[0]) == Store([], [], [a]);
    assert StoreAfter(e, steps, 2) == Next(StoreAfter(e, steps, 1), steps[1]) == Store([], [[a]], []);
    assert StoreAfter(e, steps, 3) == Next(StoreAfter(e, steps, 2), steps[2]) == Store([], [], []);
    assert Puts(e, steps, 1) == Puts(e, steps, 0) + Added(steps[0]) == [a];
    assert Puts(e, steps, 2) == Puts(e, steps, 1) + Added(steps[1]) == [a];
    assert Puts(e, steps, 3) == Puts(e, steps, 2) + Added(steps[2]) == [a];
  }

  // ---- Index assignment ----

  /** `total_count`: rows in flight are counted neither as persisted nor as buffered. */
  function TotalCount<T>(s: Store<T>): nat {
    |s.persisted| + |s.buffer|
  }

  lemma CountMissesFlights<T>(s: Store<T>)
    requires FlightsNonEmpty(s)
    ensures TotalCount(s) <= |Rows(s)|
    ensures TotalCount(s) == |Rows(s)| <==> s.flights == []
  {
    if s.flights != [] {
      FirstFlightCounts(s.flights);
    }
  }

  /**
   In every reachable state, a put that numbers its rows from `TotalCount` on gives them the
   positions they really take exactly when no flush is in flight.
   */
  lemma AssignedIndexIsPosition<T>(recovered: seq<T>, steps: seq<Step<T>>, n: nat, rows: seq<T>)
    requires n <= |steps|
    ensures var s := StoreAfter(recovered, steps, n);
            && Rows(Next(s, Put(rows))) == Rows(s) + rows
            && (TotalCount(s) == |Rows(s)| <==> s.flights == [])
  {
    var s := StoreAfter(recovered, steps, n);
    FlightsStayNonEmpty(recovered, steps, n);
    CountMissesFlights(s);
    PutRows(s, rows);
  }

  /** While a row is in flight, the next put is given the number that row already has. */
  lemma IndexReusedInFlight<T>(a: T) returns (steps: seq<Step<T>>)
    ensures Rows(StoreAfter([], steps, |steps|)) == [a] && TotalCount(StoreAfter([], steps, |steps|)) == 0
  {
    steps := [Put([a]), Detach];
    var e: seq<T> := [];
    assert StoreAfter(e, steps, 1) == Next(StoreAfter(e, steps, 0), steps[0]) == Store([], [], [a]);
    assert StoreAfter(e, steps, 2) == Next(StoreAfter(e, steps, 1), steps[1]) == Store([], [[a]], []);
    FlattenOne([a]);
  }

  lemma {:induction false} PutsGrow<T>(recovered: seq<T>, steps: seq<Step<T>>, m: nat, n: nat)
    requires m <= n <= |steps|
    ensures Puts(recovered, steps, m) <= Puts(recovered, steps, n)
    decreases n - m
  {
    if m < n {
      PutsGrow(recovered, steps, m, n - 1);
    }
  }

  lemma {:induction false} OrderlyPrefix<T>(recovered: seq<T>, steps: seq<Step<T>>, m: nat, n: nat)
    requires m <= n <= |steps| && OrderlyRun(recovered, steps, n)
    ensures OrderlyRun(recovered, steps, m)
    decreases n - m
  {
    if m < n {
      OrderlyPrefix(recovered, steps, m, n - 1);
    }
  }

  /** In an orderly run the rows at one time are a prefix of the rows at any later time. */
  lemma RowsGrow<T>(recovered: seq<T>, steps: seq<Step<T>>, m: nat, n: nat)
    requires m <= n <= |steps| && OrderlyRun(recovered, steps, n)
    ensures Rows(StoreAfter(recovered, steps, m)) <= Rows(StoreAfter(recovered, steps, n))
  {
    OrderlyPrefix(recovered, steps, m, n);
    OrderKept(recovered, steps, m);
    OrderKept(recovered, steps, n);
    PutsGrow(recovered, steps, m, n);
  }

  lemma {:induction false} PutsStay<T>(recovered: seq<T>, steps: seq<Step<T>>, m: nat, n: nat)
    requires m < n <= |steps|
    ensures Puts(recovered, steps, m) + Added(steps[m]) <= Puts(recovered, steps, n)
    decreases n - m
  {
    if m < n - 1 {
      PutsStay(recovered, steps, m, n - 1);
    }
  }

  lemma NumberStands<T>(s: Store<T>, rows: seq<T>, i: nat, before: seq<T>, later: seq<T>)
    requires s.flights == [] && i < |rows| && Rows(s) == before && before + rows <= later
    ensures TotalCount(s) + i < |later| && later[TotalCount(s) + i] == rows[i]
  {
    NumberedRow(s, rows, i, later);
  }

  lemma NumberedRow<T>(s: Store<T>, rows: seq<T>, i: nat, later: seq<T>)
    requires s.flights == [] && i < |rows| && Rows(s) + rows <= later
    ensures TotalCount(s) + i < |later| && later[TotalCount(s) + i] == rows[i]
  {
    assert |Rows(s)| == TotalCount(s);
    assert (Rows(s) + rows)[|Rows(s)| + i] == rows[i];
  }

  /** In an orderly run a row numbered with nothing in flight keeps that number as its position for good. */
  lemma NumberStaysRight<T>(recovered: seq<T>, steps: seq<Step<T>>, m: nat, n: nat, i: nat)
    requires m < n <= |steps| && OrderlyRun(recovered, steps, n)
    requires steps[m].Put? && i < |steps[m].rows| && StoreAfter(recovered, steps, m).flights == []
    ensures TotalCount(StoreAfter(recovered, steps, m)) + i < |Rows(StoreAfter(recovered, steps, n))|
    ensures Rows(StoreAfter(recovered, steps, n))[TotalCount(StoreAfter(recovered, steps, m)) + i] == steps[m].rows[i]
  {
    OrderlyPrefix(recovered, steps, m, n);
    OrderKept(recovered, steps, m);
    OrderKept(recovered, steps, n);
    PutsStay(recovered, steps, m, n);
    NumberStands(StoreAfter(recovered, steps, m), steps[m].rows, i, Puts(recovered, steps, m),
                 Puts(recovered, steps, n));
  }
}
