/**
 Sequence numbers of captured records, per storage key. Appending threads share one
 counter cell per key behind its own mutex; the counter moves only after the callback has
 accepted the record. Any number of threads take these steps in any order:
 fetch the cell, lock it, get the callback's verdict, advance and unlock.
 */
module SequenceSink {
  import opened Basics

  datatype Phase =
    | Idle
    | Fetched(key: string)
    | Calling(key: string, number: U64)
    | Accepted(key: string, number: U64)

  /** A counter and the thread that holds its mutex. */
  datatype Cell = Cell(next: U64, holder: Option<nat>)

  datatype Record = Record(key: string, number: U64)

  /** `accepted` lists the records the callback took, in the order it took them. */
  datatype Sink = Sink(cells: map<string, Cell>, phases: map<nat, Phase>, accepted: seq<Record>)

  datatype Step =
    | Fetch(thread: nat, key: string)
    | Lock(thread: nat)
    | Accept(thread: nat)
    | Reject(thread: nat)
    | Advance(thread: nat)

  const EMPTY := Sink(map[], map[], [])

  function PhaseOf(s: Sink, thread: nat): Phase {
    if thread in s.phases then s.phases[thread] else Idle
  }

  /** A step that its thread cannot take changes nothing; in particular a held mutex is waited for. */
  function Next(s: Sink, step: Step): Sink {
    var t := step.thread;
    match (step, PhaseOf(s, t))
    case (Fetch(_, key), Idle) =>
      s.(cells := if key in s.cells then s.cells else s.cells[key := Cell(0, None)],
         phases := s.phases[t := Fetched(key)])
    case (Lock(_), Fetched(key)) =>
      if key !in s.cells || s.cells[key].holder.Some? then s
      else if s.cells[key].next == U64_MAX then s.(phases := s.phases[t := Idle])
      else s.(cells := s.cells[key := s.cells[key].(holder := Some(t))],
              phases := s.phases[t := Calling(key, s.cells[key].next)])
    case (Accept(_), Calling(key, number)) =>
      s.(phases := s.phases[t := Accepted(key, number)], accepted := s.accepted + [Record(key, number)])
    case (Reject(_), Calling(key, _)) =>
      if key !in s.cells then s
      else s.(cells := s.cells[key := s.cells[key].(holder := None)], phases := s.phases[t := Idle])
    case (Advance(_), Accepted(key, number)) =>
      if number == U64_MAX then s
      else s.(cells := s.cells[key := Cell(number + 1, None)], phases := s.phases[t := Idle])
    case _ => s
  }

  function SinkAfter(steps: seq<Step>, n: nat): Sink
    requires n <= |steps|
  {
    if n == 0 then EMPTY else Next(SinkAfter(steps, n - 1), steps[n - 1])
  }

  /** The numbers accepted under a key, in order of acceptance. */
  function Numbers(accepted: seq<Record>, key: string): seq<int> {
    if accepted == [] then []
    else
      var last := accepted[|accepted| - 1];
      Numbers(accepted[..|accepted| - 1], key) + if last.key == key then [last.number] else []
  }

  function UpTo(n: nat): seq<int> {
    seq(n, i requires 0 <= i => i)
  }

  predicate Holds(phase: Phase, key: string) {
    (phase.Calling? || phase.Accepted?) && phase.key == key
  }

  /** Accepted but not yet counted. */
  function Pending(s: Sink, key: string): nat {
    if key in s.cells && s.cells[key].holder.Some? && PhaseOf(s, s.cells[key].holder.value).Accepted? then 1 else 0
  }

  /** What ties the mutex, the threads, the counter and the accepted records of one key together. */
  predicate KeyInvariant(s: Sink, key: string) {
    if key !in s.cells then
      && Numbers(s.accepted, key) == []
      && forall t :: t in s.phases ==> !Holds(s.phases[t], key)
    else
      var cell := s.cells[key];
      && (forall t :: t in s.phases && Holds(s.phases[t], key) ==>
            cell.holder == Some(t) && s.phases[t].number == cell.next && cell.next < U64_MAX)
      && (cell.holder.Some? ==> cell.holder.value in s.phases && Holds(s.phases[cell.holder.value], key))
      && Numbers(s.accepted, key) == UpTo(cell.next + Pending(s, key))
  }

  lemma NumbersSnoc(accepted: seq<Record>, record: Record, key: string)
    ensures Numbers(accepted + [record], key) ==
            Numbers(accepted, key) + if record.key == key then [record.number] else []
  {
    assert (accepted + [record])[..|accepted|] == accepted;
  }

  lemma FetchKeepsKey(s: Sink, t: nat, fetched: string, key: string)
    requires KeyInvariant(s, key)
    ensures KeyInvariant(Next(s, Fetch(t, fetched)), key)
  {
    if PhaseOf(s, t).Idle? {
      var after := Next(s, Fetch(t, fetched));
      assert forall u :: u in after.phases && Holds(after.phases[u], key) ==> u in s.phases && u != t;
      assert key in after.cells && key !in s.cells ==> after.cells[key] == Cell(0, None);
    }
  }

  lemma LockKeepsKey(s: Sink, t: nat, key: string)
    requires KeyInvariant(s, key)
    ensures KeyInvariant(Next(s, Lock(t)), key)
  {
  }

  lemma AcceptOwn(s: Sink, t: nat, key: string)
    requires KeyInvariant(s, key) && Holds(PhaseOf(s, t), key) && PhaseOf(s, t).Calling?
    ensures KeyInvariant(Next(s, Accept(t)), key)
  {
    var phase, after := PhaseOf(s, t), Next(s, Accept(t));
    assert Holds(s.phases[t], key);
    assert after.cells == s.cells && s.cells[key].holder == Some(t);
    NumbersSnoc(s.accepted, Record(phase.key, phase.number), key);
    assert Pending(s, key) == 0 && Pending(after, key) == 1;
    assert UpTo(phase.number) + [phase.number] == UpTo(phase.number + 1);
  }

  /** A step under another key changes nothing that the invariant of this key speaks of. */
  lemma OtherKeepsKey(s: Sink, step: Step, key: string)
    requires KeyInvariant(s, key) && !Concerns(s, step, key)
    ensures KeyInvariant(Next(s, step), key)
  {
    var after := Next(s, step);
    OtherCellSame(s, step, key);
    OtherNumbersSame(s, step, key);
    OtherHoldersSame(s, step, key);
  }

  lemma OtherHoldersSame(s: Sink, step: Step, key: string)
    requires KeyInvariant(s, key) && !Concerns(s, step, key)
    ensures var after := Next(s, step);
            && Pending(after, key) == Pending(s, key)
            && (forall t: nat :: t in after.phases && Holds(after.phases[t], key) <==>
                                 t in s.phases && Holds(s.phases[t], key))
            && (forall t: nat :: t in s.phases && Holds(s.phases[t], key) ==> after.phases[t] == s.phases[t])
  {
    OtherCellSame(s, step, key);
    forall t: nat
      ensures t != step.thread ==> PhaseOf(Next(s, step), t) == PhaseOf(s, t)
    {
      if t != step.thread {
        OthersWait(s, step, t);
      }
    }
  }

  lemma AcceptKeepsKey(s: Sink, t: nat, key: string)
    requires KeyInvariant(s, key)
    ensures KeyInvariant(Next(s, Accept(t)), key)
  {
    if PhaseOf(s, t).Calling? {
      if PhaseOf(s, t).key == key {
        AcceptOwn(s, t, key);
      } else {
        OtherKeepsKey(s, Accept(t), key);
      }
    }
  }

  lemma RejectKeepsKey(s: Sink, t: nat, key: string)
    requires KeyInvariant(s, key)
    ensures KeyInvariant(Next(s, Reject(t)), key)
  {
    if PhaseOf(s, t).Calling? && PhaseOf(s, t).key == key {
      assert Holds(s.phases[t], key);
    }
  }

  lemma AdvanceKeepsKey(s: Sink, t: nat, key: string)
    requires KeyInvariant(s, key)
    ensures KeyInvariant(Next(s, Advance(t)), key)
  {
    if PhaseOf(s, t).Accepted? && PhaseOf(s, t).key == key {
      assert Holds(s.phases[t], key);
    }
  }

  lemma StepKeepsKey(s: Sink, step: Step, key: string)
    requires KeyInvariant(s, key)
    ensures KeyInvariant(Next(s, step), key)
  {
    match step
    case Fetch(t, fetched) => FetchKeepsKey(s, t, fetched, key);
    case Lock(t) => LockKeepsKey(s, t, key);
    case Accept(t) => AcceptKeepsKey(s, t, key);
    case Reject(t) => RejectKeepsKey(s, t, key);
    case Advance(t) => AdvanceKeepsKey(s, t, key);
  }

  lemma {:induction false} KeyInvariantHolds(steps: seq<Step>, n: nat, key: string)
    requires n <= |steps|
    ensures KeyInvariant(SinkAfter(steps, n), key)
  {
    if n > 0 {
      KeyInvariantHolds(steps, n - 1, key);
      StepKeepsKey(SinkAfter(steps, n - 1), steps[n - 1], key);
    }
  }

  /**
   In every interleaving and for every pattern of acceptance and rejection, the records accepted
   under a key are numbered 0, 1, 2, ... in the order of their acceptance.
   */
  lemma AcceptedWithoutGaps(steps: seq<Step>, n: nat, key: string)
    requires n <= |steps|
    ensures var numbers := Numbers(SinkAfter(steps, n).accepted, key);
            numbers == UpTo(|numbers|)
  {
    KeyInvariantHolds(steps, n, key);
  }

  /** Every callback, also one that will reject, sees the number of records accepted before under its key. */
  lemma CallbackSeesCount(steps: seq<Step>, n: nat, thread: nat)
    requires n <= |steps| && PhaseOf(SinkAfter(steps, n), thread).Calling?
    ensures var s := SinkAfter(steps, n);
            PhaseOf(s, thread).number == |Numbers(s.accepted, PhaseOf(s, thread).key)|
  {
    var s := SinkAfter(steps, n);
    KeyInvariantHolds(steps, n, PhaseOf(s, thread).key);
    assert Holds(s.phases[thread], PhaseOf(s, thread).key);
  }

  /** At most one thread is between lock and unlock of a key. */
  lemma OneCallPerKey(steps: seq<Step>, n: nat, key: string, t: nat, u: nat)
    requires n <= |steps|
    requires Holds(PhaseOf(SinkAfter(steps, n), t), key) && Holds(PhaseOf(SinkAfter(steps, n), u), key)
    ensures t == u
  {
    KeyInvariantHolds(steps, n, key);
  }

  /** `peek_next_seq`: it waits for the mutex, so it never reads while an append of the key is in progress. */
  function Peek(s: Sink, key: string): Option<U64> {
    if key !in s.cells then Some(0)
    else if s.cells[key].holder.Some? then None
    else Some(s.cells[key].next)
  }

  /** Whenever a peek returns, it returns the number of records accepted under the key. */
  lemma PeekIsCount(steps: seq<Step>, n: nat, key: string)
    requires n <= |steps|
    ensures var s := SinkAfter(steps, n);
            && (Peek(s, key).None? <==> exists t :: t in s.phases && Holds(s.phases[t], key))
            && (Peek(s, key).Some? ==> Peek(s, key).value == |Numbers(s.accepted, key)|)
  {
    KeyInvariantHolds(steps, n, key);
  }

  /** A rejected append leaves the key as it was before the lock, so the next one reuses the number. */
  lemma RejectionLeavesNoGap(s: Sink, thread: nat, key: string)
    requires PhaseOf(s, thread) == Fetched(key)
    requires key in s.cells && s.cells[key].holder.None? && s.cells[key].next < U64_MAX
    ensures var after := Next(Next(s, Lock(thread)), Reject(thread));
            after.cells == s.cells && after.accepted == s.accepted && PhaseOf(after, thread) == Idle
  {
    var locked := Next(s, Lock(thread));
    assert PhaseOf(locked, thread) == Calling(key, s.cells[key].next);
    assert s.cells[key].(holder := None) == s.cells[key];
  }

  // ---- Keys do not interfere ----

  /** The step belongs to an append under `key`. */
  predicate Concerns(s: Sink, step: Step, key: string) {
    var phase := PhaseOf(s, step.thread);
    if phase.Idle? then step.Fetch? && step.key == key else phase.key == key
  }

  /** The same run with the steps of all other keys left out. */
  function AloneAfter(steps: seq<Step>, n: nat, key: string): Sink
    requires n <= |steps|
  {
    if n == 0 then EMPTY
    else
      var before := AloneAfter(steps, n - 1, key);
      if Concerns(SinkAfter(steps, n - 1), steps[n - 1], key) then Next(before, steps[n - 1]) else before
  }

  predicate WorksOn(phase: Phase, key: string) {
    !phase.Idle? && phase.key == key
  }

  /** Seen from one key, two sinks are the same. */
  ghost predicate SameFor(s: Sink, alone: Sink, key: string) {
    && (key in s.cells <==> key in alone.cells)
    && (key in s.cells ==> s.cells[key] == alone.cells[key])
    && Numbers(s.accepted, key) == Numbers(alone.accepted, key)
    && forall t: nat :: PhaseOf(alone, t) == if WorksOn(PhaseOf(s, t), key) then PhaseOf(s, t) else Idle
  }

  lemma OwnCellSame(s: Sink, alone: Sink, step: Step, key: string)
    requires SameFor(s, alone, key) && Concerns(s, step, key)
    ensures var after, next := Next(s, step), Next(alone, step);
            && (key in after.cells <==> key in next.cells)
            && (key in after.cells ==> after.cells[key] == next.cells[key])
            && PhaseOf(after, step.thread) == PhaseOf(next, step.thread)
            && (PhaseOf(after, step.thread).Idle? || PhaseOf(after, step.thread).key == key)
  {
    assert PhaseOf(alone, step.thread) == PhaseOf(s, step.thread);
  }

  /** Only an accepting callback adds a record. */
  lemma AcceptedNext(s: Sink, step: Step)
    ensures var phase := PhaseOf(s, step.thread);
            Next(s, step).accepted
            == s.accepted + if step.Accept? && phase.Calling? then [Record(phase.key, phase.number)] else []
  {
    assert s.accepted + [] == s.accepted;
  }

  lemma OwnNumbersSame(s: Sink, alone: Sink, step: Step, key: string)
    requires SameFor(s, alone, key) && Concerns(s, step, key)
    ensures Numbers(Next(s, step).accepted, key) == Numbers(Next(alone, step).accepted, key)
  {
    var phase := PhaseOf(s, step.thread);
    assert PhaseOf(alone, step.thread) == phase;
    AcceptedNext(s, step);
    AcceptedNext(alone, step);
    if step.Accept? && phase.Calling? {
      NumbersSnoc(s.accepted, Record(phase.key, phase.number), key);
      NumbersSnoc(alone.accepted, Record(phase.key, phase.number), key);
    } else {
      assert s.accepted + [] == s.accepted && alone.accepted + [] == alone.accepted;
    }
  }

  lemma OthersWait(s: Sink, step: Step, u: nat)
    requires u != step.thread
    ensures PhaseOf(Next(s, step), u) == PhaseOf(s, u)
  {
  }

  lemma OwnStepSame(s: Sink, alone: Sink, step: Step, key: string)
    requires SameFor(s, alone, key) && Concerns(s, step, key)
    ensures SameFor(Next(s, step), Next(alone, step), key)
  {
    var after, next := Next(s, step), Next(alone, step);
    OwnCellSame(s, alone, step, key);
    OwnNumbersSame(s, alone, step, key);
    forall t: nat
      ensures PhaseOf(next, t) == if WorksOn(PhaseOf(after, t), key) then PhaseOf(after, t) else Idle
    {
      if t != step.thread {
        OthersWait(s, step, t);
        OthersWait(alone, step, t);
      }
    }
  }

  lemma OtherCellSame(s: Sink, step: Step, key: string)
    requires !Concerns(s, step, key)
    ensures var after := Next(s, step);
            && (key in after.cells <==> key in s.cells)
            && (key in s.cells ==> after.cells[key] == s.cells[key])
            && !WorksOn(PhaseOf(s, step.thread), key) && !WorksOn(PhaseOf(after, step.thread), key)
  {
  }

  lemma OtherNumbersSame(s: Sink, step: Step, key: string)
    requires !Concerns(s, step, key)
    ensures Numbers(Next(s, step).accepted, key) == Numbers(s.accepted, key)
  {
    var phase := PhaseOf(s, step.thread);
    if step.Accept? && phase.Calling? {
      NumbersSnoc(s.accepted, Record(phase.key, phase.number), key);
    }
  }

  lemma OtherStepSame(s: Sink, alone: Sink, step: Step, key: string)
    requires SameFor(s, alone, key) && !Concerns(s, step, key)
    ensures SameFor(Next(s, step), alone, key)
  {
    var after := Next(s, step);
    OtherCellSame(s, step, key);
    OtherNumbersSame(s, step, key);
    forall t: nat
      ensures PhaseOf(alone, t) == if WorksOn(PhaseOf(after, t), key) then PhaseOf(after, t) else Idle
    {
      if t != step.thread {
        OthersWait(s, step, t);
      }
    }
  }

  /**
   What happens under a key is what would happen if nothing else did: leaving out every step under other keys
   gives the same counter, the same accepted numbers and the same threads at work on it.
   */
  lemma {:induction false} OtherKeysHaveNoEffect(steps: seq<Step>, n: nat, key: string)
    requires n <= |steps|
    ensures SameFor(SinkAfter(steps, n), AloneAfter(steps, n, key), key)
  {
    if n > 0 {
      OtherKeysHaveNoEffect(steps, n - 1, key);
      var s, alone := SinkAfter(steps, n - 1), AloneAfter(steps, n - 1, key);
      if Concerns(s, steps[n - 1], key) {
        OwnStepSame(s, alone, steps[n - 1], key);
      } else {
        OtherStepSame(s, alone, steps[n - 1], key);
      }
    }
  }

  // ---- Progress ----

  /** The steps of one append that its callback accepts, or rejects. */
  function Append(s: Sink, thread: nat, key: string, accepts: bool): Sink {
    var called := Next(Next(s, Fetch(thread, key)), Lock(thread));
    if accepts then Next(Next(called, Accept(thread)), Advance(thread)) else Next(called, Reject(thread))
  }

  lemma AppendCalls(s: Sink, thread: nat, key: string, count: U64)
    requires PhaseOf(s, thread).Idle? && Peek(s, key) == Some(count) && count < U64_MAX
    ensures var called := Next(Next(s, Fetch(thread, key)), Lock(thread));
            && PhaseOf(called, thread) == Calling(key, count) && called.accepted == s.accepted
            && key in called.cells && called.cells[key] == Cell(count, Some(thread))
  {
  }

  /**
   In every reachable state, an idle thread that finds a key unlocked with `count` records can append: if the callback
   accepts, the record numbered `count` is added, the key is unlocked again and counts one more; if it rejects, the
   count stays. Either way the thread is idle again.
   */
  lemma AppendCounts(steps: seq<Step>, n: nat, thread: nat, key: string, count: U64, accepts: bool)
    requires n <= |steps| && PhaseOf(SinkAfter(steps, n), thread).Idle?
    requires Peek(SinkAfter(steps, n), key) == Some(count) && count < U64_MAX
    ensures var s := SinkAfter(steps, n);
            var after := Append(s, thread, key, accepts);
            && count == |Numbers(s.accepted, key)| && PhaseOf(after, thread).Idle?
            && Peek(after, key) == Some(if accepts then count + 1 else count)
            && after.accepted == s.accepted + if accepts then [Record(key, count)] else []
  {
    var s := SinkAfter(steps, n);
    PeekIsCount(steps, n, key);
    AppendCalls(s, thread, key, count);
    AcceptedOrNot(Next(Next(s, Fetch(thread, key)), Lock(thread)), thread, key, count);
    assert s.accepted + [] == s.accepted;
  }

  lemma AcceptedOrNot(called: Sink, thread: nat, key: string, count: U64)
    requires PhaseOf(called, thread) == Calling(key, count) && count < U64_MAX
    requires key in called.cells && called.cells[key] == Cell(count, Some(thread))
    ensures var after := Next(Next(called, Accept(thread)), Advance(thread));
            && PhaseOf(after, thread).Idle? && Peek(after, key) == Some(count + 1)
            && after.accepted == called.accepted + [Record(key, count)]
    ensures var after := Next(called, Reject(thread));
            && PhaseOf(after, thread).Idle? && Peek(after, key) == Some(count) && after.accepted == called.accepted
  {
  }

  /** A key whose numbers have run out takes no more records; the append gives up and leaves it unlocked. */
  lemma ExhaustedKeyRefuses(steps: seq<Step>, n: nat, thread: nat, key: string)
    requires n <= |steps| && PhaseOf(SinkAfter(steps, n), thread).Idle?
    requires Peek(SinkAfter(steps, n), key) == Some(U64_MAX)
    ensures var s := SinkAfter(steps, n);
            var after := Next(Next(s, Fetch(thread, key)), Lock(thread));
            PhaseOf(after, thread).Idle? && Peek(after, key) == Some(U64_MAX) && after.accepted == s.accepted
  {
  }

  /** No key stays locked: in every reachable state its holder can finish by itself, and then the key is unlocked. */
  lemma HolderCanFinish(steps: seq<Step>, n: nat, key: string, holder: nat)
    requires n <= |steps| && key in SinkAfter(steps, n).cells
    requires SinkAfter(steps, n).cells[key].holder == Some(holder)
    ensures var s := SinkAfter(steps, n);
            var after := if PhaseOf(s, holder).Calling? then Next(s, Reject(holder)) else Next(s, Advance(holder));
            && Peek(after, key) == Some(|Numbers(s.accepted, key)|) && PhaseOf(after, holder).Idle?
            && after.accepted == s.accepted
  {
    KeyInvariantHolds(steps, n, key);
    HolderFinishes(SinkAfter(steps, n), key, holder);
  }

  lemma HolderFinishes(s: Sink, key: string, holder: nat)
    requires KeyInvariant(s, key) && key in s.cells && s.cells[key].holder == Some(holder)
    ensures var after := if PhaseOf(s, holder).Calling? then Next(s, Reject(holder)) else Next(s, Advance(holder));
            && Peek(after, key) == Some(|Numbers(s.accepted, key)|) && PhaseOf(after, holder).Idle?
            && after.accepted == s.accepted
  {
    assert Holds(s.phases[holder], key);
    assert |Numbers(s.accepted, key)| == s.cells[key].next + Pending(s, key);
  }
}
