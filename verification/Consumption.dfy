/**
 Handing out indexes to the consumers of a task. A `get_meta` call counts the rows and reads the ready list in one
 lock hold and marks its choice in a later one, so calls may overlap, and what a call counts leaves out rows in flight.
 */
module Consumption {
  import opened Sequences
  import F = FlushProtocol
  import L = LanceLog
  import R = FlightReads

  /**
   What reaches the consumed sets: indexes are marked by hand, and a call that counted `total` rows just before step
   `begin` marks what it sampled.
   */
  datatype Step =
    | Mark(task: string, indexes: set<int>)
    | Finish(begin: nat, total: nat, task: string, sampled: seq<int>)

  function Marked(step: Step, task: string): set<int> {
    match step
    case Mark(t, indexes) => if t == task then indexes else {}
    case Finish(_, _, t, sampled) => if t == task then set x | x in sampled else {}
  }

  function ConsumedAt(steps: seq<Step>, n: nat, task: string): set<int>
    requires n <= |steps|
  {
    if n == 0 then {} else ConsumedAt(steps, n - 1, task) + Marked(steps[n - 1], task)
  }

  /** A finished call sampled from the ready list it had read. */
  predicate Honest(steps: seq<Step>, i: nat)
    requires i < |steps|
  {
    steps[i].Finish? ==>
      && steps[i].begin <= i
      && forall x :: x in steps[i].sampled ==>
           x in L.Ready(steps[i].total, ConsumedAt(steps, steps[i].begin, steps[i].task))
  }

  /** Call `j` of a task begins after call `i` of that task has finished. */
  predicate Later(steps: seq<Step>, i: nat, j: nat) {
    && i < j < |steps| && steps[i].Finish? && steps[j].Finish?
    && steps[i].task == steps[j].task && i < steps[j].begin
  }

  lemma {:induction false} ConsumedIsMarked(steps: seq<Step>, n: nat, task: string, x: int)
    requires n <= |steps|
    ensures x in ConsumedAt(steps, n, task) <==> exists m :: 0 <= m < n && x in Marked(steps[m], task)
  {
    if n > 0 {
      ConsumedIsMarked(steps, n - 1, task, x);
    }
  }

  /** An index is ready for a call exactly when the call counted its row and no step before the call marked it. */
  lemma ReadyExactly(steps: seq<Step>, b: nat, total: nat, task: string, x: int)
    requires b <= |steps|
    ensures x in L.Ready(total, ConsumedAt(steps, b, task)) <==>
            0 <= x < total && forall m :: 0 <= m < b ==> x !in Marked(steps[m], task)
  {
    L.ReadyIsUnconsumed(total, ConsumedAt(steps, b, task));
    ConsumedIsMarked(steps, b, task, x);
  }

  /**
   In every interleaving, a call that starts after another of its task has finished shares no index
   with it, whatever else goes on and however the two choose among their ready lists.
   */
  lemma LaterCallsShareNothing(steps: seq<Step>, i: nat, j: nat)
    requires Later(steps, i, j) && Honest(steps, j)
    ensures forall x :: x in steps[i].sampled ==> x !in steps[j].sampled
  {
    var begin, task := steps[j].begin, steps[j].task;
    forall x | x in steps[i].sampled
      ensures x !in steps[j].sampled
    {
      assert x in Marked(steps[i], task);
      ReadyExactly(steps, begin, steps[j].total, task, x);
    }
  }

  // ---- Exactly when an index can be shared ----

  lemma {:induction false} EarlierStepsDecide(steps: seq<Step>, more: seq<Step>, n: nat, task: string)
    requires n <= |steps|
    ensures ConsumedAt(steps + more, n, task) == ConsumedAt(steps, n, task)
  {
    if n > 0 {
      EarlierStepsDecide(steps, more, n - 1, task);
      assert (steps + more)[n - 1] == steps[n - 1];
    }
  }

  /** Any run can go on with a call that began at `b` and hands out `x`, exactly when `x` was ready for it. */
  lemma CanHandOutExactly(steps: seq<Step>, b: nat, total: nat, task: string, x: int)
    requires b <= |steps|
    ensures Honest(steps + [Finish(b, total, task, [x])], |steps|) <==>
            0 <= x < total && forall m :: 0 <= m < b ==> x !in Marked(steps[m], task)
  {
    var call := Finish(b, total, task, [x]);
    EarlierStepsDecide(steps, [call], b, task);
    ReadyExactly(steps, b, total, task, x);
    assert (steps + [call])[|steps|] == call && x in call.sampled;
  }

  /**
   Overlap is what it takes to share: an index that call `i`, and nothing else, has marked can be handed out again to
   a call of the same task exactly when that call began no later than call `i` finished and counted the row.
   */
  lemma SharedExactlyOnOverlap(steps: seq<Step>, i: nat, b: nat, total: nat, x: int)
    requires i < |steps| && b <= |steps| && steps[i].Finish? && x in steps[i].sampled
    requires forall m :: 0 <= m < |steps| && x in Marked(steps[m], steps[i].task) ==> m == i
    ensures Honest(steps + [Finish(b, total, steps[i].task, [x])], |steps|) <==> b <= i && 0 <= x < total
  {
    CanHandOutExactly(steps, b, total, steps[i].task, x);
    assert x in Marked(steps[i], steps[i].task);
  }

  /** Calls that overlap can hand out the same index. */
  lemma OverlappingCallsCanShare(task: string) returns (steps: seq<Step>)
    ensures |steps| == 2 && Honest(steps, 0) && Honest(steps, 1)
    ensures steps[0] == steps[1] == Finish(0, 1, task, [0])
  {
    steps := [Finish(0, 1, task, [0]), Finish(0, 1, task, [0])];
    L.ReadyIsUnconsumed(1, {});
  }

  // ---- Rows ----

  /** The call counted the rows of the queue as it stood at a moment of its run. */
  predicate Counted<T>(call: Step, recovered: seq<T>, queue: seq<F.Step<T>>, moment: nat)
    requires moment <= |queue|
  {
    call.Finish? && call.total == F.TotalCount(F.StoreAfter(recovered, queue, moment))
  }

  /**
   In an orderly run of the queue, calls that do not overlap share no row either, provided each row is readable when
   it is read: the rows read are those put at two different positions.
   */
  lemma LaterCallsShareNoRow<T>(recovered: seq<T>, queue: seq<F.Step<T>>, steps: seq<Step>, i: nat, j: nat,
                                x: int, y: int, readX: nat, readY: nat)
    requires Later(steps, i, j) && Honest(steps, j) && x in steps[i].sampled && y in steps[j].sampled
    requires readX <= |queue| && readY <= |queue| && F.OrderlyRun(recovered, queue, |queue|)
    requires R.Readable(F.StoreAfter(recovered, queue, readX), x)
    requires R.Readable(F.StoreAfter(recovered, queue, readY), y)
    ensures x != y && x < |F.Puts(recovered, queue, |queue|)| && y < |F.Puts(recovered, queue, |queue|)|
    ensures R.Visible(F.StoreAfter(recovered, queue, readX))[x] == F.Puts(recovered, queue, |queue|)[x]
    ensures R.Visible(F.StoreAfter(recovered, queue, readY))[y] == F.Puts(recovered, queue, |queue|)[y]
    ensures Distinct(F.Puts(recovered, queue, |queue|)) ==>
              R.Visible(F.StoreAfter(recovered, queue, readX))[x] != R.Visible(F.StoreAfter(recovered, queue, readY))[y]
  {
    LaterCallsShareNothing(steps, i, j);
    R.ReadableIsPut(recovered, queue, readX, |queue|, x);
    R.ReadableIsPut(recovered, queue, readY, |queue|, y);
  }

  lemma ReadyAfterOne(task: string)
    ensures var steps := [Finish(0, 1, task, [0]), Finish(1, 2, task, [1])];
            Honest(steps, 0) && Honest(steps, 1) && Later(steps, 0, 1)
  {
    var steps := [Finish(0, 1, task, [0]), Finish(1, 2, task, [1])];
    ReadyExactly(steps, 0, 1, task, 0);
    ReadyExactly(steps, 1, 2, task, 1);
  }

  /**
   Read at the wrong moment, one row goes to two calls that do not overlap, and another to none: index 0 is read as
   row b while row a is in flight, and index 1 is row b once a is back.
   */
  lemma RowSharedInFlight<T>(a: T, b: T, task: string)
    ensures var queue, steps := R.ComingBack(a, b), [Finish(0, 1, task, [0]), Finish(1, 2, task, [1])];
            && Honest(steps, 0) && Honest(steps, 1) && Later(steps, 0, 1)
            && Counted(steps[0], [], queue, 3) && Counted(steps[1], [], queue, 4)
            && F.Puts([], queue, 4) == [a, b]
            && R.Visible(F.StoreAfter([], queue, 3)) == [b] && R.Visible(F.StoreAfter([], queue, 4)) == [a, b]
  {
    ReadyAfterOne(task);
    R.ComingBackStores(a, b);
    R.ComingBackPuts(a, b);
    var none: seq<T> := [];
    assert none + [b] == [b] && none + [a, b] == [a, b];
  }
}
