/**
 Streams over a log that may change between batches: what a stream delivers, given the log as it finds it on each
 turn of its loop.
 */
module Streams {
  import opened Sequences

  lemma SliceExtends<T>(s: seq<T>, pos: nat, a: nat, b: nat)
    requires a == 0 || pos + a <= |s|
    ensures Slice(s, pos, a) + Slice(s, pos + a, b) == Slice(s, pos, a + b)
  {
  }

  lemma SliceToEnd<T>(s: seq<T>, offset: nat, count: nat, limit: nat)
    requires offset + count >= |s| && count <= limit
    ensures Slice(s, offset, count) == Slice(s, offset, limit)
  {
  }

  lemma SliceOfPrefix<T>(s: seq<T>, t: seq<T>, pos: nat, k: nat)
    requires s <= t
    ensures Slice(s, pos, k) == Slice(t, pos, |Slice(s, pos, k)|)
    ensures |Slice(s, pos, k)| <= k
    ensures Slice(s, pos, k) != [] ==> pos + |Slice(s, pos, k)| <= |t|
  {
  }

  /** One batch of a stream that has `remaining` rows left to deliver and stands at `pos`. */
  function Pull<T>(log: seq<T>, pos: nat, remaining: nat): (batch: seq<T>)
    ensures |batch| <= remaining
  {
    Slice(log, pos, Min(remaining, 100))
  }

  /** A batch is as long as the request, the batch size of a hundred and the rest of the log allow. */
  lemma PullFills<T>(log: seq<T>, pos: nat, remaining: nat)
    ensures |Pull(log, pos, remaining)| == Min(Min(remaining, 100), if pos < |log| then |log| - pos else 0)
  {
  }

  /** The rows a stream delivers when it finds the log in the given successive states. */
  function Delivered<T>(logs: seq<seq<T>>, pos: nat, remaining: nat): seq<T>
    decreases |logs|
  {
    if logs == [] then []
    else
      var batch := Pull(logs[0], pos, remaining);
      batch + Delivered(logs[1..], pos + |batch|, remaining - |batch|)
  }

  /** `rows` are what follows position `pos` in the log, at most `remaining` of them. */
  ghost predicate Follows<T>(rows: seq<T>, log: seq<T>, pos: nat, remaining: nat) {
    |rows| <= remaining && rows == Slice(log, pos, |rows|)
  }

  ghost predicate Prefixes<T>(logs: seq<seq<T>>, last: seq<T>) {
    forall i :: 0 <= i < |logs| ==> logs[i] <= last
  }

  lemma TailPrefixes<T>(logs: seq<seq<T>>, last: seq<T>)
    requires logs != [] && Prefixes(logs, last)
    ensures logs[0] <= last && Prefixes(logs[1..], last)
  {
  }

  lemma FollowsOn<T>(batch: seq<T>, more: seq<T>, last: seq<T>, pos: nat, remaining: nat)
    requires |batch| <= remaining && batch == Slice(last, pos, |batch|)
    requires Follows(more, last, pos + |batch|, remaining - |batch|)
    ensures Follows(batch + more, last, pos, remaining)
  {
    SliceExtends(last, pos, |batch|, |more|);
  }

  lemma FollowsBoth<T>(batch: seq<T>, more: seq<T>, last: seq<T>, pos: nat, remaining: nat)
    requires |batch| <= remaining && Follows(batch + more, last, pos, remaining)
    ensures batch == Slice(last, pos, |batch|)
    ensures Follows(more, last, pos + |batch|, remaining - |batch|)
  {
    var rows := batch + more;
    assert batch == rows[..|batch|] && more == rows[|batch|..];
    assert rows == Slice(last, pos, |rows|);
  }

  lemma PullThenMore<T>(log: seq<T>, last: seq<T>, pos: nat, remaining: nat, batch: seq<T>, more: seq<T>)
    requires log <= last && batch == Pull(log, pos, remaining)
    requires Follows(more, last, pos + |batch|, remaining - |batch|)
    ensures Follows(batch + more, last, pos, remaining)
  {
    SliceOfPrefix(log, last, pos, Min(remaining, 100));
    FollowsOn(batch, more, last, pos, remaining);
  }

  lemma FirstTurn<T>(logs: seq<seq<T>>, pos: nat, remaining: nat, batch: seq<T>, more: seq<T>)
    requires logs != [] && batch == Pull(logs[0], pos, remaining)
    requires more == Delivered(logs[1..], pos + |batch|, remaining - |batch|)
    ensures Delivered(logs, pos, remaining) == batch + more
  {
  }

  /**
   However the log grows between batches, a stream delivers its rows in log order without a gap or
   a repeat, and never more than it was asked for.
   */
  lemma {:induction false} StreamFollowsLog<T>(logs: seq<seq<T>>, pos: nat, remaining: nat, last: seq<T>)
    requires Prefixes(logs, last)
    ensures Follows(Delivered(logs, pos, remaining), last, pos, remaining)
    decreases |logs|
  {
    if logs != [] {
      var batch := Pull(logs[0], pos, remaining);
      var more := Delivered(logs[1..], pos + |batch|, remaining - |batch|);
      TailPrefixes(logs, last);
      StreamFollowsLog(logs[1..], pos + |batch|, remaining - |batch|, last);
      PullThenMore(logs[0], last, pos, remaining, batch, more);
      FirstTurn(logs, pos, remaining, batch, more);
    }
  }

  lemma PullPastEnd<T>(log: seq<T>, pos: nat, remaining: nat)
    requires pos >= |log|
    ensures Pull(log, pos, remaining) == []
  {
  }

  // ---- Turn by turn ----

  /** The rows still to come from `log` once `rows` have been delivered. */
  function Turn<T>(log: seq<T>, pos: nat, remaining: nat, rows: seq<T>): seq<T> {
    if |rows| > remaining then [] else Pull(log, pos + |rows|, remaining - |rows|)
  }

  lemma TurnAfter<T>(log: seq<T>, pos: nat, remaining: nat, batch: seq<T>, more: seq<T>)
    requires |batch| <= remaining
    ensures Turn(log, pos + |batch|, remaining - |batch|, more) == Turn(log, pos, remaining, batch + more)
  {
  }

  lemma LastTurn<T>(log: seq<T>, pos: nat, remaining: nat)
    ensures Delivered([log], pos, remaining) == Pull(log, pos, remaining)
  {
    var batch := Pull(log, pos, remaining);
    assert [log][1..] == [] && batch + [] == batch;
  }

  lemma LaterTurn<T>(logs: seq<seq<T>>, log: seq<T>, pos: nat, remaining: nat, batch: seq<T>, rest: seq<T>)
    requires logs != [] && batch == Pull(logs[0], pos, remaining)
    requires rest == Delivered(logs[1..] + [log], pos + |batch|, remaining - |batch|)
    ensures Delivered(logs + [log], pos, remaining) == batch + rest
  {
    TailOfConcat(logs, [log]);
    FirstTurn(logs + [log], pos, remaining, batch, rest);
  }

  /** One more turn of a stream delivers the batch that its position and remaining count stand for. */
  lemma {:induction false} OneMoreTurn<T>(logs: seq<seq<T>>, log: seq<T>, pos: nat, remaining: nat, rows: seq<T>)
    requires rows == Delivered(logs, pos, remaining)
    ensures Delivered(logs + [log], pos, remaining) == rows + Turn(log, pos, remaining, rows)
    decreases |logs|
  {
    if logs == [] {
      LastTurn(log, pos, remaining);
      assert logs + [log] == [log];
      assert [] + Pull(log, pos, remaining) == Pull(log, pos, remaining);
    } else {
      var batch := Pull(logs[0], pos, remaining);
      var more := Delivered(logs[1..], pos + |batch|, remaining - |batch|);
      var turn := Turn(log, pos, remaining, rows);
      FirstTurn(logs, pos, remaining, batch, more);
      OneMoreTurn(logs[1..], log, pos + |batch|, remaining - |batch|, more);
      TurnAfter(log, pos, remaining, batch, more);
      LaterTurn(logs, log, pos, remaining, batch, more + turn);
      Assoc(batch, more, turn);
    }
  }

  lemma TurnTaken<T>(seen: seq<seq<T>>, log: seq<T>, pos: nat, remaining: nat, out: seq<T>, batch: seq<T>)
    requires out == Delivered(seen, pos, remaining) && |out| <= remaining
    requires batch == Pull(log, pos + |out|, remaining - |out|)
    ensures out + batch == Delivered(seen + [log], pos, remaining) && |out + batch| <= remaining
  {
    OneMoreTurn(seen, log, pos, remaining, out);
  }
}
