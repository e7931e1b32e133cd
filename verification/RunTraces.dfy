/**
 Safety of the lease and commit protocol over arbitrary traces: any calls, on
 any Runs, at any clock readings, starting from an empty control plane.
 */
module RunTraces {
  import opened Basics
  import opened RunControl

  datatype Event = Event(call: Call, now: U64)

  type Trace = seq<Event>

  function Lookup(runs: map<string, RunRecord>, runId: string): Option<RunRecord> {
    if runId in runs then Some(runs[runId]) else None
  }

  /** One call against the table of all Runs. */
  function Step(runs: map<string, RunRecord>, event: Event): map<string, RunRecord> {
    var effect := CallEffect(Lookup(runs, event.call.Target()), event.call, event.now);
    if effect.record.Some? then runs[event.call.Target() := effect.record.value] else runs
  }

  function RunsAfter(trace: Trace, n: nat): map<string, RunRecord>
    requires n <= |trace|
  {
    if n == 0 then map[] else Step(RunsAfter(trace, n - 1), trace[n - 1])
  }

  function RecordAt(trace: Trace, n: nat, runId: string): Option<RunRecord>
    requires n <= |trace|
  {
    Lookup(RunsAfter(trace, n), runId)
  }

  function ReplyAt(trace: Trace, i: nat): Reply
    requires i < |trace|
  {
    var event := trace[i];
    CallEffect(RecordAt(trace, i, event.call.Target()), event.call, event.now).reply
  }

  predicate On(trace: Trace, i: nat, runId: string) {
    i < |trace| && trace[i].call.Target() == runId
  }

  /** The lease on `runId` that the reply to call `i` hands out. */
  function GrantAt(trace: Trace, i: nat, runId: string): Option<Lease>
    requires i < |trace|
  {
    if On(trace, i, runId) then GrantedLease(ReplyAt(trace, i)) else None
  }

  predicate ClockNeverGoesBack(trace: Trace) {
    forall i, j :: 0 <= i <= j < |trace| ==> trace[i].now <= trace[j].now
  }

  // ---- One call ----

  lemma EffectKeepsInvariants(record: Option<RunRecord>, call: Call, now: U64)
    requires record.Some? ==> WellFormed(call.Target(), record.value)
    ensures var after := CallEffect(record, call, now).record;
            && (after.Some? ==> WellFormed(call.Target(), after.value))
            && Develops(record, after)
            && CurrentEpoch(record) <= CurrentEpoch(after) <= CurrentEpoch(record) + 1
  {
  }

  lemma RecordStep(trace: Trace, n: nat, runId: string)
    requires n < |trace|
    ensures RecordAt(trace, n + 1, runId) ==
            if On(trace, n, runId)
            then CallEffect(RecordAt(trace, n, runId), trace[n].call, trace[n].now).record
            else RecordAt(trace, n, runId)
  {
    assert RunsAfter(trace, n + 1) == Step(RunsAfter(trace, n), trace[n]);
  }

  // ---- Whole traces ----

  lemma {:induction false} RecordsWellFormed(trace: Trace, n: nat, runId: string)
    requires n <= |trace|
    ensures RecordAt(trace, n, runId).Some? ==> WellFormed(runId, RecordAt(trace, n, runId).value)
  {
    if n > 0 {
      RecordsWellFormed(trace, n - 1, runId);
      RecordStep(trace, n - 1, runId);
      if On(trace, n - 1, runId) {
        EffectKeepsInvariants(RecordAt(trace, n - 1, runId), trace[n - 1].call, trace[n - 1].now);
      }
    }
  }

  lemma StepDevelops(trace: Trace, n: nat, runId: string)
    requires n < |trace|
    ensures Develops(RecordAt(trace, n, runId), RecordAt(trace, n + 1, runId))
    ensures CurrentEpoch(RecordAt(trace, n + 1, runId)) <= CurrentEpoch(RecordAt(trace, n, runId)) + 1
  {
    RecordsWellFormed(trace, n, runId);
    RecordStep(trace, n, runId);
    if On(trace, n, runId) {
      EffectKeepsInvariants(RecordAt(trace, n, runId), trace[n].call, trace[n].now);
    }
  }

  predicate DevelopsAt(records: seq<Option<RunRecord>>, k: nat)
    requires k + 1 < |records|
  {
    Develops(records[k], records[k + 1])
  }

  lemma {:induction false} DevelopsAlong(records: seq<Option<RunRecord>>, i: nat, j: nat)
    requires i <= j < |records|
    requires forall k :: 0 <= k < |records| - 1 ==> DevelopsAt(records, k)
    ensures Develops(records[i], records[j])
    decreases j - i
  {
    if i < j {
      DevelopsAlong(records, i, j - 1);
      assert DevelopsAt(records, j - 1);
    }
  }

  /**
   Over any stretch of any trace: revisions and epochs never decrease, an epoch number keeps its
   owner, task, issue time and bound attempt, an unsaturated revision number identifies the
   record, and a committed record never changes again.
   */
  lemma RecordsDevelop(trace: Trace, i: nat, j: nat, runId: string)
    requires i <= j <= |trace|
    ensures Develops(RecordAt(trace, i, runId), RecordAt(trace, j, runId))
    ensures CurrentEpoch(RecordAt(trace, i, runId)) <= CurrentEpoch(RecordAt(trace, j, runId))
  {
    var records := seq(|trace| + 1, k requires 0 <= k <= |trace| => RecordAt(trace, k, runId));
    forall k | 0 <= k < |records| - 1
      ensures DevelopsAt(records, k)
    {
      StepDevelops(trace, k, runId);
    }
    DevelopsAlong(records, i, j);
    RecordsWellFormed(trace, i, runId);
  }

  /** A lease handed out is the one now on record. */
  lemma GrantIsRecorded(trace: Trace, i: nat, runId: string)
    requires i < |trace| && GrantAt(trace, i, runId).Some?
    ensures CurrentLease(RecordAt(trace, i + 1, runId)) == GrantAt(trace, i, runId)
    ensures CurrentCommit(RecordAt(trace, i + 1, runId)).None?
  {
    RecordStep(trace, i, runId);
  }

  // ---- Commit ----

  /** What the one successful commit reply says about the moment it was given. */
  lemma CommitIsFenced(trace: Trace, i: nat, runId: string, commit: RunCommit)
    requires On(trace, i, runId) && ReplyAt(trace, i) == CommitReply(Committed(commit))
    ensures var lease := CurrentLease(RecordAt(trace, i, runId));
            && lease.Some?
            && lease.value.expiresAt > commit.committedAt == trace[i].now
            && lease.value.epoch == commit.request.leaseEpoch >= 1
            && (lease.value.attempt.Some? ==> lease.value.attempt.value == commit.request.attemptId)
    ensures CurrentCommit(RecordAt(trace, i, runId)).None?
    ensures CurrentCommit(RecordAt(trace, i + 1, runId)) == Some(commit)
    ensures CurrentLease(RecordAt(trace, i + 1, runId)).value.attempt == Some(commit.request.attemptId)
    ensures commit.request.runId == runId && IsTerminal(commit.request.state)
  {
    RecordStep(trace, i, runId);
    RecordsWellFormed(trace, i, runId);
  }

  /** Once a record carries a commit, nothing is granted and only that commit is shown. */
  lemma CommittedRunAnswers(trace: Trace, j: nat, runId: string, commit: RunCommit)
    requires On(trace, j, runId) && CurrentCommit(RecordAt(trace, j, runId)) == Some(commit)
    ensures GrantAt(trace, j, runId).None?
    ensures ReplyAt(trace, j) != Flag(true)
    ensures !(ReplyAt(trace, j).CommitReply? && ReplyAt(trace, j).result.Committed?)
    ensures ShownCommit(ReplyAt(trace, j)).Some? ==> ShownCommit(ReplyAt(trace, j)).value == commit
  {
    RecordsWellFormed(trace, j, runId);
  }

  /**
   A Run is committed at most once. The commit carries the largest epoch ever issued for the
   Run, before or after, and the attempt bound to that lease; the record is frozen from then on
   and every later reply that shows a commit shows this one.
   */
  lemma CommitIsFinal(trace: Trace, i: nat, runId: string, commit: RunCommit)
    requires On(trace, i, runId) && ReplyAt(trace, i) == CommitReply(Committed(commit))
    ensures var lease := CurrentLease(RecordAt(trace, i + 1, runId));
            && lease.Some? && lease.value.epoch == commit.request.leaseEpoch
            && lease.value.attempt == Some(commit.request.attemptId)
    ensures var bound := CurrentLease(RecordAt(trace, i, runId)).value.attempt;
            bound.Some? ==> bound == Some(commit.request.attemptId)
    ensures forall j :: i < j <= |trace| ==> RecordAt(trace, j, runId) == RecordAt(trace, i + 1, runId)
    ensures forall j :: i < j && On(trace, j, runId) ==>
              && ReplyAt(trace, j) != Flag(true)
              && !(ReplyAt(trace, j).CommitReply? && ReplyAt(trace, j).result.Committed?)
              && (ShownCommit(ReplyAt(trace, j)).Some? ==> ShownCommit(ReplyAt(trace, j)).value == commit)
    ensures forall k :: 0 <= k < |trace| && GrantAt(trace, k, runId).Some? ==>
              k < i && GrantAt(trace, k, runId).value.epoch <= commit.request.leaseEpoch
  {
    CommitIsFenced(trace, i, runId, commit);
    RecordsWellFormed(trace, i + 1, runId);
    forall j | i < j <= |trace|
      ensures RecordAt(trace, j, runId) == RecordAt(trace, i + 1, runId)
    {
      RecordsDevelop(trace, i + 1, j, runId);
    }
    forall j: nat | i < j && On(trace, j, runId)
      ensures GrantAt(trace, j, runId).None?
      ensures ReplyAt(trace, j) != Flag(true)
      ensures !(ReplyAt(trace, j).CommitReply? && ReplyAt(trace, j).result.Committed?)
      ensures ShownCommit(ReplyAt(trace, j)).Some? ==> ShownCommit(ReplyAt(trace, j)).value == commit
    {
      CommittedRunAnswers(trace, j, runId, commit);
    }
    forall k | 0 <= k < |trace| && GrantAt(trace, k, runId).Some?
      ensures k < i && GrantAt(trace, k, runId).value.epoch <= commit.request.leaseEpoch
    {
      assert k <= i;
      GrantIsRecorded(trace, k, runId);
      if k < i {
        RecordsDevelop(trace, k + 1, i, runId);
      }
    }
  }

  // ---- Epochs ----

  /** Two leases of one Run with one epoch number are one tenure. */
  lemma EpochFixesTenure(trace: Trace, i: nat, j: nat, runId: string)
    requires i <= j < |trace|
    requires GrantAt(trace, i, runId).Some? && GrantAt(trace, j, runId).Some?
    requires GrantAt(trace, i, runId).value.epoch == GrantAt(trace, j, runId).value.epoch
    ensures SameTenure(GrantAt(trace, i, runId).value, GrantAt(trace, j, runId).value)
  {
    GrantIsRecorded(trace, i, runId);
    GrantIsRecorded(trace, j, runId);
    RecordsDevelop(trace, i + 1, j + 1, runId);
  }

  /** Call `k` moved the Run from epoch `epoch - 1` to `epoch`. */
  predicate OpensEpoch(trace: Trace, k: nat, runId: string, epoch: nat) {
    && On(trace, k, runId)
    && trace[k].call.Acquire?
    && CurrentEpoch(RecordAt(trace, k, runId)) + 1 == epoch == CurrentEpoch(RecordAt(trace, k + 1, runId))
    && GrantAt(trace, k, runId).Some?
    && GrantAt(trace, k, runId).value.epoch == epoch
    && GrantAt(trace, k, runId).value.issuedAt == trace[k].now
    && GrantAt(trace, k, runId).value.owner == trace[k].call.owner
  }

  lemma EpochChangeOpens(trace: Trace, k: nat, runId: string)
    requires k < |trace|
    requires CurrentEpoch(RecordAt(trace, k, runId)) != CurrentEpoch(RecordAt(trace, k + 1, runId))
    ensures OpensEpoch(trace, k, runId, CurrentEpoch(RecordAt(trace, k + 1, runId)))
  {
    RecordsWellFormed(trace, k, runId);
    RecordStep(trace, k, runId);
  }

  /** Epochs grow by exactly one per new grant: each number up to the current one was opened, and by one call only. */
  lemma {:induction false} EveryEpochOpenedOnce(trace: Trace, n: nat, runId: string, epoch: nat) returns (k: nat)
    requires n <= |trace|
    requires 1 <= epoch <= CurrentEpoch(RecordAt(trace, n, runId))
    ensures k < n && OpensEpoch(trace, k, runId, epoch)
    ensures forall m: nat :: OpensEpoch(trace, m, runId, epoch) ==> m == k
  {
    if CurrentEpoch(RecordAt(trace, n - 1, runId)) >= epoch {
      k := EveryEpochOpenedOnce(trace, n - 1, runId, epoch);
    } else {
      k := n - 1;
      StepDevelops(trace, k, runId);
      EpochChangeOpens(trace, k, runId);
      forall m: nat | OpensEpoch(trace, m, runId, epoch)
        ensures m == k
      {
        if m < k {
          RecordsDevelop(trace, m + 1, k, runId);
        } else if m > k {
          RecordsDevelop(trace, k + 1, m, runId);
        }
      }
    }
  }

  /** A lease that was superseded can no longer bind, renew or commit, at any later time. */
  lemma SupersededEpochIsPowerless(trace: Trace, i: nat, j: nat, runId: string, epoch: U64)
    requires i <= j && On(trace, j, runId)
    requires CurrentEpoch(RecordAt(trace, i, runId)) > epoch
    ensures trace[j].call.Bind? && trace[j].call.epoch == epoch ==> ReplyAt(trace, j) == Flag(false)
    ensures trace[j].call.Renew? && trace[j].call.epoch == epoch ==> ReplyAt(trace, j) == Flag(false)
    ensures trace[j].call.Commit? && trace[j].call.request.leaseEpoch == epoch ==>
              && RecordAt(trace, j + 1, runId) == RecordAt(trace, j, runId)
              && !(ReplyAt(trace, j).CommitReply? && ReplyAt(trace, j).result.Committed?)
  {
    RecordsDevelop(trace, i, j, runId);
    RecordsWellFormed(trace, j, runId);
    RecordStep(trace, j, runId);
  }

  /**
   A grant made without takeover goes to a different owner and starts no earlier than the expiry
   recorded for the lease it replaces, whatever the clock does.
   */
  lemma UnforcedGrantWaits(trace: Trace, k: nat, runId: string, epoch: nat)
    requires k < |trace| && OpensEpoch(trace, k, runId, epoch)
    requires epoch > 1 && !trace[k].call.force
    ensures CurrentLease(RecordAt(trace, k, runId)).Some?
    ensures GrantAt(trace, k, runId).value.owner != CurrentLease(RecordAt(trace, k, runId)).value.owner
    ensures CurrentLease(RecordAt(trace, k, runId)).value.expiresAt <= GrantAt(trace, k, runId).value.issuedAt
  {
    RecordsWellFormed(trace, k, runId);
  }

  /** Issue times follow epochs when the clock never goes back. */
  lemma LaterEpochsStartLater(trace: Trace, n: nat, runId: string, k: nat, epoch: nat)
    requires ClockNeverGoesBack(trace) && k < n <= |trace| && OpensEpoch(trace, k, runId, epoch)
    ensures CurrentLease(RecordAt(trace, n, runId)).Some?
    ensures CurrentLease(RecordAt(trace, n, runId)).value.issuedAt >= trace[k].now
  {
    GrantIsRecorded(trace, k, runId);
    RecordsDevelop(trace, k + 1, n, runId);
    var last := CurrentEpoch(RecordAt(trace, n, runId));
    var m := EveryEpochOpenedOnce(trace, n, runId, last);
    if m < k {
      RecordsDevelop(trace, m + 1, k, runId);
    }
    GrantIsRecorded(trace, m, runId);
    RecordsDevelop(trace, m + 1, n, runId);
  }

  /**
   With a clock that never goes back, holding periods of different tenures never overlap unless a
   takeover cut one short: the last expiry recorded for an epoch is no later than the start of
   every lease with a higher epoch, if the call that ended the epoch was not a takeover.
   */
  lemma HoldingPeriodsDisjoint(trace: Trace, k: nat, n: nat, runId: string, epoch: nat)
    requires ClockNeverGoesBack(trace)
    requires k < n <= |trace| && epoch > 1 && OpensEpoch(trace, k, runId, epoch) && !trace[k].call.force
    ensures CurrentLease(RecordAt(trace, k, runId)).Some? && CurrentLease(RecordAt(trace, n, runId)).Some?
    ensures CurrentLease(RecordAt(trace, k, runId)).value.epoch + 1 == epoch
            <= CurrentLease(RecordAt(trace, n, runId)).value.epoch
    ensures CurrentLease(RecordAt(trace, k, runId)).value.expiresAt
         <= CurrentLease(RecordAt(trace, n, runId)).value.issuedAt
  {
    UnforcedGrantWaits(trace, k, runId, epoch);
    LaterEpochsStartLater(trace, n, runId, k, epoch);
    RecordsDevelop(trace, k + 1, n, runId);
  }

  /** A tenure starts before the previous lease has expired exactly when it was taken over while that lease was live. */
  lemma OverlapsExactlyOnTakeover(trace: Trace, k: nat, runId: string, epoch: nat)
    requires k < |trace| && OpensEpoch(trace, k, runId, epoch) && epoch > 1
    ensures CurrentLease(RecordAt(trace, k, runId)).Some?
    ensures var previous, granted := CurrentLease(RecordAt(trace, k, runId)).value, GrantAt(trace, k, runId).value;
            previous.expiresAt > granted.issuedAt <==> trace[k].call.force && previous.expiresAt > trace[k].now
  {
    if !trace[k].call.force {
      UnforcedGrantWaits(trace, k, runId, epoch);
    }
  }

  /** A takeover does cut a live lease short: the new tenure can start before the old expiry. */
  lemma TakeoverOverlaps() returns (trace: Trace)
    ensures |trace| == 2 && ClockNeverGoesBack(trace)
    ensures OpensEpoch(trace, 1, "run", 2) && trace[1].call.force
    ensures CurrentLease(RecordAt(trace, 1, "run")).value.expiresAt
            > CurrentLease(RecordAt(trace, 2, "run")).value.issuedAt
  {
    trace := [Event(Acquire("run", None, "a", 100, false), 0), Event(Acquire("run", None, "b", 100, true), 50)];
    assert "a"[0] == 'a' && "b"[0] == 'b';
    var t0 := RunsAfter(trace, 0);
    var t1 := RunsAfter(trace, 1);
    assert t1 == Step(t0, trace[0]);
    assert RunsAfter(trace, 2) == Step(t1, trace[1]);
  }
}
