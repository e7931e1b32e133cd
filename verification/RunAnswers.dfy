/**
 What each answer of the control plane means, in every trace: when a call is accepted, what an accepted call leaves
 on record, and what two accepted calls have to do with each other.
 */
module RunAnswers {
  import opened Basics
  import opened RunControl
  import opened RunTraces

  // ---- Bind ----

  /** The Run is not committed and its current lease has this epoch and has not expired. */
  predicate HoldsNow(trace: Trace, i: nat, runId: string, epoch: U64)
    requires i < |trace|
  {
    var record := RecordAt(trace, i, runId);
    && CurrentCommit(record).None? && CurrentLease(record).Some?
    && CurrentLease(record).value.epoch == epoch && CurrentLease(record).value.expiresAt > trace[i].now
  }

  predicate BindAccepted(trace: Trace, i: nat, runId: string) {
    On(trace, i, runId) && trace[i].call.Bind? && ReplyAt(trace, i) == Flag(true)
  }

  /**
   A bind is accepted exactly under the live lease it names, if that lease is free or already has the attempt; then
   the lease on record carries the attempt and is otherwise as it was. A refused bind changes nothing.
   */
  lemma BindExactly(trace: Trace, i: nat, runId: string)
    requires On(trace, i, runId) && trace[i].call.Bind?
    ensures var call, before, after := trace[i].call, RecordAt(trace, i, runId), RecordAt(trace, i + 1, runId);
            && (ReplyAt(trace, i) == Flag(true) <==>
                  && HoldsNow(trace, i, runId, call.epoch)
                  && CurrentLease(before).value.attempt in {None, Some(call.attemptId)})
            && (ReplyAt(trace, i) == Flag(true) ==>
                  CurrentLease(after) == Some(CurrentLease(before).value.(attempt := Some(call.attemptId))))
            && (ReplyAt(trace, i) != Flag(true) ==> ReplyAt(trace, i) == Flag(false) && after == before)
  {
    RecordStep(trace, i, runId);
  }

  /** Two accepted binds of one epoch name the same attempt, whatever happens between them. */
  lemma AcceptedBindsAgree(trace: Trace, i: nat, j: nat, runId: string)
    requires i <= j && BindAccepted(trace, i, runId) && BindAccepted(trace, j, runId)
    requires trace[i].call.epoch == trace[j].call.epoch
    ensures trace[i].call.attemptId == trace[j].call.attemptId
  {
    if i < j {
      BindExactly(trace, i, runId);
      BindExactly(trace, j, runId);
      RecordsDevelop(trace, i + 1, j, runId);
    }
  }

  /** A commit of an epoch, before or after a bind of it that was accepted, is by the attempt that was bound. */
  lemma CommitIsByBoundAttempt(trace: Trace, i: nat, j: nat, runId: string, commit: RunCommit)
    requires BindAccepted(trace, i, runId)
    requires On(trace, j, runId) && ReplyAt(trace, j) == CommitReply(Committed(commit))
    requires commit.request.leaseEpoch == trace[i].call.epoch
    ensures i < j && commit.request.attemptId == trace[i].call.attemptId
  {
    BindExactly(trace, i, runId);
    if j < i {
      CommitIsFinal(trace, j, runId, commit);
    } else if i < j {
      CommitIsFenced(trace, j, runId, commit);
      RecordsDevelop(trace, i + 1, j, runId);
    }
  }

  // ---- Renew ----

  /** A renewal is accepted exactly from the owner of the live lease it names; it moves the expiry and nothing else. */
  lemma RenewExactly(trace: Trace, i: nat, runId: string)
    requires On(trace, i, runId) && trace[i].call.Renew?
    ensures var call, before, after := trace[i].call, RecordAt(trace, i, runId), RecordAt(trace, i + 1, runId);
            && (ReplyAt(trace, i) == Flag(true) <==>
                  HoldsNow(trace, i, runId, call.epoch) && CurrentLease(before).value.owner == call.owner)
            && (ReplyAt(trace, i) == Flag(true) ==>
                  && CurrentLease(after).Some?
                  && IsDeadline(CurrentLease(after).value.expiresAt, trace[i].now, call.ttl)
                  && CurrentLease(after).value
                     == CurrentLease(before).value.(expiresAt := CurrentLease(after).value.expiresAt))
            && (ReplyAt(trace, i) != Flag(true) ==> ReplyAt(trace, i) == Flag(false) && after == before)
  {
    RecordStep(trace, i, runId);
    DeadlineIs(trace[i].now, trace[i].call.ttl);
  }

  // ---- Acquire ----

  /** Whoever asks holds the lease already and does not insist on a new one. */
  predicate Extends(record: Option<RunRecord>, call: Call)
    requires call.Acquire?
  {
    CurrentLease(record).Some? && CurrentLease(record).value.owner == call.owner && !call.force
  }

  /** Someone else's lease is in the way. */
  predicate Blocked(record: Option<RunRecord>, call: Call, now: U64)
    requires call.Acquire?
  {
    CurrentLease(record).Some? && CurrentLease(record).value.owner != call.owner &&
    CurrentLease(record).value.expiresAt > now && !call.force
  }

  /**
   A lease is handed out exactly when the owner has a name, the Run is not committed, nobody else's live lease is in
   the way and the epoch numbers have not run out. It runs until the deadline asked for.
   */
  lemma AcquireExactly(trace: Trace, i: nat, runId: string)
    requires On(trace, i, runId) && trace[i].call.Acquire?
    ensures var call, before, now := trace[i].call, RecordAt(trace, i, runId), trace[i].now;
            && (GrantAt(trace, i, runId).Some? <==>
                  && !IsBlank(call.owner) && CurrentCommit(before).None? && !Blocked(before, call, now)
                  && (Extends(before, call) || CurrentEpoch(before) < U64_MAX))
            && (GrantAt(trace, i, runId).Some? ==>
                  IsDeadline(GrantAt(trace, i, runId).value.expiresAt, now, call.ttl))
            && (GrantAt(trace, i, runId).None? ==> RecordAt(trace, i + 1, runId) == before)
  {
    RecordStep(trace, i, runId);
    RecordsWellFormed(trace, i, runId);
    DeadlineIs(trace[i].now, trace[i].call.ttl);
  }

  /** The holder's lease is only prolonged; anyone else gets the next epoch, from now on, for their task, unbound. */
  lemma GrantIs(trace: Trace, i: nat, runId: string, lease: Lease)
    requires i < |trace| && GrantAt(trace, i, runId) == Some(lease)
    ensures var call, before := trace[i].call, RecordAt(trace, i, runId);
            && call.Acquire?
            && if Extends(before, call) then lease == CurrentLease(before).value.(expiresAt := lease.expiresAt)
               else lease == Lease(runId, call.taskId, CurrentEpoch(before) + 1, call.owner, trace[i].now,
                                   lease.expiresAt, None)
  {
    RecordStep(trace, i, runId);
  }

  /** Who is turned away is told why: the lease that is in the way, the commit, or that the request is invalid. */
  lemma RefusalSaysWhy(trace: Trace, i: nat, runId: string)
    requires On(trace, i, runId) && trace[i].call.Acquire? && GrantAt(trace, i, runId).None?
    ensures var call, before, reply := trace[i].call, RecordAt(trace, i, runId), ReplyAt(trace, i);
            if IsBlank(call.owner) then reply == Rejected
            else if CurrentCommit(before).Some? then
              reply == LeaseReply(LeaseAlreadyCommitted(CurrentCommit(before).value))
            else if Blocked(before, call, trace[i].now) then reply == LeaseReply(Held(CurrentLease(before).value))
            else reply == Rejected
  {
    RecordsWellFormed(trace, i, runId);
  }

  // ---- Commit ----

  predicate ValidRequest(request: CommitRequest) {
    request.state in {Completed, Failed, Cancelled} && request.leaseEpoch > 0 && !IsBlank(request.resultDigest)
  }

  /**
   A valid commit is recorded exactly under the live lease it names, if that lease is free or has its attempt. On a
   committed Run the answer says whether it is the same commit; otherwise the lease is stale and its epoch is shown.
   */
  lemma CommitExactly(trace: Trace, i: nat, runId: string)
    requires On(trace, i, runId) && trace[i].call.Commit?
    ensures var request, before, reply := trace[i].call.request, RecordAt(trace, i, runId), ReplyAt(trace, i);
            && (reply == Rejected <==> !ValidRequest(request))
            && (ValidRequest(request) && CurrentCommit(before).Some? ==>
                  reply == CommitReply(if CurrentCommit(before).value.request == request
                                       then AlreadyCommitted(CurrentCommit(before).value)
                                       else Conflict(CurrentCommit(before).value)))
            && (ValidRequest(request) && CurrentCommit(before).None? ==>
                  if && HoldsNow(trace, i, runId, request.leaseEpoch)
                     && CurrentLease(before).value.attempt in {None, Some(request.attemptId)}
                  then reply == CommitReply(Committed(RunCommit(request, trace[i].now)))
                  else reply == CommitReply(StaleLease(request.leaseEpoch,
                                                       if before.Some? then Some(CurrentEpoch(before)) else None)))
  {
    RecordsWellFormed(trace, i, runId);
  }

  // ---- Revisions ----

  /** Number of calls before `n` that changed the record of the Run. */
  function Writes(trace: Trace, n: nat, runId: string): nat
    requires n <= |trace|
  {
    if n == 0 then 0
    else Writes(trace, n - 1, runId) + if RecordAt(trace, n, runId) != RecordAt(trace, n - 1, runId) then 1 else 0
  }

  lemma StepRevises(record: Option<RunRecord>, call: Call, now: U64, after: Option<RunRecord>)
    requires after == CallEffect(record, call, now).record
    ensures after == record || (record.None? && after.Some? && after.value.revision == 1) ||
            (record.Some? && after.Some? &&
             after.value.revision == if record.value.revision < U64_MAX then record.value.revision + 1 else U64_MAX)
  {
  }

  /** The revision of a Run's record counts the calls that changed it, until it saturates. */
  lemma {:induction false} RevisionCountsWrites(trace: Trace, n: nat, runId: string)
    requires n <= |trace|
    ensures RecordAt(trace, n, runId).None? <==> Writes(trace, n, runId) == 0
    ensures RecordAt(trace, n, runId).Some? ==>
              RecordAt(trace, n, runId).value.revision in {U64_MAX, Writes(trace, n, runId)}
  {
    if n > 0 {
      RevisionCountsWrites(trace, n - 1, runId);
      RecordStep(trace, n - 1, runId);
      if On(trace, n - 1, runId) {
        StepRevises(RecordAt(trace, n - 1, runId), trace[n - 1].call, trace[n - 1].now, RecordAt(trace, n, runId));
      }
    }
  }
}
