/**
 The lease and commit protocol of one logical Run: what each call of the
 in-memory control plane does to the record of the Run it names.
 The clock reading of a call is an argument.
 */
module RunControl {
  import opened Basics

  datatype RunState =
    | Created | Starting | Running | Checkpointing | Suspended | Cancelling
    | Completed | Failed | Cancelled

  predicate IsTerminal(state: RunState) {
    state.Completed? || state.Failed? || state.Cancelled?
  }

  datatype Lease = Lease(
    runId: string, taskId: Option<string>, epoch: U64, owner: string,
    issuedAt: U64, expiresAt: U64, attempt: Option<string>)

  datatype CommitRequest = CommitRequest(
    runId: string, taskId: Option<string>, attemptId: string, leaseEpoch: U64,
    state: RunState, highWatermark: Option<U64>, resultDigest: string)

  datatype RunCommit = RunCommit(request: CommitRequest, committedAt: U64)

  datatype RunRecord = RunRecord(revision: U64, runId: string, lease: Option<Lease>, commit: Option<RunCommit>)

  datatype LeaseOutcome =
    | Acquired(lease: Lease)
    | Held(lease: Lease)
    | LeaseAlreadyCommitted(commit: RunCommit)

  datatype CommitOutcome =
    | Committed(commit: RunCommit)
    | AlreadyCommitted(commit: RunCommit)
    | StaleLease(suppliedEpoch: U64, currentEpoch: Option<U64>)
    | Conflict(commit: RunCommit)

  datatype Call =
    | Acquire(runId: string, taskId: Option<string>, owner: string, ttl: U64, force: bool)
    | Bind(runId: string, epoch: U64, attemptId: string)
    | Renew(runId: string, epoch: U64, owner: string, ttl: U64)
    | Commit(request: CommitRequest)
  {
    function Target(): string {
      if Commit? then request.runId else runId
    }
  }

  datatype Reply =
    | LeaseReply(outcome: LeaseOutcome)
    | Flag(accepted: bool)
    | CommitReply(result: CommitOutcome)
    | Rejected

  /** The record of the named Run after a call, together with the reply. */
  datatype Effect = Effect(record: Option<RunRecord>, reply: Reply)

  function CurrentLease(record: Option<RunRecord>): Option<Lease> {
    if record.Some? then record.value.lease else None
  }

  function CurrentCommit(record: Option<RunRecord>): Option<RunCommit> {
    if record.Some? then record.value.commit else None
  }

  function CurrentEpoch(record: Option<RunRecord>): U64 {
    var lease := CurrentLease(record);
    if lease.Some? then lease.value.epoch else 0
  }

  function AcquireEffect(record: Option<RunRecord>, call: Call, now: U64): Effect
    requires call.Acquire?
  {
    var lease := CurrentLease(record);
    if IsBlank(call.owner) then
      Effect(record, Rejected)
    else if CurrentCommit(record).Some? then
      Effect(record, LeaseReply(LeaseAlreadyCommitted(CurrentCommit(record).value)))
    else if lease.Some? && lease.value.owner != call.owner && lease.value.expiresAt > now && !call.force then
      Effect(record, LeaseReply(Held(lease.value)))
    else if lease.Some? && lease.value.owner == call.owner && !call.force then
      var extended := lease.value.(expiresAt := Deadline(now, call.ttl));
      Effect(Some(record.value.(revision := SaturatingAdd(record.value.revision, 1), lease := Some(extended))),
             LeaseReply(Acquired(extended)))
    else if CurrentEpoch(record) == U64_MAX then
      Effect(record, Rejected)
    else
      var granted := Lease(call.runId, call.taskId, CurrentEpoch(record) + 1, call.owner,
                           now, Deadline(now, call.ttl), None);
      var revision := if record.Some? then SaturatingAdd(record.value.revision, 1) else 1;
      Effect(Some(RunRecord(revision, call.runId, Some(granted), None)), LeaseReply(Acquired(granted)))
  }

  function BindEffect(record: Option<RunRecord>, call: Call, now: U64): Effect
    requires call.Bind?
  {
    var lease := CurrentLease(record);
    if lease.None? then
      Effect(record, Flag(false))
    else if record.value.commit.Some? || lease.value.epoch != call.epoch || lease.value.expiresAt <= now then
      Effect(record, Flag(false))
    else if lease.value.attempt.Some? then
      Effect(record, Flag(lease.value.attempt.value == call.attemptId))
    else
      var bound := lease.value.(attempt := Some(call.attemptId));
      Effect(Some(record.value.(revision := SaturatingAdd(record.value.revision, 1), lease := Some(bound))),
             Flag(true))
  }

  function RenewEffect(record: Option<RunRecord>, call: Call, now: U64): Effect
    requires call.Renew?
  {
    var lease := CurrentLease(record);
    if lease.None? then
      Effect(record, Flag(false))
    else if || record.value.commit.Some? || lease.value.epoch != call.epoch
            || lease.value.owner != call.owner || lease.value.expiresAt <= now then
      Effect(record, Flag(false))
    else
      var renewed := lease.value.(expiresAt := Deadline(now, call.ttl));
      Effect(Some(record.value.(revision := SaturatingAdd(record.value.revision, 1), lease := Some(renewed))),
             Flag(true))
  }

  /** What a commit needs from the lease it names: same epoch, unexpired, no other attempt bound. */
  predicate LeaseAdmits(lease: Lease, request: CommitRequest, now: U64) {
    && lease.epoch == request.leaseEpoch
    && lease.expiresAt > now
    && (lease.attempt.None? || lease.attempt.value == request.attemptId)
  }

  function CommitEffect(record: Option<RunRecord>, call: Call, now: U64): Effect
    requires call.Commit?
  {
    var request := call.request;
    if !IsTerminal(request.state) || request.leaseEpoch == 0 || IsBlank(request.resultDigest) then
      Effect(record, Rejected)
    else if record.None? then
      Effect(record, CommitReply(StaleLease(request.leaseEpoch, None)))
    else if record.value.commit.Some? then
      var existing := record.value.commit.value;
      Effect(record, CommitReply(if existing.request == request then AlreadyCommitted(existing)
                                 else Conflict(existing)))
    else
      var lease := record.value.lease;
      if lease.None? || !LeaseAdmits(lease.value, request, now) then
        var current := if lease.Some? then Some(lease.value.epoch) else None;
        Effect(record, CommitReply(StaleLease(request.leaseEpoch, current)))
      else
        var commit := RunCommit(request, now);
        var bound := lease.value.(attempt := Some(request.attemptId));
        Effect(Some(record.value.(revision := SaturatingAdd(record.value.revision, 1),
                                  lease := Some(bound), commit := Some(commit))),
               CommitReply(Committed(commit)))
  }

  function CallEffect(record: Option<RunRecord>, call: Call, now: U64): Effect {
    match call
    case Acquire(_, _, _, _, _) => AcquireEffect(record, call, now)
    case Bind(_, _, _) => BindEffect(record, call, now)
    case Renew(_, _, _, _) => RenewEffect(record, call, now)
    case Commit(_) => CommitEffect(record, call, now)
  }

  /** The commit a reply shows to its caller, if any. */
  function ShownCommit(reply: Reply): Option<RunCommit> {
    match reply
    case LeaseReply(LeaseAlreadyCommitted(c)) => Some(c)
    case CommitReply(Committed(c)) => Some(c)
    case CommitReply(AlreadyCommitted(c)) => Some(c)
    case CommitReply(Conflict(c)) => Some(c)
    case _ => None
  }

  /** The lease a reply hands to its caller, if any. */
  function GrantedLease(reply: Reply): Option<Lease> {
    match reply
    case LeaseReply(Acquired(lease)) => Some(lease)
    case _ => None
  }

  /** What holds of every stored record. */
  predicate WellFormed(runId: string, record: RunRecord) {
    && record.runId == runId
    && record.lease.Some?
    && record.lease.value.runId == runId
    && record.lease.value.epoch >= 1
    && (record.commit.Some? ==>
          var request := record.commit.value.request;
          && request.runId == runId
          && IsTerminal(request.state)
          && request.leaseEpoch == record.lease.value.epoch
          && record.lease.value.attempt == Some(request.attemptId)
          && record.commit.value.committedAt < record.lease.value.expiresAt)
  }

  /**
   The fields that an epoch number fixes: whoever holds epoch `e` is one owner working on one
   task since one instant, and at most one attempt is ever bound to it.
   */
  predicate SameTenure(before: Lease, after: Lease) {
    && before.epoch == after.epoch
    && before.runId == after.runId
    && before.owner == after.owner
    && before.taskId == after.taskId
    && before.issuedAt == after.issuedAt
    && (before.attempt.Some? ==> after.attempt == before.attempt)
  }

  /** How a record may develop, over any number of calls. */
  predicate Develops(before: Option<RunRecord>, after: Option<RunRecord>) {
    before.Some? ==>
      && after.Some?
      && before.value.revision <= after.value.revision
      && (before.value.commit.Some? ==> after == before)
      && (before.value.revision == after.value.revision < U64_MAX ==> after == before)
      && (before.value.lease.Some? ==>
            && after.value.lease.Some?
            && before.value.lease.value.epoch <= after.value.lease.value.epoch
            && (before.value.lease.value.epoch == after.value.lease.value.epoch ==>
                  SameTenure(before.value.lease.value, after.value.lease.value)))
  }
}
