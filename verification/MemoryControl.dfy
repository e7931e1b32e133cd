/**
 The in-memory control plane as the source writes it: one object, two maps, each
 method taking its lock and updating the entry it names. Every method is
 proved to perform the protocol step of RunControl or AttemptRegistry, so the trace
 theorems hold of the object.
 */
module MemoryControl {
  import opened Basics
  import R = RunControl
  import T = RunTraces
  import A = AttemptRegistry

  class MemoryChronicleControl {
    var runs: map<string, R.RunRecord>
    var attempts: map<string, A.AttemptRecord>

    constructor ()
      ensures runs == map[] && attempts == map[]
    {
      runs, attempts := map[], map[];
    }

    /** The reply that the protocol gives to a call on the current table. */
    ghost function RunReply(call: R.Call, now: U64): R.Reply
      reads this
    {
      R.CallEffect(T.Lookup(runs, call.Target()), call, now).reply
    }

    ghost function AttemptReply(call: A.Call, now: U64): A.Reply
      reads this
    {
      A.CallEffect(A.Lookup(attempts, call.runId), call, now).reply
    }

    method AcquireInner(runId: string, taskId: Option<string>, owner: string, ttl: U64, force: bool, now: U64)
      returns (reply: R.Reply)
      modifies this`runs
      ensures runs == T.Step(old(runs), T.Event(R.Acquire(runId, taskId, owner, ttl, force), now))
      ensures reply == old(RunReply(R.Acquire(runId, taskId, owner, ttl, force), now))
    {
      if IsBlank(owner) {
        assert T.Step(runs, T.Event(R.Acquire(runId, taskId, owner, ttl, force), now)) == runs;
        return R.Rejected;
      }
      var epoch: U64 := 0;
      var revision: U64 := 1;
      if runId in runs {
        var record := runs[runId];
        if record.commit.Some? {
          assert runs == runs[runId := record];
          return R.LeaseReply(R.LeaseAlreadyCommitted(record.commit.value));
        }
        revision := SaturatingAdd(record.revision, 1);
        if record.lease.Some? {
          var existing := record.lease.value;
          epoch := existing.epoch;
          if existing.owner != owner && existing.expiresAt > now && !force {
            assert runs == runs[runId := record];
            return R.LeaseReply(R.Held(existing));
          }
          if existing.owner == owner && !force {
            var lease := existing.(expiresAt := Deadline(now, ttl));
            runs := runs[runId := record.(revision := revision, lease := Some(lease))];
            return R.LeaseReply(R.Acquired(lease));
          }
        }
      }
      if epoch == U64_MAX {
        assert runId in runs && runs == runs[runId := runs[runId]];
        return R.Rejected;
      }
      var lease := R.Lease(runId, taskId, epoch + 1, owner, now, Deadline(now, ttl), None);
      runs := runs[runId := R.RunRecord(revision, runId, Some(lease), None)];
      return R.LeaseReply(R.Acquired(lease));
    }

    method AcquireLease(runId: string, taskId: Option<string>, owner: string, ttl: U64, now: U64)
      returns (reply: R.Reply)
      modifies this`runs
      ensures runs == T.Step(old(runs), T.Event(R.Acquire(runId, taskId, owner, ttl, false), now))
      ensures reply == old(RunReply(R.Acquire(runId, taskId, owner, ttl, false), now))
    {
      reply := AcquireInner(runId, taskId, owner, ttl, false, now);
    }

    method TakeoverLease(runId: string, taskId: Option<string>, owner: string, ttl: U64, now: U64)
      returns (reply: R.Reply)
      modifies this`runs
      ensures runs == T.Step(old(runs), T.Event(R.Acquire(runId, taskId, owner, ttl, true), now))
      ensures reply == old(RunReply(R.Acquire(runId, taskId, owner, ttl, true), now))
    {
      reply := AcquireInner(runId, taskId, owner, ttl, true, now);
    }

    method BindAttempt(runId: string, epoch: U64, attemptId: string, now: U64) returns (accepted: bool)
      modifies this`runs
      ensures runs == T.Step(old(runs), T.Event(R.Bind(runId, epoch, attemptId), now))
      ensures R.Flag(accepted) == old(RunReply(R.Bind(runId, epoch, attemptId), now))
    {
      if runId !in runs {
        return false;
      }
      var record := runs[runId];
      assert runs == runs[runId := record];
      if record.lease.None? {
        return false;
      }
      var lease := record.lease.value;
      if record.commit.Some? || lease.epoch != epoch || lease.expiresAt <= now {
        return false;
      }
      if lease.attempt.Some? && lease.attempt.value != attemptId {
        return false;
      }
      if lease.attempt.None? {
        lease := lease.(attempt := Some(attemptId));
        runs := runs[runId := record.(lease := Some(lease), revision := SaturatingAdd(record.revision, 1))];
      }
      return true;
    }

    method RenewLease(runId: string, epoch: U64, owner: string, ttl: U64, now: U64) returns (accepted: bool)
      modifies this`runs
      ensures runs == T.Step(old(runs), T.Event(R.Renew(runId, epoch, owner, ttl), now))
      ensures R.Flag(accepted) == old(RunReply(R.Renew(runId, epoch, owner, ttl), now))
    {
      if runId !in runs {
        return false;
      }
      var record := runs[runId];
      assert runs == runs[runId := record];
      if record.lease.None? {
        return false;
      }
      var lease := record.lease.value;
      if record.commit.Some? || lease.epoch != epoch || lease.owner != owner || lease.expiresAt <= now {
        return false;
      }
      lease := lease.(expiresAt := Deadline(now, ttl));
      runs := runs[runId := record.(lease := Some(lease), revision := SaturatingAdd(record.revision, 1))];
      return true;
    }

    method CommitRun(request: R.CommitRequest, now: U64) returns (reply: R.Reply)
      modifies this`runs
      ensures runs == T.Step(old(runs), T.Event(R.Commit(request), now))
      ensures reply == old(RunReply(R.Commit(request), now))
    {
      assert request.runId in runs ==> runs == runs[request.runId := runs[request.runId]];
      if !R.IsTerminal(request.state) || request.leaseEpoch == 0 || IsBlank(request.resultDigest) {
        return R.Rejected;
      }
      if request.runId !in runs {
        return R.CommitReply(R.StaleLease(request.leaseEpoch, None));
      }
      var record := runs[request.runId];
      if record.commit.Some? {
        var existing := record.commit.value;
        return R.CommitReply(if existing.request == request then R.AlreadyCommitted(existing)
                             else R.Conflict(existing));
      }
      var currentEpoch := None;
      var matches := false;
      if record.lease.Some? {
        currentEpoch := Some(record.lease.value.epoch);
        matches := R.LeaseAdmits(record.lease.value, request, now);
      }
      if !matches {
        return R.CommitReply(R.StaleLease(request.leaseEpoch, currentEpoch));
      }
      var commit := R.RunCommit(request, now);
      var lease := record.lease.value;
      if lease.attempt.None? {
        lease := lease.(attempt := Some(request.attemptId));
      }
      runs := runs[request.runId := record.(lease := Some(lease), commit := Some(commit),
                                            revision := SaturatingAdd(record.revision, 1))];
      return R.CommitReply(R.Committed(commit));
    }

    method PublishAttemptActive(runId: string, attemptId: string, leaseEpoch: U64, ttl: U64, now: U64)
      returns (reply: A.Reply)
      modifies this`attempts
      ensures attempts == A.Step(old(attempts), A.Event(A.PublishActive(runId, attemptId, leaseEpoch, ttl), now))
      ensures reply == old(AttemptReply(A.PublishActive(runId, attemptId, leaseEpoch, ttl), now))
    {
      assert runId in attempts ==> attempts == attempts[runId := attempts[runId]];
      if IsBlank(runId) || IsBlank(attemptId) || leaseEpoch == 0 {
        return A.Rejected;
      }
      var revision: U64 := 1;
      if runId in attempts {
        var record := attempts[runId];
        if record.leaseEpoch > leaseEpoch ||
           (record.leaseEpoch == leaseEpoch && (record.attemptId != attemptId || record.state.Terminal?)) {
          return A.Flag(false);
        }
        revision := SaturatingAdd(record.revision, 1);
      }
      attempts := attempts[runId := A.AttemptRecord(revision, runId, attemptId, leaseEpoch, A.Active,
                                                    now, Deadline(now, ttl), None)];
      return A.Flag(true);
    }

    method PublishAttemptTerminal(runId: string, attemptId: string, leaseEpoch: U64, result: A.Value, now: U64)
      returns (accepted: bool)
      modifies this`attempts
      ensures attempts == A.Step(old(attempts), A.Event(A.PublishTerminal(runId, attemptId, leaseEpoch, result), now))
      ensures A.Flag(accepted) == old(AttemptReply(A.PublishTerminal(runId, attemptId, leaseEpoch, result), now))
    {
      if runId !in attempts {
        return false;
      }
      var record := attempts[runId];
      assert attempts == attempts[runId := record];
      if record.attemptId != attemptId || record.leaseEpoch != leaseEpoch {
        return false;
      }
      if record.state.Terminal? {
        return record.result == Some(result);
      }
      attempts := attempts[runId := record.(revision := SaturatingAdd(record.revision, 1), state := A.Terminal,
                                            heartbeatAt := now, expiresAt := now, result := Some(result))];
      return true;
    }

    method HeartbeatAttempt(runId: string, attemptId: string, leaseEpoch: U64, ttl: U64, now: U64)
      returns (accepted: bool)
      modifies this`attempts
      ensures attempts == A.Step(old(attempts), A.Event(A.Heartbeat(runId, attemptId, leaseEpoch, ttl), now))
      ensures A.Flag(accepted) == old(AttemptReply(A.Heartbeat(runId, attemptId, leaseEpoch, ttl), now))
    {
      if runId !in attempts {
        return false;
      }
      var record := attempts[runId];
      assert attempts == attempts[runId := record];
      if record.attemptId != attemptId || record.leaseEpoch != leaseEpoch || !record.state.Active? {
        return false;
      }
      attempts := attempts[runId := record.(revision := SaturatingAdd(record.revision, 1),
                                            heartbeatAt := now, expiresAt := Deadline(now, ttl))];
      return true;
    }
  }
}
