/**
 The registry of the attempt currently working on each Run: fenced by lease epoch,
 closed by one terminal result per epoch.
 */
module AttemptRegistry {
  import opened Basics

  datatype AttemptState = Active | Terminal

  /** `Value` is an arbitrary JSON document; only equality matters here. */
  type Value = string

  datatype AttemptRecord = AttemptRecord(
    revision: U64, runId: string, attemptId: string, leaseEpoch: U64, state: AttemptState,
    heartbeatAt: U64, expiresAt: U64, result: Option<Value>)
  {
    predicate IsLiveAt(now: U64) {
      state.Active? && expiresAt > now
    }
  }

  datatype Call =
    | PublishActive(runId: string, attemptId: string, leaseEpoch: U64, ttl: U64)
    | PublishTerminal(runId: string, attemptId: string, leaseEpoch: U64, result: Value)
    | Heartbeat(runId: string, attemptId: string, leaseEpoch: U64, ttl: U64)

  datatype Reply = Flag(accepted: bool) | Rejected

  datatype Effect = Effect(record: Option<AttemptRecord>, reply: Reply)

  function PublishActiveEffect(record: Option<AttemptRecord>, call: Call, now: U64): Effect
    requires call.PublishActive?
  {
    if IsBlank(call.runId) || IsBlank(call.attemptId) || call.leaseEpoch == 0 then
      Effect(record, Rejected)
    else if record.Some? &&
            (|| record.value.leaseEpoch > call.leaseEpoch
             || (record.value.leaseEpoch == call.leaseEpoch &&
                 (record.value.attemptId != call.attemptId || record.value.state.Terminal?))) then
      Effect(record, Flag(false))
    else
      var revision := if record.Some? then SaturatingAdd(record.value.revision, 1) else 1;
      Effect(Some(AttemptRecord(revision, call.runId, call.attemptId, call.leaseEpoch, Active,
                                now, Deadline(now, call.ttl), None)),
             Flag(true))
  }

  function PublishTerminalEffect(record: Option<AttemptRecord>, call: Call, now: U64): Effect
    requires call.PublishTerminal?
  {
    if record.None? || record.value.attemptId != call.attemptId || record.value.leaseEpoch != call.leaseEpoch then
      Effect(record, Flag(false))
    else if record.value.state.Terminal? then
      Effect(record, Flag(record.value.result == Some(call.result)))
    else
      Effect(Some(record.value.(revision := SaturatingAdd(record.value.revision, 1), state := Terminal,
                                heartbeatAt := now, expiresAt := now, result := Some(call.result))),
             Flag(true))
  }

  function HeartbeatEffect(record: Option<AttemptRecord>, call: Call, now: U64): Effect
    requires call.Heartbeat?
  {
    if || record.None? || record.value.attemptId != call.attemptId
       || record.value.leaseEpoch != call.leaseEpoch || !record.value.state.Active? then
      Effect(record, Flag(false))
    else
      Effect(Some(record.value.(revision := SaturatingAdd(record.value.revision, 1),
                                heartbeatAt := now, expiresAt := Deadline(now, call.ttl))),
             Flag(true))
  }

  function CallEffect(record: Option<AttemptRecord>, call: Call, now: U64): Effect {
    match call
    case PublishActive(_, _, _, _) => PublishActiveEffect(record, call, now)
    case PublishTerminal(_, _, _, _) => PublishTerminalEffect(record, call, now)
    case Heartbeat(_, _, _, _) => HeartbeatEffect(record, call, now)
  }

  // ---- Traces ----

  datatype Event = Event(call: Call, now: U64)

  function Lookup(attempts: map<string, AttemptRecord>, runId: string): Option<AttemptRecord> {
    if runId in attempts then Some(attempts[runId]) else None
  }

  function Step(attempts: map<string, AttemptRecord>, event: Event): map<string, AttemptRecord> {
    var effect := CallEffect(Lookup(attempts, event.call.runId), event.call, event.now);
    if effect.record.Some? then attempts[event.call.runId := effect.record.value] else attempts
  }

  function AttemptsAfter(trace: seq<Event>, n: nat): map<string, AttemptRecord>
    requires n <= |trace|
  {
    if n == 0 then map[] else Step(AttemptsAfter(trace, n - 1), trace[n - 1])
  }

  function RecordAt(trace: seq<Event>, n: nat, runId: string): Option<AttemptRecord>
    requires n <= |trace|
  {
    Lookup(AttemptsAfter(trace, n), runId)
  }

  function ReplyAt(trace: seq<Event>, i: nat): Reply
    requires i < |trace|
  {
    CallEffect(RecordAt(trace, i, trace[i].call.runId), trace[i].call, trace[i].now).reply
  }

  /** (epoch, state) with Active below Terminal, compared lexicographically. */
  predicate NotBehind(before: AttemptRecord, after: AttemptRecord) {
    || before.leaseEpoch < after.leaseEpoch
    || (before.leaseEpoch == after.leaseEpoch && (before.state.Terminal? ==> after.state.Terminal?))
  }

  /** A result is on record exactly for terminal attempts. */
  predicate WellFormed(runId: string, record: AttemptRecord) {
    && record.runId == runId
    && record.leaseEpoch >= 1
    && (record.state.Terminal? <==> record.result.Some?)
  }

  predicate Develops(before: Option<AttemptRecord>, after: Option<AttemptRecord>) {
    before.Some? ==>
      && after.Some?
      && NotBehind(before.value, after.value)
      && before.value.revision <= after.value.revision
      && (before.value.revision == after.value.revision < U64_MAX ==> before == after)
      && (before.value.leaseEpoch == after.value.leaseEpoch ==>
            && before.value.attemptId == after.value.attemptId
            && (before.value.state.Terminal? ==> before == after))
  }

  lemma RecordStep(trace: seq<Event>, n: nat, runId: string)
    requires n < |trace|
    ensures RecordAt(trace, n + 1, runId) ==
            if trace[n].call.runId == runId
            then CallEffect(RecordAt(trace, n, runId), trace[n].call, trace[n].now).record
            else RecordAt(trace, n, runId)
  {
    assert AttemptsAfter(trace, n + 1) == Step(AttemptsAfter(trace, n), trace[n]);
  }

  lemma {:induction false} RecordsWellFormed(trace: seq<Event>, n: nat, runId: string)
    requires n <= |trace|
    ensures RecordAt(trace, n, runId).Some? ==> WellFormed(runId, RecordAt(trace, n, runId).value)
  {
    if n > 0 {
      RecordsWellFormed(trace, n - 1, runId);
      RecordStep(trace, n - 1, runId);
    }
  }

  /**
   Over any stretch of any trace: (epoch, state) never moves back, an epoch keeps its attempt, a
   terminal record never changes within its epoch, and equal unsaturated revisions mean equal records.
   */
  lemma {:induction false} RecordsDevelop(trace: seq<Event>, i: nat, j: nat, runId: string)
    requires i <= j <= |trace|
    ensures Develops(RecordAt(trace, i, runId), RecordAt(trace, j, runId))
    decreases j - i
  {
    if i < j {
      RecordsDevelop(trace, i, j - 1, runId);
      RecordStep(trace, j - 1, runId);
    }
  }

  /** Number of calls before `n` that wrote the record of `runId`. */
  function Writes(trace: seq<Event>, n: nat, runId: string): nat
    requires n <= |trace|
  {
    if n == 0 then 0
    else Writes(trace, n - 1, runId) +
         if RecordAt(trace, n, runId) != RecordAt(trace, n - 1, runId) then 1 else 0
  }

  /** The revision counts the writes, until it saturates. */
  lemma {:induction false} RevisionCountsWrites(trace: seq<Event>, n: nat, runId: string)
    requires n <= |trace|
    ensures RecordAt(trace, n, runId).None? <==> Writes(trace, n, runId) == 0
    ensures RecordAt(trace, n, runId).Some? ==>
              RecordAt(trace, n, runId).value.revision == U64_MAX ||
              RecordAt(trace, n, runId).value.revision == Writes(trace, n, runId)
  {
    if n > 0 {
      RevisionCountsWrites(trace, n - 1, runId);
      RecordStep(trace, n - 1, runId);
    }
  }

  /**
   Below saturation a call writes exactly when it is accepted, except that repeating the terminal
   result already on record is accepted without a write.
   */
  lemma AcceptedMeansWritten(trace: seq<Event>, i: nat)
    requires i < |trace|
    requires RecordAt(trace, i, trace[i].call.runId).Some? ==>
             RecordAt(trace, i, trace[i].call.runId).value.revision < U64_MAX
    ensures var runId := trace[i].call.runId;
            RecordAt(trace, i + 1, runId) != RecordAt(trace, i, runId) <==>
            && ReplyAt(trace, i) == Flag(true)
            && !(trace[i].call.PublishTerminal? && RecordAt(trace, i, runId).value.state.Terminal?)
  {
    RecordStep(trace, i, trace[i].call.runId);
  }

  /** The first terminal result of an epoch is the only one ever acknowledged for it. */
  lemma TerminalResultIsUnique(trace: seq<Event>, i: nat, j: nat, runId: string)
    requires i < j < |trace|
    requires trace[i].call.PublishTerminal? && trace[j].call.PublishTerminal?
    requires trace[i].call.runId == trace[j].call.runId == runId
    requires trace[i].call.leaseEpoch == trace[j].call.leaseEpoch
    requires ReplyAt(trace, i) == Flag(true)
    ensures ReplyAt(trace, j) == Flag(true) ==>
              && trace[i].call.result == trace[j].call.result
              && trace[i].call.attemptId == trace[j].call.attemptId
              && RecordAt(trace, j + 1, runId) == RecordAt(trace, i + 1, runId)
  {
    RecordStep(trace, i, runId);
    RecordsWellFormed(trace, i, runId);
    RecordsDevelop(trace, i + 1, j, runId);
    RecordStep(trace, j, runId);
  }

  /** After a terminal result, the Run has no live attempt until a higher epoch is published. */
  lemma TerminalAttemptStaysDead(trace: seq<Event>, i: nat, j: nat, runId: string, now: U64)
    requires i <= j <= |trace|
    requires RecordAt(trace, i, runId).Some? && RecordAt(trace, i, runId).value.state.Terminal?
    ensures RecordAt(trace, j, runId).Some?
    ensures RecordAt(trace, j, runId).value.IsLiveAt(now) ==>
              RecordAt(trace, j, runId).value.leaseEpoch > RecordAt(trace, i, runId).value.leaseEpoch
  {
    RecordsDevelop(trace, i, j, runId);
  }

  // ---- What the answers mean ----

  /**
   An attempt is published exactly with a valid request, on a Run without a newer epoch and without another or a
   finished attempt of the same epoch. It is then the active attempt on record, from now until the deadline.
   */
  lemma PublishActiveExactly(trace: seq<Event>, i: nat, record: Option<AttemptRecord>, after: Option<AttemptRecord>)
    requires i < |trace| && trace[i].call.PublishActive?
    requires record == RecordAt(trace, i, trace[i].call.runId) && after == RecordAt(trace, i + 1, trace[i].call.runId)
    ensures var call := trace[i].call;
            && (ReplyAt(trace, i) == Rejected <==>
                  IsBlank(call.runId) || IsBlank(call.attemptId) || call.leaseEpoch == 0)
            && (ReplyAt(trace, i) == Flag(true) <==>
                  && ReplyAt(trace, i) != Rejected
                  && (record.Some? ==>
                        || record.value.leaseEpoch < call.leaseEpoch
                        || (record.value.leaseEpoch == call.leaseEpoch
                            && record.value.attemptId == call.attemptId && record.value.state.Active?)))
            && (ReplyAt(trace, i) != Flag(true) ==> after == record)
    ensures ReplyAt(trace, i) == Flag(true) ==>
              && after.Some? && after.value.attemptId == trace[i].call.attemptId
              && after.value.leaseEpoch == trace[i].call.leaseEpoch && after.value.state.Active?
              && after.value.heartbeatAt == trace[i].now && after.value.result.None?
              && IsDeadline(after.value.expiresAt, trace[i].now, trace[i].call.ttl)
  {
    RecordStep(trace, i, trace[i].call.runId);
    DeadlineIs(trace[i].now, trace[i].call.ttl);
  }

  /** A heartbeat is accepted exactly from the active attempt on record; it moves the expiry and nothing else. */
  lemma HeartbeatExactly(trace: seq<Event>, i: nat, record: Option<AttemptRecord>, after: Option<AttemptRecord>)
    requires i < |trace| && trace[i].call.Heartbeat?
    requires record == RecordAt(trace, i, trace[i].call.runId) && after == RecordAt(trace, i + 1, trace[i].call.runId)
    ensures var call := trace[i].call;
            && (ReplyAt(trace, i) == Flag(true) <==>
                  && record.Some? && record.value.state.Active?
                  && record.value.attemptId == call.attemptId && record.value.leaseEpoch == call.leaseEpoch)
            && (ReplyAt(trace, i) != Flag(true) ==> ReplyAt(trace, i) == Flag(false) && after == record)
    ensures ReplyAt(trace, i) == Flag(true) ==>
              && after.Some? && after.value.heartbeatAt == trace[i].now
              && IsDeadline(after.value.expiresAt, trace[i].now, trace[i].call.ttl)
              && after.value == record.value.(revision := after.value.revision, heartbeatAt := trace[i].now,
                                              expiresAt := after.value.expiresAt)
  {
    RecordStep(trace, i, trace[i].call.runId);
    DeadlineIs(trace[i].now, trace[i].call.ttl);
  }

  /**
   A terminal result is accepted exactly from the attempt on record, if it is the first or the one already there;
   then it is on record and the attempt is no longer live.
   */
  lemma PublishTerminalExactly(trace: seq<Event>, i: nat, record: Option<AttemptRecord>, after: Option<AttemptRecord>)
    requires i < |trace| && trace[i].call.PublishTerminal?
    requires record == RecordAt(trace, i, trace[i].call.runId) && after == RecordAt(trace, i + 1, trace[i].call.runId)
    ensures var call := trace[i].call;
            && (ReplyAt(trace, i) == Flag(true) <==>
                  && record.Some? && record.value.attemptId == call.attemptId
                  && record.value.leaseEpoch == call.leaseEpoch
                  && record.value.result in {None, Some(call.result)})
            && (ReplyAt(trace, i) != Flag(true) ==> ReplyAt(trace, i) == Flag(false) && after == record)
    ensures ReplyAt(trace, i) == Flag(true) ==>
              && after.Some? && after.value.result == Some(trace[i].call.result) && after.value.state.Terminal?
              && after.value.attemptId == record.value.attemptId && after.value.leaseEpoch == record.value.leaseEpoch
              && (record.value.state.Active? ==>
                    after.value.heartbeatAt == trace[i].now && after.value.expiresAt == trace[i].now)
              && forall now: U64 :: !after.value.IsLiveAt(now)
  {
    RecordStep(trace, i, trace[i].call.runId);
    RecordsWellFormed(trace, i, trace[i].call.runId);
  }

  /** An attempt is live exactly until its deadline, counted from its last accepted publication or heartbeat. */
  lemma LiveUntilDeadline(trace: seq<Event>, i: nat, now: U64)
    requires i < |trace| && !trace[i].call.PublishTerminal? && ReplyAt(trace, i) == Flag(true)
    ensures var after, call := RecordAt(trace, i + 1, trace[i].call.runId), trace[i].call;
            && after.Some?
            && (trace[i].now + (if call.ttl == 0 then 1 else call.ttl) <= U64_MAX ==>
                  (after.value.IsLiveAt(now) <==> now < trace[i].now + if call.ttl == 0 then 1 else call.ttl))
  {
    var runId := trace[i].call.runId;
    if trace[i].call.PublishActive? {
      PublishActiveExactly(trace, i, RecordAt(trace, i, runId), RecordAt(trace, i + 1, runId));
    } else {
      HeartbeatExactly(trace, i, RecordAt(trace, i, runId), RecordAt(trace, i + 1, runId));
    }
  }
}
