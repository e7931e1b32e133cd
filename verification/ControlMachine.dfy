/**
 The authorization state machine of one controlled operation: one decision by an arbitrary
 controller, then one report of whether the operation was applied or failed.
 */
module ControlMachine {
  import opened Basics

  datatype Effect = Allow | Deny

  datatype State = Requested | Allowed | Denied | Applied(effect: Effect) | Failed(effect: Effect)

  datatype Reason =
    | AmbientNetwork | TrustedLocal | NetworkAllowList | NetworkDenied | NetworkAllowListEmpty
    | HostNotAllowed | PortNotAllowed | TransportNotAllowed | ResolvedAddressNotAllowed
    | ExplicitlyDenied | ModelAllowed | ModelNotAllowed | ProviderNotAllowed

  datatype Transition = Transition(from: State, to: State, reason: Reason)

  datatype ControlError = AlreadyAuthorized | InvalidAuthorization | NotAuthorized | CannotFollow | StateMismatch

  /** The report that follows a decision. */
  function Follow(decision: Transition, applied: bool): Result<Transition, ControlError> {
    if decision.to.Allowed? then
      Ok(Transition(Allowed, if applied then Applied(Allow) else Failed(Allow), decision.reason))
    else if decision.to.Denied? then
      Ok(Transition(Denied, if applied then Applied(Deny) else Failed(Deny), decision.reason))
    else Err(CannotFollow)
  }

  /** Calls on the machine; `Authorize` carries whatever the controller answered. */
  datatype Call = Authorize(answer: Transition) | ReportApplied | ReportFailed

  datatype Machine = Machine(state: State, history: seq<Transition>)

  const NEW := Machine(Requested, [])

  /** The transition a call asks for, before the machine checks where it starts. */
  function Asked(m: Machine, call: Call): Result<Transition, ControlError> {
    match call
    case Authorize(answer) =>
      if !m.state.Requested? then Err(AlreadyAuthorized)
      else if answer.from.Requested? && (answer.to.Allowed? || answer.to.Denied?) then Ok(answer)
      else Err(InvalidAuthorization)
    case _ =>
      if m.history == [] then Err(NotAuthorized) else Follow(m.history[|m.history| - 1], call.ReportApplied?)
  }

  function Outcome(m: Machine, call: Call): Result<Transition, ControlError> {
    var asked := Asked(m, call);
    if asked.Ok? && asked.value.from != m.state then Err(StateMismatch) else asked
  }

  function Next(m: Machine, call: Call): Machine {
    var outcome := Outcome(m, call);
    if outcome.Ok? then Machine(outcome.value.to, m.history + [outcome.value]) else m
  }

  function MachineAfter(calls: seq<Call>, n: nat): Machine
    requires n <= |calls|
  {
    if n == 0 then NEW else Next(MachineAfter(calls, n - 1), calls[n - 1])
  }

  predicate IsDecision(t: Transition) {
    t.from.Requested? && (t.to.Allowed? || t.to.Denied?)
  }

  /** A report keeps the effect and the reason of the decision it follows. */
  predicate Reports(t: Transition, decision: Transition) {
    && t.from == decision.to
    && t.reason == decision.reason
    && (t.to.Applied? || t.to.Failed?)
    && (t.to.effect.Allow? <==> decision.to.Allowed?)
  }

  /** Nothing yet, one decision, or a decision and its report; the state is where the history ends. */
  predicate Consistent(m: Machine) {
    match |m.history|
    case 0 => m.state.Requested?
    case 1 => IsDecision(m.history[0]) && m.state == m.history[0].to
    case 2 => IsDecision(m.history[0]) && Reports(m.history[1], m.history[0]) && m.state == m.history[1].to
    case _ => false
  }

  lemma NextConsistent(m: Machine, call: Call)
    requires Consistent(m)
    ensures Consistent(Next(m, call))
    ensures Outcome(m, call) != Err(StateMismatch)
    ensures Outcome(m, call).Ok? <==>
            if call.Authorize? then |m.history| == 0 && IsDecision(call.answer) else |m.history| == 1
    ensures Outcome(m, call).Err? ==>
              Outcome(m, call).error == if call.Authorize? then (if m.history == [] then InvalidAuthorization
                                                                 else AlreadyAuthorized)
                                        else if m.history == [] then NotAuthorized else CannotFollow
    ensures Outcome(m, call).Ok? ==>
              && Next(m, call).history == m.history + [Outcome(m, call).value]
              && Next(m, call).state == Outcome(m, call).value.to
              && match call
                 case Authorize(answer) => Outcome(m, call).value == answer
                 case ReportApplied => Next(m, call).state.Applied?
                 case ReportFailed => Next(m, call).state.Failed?
  {
  }

  /**
   Whatever controllers answer and callers report, the history stays a connected chain from Requested of at
   most two transitions ending in the current state, and the check of the starting state never fails.
   */
  lemma {:induction false} ReachableIsConsistent(calls: seq<Call>, n: nat)
    requires n <= |calls|
    ensures Consistent(MachineAfter(calls, n))
    ensures n < |calls| ==> Outcome(MachineAfter(calls, n), calls[n]) != Err(StateMismatch)
  {
    if n > 0 {
      ReachableIsConsistent(calls, n - 1);
      NextConsistent(MachineAfter(calls, n - 1), calls[n - 1]);
    }
    if n < |calls| {
      NextConsistent(MachineAfter(calls, n), calls[n]);
    }
  }

  /**
   Over any run the state records what was reported: applied or failed as the report said, allowed or denied as the
   one accepted decision said.
   */
  lemma StateIsWhatWasReported(calls: seq<Call>, n: nat)
    requires n < |calls| && Outcome(MachineAfter(calls, n), calls[n]).Ok?
    ensures var before, after := MachineAfter(calls, n), MachineAfter(calls, n + 1);
            && (after.state.Applied? <==> calls[n].ReportApplied?)
            && (after.state.Failed? <==> calls[n].ReportFailed?)
            && (calls[n].Authorize? ==> after.state == calls[n].answer.to && after.history == [calls[n].answer])
            && (!calls[n].Authorize? ==> (after.state.effect.Allow? <==> before.state.Allowed?))
  {
    ReachableIsConsistent(calls, n);
    NextConsistent(MachineAfter(calls, n), calls[n]);
    assert MachineAfter(calls, n + 1) == Next(MachineAfter(calls, n), calls[n]);
    if calls[n].Authorize? {
      assert MachineAfter(calls, n).history == [];
    }
  }

  /** Every consistent machine is reached by some calls, so the chain is all there is to know. */
  lemma ConsistentIsReachable(m: Machine) returns (calls: seq<Call>)
    requires Consistent(m)
    ensures MachineAfter(calls, |calls|) == m
  {
    if m.history == [] {
      calls := [];
    } else if |m.history| == 1 {
      calls := [Authorize(m.history[0])];
      DecisionReached(m.history[0], calls);
      assert m.history == [m.history[0]];
    } else {
      calls := [Authorize(m.history[0]), if m.history[1].to.Applied? then ReportApplied else ReportFailed];
      DecisionReached(m.history[0], calls);
      ReportReached(m.history[0], m.history[1], calls[1]);
      assert m.history == [m.history[0], m.history[1]];
    }
  }

  lemma DecisionReached(decision: Transition, calls: seq<Call>)
    requires IsDecision(decision) && calls != [] && calls[0] == Authorize(decision)
    ensures MachineAfter(calls, 1) == Machine(decision.to, [decision])
  {
    assert MachineAfter(calls, 1) == Next(MachineAfter(calls, 0), calls[0]);
  }

  lemma ReportReached(decision: Transition, report: Transition, call: Call)
    requires IsDecision(decision) && Reports(report, decision)
    requires call == if report.to.Applied? then ReportApplied else ReportFailed
    ensures Next(Machine(decision.to, [decision]), call) == Machine(report.to, [decision, report])
  {
    assert [decision] + [report] == [decision, report];
  }

  /** The history only grows, so the first decision stands. */
  lemma {:induction false} HistoryGrows(calls: seq<Call>, i: nat, j: nat)
    requires i <= j <= |calls|
    ensures MachineAfter(calls, i).history <= MachineAfter(calls, j).history
    decreases j - i
  {
    if i < j {
      HistoryGrows(calls, i, j - 1);
    }
  }

  class Control {
    var state: State
    var history: seq<Transition>

    ghost function Snapshot(): Machine
      reads this
    {
      Machine(state, history)
    }

    constructor ()
      ensures Snapshot() == NEW
    {
      state, history := Requested, [];
    }

    method Commit(t: Transition) returns (r: Result<Transition, ControlError>)
      modifies this
      ensures r == if t.from == old(state) then Ok(t) else Err(StateMismatch)
      ensures Snapshot() == if r.Ok? then Machine(t.to, old(history) + [t]) else old(Snapshot())
    {
      if t.from != state {
        return Err(StateMismatch);
      }
      state := t.to;
      history := history + [t];
      return Ok(t);
    }

    method AuthorizeWith(answer: Transition) returns (r: Result<Transition, ControlError>)
      requires Consistent(Snapshot())
      modifies this
      ensures r == Outcome(old(Snapshot()), Authorize(answer))
      ensures Snapshot() == Next(old(Snapshot()), Authorize(answer)) && Consistent(Snapshot())
      ensures r.Ok? <==> old(history) == [] && IsDecision(answer)
      ensures r.Ok? ==> state == answer.to && history == [answer]
    {
      NextConsistent(Snapshot(), Authorize(answer));
      if state != Requested {
        return Err(AlreadyAuthorized);
      }
      if answer.from != Requested || !(answer.to.Allowed? || answer.to.Denied?) {
        return Err(InvalidAuthorization);
      }
      r := Commit(answer);
    }

    method Report(applied: bool) returns (r: Result<Transition, ControlError>)
      requires Consistent(Snapshot())
      modifies this
      ensures r == Outcome(old(Snapshot()), if applied then ReportApplied else ReportFailed)
      ensures Snapshot() == Next(old(Snapshot()), if applied then ReportApplied else ReportFailed)
              && Consistent(Snapshot())
      ensures r.Ok? <==> |old(history)| == 1
      ensures r.Ok? ==> if applied then state.Applied? else state.Failed?
      ensures r.Ok? ==> state.effect.Allow? == old(state).Allowed?
    {
      NextConsistent(Snapshot(), if applied then ReportApplied else ReportFailed);
      if history == [] {
        return Err(NotAuthorized);
      }
      var followed := Follow(history[|history| - 1], applied);
      if followed.Err? {
        return followed;
      }
      r := Commit(followed.value);
    }
  }
}
