/**
 Deciding an approval on Postgres and acting on the decision: a read, a check, a conditional UPDATE, and only then the
 resume guard and the tool. Between any two of them other callers may take any number of steps.
 */
module ApprovalRunner {
  import opened Basics
  import opened Approvals

  function StepCall(step: Step): Option<CallId> {
    match step
    case Create(_, _, _) => None
    case Claim(_) => None
    case Forget(_) => None
    case _ => Some(step.call)
  }

  lemma OthersLeaveCallAlone(s: State, step: Step, call: CallId)
    requires StepCall(step) != Some(call) && call in s.calls
    ensures call in Next(s, step).calls && Next(s, step).calls[call] == s.calls[call]
  {
  }

  /** How an attempt to resume ends: the tool ran, the session has a run under the request id of the resume already, or
      tool or session is missing. */
  datatype Resume = Ran | AlreadyRan | Unavailable

  /** What the caller of `resume_approval` is told, if anything. */
  datatype Answer = NoAnswer | Told(status: Status) | CannotRun

  /** An approval has one reason to run: the record tells which. */
  lemma OneReason(s: State, id: ApprovalId, why: Reason, other: Reason)
    requires Entitled(s, id, why) && Entitled(s, id, other)
    ensures why == other
  {
  }

  lemma RecordedRun(s: State, id: ApprovalId, why: Reason)
    requires Invariant(s) && id in s.resumed && Entitled(s, id, why)
    ensures RanOrClaimed(s, id, why)
  {
    assert Accounted(s, id);
    if RanFor(s, id) {
      var i :| 0 <= i < |s.runs| && s.runs[i].id == id;
      OneReason(s, id, why, s.runs[i].why);
    }
  }

  /** The tool has run for the approval, or a client's own run stands in for its resume. */
  ghost predicate RanOrClaimed(s: State, id: ApprovalId, why: Reason) { Run(id, why) in s.runs || id in s.claimed }

  lemma RanOrClaimedStays(s: State, s': State, id: ApprovalId, why: Reason)
    requires Forward(s, s') && RanOrClaimed(s, id, why)
    ensures RanOrClaimed(s', id, why)
  {
    if Run(id, why) in s.runs {
      var i :| 0 <= i < |s.runs| && s.runs[i] == Run(id, why);
      assert s'.runs[i] == Run(id, why);
    }
  }

  /** The decision matches the row. */
  predicate Wins(s: State, id: ApprovalId, decision: Status, now: int) {
    id in s.table && RowMatches(s.table[id], decision, now)
  }

  class Runner {
    var state: State

    constructor ()
      ensures state == INIT
    {
      state := INIT;
    }

    /** What others do while this call is suspended. */
    method Await(call: CallId)
      requires Invariant(state) && call in state.calls
      modifies this
      ensures Invariant(state) && call in state.calls && state.calls[call] == old(state.calls[call])
      ensures Forward(old(state), state)
    {
      var steps: seq<Step> := *;
      for i := 0 to |steps|
        invariant Invariant(state) && call in state.calls && state.calls[call] == old(state.calls[call])
        invariant Forward(old(state), state)
      {
        if StepCall(steps[i]) != Some(call) {
          StepKeepsInvariant(state, steps[i]);
          StepGoesForward(state, steps[i]);
          OthersLeaveCallAlone(state, steps[i], call);
          ForwardIsTransitive(old(state), state, Next(state, steps[i]));
          state := Next(state, steps[i]);
        }
      }
    }

    /** One step of this call. */
    method Take(step: Step)
      requires Invariant(state)
      modifies this
      ensures state == Next(old(state), step) && Invariant(state) && Forward(old(state), state)
    {
      StepKeepsInvariant(state, step);
      StepGoesForward(state, step);
      state := Next(state, step);
    }

    /** `decide_approval`. `last` is the state in which the call took its last step: the decision wins exactly if it
        matches the row then. That step writes the record if the decision won and leaves the table alone if it lost,
        and no earlier step of the call writes. */
    method DecideApproval(call: CallId, id: ApprovalId, decision: Status, reason: string, now: int, ghost next: Then)
      returns (won: bool, ghost last: State)
      requires Invariant(state) && call in state.calls && state.calls[call] == Deciding(id, decision, reason, now, next)
      modifies this
      ensures Invariant(state) && call in state.calls && Forward(old(state), last) && Forward(last, state)
      ensures won <==> Wins(last, id, decision, now)
      ensures !won ==> state.calls[call] == Finished && state.table == last.table && state.runs == last.runs
      ensures won ==>
        && id in state.table && last.table[id].status == Pending && state.runs == last.runs
        && state.table == last.table[id := Decided(last.table[id], decision, reason, now)]
        && state.calls[call] == AfterWin(Updating(id, state.table[id], now, next))
    {
      Await(call);
      last := state;
      var record := if id in state.table then Some(state.table[id]) else None;
      Take(Proceed(call));
      if record.None? || !record.value.status.Pending? { return false, last; }
      if now > record.value.expiresAt && !decision.TimedOut? { return false, last; }
      var update := Decided(record.value, decision, reason, now);
      assert state.calls[call] == Updating(id, update, now, next);
      Await(call);
      last := state;
      won := id in state.table && RowMatches(state.table[id], decision, now);
      Take(Proceed(call));
    }

    /** The guard: any run of the session under the request id of the resume ends this one. */
    method CheckGuard(call: CallId, id: ApprovalId, why: Reason) returns (already: bool)
      requires Invariant(state) && call in state.calls && state.calls[call] == MayRun(id, why)
      modifies this
      ensures Invariant(state) && Forward(old(state), state) && call in state.calls && Entitled(state, id, why)
      ensures already ==> state.calls[call] == Finished && RanOrClaimed(state, id, why)
      ensures !already ==> state.calls[call] == Running(id, why)
    {
      Await(call);
      assert CallOk(state, state.calls[call]);
      already := id in state.resumed;
      if already { RecordedRun(state, id, why); }
      Take(Proceed(call));
    }

    /** The tool, and then the run record of the resume. */
    method RunTool(call: CallId, id: ApprovalId, why: Reason)
      requires Invariant(state) && call in state.calls && state.calls[call] == Running(id, why)
      modifies this
      ensures Invariant(state) && Forward(old(state), state) && call in state.calls && state.calls[call] == Finished
      ensures Run(id, why) in state.runs && id in state.resumed
    {
      Take(Proceed(call));
      assert state.runs[|state.runs| - 1] == Run(id, why);
      Await(call);
      Take(Proceed(call));
    }

    /** The guard, the lookup of tool and session, and the tool. */
    method ExecuteResume(call: CallId, id: ApprovalId, why: Reason, available: bool) returns (resume: Resume)
      requires Invariant(state) && call in state.calls && state.calls[call] == MayRun(id, why)
      modifies this
      ensures Invariant(state) && Forward(old(state), state) && call in state.calls && state.calls[call] == Finished
      ensures Entitled(state, id, why)
      ensures resume.Ran? ==> available && id in state.resumed && Run(id, why) in state.runs
      ensures resume.AlreadyRan? ==> RanOrClaimed(state, id, why)
      ensures resume.Unavailable? ==> !available
    {
      var already := CheckGuard(call, id, why);
      if already { return AlreadyRan; }
      Await(call);
      if available {
        RunTool(call, id, why);
        resume := Ran;
      } else {
        Take(GiveUp(call));
        resume := Unavailable;
      }
    }

    /** The read that comes before the decision; `seen` is the state that it reads. */
    method FirstRead(call: CallId, id: ApprovalId, decision: Status, reason: string, generation: int, now: int)
      returns (before: Option<Record>, ghost seen: State)
      requires Invariant(state) && call !in state.calls && !decision.Pending?
      modifies this
      ensures Invariant(state) && Forward(old(state), seen) && Forward(seen, state) && call in state.calls
      ensures state.table == seen.table
      ensures before == if id in seen.table then Some(seen.table[id]) else None
      ensures state.calls[call] ==
        if before.None? then Finished
        else if before.value.generation != generation
            then Deciding(id, Stale, "config generation changed", now, Nothing)
        else Deciding(id, decision, reason, now, ResumeIfApproved)
    {
      Take(BeginResume(call, id, decision, reason, generation, now));
      Await(call);
      seen := state;
      before := if id in state.table then Some(state.table[id]) else None;
      Take(Proceed(call));
    }

    /** `resume_approval`: a stale generation is decided first; the tool is only looked at for a decision that won and
        approved, at its generation. `seen` is the state of the first read and `last` the one in which the decision took
        its last step: together they tell the answer. */
    method ResumeApproval(call: CallId, id: ApprovalId, decision: Status, reason: string, generation: int, now: int,
                          available: bool)
      returns (answer: Answer, ghost seen: State, ghost last: State)
      requires Invariant(state) && call !in state.calls && !decision.Pending?
      modifies this
      ensures Invariant(state) && Forward(old(state), state) && call in state.calls && state.calls[call] == Finished
      ensures Forward(old(state), seen) && Forward(seen, last) && Forward(last, state)
      ensures id !in seen.table ==> answer == NoAnswer
      ensures id in seen.table && seen.table[id].generation != generation ==>
        && answer == Told(Stale) && id in state.table
        && !(state.table[id].status.Pending? && now < state.table[id].expiresAt)
      ensures id in seen.table && seen.table[id].generation == generation ==>
        && (answer == NoAnswer <==> !Wins(last, id, decision, now))
        && (answer != NoAnswer ==> id in state.table && state.table[id].status == decision)
        && (answer != NoAnswer && decision != Approved ==> answer == Told(decision))
        && (answer != NoAnswer && decision == Approved ==>
              && (answer == CannotRun || answer == Told(Approved))
              && (available ==> answer == Told(Approved))
              && (answer == Told(Approved) ==> RanOrClaimed(state, id, WasApproved)))
    {
      var before;
      before, seen := FirstRead(call, id, decision, reason, generation, now);
      last := state;
      if before.None? { return NoAnswer, seen, last; }
      if before.value.generation != generation {
        last := DecideStale(call, id, now);
        return Told(Stale), seen, last;
      }
      answer, last := DecideAndResume(call, id, decision, reason, now, available);
      ForwardIsTransitive(old(state), seen, state);
    }

    /** A decision for another generation than the record's: whoever decides, the record is not open afterwards. */
    method DecideStale(call: CallId, id: ApprovalId, now: int) returns (ghost last: State)
      requires Invariant(state) && call in state.calls && id in state.table
      requires state.calls[call] == Deciding(id, Stale, "config generation changed", now, Nothing)
      modifies this
      ensures Invariant(state) && call in state.calls && state.calls[call] == Finished
      ensures Forward(old(state), last) && Forward(last, state) && Forward(old(state), state)
      ensures id in state.table && !(state.table[id].status.Pending? && now < state.table[id].expiresAt)
    {
      var won;
      won, last := DecideApproval(call, id, Stale, "config generation changed", now, Nothing);
      ForwardIsTransitive(old(state), last, state);
    }

    /** The decision, and the resume if it won and approved. */
    method DecideAndResume(call: CallId, id: ApprovalId, decision: Status, reason: string, now: int, available: bool)
      returns (answer: Answer, ghost last: State)
      requires Invariant(state) && call in state.calls && id in state.table
      requires state.calls[call] == Deciding(id, decision, reason, now, ResumeIfApproved)
      modifies this
      ensures Invariant(state) && call in state.calls && state.calls[call] == Finished
      ensures Forward(old(state), last) && Forward(last, state) && Forward(old(state), state)
      ensures answer == NoAnswer <==> !Wins(last, id, decision, now)
      ensures answer != NoAnswer ==> id in state.table && state.table[id].status == decision
      ensures answer != NoAnswer && decision != Approved ==> answer == Told(decision)
      ensures answer != NoAnswer && decision == Approved ==>
        && (answer == CannotRun || answer == Told(Approved))
        && (available ==> answer == Told(Approved))
        && (answer == Told(Approved) ==> RanOrClaimed(state, id, WasApproved))
    {
      var won;
      won, last := DecideApproval(call, id, decision, reason, now, ResumeIfApproved);
      ForwardIsTransitive(old(state), last, state);
      if !won { return NoAnswer, last; }
      if !decision.Approved? { return Told(decision), last; }
      ghost var decided := state;
      var resume := ExecuteResume(call, id, WasApproved, available);
      ForwardIsTransitive(last, decided, state);
      ForwardIsTransitive(old(state), last, state);
      answer := if resume.Unavailable? then CannotRun else Told(Approved);
    }

    /** One overdue row of the reconciler: the timeout is decided, and the policy followed if that decision won. `last`
        is the state in which the decision took its last step. Tells whether it counts as allowed. */
    method FollowTimeout(call: CallId, id: ApprovalId, policy: Policy, generation: int, now: int, available: bool)
      returns (allowed: bool, ghost last: State)
      requires Invariant(state) && call !in state.calls
      modifies this
      ensures Invariant(state) && Forward(old(state), last) && Forward(last, state)
      ensures id in old(state).table ==> id in state.table && !Overdue(state.table[id], now)
      ensures allowed ==>
        && id in old(state).table && Overdue(old(state).table[id], now)
        && policy == AllowOnTimeout && Wins(last, id, TimedOut, now)
        && state.table[id].status == TimedOut && state.table[id].generation == generation
        && RanOrClaimed(state, id, AfterTimeout(AllowOnTimeout, generation))
      ensures (&& available && policy == AllowOnTimeout && id in old(state).table && Overdue(old(state).table[id], now)
               && Wins(last, id, TimedOut, now) && last.table[id].generation == generation) ==> allowed
    {
      if id !in state.table || !Overdue(state.table[id], now) { return false, state; }
      Take(BeginExpiry(call, id, policy, generation, now));
      ghost var begun := state;
      var won;
      won, last := DecideApproval(call, id, TimedOut, "", now, FollowPolicy(policy, generation));
      ForwardIsTransitive(old(state), begun, last);
      if !won || policy.DenyOnTimeout? || state.table[id].generation != generation { return false, last; }
      ghost var decided := state;
      var resume := ExecuteResume(call, id, AfterTimeout(policy, generation), available);
      ForwardIsTransitive(last, decided, state);
      allowed := !resume.Unavailable?;
    }
  }
}
