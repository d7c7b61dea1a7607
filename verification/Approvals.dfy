/**
 Tool approvals: the decision race in the store, and the runner's rules for who may run the tool.
 In the store the first decision wins; on Postgres a decision is a read and a conditional UPDATE, so any number of
 decisions, expiry sweeps and reconcilers interleave between the two.
 */
module Approvals {
  type ApprovalId = string
  type CallId = nat

  datatype Status = Pending | Approved | Denied | TimedOut | Cancelled | Stale

  datatype Record =
    Record(status: Status, generation: int, expiresAt: int, reason: string, decidedAt: int, revision: int)

  function NewRecord(generation: int, expiresAt: int): Record {
    Record(Pending, generation, expiresAt, "", 0, 1)
  }

  function Decided(r: Record, decision: Status, reason: string, now: int): Record {
    Record(decision, r.generation, r.expiresAt, reason, now, r.revision + 1)
  }

  /** The guard in front of every decision; an expired pending record belongs to the sweep. */
  predicate MayDecide(r: Record, decision: Status, now: int) {
    r.status.Pending? && (now <= r.expiresAt || decision.TimedOut?)
  }

  /** The UPDATE's WHERE clause: strict where the guard is not. */
  predicate RowMatches(r: Record, decision: Status, now: int) {
    r.status.Pending? && (now < r.expiresAt || decision.TimedOut?)
  }

  /** The two backends differ in exactly one instant: a manual decision at the moment of expiry. */
  lemma BackendsDisagreeOnlyAtExpiry(r: Record, decision: Status, now: int)
    ensures MayDecide(r, decision, now) != RowMatches(r, decision, now) <==>
      r.status.Pending? && !decision.TimedOut? && now == r.expiresAt
  {
  }

  // ---- the in-process store ----

  function Decide(m: map<ApprovalId, Record>, id: ApprovalId, decision: Status, reason: string, now: int):
    (map<ApprovalId, Record>, bool)
  {
    if id in m && MayDecide(m[id], decision, now) then (m[id := Decided(m[id], decision, reason, now)], true)
    else (m, false)
  }

  predicate Overdue(r: Record, now: int) { r.status.Pending? && now > r.expiresAt }

  function Expire(m: map<ApprovalId, Record>, now: int): map<ApprovalId, Record> {
    map id | id in m :: if Overdue(m[id], now) then Decided(m[id], TimedOut, m[id].reason, now) else m[id]
  }

  class MemoryStore {
    var approvals: map<ApprovalId, Record>

    method DecideApproval(id: ApprovalId, decision: Status, reason: string, now: int) returns (won: bool)
      modifies this
      ensures (approvals, won) == Decide(old(approvals), id, decision, reason, now)
    {
      if id !in approvals || !approvals[id].status.Pending? { return false; }
      if now > approvals[id].expiresAt && !decision.TimedOut? { return false; }
      var r := approvals[id];
      r := r.(status := decision, reason := reason, decidedAt := now);
      approvals := approvals[id := r.(revision := r.revision + 1)];
      won := true;
    }

    method ExpireApprovals(now: int) returns (expired: set<ApprovalId>)
      modifies this
      ensures approvals == Expire(old(approvals), now)
      ensures expired == set id | id in old(approvals) && Overdue(old(approvals)[id], now)
    {
      expired := {};
      var todo := approvals.Keys;
      while todo != {}
        invariant todo <= old(approvals).Keys == approvals.Keys
        invariant expired == set id | id in old(approvals) && id !in todo && Overdue(old(approvals)[id], now)
        invariant forall id :: id in approvals ==>
          approvals[id] == (if id in todo then old(approvals)[id] else Expire(old(approvals), now)[id])
        decreases |todo|
      {
        var id :| id in todo;
        var r := approvals[id];
        if r.status.Pending? && now > r.expiresAt {
          approvals := approvals[id := r.(status := TimedOut, decidedAt := now, revision := r.revision + 1)];
          expired := expired + {id};
        }
        todo := todo - {id};
      }
    }
  }

  /** In process, too, the first decision wins: whatever is tried later, a decided record stays as it is. */
  lemma DecidedIsFinalInMemory(m: map<ApprovalId, Record>, id: ApprovalId, other: ApprovalId,
                             decision: Status, reason: string, now: int)
    requires id in m && !m[id].status.Pending?
    ensures id in Decide(m, other, decision, reason, now).0 && Decide(m, other, decision, reason, now).0[id] == m[id]
    ensures id in Expire(m, now) && Expire(m, now)[id] == m[id]
  {
  }

  /** In process a decision goes through exactly on a pending record, in time or at its time, or to time it out; the
      record then carries what was asked for, and nothing else moves. */
  lemma DecidesExactlyInMemory(m: map<ApprovalId, Record>, id: ApprovalId, decision: Status, reason: string, now: int)
    ensures var (m', won) := Decide(m, id, decision, reason, now);
      && (won <==> id in m && m[id].status == Pending && (decision == TimedOut || now <= m[id].expiresAt))
      && (!won ==> m' == m)
      && (won ==>
            && m'.Keys == m.Keys && (forall other :: other in m && other != id ==> m'[other] == m[other])
            && m'[id].status == decision && m'[id].reason == reason && m'[id].decidedAt == now
            && m'[id].revision == m[id].revision + 1
            && m'[id].generation == m[id].generation && m'[id].expiresAt == m[id].expiresAt)
  {
  }

  /** The sweep times out exactly the pending records past their time. */
  lemma ExpiresExactlyInMemory(m: map<ApprovalId, Record>, id: ApprovalId, now: int)
    requires id in m
    ensures Expire(m, now).Keys == m.Keys
    ensures var r := Expire(m, now)[id];
      if m[id].status == Pending && m[id].expiresAt < now
      then r.status == TimedOut && r.decidedAt == now && r.reason == m[id].reason && r.generation == m[id].generation
      else r == m[id]
  {
  }

  // ---- Postgres and the runner, step by step ----

  /** Whether a timed-out approval may run its tool. */
  datatype Policy = AllowOnTimeout | DenyOnTimeout

  /** What a caller does once its decision has won. */
  datatype Then =
    | ResumeIfApproved
    | FollowPolicy(policy: Policy, generation: int)
    | Nothing

  datatype Call =
    | Resuming(id: ApprovalId, decision: Status, reason: string, generation: int, now: int)
    | Deciding(id: ApprovalId, decision: Status, reason: string, now: int, next: Then)
    | Updating(id: ApprovalId, update: Record, now: int, next: Then)
    | MayRun(id: ApprovalId, why: Reason)
    | Running(id: ApprovalId, why: Reason)
    | Recording(id: ApprovalId, why: Reason)
    | Finished

  /** Why the runner executed the tool: an approval, or a timeout, under its policy and at its generation. */
  datatype Reason = WasApproved | AfterTimeout(policy: Policy, generation: int)

  datatype Run = Run(id: ApprovalId, why: Reason)

  /**
   `resumed` are the approvals for which the session has a run under the request id of their resume now. `runs` and
   `claimed` are history: every execution of a tool, and the approvals whose request id a client used for a run of its
   own.
   */
  datatype State = State(
    table: map<ApprovalId, Record>, calls: map<CallId, Call>, runs: seq<Run>,
    resumed: set<ApprovalId>, claimed: set<ApprovalId>)

  const INIT := State(map[], map[], [], {}, {})

  datatype Step =
    | Create(id: ApprovalId, generation: int, expiresAt: int)
    | BeginResume(call: CallId, id: ApprovalId, decision: Status, reason: string, generation: int, now: int)
    | BeginCancel(call: CallId, id: ApprovalId, now: int)
    | BeginExpiry(call: CallId, id: ApprovalId, policy: Policy, generation: int, now: int)
    | BeginReconcile(call: CallId, id: ApprovalId, generation: int, now: int)
    | Proceed(call: CallId)
    | GiveUp(call: CallId)
    | Claim(id: ApprovalId)
    | Forget(id: ApprovalId)

  function Put(s: State, call: CallId, c: Call): State {
    s.(calls := s.calls[call := c])
  }

  /** Reading the record as `resume_approval` does first: a stale generation turns the decision into a stale one. */
  function AfterFirstRead(s: State, c: Call): Call
    requires c.Resuming?
  {
    if c.id !in s.table then Finished
    else if s.table[c.id].generation != c.generation
      then Deciding(c.id, Stale, "config generation changed", c.now, Nothing)
    else Deciding(c.id, c.decision, c.reason, c.now, ResumeIfApproved)
  }

  /** The read inside `decide_approval`; the update is prepared from what was read. */
  function AfterRead(s: State, c: Call): Call
    requires c.Deciding?
  {
    if c.id !in s.table || !MayDecide(s.table[c.id], c.decision, c.now) then Finished
    else Updating(c.id, Decided(s.table[c.id], c.decision, c.reason, c.now), c.now, c.next)
  }

  function AfterWin(c: Call): Call
    requires c.Updating?
  {
    match c.next
    case Nothing => Finished
    case ResumeIfApproved => if c.update.status.Approved? then MayRun(c.id, WasApproved) else Finished
    case FollowPolicy(policy, generation) =>
      if policy.AllowOnTimeout? && c.update.generation == generation
      then MayRun(c.id, AfterTimeout(policy, generation))
      else Finished
  }

  function ProceedCall(s: State, call: CallId): State {
    if call !in s.calls then s
    else
      var c := s.calls[call];
      match c
      case Resuming(_, _, _, _, _) => Put(s, call, AfterFirstRead(s, c))
      case Deciding(_, _, _, _, _) => Put(s, call, AfterRead(s, c))
      case Updating(id, update, now, _) =>
        if id in s.table && RowMatches(s.table[id], update.status, now)
        then Put(s.(table := s.table[id := update]), call, AfterWin(c))
        else Put(s, call, Finished)
      case MayRun(id, why) => Put(s, call, if id in s.resumed then Finished else Running(id, why))
      case Running(id, why) => Put(s.(runs := s.runs + [Run(id, why)]), call, Recording(id, why))
      case Recording(id, why) => Put(s.(resumed := s.resumed + {id}), call, Finished)
      case Finished => s
  }

  function Next(s: State, step: Step): State {
    match step
    case Create(id, generation, expiresAt) =>
      if id in s.table then s else s.(table := s.table[id := NewRecord(generation, expiresAt)])
    case BeginResume(call, id, decision, reason, generation, now) =>
      if call in s.calls || decision.Pending? then s else Put(s, call, Resuming(id, decision, reason, generation, now))
    case BeginCancel(call, id, now) =>
      if call in s.calls then s else Put(s, call, Deciding(id, Cancelled, "run deleted", now, Nothing))
    case BeginExpiry(call, id, policy, generation, now) =>
      // one row of the sweep's SELECT: pending and past its time
      if call in s.calls || id !in s.table || !Overdue(s.table[id], now) then s
      else Put(s, call, Deciding(id, TimedOut, "", now, FollowPolicy(policy, generation)))
    case BeginReconcile(call, id, generation, now) =>
      // one row of the reconciler's list
      if call in s.calls || id !in s.table then s
      else
        var r := s.table[id];
        if r.status.Pending? && r.generation != generation
        then Put(s, call, Deciding(id, Stale, "config generation changed", now, Nothing))
        else if r.status.Approved? then Put(s, call, MayRun(id, WasApproved))
        else s
    case Proceed(call) => ProceedCall(s, call)
    case GiveUp(call) =>
      // the tool or the session is not there
      if call in s.calls && s.calls[call].Running? then Put(s, call, Finished) else s
    case Claim(id) =>
      // a chat run is admitted under the request id of the resume
      s.(resumed := s.resumed + {id}, claimed := s.claimed + {id})
    case Forget(id) =>
      // the run record is evicted or swept
      s.(resumed := s.resumed - {id})
  }

  function Exec(s: State, steps: seq<Step>): State {
    if steps == [] then s else Next(Exec(s, steps[..|steps| - 1]), steps[|steps| - 1])
  }

  // ---- the invariant ----

  ghost predicate Entitled(s: State, id: ApprovalId, why: Reason) {
    && id in s.table
    && match why
       case WasApproved => s.table[id].status == Approved
       case AfterTimeout(policy, generation) =>
         policy == AllowOnTimeout && s.table[id].status == TimedOut && s.table[id].generation == generation
  }

  ghost predicate CallOk(s: State, c: Call) {
    match c
    case Resuming(_, decision, _, _, _) => decision != Pending
    case Deciding(_, decision, _, _, next) => decision != Pending && (next.FollowPolicy? ==> decision == TimedOut)
    case Updating(id, update, _, next) =>
      && id in s.table && update.status != Pending && update.revision == 2
      && update.generation == s.table[id].generation
      && (next.FollowPolicy? ==> update.status == TimedOut)
    case MayRun(id, why) => Entitled(s, id, why)
    case Running(id, why) => Entitled(s, id, why)
    case Recording(id, why) => RanFor(s, id)
    case Finished => true
  }

  ghost predicate RanFor(s: State, id: ApprovalId) {
    exists i :: 0 <= i < |s.runs| && s.runs[i].id == id
  }

  ghost predicate Invariant(s: State) {
    && (forall id :: id in s.table ==> s.table[id].revision == if s.table[id].status.Pending? then 1 else 2)
    && (forall call :: call in s.calls ==> CallOk(s, s.calls[call]))
    && (forall i :: 0 <= i < |s.runs| ==> Entitled(s, s.runs[i].id, s.runs[i].why))
    && (forall id :: id in s.resumed ==> Accounted(s, id))
  }

  /** The guard of a resume is up because its tool ran, or because a client's own run put it up. */
  ghost predicate Accounted(s: State, id: ApprovalId) { RanFor(s, id) || id in s.claimed }

  /** A step leaves every record as it is, unless it decides a pending one; it never takes a record away or changes its
      generation, and it only adds to the history. */
  ghost predicate Forward(s: State, s': State) {
    && s.runs <= s'.runs && s.claimed <= s'.claimed
    && forall id :: id in s.table ==>
      && id in s'.table && s'.table[id].generation == s.table[id].generation
      && (s'.table[id] == s.table[id] || (s.table[id].status.Pending? && !s'.table[id].status.Pending?))
  }

  lemma StepGoesForward(s: State, step: Step)
    requires Invariant(s)
    ensures Forward(s, Next(s, step))
  {
  }

  lemma EntitledStays(s: State, s': State, id: ApprovalId, why: Reason)
    requires Forward(s, s') && Entitled(s, id, why)
    ensures Entitled(s', id, why)
  {
  }

  lemma RanForStays(s: State, s': State, id: ApprovalId)
    requires s.runs <= s'.runs && RanFor(s, id)
    ensures RanFor(s', id)
  {
    var i :| 0 <= i < |s.runs| && s.runs[i].id == id;
    assert s'.runs[i] == s.runs[i];
  }

  lemma AccountedStays(s: State, s': State, id: ApprovalId)
    requires Forward(s, s') && Accounted(s, id)
    ensures Accounted(s', id)
  {
    if RanFor(s, id) { RanForStays(s, s', id); }
  }

  lemma CallStaysOk(s: State, s': State, c: Call)
    requires Forward(s, s') && CallOk(s, c)
    ensures CallOk(s', c)
  {
    if c.Recording? {
      RanForStays(s, s', c.id);
    }
  }

  /** The calls and the resume records of a state, seen from a later table and later executions. */
  lemma ForwardKeepsCalls(s: State, s': State)
    requires Invariant(s) && Forward(s, s') && s'.calls == s.calls
    ensures forall call :: call in s'.calls ==> CallOk(s', s'.calls[call])
    ensures forall id :: id in s.resumed ==> Accounted(s', id)
    ensures forall i :: 0 <= i < |s.runs| ==> Entitled(s', s.runs[i].id, s.runs[i].why)
  {
    forall call | call in s.calls ensures CallOk(s', s'.calls[call]) {
      CallStaysOk(s, s', s.calls[call]);
    }
    forall id | id in s.resumed ensures Accounted(s', id) {
      AccountedStays(s, s', id);
    }
    forall i | 0 <= i < |s.runs| ensures Entitled(s', s.runs[i].id, s.runs[i].why) {
      EntitledStays(s, s', s.runs[i].id, s.runs[i].why);
    }
  }

  lemma PutKeepsInvariant(s: State, call: CallId, c: Call)
    requires Invariant(s) && CallOk(s, c)
    ensures Invariant(Put(s, call, c))
  {
    var s' := Put(s, call, c);
    forall other | other in s'.calls ensures CallOk(s', s'.calls[other]) {
      CallStaysOk(s, s', if other == call then c else s.calls[other]);
    }
    forall id | id in s'.resumed ensures Accounted(s', id) {
      AccountedStays(s, s', id);
    }
  }

  lemma CreateKeepsInvariant(s: State, id: ApprovalId, generation: int, expiresAt: int)
    requires Invariant(s) && id !in s.table
    ensures Invariant(s.(table := s.table[id := NewRecord(generation, expiresAt)]))
  {
    ForwardKeepsCalls(s, s.(table := s.table[id := NewRecord(generation, expiresAt)]));
  }

  lemma UpdateKeepsInvariant(s: State, id: ApprovalId, update: Record)
    requires Invariant(s) && id in s.table && s.table[id].status.Pending?
    requires !update.status.Pending? && update.revision == 2 && update.generation == s.table[id].generation
    ensures Invariant(s.(table := s.table[id := update]))
  {
    ForwardKeepsCalls(s, s.(table := s.table[id := update]));
  }

  lemma RunKeepsInvariant(s: State, id: ApprovalId, why: Reason)
    requires Invariant(s) && Entitled(s, id, why)
    ensures Invariant(s.(runs := s.runs + [Run(id, why)])) && RanFor(s.(runs := s.runs + [Run(id, why)]), id)
  {
    var s' := s.(runs := s.runs + [Run(id, why)]);
    ForwardKeepsCalls(s, s');
    assert s'.runs[|s.runs|].id == id;
  }

  lemma RecordKeepsInvariant(s: State, resumed: set<ApprovalId>, claimed: set<ApprovalId>)
    requires Invariant(s) && s.claimed <= claimed
    requires forall id :: id in resumed ==> RanFor(s, id) || id in claimed
    ensures Invariant(s.(resumed := resumed, claimed := claimed))
  {
    var s' := s.(resumed := resumed, claimed := claimed);
    ForwardKeepsCalls(s, s');
    forall id | id in resumed ensures Accounted(s', id) {
      if RanFor(s, id) { RanForStays(s, s', id); }
    }
  }

  lemma ProceedKeepsInvariant(s: State, call: CallId)
    requires Invariant(s) && call in s.calls
    ensures Invariant(ProceedCall(s, call))
  {
    var c := s.calls[call];
    assert CallOk(s, c);
    match c
    case Resuming(_, _, _, _, _) => PutKeepsInvariant(s, call, AfterFirstRead(s, c));
    case Deciding(_, _, _, _, _) => PutKeepsInvariant(s, call, AfterRead(s, c));
    case Updating(_, _, _, _) => UpdatingKeepsInvariant(s, call);
    case MayRun(id, why) => PutKeepsInvariant(s, call, if id in s.resumed then Finished else Running(id, why));
    case Running(id, why) =>
      RunKeepsInvariant(s, id, why);
      PutKeepsInvariant(s.(runs := s.runs + [Run(id, why)]), call, Recording(id, why));
    case Recording(id, _) =>
      RecordKeepsInvariant(s, s.resumed + {id}, s.claimed);
      PutKeepsInvariant(s.(resumed := s.resumed + {id}), call, Finished);
    case Finished =>
  }

  lemma UpdatingKeepsInvariant(s: State, call: CallId)
    requires Invariant(s) && call in s.calls && s.calls[call].Updating?
    ensures Invariant(ProceedCall(s, call))
  {
    var c := s.calls[call];
    assert CallOk(s, c);
    if c.id in s.table && RowMatches(s.table[c.id], c.update.status, c.now) {
      UpdateKeepsInvariant(s, c.id, c.update);
      PutKeepsInvariant(s.(table := s.table[c.id := c.update]), call, AfterWin(c));
    } else {
      PutKeepsInvariant(s, call, Finished);
    }
  }

  lemma BeginKeepsInvariant(s: State, step: Step)
    requires Invariant(s) && (step.BeginResume? || step.BeginCancel? || step.BeginExpiry? || step.BeginReconcile?)
    ensures Invariant(Next(s, step))
  {
    var s' := Next(s, step);
    if s' != s {
      assert s' == Put(s, step.call, s'.calls[step.call]);
      PutKeepsInvariant(s, step.call, s'.calls[step.call]);
    }
  }

  lemma StepKeepsInvariant(s: State, step: Step)
    requires Invariant(s)
    ensures Invariant(Next(s, step))
  {
    match step
    case Create(id, generation, expiresAt) =>
      if id !in s.table { CreateKeepsInvariant(s, id, generation, expiresAt); }
    case Proceed(call) =>
      if call in s.calls { ProceedKeepsInvariant(s, call); }
    case GiveUp(call) =>
      PutKeepsInvariant(s, call, Finished);
    case Claim(id) => RecordKeepsInvariant(s, s.resumed + {id}, s.claimed + {id});
    case Forget(id) => RecordKeepsInvariant(s, s.resumed - {id}, s.claimed);
    case _ => BeginKeepsInvariant(s, step);
  }

  lemma {:induction false} ExecKeepsInvariant(steps: seq<Step>)
    ensures Invariant(Exec(INIT, steps))
    decreases |steps|
  {
    if steps != [] {
      ExecKeepsInvariant(steps[..|steps| - 1]);
      StepKeepsInvariant(Exec(INIT, steps[..|steps| - 1]), steps[|steps| - 1]);
    }
  }

  // ---- what holds after every interleaving ----

  lemma ExecSnoc(steps: seq<Step>, step: Step)
    ensures Exec(INIT, steps + [step]) == Next(Exec(INIT, steps), step)
  {
    assert (steps + [step])[..|steps|] == steps;
  }

  lemma ForwardIsTransitive(s: State, t: State, u: State)
    requires Forward(s, t) && Forward(t, u)
    ensures Forward(s, u)
  {
  }

  lemma {:induction false} MoreStepsGoForward(steps: seq<Step>, more: seq<Step>)
    ensures Forward(Exec(INIT, steps), Exec(INIT, steps + more))
    decreases |more|
  {
    if more == [] {
      assert steps + more == steps;
    } else {
      var n := |more| - 1;
      MoreStepsGoForward(steps, more[..n]);
      ExecKeepsInvariant(steps + more[..n]);
      StepGoesForward(Exec(INIT, steps + more[..n]), more[n]);
      ExecSnoc(steps + more[..n], more[n]);
      assert steps + more[..n] + [more[n]] == steps + more;
      ForwardIsTransitive(Exec(INIT, steps), Exec(INIT, steps + more[..n]), Exec(INIT, steps + more));
    }
  }

  /** Each approval leaves pending at most once and never changes afterwards. */
  lemma FirstDecisionWins(steps: seq<Step>, more: seq<Step>, id: ApprovalId)
    requires id in Exec(INIT, steps).table
    ensures var s, later := Exec(INIT, steps), Exec(INIT, steps + more);
      && s.table[id].revision == (if s.table[id].status.Pending? then 1 else 2)
      && id in later.table
      && (!s.table[id].status.Pending? ==> later.table[id] == s.table[id])
  {
    ExecKeepsInvariant(steps);
    MoreStepsGoForward(steps, more);
  }

  /** A tool runs only for an approval that is approved, or timed out and let through by a runner with the allow
      policy and the approval's own generation; so never for one denied, cancelled, stale or still pending. */
  lemma OnlyEntitledToolsRun(steps: seq<Step>, i: nat)
    requires i < |Exec(INIT, steps).runs|
    ensures var s := Exec(INIT, steps); var run := s.runs[i];
      && run.id in s.table
      && (s.table[run.id].status == Approved ||
          (s.table[run.id].status == TimedOut && run.why == AfterTimeout(AllowOnTimeout, s.table[run.id].generation)))
  {
    ExecKeepsInvariant(steps);
    assert Entitled(Exec(INIT, steps), Exec(INIT, steps).runs[i].id, Exec(INIT, steps).runs[i].why);
  }

  /** Where the guard ends a resume: the request id is taken. The tool never ran then only if a client took it. */
  lemma GuardEndsResumeExactly(s: State, call: CallId)
    requires Invariant(s) && call in s.calls && s.calls[call].MayRun?
    ensures var id := s.calls[call].id;
      && (Next(s, Proceed(call)).calls[call] == Finished <==> id in s.resumed)
      && Next(s, Proceed(call)).runs == s.runs
      && (id in s.resumed && !RanFor(s, id) ==> id in s.claimed)
  {
    assert s.calls[call].id in s.resumed ==> Accounted(s, s.calls[call].id);
  }

  /** And so it can happen that an approval is decided, its resume ends, and the tool has not run: a client's run had
      the request id first. */
  lemma ClaimedResumeEndsWithoutRun(id: ApprovalId, generation: int, expiresAt: int, now: int)
    returns (steps: seq<Step>)
    requires now < expiresAt
    ensures var s := Exec(INIT, steps);
      && id in s.table && s.table[id].status == Approved && id in s.claimed
      && s.calls == map[0 := Finished] && s.runs == []
  {
    var begin := [Create(id, generation, expiresAt), Claim(id), BeginResume(0, id, Approved, "", generation, now)];
    var p := Proceed(0);
    ExecThree(begin[0], begin[1], begin[2]);
    ClaimedBegin(id, generation, expiresAt, now);
    ExecSnoc(begin, p);
    ExecSnoc(begin + [p], p);
    ExecSnoc(begin + [p] + [p], p);
    ExecSnoc(begin + [p] + [p] + [p], p);
    ClaimedEnd(id, generation, expiresAt, now);
    steps := begin + [p] + [p] + [p] + [p];
  }

  lemma ExecThree(a: Step, b: Step, c: Step)
    ensures Exec(INIT, [a, b, c]) == Next(Next(Next(INIT, a), b), c)
  {
    assert [] + [a] == [a] && [a] + [b] == [a, b] && [a, b] + [c] == [a, b, c];
    ExecSnoc([], a);
    ExecSnoc([a], b);
    ExecSnoc([a, b], c);
  }

  /** The state of that run when the decision begins. */
  function ClaimedState(id: ApprovalId, generation: int, expiresAt: int, now: int): State {
    State(map[id := NewRecord(generation, expiresAt)], map[0 := Resuming(id, Approved, "", generation, now)], [],
          {id}, {id})
  }

  lemma ClaimedBegin(id: ApprovalId, generation: int, expiresAt: int, now: int)
    ensures Next(Next(Next(INIT, Create(id, generation, expiresAt)), Claim(id)),
                 BeginResume(0, id, Approved, "", generation, now)) == ClaimedState(id, generation, expiresAt, now)
  {
  }

  lemma ClaimedEnd(id: ApprovalId, generation: int, expiresAt: int, now: int)
    requires now < expiresAt
    ensures var s, p := ClaimedState(id, generation, expiresAt, now), Proceed(0);
      var t := Next(Next(Next(Next(s, p), p), p), p);
      && id in t.table && t.table[id].status == Approved && id in t.claimed
      && t.calls == map[0 := Finished] && t.runs == []
  {
    var s, p := ClaimedState(id, generation, expiresAt, now), Proceed(0);
    var approved := Decided(NewRecord(generation, expiresAt), Approved, "", now);
    var s2 := Next(Next(s, p), p);
    assert s2 == s.(calls := map[0 := Updating(id, approved, now, ResumeIfApproved)]);
    assert Next(s2, p) == s.(table := map[id := approved], calls := map[0 := MayRun(id, WasApproved)]);
  }
}
