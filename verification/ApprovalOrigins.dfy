/**
 Where decisions come from: whatever interleaves, the record of a decided approval is what some caller asked for or what
 its time or its generation demanded, and a tool runs only on behalf of such a decision.
 */
module ApprovalOrigins {
  import opened Approvals

  const CHANGED := "config generation changed"

  /** The record `r` of the approval `id` is what this step asks for: a client's decision at the record's own
      generation, a stale decision at any other one, the cancellation of its run, or a timeout of an overdue record. */
  predicate AsksFor(step: Step, id: ApprovalId, r: Record) {
    match step
    case BeginResume(_, i, decision, reason, generation, now) =>
      && i == id && r.decidedAt == now
      && if generation == r.generation then r.status == decision && r.reason == reason
         else r.status == Stale && r.reason == CHANGED
    case BeginCancel(_, i, now) => i == id && r.decidedAt == now && r.status == Cancelled && r.reason == "run deleted"
    case BeginExpiry(_, i, _, _, now) => i == id && r.decidedAt == now > r.expiresAt && r.status == TimedOut
    case BeginReconcile(_, i, generation, now) =>
      i == id && r.decidedAt == now && r.status == Stale && r.reason == CHANGED && generation != r.generation
    case _ => false
  }

  ghost predicate AskedFor(steps: set<Step>, id: ApprovalId, r: Record) {
    exists step :: step in steps && AsksFor(step, id, r)
  }

  /** A sweep under this policy, at this generation, found the approval overdue. */
  predicate SweepAsks(step: Step, id: ApprovalId, policy: Policy, generation: int, expiresAt: int) {
    && step.BeginExpiry? && step.id == id && step.policy == policy && step.generation == generation
    && step.now > expiresAt
  }

  ghost predicate SweptFor(steps: set<Step>, id: ApprovalId, policy: Policy, generation: int, expiresAt: int) {
    exists step :: step in steps && SweepAsks(step, id, policy, generation, expiresAt)
  }

  ghost predicate CreatedAs(steps: set<Step>, id: ApprovalId, r: Record) {
    Create(id, r.generation, r.expiresAt) in steps
  }

  function Taken(steps: seq<Step>): set<Step> { set step | step in steps }

  // ---- what the steps so far say about the records and the calls ----

  /** A record is as created, or as asked for and in time. */
  ghost predicate RecordExplained(steps: set<Step>, id: ApprovalId, r: Record) {
    && CreatedAs(steps, id, r)
    && (r.status.Pending? ==> r == NewRecord(r.generation, r.expiresAt))
    && (!r.status.Pending? ==> AskedFor(steps, id, r) && (r.status == TimedOut || r.decidedAt < r.expiresAt))
  }

  ghost predicate NextExplained(steps: set<Step>, id: ApprovalId, next: Then, expiresAt: int) {
    next.FollowPolicy? ==> SweptFor(steps, id, next.policy, next.generation, expiresAt)
  }

  ghost predicate ReasonExplained(s: State, steps: set<Step>, id: ApprovalId, why: Reason) {
    && id in s.table
    && (why.AfterTimeout? ==> SweptFor(steps, id, why.policy, why.generation, s.table[id].expiresAt))
  }

  ghost predicate CallExplained(s: State, steps: set<Step>, c: Call) {
    match c
    case Resuming(id, decision, reason, generation, now) =>
      exists call :: BeginResume(call, id, decision, reason, generation, now) in steps
    case Deciding(id, decision, reason, now, next) =>
      && (id in s.table ==> AskedFor(steps, id, Decided(s.table[id], decision, reason, now)))
      && (id !in s.table ==>
            decision == Cancelled && reason == "run deleted" && exists call :: BeginCancel(call, id, now) in steps)
      && (next.FollowPolicy? ==> id in s.table && NextExplained(steps, id, next, s.table[id].expiresAt))
    case Updating(id, update, now, next) =>
      && id in s.table && update.expiresAt == s.table[id].expiresAt && update.decidedAt == now
      && AskedFor(steps, id, update) && NextExplained(steps, id, next, update.expiresAt)
    case MayRun(id, why) => ReasonExplained(s, steps, id, why)
    case Running(id, why) => ReasonExplained(s, steps, id, why)
    case Recording(_, _) => true
    case Finished => true
  }

  ghost predicate Explained(s: State, steps: set<Step>) {
    && (forall id :: id in s.table ==> RecordExplained(steps, id, s.table[id]))
    && (forall call :: call in s.calls ==> CallExplained(s, steps, s.calls[call]))
    && (forall i :: 0 <= i < |s.runs| ==> ReasonExplained(s, steps, s.runs[i].id, s.runs[i].why))
  }

  /** Records keep when they expire, as they keep their generation. */
  ghost predicate KeepsTimes(s: State, s': State) {
    forall id :: id in s.table ==>
      && id in s'.table && s'.table[id].expiresAt == s.table[id].expiresAt
      && s'.table[id].generation == s.table[id].generation
  }

  lemma AskedForStays(steps: set<Step>, more: set<Step>, id: ApprovalId, r: Record)
    requires steps <= more && AskedFor(steps, id, r)
    ensures AskedFor(more, id, r)
  {
  }

  lemma SweptForStays(steps: set<Step>, more: set<Step>, id: ApprovalId, policy: Policy, generation: int, at: int)
    requires steps <= more && SweptFor(steps, id, policy, generation, at)
    ensures SweptFor(more, id, policy, generation, at)
  {
  }

  /** What AsksFor looks at in a decided record: not the rest of the record it was decided on. */
  lemma AskedForAlike(steps: set<Step>, id: ApprovalId, r: Record, other: Record)
    requires AskedFor(steps, id, r)
    requires other.status == r.status && other.reason == r.reason && other.decidedAt == r.decidedAt
    requires other.generation == r.generation && other.expiresAt == r.expiresAt
    ensures AskedFor(steps, id, other)
  {
    var step :| step in steps && AsksFor(step, id, r);
    assert AsksFor(step, id, other);
  }

  lemma CallStaysExplained(s: State, s': State, steps: set<Step>, more: set<Step>, c: Call)
    requires steps <= more && KeepsTimes(s, s') && CallExplained(s, steps, c)
    ensures CallExplained(s', more, c)
  {
    if c.Deciding? && c.id in s'.table {
      var r := Decided(s'.table[c.id], c.decision, c.reason, c.now);
      if c.id in s.table {
        AskedForAlike(steps, c.id, Decided(s.table[c.id], c.decision, c.reason, c.now), r);
      } else {
        var call :| BeginCancel(call, c.id, c.now) in steps;
        assert AsksFor(BeginCancel(call, c.id, c.now), c.id, r);
      }
    }
  }

  lemma AllStayExplained(s: State, s': State, steps: set<Step>, more: set<Step>)
    requires Explained(s, steps) && steps <= more && KeepsTimes(s, s') && s'.runs == s.runs
    ensures forall call :: call in s.calls ==> CallExplained(s', more, s.calls[call])
    ensures forall i :: 0 <= i < |s'.runs| ==> ReasonExplained(s', more, s'.runs[i].id, s'.runs[i].why)
    ensures forall id :: id in s.table ==> RecordExplained(more, id, s.table[id])
  {
    forall call | call in s.calls ensures CallExplained(s', more, s.calls[call]) {
      CallStaysExplained(s, s', steps, more, s.calls[call]);
    }
  }

  /** A step that only moves one call, to a phase that is explained. */
  lemma PutStaysExplained(s: State, steps: set<Step>, more: set<Step>, call: CallId, c: Call)
    requires Explained(s, steps) && steps <= more && CallExplained(s, more, c)
    ensures Explained(Put(s, call, c), more)
  {
    var s' := Put(s, call, c);
    AllStayExplained(s, s', steps, more);
    CallStaysExplained(s, s', more, more, c);
  }

  lemma CreateStaysExplained(s: State, steps: set<Step>, id: ApprovalId, generation: int, expiresAt: int)
    requires Explained(s, steps) && id !in s.table
    ensures Explained(Next(s, Create(id, generation, expiresAt)), steps + {Create(id, generation, expiresAt)})
  {
    AllStayExplained(s, Next(s, Create(id, generation, expiresAt)), steps,
                     steps + {Create(id, generation, expiresAt)});
  }

  // ---- a call goes on ----

  lemma FirstReadExplained(s: State, steps: set<Step>, c: Call)
    requires Explained(s, steps) && c.Resuming? && CallExplained(s, steps, c)
    ensures CallExplained(s, steps, AfterFirstRead(s, c))
  {
    var call :| BeginResume(call, c.id, c.decision, c.reason, c.generation, c.now) in steps;
    if c.id in s.table {
      var next := AfterFirstRead(s, c);
      var r := Decided(s.table[c.id], next.decision, next.reason, c.now);
      assert AsksFor(BeginResume(call, c.id, c.decision, c.reason, c.generation, c.now), c.id, r);
    }
  }

  lemma ReadExplained(s: State, steps: set<Step>, c: Call)
    requires c.Deciding? && CallExplained(s, steps, c)
    ensures CallExplained(s, steps, AfterRead(s, c))
  {
  }

  /** The UPDATE that matches: the record becomes what was asked for, in time. */
  lemma WinExplained(s: State, steps: set<Step>, call: CallId)
    requires Invariant(s) && Explained(s, steps) && call in s.calls && s.calls[call].Updating?
    requires var c := s.calls[call]; c.id in s.table && RowMatches(s.table[c.id], c.update.status, c.now)
    ensures Explained(ProceedCall(s, call), steps)
  {
    var c := s.calls[call];
    assert CallOk(s, c) && CallExplained(s, steps, c);
    var t := s.(table := s.table[c.id := c.update]);
    AllStayExplained(s, t, steps, steps);
    assert RecordExplained(steps, c.id, s.table[c.id]);
    assert RecordExplained(steps, c.id, c.update);
    assert Explained(t, steps);
    PutStaysExplained(t, steps, steps, call, AfterWin(c));
  }

  lemma RunExplained(s: State, steps: set<Step>, call: CallId)
    requires Explained(s, steps) && call in s.calls && s.calls[call].Running?
    ensures Explained(ProceedCall(s, call), steps)
  {
    var c := s.calls[call];
    assert CallExplained(s, steps, c);
    var t := s.(runs := s.runs + [Run(c.id, c.why)]);
    AllStayExplained(s, s.(runs := s.runs), steps, steps);
    forall other | other in t.calls ensures CallExplained(t, steps, t.calls[other]) {
      CallStaysExplained(s, t, steps, steps, s.calls[other]);
    }
    PutStaysExplained(t, steps, steps, call, Recording(c.id, c.why));
  }

  lemma SameTableExplained(s: State, s': State, steps: set<Step>, more: set<Step>)
    requires Explained(s, steps) && steps <= more
    requires s'.table == s.table && s'.calls == s.calls && s'.runs == s.runs
    ensures Explained(s', more)
  {
    AllStayExplained(s, s', steps, more);
  }

  lemma ProceedExplained(s: State, steps: set<Step>, call: CallId)
    requires Invariant(s) && Explained(s, steps) && call in s.calls
    ensures Explained(ProceedCall(s, call), steps)
  {
    var c := s.calls[call];
    assert CallExplained(s, steps, c);
    match c
    case Resuming(_, _, _, _, _) =>
      FirstReadExplained(s, steps, c);
      PutStaysExplained(s, steps, steps, call, AfterFirstRead(s, c));
    case Deciding(_, _, _, _, _) =>
      ReadExplained(s, steps, c);
      PutStaysExplained(s, steps, steps, call, AfterRead(s, c));
    case Updating(id, update, now, _) =>
      if id in s.table && RowMatches(s.table[id], update.status, now) {
        WinExplained(s, steps, call);
      } else {
        PutStaysExplained(s, steps, steps, call, Finished);
      }
    case MayRun(id, why) =>
      PutStaysExplained(s, steps, steps, call, if id in s.resumed then Finished else Running(id, why));
    case Running(_, _) => RunExplained(s, steps, call);
    case Recording(id, _) =>
      var t := s.(resumed := s.resumed + {id});
      SameTableExplained(s, t, steps, steps);
      PutStaysExplained(t, steps, steps, call, Finished);
    case Finished =>
  }

  // ---- a call begins ----

  lemma BeginExplained(s: State, steps: set<Step>, step: Step)
    requires Explained(s, steps) && Next(s, step) != s
    requires step.BeginResume? || step.BeginCancel? || step.BeginExpiry? || step.BeginReconcile?
    ensures Explained(Next(s, step), steps + {step})
  {
    var c := Next(s, step).calls[step.call];
    assert Next(s, step) == Put(s, step.call, c);
    BegunCallExplained(s, steps + {step}, step, c);
    PutStaysExplained(s, steps, steps + {step}, step.call, c);
  }

  lemma BegunCallExplained(s: State, steps: set<Step>, step: Step, c: Call)
    requires step.BeginResume? || step.BeginCancel? || step.BeginExpiry? || step.BeginReconcile?
    requires step in steps && Next(s, step) != s && Next(s, step) == Put(s, step.call, c)
    ensures CallExplained(s, steps, c)
  {
    assert Next(s, step).calls[step.call] == c;
    if c.Deciding? && c.id in s.table {
      assert AsksFor(step, c.id, Decided(s.table[c.id], c.decision, c.reason, c.now));
      assert c.next.FollowPolicy? ==> SweepAsks(step, c.id, c.next.policy, c.next.generation, s.table[c.id].expiresAt);
    }
  }

  lemma StepExplained(s: State, steps: set<Step>, step: Step)
    requires Invariant(s) && Explained(s, steps)
    ensures Explained(Next(s, step), steps + {step})
  {
    var more := steps + {step};
    SameTableExplained(s, s, steps, more);
    match step
    case Create(id, generation, expiresAt) =>
      if id !in s.table { CreateStaysExplained(s, steps, id, generation, expiresAt); }
    case Proceed(call) =>
      if call in s.calls { ProceedExplained(s, more, call); }
    case GiveUp(call) => PutStaysExplained(s, more, more, call, Finished);
    case Claim(_) => SameTableExplained(s, Next(s, step), more, more);
    case Forget(_) => SameTableExplained(s, Next(s, step), more, more);
    case _ =>
      if Next(s, step) != s { BeginExplained(s, steps, step); }
  }

  lemma {:induction false} ExecExplained(steps: seq<Step>)
    ensures Explained(Exec(INIT, steps), Taken(steps))
    decreases |steps|
  {
    if steps != [] {
      var front, last := steps[..|steps| - 1], steps[|steps| - 1];
      ExecExplained(front);
      ExecKeepsInvariant(front);
      StepExplained(Exec(INIT, front), Taken(front), last);
      assert steps == front + [last];
      assert Taken(steps) == Taken(front) + {last};
    }
  }

  // ---- what holds after every interleaving ----

  /** Every record was created as it is or is what some step asked for: by a client at its own generation, for a run
      that was deleted, at a generation that is no longer its own, or past its time. Other decisions come before its
      time. */
  lemma EveryDecisionWasAskedFor(steps: seq<Step>, id: ApprovalId)
    requires id in Exec(INIT, steps).table
    ensures var r := Exec(INIT, steps).table[id];
      && Create(id, r.generation, r.expiresAt) in steps
      && (r.status.Pending? ==> r == NewRecord(r.generation, r.expiresAt))
      && (!r.status.Pending? ==>
            && (exists step :: step in steps && AsksFor(step, id, r))
            && (r.status == TimedOut || r.decidedAt < r.expiresAt))
  {
    ExecExplained(steps);
    var r := Exec(INIT, steps).table[id];
    assert RecordExplained(Taken(steps), id, r);
    if !r.status.Pending? {
      var step :| step in Taken(steps) && AsksFor(step, id, r);
      assert step in steps;
    }
  }

  /** Only a client's approval, given for the generation of the record and in time, makes a record approved. */
  lemma ApprovedByAClient(steps: seq<Step>, id: ApprovalId)
    requires id in Exec(INIT, steps).table && Exec(INIT, steps).table[id].status == Approved
    ensures var r := Exec(INIT, steps).table[id];
      && r.decidedAt < r.expiresAt
      && exists call :: BeginResume(call, id, Approved, r.reason, r.generation, r.decidedAt) in steps
  {
    EveryDecisionWasAskedFor(steps, id);
    var r := Exec(INIT, steps).table[id];
    var step :| step in steps && AsksFor(step, id, r);
    assert step == BeginResume(step.call, id, Approved, r.reason, r.generation, r.decidedAt);
  }

  /** Whoever runs a tool, it is run because a client approved it, or because a sweep under the allow policy and at the
      generation of the record found it overdue. */
  lemma EveryRunWasWanted(steps: seq<Step>, i: nat)
    requires i < |Exec(INIT, steps).runs|
    ensures var s := Exec(INIT, steps); var run := s.runs[i];
      && run.id in s.table
      && var r := s.table[run.id];
      match run.why
      case WasApproved =>
        && r.status == Approved && r.decidedAt < r.expiresAt
        && exists call :: BeginResume(call, run.id, Approved, r.reason, r.generation, r.decidedAt) in steps
      case AfterTimeout(policy, generation) =>
        && r.status == TimedOut && policy == AllowOnTimeout && generation == r.generation
        && exists call, now ::
             now > r.expiresAt && BeginExpiry(call, run.id, AllowOnTimeout, r.generation, now) in steps
  {
    var s := Exec(INIT, steps);
    var run := s.runs[i];
    ExecKeepsInvariant(steps);
    ExecExplained(steps);
    assert Entitled(s, run.id, run.why) && ReasonExplained(s, Taken(steps), run.id, run.why);
    match run.why
    case WasApproved => ApprovedByAClient(steps, run.id);
    case AfterTimeout(policy, generation) =>
      var step :| step in Taken(steps) && SweepAsks(step, run.id, policy, generation, s.table[run.id].expiresAt);
      assert step == BeginExpiry(step.call, run.id, policy, generation, step.now);
  }

  // ---- a call that nobody comes between ----

  function Proceeds(s: State, call: CallId, n: nat): State
    decreases n
  {
    if n == 0 then s else Proceeds(ProceedCall(s, call), call, n - 1)
  }

  /** Pending, and not at or past its time. */
  predicate Open(s: State, id: ApprovalId, now: int) {
    id in s.table && s.table[id].status.Pending? && now < s.table[id].expiresAt
  }

  /** A decision goes through exactly if the record is pending and, but for a timeout, not at or past its time. */
  lemma UndisturbedDecision(s: State, call: CallId)
    requires call in s.calls && s.calls[call].Deciding?
    ensures var c, t := s.calls[call], Proceeds(s, call, 2);
      var wins := Open(s, c.id, c.now) || (c.id in s.table && s.table[c.id].status.Pending? && c.decision == TimedOut);
      && (!wins ==> t.table == s.table && t.calls == s.calls[call := Finished])
      && (wins ==>
            && t.table.Keys == s.table.Keys
            && (forall other :: other in s.table && other != c.id ==> t.table[other] == s.table[other])
            && var r := t.table[c.id];
            && r.status == c.decision && r.reason == c.reason && r.decidedAt == c.now
            && r.revision == s.table[c.id].revision + 1
            && t.calls == s.calls[call := AfterWin(Updating(c.id, r, c.now, c.next))])
      && t.runs == s.runs && t.resumed == s.resumed && t.claimed == s.claimed
  {
    assert Proceeds(ProceedCall(s, call), call, 1) == Proceeds(ProceedCall(ProceedCall(s, call), call), call, 0);
  }

  /** Once it may run, the tool is run exactly if no run of the session has the request id of the resume. */
  lemma UndisturbedRun(s: State, call: CallId)
    requires call in s.calls && s.calls[call].MayRun?
    ensures var c, t := s.calls[call], Proceeds(s, call, 3);
      && t.runs == s.runs + (if c.id in s.resumed then [] else [Run(c.id, c.why)])
      && t.resumed == s.resumed + {c.id} && t.table == s.table && t.claimed == s.claimed
      && t.calls == s.calls[call := Finished]
  {
    var c, t := s.calls[call], Proceeds(s, call, 3);
    if c.id in s.resumed {
      FinishedStays(Put(s, call, Finished), call, 2);
      assert s.runs + [] == s.runs && s.resumed + {c.id} == s.resumed;
    } else {
      var s1 := Put(s, call, Running(c.id, c.why));
      var s2 := Put(s1.(runs := s.runs + [Run(c.id, c.why)]), call, Recording(c.id, c.why));
      var s3 := Put(s2.(resumed := s.resumed + {c.id}), call, Finished);
      assert ProceedCall(s, call) == s1 && ProceedCall(s1, call) == s2 && ProceedCall(s2, call) == s3;
      assert t == Proceeds(s1, call, 2) == Proceeds(s2, call, 1) == Proceeds(s3, call, 0);
      assert s3.calls == s.calls[call := Finished];
    }
  }

  /** A client's decision, from the request to the tool: it is what the record says if it was given for the record's
      generation, the record is stale otherwise, and only an approval is followed by the tool. */
  lemma UndisturbedResume(s: State, call: CallId, id: ApprovalId, decision: Status, reason: string, generation: int,
                          now: int)
    requires call !in s.calls && !decision.Pending? && Open(s, id, now)
    ensures var t := Proceeds(Next(s, BeginResume(call, id, decision, reason, generation, now)), call, 6);
      var mine := generation == s.table[id].generation;
      && id in t.table && call in t.calls && t.calls[call] == Finished
      && t.table[id].status == (if mine then decision else Stale)
      && t.table[id].reason == (if mine then reason else CHANGED)
      && t.runs == s.runs + if mine && decision == Approved && id !in s.resumed then [Run(id, WasApproved)] else []
  {
    var s1 := Next(s, BeginResume(call, id, decision, reason, generation, now));
    var s2 := ProceedCall(s1, call);
    var s4 := Proceeds(s2, call, 2);
    UndisturbedDecision(s2, call);
    ProceedsSum(s2, call, 2, 3);
    assert Proceeds(s1, call, 6) == Proceeds(s4, call, 3);
    AfterDecision(s4, call);
  }

  lemma {:induction false} ProceedsSum(s: State, call: CallId, m: nat, n: nat)
    ensures Proceeds(Proceeds(s, call, m), call, n) == Proceeds(s, call, m + n)
    decreases m
  {
    if m > 0 { ProceedsSum(ProceedCall(s, call), call, m - 1, n); }
  }

  lemma AfterDecision(s: State, call: CallId)
    requires call in s.calls && (s.calls[call] == Finished || s.calls[call].MayRun?)
    ensures var c, t := s.calls[call], Proceeds(s, call, 3);
      && t.table == s.table && call in t.calls && t.calls[call] == Finished
      && t.runs == s.runs + if c.MayRun? && c.id !in s.resumed then [Run(c.id, c.why)] else []
  {
    if s.calls[call].MayRun? {
      UndisturbedRun(s, call);
    } else {
      FinishedStays(s, call, 3);
    }
  }

  lemma {:induction false} FinishedStays(s: State, call: CallId, n: nat)
    requires call in s.calls && s.calls[call] == Finished
    ensures Proceeds(s, call, n) == s
    decreases n
  {
    if n > 0 { FinishedStays(ProceedCall(s, call), call, n - 1); }
  }

  /** An overdue record times out, and its tool runs exactly under the allow policy at its own generation. */
  lemma UndisturbedExpiry(s: State, call: CallId, id: ApprovalId, policy: Policy, generation: int, now: int)
    requires call !in s.calls && id in s.table && Overdue(s.table[id], now)
    ensures var t := Proceeds(Next(s, BeginExpiry(call, id, policy, generation, now)), call, 5);
      var allowed := policy == AllowOnTimeout && generation == s.table[id].generation;
      && id in t.table && t.table[id].status == TimedOut && call in t.calls && t.calls[call] == Finished
      && t.runs == s.runs +
         if allowed && id !in s.resumed then [Run(id, AfterTimeout(AllowOnTimeout, generation))] else []
  {
    var s1 := Next(s, BeginExpiry(call, id, policy, generation, now));
    UndisturbedDecision(s1, call);
    ProceedsSum(s1, call, 2, 3);
    AfterDecision(Proceeds(s1, call, 2), call);
  }

  /** The reconciler ends a pending record of another generation as stale, and runs nothing for it; one that was
      approved before has its tool run. */
  lemma UndisturbedReconcile(s: State, call: CallId, id: ApprovalId, generation: int, now: int)
    requires call !in s.calls
    ensures Open(s, id, now) && generation != s.table[id].generation ==>
      var t := Proceeds(Next(s, BeginReconcile(call, id, generation, now)), call, 5);
      id in t.table && t.table[id].status == Stale && t.runs == s.runs
    ensures id in s.table && s.table[id].status == Approved ==>
      Proceeds(Next(s, BeginReconcile(call, id, generation, now)), call, 3).runs ==
        s.runs + if id in s.resumed then [] else [Run(id, WasApproved)]
  {
    var s1 := Next(s, BeginReconcile(call, id, generation, now));
    if Open(s, id, now) && generation != s.table[id].generation {
      UndisturbedDecision(s1, call);
      ProceedsSum(s1, call, 2, 3);
      AfterDecision(Proceeds(s1, call, 2), call);
    }
    if id in s.table && s.table[id].status == Approved { UndisturbedRun(s1, call); }
  }

  /** The deletion of its run cancels a pending record. */
  lemma UndisturbedCancel(s: State, call: CallId, id: ApprovalId, now: int)
    requires call !in s.calls && Open(s, id, now)
    ensures var t := Proceeds(Next(s, BeginCancel(call, id, now)), call, 5);
      id in t.table && t.table[id].status == Cancelled && t.runs == s.runs
  {
    var s1 := Next(s, BeginCancel(call, id, now));
    UndisturbedDecision(s1, call);
    ProceedsSum(s1, call, 2, 3);
    AfterDecision(Proceeds(s1, call, 2), call);
  }

  /** A call whose tool or session is missing ends without a run; any other call goes on. */
  lemma GivingUpRunsNothing(s: State, call: CallId)
    ensures var t := Next(s, GiveUp(call));
      && t.table == s.table && t.runs == s.runs && t.resumed == s.resumed && t.calls.Keys == s.calls.Keys
      && (forall other :: other in s.calls ==>
            t.calls[other] == if other == call && s.calls[other].Running? then Finished else s.calls[other])
  {
  }

  /** A client's run takes the request id of a resume, and a run record that goes gives it back. Neither decides
      anything. */
  lemma RequestIdsComeAndGo(s: State, id: ApprovalId)
    ensures Next(s, Claim(id)).resumed == s.resumed + {id} && Next(s, Forget(id)).resumed == s.resumed - {id}
    ensures forall step :: step == Claim(id) || step == Forget(id) ==>
      var t := Next(s, step); t.table == s.table && t.calls == s.calls && t.runs == s.runs
  {
  }
}
