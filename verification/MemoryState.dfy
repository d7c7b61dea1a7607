/**
 The state of the in-process storage backend and the effect of each of its operations,
 as functions. `MemoryBackend` (MemoryBackend.dfy) implements them in place;
 MemoryProperties.dfy proves what every history of operations keeps.
 */
module MemoryState {
  import opened Basics
  import opened Sessions

  datatype SessionKey = SessionKey(agent: string, principal: string, id: string)
  datatype RunKey = RunKey(session: SessionKey, run: string)
  datatype IdemKey = IdemKey(session: SessionKey, key: string)

  datatype Status = Created | Running | AwaitingApproval | Cancelling | Succeeded | Failed | Cancelled

  datatype Run = Run(status: Status, input: string, outcome: string, updatedAt: int) {
    predicate Terminal() { status.Succeeded? || status.Failed? || status.Cancelled? }
  }

  datatype Idem = Idem(expiresAt: int)
  datatype Fence = Fence(token: string, number: int, expiresAt: int)

  datatype Settings = Settings(sessionTtl: int, runTtl: int, maxRuns: int, maxIdem: int)

  datatype State = State(
    settings: Settings,
    sessions: map<SessionKey, Session>,
    runs: map<RunKey, Run>,
    idem: map<IdemKey, Idem>,
    fences: map<SessionKey, Fence>,
    fenceCounters: map<SessionKey, int>)

  datatype Error =
    | Unavailable | InvalidSessionId | NotFound | RevisionConflict | Busy | Capacity

  datatype Reply = Ok | Revision(revision: int) | Absent | Denied | Refused(error: Error)

  const INTERRUPTED := "run_interrupted"

  function Init(settings: Settings): State {
    State(settings, map[], map[], map[], map[], map[])
  }

  // ---- runs of a session, eviction ----

  function RunsOf(runs: map<RunKey, Run>, k: SessionKey): set<RunKey> {
    set r | r in runs && r.session == k
  }

  function TerminalsOf(runs: map<RunKey, Run>, k: SessionKey): set<RunKey> {
    set r | r in runs && r.session == k && runs[r].Terminal()
  }

  predicate HasNonterminal(runs: map<RunKey, Run>, k: SessionKey) {
    exists r :: r in runs && r.session == k && !runs[r].Terminal()
  }

  /** `order` lists the terminal runs of `k`, each once, oldest first; ties in any order. */
  ghost predicate OldestFirst(runs: map<RunKey, Run>, k: SessionKey, order: seq<RunKey>) {
    && (forall r :: r in TerminalsOf(runs, k) ==> r in order)
    && (forall i :: 0 <= i < |order| ==> order[i] in TerminalsOf(runs, k))
    && (forall i, j :: 0 <= i < j < |order| ==>
          order[i] != order[j] && runs[order[i]].updatedAt <= runs[order[j]].updatedAt)
  }

  /** Part way through sorting: `order` is sorted by age, and everything still to do is no older. */
  ghost predicate SortedPart(runs: map<RunKey, Run>, all: set<RunKey>, order: seq<RunKey>, todo: set<RunKey>) {
    && todo <= all <= runs.Keys
    && (forall i :: 0 <= i < |order| ==> order[i] in all && order[i] !in todo)
    && (forall r :: r in all ==> r in order || r in todo)
    && (forall i, j :: 0 <= i < j < |order| ==>
          order[i] != order[j] && runs[order[i]].updatedAt <= runs[order[j]].updatedAt)
    && (forall i, r :: 0 <= i < |order| && r in todo ==> runs[order[i]].updatedAt <= runs[r].updatedAt)
  }

  lemma SortStep(runs: map<RunKey, Run>, all: set<RunKey>, order: seq<RunKey>, todo: set<RunKey>, x: RunKey)
    requires SortedPart(runs, all, order, todo) && x in todo
    requires forall y :: y in todo ==> runs[x].updatedAt <= runs[y].updatedAt
    ensures SortedPart(runs, all, order + [x], todo - {x})
  {
    assert x in order + [x] && forall r :: r in order ==> r in order + [x];
  }

  method Oldest(runs: map<RunKey, Run>, todo: set<RunKey>) returns (x: RunKey)
    requires todo != {} && todo <= runs.Keys
    ensures x in todo && forall y :: y in todo ==> runs[x].updatedAt <= runs[y].updatedAt
  {
    ghost var ages := map r | r in runs :: runs[r].updatedAt;
    LeastRankedExists(todo, ages);
    assert exists x :: x in todo && forall y :: y in todo ==> ages[x] <= ages[y];
    x :| x in todo && forall y :: y in todo ==> runs[x].updatedAt <= runs[y].updatedAt;
  }

  /** Sorting by age: any order that puts older runs first. */
  method SortTerminals(runs: map<RunKey, Run>, k: SessionKey) returns (order: seq<RunKey>)
    ensures OldestFirst(runs, k, order)
  {
    order := [];
    var todo := TerminalsOf(runs, k);
    while todo != {}
      invariant SortedPart(runs, TerminalsOf(runs, k), order, todo)
      decreases |todo|
    {
      var x := Oldest(runs, todo);
      SortStep(runs, TerminalsOf(runs, k), order, todo, x);
      order := order + [x];
      todo := todo - {x};
    }
  }

  /** The eviction loop: drop runs from the front of `order` while the session is at its cap. */
  function Evict(runs: map<RunKey, Run>, k: SessionKey, cap: int, order: seq<RunKey>): map<RunKey, Run> {
    if |RunsOf(runs, k)| >= cap && order != [] then Evict(runs - {order[0]}, k, cap, order[1..]) else runs
  }

  // ---- operations ----

  function CreateSession(s: State, k: SessionKey, events: seq<Event>, now: int): State {
    if k in s.sessions then s else s.(sessions := s.sessions[k := NewSession(events, now)])
  }

  function MutateSession(s: State, k: SessionKey, expected: int, d: Delta, now: int): (State, Reply) {
    if k !in s.sessions then (s, Refused(NotFound))
    else if s.sessions[k].revision != expected then (s, Refused(RevisionConflict))
    else (s.(sessions := s.sessions[k := Apply(s.sessions[k], d, now)]), Ok)
  }

  function DeleteSession(s: State, k: SessionKey): (State, Reply) {
    if k !in s.sessions then (s, Absent)
    else if HasNonterminal(s.runs, k) then (s, Refused(Busy))
    else (s.(sessions := s.sessions - {k},
             runs := map r | r in s.runs && r.session != k :: s.runs[r],
             idem := map i | i in s.idem && i.session != k :: s.idem[i],
             fences := s.fences - {k},
             fenceCounters := s.fenceCounters - {k}), Ok)
  }

  function CreateRun(s: State, r: RunKey, input: string, now: int, order: seq<RunKey>): (State, Reply) {
    if r.session !in s.sessions then (s, Refused(NotFound))
    else if r in s.runs then (s, Ok)
    else
      var runs := Evict(s.runs, r.session, s.settings.maxRuns, order);
      if |RunsOf(runs, r.session)| >= s.settings.maxRuns then (s.(runs := runs), Refused(Capacity))
      else (s.(runs := runs[r := Run(Created, input, "", now)]), Ok)
  }

  /** The session is created first and stays created when the capacity check then refuses the run. */
  function AdmitRun(s: State, r: RunKey, input: string, now: int, order: seq<RunKey>): (State, Reply) {
    var s1 := CreateSession(s, r.session, [], now);
    var (s2, reply) := CreateRun(s1, r, input, now, order);
    (s2, if reply.Ok? then Revision(s1.sessions[r.session].revision) else reply)
  }

  function UpdateRun(s: State, r: RunKey, status: Option<Status>, outcome: Option<string>, now: int): (State, Reply) {
    if r !in s.runs then (s, Absent)
    else
      var run := s.runs[r];
      (s.(runs := s.runs[r := Run(status.GetOr(run.status), run.input, outcome.GetOr(run.outcome), now)]), Ok)
  }

  function IdemOf(idem: map<IdemKey, Idem>, k: SessionKey): set<IdemKey> {
    set i | i in idem && i.session == k
  }

  function CreateIdem(s: State, i: IdemKey, ttl: int, now: int): (State, Reply) {
    if i in s.idem then (s, Ok)
    else if |IdemOf(s.idem, i.session)| >= s.settings.maxIdem then (s, Refused(Capacity))
    else (s.(idem := s.idem[i := Idem(now + ttl)]), Ok)
  }

  function ExpireIdem(s: State, i: IdemKey): (State, Reply) {
    if i !in s.idem then (s, Absent) else (s.(idem := s.idem - {i}), Ok)
  }

  function AcquireFence(s: State, k: SessionKey, token: string, ttl: int, now: int): (State, Reply) {
    if k in s.fences && s.fences[k].expiresAt > now then (s, Denied)
    else
      var number := (if k in s.fenceCounters then s.fenceCounters[k] else 0) + 1;
      (s.(fenceCounters := s.fenceCounters[k := number],
          fences := s.fences[k := Fence(token, number, now + ttl)]), Ok)
  }

  function ReleaseFence(s: State, k: SessionKey, token: string): (State, Reply) {
    if k !in s.fences || s.fences[k].token != token then (s, Absent)
    else (s.(fences := s.fences - {k}), Ok)
  }

  // ---- retention sweep ----

  predicate SessionExpired(settings: Settings, session: Session, now: int) {
    settings.sessionTtl != 0 && now - session.updatedAt > settings.sessionTtl
  }

  predicate Stale(settings: Settings, run: Run, now: int) {
    now - run.updatedAt > settings.runTtl
  }

  function Interrupt(run: Run, now: int): Run {
    run.(status := Failed, outcome := INTERRUPTED, updatedAt := now)
  }

  function Reconcile(settings: Settings, run: Run, now: int): Run {
    if !run.Terminal() && Stale(settings, run, now) then Interrupt(run, now) else run
  }

  predicate Collectable(s: State, k: SessionKey, now: int) {
    && k in s.sessions
    && SessionExpired(s.settings, s.sessions[k], now)
    && k !in s.fences
    && !HasNonterminal(s.runs, k)
  }

  function Sweep(s: State, now: int): State {
    s.(sessions := map k | k in s.sessions && !Collectable(s, k, now) :: s.sessions[k],
       runs := map r | r in s.runs && !(s.runs[r].Terminal() && Stale(s.settings, s.runs[r], now)) ::
         Reconcile(s.settings, s.runs[r], now),
       idem := map i | i in s.idem && s.idem[i].expiresAt > now :: s.idem[i])
  }

  // ---- histories ----

  datatype Op =
    | OpCreateSession(k: SessionKey, events: seq<Event>)
    | OpMutateSession(k: SessionKey, expected: int, delta: Delta)
    | OpDeleteSession(k: SessionKey)
    | OpCreateRun(r: RunKey, input: string, order: seq<RunKey>)
    | OpAdmitRun(r: RunKey, input: string, order: seq<RunKey>)
    | OpUpdateRun(r: RunKey, status: Option<Status>, outcome: Option<string>)
    | OpCreateIdem(i: IdemKey, ttl: int)
    | OpExpireIdem(i: IdemKey)
    | OpAcquireFence(k: SessionKey, token: string, ttl: int)
    | OpReleaseFence(k: SessionKey, token: string)
    | OpSweep

  /** What callers must respect: a terminal run is never updated to a nonterminal status. */
  predicate NeverRevives(s: State, op: Op) {
    op.OpUpdateRun? && op.r in s.runs && s.runs[op.r].Terminal() && op.status.Some? ==>
      Run(op.status.value, "", "", 0).Terminal()
  }

  /** The eviction order that the operation carries is one that the backend could have computed. */
  ghost predicate FaithfulOrder(s: State, op: Op) {
    op.OpCreateRun? || op.OpAdmitRun? ==> OldestFirst(s.runs, op.r.session, op.order)
  }

  function Step(s: State, op: Op, now: int): (State, Reply) {
    match op
    case OpCreateSession(k, events) => (CreateSession(s, k, events, now), Ok)
    case OpMutateSession(k, expected, delta) => MutateSession(s, k, expected, delta, now)
    case OpDeleteSession(k) => DeleteSession(s, k)
    case OpCreateRun(r, input, order) => CreateRun(s, r, input, now, order)
    case OpAdmitRun(r, input, order) => AdmitRun(s, r, input, now, order)
    case OpUpdateRun(r, status, outcome) => UpdateRun(s, r, status, outcome, now)
    case OpCreateIdem(i, ttl) => CreateIdem(s, i, ttl, now)
    case OpExpireIdem(i) => ExpireIdem(s, i)
    case OpAcquireFence(k, token, ttl) => AcquireFence(s, k, token, ttl, now)
    case OpReleaseFence(k, token) => ReleaseFence(s, k, token)
    case OpSweep => (Sweep(s, now), Ok)
  }

  datatype Timed = Timed(op: Op, now: int)

  function Exec(s: State, history: seq<Timed>): State {
    if history == [] then s
    else
      var last := |history| - 1;
      Step(Exec(s, history[..last]), history[last].op, history[last].now).0
  }

  ghost predicate WellBehaved(s: State, history: seq<Timed>) {
    history != [] ==>
      var last := |history| - 1;
      && WellBehaved(s, history[..last])
      && NeverRevives(Exec(s, history[..last]), history[last].op)
      && FaithfulOrder(Exec(s, history[..last]), history[last].op)
  }
}
