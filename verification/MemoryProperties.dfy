/** What every history of operations of the in-process backend keeps. */
module MemoryProperties {
  import opened Basics
  import opened Sessions
  import opened MemoryState

  // ---- eviction ----

  lemma RunsOfWithout(runs: map<RunKey, Run>, k: SessionKey, r: RunKey)
    requires r in RunsOf(runs, k)
    ensures RunsOf(runs - {r}, k) == RunsOf(runs, k) - {r}
    ensures |RunsOf(runs - {r}, k)| == |RunsOf(runs, k)| - 1
  {
    assert RunsOf(runs - {r}, k) == RunsOf(runs, k) - {r};
  }

  lemma OldestFirstTail(runs: map<RunKey, Run>, k: SessionKey, order: seq<RunKey>)
    requires OldestFirst(runs, k, order) && order != []
    ensures order[0] in RunsOf(runs, k)
    ensures OldestFirst(runs - {order[0]}, k, order[1..])
  {
    var rest := order[1..];
    assert order == [order[0]] + rest;
    forall r | r in TerminalsOf(runs - {order[0]}, k) ensures r in rest {
      assert r in TerminalsOf(runs, k) && r in order;
    }
    forall i | 0 <= i < |rest| ensures rest[i] in TerminalsOf(runs - {order[0]}, k) {
      assert rest[i] == order[i + 1];
    }
    forall i, j | 0 <= i < j < |rest|
      ensures rest[i] != rest[j] && runs[rest[i]].updatedAt <= runs[rest[j]].updatedAt
    {
      assert rest[i] == order[i + 1] && rest[j] == order[j + 1];
    }
  }

  function Elements<T>(xs: seq<T>): set<T> { set x | x in xs }

  lemma ElementsOfCons<T>(x: T, xs: seq<T>)
    ensures Elements([x] + xs) == {x} + Elements(xs)
  {
  }

  lemma MinusTwice(runs: map<RunKey, Run>, r: RunKey, rs: set<RunKey>)
    ensures (runs - {r}) - rs == runs - ({r} + rs)
  {
  }

  /** Eviction removes a block from the front of the age order, and stops as soon as there is room. */
  lemma {:induction false} EvictRemovesOldest(runs: map<RunKey, Run>, k: SessionKey, cap: int, order: seq<RunKey>)
    returns (n: nat)
    requires OldestFirst(runs, k, order)
    ensures n <= |order|
    ensures Evict(runs, k, cap, order) == runs - Elements(order[..n])
    ensures |RunsOf(Evict(runs, k, cap, order), k)| == |RunsOf(runs, k)| - n
    ensures |RunsOf(Evict(runs, k, cap, order), k)| >= cap ==> n == |order|
    ensures n > 0 ==> |RunsOf(runs, k)| - n >= cap - 1
    ensures n == 0 ==> |RunsOf(runs, k)| < cap || order == []
    decreases |order|
  {
    if |RunsOf(runs, k)| >= cap && order != [] {
      OldestFirstTail(runs, k, order);
      RunsOfWithout(runs, k, order[0]);
      var m := EvictRemovesOldest(runs - {order[0]}, k, cap, order[1..]);
      n := m + 1;
      FrontRemoved(runs, order, m);
    } else {
      n := 0;
      NothingRemoved(runs, order);
    }
  }

  lemma FrontRemoved(runs: map<RunKey, Run>, order: seq<RunKey>, m: nat)
    requires m < |order|
    ensures (runs - {order[0]}) - Elements(order[1..][..m]) == runs - Elements(order[..m + 1])
  {
    assert order[..m + 1] == [order[0]] + order[1..][..m];
    ElementsOfCons(order[0], order[1..][..m]);
    MinusTwice(runs, order[0], Elements(order[1..][..m]));
  }

  lemma NothingRemoved(runs: map<RunKey, Run>, order: seq<RunKey>)
    ensures runs - Elements(order[..0]) == runs
  {
    assert Elements(order[..0]) == {};
  }

  // ---- the invariant ----

  ghost predicate RunsWithinCap(runs: map<RunKey, Run>, cap: int) {
    forall k :: |RunsOf(runs, k)| <= Max(cap, 0)
  }

  ghost predicate Invariant(s: State) {
    && (forall r :: r in s.runs && !s.runs[r].Terminal() ==> r.session in s.sessions)
    && RunsWithinCap(s.runs, s.settings.maxRuns)
  }

  function Max(a: int, b: int): int { if a < b then b else a }

  lemma {:induction false} SubsetSize<T>(a: set<T>, b: set<T>)
    requires a <= b
    ensures |a| <= |b|
  {
    assert b == a + (b - a);
  }

  lemma FewerRunsWithinCap(runs: map<RunKey, Run>, fewer: map<RunKey, Run>, cap: int)
    requires RunsWithinCap(runs, cap) && fewer.Keys <= runs.Keys
    ensures RunsWithinCap(fewer, cap)
  {
    forall k ensures |RunsOf(fewer, k)| <= Max(cap, 0) {
      SubsetSize(RunsOf(fewer, k), RunsOf(runs, k));
    }
  }

  lemma OneMoreRunWithinCap(runs: map<RunKey, Run>, r: RunKey, run: Run, cap: int)
    requires RunsWithinCap(runs, cap) && |RunsOf(runs, r.session)| < cap
    ensures RunsWithinCap(runs[r := run], cap)
  {
    var more := runs[r := run];
    forall k ensures |RunsOf(more, k)| <= Max(cap, 0) {
      assert RunsOf(more, k) == RunsOf(runs, k) + (if k == r.session then {r} else {});
    }
  }

  lemma CreateRunKeepsInvariant(s: State, r: RunKey, input: string, now: int, order: seq<RunKey>)
    requires Invariant(s) && OldestFirst(s.runs, r.session, order)
    ensures Invariant(CreateRun(s, r, input, now, order).0)
  {
    if r.session in s.sessions && r !in s.runs {
      var n := EvictRemovesOldest(s.runs, r.session, s.settings.maxRuns, order);
      var evicted := Evict(s.runs, r.session, s.settings.maxRuns, order);
      FewerRunsWithinCap(s.runs, evicted, s.settings.maxRuns);
      if |RunsOf(evicted, r.session)| < s.settings.maxRuns {
        OneMoreRunWithinCap(evicted, r, Run(Created, input, "", now), s.settings.maxRuns);
      }
    }
  }

  lemma StepKeepsInvariant(s: State, op: Op, now: int)
    requires Invariant(s) && NeverRevives(s, op) && FaithfulOrder(s, op)
    ensures Invariant(Step(s, op, now).0)
    ensures Step(s, op, now).0.settings == s.settings
  {
    match op
    case OpCreateRun(r, input, order) => CreateRunKeepsInvariant(s, r, input, now, order);
    case OpAdmitRun(r, input, order) =>
      CreateRunKeepsInvariant(CreateSession(s, r.session, [], now), r, input, now, order);
    case OpDeleteSession(k) => DeleteKeepsInvariant(s, k);
    case OpUpdateRun(r, status, outcome) => UpdateKeepsInvariant(s, r, status, outcome, now);
    case OpSweep => SweepKeepsInvariant(s, now);
    case _ =>
  }

  lemma DeleteKeepsInvariant(s: State, k: SessionKey)
    requires Invariant(s)
    ensures Invariant(DeleteSession(s, k).0)
  {
    FewerRunsWithinCap(s.runs, DeleteSession(s, k).0.runs, s.settings.maxRuns);
  }

  lemma UpdateKeepsInvariant(s: State, r: RunKey, status: Option<Status>, outcome: Option<string>, now: int)
    requires Invariant(s) && NeverRevives(s, OpUpdateRun(r, status, outcome))
    ensures Invariant(UpdateRun(s, r, status, outcome, now).0)
  {
    FewerRunsWithinCap(s.runs, UpdateRun(s, r, status, outcome, now).0.runs, s.settings.maxRuns);
  }

  lemma SweepKeepsInvariant(s: State, now: int)
    requires Invariant(s)
    ensures Invariant(Sweep(s, now))
  {
    FewerRunsWithinCap(s.runs, Sweep(s, now).runs, s.settings.maxRuns);
  }

  /** Every reachable state: nonterminal runs have their session, no session exceeds its run cap. */
  lemma {:induction false} ReachableInvariant(settings: Settings, history: seq<Timed>)
    requires WellBehaved(Init(settings), history)
    ensures Invariant(Exec(Init(settings), history))
    ensures Exec(Init(settings), history).settings == settings
    decreases |history|
  {
    if history == [] {
      assert forall k :: RunsOf(Init(settings).runs, k) == {};
    } else {
      var last := |history| - 1;
      ReachableInvariant(settings, history[..last]);
      StepKeepsInvariant(Exec(Init(settings), history[..last]), history[last].op, history[last].now);
    }
  }

  // ---- admission ----

  lemma RunsSplit(runs: map<RunKey, Run>, k: SessionKey, order: seq<RunKey>)
    requires OldestFirst(runs, k, order)
    ensures |order| == |TerminalsOf(runs, k)|
    ensures |order| == |RunsOf(runs, k)| <==> !HasNonterminal(runs, k)
    ensures |order| <= |RunsOf(runs, k)|
  {
    DistinctSize(order, TerminalsOf(runs, k));
    SubsetSize(TerminalsOf(runs, k), RunsOf(runs, k));
    if HasNonterminal(runs, k) {
      var r :| r in runs && r.session == k && !runs[r].Terminal();
      SubsetSize(TerminalsOf(runs, k) + {r}, RunsOf(runs, k));
    } else {
      assert TerminalsOf(runs, k) == RunsOf(runs, k);
    }
  }

  lemma {:induction false} DistinctSize<T>(xs: seq<T>, elems: set<T>)
    requires Elements(xs) == elems
    requires forall i, j :: 0 <= i < j < |xs| ==> xs[i] != xs[j]
    ensures |xs| == |elems|
    decreases |xs|
  {
    if xs == [] {
      assert elems == {};
    } else {
      ElementsOfCons(xs[0], xs[1..]);
      assert xs == [xs[0]] + xs[1..];
      assert Elements(xs[1..]) == elems - {xs[0]};
      DistinctSize(xs[1..], elems - {xs[0]});
    }
  }

  /**
   Which admissions are refused, and when a refusal leaves a trace, in any state at all:
   a new run is refused exactly when the nonterminal runs alone fill the cap, and the refusal
   changes nothing exactly when the session existed and there was no terminal run to evict.
   */
  lemma AdmissionRefusedExactly(s: State, r: RunKey, input: string, now: int, order: seq<RunKey>)
    requires OldestFirst(s.runs, r.session, order) && r !in s.runs
    ensures var (s', reply) := AdmitRun(s, r, input, now, order);
      && (reply.Refused? <==> |RunsOf(s.runs, r.session)| - |TerminalsOf(s.runs, r.session)| >= s.settings.maxRuns)
      && (reply.Refused? ==> reply.error == Capacity)
      && (reply.Refused? ==>
            (s' == s <==> r.session in s.sessions && TerminalsOf(s.runs, r.session) == {}))
  {
    var k := r.session;
    var cap := s.settings.maxRuns;
    RunsSplit(s.runs, k, order);
    var n := EvictRemovesOldest(s.runs, k, cap, order);
    if |order| > 0 {
      assert order[0] in TerminalsOf(s.runs, k);
      if n > 0 { assert order[0] in order[..n]; }
    }
  }

  /** The one run, if any, that an admission pushes out. */
  ghost predicate EvictsOldest(runs: map<RunKey, Run>, k: SessionKey, victims: set<RunKey>) {
    && |victims| <= 1
    && victims <= TerminalsOf(runs, k)
    && forall v, r :: v in victims && r in TerminalsOf(runs, k) ==> runs[v].updatedAt <= runs[r].updatedAt
  }

  /**
   Admission is all-or-nothing in every state that satisfies the invariant: it succeeds with the
   session and the run both present, or it is refused and the state is as it was. A success
   evicts at most one run, an oldest terminal one of that session, and touches nothing else.
   */
  lemma AdmissionAllOrNothing(s: State, r: RunKey, input: string, now: int, order: seq<RunKey>)
    requires Invariant(s) && s.settings.maxRuns > 0
    requires OldestFirst(s.runs, r.session, order)
    ensures var (s', reply) := AdmitRun(s, r, input, now, order);
      && (reply.Refused? ==> s' == s)
      && (!reply.Refused? ==>
            && reply.Revision? && r.session in s'.sessions
            && reply.revision == s'.sessions[r.session].revision
            && s'.sessions == CreateSession(s, r.session, [], now).sessions
            && r in s'.runs
            && (r in s.runs ==> s'.runs == s.runs)
            && (r !in s.runs ==> exists victims ::
                  && EvictsOldest(s.runs, r.session, victims)
                  && s'.runs == (s.runs - victims)[r := Run(Created, input, "", now)])
            && s' == s.(sessions := s'.sessions, runs := s'.runs))
  {
    AdmissionReply(s, r, input, now, order);
    if r !in s.runs {
      RefusalChangesNothing(s, r, input, now, order);
      var victims := AdmittedEvictsOldest(s, r, input, now, order);
    }
  }

  lemma AdmissionReply(s: State, r: RunKey, input: string, now: int, order: seq<RunKey>)
    ensures var (s', reply) := AdmitRun(s, r, input, now, order);
      && s' == s.(sessions := s'.sessions, runs := s'.runs)
      && (reply.Refused? ==> r !in s.runs)
      && (!reply.Refused? ==>
            && reply.Revision? && r.session in s'.sessions && reply.revision == s'.sessions[r.session].revision
            && s'.sessions == CreateSession(s, r.session, [], now).sessions
            && r in s'.runs && (r in s.runs ==> s'.runs == s.runs))
  {
  }

  lemma RefusalChangesNothing(s: State, r: RunKey, input: string, now: int, order: seq<RunKey>)
    requires Invariant(s) && s.settings.maxRuns > 0 && r !in s.runs
    requires OldestFirst(s.runs, r.session, order)
    ensures var (s', reply) := AdmitRun(s, r, input, now, order); reply.Refused? ==> s' == s
  {
    AdmissionRefusedExactly(s, r, input, now, order);
    RunsSplit(s.runs, r.session, order);
    assert |RunsOf(s.runs, r.session)| <= s.settings.maxRuns;
    if AdmitRun(s, r, input, now, order).1.Refused? {
      assert TerminalsOf(s.runs, r.session) == {};
    }
  }

  lemma AdmittedEvictsOldest(s: State, r: RunKey, input: string, now: int, order: seq<RunKey>)
    returns (victims: set<RunKey>)
    requires Invariant(s) && s.settings.maxRuns > 0 && r !in s.runs
    requires OldestFirst(s.runs, r.session, order)
    ensures var (s', reply) := AdmitRun(s, r, input, now, order);
      !reply.Refused? ==>
        && EvictsOldest(s.runs, r.session, victims)
        && s'.runs == (s.runs - victims)[r := Run(Created, input, "", now)]
  {
    var n := EvictRemovesOldest(s.runs, r.session, s.settings.maxRuns, order);
    victims := Elements(order[..n]);
    AdmittedRuns(s, r, input, now, order);
    assert |RunsOf(s.runs, r.session)| <= s.settings.maxRuns;
    assert n <= 1;
    FrontIsOldest(s.runs, r.session, order, n);
  }

  lemma AdmittedRuns(s: State, r: RunKey, input: string, now: int, order: seq<RunKey>)
    requires r !in s.runs
    ensures var (s', reply) := AdmitRun(s, r, input, now, order);
      !reply.Refused? ==>
        s'.runs == Evict(s.runs, r.session, s.settings.maxRuns, order)[r := Run(Created, input, "", now)]
  {
  }

  lemma FrontIsOldest(runs: map<RunKey, Run>, k: SessionKey, order: seq<RunKey>, n: nat)
    requires OldestFirst(runs, k, order) && n <= 1 && n <= |order|
    ensures EvictsOldest(runs, k, Elements(order[..n]))
  {
    assert order[..n] == if n == 0 then [] else [order[0]];
    assert Elements(order[..n]) == if n == 0 then {} else {order[0]};
    assert n > 0 ==> order[0] in order;
  }

  /** The same after any well-behaved past. */
  lemma AdmissionAfterAnyHistory(settings: Settings, history: seq<Timed>, r: RunKey, input: string, now: int,
                                 order: seq<RunKey>)
    requires settings.maxRuns > 0 && WellBehaved(Init(settings), history)
    requires OldestFirst(Exec(Init(settings), history).runs, r.session, order)
    ensures var s := Exec(Init(settings), history);
      var (s', reply) := AdmitRun(s, r, input, now, order);
      && (reply.Refused? ==> s' == s)
      && (!reply.Refused? ==>
            && reply.Revision? && r.session in s'.sessions
            && reply.revision == s'.sessions[r.session].revision
            && s'.sessions == CreateSession(s, r.session, [], now).sessions
            && r in s'.runs
            && (r in s.runs ==> s'.runs == s.runs)
            && (r !in s.runs ==> exists victims ::
                  && EvictsOldest(s.runs, r.session, victims)
                  && s'.runs == (s.runs - victims)[r := Run(Created, input, "", now)])
            && s' == s.(sessions := s'.sessions, runs := s'.runs))
  {
    ReachableInvariant(settings, history);
    AdmissionAllOrNothing(Exec(Init(settings), history), r, input, now, order);
  }

  /**
   The caller's obligation is needed. Here a run finishes, the sweep collects its expired session, an update revives the
   run: the next admission is refused and yet leaves a new session behind. That update is the only operation of the
   history that is out of line, and every eviction order is one the backend computed.
   */
  lemma RevivalBreaksAdmission(r: RunKey, next: RunKey) returns (settings: Settings, past: seq<Timed>, revival: Timed)
    requires r.session == next.session && r != next
    ensures settings.maxRuns > 0 && WellBehaved(Init(settings), past)
    ensures var s := Exec(Init(settings), past); FaithfulOrder(s, revival.op) && !NeverRevives(s, revival.op)
    ensures RefusedYetChanged(Exec(Init(settings), past + [revival]), next)
  {
    settings := Settings(10, 1000, 1, 1);
    past := [Timed(OpAdmitRun(r, "", []), 0), Timed(OpUpdateRun(r, Some(Succeeded), None), 1), Timed(OpSweep, 50)];
    revival := Timed(OpUpdateRun(r, Some(Running), None), 51);
    RevivalSteps(settings, r.session, r);
    ExecThree(Init(settings), past[0], past[1], past[2]);
    assert (past + [revival])[..3] == past;
    RevivedIsRefused(settings, r, next);
  }

  function FinishedState(settings: Settings, r: RunKey): State {
    State(settings, map[], map[r := Run(Succeeded, "", "", 1)], map[], map[], map[])
  }

  function RevivalState(settings: Settings, r: RunKey): State {
    State(settings, map[], map[r := Run(Running, "", "", 51)], map[], map[], map[])
  }

  lemma RevivedIsRefused(settings: Settings, r: RunKey, next: RunKey)
    requires r.session == next.session && r != next && settings.maxRuns == 1
    ensures RefusedYetChanged(RevivalState(settings, r), next)
  {
    var s := RevivalState(settings, r);
    assert RunsOf(s.runs, r.session) == {r} && TerminalsOf(s.runs, r.session) == {};
    assert OldestFirst(s.runs, r.session, []);
    AdmissionRefusedExactly(s, next, "", 100, []);
  }

  ghost predicate RefusedYetChanged(s: State, r: RunKey) {
    && OldestFirst(s.runs, r.session, [])
    && var (s', reply) := AdmitRun(s, r, "", 100, []);
      reply.Refused? && s' != s
  }

  lemma RevivalSteps(settings: Settings, k: SessionKey, r: RunKey)
    requires settings == Settings(10, 1000, 1, 1) && r.session == k
    ensures var admit, finish := OpAdmitRun(r, "", []), OpUpdateRun(r, Some(Succeeded), None);
      var s1 := Step(Init(settings), admit, 0).0;
      var s2 := Step(s1, finish, 1).0;
      && InLine(Init(settings), admit) && InLine(s1, finish) && InLine(s2, OpSweep)
      && Step(s2, OpSweep, 50).0 == FinishedState(settings, r)
    ensures Step(FinishedState(settings, r), OpUpdateRun(r, Some(Running), None), 51).0 == RevivalState(settings, r)
  {
    AdmitAndFinish(settings, r);
    CollectFinished(settings, r);
    assert FinishedState(settings, r).runs[r := Run(Running, "", "", 51)] == RevivalState(settings, r).runs;
  }

  /** Before the sweep the session is still there. */
  function UncollectedState(settings: Settings, r: RunKey): State {
    FinishedState(settings, r).(sessions := map[r.session := NewSession([], 0)])
  }

  lemma AdmitAndFinish(settings: Settings, r: RunKey)
    requires settings.maxRuns == 1
    ensures var s1 := Step(Init(settings), OpAdmitRun(r, "", []), 0).0;
      && InLine(Init(settings), OpAdmitRun(r, "", [])) && InLine(s1, OpUpdateRun(r, Some(Succeeded), None))
      && Step(s1, OpUpdateRun(r, Some(Succeeded), None), 1).0 == UncollectedState(settings, r)
  {
    var s1 := AdmitRun(Init(settings), r, "", 0, []).0;
    assert RunsOf(Init(settings).runs, r.session) == {};
    assert s1.runs == map[r := Run(Created, "", "", 0)] && s1.sessions == map[r.session := NewSession([], 0)];
    assert s1.runs[r := Run(Succeeded, "", "", 1)] == map[r := Run(Succeeded, "", "", 1)];
  }

  lemma CollectFinished(settings: Settings, r: RunKey)
    requires settings.sessionTtl == 10 && settings.runTtl == 1000
    ensures Sweep(UncollectedState(settings, r), 50) == FinishedState(settings, r)
  {
    var s2 := UncollectedState(settings, r);
    assert Collectable(s2, r.session, 50);
    assert Sweep(s2, 50).sessions == map[] && Sweep(s2, 50).runs == s2.runs && Sweep(s2, 50).idem == map[];
  }

  ghost predicate InLine(s: State, op: Op) { NeverRevives(s, op) && FaithfulOrder(s, op) }

  lemma ExecOne(s: State, t: Timed)
    ensures Exec(s, [t]) == Step(s, t.op, t.now).0
    ensures InLine(s, t.op) ==> WellBehaved(s, [t])
  {
    assert [t][..0] == [] && Exec(s, []) == s && WellBehaved(s, []);
  }

  lemma ExecThree(s: State, t: Timed, u: Timed, v: Timed)
    ensures var s1 := Step(s, t.op, t.now).0; var s2 := Step(s1, u.op, u.now).0;
      && Exec(s, [t, u, v]) == Step(s2, v.op, v.now).0
      && (InLine(s, t.op) && InLine(s1, u.op) && InLine(s2, v.op) ==> WellBehaved(s, [t, u, v]))
  {
    ExecOne(s, t);
    assert [t, u][..1] == [t] && [t, u, v][..2] == [t, u];
    assert Exec(s, [t, u]) == Step(Exec(s, [t]), u.op, u.now).0;
  }

  // ---- deletion ----

  /** Deleting a session is refused exactly for a nonterminal run; otherwise nothing of it remains
      and nothing of any other session moves. */
  lemma DeleteSessionLeavesNothing(s: State, k: SessionKey)
    requires k in s.sessions
    ensures var (s', reply) := DeleteSession(s, k);
      && (reply == Refused(Busy) <==> exists r :: r in RunsOf(s.runs, k) && !s.runs[r].Terminal())
      && (reply.Refused? ==> s' == s)
      && (!reply.Refused? ==>
            && k !in s'.sessions && RunsOf(s'.runs, k) == {} && IdemOf(s'.idem, k) == {}
            && k !in s'.fences && k !in s'.fenceCounters
            && (forall o :: o != k ==>
                  && RunsOf(s'.runs, o) == RunsOf(s.runs, o) && IdemOf(s'.idem, o) == IdemOf(s.idem, o)
                  && (o in s'.sessions <==> o in s.sessions) && (o in s'.fences <==> o in s.fences))
            && (forall r :: r in s'.runs ==> s'.runs[r] == s.runs[r])
            && (forall o :: o in s'.sessions ==> s'.sessions[o] == s.sessions[o]))
  {
    if HasNonterminal(s.runs, k) {
      var r :| r in s.runs && r.session == k && !s.runs[r].Terminal();
      assert r in RunsOf(s.runs, k);
    }
  }

  // ---- sweep ----

  /** A sweep never alters a nonterminal run within its time to live, and never deletes its session. */
  lemma SweepSparesLiveRuns(s: State, r: RunKey, now: int)
    requires r in s.runs && !s.runs[r].Terminal()
    ensures r in Sweep(s, now).runs
    ensures !Stale(s.settings, s.runs[r], now) ==> Sweep(s, now).runs[r] == s.runs[r]
    ensures r.session in s.sessions ==>
      r.session in Sweep(s, now).sessions && Sweep(s, now).sessions[r.session] == s.sessions[r.session]
  {
    assert HasNonterminal(s.runs, r.session);
  }

  /** Only a stale nonterminal run stands between the expired session `k` and collection. */
  ghost predicate FreedByReconciling(s: State, k: SessionKey, now: int) {
    && k in s.sessions && SessionExpired(s.settings, s.sessions[k], now) && k !in s.fences
    && HasNonterminal(s.runs, k)
    && forall r :: r in s.runs && r.session == k && !s.runs[r].Terminal() ==> Stale(s.settings, s.runs[r], now)
  }

  ghost predicate HasStaleNonterminal(s: State, now: int) {
    exists r :: r in s.runs && !s.runs[r].Terminal() && Stale(s.settings, s.runs[r], now)
  }

  /** The nonterminal runs that a sweep leaves are exactly those that were not stale, untouched. */
  lemma SweepNonterminals(s: State, now: int)
    ensures forall r :: r in Sweep(s, now).runs && !Sweep(s, now).runs[r].Terminal() <==>
      r in s.runs && !s.runs[r].Terminal() && !Stale(s.settings, s.runs[r], now)
    ensures forall r :: r in Sweep(s, now).runs && !Sweep(s, now).runs[r].Terminal() ==>
      Sweep(s, now).runs[r] == s.runs[r]
  {
  }

  lemma SweptAgain(s: State, k: SessionKey, now: int)
    ensures k in Sweep(Sweep(s, now), now).sessions <==>
      k in Sweep(s, now).sessions && !FreedByReconciling(s, k, now)
  {
    var s1 := Sweep(s, now);
    SweepNonterminals(s, now);
    assert HasNonterminal(s1.runs, k) ==> HasNonterminal(s.runs, k);
  }

  /** The second pass at the same time is idle exactly when the first freed no session
      (and, were the run time to live negative, interrupted no run). */
  lemma OneSweepSufficesExactly(s: State, now: int)
    ensures Sweep(Sweep(s, now), now) == Sweep(s, now) <==>
      && (forall k :: !FreedByReconciling(s, k, now))
      && (s.settings.runTtl >= 0 || !HasStaleNonterminal(s, now))
  {
    var s1 := Sweep(s, now);
    var s2 := Sweep(s1, now);
    forall k ensures k in s2.sessions <==> k in s1.sessions && !FreedByReconciling(s, k, now) {
      SweptAgain(s, k, now);
    }
    assert s2.idem == s1.idem;
    assert forall k :: FreedByReconciling(s, k, now) ==> k in s1.sessions;
    assert s2.sessions == s1.sessions <==> forall k :: !FreedByReconciling(s, k, now);
    SweptRunsAgain(s, now);
    assert s2 == s1 <==> s2.sessions == s1.sessions && s2.runs == s1.runs;
  }

  lemma SweptRunsAgain(s: State, now: int)
    ensures Sweep(Sweep(s, now), now).runs == Sweep(s, now).runs <==>
      s.settings.runTtl >= 0 || !HasStaleNonterminal(s, now)
  {
    var s1 := Sweep(s, now);
    var s2 := Sweep(s1, now);
    if s.settings.runTtl >= 0 || !HasStaleNonterminal(s, now) {
      assert s2.runs == s1.runs;
    } else {
      var r :| r in s.runs && !s.runs[r].Terminal() && Stale(s.settings, s.runs[r], now);
      assert r in s1.runs && r !in s2.runs;
    }
  }

  /** Two passes at a fixed time always reach the fixpoint. */
  lemma TwoSweepsSuffice(s: State, now: int)
    ensures Sweep(Sweep(Sweep(s, now), now), now) == Sweep(Sweep(s, now), now)
  {
    SweepNonterminals(s, now);
    OneSweepSufficesExactly(Sweep(s, now), now);
  }

  /** One pass may not be enough: after a single admission a crashed run holds its expired session through the first
      pass and not through the second. */
  lemma OneSweepMayNotSuffice(r: RunKey) returns (settings: Settings, history: seq<Timed>)
    ensures settings.runTtl > 0 && WellBehaved(Init(settings), history)
    ensures var s := Exec(Init(settings), history);
      r.session in Sweep(s, 100).sessions && r.session !in Sweep(Sweep(s, 100), 100).sessions
  {
    settings := Settings(10, 10, 1, 1);
    history := [Timed(OpAdmitRun(r, "", []), 0)];
    ExecOne(Init(settings), history[0]);
    var s := Exec(Init(settings), history);
    assert RunsOf(Init(settings).runs, r.session) == {};
    assert s.runs == map[r := Run(Created, "", "", 0)] && s.sessions == map[r.session := NewSession([], 0)];
    assert HasNonterminal(s.runs, r.session) && FreedByReconciling(s, r.session, 100);
    SweptAgain(s, r.session, 100);
  }

  // ---- idempotency records ----

  ghost predicate IdemWithinCap(idem: map<IdemKey, Idem>, cap: int) {
    forall k :: |IdemOf(idem, k)| <= Max(cap, 0)
  }

  lemma FewerIdemWithinCap(idem: map<IdemKey, Idem>, fewer: map<IdemKey, Idem>, cap: int)
    requires IdemWithinCap(idem, cap) && fewer.Keys <= idem.Keys
    ensures IdemWithinCap(fewer, cap)
  {
    forall k ensures |IdemOf(fewer, k)| <= Max(cap, 0) {
      SubsetSize(IdemOf(fewer, k), IdemOf(idem, k));
    }
  }

  lemma OneMoreIdemWithinCap(idem: map<IdemKey, Idem>, i: IdemKey, record: Idem, cap: int)
    requires IdemWithinCap(idem, cap) && |IdemOf(idem, i.session)| < cap
    ensures IdemWithinCap(idem[i := record], cap)
  {
    var more := idem[i := record];
    forall k ensures |IdemOf(more, k)| <= Max(cap, 0) {
      assert IdemOf(more, k) == IdemOf(idem, k) + (if k == i.session then {i} else {});
    }
  }

  /** In every reachable state no session holds more idempotency records than its cap. */
  lemma {:induction false} IdemStaysWithinCap(settings: Settings, history: seq<Timed>)
    ensures IdemWithinCap(Exec(Init(settings), history).idem, settings.maxIdem)
    ensures Exec(Init(settings), history).settings == settings
    decreases |history|
  {
    if history == [] {
      assert forall k :: IdemOf(Init(settings).idem, k) == {};
    } else {
      var last := |history| - 1;
      var s := Exec(Init(settings), history[..last]);
      IdemStaysWithinCap(settings, history[..last]);
      IdemStepWithinCap(s, history[last].op, history[last].now);
    }
  }

  lemma IdemStepWithinCap(s: State, op: Op, now: int)
    requires IdemWithinCap(s.idem, s.settings.maxIdem)
    ensures IdemWithinCap(Step(s, op, now).0.idem, s.settings.maxIdem) && Step(s, op, now).0.settings == s.settings
  {
    if op.OpCreateIdem? && op.i !in s.idem && |IdemOf(s.idem, op.i.session)| < s.settings.maxIdem {
      OneMoreIdemWithinCap(s.idem, op.i, Idem(now + op.ttl), s.settings.maxIdem);
    } else {
      FewerIdemWithinCap(s.idem, Step(s, op, now).0.idem, s.settings.maxIdem);
    }
  }

  // ---- fences ----

  function Number(s: State, k: SessionKey): int {
    if k in s.fenceCounters then s.fenceCounters[k] else 0
  }

  /** A fence is refused exactly while another one lives; a new one has the number after the counter. */
  lemma FenceIsExclusive(s: State, k: SessionKey, token: string, ttl: int, now: int)
    ensures var (s', reply) := AcquireFence(s, k, token, ttl, now);
      && (reply == Denied <==> k in s.fences && s.fences[k].expiresAt > now)
      && (reply == Denied ==> s' == s)
      && (reply != Denied ==>
            && k in s'.fences && s'.fences[k].token == token
            && s'.fences[k].number == Number(s', k) == Number(s, k) + 1
            && (forall o :: o in s.fences && o != k ==> o in s'.fences && s'.fences[o] == s.fences[o])
            && forall other, t :: AcquireFence(s', k, other, ttl, t).1 == Denied <==> t < now + ttl)
  {
  }

  lemma FenceNumbersNeverFall(s: State, k: SessionKey, op: Op, now: int)
    requires op != OpDeleteSession(k)
    ensures Number(Step(s, op, now).0, k) >= Number(s, k)
  {
  }

  /** Until the session is deleted the counter only rises, whatever is done in between. */
  lemma {:induction false} CounterOnlyRises(s: State, k: SessionKey, history: seq<Timed>)
    requires forall t :: t in history ==> t.op != OpDeleteSession(k)
    ensures Number(Exec(s, history), k) >= Number(s, k)
    decreases |history|
  {
    if history != [] {
      var last := |history| - 1;
      CounterOnlyRises(s, k, history[..last]);
      assert history[last] in history;
      FenceNumbersNeverFall(Exec(s, history[..last]), k, history[last].op, history[last].now);
    }
  }

  /** A new fence has a number that no earlier one of the session had: of any two that are granted, with any history
      without a deletion of the session between them, the later one has the higher number. */
  lemma LaterFenceHasHigherNumber(s: State, k: SessionKey, token: string, ttl: int, now: int, history: seq<Timed>,
                                  next: string, nextTtl: int, later: int)
    requires AcquireFence(s, k, token, ttl, now).1 == Ok
    requires forall t :: t in history ==> t.op != OpDeleteSession(k)
    requires AcquireFence(Exec(AcquireFence(s, k, token, ttl, now).0, history), k, next, nextTtl, later).1 == Ok
    ensures var first := AcquireFence(s, k, token, ttl, now).0;
      var second := AcquireFence(Exec(first, history), k, next, nextTtl, later).0;
      k in first.fences && k in second.fences && second.fences[k].number > first.fences[k].number
  {
    var first := AcquireFence(s, k, token, ttl, now).0;
    CounterOnlyRises(first, k, history);
    FenceIsExclusive(s, k, token, ttl, now);
    FenceIsExclusive(Exec(first, history), k, next, nextTtl, later);
  }

  /** Only the holder's token takes a fence away, and then the next one can be had at once. */
  lemma OnlyTheHolderReleases(s: State, k: SessionKey, token: string, next: string, ttl: int, now: int)
    requires k in s.fences
    ensures var (s', reply) := ReleaseFence(s, k, token);
      && (reply == Ok <==> s.fences[k].token == token)
      && (reply != Ok ==> s' == s)
      && (reply == Ok ==> AcquireFence(s', k, next, ttl, now).1 == Ok && Number(s', k) == Number(s, k))
  {
  }
}
