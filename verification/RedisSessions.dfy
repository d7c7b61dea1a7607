/**
 The cap on an owner's sessions on Redis. It is counted through a sorted set of creation times, from which every entry
 that is as old as the time to live is dropped first, whether or not its session is still there.
 */
module RedisSessions {
  import opened Sessions
  import Mem = MemoryState
  import opened MemoryProperties
  import opened RedisProperties
  import opened RedisState

  function SessionsOf(s: State, o: Owner): set<SessionKey> {
    set k | k in s.sessions && OwnerOf(k) == o
  }

  /** Every session is listed with its owner. */
  ghost predicate Listed(s: State) {
    forall k :: k in s.sessions ==> k in Members(s.sessionIdx, OwnerOf(k))
  }

  ghost predicate WithinCap(s: State) {
    forall o :: |SessionsOf(s, o)| <= Max(s.maxSessions, 0)
  }

  /** No session of the owner is there whose entry is about to be dropped. */
  ghost predicate NoneDue(s: State, o: Owner, now: int) {
    var listed := Members(s.sessionIdx, o);
    forall k :: k in SessionsOf(s, o) && k in listed ==> listed[k] > now - s.settings.sessionTtl
  }

  /** A creation keeps every session listed exactly when it drops the entry of none that is there. */
  lemma CreationKeepsListedExactly(s: State, k: SessionKey, now: int)
    requires Listed(s) && k !in s.sessions
    ensures Listed(EnsureSession(s, k, now).0) <==> NoneDue(s, OwnerOf(k), now)
  {
    var s' := EnsureSession(s, k, now).0;
    var o := OwnerOf(k);
    forall other | other in s.sessions
      ensures other in Members(s'.sessionIdx, OwnerOf(other)) <==>
        OwnerOf(other) != o || Members(s.sessionIdx, o)[other] > now - s.settings.sessionTtl
    {
      EntryAfterCreation(s, k, now, other);
    }
  }

  lemma EntryAfterCreation(s: State, k: SessionKey, now: int, other: SessionKey)
    requires k !in s.sessions && other != k && other in Members(s.sessionIdx, OwnerOf(other))
    ensures other in Members(EnsureSession(s, k, now).0.sessionIdx, OwnerOf(other)) <==>
      OwnerOf(other) != OwnerOf(k) || Members(s.sessionIdx, OwnerOf(k))[other] > now - s.settings.sessionTtl
  {
  }

  lemma CreationKeepsCap(s: State, k: SessionKey, now: int)
    requires Listed(s) && WithinCap(s) && (k !in s.sessions ==> NoneDue(s, OwnerOf(k), now))
    ensures WithinCap(EnsureSession(s, k, now).0)
  {
    if k !in s.sessions {
      var s' := EnsureSession(s, k, now).0;
      forall o ensures |SessionsOf(s', o)| <= Max(s'.maxSessions, 0) {
        if o == OwnerOf(k) {
          CountedThroughEntries(s, k, now);
        } else {
          assert SessionsOf(s', o) == SessionsOf(s, o);
        }
      }
    }
  }

  lemma CountedThroughEntries(s: State, k: SessionKey, now: int)
    requires Listed(s) && WithinCap(s) && k !in s.sessions && NoneDue(s, OwnerOf(k), now)
    ensures |SessionsOf(EnsureSession(s, k, now).0, OwnerOf(k))| <= Max(s.maxSessions, 0)
  {
    var o := OwnerOf(k);
    var kept := Recent(Members(s.sessionIdx, o), now - s.settings.sessionTtl);
    RecentCoversSessions(s, o, now);
    SubsetSize(SessionsOf(s, o), kept.Keys);
    assert |kept| == |kept.Keys|;
    CreatedSessions(s, k, now);
  }

  lemma RecentCoversSessions(s: State, o: Owner, now: int)
    requires Listed(s) && NoneDue(s, o, now)
    ensures SessionsOf(s, o) <= Recent(Members(s.sessionIdx, o), now - s.settings.sessionTtl).Keys
  {
  }

  lemma CreatedSessions(s: State, k: SessionKey, now: int)
    requires k !in s.sessions
    ensures var o := OwnerOf(k);
      SessionsOf(EnsureSession(s, k, now).0, o) == SessionsOf(s, o) +
        if |Recent(Members(s.sessionIdx, o), now - s.settings.sessionTtl)| >= s.maxSessions then {} else {k}
  {
  }

  /** The session that an operation creates if it is not there, if any. */
  predicate Creates(op: Op, k: SessionKey) {
    (op.OpCreateSession? && op.k == k) || (op.OpAdmitRun? && op.r.session == k)
  }

  /** An operation that creates a session drops the entry of none that is there. */
  ghost predicate DropsNoneThere(s: State, op: Op, now: int) {
    forall k :: Creates(op, k) && k !in s.sessions ==> NoneDue(s, OwnerOf(k), now)
  }

  ghost predicate DroppedNoneThere(s: State, history: seq<Timed>) {
    history != [] ==>
      var last := |history| - 1;
      && DroppedNoneThere(s, history[..last])
      && DropsNoneThere(Exec(s, history[..last]), history[last].op, history[last].now)
  }

  lemma OthersKeepCap(s: State, s': State)
    requires Listed(s) && WithinCap(s) && s'.maxSessions == s.maxSessions && s'.sessions.Keys <= s.sessions.Keys
    requires forall k :: k in s'.sessions ==> k in Members(s'.sessionIdx, OwnerOf(k))
    ensures Listed(s') && WithinCap(s')
  {
    forall o ensures |SessionsOf(s', o)| <= Max(s'.maxSessions, 0) {
      SubsetSize(SessionsOf(s', o), SessionsOf(s, o));
    }
  }

  lemma {:induction false} EvictLoopFrame(s: State, k: SessionKey, order: seq<RunKey>)
    ensures var s' := EvictLoop(s, k, order); s' == s.(runs := s'.runs, runIdx := s'.runIdx)
    decreases |order|
  {
    if |IndexedRuns(s, k)| >= s.settings.maxRuns && order != [] {
      EvictLoopFrame(PruneRuns(DropRun(s, order[0]), k), k, order[1..]);
    }
  }

  lemma AddRunFrame(s: State, r: RunKey, run: Run, score: int, order: seq<RunKey>)
    ensures var s' := AddRun(s, r, run, score, order).0; s' == s.(runs := s'.runs, runIdx := s'.runIdx)
  {
    EvictLoopFrame(PruneRuns(s, r.session), r.session, order);
  }

  /** What a step does to the sessions and their lists is a creation, a deletion, a timeout, or nothing. */
  lemma SessionsAfterStep(s: State, op: Op, now: int)
    ensures SameLists(Step(s, op, now), Lists(s, op, now))
  {
    match op
    case OpAdmitRun(r, run, order) => AdmissionLists(s, r, run, now, order);
    case OpCreateRun(r, run, order) => CreationLists(s, r, run, now, order);
    case OpSweepRuns => SweepStepLists(s, now);
    case OpCreateIdem(i, ttl) => IdemLists(s, i, ttl, now);
    case OpExpireIdem(i) => ExpireLists(s, i, now);
    case OpUpdateRun(r, run) => UpdateLists(s, r, run, now);
    case OpIdemTimesOut(i) => TimeoutLists(s, i, now);
    case OpCreateSession(k) => assert Step(s, OpCreateSession(k), now) == EnsureSession(s, k, now).0;
    case OpDeleteSession(k) => assert Step(s, OpDeleteSession(k), now) == DeleteSession(s, k).0;
    case OpSessionTimesOut(k) => assert Step(s, OpSessionTimesOut(k), now) == s.(sessions := s.sessions - {k});
  }

  lemma IdemLists(s: State, i: IdemKey, ttl: int, now: int)
    ensures SameLists(Step(s, OpCreateIdem(i, ttl), now), s)
  {
  }

  lemma ExpireLists(s: State, i: IdemKey, now: int)
    ensures SameLists(Step(s, OpExpireIdem(i), now), s)
  {
  }

  lemma UpdateLists(s: State, r: RunKey, run: Run, now: int)
    ensures SameLists(Step(s, OpUpdateRun(r, run), now), s)
  {
  }

  lemma TimeoutLists(s: State, i: IdemKey, now: int)
    ensures SameLists(Step(s, OpIdemTimesOut(i), now), s)
  {
  }

  lemma SweepStepLists(s: State, now: int)
    ensures SameLists(Step(s, OpSweepRuns, now), s)
  {
    SweepLists(s, now - s.settings.runTtl);
  }

  lemma AdmissionLists(s: State, r: RunKey, run: Run, now: int, order: seq<RunKey>)
    ensures SameLists(AdmitRun(s, r, run, now, order).0, EnsureSession(s, r.session, now).0)
  {
    AddRunFrame(EnsureSession(s, r.session, now).0, r, run, now, order);
  }

  lemma CreationLists(s: State, r: RunKey, run: Run, now: int, order: seq<RunKey>)
    ensures SameLists(CreateRun(s, r, run, now, order).0, s)
  {
    AddRunFrame(s, r, run, now, order);
  }

  lemma SweepLists(s: State, cutoff: int)
    ensures SameLists(SweepRuns(s, cutoff), s)
  {
  }

  function Lists(s: State, op: Op, now: int): State {
    match op
    case OpCreateSession(k) => EnsureSession(s, k, now).0
    case OpAdmitRun(r, _, _) => EnsureSession(s, r.session, now).0
    case OpDeleteSession(k) => DeleteSession(s, k).0
    case OpSessionTimesOut(k) => s.(sessions := s.sessions - {k})
    case _ => s
  }

  ghost predicate SameLists(s: State, t: State) {
    s.sessions == t.sessions && s.sessionIdx == t.sessionIdx && s.maxSessions == t.maxSessions
  }

  lemma CreationKeepsBoth(s: State, k: SessionKey, now: int)
    requires Listed(s) && WithinCap(s) && (k !in s.sessions ==> NoneDue(s, OwnerOf(k), now))
    ensures Listed(EnsureSession(s, k, now).0) && WithinCap(EnsureSession(s, k, now).0)
  {
    CreationKeepsCap(s, k, now);
    if k !in s.sessions {
      CreationKeepsListedExactly(s, k, now);
    }
  }

  lemma SameSessions(s: State, t: State)
    requires SameLists(t, s) && Listed(s) && WithinCap(s)
    ensures Listed(t) && WithinCap(t)
  {
    assert forall o :: SessionsOf(s, o) == SessionsOf(t, o);
  }

  lemma StepKeepsCap(s: State, op: Op, now: int)
    requires Listed(s) && WithinCap(s) && DropsNoneThere(s, op, now)
    ensures Listed(Step(s, op, now)) && WithinCap(Step(s, op, now))
  {
    SessionsAfterStep(s, op, now);
    if op.OpCreateSession? || op.OpAdmitRun? {
      var k := if op.OpCreateSession? then op.k else op.r.session;
      assert Creates(op, k);
      CreationKeepsBoth(s, k, now);
    } else {
      OthersKeepCap(s, Lists(s, op, now));
    }
    SameSessions(Lists(s, op, now), Step(s, op, now));
  }

  /** Over every history in which no creation drops the entry of a session that is there, no owner ever has more
      sessions than the cap. */
  lemma {:induction false} SessionsStayWithinCap(settings: Mem.Settings, maxSessions: int, history: seq<Timed>)
    requires DroppedNoneThere(Init(settings, maxSessions), history)
    ensures var s := Exec(Init(settings, maxSessions), history); Listed(s) && WithinCap(s)
    decreases |history|
  {
    var s0 := Init(settings, maxSessions);
    if history == [] {
      assert forall o :: SessionsOf(s0, o) == {};
    } else {
      var last := |history| - 1;
      SessionsStayWithinCap(settings, maxSessions, history[..last]);
      StepKeepsCap(Exec(s0, history[..last]), history[last].op, history[last].now);
    }
  }

  // ---- where the cap does not hold ----

  function Creations(keys: seq<SessionKey>): seq<Timed> {
    seq(|keys|, i requires 0 <= i < |keys| => Timed(OpCreateSession(keys[i]), i))
  }

  /** With a time to live of zero every entry is as old as that at once: whatever the cap, as many sessions as are asked
      for can be had by one owner. */
  lemma {:induction false} ZeroTtlRefusesNothing(settings: Mem.Settings, maxSessions: int, keys: seq<SessionKey>)
    requires settings.sessionTtl == 0 && maxSessions > 0
    ensures var s := Exec(Init(settings, maxSessions), Creations(keys));
      && s.settings == settings && s.maxSessions == maxSessions
      && (forall k :: k in keys ==> k in s.sessions)
      && forall o, k :: k in Members(s.sessionIdx, o) ==> s.sessionIdx[o][k] < |keys|
    decreases |keys|
  {
    if keys != [] {
      var n := |keys| - 1;
      ZeroTtlRefusesNothing(settings, maxSessions, keys[..n]);
      assert Creations(keys)[..n] == Creations(keys[..n]);
      NothingIsKept(Exec(Init(settings, maxSessions), Creations(keys[..n])), keys[n], n);
    }
  }

  lemma NothingIsKept(s: State, k: SessionKey, now: int)
    requires s.settings.sessionTtl == 0 && s.maxSessions > 0
    requires forall o, x :: x in Members(s.sessionIdx, o) ==> s.sessionIdx[o][x] < now
    ensures var s' := EnsureSession(s, k, now).0;
      && s'.settings == s.settings && s'.maxSessions == s.maxSessions
      && k in s'.sessions && s.sessions.Keys <= s'.sessions.Keys
      && forall o, x :: x in Members(s'.sessionIdx, o) ==> s'.sessionIdx[o][x] < now + 1
  {
    var listed := Members(s.sessionIdx, OwnerOf(k));
    assert forall x :: x in listed ==> s.sessionIdx[OwnerOf(k)][x] < now;
    NoneRecent(listed, now);
  }

  lemma NoneRecent(listed: SortedSet<SessionKey>, cutoff: int)
    requires forall x :: x in listed ==> listed[x] <= cutoff
    ensures Recent(listed, cutoff) == map[]
  {
  }

  /** With any other a session that outlives its entry, as one that is written to does, makes room for one too many. */
  lemma OutlivedEntryMakesRoom(settings: Mem.Settings, first: SessionKey, second: SessionKey)
    requires settings.sessionTtl > 0 && first != second && OwnerOf(first) == OwnerOf(second)
    ensures var history := [Timed(OpCreateSession(first), 0), Timed(OpCreateSession(second), settings.sessionTtl)];
      var s := Exec(Init(settings, 1), history);
      first in s.sessions && second in s.sessions && !WithinCap(s)
  {
    var s0, o := Init(settings, 1), OwnerOf(first);
    ExecTwo(s0, Timed(OpCreateSession(first), 0), Timed(OpCreateSession(second), settings.sessionTtl));
    var s1 := EnsureSession(s0, first, 0).0;
    assert Recent(Members(s0.sessionIdx, o), 0 - settings.sessionTtl) == map[];
    assert s1.sessionIdx == map[o := map[first := 0]] && s1.sessions.Keys == {first};
    NoneRecent(Members(s1.sessionIdx, o), 0);
    var s2 := EnsureSession(s1, second, settings.sessionTtl).0;
    assert {first, second} <= SessionsOf(s2, o);
    SubsetSize({first, second}, SessionsOf(s2, o));
    assert |{first, second}| == 2;
  }
}
