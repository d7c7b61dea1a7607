/** The index always covers the keys, so that what the scripts count and delete through it is everything. */
module RedisProperties {
  import opened Sessions
  import Mem = MemoryState
  import opened MemoryProperties
  import opened RedisState

  /** Every run key is a member of its session's index, and an index lists runs of its session only. */
  ghost predicate RunsIndexed(runs: set<RunKey>, idx: map<SessionKey, SortedSet<RunKey>>) {
    && (forall r :: r in runs ==> r.session in idx && r in idx[r.session])
    && (forall k :: k in idx ==> forall r :: r in idx[k] ==> r.session == k)
  }

  ghost predicate IdemIndexed(idem: set<IdemKey>, idx: map<SessionKey, SortedSet<IdemKey>>) {
    && (forall i :: i in idem ==> i.session in idx && i in idx[i.session])
    && (forall k :: k in idx ==> forall i :: i in idx[k] ==> i.session == k)
  }

  ghost predicate Indexed(s: State) {
    RunsIndexed(s.runs.Keys, s.runIdx) && IdemIndexed(s.idem.Keys, s.idemIdx)
  }

  ghost predicate Invariant(s: State) {
    && Indexed(s)
    && RunsWithinCap(s.runs, s.settings.maxRuns)
    && IdemWithinCap(s.idem, s.settings.maxIdem)
  }

  /** The count that a script takes through the index is the true count. */
  lemma IndexCountIsTrueCount(s: State, k: SessionKey)
    requires Indexed(s)
    ensures IndexedRuns(s, k) == Mem.RunsOf(s.runs, k)
    ensures IndexedIdem(s, k) == Mem.IdemOf(s.idem, k)
  {
  }

  lemma PruneKeepsIndexed(s: State, k: SessionKey)
    requires Indexed(s)
    ensures Indexed(PruneRuns(s, k)) && Indexed(PruneIdem(s, k))
  {
    PruneRunsKeepsIndexed(s, k);
    PruneIdemKeepsIndexed(s, k);
  }

  lemma PruneRunsKeepsIndexed(s: State, k: SessionKey)
    requires Indexed(s)
    ensures Indexed(PruneRuns(s, k))
  {
  }

  lemma PruneIdemKeepsIndexed(s: State, k: SessionKey)
    requires Indexed(s)
    ensures Indexed(PruneIdem(s, k))
  {
  }

  lemma DropKeepsIndexed(s: State, r: RunKey)
    requires Indexed(s)
    ensures Indexed(DropRun(s, r))
  {
  }

  lemma PutKeepsIndexed(s: State, r: RunKey, run: Run, score: int)
    requires Indexed(s)
    ensures Indexed(s.(runs := s.runs[r := run],
                       runIdx := s.runIdx[r.session := Members(s.runIdx, r.session)[r := score]]))
  {
  }

  lemma EvictLoopStep(s: State, k: SessionKey, order: seq<RunKey>)
    requires Indexed(s) && Mem.OldestFirst(s.runs, k, order)
    requires |IndexedRuns(s, k)| >= s.settings.maxRuns && order != []
    ensures order[0].session == k
    ensures var s' := PruneRuns(DropRun(s, order[0]), k);
      && Indexed(s') && Mem.OldestFirst(s'.runs, k, order[1..])
      && s'.runs == s.runs - {order[0]} && s' == s.(runs := s'.runs, runIdx := s'.runIdx)
      && EvictLoop(s, k, order) == EvictLoop(s', k, order[1..])
  {
    OldestFirstTail(s.runs, k, order);
    DropKeepsIndexed(s, order[0]);
    PruneKeepsIndexed(DropRun(s, order[0]), k);
  }

  /** The script's eviction loop, which recounts through the index each time round, is the simple one on the run map. */
  lemma {:induction false} EvictLoopRefinesEvict(s: State, k: SessionKey, order: seq<RunKey>)
    requires Indexed(s) && Mem.OldestFirst(s.runs, k, order)
    ensures var s' := EvictLoop(s, k, order);
      && Indexed(s')
      && s'.runs == Mem.Evict(s.runs, k, s.settings.maxRuns, order)
      && s' == s.(runs := s'.runs, runIdx := s'.runIdx)
    decreases |order|
  {
    assert IndexedRuns(s, k) == Mem.RunsOf(s.runs, k) by { IndexCountIsTrueCount(s, k); }
    if |IndexedRuns(s, k)| >= s.settings.maxRuns && order != [] {
      var s1 := PruneRuns(DropRun(s, order[0]), k);
      EvictLoopStep(s, k, order);
      EvictLoopRefinesEvict(s1, k, order[1..]);
      assert Mem.Evict(s.runs, k, s.settings.maxRuns, order) == Mem.Evict(s1.runs, k, s.settings.maxRuns, order[1..]);
    } else {
      assert EvictLoop(s, k, order) == s;
    }
  }

  /** The in-process state with the same sessions and runs. */
  function AsMemory(s: State): Mem.State {
    Mem.State(s.settings, s.sessions, s.runs, map[], map[], map[])
  }

  function MemoryReply(reply: Reply): Mem.Reply {
    match reply
    case OkAt(revision) => Mem.Revision(revision)
    case FullRuns => Mem.Refused(Mem.Capacity)
    case MissingSession => Mem.Refused(Mem.NotFound)
    case _ => Mem.Ok
  }

  lemma MakeRoomRefinesEvict(s: State, k: SessionKey, order: seq<RunKey>)
    requires Indexed(s) && Mem.OldestFirst(s.runs, k, order)
    ensures var s' := MakeRoom(s, k, order);
      && Indexed(s')
      && s'.runs == Mem.Evict(s.runs, k, s.settings.maxRuns, order)
      && s' == s.(runs := s'.runs, runIdx := s'.runIdx)
      && IndexedRuns(s', k) == Mem.RunsOf(s'.runs, k)
  {
    PruneKeepsIndexed(s, k);
    EvictLoopRefinesEvict(PruneRuns(s, k), k, order);
    IndexCountIsTrueCount(MakeRoom(s, k, order), k);
  }

  lemma AddRunRefines(s: State, r: RunKey, run: Run, now: int, order: seq<RunKey>)
    requires Indexed(s) && Mem.OldestFirst(s.runs, r.session, order)
    ensures var (s', reply) := AddRun(s, r, run, now, order);
      var evicted := Mem.Evict(s.runs, r.session, s.settings.maxRuns, order);
      && Indexed(s')
      && s' == s.(runs := s'.runs, runIdx := s'.runIdx)
      && (if |Mem.RunsOf(evicted, r.session)| >= s.settings.maxRuns
          then reply == FullRuns && s'.runs == evicted
          else reply == Ok && s'.runs == evicted[r := run])
  {
    MakeRoomRefinesEvict(s, r.session, order);
    PutKeepsIndexed(MakeRoom(s, r.session, order), r, run, now);
  }

  /** CREATE_RUN does to the run map what the in-process backend does. */
  lemma CreateRunRefinesMemory(s: State, r: RunKey, input: string, now: int, order: seq<RunKey>)
    requires Indexed(s) && Mem.OldestFirst(s.runs, r.session, order)
    ensures var (s', reply) := CreateRun(s, r, Mem.Run(Mem.Created, input, "", now), now, order);
      && (AsMemory(s'), MemoryReply(reply)) == Mem.CreateRun(AsMemory(s), r, input, now, order)
      && (reply.Ok? <==> MemoryReply(reply).Ok?)
  {
    if r.session in s.sessions && r !in s.runs {
      AddRunRefines(s, r, Mem.Run(Mem.Created, input, "", now), now, order);
    }
  }

  lemma EnsureSessionKeepsIndex(s: State, k: SessionKey, now: int)
    requires Invariant(s)
    ensures var (s', reply) := EnsureSession(s, k, now);
      && Invariant(s') && s'.runs == s.runs && s'.settings == s.settings
      && (reply.OkAt? || reply.FullSessions?)
      && (reply.OkAt? ==> s'.sessions == Mem.CreateSession(AsMemory(s), k, [], now).sessions
                          && reply.revision == s'.sessions[k].revision)
      && (reply.FullSessions? ==> s' == s.(sessionIdx := s'.sessionIdx))
  {
    EnsureSessionFrame(s, k, now);
    SessionsDoNotMatter(s, EnsureSession(s, k, now).0);
    EnsureSessionRefines(s, k, now);
  }

  lemma EnsureSessionFrame(s: State, k: SessionKey, now: int)
    ensures var s' := EnsureSession(s, k, now).0; s' == s.(sessions := s'.sessions, sessionIdx := s'.sessionIdx)
  {
  }

  lemma SessionsDoNotMatter(s: State, s': State)
    requires Invariant(s) && s' == s.(sessions := s'.sessions, sessionIdx := s'.sessionIdx)
    ensures Invariant(s')
  {
  }

  lemma EnsureSessionRefines(s: State, k: SessionKey, now: int)
    ensures var (s', reply) := EnsureSession(s, k, now);
      && (reply.OkAt? || reply.FullSessions?)
      && (reply.OkAt? ==> s'.sessions == Mem.CreateSession(AsMemory(s), k, [], now).sessions
                          && reply.revision == s'.sessions[k].revision)
      && (reply.FullSessions? ==> s' == s.(sessionIdx := s'.sessionIdx))
  {
  }

  /** ADMIT_RUN refines the in-process admission, unless the owner's session count refuses it first. */
  lemma AdmitRunRefinesMemory(s: State, r: RunKey, input: string, now: int, order: seq<RunKey>)
    requires Invariant(s) && Mem.OldestFirst(s.runs, r.session, order)
    ensures var (s', reply) := AdmitRun(s, r, Mem.Run(Mem.Created, input, "", now), now, order);
      if reply.FullSessions? then s' == s.(sessionIdx := s'.sessionIdx)
      else (AsMemory(s'), MemoryReply(reply)) == Mem.AdmitRun(AsMemory(s), r, input, now, order)
  {
    EnsureSessionKeepsIndex(s, r.session, now);
    AdmitIsEnsureThenCreate(s, r, Mem.Run(Mem.Created, input, "", now), now, order);
    var found := EnsureSession(s, r.session, now).1;
    if found.OkAt? {
      AdmittedRefines(s, EnsureSession(s, r.session, now).0, r, input, now, order);
    }
  }

  lemma AdmittedRefines(s: State, s1: State, r: RunKey, input: string, now: int, order: seq<RunKey>)
    requires Indexed(s1) && Mem.OldestFirst(s1.runs, r.session, order)
    requires AsMemory(s1) == Mem.CreateSession(AsMemory(s), r.session, [], now)
    ensures var (s2, reply) := CreateRun(s1, r, Mem.Run(Mem.Created, input, "", now), now, order);
      Mem.AdmitRun(AsMemory(s), r, input, now, order) ==
        (AsMemory(s2), if reply.Ok? then Mem.Revision(s1.sessions[r.session].revision) else MemoryReply(reply))
  {
    var (s2, reply) := CreateRun(s1, r, Mem.Run(Mem.Created, input, "", now), now, order);
    CreateRunRefinesMemory(s1, r, input, now, order);
    MemoryAdmitIsCreateAfterEnsure(AsMemory(s), AsMemory(s1), AsMemory(s2), MemoryReply(reply), r, input, now, order);
  }

  lemma MemoryAdmitIsCreateAfterEnsure(m: Mem.State, m1: Mem.State, m2: Mem.State, reply: Mem.Reply,
                                       r: RunKey, input: string, now: int, order: seq<RunKey>)
    requires m1 == Mem.CreateSession(m, r.session, [], now)
    requires (m2, reply) == Mem.CreateRun(m1, r, input, now, order)
    ensures Mem.AdmitRun(m, r, input, now, order) ==
      (m2, if reply.Ok? then Mem.Revision(m1.sessions[r.session].revision) else reply)
  {
  }

  lemma AdmitIsEnsureThenCreate(s: State, r: RunKey, run: Run, now: int, order: seq<RunKey>)
    requires Invariant(s) && Mem.OldestFirst(s.runs, r.session, order)
    ensures var (s1, found) := EnsureSession(s, r.session, now);
      AdmitRun(s, r, run, now, order) ==
        if !found.OkAt? then (s1, found)
        else
          var (s2, reply) := CreateRun(s1, r, run, now, order);
          (s2, if reply.Ok? then found else reply)
    ensures var (s1, found) := EnsureSession(s, r.session, now);
      found.OkAt? ==>
        var reply := CreateRun(s1, r, run, now, order).1;
        reply.Ok? || reply.FullRuns?
  {
    EnsureSessionKeepsIndex(s, r.session, now);
    var (s1, found) := EnsureSession(s, r.session, now);
    AddRunRefines(s1, r, run, now, order);
  }

  // ---- the invariant over every history ----

  lemma AddRunKeepsInvariant(s: State, r: RunKey, run: Run, now: int, order: seq<RunKey>)
    requires Invariant(s) && Mem.OldestFirst(s.runs, r.session, order)
    ensures Invariant(AddRun(s, r, run, now, order).0)
    ensures AddRun(s, r, run, now, order).0.settings == s.settings
  {
    var cap := s.settings.maxRuns;
    var evicted := Mem.Evict(s.runs, r.session, cap, order);
    AddRunRefines(s, r, run, now, order);
    assert RunsWithinCap(evicted, cap) by {
      var n := EvictRemovesOldest(s.runs, r.session, cap, order);
      FewerRunsWithinCap(s.runs, evicted, cap);
    }
    if |Mem.RunsOf(evicted, r.session)| < cap {
      OneMoreRunWithinCap(evicted, r, run, cap);
    }
  }

  lemma PutIdemKeepsIndexed(s: State, i: IdemKey, record: Mem.Idem, score: int)
    requires Indexed(s)
    ensures Indexed(s.(idem := s.idem[i := record],
                       idemIdx := s.idemIdx[i.session := Members(s.idemIdx, i.session)[i := score]]))
  {
  }

  lemma PrunedKeepsInvariant(s: State, k: SessionKey)
    requires Invariant(s)
    ensures Invariant(PruneIdem(s, k)) && IndexedIdem(PruneIdem(s, k), k) == Mem.IdemOf(s.idem, k)
    ensures PruneIdem(s, k).settings == s.settings && PruneIdem(s, k).idem == s.idem
  {
    PruneIdemKeepsIndexed(s, k);
    IndexCountIsTrueCount(PruneIdem(s, k), k);
  }

  function StoreIdem(s: State, i: IdemKey, expiry: int): State {
    s.(idem := s.idem[i := Mem.Idem(expiry)],
       idemIdx := s.idemIdx[i.session := Members(s.idemIdx, i.session)[i := expiry]])
  }

  lemma StoredKeepsInvariant(s: State, i: IdemKey, expiry: int)
    requires Invariant(s) && |Mem.IdemOf(s.idem, i.session)| < s.settings.maxIdem
    ensures Invariant(StoreIdem(s, i, expiry)) && StoreIdem(s, i, expiry).settings == s.settings
  {
    PutIdemKeepsIndexed(s, i, Mem.Idem(expiry), expiry);
    OneMoreIdemWithinCap(s.idem, i, Mem.Idem(expiry), s.settings.maxIdem);
  }

  lemma CreateIdemKeepsInvariant(s: State, i: IdemKey, ttl: int, now: int)
    requires Invariant(s)
    ensures Invariant(CreateIdem(s, i, ttl, now).0)
    ensures CreateIdem(s, i, ttl, now).0.settings == s.settings
  {
    CreateIdemIsStoreAfterPrune(s, i, ttl, now);
    PrunedKeepsInvariant(s, i.session);
    RoomKeepsInvariant(PruneIdem(s, i.session), i, now + ttl);
  }

  lemma RoomKeepsInvariant(s: State, i: IdemKey, expiry: int)
    requires Invariant(s)
    ensures |IndexedIdem(s, i.session)| < s.settings.maxIdem ==>
      Invariant(StoreIdem(s, i, expiry)) && StoreIdem(s, i, expiry).settings == s.settings
  {
    IndexCountIsTrueCount(s, i.session);
    if |IndexedIdem(s, i.session)| < s.settings.maxIdem {
      StoredKeepsInvariant(s, i, expiry);
    }
  }

  lemma CreateIdemIsStoreAfterPrune(s: State, i: IdemKey, ttl: int, now: int)
    ensures var s1 := PruneIdem(s, i.session);
      CreateIdem(s, i, ttl, now).0 ==
        if i in s.idem then s
        else if |IndexedIdem(s1, i.session)| >= s.settings.maxIdem then s1
        else StoreIdem(s1, i, now + ttl)
  {
  }

  /** What the script deletes through the index is exactly the session's keys. */
  lemma DeletionIsComplete(s: State, k: SessionKey)
    requires Indexed(s)
    ensures s.runs - Members(s.runIdx, k).Keys == map r | r in s.runs && r.session != k :: s.runs[r]
    ensures s.idem - Members(s.idemIdx, k).Keys == map i | i in s.idem && i.session != k :: s.idem[i]
  {
  }

  lemma DeletionKeepsIndexed(s: State, k: SessionKey)
    requires Indexed(s)
    ensures Indexed(DeleteSession(s, k).0)
  {
    DeletionIsComplete(s, k);
  }

  lemma SweepKeepsIndexed(s: State, cutoff: int)
    requires Indexed(s)
    ensures Indexed(SweepRuns(s, cutoff))
  {
  }

  lemma NoNewKeysKeepCaps(s: State, s': State)
    requires Invariant(s) && Indexed(s') && s'.settings == s.settings
    requires s'.runs.Keys <= s.runs.Keys && s'.idem.Keys <= s.idem.Keys
    ensures Invariant(s')
  {
    FewerRunsWithinCap(s.runs, s'.runs, s.settings.maxRuns);
    FewerIdemWithinCap(s.idem, s'.idem, s.settings.maxIdem);
  }

  lemma AdmitRunKeepsInvariant(s: State, r: RunKey, run: Run, now: int, order: seq<RunKey>)
    requires Invariant(s) && Mem.OldestFirst(s.runs, r.session, order)
    ensures Invariant(AdmitRun(s, r, run, now, order).0)
    ensures AdmitRun(s, r, run, now, order).0.settings == s.settings
  {
    EnsureSessionKeepsIndex(s, r.session, now);
    AddRunKeepsInvariant(EnsureSession(s, r.session, now).0, r, run, now, order);
  }

  lemma UpdateKeepsInvariant(s: State, r: RunKey, run: Run)
    requires Invariant(s)
    ensures Invariant(UpdateRun(s, r, run)) && UpdateRun(s, r, run).settings == s.settings
  {
    var s' := UpdateRun(s, r, run);
    assert s'.runs.Keys == s.runs.Keys;
    assert RunsIndexed(s'.runs.Keys, s'.runIdx);
    NoNewKeysKeepCaps(s, s');
  }

  lemma ExpireKeepsInvariant(s: State, i: IdemKey)
    requires Invariant(s)
    ensures Invariant(ExpireIdem(s, i).0) && ExpireIdem(s, i).0.settings == s.settings
  {
    NoNewKeysKeepCaps(s, ExpireIdem(s, i).0);
  }

  lemma TimeoutKeepsInvariant(s: State, i: IdemKey)
    requires Invariant(s)
    ensures Invariant(s.(idem := s.idem - {i}))
  {
    NoNewKeysKeepCaps(s, s.(idem := s.idem - {i}));
  }

  lemma DeletionKeepsInvariant(s: State, k: SessionKey)
    requires Invariant(s)
    ensures Invariant(DeleteSession(s, k).0) && DeleteSession(s, k).0.settings == s.settings
  {
    DeletionKeepsIndexed(s, k);
    NoNewKeysKeepCaps(s, DeleteSession(s, k).0);
  }

  lemma CreateRunKeepsInvariant(s: State, r: RunKey, run: Run, now: int, order: seq<RunKey>)
    requires Invariant(s) && Mem.OldestFirst(s.runs, r.session, order)
    ensures Invariant(CreateRun(s, r, run, now, order).0) && CreateRun(s, r, run, now, order).0.settings == s.settings
  {
    AddRunKeepsInvariant(s, r, run, now, order);
  }

  lemma SessionTimeoutKeepsInvariant(s: State, k: SessionKey)
    requires Invariant(s)
    ensures Invariant(s.(sessions := s.sessions - {k}))
  {
  }

  lemma StepKeepsInvariant(s: State, op: Op, now: int)
    requires Invariant(s) && FaithfulOrder(s, op)
    ensures Invariant(Step(s, op, now)) && Step(s, op, now).settings == s.settings
  {
    match op
    case OpAdmitRun(r, run, order) => AdmitRunKeepsInvariant(s, r, run, now, order);
    case OpCreateRun(r, run, order) => CreateRunKeepsInvariant(s, r, run, now, order);
    case OpUpdateRun(r, run) => UpdateKeepsInvariant(s, r, run);
    case _ => OtherStepKeepsInvariant(s, op, now);
  }

  lemma DeleteStepKeepsInvariant(s: State, k: SessionKey, now: int)
    requires Invariant(s)
    ensures Invariant(Step(s, OpDeleteSession(k), now)) && Step(s, OpDeleteSession(k), now).settings == s.settings
  {
    DeletionKeepsInvariant(s, k);
  }

  lemma SweepStepKeepsInvariant(s: State, now: int)
    requires Invariant(s)
    ensures Invariant(Step(s, OpSweepRuns, now)) && Step(s, OpSweepRuns, now).settings == s.settings
  {
    SweepKeepsIndexed(s, now - s.settings.runTtl);
    NoNewKeysKeepCaps(s, Step(s, OpSweepRuns, now));
  }

  lemma OtherStepKeepsInvariant(s: State, op: Op, now: int)
    requires Invariant(s) && !op.OpAdmitRun? && !op.OpCreateRun? && !op.OpUpdateRun?
    ensures Invariant(Step(s, op, now)) && Step(s, op, now).settings == s.settings
  {
    match op
    case OpCreateSession(k) => EnsureSessionKeepsIndex(s, k, now);
    case OpCreateIdem(i, ttl) => CreateIdemKeepsInvariant(s, i, ttl, now);
    case OpExpireIdem(i) => ExpireKeepsInvariant(s, i);
    case OpIdemTimesOut(i) => TimeoutKeepsInvariant(s, i);
    case OpSessionTimesOut(k) => SessionTimeoutKeepsInvariant(s, k);
    case OpDeleteSession(k) => DeleteStepKeepsInvariant(s, k, now);
    case OpSweepRuns => SweepStepKeepsInvariant(s, now);
  }

  lemma {:induction false} ReachableInvariant(settings: Mem.Settings, maxSessions: int, history: seq<Timed>)
    requires Faithful(Init(settings, maxSessions), history)
    ensures Invariant(Exec(Init(settings, maxSessions), history))
    ensures Exec(Init(settings, maxSessions), history).settings == settings
    decreases |history|
  {
    var s0 := Init(settings, maxSessions);
    if history == [] {
      assert forall k :: Mem.RunsOf(s0.runs, k) == {};
      assert forall k :: Mem.IdemOf(s0.idem, k) == {};
    } else {
      var last := |history| - 1;
      ReachableInvariant(settings, maxSessions, history[..last]);
      StepKeepsInvariant(Exec(s0, history[..last]), history[last].op, history[last].now);
    }
  }

  /** A deletion is refused exactly for a nonterminal run that exists, and a successful one leaves
      no run and no idempotency key of that session, and every other key as it was. */
  lemma DeleteSessionLeavesNothing(s: State, k: SessionKey)
    requires Indexed(s) && k in s.sessions
    ensures var (s', reply) := DeleteSession(s, k);
      && (reply == Busy <==> exists r :: r in Mem.RunsOf(s.runs, k) && !s.runs[r].Terminal())
      && (reply == Busy ==> s' == s)
      && (reply != Busy ==>
            && reply == Ok && s'.sessions == s.sessions - {k}
            && s'.runs == (map r | r in s.runs && r.session != k :: s.runs[r])
            && s'.idem == (map i | i in s.idem && i.session != k :: s.idem[i]))
  {
    IndexCountIsTrueCount(s, k);
    DeletionIsComplete(s, k);
  }

  /** The same after any history: missing, busy, or gone with everything of its own and nothing else. */
  lemma DeleteAfterAnyHistory(settings: Mem.Settings, maxSessions: int, history: seq<Timed>, k: SessionKey)
    requires Faithful(Init(settings, maxSessions), history)
    ensures var s := Exec(Init(settings, maxSessions), history);
      var (s', reply) := DeleteSession(s, k);
      && (reply == Zero <==> k !in s.sessions)
      && (reply == Busy <==> k in s.sessions && exists r :: r in Mem.RunsOf(s.runs, k) && !s.runs[r].Terminal())
      && (reply == Zero || reply == Busy ==> s' == s)
      && (reply != Zero && reply != Busy ==>
            && reply == Ok && s'.sessions == s.sessions - {k}
            && s'.runs == (map r | r in s.runs && r.session != k :: s.runs[r])
            && s'.idem == (map i | i in s.idem && i.session != k :: s.idem[i]))
  {
    ReachableInvariant(settings, maxSessions, history);
    var s := Exec(Init(settings, maxSessions), history);
    if k in s.sessions {
      DeleteSessionLeavesNothing(s, k);
    }
  }

  // ---- limits of the protocol ----

  /**
   Unlike the in-process admission this one is not all-or-nothing, since a session key may run out of time
   under its runs: a new run is refused for the run cap exactly when the nonterminal runs fill it, and then
   the session is there afterwards, newly made exactly when it was missing.
   */
  lemma RefusedAdmissionKeepsNewSession(s: State, r: RunKey, input: string, now: int, order: seq<RunKey>)
    requires Invariant(s) && r !in s.runs && Mem.OldestFirst(s.runs, r.session, order)
    requires EnsureSession(s, r.session, now).1.OkAt?
    ensures var (s', reply) := AdmitRun(s, r, Mem.Run(Mem.Created, input, "", now), now, order);
      && (reply == FullRuns <==>
            |Mem.RunsOf(s.runs, r.session)| - |Mem.TerminalsOf(s.runs, r.session)| >= s.settings.maxRuns)
      && r.session in s'.sessions
      && (s'.sessions == s.sessions <==> r.session in s.sessions)
  {
    AdmitRunRefinesMemory(s, r, input, now, order);
    AdmissionRefusedExactly(AsMemory(s), r, input, now, order);
    AdmitIsEnsureThenCreate(s, r, Mem.Run(Mem.Created, input, "", now), now, order);
    EnsureSessionKeepsIndex(s, r.session, now);
    AddRunRefines(EnsureSession(s, r.session, now).0, r, Mem.Run(Mem.Created, input, "", now), now, order);
  }

  /** A history of one operation, and of two. */
  lemma ExecOne(s: State, t: Timed)
    ensures Exec(s, [t]) == Step(s, t.op, t.now)
    ensures FaithfulOrder(s, t.op) ==> Faithful(s, [t])
  {
    assert [t][..0] == [] && Exec(s, []) == s;
    assert Faithful(s, []);
  }

  lemma ExecTwo(s: State, t: Timed, u: Timed)
    ensures Exec(s, [t, u]) == Step(Step(s, t.op, t.now), u.op, u.now)
    ensures FaithfulOrder(s, t.op) && FaithfulOrder(Step(s, t.op, t.now), u.op) ==> Faithful(s, [t, u])
  {
    assert [t, u][..1] == [t];
    ExecOne(s, t);
  }

  lemma FirstAdmission(settings: Mem.Settings, r: RunKey, run: Run)
    requires settings.maxRuns == 1
    ensures var s0 := Init(settings, 1);
      && FaithfulOrder(s0, OpAdmitRun(r, run, []))
      && Step(s0, OpAdmitRun(r, run, []), 0) ==
         s0.(sessions := map[r.session := NewSession([], 0)], runs := map[r := run],
             sessionIdx := map[OwnerOf(r.session) := map[r.session := 0]], runIdx := map[r.session := map[r := 0]])
  {
    var s0 := Init(settings, 1);
    var s1 := EnsureSession(s0, r.session, 0).0;
    assert s1.sessionIdx == map[OwnerOf(r.session) := map[r.session := 0]];
    assert s1.runs == map[] && IndexedRuns(PruneRuns(s1, r.session), r.session) == {};
    assert PruneRuns(s1, r.session).runIdx == map[r.session := map[]];
  }

  /** The failing case occurs: a session key runs out of time under a run that is not finished, and the next admission
      makes the session anew before it is refused. */
  lemma RefusedAdmissionIsReached(r: RunKey, next: RunKey)
    returns (settings: Mem.Settings, history: seq<Timed>)
    requires r.session == next.session && r != next
    ensures settings.maxRuns == 1 && Faithful(Init(settings, 1), history)
    ensures var s := Exec(Init(settings, 1), history);
      var (s', reply) := AdmitRun(s, next, Mem.Run(Mem.Created, "", "", 20), 20, []);
      && Mem.OldestFirst(s.runs, next.session, [])
      && reply == FullRuns && next.session !in s.sessions && next.session in s'.sessions
  {
    settings := Mem.Settings(10, 1000, 1, 1);
    var run := Mem.Run(Mem.Created, "", "", 0);
    history := [Timed(OpAdmitRun(r, run, []), 0), Timed(OpSessionTimesOut(r.session), 10)];
    FirstAdmission(settings, r, run);
    ExecTwo(Init(settings, 1), history[0], history[1]);
    ReachableInvariant(settings, 1, history);
    OrphanRefusesNext(Exec(Init(settings, 1), history), r, next, run);
  }

  lemma OrphanRefusesNext(s: State, r: RunKey, next: RunKey, run: Run)
    requires Invariant(s) && s.settings.maxRuns == 1 && s.maxSessions == 1 && s.settings.sessionTtl == 10
    requires s.runs == map[r := run] && !run.Terminal() && s.sessions == map[]
    requires s.sessionIdx == map[OwnerOf(r.session) := map[r.session := 0]] && r.session == next.session && r != next
    ensures var (s', reply) := AdmitRun(s, next, Mem.Run(Mem.Created, "", "", 20), 20, []);
      && Mem.OldestFirst(s.runs, next.session, [])
      && reply == FullRuns && next.session in s'.sessions
  {
    assert Mem.RunsOf(s.runs, next.session) == {r} && Mem.TerminalsOf(s.runs, next.session) == {};
    assert EnsureSession(s, next.session, 20).1.OkAt? by {
      var listed := Members(s.sessionIdx, OwnerOf(r.session));
      assert forall o :: o in listed ==> listed[o] == 0;
    }
    RefusedAdmissionKeepsNewSession(s, next, "", 20, []);
  }

  /** What the SET of an update does to a state in which every key is in its index: it stays so exactly when the run is
      still listed. While the run exists it is; a deletion, an eviction or a sweep between GET and SET takes it off. */
  lemma SetKeepsIndexExactly(s: State, r: RunKey, run: Run)
    requires Indexed(s)
    ensures Indexed(SetRun(s, r, run)) <==> r in Members(s.runIdx, r.session)
    ensures r in s.runs ==> r in Members(s.runIdx, r.session)
    ensures r !in Members(DropRun(s, r).runIdx, r.session)
    ensures forall cutoff :: SweptAway(s, r, cutoff) ==> r !in Members(SweepRuns(s, cutoff).runIdx, r.session)
  {
    var s' := SetRun(s, r, run);
    if r in Members(s.runIdx, r.session) {
      assert RunsIndexed(s'.runs.Keys, s'.runIdx);
    } else {
      assert r in s'.runs.Keys;
    }
  }

  /** The one-step reading of an update is needed: when its GET runs before a DELETE_SESSION and its SET after, the run
      key comes back outside the index, and once the session is made anew a deletion that succeeds leaves it behind. */
  lemma SplitUpdateEscapesIndex(s: State, r: RunKey, run: Run, now: int)
    requires Indexed(s) && r in s.runs && r.session in s.sessions
    requires forall o :: o in Mem.RunsOf(s.runs, r.session) ==> s.runs[o].Terminal()
    ensures var split := SetRun(DeleteSession(s, r.session).0, r, run);
      var (anew, made) := EnsureSession(split, r.session, now);
      var (left, reply) := DeleteSession(anew, r.session);
      && !Indexed(split)
      && (made.OkAt? ==> reply == Ok && r.session !in left.sessions && r in left.runs && left.runs[r] == run)
  {
    DeletionKeepsIndexed(s, r.session);
    DeleteSessionLeavesNothing(s, r.session);
    DeletionDropsIndex(s, r.session);
    var s1 := DeleteSession(s, r.session).0;
    SetKeepsIndexExactly(s1, r, run);
    UnlistedRunIsLeft(SetRun(s1, r, run), r, now);
  }

  lemma DeletionDropsIndex(s: State, k: SessionKey)
    requires DeleteSession(s, k).1 == Ok
    ensures k !in DeleteSession(s, k).0.runIdx && k !in DeleteSession(s, k).0.sessions
  {
  }

  lemma UnlistedRunIsLeft(s: State, r: RunKey, now: int)
    requires r in s.runs && r.session !in s.sessions && r.session !in s.runIdx
    ensures var (anew, made) := EnsureSession(s, r.session, now);
      var (left, reply) := DeleteSession(anew, r.session);
      made.OkAt? ==> reply == Ok && r.session !in left.sessions && r in left.runs && left.runs[r] == s.runs[r]
  {
    var anew := EnsureSession(s, r.session, now).0;
    assert anew.runs == s.runs && anew.runIdx == s.runIdx;
    assert IndexedRuns(anew, r.session) == {};
  }

  /** A run that is updated keeps its first index score, so the sweep can interrupt one that is far from stale: here one
      that was admitted at 0 and updated at 1000, by a sweep at 1001. */
  lemma SweepMayInterruptFreshRun(r: RunKey) returns (settings: Mem.Settings, history: seq<Timed>)
    ensures settings.runTtl == 60 && Faithful(Init(settings, 1), history)
    ensures var s := Exec(Init(settings, 1), history);
      && r in s.runs && !s.runs[r].Terminal() && s.runs[r].updatedAt == 1000
      && r in Step(s, OpSweepRuns, 1001).runs && Step(s, OpSweepRuns, 1001).runs[r].status == Mem.Failed
  {
    settings := Mem.Settings(0, 60, 1, 1);
    var run, updated := Mem.Run(Mem.Created, "", "", 0), Mem.Run(Mem.Running, "", "", 1000);
    history := [Timed(OpAdmitRun(r, run, []), 0), Timed(OpUpdateRun(r, updated), 1000)];
    FirstAdmission(settings, r, run);
    ExecTwo(Init(settings, 1), history[0], history[1]);
    var s := Exec(Init(settings, 1), history);
    assert s.runs == map[r := updated] && s.runIdx == map[r.session := map[r := 0]] && s.settings == settings;
    assert Interrupted(s, r, 941);
  }

  /** It spares every nonterminal run within its time to live exactly when none of them has a score that is due. */
  lemma SweepSparesFreshRunsExactly(s: State, cutoff: int)
    ensures
      (forall r :: r in s.runs && !s.runs[r].Terminal() && s.runs[r].updatedAt > cutoff ==>
         r in SweepRuns(s, cutoff).runs && SweepRuns(s, cutoff).runs[r] == s.runs[r])
      <==>
      (forall r :: r in s.runs && !s.runs[r].Terminal() && s.runs[r].updatedAt > cutoff ==> !Due(s, r, cutoff))
  {
    forall r | r in s.runs && !s.runs[r].Terminal()
      ensures r in SweepRuns(s, cutoff).runs
      ensures SweepRuns(s, cutoff).runs[r] == s.runs[r] <==> !Due(s, r, cutoff)
    {
      assert Due(s, r, cutoff) ==> SweepRuns(s, cutoff).runs[r].status == Mem.Failed;
    }
  }
}
