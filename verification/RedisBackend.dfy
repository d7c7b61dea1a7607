/** The Redis scripts as loops over index members, each proved to compute its function in `RedisState`. */
module RedisBackend {
  import opened Sessions
  import Mem = MemoryState
  import R = RedisState
  import opened RedisState
  import opened RedisProperties

  class Store {
    const settings: Mem.Settings
    const maxSessions: int
    var sessions: map<SessionKey, Session>
    var runs: map<RunKey, Run>
    var idem: map<IdemKey, Mem.Idem>
    var sessionIdx: map<Owner, SortedSet<SessionKey>>
    var runIdx: map<SessionKey, SortedSet<RunKey>>
    var idemIdx: map<SessionKey, SortedSet<IdemKey>>

    function View(): State
      reads this
    {
      State(settings, maxSessions, sessions, runs, idem, sessionIdx, runIdx, idemIdx)
    }

    constructor (settings: Mem.Settings, maxSessions: int)
      ensures View() == Init(settings, maxSessions)
    {
      this.settings, this.maxSessions := settings, maxSessions;
      sessions, runs, idem, sessionIdx, runIdx, idemIdx := map[], map[], map[], map[], map[], map[];
    }

    method SessionRuns(k: SessionKey) returns (live: set<RunKey>)
      modifies this`runIdx
      ensures View() == PruneRuns(old(View()), k)
      ensures live == IndexedRuns(old(View()), k) == IndexedRuns(View(), k)
    {
      var kept := KeepExisting(Members(runIdx, k), runs.Keys);
      runIdx := runIdx[k := kept];
      live := kept.Keys;
    }

    method EvictOne(k: SessionKey, victim: RunKey) returns (existing: set<RunKey>)
      requires victim.session == k
      modifies this`runs, this`runIdx
      ensures View() == PruneRuns(DropRun(old(View()), victim), k)
      ensures existing == IndexedRuns(View(), k)
    {
      runs := runs - {victim};
      runIdx := runIdx[k := Members(runIdx, k) - {victim}];
      existing := SessionRuns(k);
    }

    method MakeRoom(k: SessionKey) returns (full: bool, ghost order: seq<RunKey>)
      requires Indexed(View())
      modifies this`runs, this`runIdx
      ensures Mem.OldestFirst(old(runs), k, order)
      ensures View() == R.MakeRoom(old(View()), k, order)
      ensures full <==> |IndexedRuns(View(), k)| >= settings.maxRuns
    {
      PruneKeepsIndexed(View(), k);
      IndexCountIsTrueCount(View(), k);
      var existing := SessionRuns(k);
      ghost var pruned := View();
      var terminal := Mem.SortTerminals(runs, k);
      order := terminal;
      while |existing| >= settings.maxRuns && terminal != []
        invariant Indexed(View()) && Mem.OldestFirst(runs, k, terminal)
        invariant existing == IndexedRuns(View(), k)
        invariant EvictLoop(View(), k, terminal) == EvictLoop(pruned, k, order)
        decreases |terminal|
      {
        EvictLoopStep(View(), k, terminal);
        existing := EvictOne(k, terminal[0]);
        terminal := terminal[1..];
      }
      full := |existing| >= settings.maxRuns;
    }

    method CreateRun(r: RunKey, run: Run, now: int) returns (reply: Reply, ghost order: seq<RunKey>)
      requires Indexed(View())
      modifies this`runs, this`runIdx
      ensures Mem.OldestFirst(old(runs), r.session, order)
      ensures (View(), reply) == R.CreateRun(old(View()), r, run, now, order)
    {
      IndexCountIsTrueCount(View(), r.session);
      order := Mem.SortTerminals(runs, r.session);
      if r.session !in sessions { reply := MissingSession; return; }
      if r in runs { reply := Ok; return; }
      var full;
      full, order := MakeRoom(r.session);
      if full { reply := FullRuns; return; }
      runs := runs[r := run];
      runIdx := runIdx[r.session := Members(runIdx, r.session)[r := now]];
      reply := Ok;
    }

    method EnsureSession(k: SessionKey, now: int) returns (reply: Reply)
      modifies this`sessions, this`sessionIdx
      ensures (View(), reply) == R.EnsureSession(old(View()), k, now)
    {
      if k in sessions { return OkAt(sessions[k].revision); }
      var cutoff := now - settings.sessionTtl;
      var listed := Members(sessionIdx, OwnerOf(k));
      var kept := map o | o in listed && listed[o] > cutoff :: listed[o];
      sessionIdx := sessionIdx[OwnerOf(k) := kept];
      if |kept| >= maxSessions { return FullSessions; }
      sessions := sessions[k := NewSession([], now)];
      sessionIdx := sessionIdx[OwnerOf(k) := kept[k := now]];
      assert sessionIdx == old(sessionIdx)[OwnerOf(k) := kept[k := now]];
      reply := OkAt(1);
    }

    method AdmitRun(r: RunKey, run: Run, now: int) returns (reply: Reply, ghost order: seq<RunKey>)
      requires Indexed(View())
      modifies this`sessions, this`sessionIdx, this`runs, this`runIdx
      ensures Mem.OldestFirst(old(runs), r.session, order)
      ensures (View(), reply) == R.AdmitRun(old(View()), r, run, now, order)
    {
      order := Mem.SortTerminals(runs, r.session);
      reply := EnsureSession(r.session, now);
      if !reply.OkAt? || r in runs { return; }
      var full;
      full, order := MakeRoom(r.session);
      if full { reply := FullRuns; return; }
      runs := runs[r := run];
      runIdx := runIdx[r.session := Members(runIdx, r.session)[r := now]];
    }

    method FindNonterminal(k: SessionKey) returns (busy: bool)
      ensures busy <==> exists r :: r in IndexedRuns(View(), k) && !runs[r].Terminal()
    {
      var todo := Members(runIdx, k).Keys;
      while todo != {}
        invariant todo <= Members(runIdx, k).Keys
        invariant forall r :: r in IndexedRuns(View(), k) && r !in todo ==> runs[r].Terminal()
        decreases |todo|
      {
        var r :| r in todo;
        if r in runs && !runs[r].Terminal() {
          assert r in IndexedRuns(View(), k);
          return true;
        }
        todo := todo - {r};
      }
      busy := false;
    }

    method DropRuns(doomed: set<RunKey>)
      modifies this`runs
      ensures runs == old(runs) - doomed
    {
      var todo := doomed;
      while todo != {}
        invariant todo <= doomed && runs == old(runs) - (doomed - todo)
        decreases |todo|
      {
        var r :| r in todo;
        runs := runs - {r};
        todo := todo - {r};
      }
      assert doomed - todo == doomed;
    }

    method DropIdem(doomed: set<IdemKey>)
      modifies this`idem
      ensures idem == old(idem) - doomed
    {
      var todo := doomed;
      while todo != {}
        invariant todo <= doomed && idem == old(idem) - (doomed - todo)
        decreases |todo|
      {
        var i :| i in todo;
        idem := idem - {i};
        todo := todo - {i};
      }
      assert doomed - todo == doomed;
    }

    method DeleteSession(k: SessionKey) returns (reply: Reply)
      modifies this
      ensures (View(), reply) == R.DeleteSession(old(View()), k)
    {
      if k !in sessions { return Zero; }
      var busy := FindNonterminal(k);
      if busy { return Busy; }
      sessions := sessions - {k};
      DropRuns(Members(runIdx, k).Keys);
      DropIdem(Members(idemIdx, k).Keys);
      runIdx := runIdx - {k};
      idemIdx := idemIdx - {k};
      sessionIdx := sessionIdx[OwnerOf(k) := Members(sessionIdx, OwnerOf(k)) - {k}];
      reply := Ok;
    }

    method CountIdem(k: SessionKey) returns (count: nat)
      modifies this`idemIdx
      ensures View() == PruneIdem(old(View()), k)
      ensures count == |IndexedIdem(View(), k)|
    {
      var kept := KeepExisting(Members(idemIdx, k), idem.Keys);
      idemIdx := idemIdx[k := kept];
      assert kept.Keys == IndexedIdem(View(), k);
      count := |kept|;
    }

    method CreateIdem(i: IdemKey, ttl: int, now: int) returns (reply: Reply)
      modifies this`idem, this`idemIdx
      ensures (View(), reply) == R.CreateIdem(old(View()), i, ttl, now)
    {
      if i in idem { return Ok; }
      var count := CountIdem(i.session);
      if count >= settings.maxIdem { return FullIdem; }
      idem := idem[i := Mem.Idem(now + ttl)];
      idemIdx := idemIdx[i.session := Members(idemIdx, i.session)[i := now + ttl]];
      reply := Ok;
    }

    method ExpireIdem(i: IdemKey) returns (reply: Reply)
      modifies this`idem, this`idemIdx
      ensures (View(), reply) == R.ExpireIdem(old(View()), i)
    {
      if i !in idem { return Zero; }
      idem := idem - {i};
      idemIdx := idemIdx[i.session := Members(idemIdx, i.session) - {i}];
      reply := Ok;
    }

    /** SWEEP_RUNS; `cutoff` is the time less the time to live. */
    method SweepRuns(cutoff: int)
      requires Indexed(View())
      modifies this`runs, this`runIdx
      ensures View() == R.SweepRuns(old(View()), cutoff)
    {
      var swept := SweepAll(View(), cutoff);
      SweepLeavesTheRest(old(View()), cutoff, swept);
      runs, runIdx := swept.runs, swept.runIdx;
      assert View() == swept;
    }
  }

  /** The counting loops: walk the members, ZREM those whose key is gone. */
  method KeepExisting<T(==)>(members: SortedSet<T>, keys: set<T>) returns (kept: SortedSet<T>)
    ensures kept == Kept(members, keys)
    ensures kept.Keys == set x | x in members && x in keys
  {
    kept := members;
    var todo := members.Keys;
    while todo != {}
      invariant todo <= members.Keys
      invariant kept == map x | x in members && (x in todo || x in keys) :: members[x]
      decreases |todo|
    {
      var x :| x in todo;
      if x !in keys {
        kept := kept - {x};
      }
      todo := todo - {x};
    }
    assert kept == Kept(members, keys);
  }

  // ---- the sweep, part way ----

  /** The run map and one index once the members in `done` have been visited. */
  function VisitedRuns(s: State, done: set<RunKey>, cutoff: int): map<RunKey, Run> {
    map r | r in s.runs && !(r in done && SweptAway(s, r, cutoff)) ::
      if r in done && Interrupted(s, r, cutoff) then Fail(s.runs[r]) else s.runs[r]
  }

  function VisitedMembers(s: State, k: SessionKey, done: set<RunKey>, cutoff: int): SortedSet<RunKey> {
    map r | r in Members(s.runIdx, k) && !(r in done && (r !in s.runs || SweptAway(s, r, cutoff))) ::
      if r in done && Interrupted(s, r, cutoff) && s.runs[r].updatedAt > 0 then s.runs[r].updatedAt else s.runIdx[k][r]
  }

  /** What the loop does to the run map and the index for one due member. */
  function Visit(runs: map<RunKey, Run>, index: SortedSet<RunKey>, r: RunKey, cutoff: int):
    (map<RunKey, Run>, SortedSet<RunKey>)
  {
    if r !in runs then (runs, index - {r})
    else if runs[r].Terminal() then
      if runs[r].updatedAt <= cutoff then (runs - {r}, index - {r}) else (runs, index)
    else (runs[r := Fail(runs[r])], if runs[r].updatedAt > 0 then index[r := runs[r].updatedAt] else index)
  }

  lemma VisitOne(s: State, k: SessionKey, done: set<RunKey>, r: RunKey, cutoff: int)
    requires r in Members(s.runIdx, k) && s.runIdx[k][r] <= cutoff && r.session == k && r !in done
    ensures (VisitedRuns(s, done + {r}, cutoff), VisitedMembers(s, k, done + {r}, cutoff)) ==
      Visit(VisitedRuns(s, done, cutoff), VisitedMembers(s, k, done, cutoff), r, cutoff)
  {
    VisitOneRun(s, k, done, r, cutoff);
    VisitOneMember(s, k, done, r, cutoff);
  }

  lemma VisitOneRun(s: State, k: SessionKey, done: set<RunKey>, r: RunKey, cutoff: int)
    requires r in Members(s.runIdx, k) && s.runIdx[k][r] <= cutoff && r.session == k && r !in done
    ensures VisitedRuns(s, done + {r}, cutoff) ==
      Visit(VisitedRuns(s, done, cutoff), VisitedMembers(s, k, done, cutoff), r, cutoff).0
  {
    assert r in VisitedRuns(s, done, cutoff) <==> r in s.runs;
  }

  lemma VisitOneMember(s: State, k: SessionKey, done: set<RunKey>, r: RunKey, cutoff: int)
    requires r in Members(s.runIdx, k) && s.runIdx[k][r] <= cutoff && r.session == k && r !in done
    ensures VisitedMembers(s, k, done + {r}, cutoff) ==
      Visit(VisitedRuns(s, done, cutoff), VisitedMembers(s, k, done, cutoff), r, cutoff).1
  {
    assert r in VisitedRuns(s, done, cutoff) <==> r in s.runs;
  }

  /** The run map once the indexes of the sessions in `swept` have been swept. */
  function SweptRuns(s: State, swept: set<SessionKey>, cutoff: int): map<RunKey, Run> {
    map r | r in s.runs && !(r.session in swept && SweptAway(s, r, cutoff)) ::
      if r.session in swept && Interrupted(s, r, cutoff) then Fail(s.runs[r]) else s.runs[r]
  }

  lemma VisitedNone(s: State, k: SessionKey, cutoff: int)
    ensures VisitedRuns(s, {}, cutoff) == s.runs && VisitedMembers(s, k, {}, cutoff) == Members(s.runIdx, k)
  {
  }

  method VisitMember(runs: map<RunKey, Run>, index: SortedSet<RunKey>, r: RunKey, cutoff: int)
    returns (runs': map<RunKey, Run>, index': SortedSet<RunKey>)
    ensures (runs', index') == Visit(runs, index, r, cutoff)
  {
    runs', index' := runs, index;
    if r in runs {
      var run := runs[r];
      if run.Terminal() && run.updatedAt <= cutoff {
        runs', index' := runs - {r}, index - {r};
      } else if !run.Terminal() {
        if run.updatedAt > 0 {
          index' := index[r := run.updatedAt];
        }
        runs' := runs[r := Fail(run)];
      }
    } else {
      index' := index - {r};
    }
  }

  /** One index of the sweep: the members whose score is at or below the cutoff, one by one. */
  method SweepIndex(s: State, k: SessionKey, cutoff: int) returns (runs: map<RunKey, Run>, index: SortedSet<RunKey>)
    requires k in s.runIdx && forall r :: r in s.runIdx[k] ==> r.session == k
    ensures runs == SweptRuns(s, {k}, cutoff)
    ensures index == SweptIndex(s, k, cutoff)
  {
    runs, index := s.runs, s.runIdx[k];
    var todo := set r | r in index && index[r] <= cutoff;
    ghost var due := todo;
    VisitedNone(s, k, cutoff);
    assert due - todo == {};
    while todo != {}
      invariant todo <= due
      invariant runs == VisitedRuns(s, due - todo, cutoff)
      invariant index == VisitedMembers(s, k, due - todo, cutoff)
      decreases |todo|
    {
      var r :| r in todo;
      VisitOne(s, k, due - todo, r, cutoff);
      assert due - (todo - {r}) == (due - todo) + {r};
      runs, index := VisitMember(runs, index, r, cutoff);
      todo := todo - {r};
    }
    assert due - todo == due;
    VisitedAll(s, k, due, cutoff);
  }

  lemma VisitedAll(s: State, k: SessionKey, due: set<RunKey>, cutoff: int)
    requires k in s.runIdx && forall r :: r in s.runIdx[k] ==> r.session == k
    requires due == set r | r in s.runIdx[k] && s.runIdx[k][r] <= cutoff
    ensures VisitedRuns(s, due, cutoff) == SweptRuns(s, {k}, cutoff)
    ensures VisitedMembers(s, k, due, cutoff) == SweptIndex(s, k, cutoff)
  {
  }

  /** A session whose index is not yet swept is judged as it would have been at the start. */
  ghost predicate JudgedAlike(s: State, here: State, r: RunKey, cutoff: int) {
    && (r in here.runs <==> r in s.runs) && (r in s.runs ==> here.runs[r] == s.runs[r])
    && SweptAway(here, r, cutoff) == SweptAway(s, r, cutoff)
    && Interrupted(here, r, cutoff) == Interrupted(s, r, cutoff)
  }

  lemma UnsweptJudgedAlike(s: State, here: State, k: SessionKey, swept: set<SessionKey>, r: RunKey, cutoff: int)
    requires k in s.runIdx && k in here.runIdx && here.runIdx[k] == s.runIdx[k] && k !in swept
    requires here.runs == SweptRuns(s, swept, cutoff) && r.session == k
    ensures JudgedAlike(s, here, r, cutoff)
  {
  }

  lemma SweptIndexAlike(s: State, here: State, k: SessionKey, cutoff: int)
    requires k in s.runIdx && k in here.runIdx && here.runIdx[k] == s.runIdx[k]
    requires forall r :: r in s.runIdx[k] ==> JudgedAlike(s, here, r, cutoff)
    ensures SweptIndex(here, k, cutoff) == SweptIndex(s, k, cutoff)
  {
  }

  lemma SweptRunsAlike(s: State, here: State, k: SessionKey, swept: set<SessionKey>, cutoff: int)
    requires here.runs == SweptRuns(s, swept, cutoff) && k !in swept
    requires forall r: RunKey :: r.session == k ==> JudgedAlike(s, here, r, cutoff)
    ensures SweptRuns(here, {k}, cutoff) == SweptRuns(s, swept + {k}, cutoff)
  {
    forall r: RunKey
      ensures r in SweptRuns(here, {k}, cutoff) <==> r in SweptRuns(s, swept + {k}, cutoff)
      ensures r in SweptRuns(here, {k}, cutoff) ==>
        SweptRuns(here, {k}, cutoff)[r] == SweptRuns(s, swept + {k}, cutoff)[r]
    {
      if r.session == k {
        assert JudgedAlike(s, here, r, cutoff);
      }
    }
  }

  /** Sweeping one more index from the state part way is sweeping it from the start. */
  lemma SweepNextIndex(s: State, here: State, k: SessionKey, swept: set<SessionKey>, cutoff: int)
    requires k in s.runIdx && k in here.runIdx && here.runIdx[k] == s.runIdx[k] && k !in swept
    requires here.runs == SweptRuns(s, swept, cutoff) && forall r :: r in s.runIdx[k] ==> r.session == k
    ensures SweptIndex(here, k, cutoff) == SweptIndex(s, k, cutoff)
    ensures SweptRuns(here, {k}, cutoff) == SweptRuns(s, swept + {k}, cutoff)
  {
    forall r: RunKey | r.session == k ensures JudgedAlike(s, here, r, cutoff) {
      UnsweptJudgedAlike(s, here, k, swept, r, cutoff);
    }
    SweptIndexAlike(s, here, k, cutoff);
    SweptRunsAlike(s, here, k, swept, cutoff);
  }

  /** The state once the indexes in `swept` have been swept and the others not. */
  ghost predicate SweptSoFar(s: State, here: State, swept: set<SessionKey>, cutoff: int) {
    && here.runIdx.Keys == s.runIdx.Keys
    && here.runs == SweptRuns(s, swept, cutoff)
    && (forall k :: k in s.runIdx ==>
          here.runIdx[k] == if k in swept then SweptIndex(s, k, cutoff) else s.runIdx[k])
    && here == s.(runs := here.runs, runIdx := here.runIdx)
  }

  lemma NothingSwept(s: State, cutoff: int)
    ensures SweptSoFar(s, s, {}, cutoff)
  {
  }

  lemma SweepLeavesTheRest(s: State, cutoff: int, s': State)
    requires s' == R.SweepRuns(s, cutoff)
    ensures s' == State(s.settings, s.maxSessions, s.sessions, s'.runs, s.idem, s.sessionIdx, s'.runIdx, s.idemIdx)
  {
  }

  lemma IndexedIsPerSession(s: State)
    requires Indexed(s)
    ensures PerSession(s.runIdx)
  {
  }

  lemma NextSwept(s: State, here: State, swept: set<SessionKey>, k: SessionKey, cutoff: int)
    requires PerSession(s.runIdx) && SweptSoFar(s, here, swept, cutoff) && k in s.runIdx && k !in swept
    ensures k in here.runIdx && forall r :: r in here.runIdx[k] ==> r.session == k
    ensures SweptSoFar(s, here.(runs := SweptRuns(here, {k}, cutoff),
                                runIdx := here.runIdx[k := SweptIndex(here, k, cutoff)]), swept + {k}, cutoff)
  {
    SweepNextIndex(s, here, k, swept, cutoff);
  }

  lemma AllRunsSwept(s: State, cutoff: int)
    ensures SweptRuns(s, s.runIdx.Keys, cutoff) == R.SweepRuns(s, cutoff).runs
  {
  }

  lemma AllIndexesSwept(s: State, idx: map<SessionKey, SortedSet<RunKey>>, cutoff: int)
    requires idx.Keys == s.runIdx.Keys && forall k :: k in idx ==> idx[k] == SweptIndex(s, k, cutoff)
    ensures idx == R.SweepRuns(s, cutoff).runIdx
  {
  }

  lemma EverythingSwept(s: State, here: State, cutoff: int)
    requires SweptSoFar(s, here, s.runIdx.Keys, cutoff)
    ensures here == R.SweepRuns(s, cutoff)
  {
    AllRunsSwept(s, cutoff);
    AllIndexesSwept(s, here.runIdx, cutoff);
  }

  ghost predicate PerSession(idx: map<SessionKey, SortedSet<RunKey>>) {
    forall k :: k in idx ==> forall r :: r in idx[k] ==> r.session == k
  }

  /** The SCAN loop over every index. */
  method SweepAll(s: State, cutoff: int) returns (here: State)
    requires Indexed(s)
    ensures here == R.SweepRuns(s, cutoff)
  {
    IndexedIsPerSession(s);
    here := s;
    var scan := s.runIdx.Keys;
    ghost var swept: set<SessionKey> := {};
    NothingSwept(s, cutoff);
    while scan != {}
      invariant scan !! swept && scan + swept == s.runIdx.Keys
      invariant SweptSoFar(s, here, swept, cutoff)
      decreases |scan|
    {
      var k :| k in scan;
      NextSwept(s, here, swept, k, cutoff);
      var runs', index := SweepIndex(here, k, cutoff);
      here := here.(runs := runs', runIdx := here.runIdx[k := index]);
      scan, swept := scan - {k}, swept + {k};
    }
    EverythingSwept(s, here, cutoff);
  }
}
