/**
 What the scripts do to single records and to their index entries: idempotency keys as in process, sessions that are
 listed with their owner, and runs as the sweep finds them.
 */
module RedisRecords {
  import Mem = MemoryState
  import opened RedisProperties
  import opened RedisState

  /** The in-process state with the same idempotency records. */
  function IdemAsMemory(s: State): Mem.State {
    Mem.State(s.settings, map[], map[], s.idem, map[], map[])
  }

  /** CREATE_IDEM and EXPIRE_IDEM do to the records what the in-process backend does, and answer alike. */
  lemma IdemRefinesMemory(s: State, i: IdemKey, ttl: int, now: int)
    requires Indexed(s)
    ensures var (s', reply) := CreateIdem(s, i, ttl, now);
      && Indexed(s') && (reply == Ok || reply == FullIdem)
      && (IdemAsMemory(s'), if reply == Ok then Mem.Ok else Mem.Refused(Mem.Capacity)) ==
         Mem.CreateIdem(IdemAsMemory(s), i, ttl, now)
    ensures var (s', reply) := ExpireIdem(s, i);
      && Indexed(s') && (reply == Ok || reply == Zero)
      && (IdemAsMemory(s'), if reply == Ok then Mem.Ok else Mem.Absent) == Mem.ExpireIdem(IdemAsMemory(s), i)
  {
    CreationRefines(s, i, ttl, now);
    ExpiryRefines(s, i);
  }

  lemma CreationRefines(s: State, i: IdemKey, ttl: int, now: int)
    requires Indexed(s)
    ensures var (s', reply) := CreateIdem(s, i, ttl, now);
      && Indexed(s') && (reply == Ok || reply == FullIdem)
      && (IdemAsMemory(s'), if reply == Ok then Mem.Ok else Mem.Refused(Mem.Capacity)) ==
         Mem.CreateIdem(IdemAsMemory(s), i, ttl, now)
  {
    CreationKeepsIndexed(s, i, ttl, now);
    CountedAlike(s, i.session);
  }

  lemma CreationKeepsIndexed(s: State, i: IdemKey, ttl: int, now: int)
    requires Indexed(s)
    ensures Indexed(CreateIdem(s, i, ttl, now).0)
  {
    CreateIdemIsStoreAfterPrune(s, i, ttl, now);
    StaysIndexed(s, CreateIdem(s, i, ttl, now).0, i, now + ttl);
  }

  lemma StaysIndexed(s: State, s': State, i: IdemKey, expiry: int)
    requires Indexed(s)
    requires s' == s || s' == PruneIdem(s, i.session) || s' == StoreIdem(PruneIdem(s, i.session), i, expiry)
    ensures Indexed(s')
  {
    PruneIdemKeepsIndexed(s, i.session);
    PutIdemKeepsIndexed(PruneIdem(s, i.session), i, Mem.Idem(expiry), expiry);
  }

  lemma CountedAlike(s: State, k: SessionKey)
    requires Indexed(s)
    ensures IndexedIdem(PruneIdem(s, k), k) == Mem.IdemOf(s.idem, k)
  {
    PruneIdemKeepsIndexed(s, k);
    IndexCountIsTrueCount(PruneIdem(s, k), k);
  }

  lemma ExpiryRefines(s: State, i: IdemKey)
    requires Indexed(s)
    ensures var (s', reply) := ExpireIdem(s, i);
      && Indexed(s') && (reply == Ok || reply == Zero)
      && (IdemAsMemory(s'), if reply == Ok then Mem.Ok else Mem.Absent) == Mem.ExpireIdem(IdemAsMemory(s), i)
  {
  }

  /** The owner's entries that are no older than the time to live. */
  function RecentOf(s: State, o: Owner, now: int): set<SessionKey> {
    set k | k in Members(s.sessionIdx, o) && Members(s.sessionIdx, o)[k] > now - s.settings.sessionTtl
  }

  lemma RecentCount(s: State, o: Owner, now: int)
    ensures |Recent(Members(s.sessionIdx, o), now - s.settings.sessionTtl)| == |RecentOf(s, o, now)|
  {
    var kept := Recent(Members(s.sessionIdx, o), now - s.settings.sessionTtl);
    assert kept.Keys == RecentOf(s, o, now);
    assert |kept| == |kept.Keys|;
  }

  /** A session is refused exactly if it is not there and its owner has as many recent entries as the cap allows; a
      refusal makes nothing, and one that is there is found as it is. */
  lemma SessionRefusedExactly(s: State, k: SessionKey, now: int)
    ensures var (s', reply) := EnsureSession(s, k, now);
      && (reply == FullSessions <==> k !in s.sessions && |RecentOf(s, OwnerOf(k), now)| >= s.maxSessions)
      && (reply != FullSessions ==> k in s'.sessions && reply == OkAt(s'.sessions[k].revision))
      && (reply == FullSessions ==> s'.sessions == s.sessions)
      && (k in s.sessions ==> s' == s)
  {
    RecentCount(s, OwnerOf(k), now);
  }

  /** Otherwise it is made new, and listed with its owner at the time it was made. */
  lemma SessionMadeExactly(s: State, k: SessionKey, now: int)
    requires k !in s.sessions && EnsureSession(s, k, now).1 != FullSessions
    ensures var s' := EnsureSession(s, k, now).0;
      && s'.sessions.Keys == s.sessions.Keys + {k}
      && (forall other :: other in s.sessions ==> s'.sessions[other] == s.sessions[other])
      && s'.sessions[k].revision == 1 && s'.sessions[k].events == [] && s'.sessions[k].usage == map[]
      && !s'.sessions[k].truncated && s'.sessions[k].updatedAt == now
      && k in Members(s'.sessionIdx, OwnerOf(k)) && Members(s'.sessionIdx, OwnerOf(k))[k] == now
  {
  }

  /** A new run is listed with its session at the time it was made. */
  lemma NewRunIsListed(s: State, r: RunKey, run: Run, score: int, order: seq<RunKey>)
    ensures var (s', reply) := AddRun(s, r, run, score, order);
      reply == Ok ==>
        && r in s'.runs && s'.runs[r] == run
        && r.session in s'.runIdx && r in s'.runIdx[r.session] && s'.runIdx[r.session][r] == score
  {
  }

  /** Adding a run leaves the session's index with exactly the runs that there are, whatever it listed before. */
  lemma AddedIndexIsExact(s: State, r: RunKey, run: Run, score: int, order: seq<RunKey>)
    requires Indexed(s) && Mem.OldestFirst(s.runs, r.session, order)
    ensures var s' := AddRun(s, r, run, score, order).0;
      Members(s'.runIdx, r.session).Keys == Mem.RunsOf(s'.runs, r.session)
  {
    var pruned := PruneRuns(s, r.session);
    PruneRunsKeepsIndexed(s, r.session);
    EvictionKeepsIndexExact(pruned, r.session, order);
    AddRunRefines(s, r, run, score, order);
  }

  lemma {:induction false} EvictionKeepsIndexExact(s: State, k: SessionKey, order: seq<RunKey>)
    requires Indexed(s) && Mem.OldestFirst(s.runs, k, order)
    requires Members(s.runIdx, k).Keys == Mem.RunsOf(s.runs, k)
    ensures Members(EvictLoop(s, k, order).runIdx, k).Keys == Mem.RunsOf(EvictLoop(s, k, order).runs, k)
    decreases |order|
  {
    if |IndexedRuns(s, k)| >= s.settings.maxRuns && order != [] {
      EvictLoopStep(s, k, order);
      var s1 := PruneRuns(DropRun(s, order[0]), k);
      IndexCountIsTrueCount(s1, k);
      EvictionKeepsIndexExact(s1, k, order[1..]);
    }
  }

  /** The session's index of records lists exactly those that there are. */
  ghost predicate IdemListedExactly(s: State, k: SessionKey) {
    Members(s.idemIdx, k).Keys == Mem.IdemOf(s.idem, k)
  }

  /** Creating a record drops the index entries whose key is gone. */
  lemma CreatedIndexIsExact(s: State, i: IdemKey, ttl: int, now: int)
    requires Indexed(s) && i !in s.idem
    ensures var s' := CreateIdem(s, i, ttl, now).0;
      && IdemListedExactly(s', i.session)
      && (i in s'.idem ==> ListedAt(s', i, now + ttl))
  {
    PrunedIndexIsExact(s, i.session);
    CreateIdemIsStoreAfterPrune(s, i, ttl, now);
    PrunedOrStored(PruneIdem(s, i.session), CreateIdem(s, i, ttl, now).0, i, now + ttl);
  }

  lemma PrunedOrStored(s: State, s': State, i: IdemKey, expiry: int)
    requires IdemListedExactly(s, i.session) && i !in s.idem && (s' == s || s' == StoreIdem(s, i, expiry))
    ensures IdemListedExactly(s', i.session) && (i in s'.idem ==> ListedAt(s', i, expiry))
  {
    StoredIndexIsExact(s, i, expiry);
  }

  ghost predicate ListedAt(s: State, i: IdemKey, expiry: int) {
    && i in s.idem && s.idem[i].expiresAt == expiry
    && i in Members(s.idemIdx, i.session) && Members(s.idemIdx, i.session)[i] == expiry
  }

  lemma PrunedIndexIsExact(s: State, k: SessionKey)
    requires Indexed(s)
    ensures IdemListedExactly(PruneIdem(s, k), k) && PruneIdem(s, k).idem == s.idem
  {
  }

  lemma StoredIndexIsExact(s: State, i: IdemKey, expiry: int)
    requires IdemListedExactly(s, i.session)
    ensures IdemListedExactly(StoreIdem(s, i, expiry), i.session) && ListedAt(StoreIdem(s, i, expiry), i, expiry)
  {
  }

  /** A deletion takes the session out of its owner's list and its own lists away, and leaves every other entry. */
  lemma DeletionUnlists(s: State, k: SessionKey)
    requires DeleteSession(s, k).1 == Ok
    ensures var s' := DeleteSession(s, k).0;
      && k !in s'.runIdx && k !in s'.idemIdx && k !in Members(s'.sessionIdx, OwnerOf(k))
      && (forall o, x :: (o, x) != (OwnerOf(k), k) ==>
            && (x in Members(s'.sessionIdx, o) <==> x in Members(s.sessionIdx, o))
            && (x in Members(s.sessionIdx, o) ==> Members(s'.sessionIdx, o)[x] == Members(s.sessionIdx, o)[x]))
      && (forall other :: other != k ==>
            && Members(s'.runIdx, other) == Members(s.runIdx, other)
            && Members(s'.idemIdx, other) == Members(s.idemIdx, other))
  {
  }

  /** The sweep looks at the runs whose index score is due. Of those one that is over is dropped if it is old enough
      itself, whatever is not over is failed as interrupted, and no other run is touched. */
  lemma SweptExactly(s: State, r: RunKey, cutoff: int)
    ensures var s' := SweepRuns(s, cutoff);
      if r !in s.runs then r !in s'.runs
      else
        var run := s.runs[r];
        var due := r in Members(s.runIdx, r.session) && Members(s.runIdx, r.session)[r] <= cutoff;
        var over := run.status in {Mem.Succeeded, Mem.Failed, Mem.Cancelled};
        && (r !in s'.runs <==> due && over && run.updatedAt <= cutoff)
        && (r in s'.runs ==>
              s'.runs[r] ==
                if due && !over then Mem.Run(Mem.Failed, run.input, "run_interrupted", run.updatedAt) else run)
  {
  }

  /** Afterwards an entry that was due is gone with its run, moved to the age of the run that was failed, or as it was.
      */
  lemma SweptEntryExactly(s: State, k: SessionKey, r: RunKey, cutoff: int)
    requires k in s.runIdx && r in s.runIdx[k] && r.session == k
    ensures var s' := SweepRuns(s, cutoff);
      && k in s'.runIdx
      && (s.runIdx[k][r] > cutoff ==> r in s'.runIdx[k] && s'.runIdx[k][r] == s.runIdx[k][r])
      && (s.runIdx[k][r] <= cutoff ==>
            && (r in s'.runIdx[k] <==> r in s'.runs)
            && (r in s'.runs ==>
                  s'.runIdx[k][r] ==
                    if s.runs[r].status !in {Mem.Succeeded, Mem.Failed, Mem.Cancelled} && s.runs[r].updatedAt > 0
                    then s.runs[r].updatedAt else s.runIdx[k][r]))
  {
    SweptExactly(s, r, cutoff);
  }
}
