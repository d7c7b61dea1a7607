/**
 Run and idempotency storage on Redis: plain keys plus one sorted-set index per session, changed only by
 atomic scripts, and by keys running out of time. Keys are grouped by kind; a key's name is its identity.
 The run map of this state has the type of the in-process backend's, which the scripts refine.
 */
module RedisState {
  import opened Sessions
  import Mem = MemoryState
  type SessionKey = Mem.SessionKey
  type RunKey = Mem.RunKey
  type IdemKey = Mem.IdemKey
  type Run = Mem.Run

  datatype Owner = Owner(agent: string, principal: string)

  type SortedSet<T> = map<T, int>

  datatype State = State(
    settings: Mem.Settings,
    maxSessions: int,
    sessions: map<SessionKey, Session>,
    runs: map<RunKey, Run>,
    idem: map<IdemKey, Mem.Idem>,
    sessionIdx: map<Owner, SortedSet<SessionKey>>,
    runIdx: map<SessionKey, SortedSet<RunKey>>,
    idemIdx: map<SessionKey, SortedSet<IdemKey>>)

  datatype Reply = Ok | OkAt(revision: int) | Zero | Busy | MissingSession | FullSessions | FullRuns | FullIdem

  function Init(settings: Mem.Settings, maxSessions: int): State {
    State(settings, maxSessions, map[], map[], map[], map[], map[], map[])
  }

  function Members<K, T>(idx: map<K, SortedSet<T>>, k: K): SortedSet<T> {
    if k in idx then idx[k] else map[]
  }

  function OwnerOf(k: SessionKey): Owner { Owner(k.agent, k.principal) }

  // ---- counting through the index ----

  function IndexedRuns(s: State, k: SessionKey): set<RunKey> {
    set r | r in Members(s.runIdx, k) && r in s.runs
  }

  function IndexedIdem(s: State, k: SessionKey): set<IdemKey> {
    set i | i in Members(s.idemIdx, k) && i in s.idem
  }

  function Kept<T>(members: SortedSet<T>, keys: set<T>): SortedSet<T> {
    map x | x in members && x in keys :: members[x]
  }

  /** `session_runs`: drop index members whose key is gone. */
  function PruneRuns(s: State, k: SessionKey): State {
    s.(runIdx := s.runIdx[k := Kept(Members(s.runIdx, k), s.runs.Keys)])
  }

  function PruneIdem(s: State, k: SessionKey): State {
    s.(idemIdx := s.idemIdx[k := Kept(Members(s.idemIdx, k), s.idem.Keys)])
  }

  function DropRun(s: State, r: RunKey): State {
    s.(runs := s.runs - {r}, runIdx := s.runIdx[r.session := Members(s.runIdx, r.session) - {r}])
  }

  function EvictLoop(s: State, k: SessionKey, order: seq<RunKey>): State
    decreases |order|
  {
    if |IndexedRuns(s, k)| >= s.settings.maxRuns && order != []
    then EvictLoop(PruneRuns(DropRun(s, order[0]), k), k, order[1..]) else s
  }

  // ---- scripts ----

  function MakeRoom(s: State, k: SessionKey, order: seq<RunKey>): State {
    EvictLoop(PruneRuns(s, k), k, order)
  }

  /** The common tail of ADMIT_RUN and CREATE_RUN. */
  function AddRun(s: State, r: RunKey, run: Run, score: int, order: seq<RunKey>): (State, Reply) {
    var s1 := MakeRoom(s, r.session, order);
    if |IndexedRuns(s1, r.session)| >= s.settings.maxRuns then (s1, FullRuns)
    else (s1.(runs := s1.runs[r := run],
              runIdx := s1.runIdx[r.session := Members(s1.runIdx, r.session)[r := score]]), Ok)
  }

  function CreateRun(s: State, r: RunKey, run: Run, now: int, order: seq<RunKey>): (State, Reply) {
    if r.session !in s.sessions then (s, MissingSession)
    else if r in s.runs then (s, Ok)
    else AddRun(s, r, run, now, order)
  }

  /** What ZREMRANGEBYSCORE up to the cutoff leaves. */
  function Recent<T>(members: SortedSet<T>, cutoff: int): SortedSet<T> {
    map x | x in members && members[x] > cutoff :: members[x]
  }

  /** ADMIT_RUN's first half: find the session or make it, unless its owner has too many. */
  function EnsureSession(s: State, k: SessionKey, now: int): (State, Reply) {
    if k in s.sessions then (s, OkAt(s.sessions[k].revision))
    else
      var listed := Members(s.sessionIdx, OwnerOf(k));
      var kept := Recent(listed, now - s.settings.sessionTtl);
      if |kept| >= s.maxSessions then (s.(sessionIdx := s.sessionIdx[OwnerOf(k) := kept]), FullSessions)
      else (s.(sessionIdx := s.sessionIdx[OwnerOf(k) := kept[k := now]],
               sessions := s.sessions[k := NewSession([], now)]), OkAt(1))
  }

  function AdmitRun(s: State, r: RunKey, run: Run, now: int, order: seq<RunKey>): (State, Reply) {
    var (s1, found) := EnsureSession(s, r.session, now);
    if !found.OkAt? then (s1, found)
    else if r in s1.runs then (s1, found)
    else
      var (s2, added) := AddRun(s1, r, run, now, order);
      (s2, if added.Ok? then found else added)
  }

  function DeleteSession(s: State, k: SessionKey): (State, Reply) {
    if k !in s.sessions then (s, Zero)
    else if exists r :: r in IndexedRuns(s, k) && !s.runs[r].Terminal() then (s, Busy)
    else (s.(sessions := s.sessions - {k},
             runs := s.runs - Members(s.runIdx, k).Keys,
             idem := s.idem - Members(s.idemIdx, k).Keys,
             runIdx := s.runIdx - {k},
             idemIdx := s.idemIdx - {k},
             sessionIdx := s.sessionIdx[OwnerOf(k) := Members(s.sessionIdx, OwnerOf(k)) - {k}]), Ok)
  }

  function CreateIdem(s: State, i: IdemKey, ttl: int, now: int): (State, Reply) {
    if i in s.idem then (s, Ok)
    else
      var s1 := PruneIdem(s, i.session);
      if |IndexedIdem(s1, i.session)| >= s.settings.maxIdem then (s1, FullIdem)
      else (s1.(idem := s1.idem[i := Mem.Idem(now + ttl)],
                idemIdx := s1.idemIdx[i.session := Members(s1.idemIdx, i.session)[i := now + ttl]]), Ok)
  }

  function ExpireIdem(s: State, i: IdemKey): (State, Reply) {
    if i !in s.idem then (s, Zero)
    else (s.(idem := s.idem - {i},
             idemIdx := s.idemIdx[i.session := Members(s.idemIdx, i.session) - {i}]), Ok)
  }

  predicate Due(s: State, r: RunKey, cutoff: int) {
    r in Members(s.runIdx, r.session) && s.runIdx[r.session][r] <= cutoff
  }

  predicate SweptAway(s: State, r: RunKey, cutoff: int) {
    r in s.runs && Due(s, r, cutoff) && s.runs[r].Terminal() && s.runs[r].updatedAt <= cutoff
  }

  predicate Interrupted(s: State, r: RunKey, cutoff: int) {
    r in s.runs && Due(s, r, cutoff) && !s.runs[r].Terminal()
  }

  function Fail(run: Run): Run { run.(status := Mem.Failed, outcome := Mem.INTERRUPTED) }

  /** SWEEP_RUNS selects by index score, not by the record's own age. */
  function SweepRuns(s: State, cutoff: int): State {
    s.(runs := map r | r in s.runs && !SweptAway(s, r, cutoff) ::
         if Interrupted(s, r, cutoff) then Fail(s.runs[r]) else s.runs[r],
       runIdx := map k | k in s.runIdx :: SweptIndex(s, k, cutoff))
  }

  function SweptIndex(s: State, k: SessionKey, cutoff: int): SortedSet<RunKey> {
    map r | r in Members(s.runIdx, k) && (s.runIdx[k][r] > cutoff || (r in s.runs && !SweptAway(s, r, cutoff))) ::
      if Interrupted(s, r, cutoff) && s.runs[r].updatedAt > 0 then s.runs[r].updatedAt else s.runIdx[k][r]
  }

  // ---- updates from the client (a GET and a SET, taken as one step) and expiry ----

  function UpdateRun(s: State, r: RunKey, run: Run): State {
    if r in s.runs then SetRun(s, r, run) else s
  }

  function SetRun(s: State, r: RunKey, run: Run): State {
    s.(runs := s.runs[r := run])
  }

  datatype Op =
    | OpCreateSession(k: SessionKey)
    | OpAdmitRun(r: RunKey, run: Run, order: seq<RunKey>)
    | OpCreateRun(r: RunKey, run: Run, order: seq<RunKey>)
    | OpDeleteSession(k: SessionKey)
    | OpCreateIdem(i: IdemKey, ttl: int)
    | OpExpireIdem(i: IdemKey)
    | OpSweepRuns
    | OpUpdateRun(r: RunKey, run: Run)
    | OpSessionTimesOut(k: SessionKey)
    | OpIdemTimesOut(i: IdemKey)

  datatype Timed = Timed(op: Op, now: int)

  ghost predicate FaithfulOrder(s: State, op: Op) {
    op.OpCreateRun? || op.OpAdmitRun? ==> Mem.OldestFirst(s.runs, op.r.session, op.order)
  }

  function Step(s: State, op: Op, now: int): State {
    match op
    case OpCreateSession(k) => EnsureSession(s, k, now).0
    case OpAdmitRun(r, run, order) => AdmitRun(s, r, run, now, order).0
    case OpCreateRun(r, run, order) => CreateRun(s, r, run, now, order).0
    case OpDeleteSession(k) => DeleteSession(s, k).0
    case OpCreateIdem(i, ttl) => CreateIdem(s, i, ttl, now).0
    case OpExpireIdem(i) => ExpireIdem(s, i).0
    case OpSweepRuns => SweepRuns(s, now - s.settings.runTtl)
    case OpUpdateRun(r, run) => UpdateRun(s, r, run)
    case OpSessionTimesOut(k) => s.(sessions := s.sessions - {k})
    case OpIdemTimesOut(i) => s.(idem := s.idem - {i})
  }

  function Exec(s: State, history: seq<Timed>): State {
    if history == [] then s
    else
      var last := |history| - 1;
      Step(Exec(s, history[..last]), history[last].op, history[last].now)
  }

  ghost predicate Faithful(s: State, history: seq<Timed>) {
    history != [] ==>
      var last := |history| - 1;
      Faithful(s, history[..last]) && FaithfulOrder(Exec(s, history[..last]), history[last].op)
  }
}
