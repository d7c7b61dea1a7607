/**
 `mutate_session` on Postgres: a read, a conditional UPDATE, a bounded retry, run by any number of
 callers at once. A step is what one caller does between two awaits; steps of different calls
 interleave freely.
 */
module PostgresCas {
  import opened Basics
  import opened Sessions
  import Mem = MemoryState

  type CallId = nat

  /** The table row: the revision column that the UPDATE tests, and the JSON record. */
  datatype Row = Row(column: int, data: Session)

  datatype Phase =
    | Reading
    | Merged(record: Session)
    | Returned(record: Session)
    | Conflicted
    | Missing

  /** One call in flight: `attempt` counts the lost races, `expected` is the loop's reassigned variable. */
  datatype Call = Call(start: int, delta: Delta, now: int, attempt: nat, expected: int, phase: Phase)

  datatype Commit = Commit(call: CallId, base: int, delta: Delta, now: int)

  /** `origin` and `log` are history: the record as inserted and the UPDATEs that took effect. */
  datatype State = State(row: Option<Row>, calls: map<CallId, Call>, origin: Option<Session>, log: seq<Commit>)

  datatype Step =
    | Insert(session: Session)
    | Begin(id: CallId, expected: int, delta: Delta, now: int)
    | Read(id: CallId)
    | Update(id: CallId)

  const ATTEMPTS := 3

  const INIT := State(None, map[], None, [])

  function InsertRow(s: State, session: Session): State {
    if s.row.Some? then s else State(Some(Row(session.revision, session)), s.calls, Some(session), s.log)
  }

  function BeginCall(s: State, id: CallId, expected: int, delta: Delta, now: int): State {
    if id in s.calls then s else s.(calls := s.calls[id := Call(expected, delta, now, 0, expected, Reading)])
  }

  function ReadRow(s: State, id: CallId): State {
    if id !in s.calls || !s.calls[id].phase.Reading? then s
    else
      var c := s.calls[id];
      var phase :=
        if s.row.None? then Missing
        else if s.row.value.data.revision != c.expected then Conflicted
        else Merged(Apply(s.row.value.data, c.delta, c.now));
      s.(calls := s.calls[id := c.(phase := phase)])
  }

  function UpdateRow(s: State, id: CallId): State {
    if id !in s.calls || !s.calls[id].phase.Merged? then s
    else
      var c := s.calls[id];
      var merged := c.phase.record;
      if s.row.Some? && s.row.value.column == c.expected then
        s.(row := Some(Row(s.row.value.column + 1, merged)),
           calls := s.calls[id := c.(phase := Returned(merged))],
           log := s.log + [Commit(id, c.expected, c.delta, c.now)])
      else
        var phase := if c.attempt + 1 == ATTEMPTS then Conflicted else Reading;
        s.(calls := s.calls[id := c.(attempt := c.attempt + 1, expected := merged.revision, phase := phase)])
  }

  function Next(s: State, step: Step): State {
    match step
    case Insert(session) => InsertRow(s, session)
    case Begin(id, expected, delta, now) => BeginCall(s, id, expected, delta, now)
    case Read(id) => ReadRow(s, id)
    case Update(id) => UpdateRow(s, id)
  }

  function Exec(s: State, steps: seq<Step>): State
    decreases |steps|
  {
    if steps == [] then s else Exec(Next(s, steps[0]), steps[1..])
  }

  // ---- the sequential meaning of a log ----

  function Replay(origin: Session, log: seq<Commit>): Session {
    if log == [] then origin
    else
      var last := |log| - 1;
      Apply(Replay(origin, log[..last]), log[last].delta, log[last].now)
  }

  function AllEvents(log: seq<Commit>): seq<Event> {
    if log == [] then [] else AllEvents(log[..|log| - 1]) + log[|log| - 1].delta.events
  }

  function TotalUsage(log: seq<Commit>, key: string): int {
    if log == [] then 0 else TotalUsage(log[..|log| - 1], key) + Counter(log[|log| - 1].delta.usage, key)
  }

  /** The flag that was given last, and the time of the last commit. */
  function LastFlag(log: seq<Commit>, before: bool): bool {
    if log == [] then before
    else
      var given := log[|log| - 1].delta.truncated;
      if given.Some? then given.value else LastFlag(log[..|log| - 1], before)
  }

  function LastTime(log: seq<Commit>, before: int): int {
    if log == [] then before else log[|log| - 1].now
  }

  /** A replayed log appends every delta once, adds every usage once and counts every commit once; the last flag given
      and the last time count. */
  lemma {:induction false} ReplayTotals(origin: Session, log: seq<Commit>, key: string)
    ensures Replay(origin, log).revision == origin.revision + |log|
    ensures Replay(origin, log).events == origin.events + AllEvents(log)
    ensures Counter(Replay(origin, log).usage, key) == Counter(origin.usage, key) + TotalUsage(log, key)
    ensures Replay(origin, log).truncated == LastFlag(log, origin.truncated)
    ensures Replay(origin, log).updatedAt == LastTime(log, origin.updatedAt)
    decreases |log|
  {
    if log != [] {
      ReplayTotals(origin, log[..|log| - 1], key);
    }
  }

  lemma ReplayRevision(origin: Session, log: seq<Commit>)
    ensures Replay(origin, log).revision == origin.revision + |log|
  {
    ReplayTotals(origin, log, "");
  }

  // ---- the invariant ----

  ghost predicate CommittedAt(s: State, id: CallId, i: int) {
    0 <= i < |s.log| && s.log[i].call == id
  }

  ghost predicate CallOk(s: State, id: CallId)
    requires id in s.calls
  {
    var c := s.calls[id];
    && c.expected == c.start + c.attempt
    && c.attempt <= ATTEMPTS
    && (c.phase.Reading? || c.phase.Merged? || c.phase.Returned? ==> c.attempt < ATTEMPTS)
    && (c.phase.Merged? ==>
          && s.origin.Some?
          && 0 <= c.expected - s.origin.value.revision <= |s.log|
          && c.phase.record ==
             Apply(Replay(s.origin.value, s.log[..c.expected - s.origin.value.revision]), c.delta, c.now))
    && (!c.phase.Returned? ==> forall i :: !CommittedAt(s, id, i))
    && (c.phase.Returned? ==>
          && s.origin.Some?
          && exists i :: CommittedAt(s, id, i) && CommitOk(s, c, i))
  }

  /** Commit `i` is the one commit of the call `c`, and `c` returned the record as of that commit. */
  ghost predicate CommitOk(s: State, c: Call, i: int)
    requires 0 <= i < |s.log| && s.origin.Some?
  {
    && s.log[i].base == c.expected == s.origin.value.revision + i
    && s.log[i].delta == c.delta && s.log[i].now == c.now
    && c.phase == Returned(Replay(s.origin.value, s.log[..i + 1]))
    && forall j :: CommittedAt(s, s.log[i].call, j) ==> j == i
  }

  ghost predicate Invariant(s: State) {
    && (s.row.Some? <==> s.origin.Some?)
    && (s.row.None? ==> s.log == [])
    && (s.row.Some? ==>
          && s.row.value.data == Replay(s.origin.value, s.log)
          && s.row.value.column == s.row.value.data.revision)
    && (forall i :: 0 <= i < |s.log| ==> s.log[i].call in s.calls)
    && (forall id :: id in s.calls ==> CallOk(s, id))
  }

  lemma InsertKeepsInvariant(s: State, session: Session)
    requires Invariant(s)
    ensures Invariant(InsertRow(s, session))
  {
    var s' := InsertRow(s, session);
    forall id | id in s'.calls ensures CallOk(s', id) {
      assert CallOk(s, id);
      assert forall i :: CommittedAt(s', id, i) == CommittedAt(s, id, i);
    }
  }

  lemma CallStaysOk(s: State, s': State, id: CallId)
    requires id in s.calls && id in s'.calls && s'.calls[id] == s.calls[id] && CallOk(s, id)
    requires s'.origin == s.origin && s.log <= s'.log
    requires forall i :: |s.log| <= i < |s'.log| ==> s'.log[i].call != id
    ensures CallOk(s', id)
  {
    assert forall i :: CommittedAt(s', id, i) == CommittedAt(s, id, i);
    assert forall n :: 0 <= n <= |s.log| ==> s'.log[..n] == s.log[..n];
    if s.calls[id].phase.Returned? {
      var i :| CommittedAt(s, id, i) && CommitOk(s, s.calls[id], i);
      assert CommittedAt(s', id, i) && CommitOk(s', s'.calls[id], i);
    }
  }

  lemma ReadKeepsInvariant(s: State, id: CallId)
    requires Invariant(s)
    ensures Invariant(ReadRow(s, id))
  {
    var s' := ReadRow(s, id);
    forall other | other in s'.calls ensures CallOk(s', other) {
      assert CallOk(s, other);
      if other != id {
        CallStaysOk(s, s', other);
      } else {
        assert forall i :: CommittedAt(s', id, i) == CommittedAt(s, id, i);
        if s'.calls[id].phase.Merged? {
          ReplayRevision(s.origin.value, s.log);
          assert s.log[..|s.log|] == s.log;
        }
      }
    }
  }

  ghost predicate Racing(s: State, id: CallId) {
    id in s.calls && s.calls[id].phase.Merged?
  }

  /** The row is at or past the revision that a merged call expects; it is there exactly if nobody committed since. */
  lemma RaceIsDecidedByTheLog(s: State, id: CallId)
    requires Invariant(s) && Racing(s, id)
    ensures s.row.Some? && s.row.value.column == s.origin.value.revision + |s.log|
    ensures s.calls[id].expected <= s.row.value.column
    ensures s.calls[id].expected == s.row.value.column ==>
      s.calls[id].phase.record == Apply(s.row.value.data, s.calls[id].delta, s.calls[id].now)
    ensures s.calls[id].phase.record.revision == s.calls[id].expected + 1
  {
    assert CallOk(s, id);
    var c := s.calls[id];
    var n := c.expected - s.origin.value.revision;
    ReplayRevision(s.origin.value, s.log);
    ReplayRevision(s.origin.value, s.log[..n]);
    assert c.phase.record == Apply(Replay(s.origin.value, s.log[..n]), c.delta, c.now);
    assert n == |s.log| ==> s.log[..n] == s.log;
  }

  lemma WinnerIsOk(s: State, id: CallId)
    requires Invariant(s) && Racing(s, id) && s.row.value.column == s.calls[id].expected
    ensures CallOk(UpdateRow(s, id), id)
    ensures UpdateRow(s, id).log[..|s.log|] == s.log
  {
    RaceIsDecidedByTheLog(s, id);
    var s' := UpdateRow(s, id);
    var n := |s.log|;
    assert s'.log[..n] == s.log && s'.log[..n + 1] == s'.log;
    assert CallOk(s, id);
    assert forall j :: CommittedAt(s', id, j) ==> j == n || CommittedAt(s, id, j);
    assert CommittedAt(s', id, n) && CommitOk(s', s'.calls[id], n);
  }

  lemma WonRaceKeepsInvariant(s: State, id: CallId)
    requires Invariant(s) && Racing(s, id) && s.row.value.column == s.calls[id].expected
    ensures Invariant(UpdateRow(s, id))
  {
    WinnerIsOk(s, id);
    WinnerTakesTheRow(s, id);
    OthersStayOk(s, id);
  }

  lemma WinnerTakesTheRow(s: State, id: CallId)
    requires Invariant(s) && Racing(s, id) && s.row.value.column == s.calls[id].expected
    ensures var s' := UpdateRow(s, id);
      && s'.row.Some? && s'.origin.Some? && s'.row.value.data == Replay(s'.origin.value, s'.log)
      && s'.row.value.column == s'.row.value.data.revision
      && forall i :: 0 <= i < |s'.log| ==> s'.log[i].call in s'.calls
  {
    RaceIsDecidedByTheLog(s, id);
    assert UpdateRow(s, id).log[..|s.log|] == s.log;
  }

  /** An UPDATE leaves the other calls as they were, whether it won or lost. */
  lemma OthersStayOk(s: State, id: CallId)
    requires Invariant(s) && Racing(s, id)
    ensures var s' := UpdateRow(s, id); forall other :: other in s'.calls && other != id ==> CallOk(s', other)
  {
    var s' := UpdateRow(s, id);
    forall other | other in s'.calls && other != id ensures CallOk(s', other) {
      CallStaysOk(s, s', other);
    }
  }

  lemma LostRaceKeepsInvariant(s: State, id: CallId)
    requires Invariant(s) && Racing(s, id) && s.row.value.column != s.calls[id].expected
    ensures Invariant(UpdateRow(s, id))
  {
    RaceIsDecidedByTheLog(s, id);
    var s' := UpdateRow(s, id);
    assert CallOk(s, id) && CallOk(s', id) by {
      assert forall i :: CommittedAt(s', id, i) == CommittedAt(s, id, i);
    }
    OthersStayOk(s, id);
  }

  lemma NextKeepsInvariant(s: State, step: Step)
    requires Invariant(s)
    ensures Invariant(Next(s, step))
  {
    match step
    case Insert(session) => InsertKeepsInvariant(s, session);
    case Begin(id, expected, delta, now) =>
      var s' := BeginCall(s, id, expected, delta, now);
      forall other | other in s'.calls ensures CallOk(s', other) {
        if other in s.calls {
          CallStaysOk(s, s', other);
        } else {
          assert forall i :: !CommittedAt(s', other, i);
        }
      }
    case Read(id) => ReadKeepsInvariant(s, id);
    case Update(id) =>
      if Racing(s, id) {
        RaceIsDecidedByTheLog(s, id);
        if s.row.value.column == s.calls[id].expected {
          WonRaceKeepsInvariant(s, id);
        } else {
          LostRaceKeepsInvariant(s, id);
        }
      }
  }

  lemma {:induction false} ExecKeepsInvariant(s: State, steps: seq<Step>)
    requires Invariant(s)
    ensures Invariant(Exec(s, steps))
    decreases |steps|
  {
    if steps != [] {
      NextKeepsInvariant(s, steps[0]);
      ExecKeepsInvariant(Next(s, steps[0]), steps[1..]);
    }
  }

  // ---- what callers and readers may rely on, after every interleaving ----

  /** No delta is lost or doubled: the stored record is the inserted one plus every committed delta, in commit order. */
  lemma StoredRecordIsTheLog(steps: seq<Step>, key: string)
    requires Exec(INIT, steps).row.Some?
    ensures var s := Exec(INIT, steps);
      && s.origin.Some?
      && s.row.value.data.events == s.origin.value.events + AllEvents(s.log)
      && Counter(s.row.value.data.usage, key) == Counter(s.origin.value.usage, key) + TotalUsage(s.log, key)
      && s.row.value.data.revision == s.row.value.column == s.origin.value.revision + |s.log|
      && s.row.value.data.truncated == LastFlag(s.log, s.origin.value.truncated)
      && s.row.value.data.updatedAt == LastTime(s.log, s.origin.value.updatedAt)
  {
    ExecKeepsInvariant(INIT, steps);
    var s := Exec(INIT, steps);
    ReplayTotals(s.origin.value, s.log, key);
  }

  /**
   A call that returned is in the log exactly once, on base start, start + 1 or start + 2, and it returned
   the record that a one-at-a-time execution of the log has after that commit.
   */
  lemma ReturnedCallsAreLinearized(steps: seq<Step>, id: CallId) returns (i: nat)
    requires var s := Exec(INIT, steps); id in s.calls && s.calls[id].phase.Returned?
    ensures var s := Exec(INIT, steps);
      && s.origin.Some? && i < |s.log| && s.log[i].call == id
      && (forall j :: 0 <= j < |s.log| && s.log[j].call == id ==> j == i)
      && s.log[i].base == s.origin.value.revision + i
      && s.calls[id].start <= s.log[i].base <= s.calls[id].start + 2
      && s.log[i].delta == s.calls[id].delta
      && s.calls[id].phase.record == Replay(s.origin.value, s.log[..i + 1])
  {
    ExecKeepsInvariant(INIT, steps);
    var s := Exec(INIT, steps);
    assert CallOk(s, id);
    i :| CommittedAt(s, id, i) && CommitOk(s, s.calls[id], i);
    assert forall j :: 0 <= j < |s.log| && s.log[j].call == id ==> CommittedAt(s, id, j);
  }

  /** A call that ended in a conflict, found no row, or has not ended, has no effect in the log. */
  lemma OtherCallsHaveNoEffect(steps: seq<Step>, id: CallId)
    requires var s := Exec(INIT, steps); id in s.calls && !s.calls[id].phase.Returned?
    ensures forall i :: 0 <= i < |Exec(INIT, steps).log| ==> Exec(INIT, steps).log[i].call != id
  {
    ExecKeepsInvariant(INIT, steps);
    var s := Exec(INIT, steps);
    assert CallOk(s, id);
    forall i | 0 <= i < |s.log| ensures s.log[i].call != id {
      assert !CommittedAt(s, id, i);
    }
  }

  /** A lost race means that another call made progress: it committed on the very base this one read. */
  lemma LostRaceMeansOtherCommit(steps: seq<Step>, id: CallId)
    requires id in Exec(INIT, steps).calls && Exec(INIT, steps).calls[id].phase.Merged?
    requires !UpdateRow(Exec(INIT, steps), id).calls[id].phase.Returned?
    ensures var s := Exec(INIT, steps);
      exists i :: 0 <= i < |s.log| && s.log[i].base == s.calls[id].expected && s.log[i].call != id
  {
    ExecKeepsInvariant(INIT, steps);
    var s := Exec(INIT, steps);
    RaceIsDecidedByTheLog(s, id);
    assert CallOk(s, id);
    var i := s.calls[id].expected - s.origin.value.revision;
    var other := s.log[i].call;
    assert !CommittedAt(s, id, i);
    assert CommittedAt(s, other, i) && CallOk(s, other);
    var j :| CommittedAt(s, other, j) && CommitOk(s, s.calls[other], j);
    assert j == i;
  }

  /** The log played against the in-process backend, one call after the other, or nothing if one is refused. */
  function Play(m: Mem.State, k: Mem.SessionKey, log: seq<Commit>): Option<Mem.State> {
    if log == [] then Some(m)
    else
      var last := log[|log| - 1];
      match Play(m, k, log[..|log| - 1])
      case None => None
      case Some(before) =>
        var (after, reply) := Mem.MutateSession(before, k, last.base, last.delta, last.now);
        if reply.Ok? then Some(after) else None
  }

  /** Calls on consecutive revisions are all accepted, and touch nothing but the one session. */
  lemma {:induction false} PlayIsReplay(m: Mem.State, k: Mem.SessionKey, log: seq<Commit>)
    requires k in m.sessions
    requires forall i :: 0 <= i < |log| ==> log[i].base == m.sessions[k].revision + i
    ensures Play(m, k, log) == Some(m.(sessions := m.sessions[k := Replay(m.sessions[k], log)]))
    decreases |log|
  {
    if log == [] {
      assert m.sessions[k := m.sessions[k]] == m.sessions;
    } else {
      var n := |log| - 1;
      PlayIsReplay(m, k, log[..n]);
      ReplayRevision(m.sessions[k], log[..n]);
      PlayOne(m, k, m.(sessions := m.sessions[k := Replay(m.sessions[k], log[..n])]), log[n]);
    }
  }

  lemma PlayOne(m: Mem.State, k: Mem.SessionKey, before: Mem.State, c: Commit)
    requires k in before.sessions && before == m.(sessions := m.sessions[k := before.sessions[k]])
    requires before.sessions[k].revision == c.base
    ensures Mem.MutateSession(before, k, c.base, c.delta, c.now) ==
      (m.(sessions := m.sessions[k := Apply(before.sessions[k], c.delta, c.now)]), Mem.Ok)
  {
    assert before.sessions[k := Apply(before.sessions[k], c.delta, c.now)] ==
      m.sessions[k := Apply(before.sessions[k], c.delta, c.now)];
  }

  lemma BasesAreConsecutive(s: State, i: nat)
    requires Invariant(s) && i < |s.log|
    ensures s.origin.Some? && s.log[i].base == s.origin.value.revision + i
  {
    var id := s.log[i].call;
    assert CommittedAt(s, id, i) && CallOk(s, id);
    var j :| CommittedAt(s, id, j) && CommitOk(s, s.calls[id], j);
  }

  /** After every interleaving the commits, played one call at a time against an in-process backend that holds the
      inserted record, are all accepted and leave the record that the table holds. */
  lemma LogReplaysInMemory(steps: seq<Step>, m: Mem.State, k: Mem.SessionKey)
    requires Exec(INIT, steps).row.Some?
    requires k in m.sessions && Some(m.sessions[k]) == Exec(INIT, steps).origin
    ensures var s := Exec(INIT, steps);
      Play(m, k, s.log) == Some(m.(sessions := m.sessions[k := s.row.value.data]))
  {
    var s := Exec(INIT, steps);
    ExecKeepsInvariant(INIT, steps);
    forall i | 0 <= i < |s.log| ensures s.log[i].base == m.sessions[k].revision + i {
      BasesAreConsecutive(s, i);
    }
    PlayIsReplay(m, k, s.log);
  }

  // ---- the retry loop itself ----

  function StepCall(step: Step): Option<CallId> {
    match step
    case Insert(_) => None
    case _ => Some(step.id)
  }

  lemma OthersLeaveCallAlone(s: State, step: Step, id: CallId)
    requires StepCall(step) != Some(id) && id in s.calls
    ensures id in Next(s, step).calls && Next(s, step).calls[id] == s.calls[id]
  {
  }

  /** The table as one caller sees it: at every await the other callers may take any number of steps. */
  class Table {
    var state: State

    constructor ()
      ensures state == INIT
    {
      state := INIT;
    }

    method Await(id: CallId)
      requires Invariant(state) && id in state.calls
      modifies this
      ensures Invariant(state) && id in state.calls && state.calls[id] == old(state.calls[id])
    {
      var steps: seq<Step> := *;
      for i := 0 to |steps|
        invariant Invariant(state) && id in state.calls && state.calls[id] == old(state.calls[id])
      {
        if StepCall(steps[i]) != Some(id) {
          NextKeepsInvariant(state, steps[i]);
          OthersLeaveCallAlone(state, steps[i], id);
          state := Next(state, steps[i]);
        }
      }
    }

    method Start(id: CallId, start: int, delta: Delta, now: int)
      requires Invariant(state) && id !in state.calls
      modifies this
      ensures Invariant(state) && id in state.calls
      ensures state.calls[id] == Call(start, delta, now, 0, start, Reading)
    {
      NextKeepsInvariant(state, Begin(id, start, delta, now));
      state := Next(state, Begin(id, start, delta, now));
    }

    /** SELECT: the record, or nothing. */
    method Select(id: CallId) returns (current: Option<Session>)
      requires Invariant(state) && id in state.calls && state.calls[id].phase.Reading?
      modifies this
      ensures state == Next(old(state), Read(id)) && Invariant(state) && id in state.calls
      ensures var c := old(state.calls[id]);
        state.calls[id] == c.(phase :=
          if current.None? then Missing
          else if current.value.revision != c.expected then Conflicted
          else Merged(Apply(current.value, c.delta, c.now)))
    {
      current := if state.row.None? then None else Some(state.row.value.data);
      NextKeepsInvariant(state, Read(id));
      state := Next(state, Read(id));
    }

    /** UPDATE ... WHERE revision = expected: tells whether a row matched. */
    method CompareAndSet(id: CallId) returns (updated: bool)
      requires Invariant(state) && Racing(state, id)
      modifies this
      ensures state == Next(old(state), Update(id)) && Invariant(state) && id in state.calls
      ensures var c := old(state.calls[id]);
        state.calls[id] ==
          if updated then c.(phase := Returned(c.phase.record))
          else c.(attempt := c.attempt + 1, expected := c.phase.record.revision,
                  phase := if c.attempt + 1 == ATTEMPTS then Conflicted else Reading)
    {
      RaceIsDecidedByTheLog(state, id);
      updated := state.row.value.column == state.calls[id].expected;
      NextKeepsInvariant(state, Update(id));
      state := Next(state, Update(id));
    }

    /** The retry loop. Whatever the others do, it ends in one of the three phases and the table's
        invariant, which says what each phase means for the log, holds when it does. */
    method MutateSession(id: CallId, start: int, delta: Delta, now: int)
      returns (reply: Mem.Reply, record: Option<Session>)
      requires Invariant(state) && id !in state.calls
      modifies this
      ensures Invariant(state) && id in state.calls
      ensures state.calls[id].start == start && state.calls[id].delta == delta && state.calls[id].now == now
      ensures match reply
        case Ok => record.Some? && state.calls[id].phase == Returned(record.value)
        case Refused(RevisionConflict) => state.calls[id].phase == Conflicted
        case Refused(NotFound) => state.calls[id].phase == Missing
        case _ => false
    {
      var expected := start;
      Start(id, start, delta, now);
      for attempt := 0 to ATTEMPTS
        invariant Invariant(state) && id in state.calls
        invariant state.calls[id] ==
          Call(start, delta, now, attempt, expected, if attempt < ATTEMPTS then Reading else Conflicted)
      {
        Await(id);
        var current := Select(id);
        if current.None? { return Mem.Refused(Mem.NotFound), None; }
        if current.value.revision != expected { return Mem.Refused(Mem.RevisionConflict), None; }
        var merged := Apply(current.value, delta, now);
        Await(id);
        var updated := CompareAndSet(id);
        if updated { return Mem.Ok, Some(merged); }
        expected := merged.revision;
      }
      return Mem.Refused(Mem.RevisionConflict), None;
    }
  }
}
