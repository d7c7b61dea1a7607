/**
 What each record of the in-process store tells about its past: a session counts and collects its accepted mutations, a
 run has what its last updates gave it, and records live exactly as long as their time allows.
 */
module MemoryRecords {
  import opened Basics
  import opened Sessions
  import opened MemoryState

  // ---- one mutation ----

  /** A mutation is accepted exactly on the revision that is there. A refusal says what was wrong and changes nothing;
      an accepted one adds to this session and touches no other part of the state. */
  lemma MutationAcceptedExactly(s: State, k: SessionKey, expected: int, d: Delta, now: int)
    ensures var (s', reply) := MutateSession(s, k, expected, d, now);
      && (reply == Ok <==> k in s.sessions && s.sessions[k].revision == expected)
      && (reply == Refused(NotFound) <==> k !in s.sessions)
      && (reply == Refused(RevisionConflict) <==> k in s.sessions && s.sessions[k].revision != expected)
      && (reply != Ok ==> s' == s)
      && (reply == Ok ==>
            && s' == s.(sessions := s'.sessions) && s'.sessions.Keys == s.sessions.Keys
            && (forall other :: other in s.sessions && other != k ==> s'.sessions[other] == s.sessions[other])
            && s'.sessions[k].revision == expected + 1
            && s'.sessions[k].events == s.sessions[k].events + d.events
            && s'.sessions[k].updatedAt == now
            && s'.sessions[k].truncated == (if d.truncated.Some? then d.truncated.value else s.sessions[k].truncated)
            && forall key :: Counter(s'.sessions[k].usage, key) ==
                             Counter(s.sessions[k].usage, key) + Counter(d.usage, key))
  {
  }

  /** A session is made with what it was given and nothing else, and never made anew. */
  lemma CreatedExactly(s: State, k: SessionKey, events: seq<Event>, now: int)
    ensures var s' := CreateSession(s, k, events, now);
      && (k in s.sessions ==> s' == s)
      && (k !in s.sessions ==>
            && s' == s.(sessions := s'.sessions) && s'.sessions.Keys == s.sessions.Keys + {k}
            && (forall other :: other in s.sessions ==> s'.sessions[other] == s.sessions[other])
            && s'.sessions[k].revision == 1 && s'.sessions[k].events == events && s'.sessions[k].usage == map[]
            && !s'.sessions[k].truncated && s'.sessions[k].updatedAt == now)
  {
  }

  // ---- a session over its history ----

  datatype Change = Change(delta: Delta, now: int)

  /** The mutations of the session that were accepted, in order. */
  function Accepted(s: State, k: SessionKey, history: seq<Timed>): seq<Change> {
    if history == [] then []
    else
      var last := |history| - 1;
      Accepted(s, k, history[..last]) + AcceptedBy(Exec(s, history[..last]), k, history[last])
  }

  function AcceptedBy(s: State, k: SessionKey, t: Timed): seq<Change> {
    if t.op.OpMutateSession? && t.op.k == k && Step(s, t.op, t.now).1 == Ok then [Change(t.op.delta, t.now)] else []
  }

  function EventsOf(changes: seq<Change>): seq<Event> {
    if changes == [] then [] else EventsOf(changes[..|changes| - 1]) + changes[|changes| - 1].delta.events
  }

  function UsageOf(changes: seq<Change>, key: string): int {
    if changes == [] then 0
    else UsageOf(changes[..|changes| - 1], key) + Counter(changes[|changes| - 1].delta.usage, key)
  }

  /** The flag that was given last. */
  function FlagOf(changes: seq<Change>, before: bool): bool {
    if changes == [] then before
    else
      var last := changes[|changes| - 1];
      if last.delta.truncated.Some? then last.delta.truncated.value else FlagOf(changes[..|changes| - 1], before)
  }

  function TimeOf(changes: seq<Change>, before: int): int {
    if changes == [] then before else changes[|changes| - 1].now
  }

  /** The record `r` is `r0` after these changes. */
  ghost predicate Tells(r0: Session, changes: seq<Change>, r: Session) {
    && r.revision == r0.revision + |changes|
    && r.events == r0.events + EventsOf(changes)
    && (forall key :: Counter(r.usage, key) == Counter(r0.usage, key) + UsageOf(changes, key))
    && r.truncated == FlagOf(changes, r0.truncated)
    && r.updatedAt == TimeOf(changes, r0.updatedAt)
  }

  /** The session is there from the first state of the history to the last. */
  ghost predicate Stays(s: State, k: SessionKey, history: seq<Timed>) {
    && k in Exec(s, history).sessions
    && (history != [] ==> Stays(s, k, history[..|history| - 1]))
  }

  lemma TellsOneMore(r0: Session, changes: seq<Change>, r: Session, c: Change)
    requires Tells(r0, changes, r)
    ensures Tells(r0, changes + [c], Apply(r, c.delta, c.now))
  {
    assert (changes + [c])[..|changes|] == changes;
  }

  lemma StepIsToldBySession(s: State, k: SessionKey, t: Timed)
    requires k in s.sessions && k in Step(s, t.op, t.now).0.sessions
    ensures var changes := AcceptedBy(s, k, t);
      Step(s, t.op, t.now).0.sessions[k] ==
        if changes == [] then s.sessions[k] else Apply(s.sessions[k], changes[0].delta, changes[0].now)
  {
    if !t.op.OpMutateSession? { OtherStepsKeepSession(s, k, t); }
  }

  lemma OtherStepsKeepSession(s: State, k: SessionKey, t: Timed)
    requires !t.op.OpMutateSession? && k in s.sessions && k in Step(s, t.op, t.now).0.sessions
    ensures Step(s, t.op, t.now).0.sessions[k] == s.sessions[k]
  {
    match t.op
    case OpDeleteSession(other) => DeletionSparesOthers(s, k, other);
    case OpSweep => SessionsLiveExactly(s, k, t.now);
    case _ =>
  }

  lemma DeletionSparesOthers(s: State, k: SessionKey, other: SessionKey)
    requires k in s.sessions && k in DeleteSession(s, other).0.sessions
    ensures DeleteSession(s, other).0.sessions[k] == s.sessions[k]
  {
  }

  /** A session that stays is its record at the start and every mutation accepted since, each exactly once and in order.
      */
  lemma {:induction false} SessionTellsItsHistory(s: State, k: SessionKey, history: seq<Timed>)
    requires Stays(s, k, history)
    ensures k in s.sessions
    ensures Tells(s.sessions[k], Accepted(s, k, history), Exec(s, history).sessions[k])
    decreases |history|
  {
    if history != [] {
      var last := |history| - 1;
      var before, t := Exec(s, history[..last]), history[last];
      SessionTellsItsHistory(s, k, history[..last]);
      StepIsToldBySession(before, k, t);
      var changes := Accepted(s, k, history[..last]);
      if AcceptedBy(before, k, t) == [] {
        assert changes + [] == changes;
      } else {
        TellsOneMore(s.sessions[k], changes, before.sessions[k], Change(t.op.delta, t.now));
      }
    }
  }

  /** Of two mutations with the same expected revision at most one is accepted, whatever happens between them, as long
      as the session stays. */
  lemma OneMutationPerRevision(s: State, k: SessionKey, expected: int, d: Delta, now: int, history: seq<Timed>,
                               other: Delta, later: int)
    requires MutateSession(s, k, expected, d, now).1 == Ok
    requires Stays(MutateSession(s, k, expected, d, now).0, k, history)
    ensures MutateSession(Exec(MutateSession(s, k, expected, d, now).0, history), k, expected, other, later).1 ==
      Refused(RevisionConflict)
  {
    SessionTellsItsHistory(MutateSession(s, k, expected, d, now).0, k, history);
  }

  /** It must stay: one that is deleted and made anew starts again at revision 1, and takes the same baseline twice. */
  lemma RemadeSessionStartsAgain(settings: Settings, k: SessionKey, d: Delta)
    ensures var s := CreateSession(Init(settings), k, [], 0);
      var (s1, first) := MutateSession(s, k, 1, d, 1);
      var history := [Timed(OpDeleteSession(k), 2), Timed(OpCreateSession(k, []), 3)];
      first == Ok && MutateSession(Exec(s1, history), k, 1, d, 4).1 == Ok
  {
    var s1 := MutateSession(CreateSession(Init(settings), k, [], 0), k, 1, d, 1).0;
    var history := [Timed(OpDeleteSession(k), 2), Timed(OpCreateSession(k, []), 3)];
    assert history[..1] == [history[0]] && history[..1][..0] == [];
    assert Exec(s1, []) == s1 && !HasNonterminal(s1.runs, k);
    assert Exec(s1, history[..1]) == DeleteSession(s1, k).0;
    assert Exec(s1, history) == CreateSession(DeleteSession(s1, k).0, k, [], 3);
  }

  // ---- runs ----

  /** An update gives a run what it names, leaves it the rest, and touches no other. */
  lemma UpdatedExactly(s: State, r: RunKey, status: Option<Status>, outcome: Option<string>, now: int)
    ensures var (s', reply) := UpdateRun(s, r, status, outcome, now);
      && (reply == Ok <==> r in s.runs) && (reply != Ok ==> reply == Absent && s' == s)
      && (reply == Ok ==>
            && s' == s.(runs := s'.runs) && s'.runs.Keys == s.runs.Keys
            && (forall other :: other in s.runs && other != r ==> s'.runs[other] == s.runs[other])
            && s'.runs[r].updatedAt == now && s'.runs[r].input == s.runs[r].input
            && s'.runs[r].status == (if status.Some? then status.value else s.runs[r].status)
            && s'.runs[r].outcome == (if outcome.Some? then outcome.value else s.runs[r].outcome))
  {
  }

  /** Two updates in a row are one: what the second names counts, then what the first named, then what was there. */
  lemma UpdatesAddUp(s: State, r: RunKey, a: Option<Status>, b: Option<Status>, o: Option<string>, p: Option<string>,
                     now: int, later: int)
    requires r in s.runs
    ensures UpdateRun(UpdateRun(s, r, a, o, now).0, r, b, p, later) ==
      UpdateRun(s, r, if b.Some? then b else a, if p.Some? then p else o, later)
  {
    var s1 := UpdateRun(s, r, a, o, now).0;
    var run := UpdateRun(s1, r, b, p, later).0.runs[r];
    assert s.runs[r := s1.runs[r]][r := run] == s.runs[r := run];
  }

  // ---- how long records live ----

  /** The sweep keeps a session exactly while it is not too old, has no time to live at all, is fenced, or has a run
      that is not over; and it keeps it as it is. */
  lemma SessionsLiveExactly(s: State, k: SessionKey, now: int)
    ensures var s' := Sweep(s, now);
      && (k in s'.sessions <==>
            && k in s.sessions
            && (|| s.settings.sessionTtl == 0 || now <= s.sessions[k].updatedAt + s.settings.sessionTtl
                || k in s.fences
                || exists r :: r in s.runs && r.session == k && s.runs[r].status !in {Succeeded, Failed, Cancelled}))
      && (k in s'.sessions ==> s'.sessions[k] == s.sessions[k])
  {
    if k in s.sessions && HasNonterminal(s.runs, k) {
      var r :| r in s.runs && r.session == k && !s.runs[r].Terminal();
      assert s.runs[r].status !in {Succeeded, Failed, Cancelled};
    }
  }

  /** Up to its time to live a run is left alone. After it one that is over is dropped, and any other is failed as
      interrupted. */
  lemma RunsLiveExactly(s: State, r: RunKey, now: int)
    ensures var s' := Sweep(s, now);
      if r !in s.runs then r !in s'.runs
      else
        var run := s.runs[r];
        if now <= run.updatedAt + s.settings.runTtl then r in s'.runs && s'.runs[r] == run
        else if run.status in {Succeeded, Failed, Cancelled} then r !in s'.runs
        else r in s'.runs && s'.runs[r] == Run(Failed, run.input, "run_interrupted", now)
  {
  }

  /** A new record is refused exactly for lack of room; one that is there is left as it is. */
  lemma IdemCreatedExactly(s: State, i: IdemKey, ttl: int, now: int)
    ensures var (s', reply) := CreateIdem(s, i, ttl, now);
      && (reply == Refused(Capacity) <==> i !in s.idem && |IdemOf(s.idem, i.session)| >= s.settings.maxIdem)
      && (reply != Refused(Capacity) ==> reply == Ok)
      && (reply.Refused? || i in s.idem ==> s' == s)
      && (reply == Ok && i !in s.idem ==>
            && s' == s.(idem := s'.idem) && s'.idem.Keys == s.idem.Keys + {i}
            && (forall other :: other in s.idem ==> s'.idem[other] == s.idem[other])
            && s'.idem[i].expiresAt == now + ttl)
  {
  }

  /** Neither the record nor its session is named by the operation. */
  predicate LeavesIdem(op: Op, i: IdemKey) {
    && op != OpExpireIdem(i) && op != OpDeleteSession(i.session)
    && (op.OpCreateIdem? ==> op.i != i)
  }

  predicate SweptAtOrAfter(history: seq<Timed>, deadline: int) {
    exists t :: t in history && t.op == OpSweep && t.now >= deadline
  }

  /** A record that nobody names again is there exactly until a sweep comes at or after its time. */
  lemma {:induction false} IdemLivesExactly(s: State, i: IdemKey, history: seq<Timed>)
    requires i in s.idem && forall t :: t in history ==> LeavesIdem(t.op, i)
    ensures i in Exec(s, history).idem <==> !SweptAtOrAfter(history, s.idem[i].expiresAt)
    ensures i in Exec(s, history).idem ==> Exec(s, history).idem[i] == s.idem[i]
    decreases |history|
  {
    if history != [] {
      var last := |history| - 1;
      var front, t := history[..last], history[last];
      assert history == front + [t];
      IdemLivesExactly(s, i, front);
      assert t in history && LeavesIdem(t.op, i);
      SweptSnoc(front, t, s.idem[i].expiresAt);
      IdemStep(Exec(s, front), i, t);
    }
  }

  lemma SweptSnoc(history: seq<Timed>, t: Timed, deadline: int)
    ensures SweptAtOrAfter(history + [t], deadline) <==>
      SweptAtOrAfter(history, deadline) || (t.op == OpSweep && t.now >= deadline)
  {
    if SweptAtOrAfter(history, deadline) {
      var u :| u in history && u.op == OpSweep && u.now >= deadline;
      assert u in history + [t];
    }
    assert t in history + [t];
  }

  lemma IdemStep(s: State, i: IdemKey, t: Timed)
    requires LeavesIdem(t.op, i)
    ensures var s' := Step(s, t.op, t.now).0;
      && (i in s'.idem <==> i in s.idem && (t.op != OpSweep || t.now < s.idem[i].expiresAt))
      && (i in s'.idem ==> s'.idem[i] == s.idem[i])
  {
    match t.op
    case OpSweep => IdemSweptExactly(s, i, t.now);
    case OpDeleteSession(k) => IdemOfOthersStay(s, i, k);
    case _ =>
  }

  lemma IdemSweptExactly(s: State, i: IdemKey, now: int)
    ensures i in Sweep(s, now).idem <==> i in s.idem && now < s.idem[i].expiresAt
    ensures i in Sweep(s, now).idem ==> Sweep(s, now).idem[i] == s.idem[i]
  {
  }

  lemma IdemOfOthersStay(s: State, i: IdemKey, k: SessionKey)
    requires i.session != k
    ensures var s' := DeleteSession(s, k).0;
      (i in s'.idem <==> i in s.idem) && (i in s'.idem ==> s'.idem[i] == s.idem[i])
  {
  }
}
