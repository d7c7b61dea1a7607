/**
 What the bounded retry of `mutate_session` gives a caller: how each attempt ends, which lost races are tried again, and
 that a call which is overtaken is accepted exactly if that happens no more than twice.
 */
module PostgresRetry {
  import opened Sessions
  import opened PostgresCas

  /** The UPDATE that was just sent matches no row. */
  ghost predicate LosesRace(s: State, id: CallId) {
    Racing(s, id) && !(s.row.Some? && s.row.value.column == s.calls[id].expected)
  }

  /** A lost race is tried again from the revision that the call tried to write, unless it was the third. */
  lemma LostRaceIsRetried(s: State, id: CallId)
    requires Invariant(s) && LosesRace(s, id)
    ensures var c, t := s.calls[id], Next(s, Update(id));
      && t.row == s.row && t.log == s.log && t.calls.Keys == s.calls.Keys
      && c.start <= c.expected <= c.start + 2
      && t.calls[id].expected == c.expected + 1
      && (c.expected < c.start + 2 ==> t.calls[id].phase == Reading)
      && (c.expected == c.start + 2 ==> t.calls[id].phase == Conflicted)
  {
    RaceIsDecidedByTheLog(s, id);
    assert CallOk(s, id);
  }

  /** The column that the UPDATE tests is the revision of the record, as it is under the invariant. */
  ghost predicate ColumnIsRevision(s: State) {
    s.row.Some? ==> s.row.value.column == s.row.value.data.revision
  }

  /** An attempt that nobody comes between ends in one of three ways, told by the row: nothing there, another revision
      there, or the delta is stored on top of what is there. */
  lemma UndisturbedAttempt(s: State, id: CallId)
    requires ColumnIsRevision(s) && id in s.calls && s.calls[id].phase == Reading
    ensures var c := s.calls[id];
      var t := Next(Next(s, Read(id)), Update(id));
      && id in t.calls && ColumnIsRevision(t)
      && (t.calls[id].phase == Missing <==> s.row.None?)
      && (t.calls[id].phase == Conflicted <==> s.row.Some? && s.row.value.data.revision != c.expected)
      && (t.calls[id].phase.Returned? <==> s.row.Some? && s.row.value.data.revision == c.expected)
      && (!t.calls[id].phase.Returned? ==> t.row == s.row && t.log == s.log)
      && (t.calls[id].phase.Returned? ==>
            && t.row.Some? && t.row.value.data == t.calls[id].phase.record
            && t.log == s.log + [Commit(id, c.expected, c.delta, c.now)]
            && t.row.value.column == t.row.value.data.revision == c.expected + 1
            && t.row.value.data.events == s.row.value.data.events + c.delta.events)
  {
  }

  // ---- overtaken any number of times ----

  lemma {:induction false} ExecConcat(s: State, steps: seq<Step>, more: seq<Step>)
    ensures Exec(s, steps + more) == Exec(Exec(s, steps), more)
    decreases |steps|
  {
    if steps == [] {
      assert steps + more == more;
    } else {
      ExecConcat(Next(s, steps[0]), steps[1..], more);
      assert (steps + more)[1..] == steps[1..] + more;
    }
  }

  /** One race lost by call 0: it reads, a rival reads and commits, and then its own UPDATE comes too late. */
  function Overtaken(rival: CallId, base: int, delta: Delta): seq<Step> {
    [Read(0), Begin(rival, base, delta, 0), Read(rival), Update(rival), Update(0)]
  }

  /** Call 0 began at revision 1, has been overtaken `n` times, and is about to read again. */
  ghost predicate AboutToRead(s: State, n: nat, delta: Delta, now: int) {
    && s.row.Some? && s.row.value.column == s.row.value.data.revision == 1 + n
    && (forall id :: id in s.calls ==> id <= n)
    && 0 in s.calls && s.calls[0] == Call(1, delta, now, n, 1 + n, Reading)
  }

  lemma CallReads(s: State, id: CallId)
    requires id in s.calls && s.calls[id].phase == Reading
    requires s.row.Some? && s.row.value.data.revision == s.calls[id].expected
    ensures var c := s.calls[id];
      Next(s, Read(id)) == s.(calls := s.calls[id := c.(phase := Merged(Apply(s.row.value.data, c.delta, c.now)))])
  {
  }

  /** A rival that begins, reads and updates with nobody in between commits. */
  lemma RivalCommits(s: State, id: CallId, theirs: Delta)
    requires ColumnIsRevision(s) && s.row.Some? && id !in s.calls
    ensures var base := s.row.value.data.revision;
      var t := Next(Next(Next(s, Begin(id, base, theirs, 0)), Read(id)), Update(id));
      && t.row.Some? && t.row.value.column == t.row.value.data.revision == base + 1
      && t.calls.Keys == s.calls.Keys + {id}
      && (forall other :: other in s.calls ==> t.calls[other] == s.calls[other])
  {
    var base := s.row.value.data.revision;
    UndisturbedAttempt(Next(s, Begin(id, base, theirs, 0)), id);
  }

  lemma ExecSnoc(s: State, steps: seq<Step>, step: Step)
    ensures Exec(s, steps + [step]) == Next(Exec(s, steps), step)
  {
    ExecConcat(s, steps, [step]);
    assert [step][1..] == [];
  }

  lemma OvertakenIsFiveSteps(s: State, rival: CallId, base: int, theirs: Delta)
    ensures Exec(s, Overtaken(rival, base, theirs)) ==
      Next(Next(Next(Next(Next(s, Read(0)), Begin(rival, base, theirs, 0)), Read(rival)), Update(rival)), Update(0))
  {
    var first := [] + [Read(0)];
    var second := first + [Begin(rival, base, theirs, 0)];
    var third := second + [Read(rival)];
    var fourth := third + [Update(rival)];
    ExecSnoc(s, [], Read(0));
    ExecSnoc(s, first, Begin(rival, base, theirs, 0));
    ExecSnoc(s, second, Read(rival));
    ExecSnoc(s, third, Update(rival));
    ExecSnoc(s, fourth, Update(0));
    assert Overtaken(rival, base, theirs) == fourth + [Update(0)];
  }

  /** Call 0 has read what a rival has replaced since. */
  ghost predicate TooLate(s: State, n: nat, delta: Delta, now: int) {
    && s.row.Some? && s.row.value.column == s.row.value.data.revision == 2 + n
    && (forall id :: id in s.calls ==> id <= n + 1)
    && 0 in s.calls && s.calls[0].phase.Merged? && s.calls[0].phase.record.revision == 2 + n
    && s.calls[0] == Call(1, delta, now, n, 1 + n, s.calls[0].phase)
  }

  lemma RivalComesBetween(s: State, n: nat, delta: Delta, now: int, theirs: Delta)
    requires AboutToRead(s, n, delta, now)
    ensures TooLate(Next(Next(Next(Next(s, Read(0)), Begin(n + 1, 1 + n, theirs, 0)), Read(n + 1)), Update(n + 1)),
                    n, delta, now)
  {
    CallReads(s, 0);
    RivalCommits(Next(s, Read(0)), n + 1, theirs);
  }

  lemma UpdateComesTooLate(s: State, n: nat, delta: Delta, now: int)
    requires TooLate(s, n, delta, now) && n <= 2
    ensures n < 2 ==> AboutToRead(Next(s, Update(0)), n + 1, delta, now)
    ensures var t := Next(s, Update(0));
      n == 2 ==> 0 in t.calls && t.calls[0].start == 1 && t.calls[0].phase == Conflicted
  {
  }

  lemma OneMoreRace(s: State, n: nat, delta: Delta, now: int, theirs: Delta)
    requires AboutToRead(s, n, delta, now) && n <= 2
    ensures var t := Exec(s, Overtaken(n + 1, 1 + n, theirs));
      && (n < 2 ==> AboutToRead(t, n + 1, delta, now))
      && (n == 2 ==> 0 in t.calls && t.calls[0].start == 1 && t.calls[0].phase == Conflicted)
  {
    OvertakenIsFiveSteps(s, n + 1, 1 + n, theirs);
    RivalComesBetween(s, n, delta, now, theirs);
    UpdateComesTooLate(Next(Next(Next(Next(s, Read(0)), Begin(n + 1, 1 + n, theirs, 0)), Read(n + 1)), Update(n + 1)),
                       n, delta, now);
  }

  lemma {:induction false} OvertakenTwiceAtMost(n: nat, session: Session, delta: Delta, now: int, theirs: Delta)
    returns (steps: seq<Step>)
    requires n <= 2 && session.revision == 1
    ensures AboutToRead(Exec(INIT, steps), n, delta, now)
  {
    if n == 0 {
      steps := [Insert(session), Begin(0, 1, delta, now)];
      ExecSnoc(INIT, [], steps[0]);
      ExecSnoc(INIT, [steps[0]], steps[1]);
      assert [] + [steps[0]] == [steps[0]] && [steps[0]] + [steps[1]] == steps;
    } else {
      var before := OvertakenTwiceAtMost(n - 1, session, delta, now, theirs);
      OneMoreRace(Exec(INIT, before), n - 1, delta, now, theirs);
      ExecConcat(INIT, before, Overtaken(n, n, theirs));
      steps := before + Overtaken(n, n, theirs);
    }
  }

  /** For each number of races lost up to two there is a run in which the call is accepted all the same, on the revision
      that the last winner left. */
  lemma AcceptedAfterLostRaces(n: nat, session: Session, delta: Delta, now: int, theirs: Delta)
    returns (steps: seq<Step>)
    requires n <= 2 && session.revision == 1
    ensures var s := Exec(INIT, steps);
      && 0 in s.calls && s.calls[0].start == 1 && s.calls[0].phase.Returned?
      && s.log != [] && s.log[|s.log| - 1] == Commit(0, 1 + n, delta, now)
  {
    var before := OvertakenTwiceAtMost(n, session, delta, now, theirs);
    UndisturbedAttempt(Exec(INIT, before), 0);
    ExecSnoc(INIT, before, Read(0));
    ExecSnoc(INIT, before + [Read(0)], Update(0));
    steps := before + [Read(0)] + [Update(0)];
  }

  /** With the third the call gives up. */
  lemma ThirdLostRaceIsAConflict(session: Session, delta: Delta, now: int, theirs: Delta) returns (steps: seq<Step>)
    requires session.revision == 1
    ensures 0 in Exec(INIT, steps).calls && Exec(INIT, steps).calls[0].phase == Conflicted
    ensures Exec(INIT, steps).calls[0].start == 1
  {
    var before := OvertakenTwiceAtMost(2, session, delta, now, theirs);
    OneMoreRace(Exec(INIT, before), 2, delta, now, theirs);
    ExecConcat(INIT, before, Overtaken(3, 3, theirs));
    steps := before + Overtaken(3, 3, theirs);
  }
}
