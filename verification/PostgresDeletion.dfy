/**
 `mutate_session` on Postgres when sessions are also deleted. A deletion between a call's read and its UPDATE may let
 the UPDATE match a row that was inserted afterwards, and write the deleted record's events into it. What the log
 explains, and exactly when.
 */
module PostgresDeletion {
  import opened Basics
  import opened Sessions
  import opened PostgresCas

  datatype Move = Do(step: Step) | Delete

  /** The row goes; the log is that of the row that is there now, so it starts afresh. Calls in flight know nothing. */
  function DeleteRow(s: State): State {
    State(None, s.calls, None, [])
  }

  function Make(s: State, move: Move): State {
    match move
    case Do(step) => Next(s, step)
    case Delete => DeleteRow(s)
  }

  function Play(s: State, moves: seq<Move>): State {
    if moves == [] then s else Make(Play(s, moves[..|moves| - 1]), moves[|moves| - 1])
  }

  /** The row is the inserted record plus what its log committed. */
  ghost predicate Explained(s: State) {
    && (s.row.Some? <==> s.origin.Some?) && (s.row.None? ==> s.log == [])
    && (s.row.Some? ==>
          s.row.value.data == Replay(s.origin.value, s.log) && s.row.value.column == s.row.value.data.revision)
  }

  /** An UPDATE that matches the row writes the delta onto the record that is in the row then. */
  predicate Clean(s: State, move: Move) {
    move.Do? && move.step.Update? && Matches(s, move.step.id) ==>
      var c := s.calls[move.step.id];
      c.phase.record == Apply(s.row.value.data, c.delta, c.now)
  }

  predicate Matches(s: State, id: CallId) {
    id in s.calls && s.calls[id].phase.Merged? && s.row.Some? && s.row.value.column == s.calls[id].expected
  }

  lemma MoveExplainedExactly(s: State, move: Move)
    requires Explained(s)
    ensures Explained(Make(s, move)) <==> Clean(s, move)
  {
    if move.Do? && move.step.Update? && Matches(s, move.step.id) {
      var s' := Make(s, move);
      assert s'.log[..|s.log|] == s.log;
    }
  }

  lemma PlaySnoc(s: State, moves: seq<Move>, move: Move)
    ensures Play(s, moves + [move]) == Make(Play(s, moves), move)
  {
    assert (moves + [move])[..|moves|] == moves;
  }

  /** The log explains the row after every move. */
  ghost predicate AlwaysExplained(moves: seq<Move>) {
    Explained(Play(INIT, moves)) && (moves != [] ==> AlwaysExplained(moves[..|moves| - 1]))
  }

  ghost predicate AlwaysClean(moves: seq<Move>) {
    moves != [] ==>
      var front := moves[..|moves| - 1];
      AlwaysClean(front) && Clean(Play(INIT, front), moves[|moves| - 1])
  }

  /** Over every run with deletions: the log explains the row all along exactly when every UPDATE that matched wrote
      onto the record that was there. */
  lemma {:induction false} ExplainedExactly(moves: seq<Move>)
    ensures AlwaysExplained(moves) <==> AlwaysClean(moves)
    decreases |moves|
  {
    if moves != [] {
      var front, last := moves[..|moves| - 1], moves[|moves| - 1];
      ExplainedExactly(front);
      if Explained(Play(INIT, front)) {
        MoveExplainedExactly(Play(INIT, front), last);
      }
    }
  }

  // ---- no deletion between a read and its UPDATE ----

  ghost predicate InFlight(s: State, id: CallId) { id in s.calls && s.calls[id].phase.Merged? }

  /** The deletions of a run find no call between its read and its UPDATE. */
  ghost predicate NoneInFlight(moves: seq<Move>) {
    moves != [] ==>
      var front := moves[..|moves| - 1];
      && NoneInFlight(front)
      && (moves[|moves| - 1].Delete? ==> forall id :: !InFlight(Play(INIT, front), id))
  }

  /** A call in flight has read a state that the log still explains. */
  ghost predicate ReadFromLog(s: State, id: CallId)
    requires InFlight(s, id)
  {
    var c := s.calls[id];
    && s.origin.Some?
    && 0 <= c.expected - s.origin.value.revision <= |s.log|
    && c.phase.record == Apply(Replay(s.origin.value, s.log[..c.expected - s.origin.value.revision]), c.delta, c.now)
  }

  ghost predicate Orderly(s: State) {
    Explained(s) && forall id :: InFlight(s, id) ==> ReadFromLog(s, id)
  }

  lemma OrderlyIsClean(s: State, move: Move)
    requires Orderly(s)
    ensures Clean(s, move)
  {
    if move.Do? && move.step.Update? && Matches(s, move.step.id) {
      assert InFlight(s, move.step.id) && ReadFromLog(s, move.step.id);
      ReplayRevision(s.origin.value, s.log);
      assert s.log[..|s.log|] == s.log;
    }
  }

  lemma StaysRead(s: State, s': State, id: CallId)
    requires InFlight(s, id) && ReadFromLog(s, id) && id in s'.calls && s'.calls[id] == s.calls[id]
    requires s'.origin == s.origin && s.log <= s'.log
    ensures ReadFromLog(s', id)
  {
    var n := s.calls[id].expected - s.origin.value.revision;
    assert s'.log[..n] == s.log[..n];
  }

  lemma JustRead(s: State, id: CallId)
    requires Explained(s) && !InFlight(s, id) && InFlight(ReadRow(s, id), id)
    ensures ReadFromLog(ReadRow(s, id), id)
  {
    ReplayRevision(s.origin.value, s.log);
    assert s.log[..|s.log|] == s.log;
  }

  lemma StepKeepsOrderly(s: State, step: Step)
    requires Orderly(s)
    ensures Orderly(Next(s, step))
  {
    var s' := Next(s, step);
    OrderlyIsClean(s, Do(step));
    MoveExplainedExactly(s, Do(step));
    forall id | InFlight(s', id) ensures ReadFromLog(s', id) {
      if InFlight(s, id) {
        StillInFlight(s, step, id);
        StaysRead(s, s', id);
      } else {
        NewInFlight(s, step, id);
        JustRead(s, id);
      }
    }
  }

  lemma StillInFlight(s: State, step: Step, id: CallId)
    requires Orderly(s) && InFlight(s, id) && InFlight(Next(s, step), id)
    ensures var s' := Next(s, step); s'.calls[id] == s.calls[id] && s'.origin == s.origin && s.log <= s'.log
  {
    assert ReadFromLog(s, id);
  }

  lemma NewInFlight(s: State, step: Step, id: CallId)
    requires !InFlight(s, id) && InFlight(Next(s, step), id)
    ensures step == Read(id)
  {
  }

  lemma DeleteKeepsOrderly(s: State)
    requires forall id :: !InFlight(s, id)
    ensures Orderly(DeleteRow(s))
  {
    forall id ensures !InFlight(DeleteRow(s), id) {
      assert !InFlight(s, id);
    }
  }

  /** Without a deletion between a read and its UPDATE every UPDATE is clean, so the log explains the row all along. */
  lemma {:induction false} NoneInFlightIsExplained(moves: seq<Move>)
    requires NoneInFlight(moves)
    ensures Orderly(Play(INIT, moves)) && AlwaysExplained(moves)
    decreases |moves|
  {
    if moves != [] {
      var front, last := moves[..|moves| - 1], moves[|moves| - 1];
      NoneInFlightIsExplained(front);
      if last.Do? {
        StepKeepsOrderly(Play(INIT, front), last.step);
      } else {
        DeleteKeepsOrderly(Play(INIT, front));
      }
    }
  }

  // ---- a deletion in flight ----

  /** A session is deleted and inserted anew between a call's read and its UPDATE. The log goes unexplained exactly when
      the new row has the revision that the call expects and is not, but for its time, the record that the call read. */
  lemma StaleWriteExactly(s: State, id: CallId, session: Session)
    requires InFlight(s, id)
    ensures var anew := InsertRow(DeleteRow(s), session);
      var c := s.calls[id];
      Explained(UpdateRow(anew, id)) <==>
        session.revision != c.expected || Apply(session, c.delta, c.now) == c.phase.record
  {
    var anew := InsertRow(DeleteRow(s), session);
    assert Explained(anew);
    MoveExplainedExactly(anew, Do(Update(id)));
  }

  /** Such a run from the start: the new session, inserted empty, ends up with the deleted one's events. */
  lemma DeletedEventsComeBack(events: seq<Event>, delta: Delta, now: int) returns (moves: seq<Move>)
    requires events != []
    ensures var s := Play(INIT, moves);
      && s.row.Some? && s.origin == Some(NewSession([], now)) && s.row.value.data.events == events + delta.events
      && s.calls.Keys == {0} && s.calls[0].phase.Returned? && !Explained(s)
  {
    var first, anew := NewSession(events, now), NewSession([], now);
    var begin := [Do(Insert(first)), Do(Begin(0, 1, delta, now)), Do(Read(0))];
    var end := [Delete, Do(Insert(anew)), Do(Update(0))];
    PlayThree(INIT, begin[0], begin[1], begin[2]);
    BeforeDeletion(first, delta, now);
    var s3 := Play(INIT, begin);
    PlayConcat(INIT, begin, end);
    PlayThree(s3, end[0], end[1], end[2]);
    StaleWriteExactly(s3, 0, anew);
    assert Apply(anew, delta, now).events == [] + delta.events;
    assert |(events + delta.events)| != |Apply(anew, delta, now).events|;
    moves := begin + end;
  }

  lemma BeforeDeletion(first: Session, delta: Delta, now: int)
    requires first.revision == 1
    ensures Make(Make(Make(INIT, Do(Insert(first))), Do(Begin(0, 1, delta, now))), Do(Read(0))) ==
      State(Some(Row(1, first)), map[0 := Call(1, delta, now, 0, 1, Merged(Apply(first, delta, now)))], Some(first), [])
  {
  }

  lemma PlayThree(s: State, a: Move, b: Move, c: Move)
    ensures Play(s, [a, b, c]) == Make(Make(Make(s, a), b), c)
  {
    assert [] + [a] == [a] && [a] + [b] == [a, b] && [a, b] + [c] == [a, b, c];
    PlaySnoc(s, [], a);
    PlaySnoc(s, [a], b);
    PlaySnoc(s, [a, b], c);
  }

  lemma {:induction false} PlayConcat(s: State, moves: seq<Move>, more: seq<Move>)
    ensures Play(s, moves + more) == Play(Play(s, moves), more)
    decreases |more|
  {
    if more == [] {
      assert moves + more == moves;
    } else {
      var front, last := more[..|more| - 1], more[|more| - 1];
      PlayConcat(s, moves, front);
      assert more == front + [last] && moves + more == (moves + front) + [last];
      PlaySnoc(s, moves + front, last);
      PlaySnoc(Play(s, moves), front, last);
    }
  }
}
