/**
 How a streamed response ends, told by what happened on the way: which responses complete, which events the client is
 shown, when a cancellation is reported, and which runs can be delivered in full.
 */
module StreamOutcomes {
  import opened Basics
  import opened StreamProtocol

  // ---- completion ----

  /** The consumer takes the end marker from the queue while the slow-consumer flag is down. */
  predicate TakesMarker(s: State, step: Step) {
    && ((step.GetNow? && s.consumer == Polled) || (step.GetWakes? && s.consumer == Blocked))
    && s.queue != [] && s.queue[0] == End && !s.slow
  }

  predicate SendsTail(s: State, step: Step) { step.TailSent? && s.consumer == Tail }

  ghost predicate MarkerTaken(s: State, steps: seq<Step>) {
    exists i :: 0 <= i < |steps| && TakesMarker(Exec(s, steps[..i]), steps[i])
  }

  ghost predicate TailWasSent(s: State, steps: seq<Step>) {
    exists i :: 0 <= i < |steps| && SendsTail(Exec(s, steps[..i]), steps[i])
  }

  lemma HistoriesSnoc(s: State, steps: seq<Step>, step: Step)
    ensures MarkerTaken(s, steps + [step]) <==> MarkerTaken(s, steps) || TakesMarker(Exec(s, steps), step)
    ensures TailWasSent(s, steps + [step]) <==> TailWasSent(s, steps) || SendsTail(Exec(s, steps), step)
  {
    var more := steps + [step];
    assert more[..|steps|] == steps && more[|steps|] == step;
    forall i | 0 <= i < |steps| ensures more[..i] == steps[..i] && more[i] == steps[i] {
    }
  }

  lemma EventsDoNotComplete(s: State)
    requires s.queue != [] && s.queue[0].Ev?
    ensures Handle(s).completed == s.completed
  {
  }

  lemma StepCompletes(s: State, step: Step)
    ensures Next(s, step).completed <==> s.completed || TakesMarker(s, step)
  {
    if s.queue != [] && s.queue[0].Ev? { EventsDoNotComplete(s); }
  }

  /** A response counts as completed exactly if the consumer took the end marker while the slow flag was down. */
  lemma {:induction false} CompletedExactly(bound: nat, mode: Mode, keyed: bool, steps: seq<Step>)
    ensures Exec(Init(bound, mode, keyed), steps).completed <==> MarkerTaken(Init(bound, mode, keyed), steps)
    decreases |steps|
  {
    if steps != [] {
      var s0, front, last := Init(bound, mode, keyed), steps[..|steps| - 1], steps[|steps| - 1];
      assert steps == front + [last];
      CompletedExactly(bound, mode, keyed, front);
      HistoriesSnoc(s0, front, last);
      StepCompletes(Exec(s0, front), last);
    }
  }

  /** What the history of a tail says about where the consumer is. */
  ghost predicate TailHistory(s: State, tailSent: bool) {
    && (tailSent ==> s.consumer == Stopped)
    && (s.record.Completed? <==> tailSent && s.completed)
  }

  lemma StepKeepsTailHistory(s: State, step: Step, tailSent: bool)
    requires Invariant(s) && s.record != NoKey && TailHistory(s, tailSent)
    ensures TailHistory(Next(s, step), tailSent || SendsTail(s, step))
  {
    NextKeepsInvariant(s, step);
    if Looping(s.consumer) { LeavingTheLoop(s, step); }
  }

  lemma {:induction false} TailToldByHistory(bound: nat, mode: Mode, steps: seq<Step>)
    ensures TailHistory(Exec(Init(bound, mode, true), steps), TailWasSent(Init(bound, mode, true), steps))
    decreases |steps|
  {
    if steps != [] {
      var s0, front, last := Init(bound, mode, true), steps[..|steps| - 1], steps[|steps| - 1];
      assert steps == front + [last];
      TailToldByHistory(bound, mode, front);
      HistoriesSnoc(s0, front, last);
      ExecKeepsInvariant(bound, mode, true, front);
      ExecKeepsBound(bound, mode, true, front);
      StepKeepsTailHistory(Exec(s0, front), last, TailWasSent(s0, front));
    }
  }

  /** The idempotency record of a response that is over, by what happened: it holds the whole text of the run exactly if
      the marker was taken and the tail sent, stays in progress exactly if the marker was taken and the response closed
      in its tail, and is expired otherwise. */
  lemma RecordToldByHistory(bound: nat, mode: Mode, steps: seq<Step>)
    ensures var s0 := Init(bound, mode, true); var s := Exec(s0, steps);
      && (s.record == Completed(TextOf(s.yielded)) <==> MarkerTaken(s0, steps) && TailWasSent(s0, steps))
      && (s.record.Completed? ==> s.record == Completed(TextOf(s.yielded)))
      && (s.consumer == Stopped ==>
            && (s.record == InProgress <==> MarkerTaken(s0, steps) && ClosedInTail(s0, steps))
            && (s.record == Expired <==> !MarkerTaken(s0, steps)))
  {
    CompletedExactly(bound, mode, true, steps);
    TailToldByHistory(bound, mode, steps);
    RecordFollowsTheMarker(bound, mode, steps);
    InProgressOnlyIfClosedInTail(bound, mode, steps);
  }

  // ---- what the client is shown ----

  /** By the mode of the stream: text and what ends a run always, what else happens in the run from events mode on,
      iterations in debug mode only. Results of tools and the end of the run have no chunk of their own. */
  predicate Shown(mode: Mode, e: Event) {
    match mode
    case TextOnly => e.Text? || e.ApprovalRequired? || e.RunError?
    case Events => e.Text? || e.ApprovalRequired? || e.RunError? || e.RagDegraded? || e.AgentTransfer? || e.ToolCall?
    case Debug => !e.ToolResult? && !e.Finished?
  }

  function ShownOf(mode: Mode, events: seq<Event>): seq<Event> {
    if events == [] then []
    else
      var last := events[|events| - 1];
      ShownOf(mode, events[..|events| - 1]) + if Shown(mode, last) then [last] else []
  }

  /** The events for which a chunk went on the wire, in order. */
  function SentIn(s: State, steps: seq<Step>): seq<Event> {
    if steps == [] then []
    else
      var front := steps[..|steps| - 1];
      SentIn(s, front) + ChunkOf(Exec(s, front), Exec(s, steps))
  }

  function ChunkOf(before: State, after: State): seq<Event> {
    if !before.consumer.Sending? && after.consumer.Sending? then [after.consumer.event] else []
  }

  lemma HandleShows(s: State)
    requires s.queue != [] && !s.consumer.Sending?
    ensures Handle(s).mode == s.mode
    ensures s.queue[0].Ev? ==> Handle(s).consumed == s.consumed + [s.queue[0].event]
    ensures s.queue[0] == End ==> Handle(s).consumed == s.consumed
    ensures ChunkOf(s, Handle(s)) ==
      if s.queue[0].Ev? && Shown(s.mode, s.queue[0].event) then [s.queue[0].event] else []
  {
  }

  predicate TakesItem(s: State, step: Step) {
    s.queue != [] && ((step.GetNow? && s.consumer == Polled) || (step.GetWakes? && s.consumer == Blocked))
  }

  lemma OtherStepsShowNothing(s: State, step: Step)
    requires !TakesItem(s, step)
    ensures var t := Next(s, step); t.mode == s.mode && t.consumed == s.consumed && ChunkOf(s, t) == []
  {
  }

  lemma StepShows(s: State, step: Step)
    ensures var t := Next(s, step);
      && t.mode == s.mode
      && ((t.consumed == s.consumed && ChunkOf(s, t) == []) ||
          exists e :: t.consumed == s.consumed + [e] && ChunkOf(s, t) == if Shown(s.mode, e) then [e] else [])
  {
    if TakesItem(s, step) {
      HandleShows(s);
      assert Next(s, step) == Handle(s);
    } else {
      OtherStepsShowNothing(s, step);
    }
  }

  /** The chunks on the wire are those of the consumed events that the mode shows, in order. */
  lemma {:induction false} EventsAreShown(bound: nat, mode: Mode, keyed: bool, steps: seq<Step>)
    ensures var s0 := Init(bound, mode, keyed);
      && Exec(s0, steps).mode == mode
      && SentIn(s0, steps) == ShownOf(mode, Exec(s0, steps).consumed)
    decreases |steps|
  {
    if steps != [] {
      var s0, front := Init(bound, mode, keyed), steps[..|steps| - 1];
      EventsAreShown(bound, mode, keyed, front);
      StepShows(Exec(s0, front), steps[|steps| - 1]);
      ShownSnoc(mode, Exec(s0, front).consumed);
    }
  }

  lemma ShownSnoc(mode: Mode, events: seq<Event>)
    ensures forall e :: ShownOf(mode, events + [e]) == ShownOf(mode, events) + if Shown(mode, e) then [e] else []
  {
    forall e ensures ShownOf(mode, events + [e]) == ShownOf(mode, events) + if Shown(mode, e) then [e] else [] {
      assert (events + [e])[..|events|] == events;
    }
  }

  // ---- why a response was cut short ----

  predicate FindsClientGone(s: State, step: Step) { step == Poll(true) && s.consumer == AtTop }

  predicate GivesUpOnClient(s: State, step: Step) { step.PutTimesOut? && s.producer.Waiting? }

  ghost predicate ClientGone(s: State, steps: seq<Step>) {
    exists i :: 0 <= i < |steps| && FindsClientGone(Exec(s, steps[..i]), steps[i])
  }

  ghost predicate GaveUp(s: State, steps: seq<Step>) {
    exists i :: 0 <= i < |steps| && GivesUpOnClient(Exec(s, steps[..i]), steps[i])
  }

  lemma ReasonsSnoc(s: State, steps: seq<Step>, step: Step)
    ensures ClientGone(s, steps + [step]) <==> ClientGone(s, steps) || FindsClientGone(Exec(s, steps), step)
    ensures GaveUp(s, steps + [step]) <==> GaveUp(s, steps) || GivesUpOnClient(Exec(s, steps), step)
  {
    var more := steps + [step];
    assert more[..|steps|] == steps && more[|steps|] == step;
    forall i | 0 <= i < |steps| ensures more[..i] == steps[..i] && more[i] == steps[i] {
    }
  }

  /** What the tail reports: a client found gone, a slow one, or nothing. */
  ghost predicate ReasonTold(s: State, clientGone: bool, gaveUp: bool) {
    && (s.slow <==> gaveUp)
    && (Looping(s.consumer) ==> s.cancel == None && !clientGone)
    && (!Looping(s.consumer) ==> s.producer == Gone)
    && (s.consumer == Tail ==>
          s.cancel == if clientGone then Some(Disconnected) else if gaveUp then Some(SlowConsumer) else None)
  }

  lemma ConsumerTellsReason(s: State, step: Step, clientGone: bool, gaveUp: bool)
    requires ReasonTold(s, clientGone, gaveUp) && Looping(s.consumer)
    ensures ReasonTold(ConsumerStep(s, step), clientGone || FindsClientGone(s, step), gaveUp)
  {
    if TakesItem(s, step) {
      assert ConsumerStep(s, step) == Handle(s);
      HandleTellsReason(s, gaveUp);
    }
  }

  lemma HandleTellsReason(s: State, gaveUp: bool)
    requires ReasonTold(s, false, gaveUp) && Looping(s.consumer) && s.queue != []
    ensures ReasonTold(Handle(s), false, gaveUp)
  {
  }

  lemma ProducerTellsReason(s: State, step: Step, clientGone: bool, gaveUp: bool)
    requires ReasonTold(s, clientGone, gaveUp)
    ensures ReasonTold(ProducerStep(s, step), clientGone, gaveUp || GivesUpOnClient(s, step))
  {
  }

  lemma StepTellsReason(s: State, step: Step, clientGone: bool, gaveUp: bool)
    requires ReasonTold(s, clientGone, gaveUp)
    ensures ReasonTold(Next(s, step), clientGone || FindsClientGone(s, step), gaveUp || GivesUpOnClient(s, step))
  {
    ProducerTellsReason(s, step, clientGone, gaveUp);
    if Looping(s.consumer) { ConsumerTellsReason(s, step, clientGone, gaveUp); }
  }

  /** A response in its tail reports exactly why it was cut short: the client was found gone, or else the producer had
      given up on a full queue; and it reports nothing if neither happened. */
  lemma {:induction false} TailTellsWhy(bound: nat, mode: Mode, keyed: bool, steps: seq<Step>)
    ensures TellsReason(Init(bound, mode, keyed), steps)
    decreases |steps|
  {
    if steps == [] {
      NoReasonYet(bound, mode, keyed);
    } else {
      var front, last := steps[..|steps| - 1], steps[|steps| - 1];
      TailTellsWhy(bound, mode, keyed, front);
      ReasonToldSnoc(Init(bound, mode, keyed), front, last);
      assert steps == front + [last];
    }
  }

  ghost predicate TellsReason(s: State, steps: seq<Step>) {
    ReasonTold(Exec(s, steps), ClientGone(s, steps), GaveUp(s, steps))
  }

  lemma NoReasonYet(bound: nat, mode: Mode, keyed: bool)
    ensures TellsReason(Init(bound, mode, keyed), [])
  {
  }

  lemma ReasonToldSnoc(s: State, steps: seq<Step>, step: Step)
    requires TellsReason(s, steps)
    ensures TellsReason(s, steps + [step])
  {
    ReasonsSnoc(s, steps, step);
    StepTellsReason(Exec(s, steps), step, ClientGone(s, steps), GaveUp(s, steps));
    ExecSnoc(s, steps, step);
  }

  /** The producer goes of its own accord: the run is over, or it gives up on the client. */
  predicate EndsItself(s: State, step: Step) {
    (step.RunEnds? && s.producer == Pulling) || GivesUpOnClient(s, step)
  }

  ghost predicate EndedItself(s: State, steps: seq<Step>) {
    exists i :: 0 <= i < |steps| && EndsItself(Exec(s, steps[..i]), steps[i])
  }

  lemma EndedSnoc(s: State, steps: seq<Step>, step: Step)
    ensures EndedItself(s, steps + [step]) <==> EndedItself(s, steps) || EndsItself(Exec(s, steps), step)
  {
    var more := steps + [step];
    assert more[..|steps|] == steps && more[|steps|] == step;
    forall i | 0 <= i < |steps| ensures more[..i] == steps[..i] && more[i] == steps[i] {
    }
  }

  /** As long as the consumer loops the producer is gone only if it went itself, and the tail is reached only then, or
      for a client that is gone. */
  ghost predicate WaitsForTheRun(s: State, ended: bool, clientGone: bool) {
    && (Looping(s.consumer) ==> (s.producer == Gone <==> ended))
    && (!Looping(s.consumer) ==> s.producer == Gone)
    && (s.consumer == Tail ==> ended || clientGone)
  }

  lemma HandleWaits(s: State, ended: bool)
    requires Delivery(s) && Looping(s.consumer) && WaitsForTheRun(s, ended, false) && s.queue != []
    ensures WaitsForTheRun(Handle(s), ended, false)
  {
    assert s.queue[0] == End ==> s.producer == Gone;
  }

  lemma ConsumerWaits(s: State, step: Step, ended: bool)
    requires Delivery(s) && Looping(s.consumer) && WaitsForTheRun(s, ended, false)
    ensures WaitsForTheRun(ConsumerStep(s, step), ended, FindsClientGone(s, step))
  {
    if TakesItem(s, step) {
      assert ConsumerStep(s, step) == Handle(s);
      HandleWaits(s, ended);
    }
  }

  lemma StepWaits(s: State, step: Step, ended: bool, clientGone: bool)
    requires Delivery(s) && WaitsForTheRun(s, ended, clientGone) && (Looping(s.consumer) ==> !clientGone)
    ensures WaitsForTheRun(Next(s, step), ended || EndsItself(s, step), clientGone || FindsClientGone(s, step))
  {
    if Looping(s.consumer) { ConsumerWaits(s, step, ended); }
  }

  /** The response does not cut a run short: in its tail the run was over, or given up by the producer, unless the
      client was found gone. */
  lemma {:induction false} TailWaitsForTheRun(bound: nat, mode: Mode, keyed: bool, steps: seq<Step>)
    ensures var s0 := Init(bound, mode, keyed);
      WaitsForTheRun(Exec(s0, steps), EndedItself(s0, steps), ClientGone(s0, steps))
    decreases |steps|
  {
    if steps != [] {
      var s0, front, last := Init(bound, mode, keyed), steps[..|steps| - 1], steps[|steps| - 1];
      assert steps == front + [last];
      TailWaitsForTheRun(bound, mode, keyed, front);
      TailTellsWhy(bound, mode, keyed, front);
      ExecKeepsInvariant(bound, mode, keyed, front);
      EndedSnoc(s0, front, last);
      ReasonsSnoc(s0, front, last);
      StepWaits(Exec(s0, front), last, EndedItself(s0, front), ClientGone(s0, front));
    }
  }

  // ---- a slow client ----

  lemma SlowStepSends(s: State, step: Step)
    requires s.slow
    ensures var t := Next(s, step);
      && t.slow
      && (s.consumer.Sending? ==> t.consumer == s.consumer || !Looping(t.consumer))
      && (!Looping(s.consumer) ==> !Looping(t.consumer))
      && |ChunkOf(s, t)| == if !s.consumer.Sending? && t.consumer.Sending? then 1 else 0
  {
    SlowHandle(s);
  }

  lemma SlowHandle(s: State)
    requires s.slow
    ensures s.queue != [] ==> Handle(s).slow
  {
  }

  /** Once the slow-consumer flag is up at most one more chunk goes out, none if one is being sent. */
  lemma {:induction false} SlowClientGetsOneMore(s: State, more: seq<Step>)
    requires s.slow
    ensures var t := Exec(s, more);
      && t.slow && |SentIn(s, more)| <= (if s.consumer.Sending? then 0 else 1)
      && (s.consumer.Sending? || SentIn(s, more) != [] ==> t.consumer.Sending? || !Looping(t.consumer))
    decreases |more|
  {
    if more != [] {
      var front := more[..|more| - 1];
      SlowClientGetsOneMore(s, front);
      SlowStepSends(Exec(s, front), more[|more| - 1]);
    }
  }

  // ---- which runs can be delivered in full ----

  /** A response at the top of its loop that has shown `done` and waits for more. */
  function Shows(bound: nat, mode: Mode, done: seq<Event>): State {
    State(bound, mode, Pulling, false, [], AtTop, TextOf(done), false, None, InProgress, done, done, [], |done|, 0)
  }

  lemma ExecFour(s: State, a: Step, b: Step, c: Step, d: Step)
    ensures Exec(s, [a, b, c, d]) == Next(Next(Next(Next(s, a), b), c), d)
  {
    ExecThree(s, a, b, c);
    ExecSnoc(s, [a, b, c], d);
    assert [a, b, c] + [d] == [a, b, c, d];
  }

  lemma OneEventShown(bound: nat, mode: Mode, done: seq<Event>, e: Event)
    requires bound >= 1 && !e.ApprovalRequired?
    ensures Exec(Shows(bound, mode, done), [RunYields(e), Poll(false), GetNow, ChunkSent]) ==
      Shows(bound, mode, done + [e])
  {
    var s := Shows(bound, mode, done);
    ExecFour(s, RunYields(e), Poll(false), GetNow, ChunkSent);
    OneEventTaken(bound, mode, done, e);
  }

  lemma OneEventTaken(bound: nat, mode: Mode, done: seq<Event>, e: Event)
    requires bound >= 1
    ensures Next(Next(Next(Shows(bound, mode, done), RunYields(e)), Poll(false)), GetNow) ==
      Shows(bound, mode, done + [e]).(consumer := if Shown(mode, e) then Sending(e) else AtTop)
  {
    OneEventYielded(bound, mode, done, e);
    OneEventHandled(bound, mode, done, e);
  }

  /** The event is in the queue and the client is there. */
  function Yielded(bound: nat, mode: Mode, done: seq<Event>, e: Event): State {
    State(bound, mode, Pulling, false, [Ev(e)], Polled, TextOf(done), false, None, InProgress,
          done + [e], done, [], |done| + 1, 0)
  }

  lemma OneEventYielded(bound: nat, mode: Mode, done: seq<Event>, e: Event)
    requires bound >= 1
    ensures Next(Next(Shows(bound, mode, done), RunYields(e)), Poll(false)) == Yielded(bound, mode, done, e)
  {
  }

  lemma OneEventHandled(bound: nat, mode: Mode, done: seq<Event>, e: Event)
    ensures Next(Yielded(bound, mode, done, e), GetNow) ==
      Shows(bound, mode, done + [e]).(consumer := if Shown(mode, e) then Sending(e) else AtTop)
  {
    TextOfSnoc(done, e);
    HandleOnly(Yielded(bound, mode, done, e), e);
  }

  /** The one event of the queue, taken by a consumer that nobody is too slow for. */
  lemma HandleOnly(s: State, e: Event)
    requires s.queue == [Ev(e)] && !s.slow
    ensures Handle(s) ==
      s.(queue := [], consumed := s.consumed + [e], text := s.text + (if e.Text? then e.text else ""),
         consumer := if Shown(s.mode, e) then Sending(e) else AtTop)
  {
    assert s.queue[1..] == [] && s.text + "" == s.text;
  }

  lemma OneMoreRound(bound: nat, mode: Mode, before: seq<Step>, done: seq<Event>, e: Event)
    requires bound >= 1 && !e.ApprovalRequired? && Exec(Init(bound, mode, true), before) == Shows(bound, mode, done)
    ensures Exec(Init(bound, mode, true), before + [RunYields(e), Poll(false), GetNow, ChunkSent]) ==
      Shows(bound, mode, done + [e])
  {
    OneEventShown(bound, mode, done, e);
    ExecConcat(Init(bound, mode, true), before, [RunYields(e), Poll(false), GetNow, ChunkSent]);
  }

  ghost predicate NoApproval(events: seq<Event>) { forall e :: e in events ==> !e.ApprovalRequired? }

  lemma NoApprovalSnoc(events: seq<Event>, e: Event)
    ensures NoApproval(events + [e]) <==> NoApproval(events) && !e.ApprovalRequired?
  {
    assert e in events + [e] && forall x :: x in events ==> x in events + [e];
  }

  lemma {:induction false} EventsCanBeShown(bound: nat, mode: Mode, events: seq<Event>) returns (steps: seq<Step>)
    requires bound >= 1 && NoApproval(events)
    ensures Exec(Init(bound, mode, true), steps) == Shows(bound, mode, events)
    decreases |events|
  {
    if events == [] {
      steps := [];
      NothingShown(bound, mode);
    } else {
      var front, last := events[..|events| - 1], events[|events| - 1];
      assert events == front + [last];
      NoApprovalSnoc(front, last);
      var before := EventsCanBeShown(bound, mode, front);
      OneMoreRound(bound, mode, before, front, last);
      steps := before + [RunYields(last), Poll(false), GetNow, ChunkSent];
    }
  }

  lemma NothingShown(bound: nat, mode: Mode)
    ensures Exec(Init(bound, mode, true), []) == Shows(bound, mode, [])
  {
  }

  lemma LastRoundCompletes(bound: nat, mode: Mode, done: seq<Event>)
    requires bound >= 1
    ensures var s := Exec(Shows(bound, mode, done), [RunEnds, Poll(false), GetNow, TailSent]);
      s.yielded == s.consumed == done && s.record == Completed(TextOf(done)) && s.cancel == None
  {
    ExecFour(Shows(bound, mode, done), RunEnds, Poll(false), GetNow, TailSent);
  }

  /** An approval that was taken from the queue is the last event taken, and the response never completes. */
  ghost predicate ApprovalEnds(s: State) {
    && (Looping(s.consumer) ==> !s.completed)
    && forall i :: 0 <= i < |s.consumed| && s.consumed[i].ApprovalRequired? ==>
         && i == |s.consumed| - 1 && !s.completed
         && (s.consumer == Sending(s.consumed[i]) || s.consumer == Stopped)
  }

  lemma StepKeepsApprovalEnds(s: State, step: Step)
    requires ApprovalEnds(s)
    ensures ApprovalEnds(Next(s, step))
  {
    if TakesItem(s, step) {
      assert Next(s, step) == Handle(s);
      HandleKeepsApprovalEnds(s);
    } else {
      OtherStepsKeepApprovalEnds(s, step);
    }
  }

  lemma HandleKeepsApprovalEnds(s: State)
    requires ApprovalEnds(s) && s.queue != [] && (s.consumer == Polled || s.consumer == Blocked)
    ensures ApprovalEnds(Handle(s))
  {
    assert forall i :: 0 <= i < |s.consumed| ==> !s.consumed[i].ApprovalRequired?;
    if s.queue[0].Ev? {
      EventsDoNotComplete(s);
      HandleShows(s);
    }
  }

  lemma OtherStepsKeepApprovalEnds(s: State, step: Step)
    requires ApprovalEnds(s) && !TakesItem(s, step)
    ensures ApprovalEnds(Next(s, step))
  {
    OtherStepsShowNothing(s, step);
    StepCompletes(s, step);
  }

  lemma {:induction false} ApprovalAlwaysEnds(bound: nat, mode: Mode, keyed: bool, steps: seq<Step>)
    ensures ApprovalEnds(Exec(Init(bound, mode, keyed), steps))
    decreases |steps|
  {
    if steps != [] {
      ApprovalAlwaysEnds(bound, mode, keyed, steps[..|steps| - 1]);
      StepKeepsApprovalEnds(Exec(Init(bound, mode, keyed), steps[..|steps| - 1]), steps[|steps| - 1]);
    }
  }

  ghost predicate DeliversInFull(s: State, events: seq<Event>) {
    s.yielded == events && s.record == Completed(TextOf(events))
  }

  /** Exactly the runs that ask for no approval can be delivered in full, whatever the mode and the size of the queue.
      */
  lemma DeliverableExactly(bound: nat, mode: Mode, events: seq<Event>)
    requires bound >= 1
    ensures (exists steps :: DeliversInFull(Exec(Init(bound, mode, true), steps), events)) <==>
      NoApproval(events)
  {
    if NoApproval(events) {
      var front := EventsCanBeShown(bound, mode, events);
      var last := [RunEnds, Poll(false), GetNow, TailSent];
      LastRoundCompletes(bound, mode, events);
      ExecConcat(Init(bound, mode, true), front, last);
      assert DeliversInFull(Exec(Init(bound, mode, true), front + last), events);
    }
    forall steps | DeliversInFull(Exec(Init(bound, mode, true), steps), events)
      ensures NoApproval(events)
    {
      ApprovalAlwaysEnds(bound, mode, true, steps);
      RecordFollowsTheMarker(bound, mode, steps);
    }
  }
}
