/**
 Streaming delivery: a producer drives the run into a bounded queue, the response generator consumes it, either
 side may give up. A step is what one side does between two suspension points; steps interleave freely, and the
 response generator may be closed at any of its own.
 */
module StreamProtocol {
  import opened Basics

  datatype Mode = TextOnly | Events | Debug

  datatype Event =
    | Text(text: string) | Iteration | ApprovalRequired | RagDegraded | AgentTransfer
    | ToolCall | ToolResult | RunError | Finished

  /** Events that the loop passes over without looking at the slow-consumer flag. */
  predicate Skipped(mode: Mode, e: Event) {
    || (e.Iteration? && mode != Debug)
    || ((e.RagDegraded? || e.AgentTransfer? || e.ToolCall?) && mode == TextOnly)
  }

  /** Events that put no chunk on the wire. */
  predicate Silent(e: Event) { e.ToolResult? || e.Finished? }

  datatype Item = Ev(event: Event) | End

  datatype Producer = Pulling | Waiting(event: Event) | Gone

  datatype Consumer = AtTop | Polled | Blocked | Sending(event: Event) | Tail | Stopped

  datatype Cancel = Disconnected | SlowConsumer

  datatype Record = NoKey | InProgress | Expired | Completed(text: string)

  /**
   `yielded`, `dropped`, `polls` and `budget` are history: what the run yielded, the event that never got into the
   queue, the iterations begun, and the most that may begin, fixed when the producer goes.
   */
  datatype State = State(
    bound: nat, mode: Mode,
    producer: Producer, slow: bool, queue: seq<Item>,
    consumer: Consumer, text: string, completed: bool, cancel: Option<Cancel>, record: Record,
    yielded: seq<Event>, consumed: seq<Event>, dropped: seq<Event>, polls: nat, budget: nat)

  function Init(bound: nat, mode: Mode, keyed: bool): State {
    State(bound, mode, Pulling, false, [], AtTop, "", false, None, if keyed then InProgress else NoKey,
          [], [], [], 0, 0)
  }

  datatype Step =
    | RunYields(event: Event) | PutWakes | PutTimesOut | RunEnds
    | Poll(disconnected: bool) | GetNow | GetWakes | GetTimesOut | ChunkSent | GeneratorClosed | TailSent

  // ---- the producer ----

  /** The last thing the producer does, on every path: put the end marker if there is room, and go. */
  function ProducerGoes(s: State, dropped: seq<Event>): State {
    var queue := if |s.queue| < s.bound then s.queue + [End] else s.queue;
    s.(producer := Gone, queue := queue, dropped := dropped, budget := s.polls + |queue| + 1)
  }

  function ProducerStep(s: State, step: Step): State {
    match (step, s.producer)
    case (RunYields(e), Pulling) =>
      var s1 := s.(yielded := s.yielded + [e]);
      if |s.queue| < s.bound then s1.(queue := s.queue + [Ev(e)]) else s1.(producer := Waiting(e))
    case (PutWakes, Waiting(e)) =>
      if |s.queue| < s.bound then s.(queue := s.queue + [Ev(e)], producer := Pulling) else s
    case (PutTimesOut, Waiting(e)) => ProducerGoes(s.(slow := true), [e])
    case (RunEnds, Pulling) => ProducerGoes(s, [])
    case _ => s
  }

  // ---- the consumer ----

  /** The finally block: cancel a producer that is still there, release the record unless the end was reached. */
  function Finally(s: State, next: Consumer): State {
    var s1 :=
      match s.producer
      case Gone => s
      case Pulling => ProducerGoes(s, [])
      case Waiting(e) => ProducerGoes(s, [e]);
    s1.(consumer := next, record := if s.record == InProgress && !s.completed then Expired else s.record)
  }

  function CheckSlow(s: State): State {
    if s.slow then Finally(s.(cancel := Some(SlowConsumer)), Tail) else s.(consumer := AtTop)
  }

  function Handle(s: State): State
    requires s.queue != []
  {
    var s1 := s.(queue := s.queue[1..]);
    match s.queue[0]
    case End =>
      if s.slow then Finally(s1.(cancel := Some(SlowConsumer)), Tail) else Finally(s1.(completed := true), Tail)
    case Ev(e) =>
      var s2 := s1.(consumed := s.consumed + [e], text := if e.Text? then s.text + e.text else s.text);
      if Skipped(s.mode, e) then s2.(consumer := AtTop)
      else if Silent(e) then CheckSlow(s2)
      else s2.(consumer := Sending(e))
  }

  function ConsumerStep(s: State, step: Step): State {
    match (step, s.consumer)
    case (Poll(disconnected), AtTop) =>
      var s1 := s.(polls := s.polls + 1);
      if disconnected then Finally(s1.(cancel := Some(Disconnected)), Tail) else s1.(consumer := Polled)
    case (GetNow, Polled) => if s.queue != [] then Handle(s) else s.(consumer := Blocked)
    case (GetWakes, Blocked) => if s.queue != [] then Handle(s) else s
    case (GetTimesOut, Blocked) =>
      if s.producer == Gone && s.queue == []
      then Finally(s.(cancel := if s.slow then Some(SlowConsumer) else s.cancel), Tail)
      else s.(consumer := AtTop)
    case (ChunkSent, Sending(e)) => if e.ApprovalRequired? then Finally(s, Stopped) else CheckSlow(s)
    case (GeneratorClosed, Tail) => s.(consumer := Stopped)
    case (GeneratorClosed, Stopped) => s
    case (GeneratorClosed, _) => Finally(s, Stopped)
    case (TailSent, Tail) =>
      s.(consumer := Stopped, record := if s.record == InProgress && s.completed then Completed(s.text) else s.record)
    case _ => s
  }

  function Next(s: State, step: Step): State {
    if step.RunYields? || step.PutWakes? || step.PutTimesOut? || step.RunEnds? then ProducerStep(s, step)
    else ConsumerStep(s, step)
  }

  function Exec(s: State, steps: seq<Step>): State {
    if steps == [] then s else Next(Exec(s, steps[..|steps| - 1]), steps[|steps| - 1])
  }

  lemma ExecSnoc(s: State, steps: seq<Step>, step: Step)
    ensures Exec(s, steps + [step]) == Next(Exec(s, steps), step)
  {
    assert (steps + [step])[..|steps|] == steps;
  }

  // ---- the invariant ----

  predicate Looping(c: Consumer) { !c.Tail? && !c.Stopped? }

  function EventsIn(queue: seq<Item>): seq<Event> {
    if queue == [] then []
    else EventsIn(queue[..|queue| - 1]) + match queue[|queue| - 1] case Ev(e) => [e] case End => []
  }

  function TextOf(events: seq<Event>): string {
    if events == [] then ""
    else TextOf(events[..|events| - 1]) + match events[|events| - 1] case Text(t) => t case _ => ""
  }

  function Unqueued(s: State): seq<Event> {
    if s.producer.Waiting? then [s.producer.event] else s.dropped
  }

  /** Delivery: nothing is lost, doubled or reordered on the way through the queue. */
  ghost predicate Delivery(s: State) {
    && s.consumed + EventsIn(s.queue) + Unqueued(s) == s.yielded
    && |s.queue| <= s.bound
    && (forall i :: 0 <= i < |s.queue| && s.queue[i] == End ==> i == |s.queue| - 1 && s.producer == Gone)
    && (s.producer != Gone ==> s.dropped == [] && !s.slow)
    && (s.dropped != [] && Looping(s.consumer) ==> s.slow)
    && s.text == TextOf(s.consumed)
  }

  /** The record follows the end marker. */
  ghost predicate Recording(s: State) {
    && (s.completed ==>
          && s.producer == Gone && s.consumed == s.yielded && s.dropped == [] && !s.slow && !Looping(s.consumer))
    && (!Looping(s.consumer) ==> s.producer == Gone)
    && (Looping(s.consumer) ==> s.record == NoKey || s.record == InProgress)
    && (!Looping(s.consumer) && !s.completed ==> s.record == NoKey || s.record == Expired)
    && (s.consumer == Tail && s.completed ==> s.record == NoKey || s.record == InProgress)
    && (s.consumer == Stopped && s.completed ==>
          s.record == NoKey || s.record == InProgress || s.record == Completed(s.text))
  }

  /** How far the iterations begun are from the most that may begin, once the producer is gone. */
  ghost predicate Counting(s: State) {
    s.producer == Gone && Looping(s.consumer) ==>
      if s.consumer.Polled? || (s.consumer.Blocked? && s.queue == []) then s.polls + |s.queue| <= s.budget
      else s.polls + |s.queue| + 1 <= s.budget
  }

  ghost predicate Invariant(s: State) { Delivery(s) && Recording(s) && Counting(s) }

  lemma {:induction false} EventsInCons(queue: seq<Item>)
    requires queue != []
    ensures EventsIn(queue) == (match queue[0] case Ev(e) => [e] case End => []) + EventsIn(queue[1..])
    decreases |queue|
  {
    if |queue| > 1 {
      EventsInCons(queue[..|queue| - 1]);
      assert queue[..|queue| - 1][1..] == queue[1..][..|queue| - 2];
    }
  }

  lemma EventsInSnoc(queue: seq<Item>, item: Item)
    ensures EventsIn(queue + [item]) == EventsIn(queue) + match item case Ev(e) => [e] case End => []
  {
    assert (queue + [item])[..|queue|] == queue;
  }

  lemma TextOfSnoc(events: seq<Event>, e: Event)
    ensures TextOf(events + [e]) == TextOf(events) + if e.Text? then e.text else ""
  {
    assert (events + [e])[..|events|] == events;
  }

  lemma EnqueueKeepsDelivery(s: State, e: Event, s': State)
    requires Delivery(s) && s.producer != Gone && |s.queue| < s.bound
    requires s' == s.(queue := s.queue + [Ev(e)], producer := Pulling, yielded := s'.yielded)
    requires s'.yielded == if s.producer.Waiting? then s.yielded else s.yielded + [e]
    requires s.producer.Waiting? ==> e == s.producer.event
    ensures Delivery(s')
  {
    EventsInSnoc(s.queue, Ev(e));
  }

  lemma GoingKeepsDelivery(s: State, s': State, dropped: seq<Event>)
    requires Delivery(s) && s.producer != Gone && dropped == Unqueued(s)
    requires s' == ProducerGoes(s, dropped).(slow := s'.slow)
    requires dropped != [] && Looping(s.consumer) ==> s'.slow
    ensures Delivery(s')
  {
    EventsInSnoc(s.queue, End);
  }

  lemma GoingKeepsInvariant(s: State, s': State, dropped: seq<Event>)
    requires Invariant(s) && s.producer != Gone && dropped == Unqueued(s)
    requires s' == ProducerGoes(s, dropped).(slow := s'.slow)
    requires dropped != [] && Looping(s.consumer) ==> s'.slow
    ensures Invariant(s')
  {
    GoingKeepsDelivery(s, s', dropped);
  }

  lemma ProducerKeepsInvariant(s: State, step: Step)
    requires Invariant(s)
    ensures Invariant(ProducerStep(s, step))
  {
    var s' := ProducerStep(s, step);
    match (step, s.producer)
    case (RunYields(e), Pulling) =>
      if |s.queue| < s.bound {
        EnqueueKeepsDelivery(s, e, s');
      }
    case (PutWakes, Waiting(e)) =>
      if |s.queue| < s.bound {
        EnqueueKeepsDelivery(s, e, s');
      }
    case (PutTimesOut, Waiting(e)) => GoingKeepsInvariant(s, s', [e]);
    case (RunEnds, Pulling) => GoingKeepsInvariant(s, s', []);
    case _ =>
  }

  /** What the finally block needs: the record is still open, and a completed stream has everything. */
  ghost predicate ReadyToStop(s: State) {
    && Delivery(s)
    && (s.record == NoKey || s.record == InProgress)
    && (s.completed ==> s.producer == Gone && s.consumed == s.yielded && s.dropped == [] && !s.slow)
  }

  lemma FinallyKeepsInvariant(s: State, next: Consumer)
    requires ReadyToStop(s) && Looping(s.consumer) && !Looping(next)
    ensures Invariant(Finally(s, next))
  {
    if s.producer != Gone {
      EventsInSnoc(s.queue, End);
    }
  }

  lemma CheckSlowKeepsInvariant(s: State)
    requires ReadyToStop(s) && Looping(s.consumer) && !s.completed
    requires s.producer == Gone ==> s.polls + |s.queue| + 1 <= s.budget
    ensures Invariant(CheckSlow(s))
  {
    if s.slow {
      FinallyKeepsInvariant(s.(cancel := Some(SlowConsumer)), Tail);
    }
  }

  lemma Regroup(a: seq<Event>, b: seq<Event>, c: seq<Event>, d: seq<Event>)
    ensures a + (b + c) + d == (a + b) + c + d
  {
  }

  lemma TakeEvent(s: State, e: Event)
    requires Invariant(s) && Looping(s.consumer) && s.queue != [] && s.queue[0] == Ev(e)
    ensures ReadyToStop(s.(queue := s.queue[1..], consumed := s.consumed + [e],
                           text := if e.Text? then s.text + e.text else s.text))
  {
    EventsInCons(s.queue);
    TextOfSnoc(s.consumed, e);
    Regroup(s.consumed, [e], EventsIn(s.queue[1..]), Unqueued(s));
    assert forall i :: 0 <= i < |s.queue[1..]| ==> s.queue[1..][i] == s.queue[i + 1];
  }

  lemma HandleEventKeepsInvariant(s: State, e: Event)
    requires Invariant(s) && Looping(s.consumer) && s.queue != [] && s.queue[0] == Ev(e)
    requires s.producer == Gone ==> s.polls + |s.queue| <= s.budget
    ensures Invariant(Handle(s))
  {
    TakeEvent(s, e);
    var s2 := s.(queue := s.queue[1..], consumed := s.consumed + [e],
                  text := if e.Text? then s.text + e.text else s.text);
    if !Skipped(s.mode, e) && Silent(e) {
      CheckSlowKeepsInvariant(s2);
    }
  }

  lemma HandleEndKeepsInvariant(s: State)
    requires Invariant(s) && Looping(s.consumer) && s.queue != [] && s.queue[0] == End
    ensures Invariant(Handle(s))
  {
    assert |s.queue| == 1 && s.queue[1..] == [];
    EventsInCons(s.queue);
    var s1 := s.(queue := []);
    assert s.consumed + [] + s.dropped == s.yielded;
    if s.slow {
      FinallyKeepsInvariant(s1.(cancel := Some(SlowConsumer)), Tail);
    } else {
      FinallyKeepsInvariant(s1.(completed := true), Tail);
    }
  }

  lemma HandleKeepsInvariant(s: State)
    requires Invariant(s) && Looping(s.consumer) && s.queue != []
    requires s.producer == Gone ==> s.polls + |s.queue| <= s.budget
    ensures Invariant(Handle(s))
  {
    match s.queue[0]
    case End => HandleEndKeepsInvariant(s);
    case Ev(e) => HandleEventKeepsInvariant(s, e);
  }

  lemma MoveKeepsInvariant(s: State, polls: nat, c: Consumer)
    requires Invariant(s) && Looping(s.consumer) && Looping(c)
    requires Counting(s.(polls := polls, consumer := c))
    ensures Invariant(s.(polls := polls, consumer := c))
  {
  }

  lemma PollKeepsInvariant(s: State, disconnected: bool)
    requires Invariant(s) && s.consumer.AtTop?
    ensures Invariant(ConsumerStep(s, Poll(disconnected)))
  {
    if disconnected {
      FinallyKeepsInvariant(s.(polls := s.polls + 1, cancel := Some(Disconnected)), Tail);
    } else {
      MoveKeepsInvariant(s, s.polls + 1, Polled);
    }
  }

  lemma TimeoutKeepsInvariant(s: State)
    requires Invariant(s) && s.consumer.Blocked?
    ensures Invariant(ConsumerStep(s, GetTimesOut))
  {
    if s.producer == Gone && s.queue == [] {
      FinallyKeepsInvariant(s.(cancel := if s.slow then Some(SlowConsumer) else s.cancel), Tail);
    } else {
      MoveKeepsInvariant(s, s.polls, AtTop);
    }
  }

  lemma ChunkKeepsInvariant(s: State)
    requires Invariant(s) && s.consumer.Sending?
    ensures Invariant(ConsumerStep(s, ChunkSent))
  {
    if s.consumer.event.ApprovalRequired? {
      FinallyKeepsInvariant(s, Stopped);
    } else {
      CheckSlowKeepsInvariant(s);
    }
  }

  lemma TailKeepsInvariant(s: State, step: Step)
    requires Invariant(s) && !Looping(s.consumer)
    ensures Invariant(ConsumerStep(s, step))
  {
  }

  lemma ConsumerKeepsInvariant(s: State, step: Step)
    requires Invariant(s)
    ensures Invariant(ConsumerStep(s, step))
  {
    if !Looping(s.consumer) {
      TailKeepsInvariant(s, step);
    } else if step.GeneratorClosed? {
      FinallyKeepsInvariant(s, Stopped);
    } else if step.Poll? && s.consumer.AtTop? {
      PollKeepsInvariant(s, step.disconnected);
    } else if step.GetNow? && s.consumer.Polled? && s.queue == [] {
      MoveKeepsInvariant(s, s.polls, Blocked);
    } else if (step.GetNow? && s.consumer.Polled?) || (step.GetWakes? && s.consumer.Blocked? && s.queue != []) {
      HandleKeepsInvariant(s);
    } else if step.GetTimesOut? && s.consumer.Blocked? {
      TimeoutKeepsInvariant(s);
    } else if step.ChunkSent? && s.consumer.Sending? {
      ChunkKeepsInvariant(s);
    } else {
      assert ConsumerStep(s, step) == s;
    }
  }

  lemma {:induction false} ExecKeepsInvariant(bound: nat, mode: Mode, keyed: bool, steps: seq<Step>)
    ensures Invariant(Exec(Init(bound, mode, keyed), steps))
    decreases |steps|
  {
    if steps != [] {
      var before := Exec(Init(bound, mode, keyed), steps[..|steps| - 1]);
      ExecKeepsInvariant(bound, mode, keyed, steps[..|steps| - 1]);
      NextKeepsInvariant(before, steps[|steps| - 1]);
    }
  }

  // ---- what holds after every interleaving ----

  /** What the consumer has taken is a prefix of what the run yielded, and the queue is never over its bound. */
  lemma ConsumedIsPrefix(bound: nat, mode: Mode, keyed: bool, steps: seq<Step>)
    ensures var s := Exec(Init(bound, mode, keyed), steps);
      s.consumed <= s.yielded && |s.queue| <= bound
  {
    ExecKeepsInvariant(bound, mode, keyed, steps);
    ExecKeepsBound(bound, mode, keyed, steps);
  }

  ghost predicate SameSetting(s: State, s': State) {
    s'.bound == s.bound && (s'.record == NoKey <==> s.record == NoKey)
  }

  lemma FinallyFrame(s: State, next: Consumer)
    ensures SameSetting(s, Finally(s, next)) && Finally(s, next).consumer == next && Finally(s, next).producer == Gone
    ensures s.producer == Gone ==> Finally(s, next).budget == s.budget
  {
  }

  lemma CheckSlowFrame(s: State)
    ensures SameSetting(s, CheckSlow(s))
    ensures s.producer == Gone ==> CheckSlow(s).producer == Gone && CheckSlow(s).budget == s.budget
    ensures Looping(CheckSlow(s).consumer) ==> CheckSlow(s) == s.(consumer := AtTop)
  {
    if s.slow { FinallyFrame(s.(cancel := Some(SlowConsumer)), Tail); }
  }

  lemma HandleEndFrame(s: State)
    requires s.queue != [] && s.queue[0] == End
    ensures SameSetting(s, Handle(s)) && !Looping(Handle(s).consumer)
    ensures s.producer == Gone ==> Handle(s).producer == Gone && Handle(s).budget == s.budget
  {
    var s1 := s.(queue := s.queue[1..]);
    if s.slow {
      FinallyFrame(s1.(cancel := Some(SlowConsumer)), Tail);
    } else {
      FinallyFrame(s1.(completed := true), Tail);
    }
  }

  lemma HandleEventFrame(s: State, e: Event)
    requires s.queue != [] && s.queue[0] == Ev(e)
    ensures SameSetting(s, Handle(s))
    ensures s.producer == Gone ==> Handle(s).producer == Gone && Handle(s).budget == s.budget
    ensures Looping(Handle(s).consumer) ==>
      && (Handle(s).consumer.AtTop? || Handle(s).consumer.Sending?)
      && Handle(s).polls == s.polls && |Handle(s).queue| == |s.queue| - 1
  {
    var s2 := s.(queue := s.queue[1..], consumed := s.consumed + [e],
                  text := if e.Text? then s.text + e.text else s.text);
    if !Skipped(s.mode, e) && Silent(e) { CheckSlowFrame(s2); }
  }

  lemma HandleFrame(s: State)
    requires s.queue != []
    ensures SameSetting(s, Handle(s))
    ensures s.producer == Gone ==> Handle(s).producer == Gone && Handle(s).budget == s.budget
    ensures Looping(Handle(s).consumer) ==>
      && (Handle(s).consumer.AtTop? || Handle(s).consumer.Sending?)
      && Handle(s).polls == s.polls && |Handle(s).queue| == |s.queue| - 1
  {
    match s.queue[0]
    case End => HandleEndFrame(s);
    case Ev(e) => HandleEventFrame(s, e);
  }

  lemma ProducerFrame(s: State, step: Step)
    ensures SameSetting(s, ProducerStep(s, step))
    ensures s.producer == Gone ==> ProducerStep(s, step) == s
  {
  }

  lemma ConsumerFrame(s: State, step: Step)
    ensures SameSetting(s, ConsumerStep(s, step))
    ensures s.producer == Gone ==> ConsumerStep(s, step).producer == Gone && ConsumerStep(s, step).budget == s.budget
  {
    if step.GeneratorClosed? {
      FinallyFrame(s, Stopped);
    } else if step.Poll? {
      FinallyFrame(s.(polls := s.polls + 1, cancel := Some(Disconnected)), Tail);
    } else if step.GetNow? || step.GetWakes? {
      if s.queue != [] { HandleFrame(s); }
    } else if step.GetTimesOut? {
      FinallyFrame(s.(cancel := if s.slow then Some(SlowConsumer) else s.cancel), Tail);
    } else if step.ChunkSent? {
      FinallyFrame(s, Stopped);
      CheckSlowFrame(s);
    }
  }

  lemma NextFrame(s: State, step: Step)
    ensures SameSetting(s, Next(s, step))
    ensures s.producer == Gone ==> Next(s, step).producer == Gone && Next(s, step).budget == s.budget
  {
    ProducerFrame(s, step);
    ConsumerFrame(s, step);
  }

  lemma {:induction false} ExecKeepsBound(bound: nat, mode: Mode, keyed: bool, steps: seq<Step>)
    ensures Exec(Init(bound, mode, keyed), steps).bound == bound
    ensures Exec(Init(bound, mode, keyed), steps).record == NoKey <==> !keyed
    decreases |steps|
  {
    if steps != [] {
      ExecKeepsBound(bound, mode, keyed, steps[..|steps| - 1]);
      NextFrame(Exec(Init(bound, mode, keyed), steps[..|steps| - 1]), steps[|steps| - 1]);
    }
  }

  /**
   The idempotency record: it is completed only when the end marker was reached and the tail sent, and then it holds the
   whole text of everything the run yielded; it is expired on every exit that did not reach the marker.
   */
  lemma RecordFollowsTheMarker(bound: nat, mode: Mode, steps: seq<Step>)
    ensures var s := Exec(Init(bound, mode, true), steps);
      && (s.record.Completed? ==>
            s.completed && s.consumer == Stopped && s.consumed == s.yielded && s.record == Completed(TextOf(s.yielded)))
      && (s.completed ==> s.consumed == s.yielded && s.producer == Gone)
      && (s.consumer == Stopped ==>
            && (s.record == Expired <==> !s.completed)
            && (s.record.Completed? || s.record == InProgress <==> s.completed))
      && (Looping(s.consumer) ==> s.record == InProgress)
  {
    ExecKeepsInvariant(bound, mode, true, steps);
    ExecKeepsBound(bound, mode, true, steps);
  }

  /** The response was closed while its tail was being sent. */
  ghost predicate ClosedInTail(s: State, steps: seq<Step>) {
    exists i :: 0 <= i < |steps| && steps[i].GeneratorClosed? && Exec(s, steps[..i]).consumer == Tail
  }

  lemma ClosedInTailSnoc(s: State, steps: seq<Step>, step: Step)
    ensures ClosedInTail(s, steps + [step]) <==>
      ClosedInTail(s, steps) || (step.GeneratorClosed? && Exec(s, steps).consumer == Tail)
  {
    var more := steps + [step];
    assert more[..|steps|] == steps;
    forall i | 0 <= i < |steps| ensures more[..i] == steps[..i] && more[i] == steps[i] {
    }
  }

  /** What the record says about a tail that was closed or not. */
  ghost predicate TailIsTold(s: State, closedInTail: bool) {
    && (s.consumer == Stopped && s.completed ==> (s.record == InProgress <==> closedInTail))
    && (s.consumer != Stopped ==> !closedInTail)
  }

  lemma StepTellsTail(s: State, step: Step, closedInTail: bool)
    requires Invariant(s) && s.record != NoKey && TailIsTold(s, closedInTail)
    ensures TailIsTold(Next(s, step), closedInTail || (step.GeneratorClosed? && s.consumer == Tail))
  {
    NextKeepsInvariant(s, step);
    if Looping(s.consumer) {
      LeavingTheLoop(s, step);
    }
  }

  lemma LeavingTheLoop(s: State, step: Step)
    requires Invariant(s) && Looping(s.consumer)
    ensures Next(s, step).consumer == Stopped ==> !Next(s, step).completed
  {
  }

  /** A response that reached the end marker leaves its record in progress in just one case: it was closed in its tail.
      Otherwise the record is completed. */
  lemma {:induction false} InProgressOnlyIfClosedInTail(bound: nat, mode: Mode, steps: seq<Step>)
    ensures TailIsTold(Exec(Init(bound, mode, true), steps), ClosedInTail(Init(bound, mode, true), steps))
    decreases |steps|
  {
    if steps != [] {
      var s0, front, last := Init(bound, mode, true), steps[..|steps| - 1], steps[|steps| - 1];
      assert steps == front + [last];
      InProgressOnlyIfClosedInTail(bound, mode, front);
      ClosedInTailSnoc(s0, front, last);
      ExecSnoc(s0, front, last);
      ExecKeepsInvariant(bound, mode, true, front);
      ExecKeepsBound(bound, mode, true, front);
      StepTellsTail(Exec(s0, front), last, ClosedInTail(s0, front));
    }
  }

  /** How many more iterations a state may still begin and, within one, how far it is. */
  function Rank(s: State): int {
    if !Looping(s.consumer) then 0
    else 4 * (s.budget - s.polls) + match s.consumer
      case AtTop => 1
      case Sending(_) => 2
      case Blocked => 3
      case _ => 4
  }

  /** Once the producer is gone, every step that the consumer takes brings it closer to stopping, and from then on
      it begins at most as many iterations as the budget allows: one more than there were items in the queue. */
  lemma ConsumerStopsInTime(s: State, step: Step)
    requires Invariant(s) && s.producer == Gone && Looping(s.consumer)
    ensures var s' := Next(s, step);
      && (s' == s || 0 <= Rank(s') < Rank(s))
      && s'.producer == Gone && s'.budget == s.budget
      && (Looping(s'.consumer) ==> s'.polls <= s.budget)
  {
    var s' := Next(s, step);
    NextFrame(s, step);
    NextKeepsInvariant(s, step);
    ProducerFrame(s, step);
    if step.GeneratorClosed? {
      FinallyFrame(s, Stopped);
    } else if step.Poll? {
      FinallyFrame(s.(polls := s.polls + 1, cancel := Some(Disconnected)), Tail);
    } else if step.GetNow? || step.GetWakes? {
      if s.queue != [] { HandleFrame(s); }
    } else if step.GetTimesOut? {
      FinallyFrame(s.(cancel := if s.slow then Some(SlowConsumer) else s.cancel), Tail);
    } else if step.ChunkSent? {
      FinallyFrame(s, Stopped);
      CheckSlowFrame(s);
    }
  }

  lemma NextKeepsInvariant(s: State, step: Step)
    requires Invariant(s)
    ensures Invariant(Next(s, step))
  {
    ProducerKeepsInvariant(s, step);
    ConsumerKeepsInvariant(s, step);
  }

  /** The consumer is never stuck: whatever the producer does, it has a step of its own to take. */
  lemma ConsumerCanAlwaysMove(s: State)
    requires Looping(s.consumer)
    ensures Next(s, Poll(false)) != s || Next(s, GetNow) != s || Next(s, GetTimesOut) != s || Next(s, ChunkSent) != s
  {
    FinallyFrame(s, Stopped);
    FinallyFrame(s.(cancel := Some(SlowConsumer)), Tail);
    FinallyFrame(s.(cancel := if s.slow then Some(SlowConsumer) else s.cancel), Tail);
    if s.queue != [] { HandleFrame(s); }
  }

  lemma {:induction false} StaysGone(s: State, steps: seq<Step>)
    requires Invariant(s) && s.producer == Gone
    ensures var t := Exec(s, steps); Invariant(t) && t.producer == Gone && t.budget == s.budget
    decreases |steps|
  {
    if steps != [] {
      var n := |steps| - 1;
      StaysGone(s, steps[..n]);
      NextKeepsInvariant(Exec(s, steps[..n]), steps[n]);
      NextFrame(Exec(s, steps[..n]), steps[n]);
    }
  }

  /** The whole bound: from the step with which the producer goes, a consumer that has not stopped has begun at most as
      many further iterations as there were items left in the queue, and one more. */
  lemma ConsumerStopsWithinQueuePlusOne(s: State, step: Step, more: seq<Step>)
    requires Invariant(s) && s.producer != Gone && Next(s, step).producer == Gone
    ensures var g := Next(s, step);
      Looping(Exec(g, more).consumer) ==> Exec(g, more).polls <= g.polls + |g.queue| + 1
  {
    var g := Next(s, step);
    NextKeepsInvariant(s, step);
    StaysGone(g, more);
    if Looping(Exec(g, more).consumer) {
      LoopingBefore(g, more);
      GoingFixesTheBudget(s, step);
      assert Counting(Exec(g, more));
    }
  }

  /** A consumer that is still looping has never stopped. */
  lemma {:induction false} LoopingBefore(s: State, steps: seq<Step>)
    requires Looping(Exec(s, steps).consumer)
    ensures Looping(s.consumer)
    decreases |steps|
  {
    if steps != [] {
      var n := |steps| - 1;
      StoppedStaysStopped(Exec(s, steps[..n]), steps[n]);
      LoopingBefore(s, steps[..n]);
    }
  }

  lemma StoppedStaysStopped(s: State, step: Step)
    ensures !Looping(s.consumer) ==> !Looping(Next(s, step).consumer)
  {
  }

  /** The steps of a run that changed anything. */
  function Moves(s: State, steps: seq<Step>): nat {
    if steps == [] then 0
    else
      var n := |steps| - 1;
      Moves(s, steps[..n]) + if Exec(s, steps) != Exec(s, steps[..n]) then 1 else 0
  }

  /** And so it takes a bounded number of steps, four to an iteration, before it stops; it always has one to take. */
  lemma {:induction false} ConsumerTakesFewSteps(g: State, more: seq<Step>)
    requires Invariant(g) && g.producer == Gone && Looping(Exec(g, more).consumer)
    ensures Moves(g, more) + Rank(Exec(g, more)) <= Rank(g) <= 4 * (g.budget - g.polls) + 4
    decreases |more|
  {
    LoopingBefore(g, more);
    if more != [] {
      var n := |more| - 1;
      var before := Exec(g, more[..n]);
      StaysGone(g, more[..n]);
      StoppedStaysStopped(before, more[n]);
      ConsumerTakesFewSteps(g, more[..n]);
      ConsumerStopsInTime(before, more[n]);
    }
  }

  lemma GoingFixesTheBudget(s: State, step: Step)
    requires s.producer != Gone && Next(s, step).producer == Gone && Looping(Next(s, step).consumer)
    ensures Next(s, step).budget == s.polls + |Next(s, step).queue| + 1
  {
  }

  // ---- a run that ends on a full queue ----

  /** Without the end marker in the queue a stream whose producer is gone never completes. */
  ghost predicate MarkerLost(s: State) {
    s.producer == Gone && End !in s.queue && !s.completed
  }

  lemma FinallyKeepsItLost(s: State, next: Consumer)
    requires MarkerLost(s)
    ensures MarkerLost(Finally(s, next))
  {
  }

  lemma HandleKeepsItLost(s: State)
    requires MarkerLost(s) && s.queue != []
    ensures MarkerLost(Handle(s))
  {
    assert s.queue[0] in s.queue && forall i :: i in s.queue[1..] ==> i in s.queue;
    var e := s.queue[0].event;
    var s2 := s.(queue := s.queue[1..], consumed := s.consumed + [e],
                  text := if e.Text? then s.text + e.text else s.text);
    FinallyKeepsItLost(s2.(cancel := Some(SlowConsumer)), Tail);
  }

  lemma StepKeepsItLost(s: State, step: Step)
    requires MarkerLost(s)
    ensures MarkerLost(Next(s, step))
  {
    ProducerFrame(s, step);
    if step.GetNow? || step.GetWakes? {
      if s.queue != [] { HandleKeepsItLost(s); }
    }
  }

  lemma {:induction false} LostMarkerStaysLost(s: State, steps: seq<Step>)
    requires MarkerLost(s)
    ensures MarkerLost(Exec(s, steps))
    decreases |steps|
  {
    if steps != [] {
      LostMarkerStaysLost(s, steps[..|steps| - 1]);
      StepKeepsItLost(Exec(s, steps[..|steps| - 1]), steps[|steps| - 1]);
    }
  }

  /** When the run ends while the queue is full the marker is dropped: whatever happens next, even if every event
      is delivered, the stream does not count as completed. With room in the queue the marker goes in. */
  lemma EndOnFullQueueNeverCompletes(s: State, steps: seq<Step>)
    requires Delivery(s) && s.producer == Pulling && Looping(s.consumer) && !s.completed
    ensures |s.queue| == s.bound <==> MarkerLost(Next(s, RunEnds))
    ensures |s.queue| == s.bound ==> !Exec(Next(s, RunEnds), steps).completed
  {
    if |s.queue| == s.bound {
      LostMarkerStaysLost(Next(s, RunEnds), steps);
    } else {
      assert Next(s, RunEnds).queue[|s.queue|] == End;
    }
  }

  lemma {:induction false} ExecConcat(s: State, steps: seq<Step>, more: seq<Step>)
    ensures Exec(s, steps + more) == Exec(Exec(s, steps), more)
    decreases |more|
  {
    if more == [] {
      assert steps + more == steps;
    } else {
      var front, last := more[..|more| - 1], more[|more| - 1];
      ExecConcat(s, steps, front);
      assert more == front + [last] && steps + more == (steps + front) + [last];
      ExecSnoc(s, steps + front, last);
      ExecSnoc(Exec(s, steps), front, last);
    }
  }

  lemma ExecThree(s: State, a: Step, b: Step, c: Step)
    ensures Exec(s, [a, b, c]) == Next(Next(Next(s, a), b), c)
  {
    assert Exec(s, []) == s && [] + [a] == [a] && [a] + [b] == [a, b] && [a, b] + [c] == [a, b, c];
    ExecSnoc(s, [], a);
    ExecSnoc(s, [a], b);
    ExecSnoc(s, [a, b], c);
  }

  /** The state of that run after three, six and nine of its steps. */
  function Waypoint(mode: Mode, e: Event, n: nat): State
    requires e.Text?
  {
    if n == 1 then State(1, mode, Gone, false, [Ev(e)], Polled, "", false, None, InProgress, [e], [], [], 1, 2)
    else if n == 2 then State(1, mode, Gone, false, [], Polled, e.text, false, None, InProgress, [e], [e], [], 2, 2)
    else State(1, mode, Gone, false, [], Stopped, e.text, false, None, Expired, [e], [e], [], 2, 2)
  }

  lemma FirstThird(mode: Mode, e: Event)
    requires e.Text?
    ensures Next(Next(Next(Init(1, mode, true), RunYields(e)), RunEnds), Poll(false)) == Waypoint(mode, e, 1)
  {
  }

  lemma SecondThird(mode: Mode, e: Event)
    requires e.Text?
    ensures Next(Next(Next(Waypoint(mode, e, 1), GetNow), ChunkSent), Poll(false)) == Waypoint(mode, e, 2)
  {
  }

  lemma LastThird(mode: Mode, e: Event)
    requires e.Text?
    ensures Next(Next(Next(Waypoint(mode, e, 2), GetNow), GetTimesOut), TailSent) == Waypoint(mode, e, 3)
  {
  }

  /** Such a run, from the start: one piece of text on a queue for one event. It is delivered in full, nobody gives up,
      and the record still expires. */
  lemma DeliveredYetExpired(mode: Mode, text: string) returns (steps: seq<Step>)
    ensures var s := Exec(Init(1, mode, true), steps);
      && s.yielded == [Text(text)] && s.consumed == s.yielded && s.consumer == Stopped && s.cancel == None
      && s.record == Expired
  {
    var s0, e := Init(1, mode, true), Text(text);
    var first, second := [RunYields(e), RunEnds, Poll(false)], [GetNow, ChunkSent, Poll(false)];
    var last := [GetNow, GetTimesOut, TailSent];
    FirstThird(mode, e);
    SecondThird(mode, e);
    LastThird(mode, e);
    ExecThree(s0, RunYields(e), RunEnds, Poll(false));
    ExecThree(Waypoint(mode, e, 1), GetNow, ChunkSent, Poll(false));
    ExecThree(Waypoint(mode, e, 2), GetNow, GetTimesOut, TailSent);
    ExecConcat(s0, first, second);
    ExecConcat(s0, first + second, last);
    steps := first + second + last;
  }
}
