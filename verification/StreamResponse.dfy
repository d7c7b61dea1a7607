/**
 The response generator and its producer as the service runs them: fields and local variables updated between
 suspension points. Every method is proved to take steps of the machine in StreamProtocol.dfy, so a whole response is
 one of its runs; which one is told by what it meets on the way.
 */
module StreamResponse {
  import opened Basics
  import opened StreamOutcomes
  import opened StreamProtocol

  /** What one iteration of the loop meets: the disconnect poll, what the producer does at each suspension, and
      whether the response is closed while a chunk is being sent. */
  datatype Turn = Turn(disconnected: bool, whileWaiting: seq<Step>, whileSending: seq<Step>, closed: bool)

  predicate OfProducer(step: Step) {
    step.RunYields? || step.PutWakes? || step.PutTimesOut? || step.RunEnds?
  }

  function ByProducer(moves: seq<Step>): seq<Step> {
    if moves == [] then []
    else
      var last := moves[|moves| - 1];
      ByProducer(moves[..|moves| - 1]) + if OfProducer(last) then [last] else []
  }

  // ---- the steps of a response, by the turns it meets ----

  /** From the queue, or after a wait in which the producer moves. */
  function TakingSteps(s: State, whileWaiting: seq<Step>): seq<Step> {
    if s.queue != [] then [GetNow]
    else
      var waiting := [GetNow] + ByProducer(whileWaiting);
      waiting + [if Exec(s, waiting).queue != [] then GetWakes else GetTimesOut]
  }

  function SendingSteps(turn: Turn): seq<Step> {
    ByProducer(turn.whileSending) + [if turn.closed then GeneratorClosed else ChunkSent]
  }

  /** An item, and the chunk for it if it has one. */
  function ItemSteps(s: State, turn: Turn): seq<Step> {
    var taking := TakingSteps(s, turn.whileWaiting);
    if Exec(s, taking).consumer.Sending? then taking + SendingSteps(turn) else taking
  }

  function TurnSteps(s: State, turn: Turn): seq<Step> {
    if turn.disconnected then [Poll(true)] else [Poll(false)] + ItemSteps(Exec(s, [Poll(false)]), turn)
  }

  /** Turn after turn, until the loop is left or there are no more. */
  function LoopSteps(s: State, turns: seq<Turn>): seq<Step>
    decreases |turns|
  {
    if turns == [] || s.consumer != AtTop then []
    else
      var turn := TurnSteps(s, turns[0]);
      turn + LoopSteps(Exec(s, turn), turns[1..])
  }

  /** A response that is still at the top of its loop then is closed there; one in its tail is closed, or sends it. */
  function ClosingSteps(s: State, closedInTail: bool): seq<Step> {
    match s.consumer
    case AtTop => [GeneratorClosed]
    case Tail => [if closedInTail then GeneratorClosed else TailSent]
    case _ => []
  }

  function ResponseSteps(s: State, turns: seq<Turn>, closedInTail: bool): seq<Step> {
    var loop := LoopSteps(s, turns);
    loop + ClosingSteps(Exec(s, loop), closedInTail)
  }

  class Response {
    const bound: nat
    const mode: Mode
    const keyed: bool
    // shared with the producer
    var producer: Producer
    var slow: bool
    var queue: seq<Item>
    var record: Record
    // the generator's own
    var consumer: Consumer
    var text: string
    var completed: bool
    var cancel: Option<Cancel>
    ghost var yielded: seq<Event>
    ghost var consumed: seq<Event>
    ghost var dropped: seq<Event>
    ghost var polls: nat
    ghost var budget: nat
    ghost var steps: seq<Step>

    ghost function View(): State
      reads this
    {
      State(bound, mode, producer, slow, queue, consumer, text, completed, cancel, record,
            yielded, consumed, dropped, polls, budget)
    }

    /** The state of the machine after the steps so far. */
    ghost function Reached(): State
      reads this`steps
    {
      Exec(Init(bound, mode, keyed), steps)
    }

    /** The response so far is a run of the machine. */
    ghost predicate Valid()
      reads this
    {
      View() == Reached()
    }

    constructor (bound: nat, mode: Mode, keyed: bool)
      ensures Valid() && steps == [] && consumer == AtTop
      ensures this.bound == bound && this.mode == mode && this.keyed == keyed
    {
      this.bound, this.mode, this.keyed := bound, mode, keyed;
      producer, slow, queue, record := Pulling, false, [], if keyed then InProgress else NoKey;
      consumer, text, completed, cancel := AtTop, "", false, None;
      yielded, consumed, dropped, polls, budget, steps := [], [], [], 0, 0, [];
    }

    // ---- the producer ----

    method PutMarkerAndGo(ghost left: seq<Event>)
      modifies this`producer, this`queue, this`dropped, this`budget
      ensures View() == ProducerGoes(old(View()), left)
    {
      if |queue| < bound {
        queue := queue + [End];
      }
      producer := Gone;
      dropped, budget := left, polls + |queue| + 1;
    }

    method Produce(step: Step)
      modifies this`producer, this`slow, this`queue, this`yielded, this`dropped, this`budget
      ensures View() == ProducerStep(old(View()), step)
    {
      if step.RunYields? && producer.Pulling? {
        yielded := yielded + [step.event];
        if |queue| < bound {
          queue := queue + [Ev(step.event)];
        } else {
          producer := Waiting(step.event);
        }
      } else if step.PutWakes? && producer.Waiting? && |queue| < bound {
        queue := queue + [Ev(producer.event)];
        producer := Pulling;
      } else if step.PutTimesOut? && producer.Waiting? {
        slow := true;
        PutMarkerAndGo([producer.event]);
      } else if step.RunEnds? && producer.Pulling? {
        PutMarkerAndGo([]);
      }
    }

    /** The machine has taken one more step. */
    ghost method Took(step: Step)
      requires View() == Next(Exec(Init(bound, mode, keyed), steps), step)
      modifies this`steps
      ensures Valid() && steps == old(steps) + [step]
    {
      ExecSnoc(Init(bound, mode, keyed), steps, step);
      steps := steps + [step];
    }

    /** While the generator is suspended the producer may do anything. */
    method ProducerMoves(moves: seq<Step>)
      requires Valid()
      modifies this`producer, this`slow, this`queue, this`yielded, this`dropped, this`budget, this`steps
      ensures Valid() && steps == old(steps) + ByProducer(moves)
    {
      assert moves[..|moves|] == moves;
      for i := 0 to |moves|
        invariant Valid() && steps == old(steps) + ByProducer(moves[..i])
      {
        assert moves[..i + 1][..i] == moves[..i];
        if OfProducer(moves[i]) {
          Produce(moves[i]);
          Took(moves[i]);
        }
      }
    }

    // ---- the generator ----

    /** The finally block. */
    method Cleanup(next: Consumer)
      modifies this`producer, this`queue, this`dropped, this`budget, this`record, this`consumer
      ensures View() == Finally(old(View()), next)
    {
      if producer != Gone {
        PutMarkerAndGo(if producer.Waiting? then [producer.event] else []);
      }
      if record == InProgress && !completed {
        record := Expired;
      }
      consumer := next;
    }

    method CheckSlowFlag()
      modifies this`producer, this`queue, this`dropped, this`budget, this`record, this`consumer, this`cancel
      ensures View() == CheckSlow(old(View()))
    {
      if slow {
        cancel := Some(SlowConsumer);
        Cleanup(Tail);
      } else {
        consumer := AtTop;
      }
    }

    method HandleItem()
      requires queue != []
      modifies this
      ensures View() == Handle(old(View())) && steps == old(steps)
      ensures (consumer == AtTop || consumer.Sending? || consumer == Tail)
      ensures old(completed) || (completed ==> consumer == Tail)
    {
      var item := queue[0];
      queue := queue[1..];
      if item == End {
        HandleMarker();
      } else {
        HandleEvent(item.event);
      }
    }

    method HandleMarker()
      modifies this`producer, this`queue, this`dropped, this`budget, this`record, this`consumer,
               this`cancel, this`completed
      ensures var s := old(View());
        View() ==
          if s.slow then Finally(s.(cancel := Some(SlowConsumer)), Tail) else Finally(s.(completed := true), Tail)
      ensures consumer == Tail
    {
      if slow {
        cancel := Some(SlowConsumer);
      } else {
        completed := true;
      }
      Cleanup(Tail);
    }

    method HandleEvent(event: Event)
      modifies this`producer, this`queue, this`dropped, this`budget, this`record, this`consumer,
               this`cancel, this`consumed, this`text
      ensures var s := old(View());
        var s2 := s.(consumed := s.consumed + [event], text := if event.Text? then s.text + event.text else s.text);
        View() ==
          if Skipped(s.mode, event) then s2.(consumer := AtTop)
          else if Silent(event) then CheckSlow(s2)
          else s2.(consumer := Sending(event))
      ensures consumer == AtTop || consumer.Sending? || consumer == Tail
    {
      consumed := consumed + [event];
      if event.Text? {
        text := text + event.text;
      }
      if Skipped(mode, event) {
        consumer := AtTop;
      } else if Silent(event) {
        CheckSlowFlag();
      } else {
        consumer := Sending(event);
      }
    }

    /** The head of the loop: stop when the client is gone. */
    method CheckConnection(disconnected: bool)
      requires Valid() && consumer == AtTop
      modifies this
      ensures Valid() && consumer == (if disconnected then Tail else Polled) && completed == old(completed)
      ensures steps == old(steps) + [Poll(disconnected)]
    {
      ghost var was := View();
      PollStep(was, disconnected);
      if disconnected {
        StopPolling();
      } else {
        polls, consumer := polls + 1, Polled;
      }
      assert View() == Next(was, Poll(disconnected));
      Took(Poll(disconnected));
    }

    method StopPolling()
      modifies this`producer, this`queue, this`dropped, this`budget, this`record, this`consumer, this`cancel, this`polls
      ensures var s := old(View()); View() == Finally(s.(polls := s.polls + 1).(cancel := Some(Disconnected)), Tail)
    {
      polls, cancel := polls + 1, Some(Disconnected);
      assert View() == old(View()).(polls := old(polls) + 1).(cancel := Some(Disconnected));
      Cleanup(Tail);
    }

    /** Taking an item from the queue, waiting for one if there is none. */
    method TakeItem(whileWaiting: seq<Step>)
      requires Valid() && consumer == Polled && !completed
      modifies this
      ensures Valid() && (consumer == AtTop || consumer.Sending? || consumer == Tail)
      ensures completed ==> consumer == Tail
      ensures steps == old(steps) + TakingSteps(old(Reached()), whileWaiting)
    {
      if queue != [] {
        TakeAtOnce();
      } else {
        WaitTold(Init(bound, mode, keyed), steps, whileWaiting);
        StartWaiting();
        ProducerMoves(whileWaiting);
        WaitForItem();
      }
    }

    method TakeAtOnce()
      requires Valid() && consumer == Polled && !completed && queue != []
      modifies this
      ensures Valid() && (consumer == AtTop || consumer.Sending? || consumer == Tail)
      ensures completed ==> consumer == Tail
      ensures steps == old(steps) + [GetNow]
    {
      GetNowStep(View());
      HandleItem();
      Took(GetNow);
    }

    method StartWaiting()
      requires Valid() && consumer == Polled && !completed && queue == []
      modifies this`consumer, this`steps
      ensures Valid() && consumer == Blocked
      ensures steps == old(steps) + [GetNow]
    {
      GetNowStep(View());
      consumer := Blocked;
      Took(GetNow);
    }

    /** The end of the wait: an item, or after a second none. */
    method WaitForItem()
      requires Valid() && consumer == Blocked && !completed
      modifies this
      ensures Valid() && (consumer == AtTop || consumer.Sending? || consumer == Tail)
      ensures completed ==> consumer == Tail
      ensures steps == old(steps) + [if old(queue) != [] then GetWakes else GetTimesOut]
    {
      ghost var was := View();
      if queue != [] {
        HandleItem();
        WaitStep(was);
        Took(GetWakes);
        return;
      }
      if producer == Gone {
        if slow {
          cancel := Some(SlowConsumer);
        }
        Cleanup(Tail);
      } else {
        consumer := AtTop;
      }
      WaitStep(was);
      Took(GetTimesOut);
    }

    /** A chunk is on the wire; the response may be closed before it is sent. */
    method SendChunk(turn: Turn)
      requires Valid() && consumer.Sending?
      modifies this
      ensures Valid() && (consumer == AtTop || consumer == Tail || consumer == Stopped) && completed == old(completed)
      ensures steps == old(steps) + SendingSteps(turn)
    {
      ProducerMoves(turn.whileSending);
      AfterChunk(turn.closed);
    }

    method AfterChunk(closed: bool)
      requires Valid() && consumer.Sending?
      modifies this
      ensures Valid() && (consumer == AtTop || consumer == Tail || consumer == Stopped) && completed == old(completed)
      ensures steps == old(steps) + [if closed then GeneratorClosed else ChunkSent]
    {
      SendingStep(View());
      if closed {
        Cleanup(Stopped);
        Took(GeneratorClosed);
      } else if consumer.event.ApprovalRequired? {
        Cleanup(Stopped);
        Took(ChunkSent);
      } else {
        CheckSlowFlag();
        Took(ChunkSent);
      }
    }

    /** One iteration of the loop. */
    method TakeTurn(turn: Turn)
      requires Valid() && consumer == AtTop && !completed
      modifies this
      ensures Valid() && (consumer == AtTop || consumer == Tail || consumer == Stopped)
      ensures completed ==> consumer == Tail
      ensures steps == old(steps) + TurnSteps(old(Reached()), turn)
    {
      TurnTold(Init(bound, mode, keyed), steps, turn);
      CheckConnection(turn.disconnected);
      if turn.disconnected { return; }
      TakeAndSend(turn);
    }

    method TakeAndSend(turn: Turn)
      requires Valid() && consumer == Polled && !completed
      modifies this
      ensures Valid() && (consumer == AtTop || consumer == Tail || consumer == Stopped)
      ensures completed ==> consumer == Tail
      ensures steps == old(steps) + ItemSteps(old(Reached()), turn)
    {
      ItemTold(Init(bound, mode, keyed), steps, turn);
      TakeItem(turn.whileWaiting);
      if consumer.Sending? {
        SendChunk(turn);
      }
    }

    /** The loop. */
    method TakeTurns(turns: seq<Turn>)
      requires Valid() && consumer == AtTop && !completed
      modifies this
      ensures Valid() && (consumer == AtTop || consumer == Tail || consumer == Stopped)
      ensures completed ==> consumer == Tail
      ensures steps == old(steps) + LoopSteps(old(Reached()), turns)
    {
      var i := 0;
      ghost var all := steps + LoopSteps(Reached(), turns);
      while i < |turns| && consumer == AtTop
        invariant 0 <= i <= |turns| && Valid() && (consumer == AtTop || consumer == Tail || consumer == Stopped)
        invariant completed ==> consumer == Tail
        invariant all == steps + LoopSteps(Reached(), turns[i..])
        decreases |turns| - i
      {
        NextTurn(Init(bound, mode, keyed), steps, turns[i..]);
        TakeTurn(turns[i]);
        assert turns[i..][1..] == turns[i + 1..];
        i := i + 1;
      }
    }

    /** The whole response: a run of the machine, whose steps are told by the turns. It is closed when it runs out of
        turns, and may be closed once more in its tail. */
    method Stream(turns: seq<Turn>, closedInTail: bool)
      requires Valid() && consumer == AtTop
      modifies this
      ensures Valid() && consumer == Stopped && producer == Gone
      ensures consumed <= yielded && |queue| <= bound
      ensures steps == old(steps) + ResponseSteps(old(Reached()), turns, closedInTail)
      ensures completed <==> MarkerTaken(Init(bound, mode, keyed), steps)
      ensures keyed ==>
        && (completed ==>
              && consumed == yielded
              && record == if closedInTail then InProgress else Completed(TextOf(yielded)))
        && (!completed ==> record == Expired)
    {
      OpenAtTop();
      TakeTurns(turns);
      ExecConcat(Init(bound, mode, keyed), old(steps), LoopSteps(old(Reached()), turns));
      Finish(closedInTail);
      StoppedFacts();
    }

    /** What is left to do when the loop is over: a response that ran out of turns is closed, one that was not closed
        sends its tail. */
    method Finish(closedInTail: bool)
      requires Valid() && (consumer == AtTop || consumer == Tail || consumer == Stopped)
      requires completed ==> consumer == Tail
      modifies this
      ensures Valid() && consumer == Stopped && completed == old(completed)
      ensures steps == old(steps) + ClosingSteps(old(Reached()), closedInTail)
      ensures keyed && completed ==> record == if closedInTail then InProgress else Completed(text)
    {
      if consumer == AtTop {
        Cleanup(Stopped);
        Took(GeneratorClosed);
      } else if consumer == Tail {
        RecordInTail();
        SendTail(closedInTail);
      }
    }

    lemma StoppedFacts()
      requires Valid() && consumer == Stopped
      ensures producer == Gone && consumed <= yielded && |queue| <= bound && text == TextOf(consumed)
      ensures completed ==> consumed == yielded
      ensures keyed && !completed ==> record == Expired
      ensures completed <==> MarkerTaken(Init(bound, mode, keyed), steps)
    {
      CompletedExactly(bound, mode, keyed, steps);
      ConsumedIsPrefix(bound, mode, keyed, steps);
      ExecKeepsInvariant(bound, mode, keyed, steps);
      if keyed { RecordFollowsTheMarker(bound, mode, steps); }
    }

    lemma OpenAtTop()
      requires Valid() && consumer == AtTop
      ensures !completed
    {
      ExecKeepsInvariant(bound, mode, keyed, steps);
    }

    lemma RecordInTail()
      requires Valid() && consumer == Tail
      ensures keyed && completed ==> record == InProgress
      ensures text == TextOf(consumed)
    {
      ExecKeepsInvariant(bound, mode, keyed, steps);
      ExecKeepsBound(bound, mode, keyed, steps);
    }

    method SendTail(closed: bool)
      requires Valid() && consumer == Tail
      modifies this`record, this`consumer, this`steps
      ensures Valid() && consumer == Stopped
      ensures record == if !closed && old(record) == InProgress && completed then Completed(text) else old(record)
      ensures steps == old(steps) + [if closed then GeneratorClosed else TailSent]
    {
      if !closed && record == InProgress && completed {
        record := Completed(text);
      }
      consumer := Stopped;
      Took(if closed then GeneratorClosed else TailSent);
    }
  }

  lemma NextTurn(s: State, steps: seq<Step>, turns: seq<Turn>)
    requires turns != [] && Exec(s, steps).consumer == AtTop
    ensures var more := steps + TurnSteps(Exec(s, steps), turns[0]);
      steps + LoopSteps(Exec(s, steps), turns) == more + LoopSteps(Exec(s, more), turns[1..])
  {
    var now := Exec(s, steps);
    var turn := TurnSteps(now, turns[0]);
    ExecConcat(s, steps, turn);
    LoopUnfolds(now, turns, turn);
    Regrouped(steps, turn, LoopSteps(Exec(now, turn), turns[1..]));
  }

  /** The steps of a turn, and those of an item, one part after the other. */
  lemma TurnTold(s: State, steps: seq<Step>, turn: Turn)
    ensures var polled := steps + [Poll(turn.disconnected)];
      steps + TurnSteps(Exec(s, steps), turn) ==
        if turn.disconnected then polled else polled + ItemSteps(Exec(s, polled), turn)
  {
    if !turn.disconnected {
      ExecConcat(s, steps, [Poll(false)]);
      Regrouped(steps, [Poll(false)], ItemSteps(Exec(s, steps + [Poll(false)]), turn));
    }
  }

  lemma WaitTold(s: State, steps: seq<Step>, whileWaiting: seq<Step>)
    requires Exec(s, steps).queue == []
    ensures var waited := steps + [GetNow] + ByProducer(whileWaiting);
      steps + TakingSteps(Exec(s, steps), whileWaiting) ==
        waited + [if Exec(s, waited).queue != [] then GetWakes else GetTimesOut]
  {
    var waiting := [GetNow] + ByProducer(whileWaiting);
    ExecConcat(s, steps, waiting);
    Regrouped(steps, [GetNow], ByProducer(whileWaiting));
    Regrouped(steps, waiting, [if Exec(s, steps + waiting).queue != [] then GetWakes else GetTimesOut]);
  }

  lemma ItemTold(s: State, steps: seq<Step>, turn: Turn)
    ensures var taken := steps + TakingSteps(Exec(s, steps), turn.whileWaiting);
      steps + ItemSteps(Exec(s, steps), turn) ==
        if Exec(s, taken).consumer.Sending? then taken + SendingSteps(turn) else taken
  {
    var taking := TakingSteps(Exec(s, steps), turn.whileWaiting);
    ExecConcat(s, steps, taking);
    Regrouped(steps, taking, SendingSteps(turn));
  }

  lemma LoopUnfolds(s: State, turns: seq<Turn>, turn: seq<Step>)
    requires turns != [] && s.consumer == AtTop && turn == TurnSteps(s, turns[0])
    ensures LoopSteps(s, turns) == turn + LoopSteps(Exec(s, turn), turns[1..])
  {
  }

  lemma Regrouped(a: seq<Step>, b: seq<Step>, c: seq<Step>)
    ensures a + (b + c) == (a + b) + c
  {
  }

  lemma PollStep(s: State, disconnected: bool)
    requires s.consumer == AtTop
    ensures var s1 := s.(polls := s.polls + 1);
      Next(s, Poll(disconnected)) ==
        if disconnected then Finally(s1.(cancel := Some(Disconnected)), Tail) else s1.(consumer := Polled)
  {
  }

  lemma GetNowStep(s: State)
    requires s.consumer == Polled
    ensures Next(s, GetNow) == if s.queue != [] then Handle(s) else s.(consumer := Blocked)
  {
  }

  lemma SendingStep(s: State)
    requires s.consumer.Sending?
    ensures Next(s, GeneratorClosed) == Finally(s, Stopped)
    ensures Next(s, ChunkSent) == if s.consumer.event.ApprovalRequired? then Finally(s, Stopped) else CheckSlow(s)
  {
  }

  lemma WaitStep(s: State)
    requires s.consumer == Blocked
    ensures s.queue != [] ==> Next(s, GetWakes) == Handle(s)
    ensures Next(s, GetTimesOut) ==
      if s.producer == Gone && s.queue == []
      then Finally(s.(cancel := if s.slow then Some(SlowConsumer) else s.cancel), Tail)
      else s.(consumer := AtTop)
  {
  }
}
