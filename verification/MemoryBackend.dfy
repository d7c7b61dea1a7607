/**
 The in-process storage backend as the service runs it: dictionaries updated in place, with
 loops for eviction and for the sweep. Every method is proved to compute the function of the
 same name in `MemoryState`, so every history of calls is one that MemoryProperties.dfy covers.
 */
module MemoryBackend {
  import opened Basics
  import opened Sessions
  import S = MemoryState
  import opened MemoryState

  predicate SessionIdChars(id: string) {
    && 1 <= |id| <= 128
    && forall c :: c in id ==> 'A' <= c <= 'Z' || 'a' <= c <= 'z' || '0' <= c <= '9' || c == '_' || c == '-'
  }

  /** The pattern's end anchor also matches just before a final newline. */
  predicate ValidSessionId(id: string) {
    SessionIdChars(id) || (id != [] && id[|id| - 1] == '\n' && SessionIdChars(id[..|id| - 1]))
  }

  const UPPER := "ABCDEFGHIJKLMNOPQRSTUVWXYZ"
  const LOWER := "abcdefghijklmnopqrstuvwxyz"
  const DIGITS := "0123456789"

  lemma LettersAreRanges(c: char)
    ensures c in UPPER <==> 'A' <= c <= 'Z'
    ensures c in LOWER <==> 'a' <= c <= 'z'
    ensures c in DIGITS <==> '0' <= c <= '9'
  {
    assert forall i :: 0 <= i < |UPPER| ==> UPPER[i] as int == 'A' as int + i;
    assert forall i :: 0 <= i < |LOWER| ==> LOWER[i] as int == 'a' as int + i;
    assert forall i :: 0 <= i < |DIGITS| ==> DIGITS[i] as int == '0' as int + i;
    if 'A' <= c <= 'Z' { assert UPPER[c as int - 'A' as int] == c; }
    if 'a' <= c <= 'z' { assert LOWER[c as int - 'a' as int] == c; }
    if '0' <= c <= '9' { assert DIGITS[c as int - '0' as int] == c; }
  }

  /** One to 128 letters, digits, underscores and dashes. */
  ghost predicate PlainId(core: string) {
    0 < |core| < 129 && forall c :: c in core ==> c in UPPER || c in LOWER || c in DIGITS || c == '_' || c == '-'
  }

  lemma CharsExactly(core: string)
    ensures SessionIdChars(core) <==> PlainId(core)
  {
    forall c | c in core
      ensures (c in UPPER || c in LOWER || c in DIGITS) <==> ('A' <= c <= 'Z' || 'a' <= c <= 'z' || '0' <= c <= '9')
    {
      LettersAreRanges(c);
    }
  }

  /** A session id is a plain one, or a plain one and a newline. */
  lemma SessionIdsExactly(id: string)
    ensures ValidSessionId(id) <==> PlainId(id) || exists core: string :: PlainId(core) && id == core + "\n"
  {
    CharsExactly(id);
    if id != [] && id[|id| - 1] == '\n' {
      CharsExactly(id[..|id| - 1]);
      assert id == id[..|id| - 1] + "\n";
    }
    if core: string :| PlainId(core) && id == core + "\n" {
      assert id[..|id| - 1] == core;
    }
  }

  class Backend {
    const settings: Settings
    var closed: bool
    var sessions: map<SessionKey, Session>
    var runs: map<RunKey, Run>
    var idem: map<IdemKey, Idem>
    var fences: map<SessionKey, Fence>
    var fenceCounters: map<SessionKey, int>

    ghost function View(): State
      reads this
    {
      State(settings, sessions, runs, idem, fences, fenceCounters)
    }

    constructor (settings: Settings)
      ensures View() == Init(settings) && !closed
    {
      this.settings := settings;
      closed := false;
      sessions, runs, idem, fences, fenceCounters := map[], map[], map[], map[], map[];
    }

    method Close()
      modifies this`closed
      ensures closed
    {
      closed := true;
    }

    method CreateSession(k: SessionKey, events: seq<Event>, now: int) returns (reply: Reply)
      modifies this`sessions
      ensures closed ==> reply == Refused(Unavailable) && View() == old(View())
      ensures !closed && !ValidSessionId(k.id) ==> reply == Refused(InvalidSessionId) && View() == old(View())
      ensures !closed && ValidSessionId(k.id) ==> reply == Ok && View() == S.CreateSession(old(View()), k, events, now)
    {
      if closed { return Refused(Unavailable); }
      if !ValidSessionId(k.id) { return Refused(InvalidSessionId); }
      if k !in sessions {
        sessions := sessions[k := NewSession(events, now)];
      }
      reply := Ok;
    }

    method MutateSession(k: SessionKey, expected: int, delta: Delta, now: int) returns (reply: Reply)
      modifies this`sessions
      ensures (View(), reply) == S.MutateSession(old(View()), k, expected, delta, now)
    {
      if k !in sessions { return Refused(NotFound); }
      var record := sessions[k];
      if record.revision != expected { return Refused(RevisionConflict); }
      record := record.(events := record.events + delta.events);
      record := record.(usage := AddUsage(record.usage, delta.usage));
      if delta.truncated.Some? {
        record := record.(truncated := delta.truncated.value);
      }
      record := record.(revision := record.revision + 1, updatedAt := now);
      sessions := sessions[k := record];
      reply := Ok;
    }

    method DropRuns(k: SessionKey)
      modifies this`runs
      ensures runs == map r | r in old(runs) && r.session != k :: old(runs)[r]
    {
      var doomed := RunsOf(runs, k);
      while doomed != {}
        invariant doomed <= RunsOf(old(runs), k)
        invariant runs == map r | r in old(runs) && (r.session != k || r in doomed) :: old(runs)[r]
        decreases |doomed|
      {
        var r :| r in doomed;
        runs := runs - {r};
        doomed := doomed - {r};
      }
    }

    method DropIdem(k: SessionKey)
      modifies this`idem
      ensures idem == map i | i in old(idem) && i.session != k :: old(idem)[i]
    {
      var doomed := IdemOf(idem, k);
      while doomed != {}
        invariant doomed <= IdemOf(old(idem), k)
        invariant idem == map i | i in old(idem) && (i.session != k || i in doomed) :: old(idem)[i]
        decreases |doomed|
      {
        var i :| i in doomed;
        idem := idem - {i};
        doomed := doomed - {i};
      }
    }

    method DeleteSession(k: SessionKey) returns (reply: Reply)
      modifies this
      ensures (View(), reply) == S.DeleteSession(old(View()), k) && closed == old(closed)
    {
      if k !in sessions { return Absent; }
      if HasNonterminal(runs, k) { return Refused(Busy); }
      sessions := sessions - {k};
      DropRuns(k);
      DropIdem(k);
      fences := fences - {k};
      fenceCounters := fenceCounters - {k};
      reply := Ok;
    }

    method EnforceRunCapacity(k: SessionKey) returns (ok: bool, ghost order: seq<RunKey>)
      modifies this`runs
      ensures OldestFirst(old(runs), k, order)
      ensures runs == Evict(old(runs), k, settings.maxRuns, order)
      ensures ok <==> |RunsOf(runs, k)| < settings.maxRuns
    {
      var terminal := SortTerminals(runs, k);
      order := terminal;
      var cap := settings.maxRuns;
      while |RunsOf(runs, k)| >= cap && terminal != []
        invariant Evict(runs, k, cap, terminal) == Evict(old(runs), k, cap, order)
        decreases |terminal|
      {
        runs := runs - {terminal[0]};
        terminal := terminal[1..];
      }
      ok := |RunsOf(runs, k)| < cap;
    }

    method CreateRun(r: RunKey, input: string, now: int) returns (reply: Reply, ghost order: seq<RunKey>)
      modifies this`runs
      ensures OldestFirst(old(runs), r.session, order)
      ensures (View(), reply) == S.CreateRun(old(View()), r, input, now, order)
    {
      order := SortTerminals(runs, r.session);
      if r.session !in sessions { reply := Refused(NotFound); return; }
      if r in runs { reply := Ok; return; }
      var ok;
      ok, order := EnforceRunCapacity(r.session);
      if !ok { reply := Refused(Capacity); return; }
      runs := runs[r := Run(Created, input, "", now)];
      reply := Ok;
    }

    method AdmitRun(r: RunKey, input: string, now: int) returns (reply: Reply, ghost order: seq<RunKey>)
      modifies this`sessions, this`runs
      ensures OldestFirst(old(runs), r.session, order)
      ensures closed ==> reply == Refused(Unavailable) && View() == old(View())
      ensures !closed && !ValidSessionId(r.session.id) ==> reply == Refused(InvalidSessionId) && View() == old(View())
      ensures !closed && ValidSessionId(r.session.id) ==>
        (View(), reply) == S.AdmitRun(old(View()), r, input, now, order)
    {
      order := SortTerminals(runs, r.session);
      if closed { reply := Refused(Unavailable); return; }
      if !ValidSessionId(r.session.id) { reply := Refused(InvalidSessionId); return; }
      if r.session !in sessions {
        sessions := sessions[r.session := NewSession([], now)];
      }
      var revision := sessions[r.session].revision;
      if r in runs { reply := Revision(revision); return; }
      var ok;
      ok, order := EnforceRunCapacity(r.session);
      if !ok { reply := Refused(Capacity); return; }
      runs := runs[r := Run(Created, input, "", now)];
      reply := Revision(revision);
    }

    method UpdateRun(r: RunKey, status: Option<Status>, outcome: Option<string>, now: int) returns (reply: Reply)
      modifies this`runs
      ensures (View(), reply) == S.UpdateRun(old(View()), r, status, outcome, now)
    {
      if r !in runs { return Absent; }
      var run := runs[r];
      if status.Some? { run := run.(status := status.value); }
      if outcome.Some? { run := run.(outcome := outcome.value); }
      runs := runs[r := run.(updatedAt := now)];
      reply := Ok;
    }

    method CreateIdem(i: IdemKey, ttl: int, now: int) returns (reply: Reply)
      modifies this`idem
      ensures (View(), reply) == S.CreateIdem(old(View()), i, ttl, now)
    {
      if i in idem { return Ok; }
      if |IdemOf(idem, i.session)| >= settings.maxIdem { return Refused(Capacity); }
      idem := idem[i := Idem(now + ttl)];
      reply := Ok;
    }

    method ExpireIdem(i: IdemKey) returns (reply: Reply)
      modifies this`idem
      ensures (View(), reply) == S.ExpireIdem(old(View()), i)
    {
      if i !in idem { return Absent; }
      idem := idem - {i};
      reply := Ok;
    }

    method AcquireFence(k: SessionKey, token: string, ttl: int, now: int) returns (reply: Reply)
      modifies this`fences, this`fenceCounters
      ensures (View(), reply) == S.AcquireFence(old(View()), k, token, ttl, now)
    {
      if k in fences && fences[k].expiresAt > now { return Denied; }
      var number := (if k in fenceCounters then fenceCounters[k] else 0) + 1;
      fenceCounters := fenceCounters[k := number];
      fences := fences[k := Fence(token, number, now + ttl)];
      reply := Ok;
    }

    method ReleaseFence(k: SessionKey, token: string) returns (reply: Reply)
      modifies this`fences
      ensures (View(), reply) == S.ReleaseFence(old(View()), k, token)
    {
      if k !in fences || fences[k].token != token { return Absent; }
      fences := fences - {k};
      reply := Ok;
    }

    method SweepSessions(now: int)
      modifies this`sessions
      ensures sessions == S.Sweep(old(View()), now).sessions
    {
      var todo := sessions.Keys;
      while todo != {}
        invariant todo <= old(sessions).Keys
        invariant sessions == map k | k in old(sessions) && (k in todo || !Collectable(old(View()), k, now))
          :: old(sessions)[k]
        decreases |todo|
      {
        var k :| k in todo;
        if SessionExpired(settings, sessions[k], now) && k !in fences && !HasNonterminal(runs, k) {
          sessions := sessions - {k};
        }
        todo := todo - {k};
      }
    }

    method CollectRuns(now: int)
      modifies this`runs
      ensures runs == map r | r in old(runs) && !(old(runs)[r].Terminal() && Stale(settings, old(runs)[r], now))
        :: old(runs)[r]
    {
      var todo := runs.Keys;
      while todo != {}
        invariant todo <= old(runs).Keys
        invariant runs == map r | r in old(runs) &&
          (r in todo || !(old(runs)[r].Terminal() && Stale(settings, old(runs)[r], now)))
          :: old(runs)[r]
        decreases |todo|
      {
        var r :| r in todo;
        if runs[r].Terminal() && Stale(settings, runs[r], now) {
          runs := runs - {r};
        }
        todo := todo - {r};
      }
    }

    method ReconcileRuns(now: int)
      modifies this`runs
      ensures runs == map r | r in old(runs) :: Reconcile(settings, old(runs)[r], now)
    {
      var todo := runs.Keys;
      while todo != {}
        invariant todo <= runs.Keys == old(runs).Keys
        invariant forall r :: r in runs ==>
          runs[r] == (if r in todo then old(runs)[r] else Reconcile(settings, old(runs)[r], now))
        decreases |todo|
      {
        var r :| r in todo;
        if !runs[r].Terminal() && Stale(settings, runs[r], now) {
          runs := runs[r := Interrupt(runs[r], now)];
        }
        todo := todo - {r};
      }
    }

    method SweepIdem(now: int)
      modifies this`idem
      ensures idem == S.Sweep(old(View()), now).idem
    {
      var todo := idem.Keys;
      while todo != {}
        invariant todo <= old(idem).Keys
        invariant idem == map i | i in old(idem) && (i in todo || old(idem)[i].expiresAt > now) :: old(idem)[i]
        decreases |todo|
      {
        var i :| i in todo;
        if idem[i].expiresAt <= now {
          idem := idem - {i};
        }
        todo := todo - {i};
      }
    }

    /** Sessions are judged against the runs as they were when the pass began. */
    method Sweep(now: int)
      modifies this`sessions, this`runs, this`idem
      ensures View() == S.Sweep(old(View()), now)
    {
      SweepSessions(now);
      CollectRuns(now);
      ReconcileRuns(now);
      SweepIdem(now);
    }
  }
}
