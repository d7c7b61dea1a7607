/**
 The fixed-window limiter: one counter per key for the current minute, and pruning of old counters. Clock readings are
 real numbers of seconds that the caller passes in.
 */
module RateLimit {
  type Key = string

  datatype Bucket = Bucket(minute: int, count: int)

  type State = map<Key, Bucket>

  function Minute(now: real): int { now.Floor / 60 }

  /** Seconds until the next minute begins. */
  function RetryAfter(now: real): int { 60 - now.Floor % 60 }

  predicate Allowed(s: State, limit: int, key: Key, now: real) {
    key !in s || s[key].minute != Minute(now) || s[key].count < limit
  }

  function Allow(s: State, limit: int, key: Key, now: real): State {
    if key !in s || s[key].minute != Minute(now) then s[key := Bucket(Minute(now), 1)]
    else if s[key].count >= limit then s
    else s[key := Bucket(Minute(now), s[key].count + 1)]
  }

  function Prune(s: State, now: real): State {
    map k | k in s && s[k].minute >= Minute(now) :: s[k]
  }

  class FixedWindowLimiter {
    const limit: int
    var buckets: State

    constructor (limit: int)
      ensures this.limit == limit && buckets == map[]
    {
      this.limit, buckets := limit, map[];
    }

    method AllowCall(key: Key, now: real) returns (ok: bool, retryAfter: int)
      modifies this
      ensures ok == Allowed(old(buckets), limit, key, now) && buckets == Allow(old(buckets), limit, key, now)
      ensures retryAfter == if ok then 0 else RetryAfter(now)
    {
      var current := now.Floor;
      var bucket := current / 60;
      if key !in buckets || buckets[key].minute != bucket {
        buckets := buckets[key := Bucket(bucket, 1)];
        return true, 0;
      }
      if buckets[key].count >= limit {
        return false, 60 - current % 60;
      }
      buckets := buckets[key := Bucket(bucket, buckets[key].count + 1)];
      return true, 0;
    }

    method PruneBuckets(now: real)
      modifies this
      ensures buckets == Prune(old(buckets), now)
    {
      var current := now.Floor / 60;
      var stale := set k | k in buckets && buckets[k].minute < current;
      while stale != {}
        invariant stale <= buckets.Keys
        invariant forall k :: k in stale ==> k in old(buckets) && old(buckets)[k].minute < current
        invariant forall k :: k in old(buckets) && (k in stale || old(buckets)[k].minute >= current) ==> k in buckets
        invariant forall k :: k in buckets ==> k in old(buckets) && buckets[k] == old(buckets)[k]
        invariant forall k :: k in buckets && buckets[k].minute < current ==> k in stale
        decreases |stale|
      {
        var key :| key in stale;
        buckets := buckets - {key};
        stale := stale - {key};
      }
    }
  }

  // ---- runs ----

  datatype Op = Call(key: Key, now: real) | Pruning(now: real)

  function Next(s: State, limit: int, op: Op): State {
    match op
    case Call(key, now) => Allow(s, limit, key, now)
    case Pruning(now) => Prune(s, now)
  }

  function Exec(limit: int, ops: seq<Op>): State {
    if ops == [] then map[] else Next(Exec(limit, ops[..|ops| - 1]), limit, ops[|ops| - 1])
  }

  ghost predicate ClockNeverBack(ops: seq<Op>) {
    forall i, j :: 0 <= i < j < |ops| ==> ops[i].now <= ops[j].now
  }

  /** Calls of one key in one minute, and those of them that were let through. */
  function Calls(ops: seq<Op>, key: Key, minute: int): nat {
    if ops == [] then 0
    else
      var op := ops[|ops| - 1];
      Calls(ops[..|ops| - 1], key, minute) + if op.Call? && op.key == key && Minute(op.now) == minute then 1 else 0
  }

  predicate LetThrough(limit: int, ops: seq<Op>, i: nat)
    requires i < |ops|
  {
    ops[i].Call? && Allowed(Exec(limit, ops[..i]), limit, ops[i].key, ops[i].now)
  }

  function Passed(limit: int, ops: seq<Op>, key: Key, minute: int): nat {
    if ops == [] then 0
    else
      var n := |ops| - 1;
      Passed(limit, ops[..n], key, minute) +
      if LetThrough(limit, ops, n) && ops[n].key == key && Minute(ops[n].now) == minute then 1 else 0
  }

  /** The first call of a minute always passes, so a limit below one works as one. */
  function Ceiling(limit: int): nat { if limit < 1 then 1 else limit }

  function Min(a: nat, b: nat): nat { if a < b then a else b }

  /** What the buckets say about the calls so far, up to the minute of the last clock reading. */
  ghost predicate Tracks(limit: int, ops: seq<Op>, key: Key, latest: int) {
    var s := Exec(limit, ops);
    if key in s then
      && s[key].minute <= latest
      && s[key].count == Min(Calls(ops, key, s[key].minute), Ceiling(limit)) && s[key].count > 0
      && forall m :: m > s[key].minute ==> Calls(ops, key, m) == 0
    else forall m :: m >= latest ==> Calls(ops, key, m) == 0
  }

  lemma MinuteMonotone(a: real, b: real)
    requires a <= b
    ensures Minute(a) <= Minute(b)
  {
  }

  lemma TracksNext(limit: int, ops: seq<Op>, op: Op, key: Key, latest: int)
    requires Tracks(limit, ops, key, latest) && latest <= Minute(op.now)
    ensures Tracks(limit, ops + [op], key, Minute(op.now))
    ensures op.Call? && op.key == key ==>
      (Allowed(Exec(limit, ops), limit, key, op.now) <==> Calls(ops, key, Minute(op.now)) < Ceiling(limit))
  {
    assert (ops + [op])[..|ops|] == ops;
  }

  lemma {:induction false} AlwaysTracks(limit: int, ops: seq<Op>, key: Key)
    requires ClockNeverBack(ops) && ops != []
    ensures Tracks(limit, ops, key, Minute(ops[|ops| - 1].now))
    decreases |ops|
  {
    var n := |ops| - 1;
    assert ops == ops[..n] + [ops[n]];
    if n == 0 {
      assert ops[..0] == [];
      TracksNext(limit, [], ops[0], key, Minute(ops[0].now));
    } else {
      AlwaysTracks(limit, ops[..n], key);
      MinuteMonotone(ops[n - 1].now, ops[n].now);
      TracksNext(limit, ops[..n], ops[n], key, Minute(ops[n - 1].now));
    }
  }

  /** In every minute exactly the first calls of a key pass, up to the limit. */
  lemma {:induction false} PassedPerMinute(limit: int, ops: seq<Op>, key: Key, minute: int)
    requires ClockNeverBack(ops)
    ensures Passed(limit, ops, key, minute) == Min(Calls(ops, key, minute), Ceiling(limit))
    decreases |ops|
  {
    if ops != [] {
      var n := |ops| - 1;
      assert ops == ops[..n] + [ops[n]];
      PassedPerMinute(limit, ops[..n], key, minute);
      if n == 0 {
        TracksNext(limit, [], ops[0], key, Minute(ops[0].now));
      } else {
        AlwaysTracks(limit, ops[..n], key);
        MinuteMonotone(ops[n - 1].now, ops[n].now);
        TracksNext(limit, ops[..n], ops[n], key, Minute(ops[n - 1].now));
      }
    }
  }

  /** Calls of a key that passed in the 60 seconds from `start`. */
  function PassedInWindow(limit: int, ops: seq<Op>, key: Key, start: real): nat {
    if ops == [] then 0
    else
      var n := |ops| - 1;
      PassedInWindow(limit, ops[..n], key, start) +
      if LetThrough(limit, ops, n) && ops[n].key == key && start <= ops[n].now < start + 60.0 then 1 else 0
  }

  lemma {:induction false} WindowMeetsTwoMinutes(limit: int, ops: seq<Op>, key: Key, start: real)
    ensures PassedInWindow(limit, ops, key, start) <=
      Passed(limit, ops, key, Minute(start)) + Passed(limit, ops, key, Minute(start) + 1)
    decreases |ops|
  {
    if ops != [] {
      var n := |ops| - 1;
      WindowMeetsTwoMinutes(limit, ops[..n], key, start);
      if start <= ops[n].now < start + 60.0 {
        assert Minute(start) <= Minute(ops[n].now) <= Minute(start) + 1;
      }
    }
  }

  /** No 60 seconds see more than twice the limit. */
  lemma AtMostTwiceInAnyWindow(limit: int, ops: seq<Op>, key: Key, start: real)
    requires ClockNeverBack(ops)
    ensures PassedInWindow(limit, ops, key, start) <= 2 * Ceiling(limit)
  {
    WindowMeetsTwoMinutes(limit, ops, key, start);
    PassedPerMinute(limit, ops, key, Minute(start));
    PassedPerMinute(limit, ops, key, Minute(start) + 1);
  }

  /** `n` calls just before the minute ends and `m` just after. */
  function Burst(key: Key, n: nat, m: nat): seq<Op>
    decreases n + m
  {
    if m > 0 then Burst(key, n, m - 1) + [Call(key, 60.0)]
    else if n > 0 then Burst(key, n - 1, 0) + [Call(key, 59.0)]
    else []
  }

  lemma {:induction false} BurstTimes(key: Key, n: nat, m: nat)
    ensures var ops := Burst(key, n, m);
      && (forall i :: 0 <= i < |ops| ==> ops[i].now == if i < n then 59.0 else 60.0)
      && |ops| == n + m
    decreases n + m
  {
    if m > 0 { BurstTimes(key, n, m - 1); } else if n > 0 { BurstTimes(key, n - 1, 0); }
  }

  lemma {:induction false} BurstCounts(limit: int, key: Key, n: nat, m: nat)
    ensures var ops := Burst(key, n, m);
      && Calls(ops, key, 0) == n && Calls(ops, key, 1) == m
      && PassedInWindow(limit, ops, key, 59.0) == Passed(limit, ops, key, 0) + Passed(limit, ops, key, 1)
    decreases n + m
  {
    if m > 0 {
      BurstCounts(limit, key, n, m - 1);
      BurstOneMore(limit, key, Burst(key, n, m - 1), Call(key, 60.0));
    } else if n > 0 {
      BurstCounts(limit, key, n - 1, 0);
      BurstOneMore(limit, key, Burst(key, n - 1, 0), Call(key, 59.0));
    }
  }

  lemma BurstOneMore(limit: int, key: Key, ops: seq<Op>, op: Op)
    requires op == Call(key, 59.0) || op == Call(key, 60.0)
    requires PassedInWindow(limit, ops, key, 59.0) == Passed(limit, ops, key, 0) + Passed(limit, ops, key, 1)
    ensures var more := ops + [op];
      && Calls(more, key, 0) == Calls(ops, key, 0) + (if op.now == 59.0 then 1 else 0)
      && Calls(more, key, 1) == Calls(ops, key, 1) + (if op.now == 59.0 then 0 else 1)
      && PassedInWindow(limit, more, key, 59.0) == Passed(limit, more, key, 0) + Passed(limit, more, key, 1)
  {
    assert (ops + [op])[..|ops|] == ops && Minute(59.0) == 0 && Minute(60.0) == 1;
  }

  lemma BurstIsShort(key: Key, n: nat, m: nat)
    ensures var ops := Burst(key, n, m);
      ClockNeverBack(ops) && forall i :: 0 <= i < |ops| ==> 59.0 <= ops[i].now <= 60.0
  {
    BurstTimes(key, n, m);
  }

  /** And twice the limit can pass within a second, around the turn of the minute. */
  lemma TwiceIsReached(limit: int, key: Key)
    ensures var ops := Burst(key, Ceiling(limit), Ceiling(limit));
      && ClockNeverBack(ops) && (forall i :: 0 <= i < |ops| ==> 59.0 <= ops[i].now <= 60.0)
      && PassedInWindow(limit, ops, key, 59.0) == 2 * Ceiling(limit)
  {
    var n := Ceiling(limit);
    BurstIsShort(key, n, n);
    BurstCounts(limit, key, n, n);
    PassedPerMinute(limit, Burst(key, n, n), key, 0);
    PassedPerMinute(limit, Burst(key, n, n), key, 1);
  }

  /** When the clock steps back, a minute can be counted afresh. */
  lemma ClockBackCountsAfresh(key: Key)
    ensures var ops := [Call(key, 0.0), Call(key, 60.0), Call(key, 0.0)];
      Passed(1, ops, key, 0) == 2 > Ceiling(1)
  {
    var ops := [Call(key, 0.0), Call(key, 60.0), Call(key, 0.0)];
    assert ops[..2] == [Call(key, 0.0), Call(key, 60.0)];
    assert ops[..2][..1] == [Call(key, 0.0)] && ops[..1] == [Call(key, 0.0)];
    assert Passed(1, ops[..1], key, 0) == 1;
    assert Passed(1, ops[..2], key, 0) == 1;
  }

  // ---- pruning is invisible ----

  /** Two states that no call from this minute on can tell apart. */
  ghost predicate SameFrom(s: State, t: State, minute: int) {
    forall k ::
      && ((k in s && s[k].minute >= minute) <==> (k in t && t[k].minute >= minute))
      && (k in s && s[k].minute >= minute ==> s[k] == t[k])
  }

  function Decisions(s: State, limit: int, ops: seq<Op>): seq<bool>
    decreases |ops|
  {
    if ops == [] then []
    else
      (if ops[0].Call? then [Allowed(s, limit, ops[0].key, ops[0].now)] else []) +
      Decisions(Next(s, limit, ops[0]), limit, ops[1..])
  }

  lemma SameStep(s: State, t: State, limit: int, minute: int, op: Op)
    requires SameFrom(s, t, minute) && minute <= Minute(op.now)
    ensures SameFrom(Next(s, limit, op), Next(t, limit, op), Minute(op.now))
    ensures op.Call? ==> Allowed(s, limit, op.key, op.now) == Allowed(t, limit, op.key, op.now)
  {
  }

  lemma {:induction false} SameDecisions(s: State, t: State, limit: int, minute: int, ops: seq<Op>)
    requires SameFrom(s, t, minute) && ClockNeverBack(ops) && (ops != [] ==> minute <= Minute(ops[0].now))
    ensures Decisions(s, limit, ops) == Decisions(t, limit, ops)
    decreases |ops|
  {
    if ops != [] {
      SameStep(s, t, limit, minute, ops[0]);
      if |ops| > 1 { MinuteMonotone(ops[0].now, ops[1].now); }
      SameDecisions(Next(s, limit, ops[0]), Next(t, limit, ops[0]), limit, Minute(ops[0].now), ops[1..]);
    }
  }

  /** Pruning at any point changes no later decision. */
  lemma PruneIsInvisible(s: State, limit: int, now: real, ops: seq<Op>)
    requires ClockNeverBack([Pruning(now)] + ops)
    ensures Decisions(Prune(s, now), limit, ops) == Decisions(s, limit, ops)
  {
    var all := [Pruning(now)] + ops;
    assert forall i :: 0 <= i < |ops| ==> all[i + 1] == ops[i];
    if ops != [] {
      assert all[0].now <= all[1].now;
      MinuteMonotone(now, ops[0].now);
    }
    SameDecisions(Prune(s, now), s, limit, Minute(now), ops);
  }

  // ---- retry after ----

  function ExecFrom(s: State, limit: int, ops: seq<Op>): State
    decreases |ops|
  {
    if ops == [] then s else ExecFrom(Next(s, limit, ops[0]), limit, ops[1..])
  }

  /** A counter that is full for `minute`; it is there at least as long as the clock shows that minute. */
  ghost predicate Full(s: State, limit: int, key: Key, minute: int, latest: int) {
    && (key in s ==> s[key].minute == minute && s[key].count >= limit)
    && (latest == minute ==> key in s)
    && minute <= latest
  }

  lemma FullStep(s: State, limit: int, key: Key, minute: int, latest: int, op: Op)
    requires Full(s, limit, key, minute, latest) && latest <= Minute(op.now)
    requires op.Call? && op.key == key ==> Minute(op.now) == minute
    ensures Full(Next(s, limit, op), limit, key, minute, Minute(op.now))
  {
  }

  lemma {:induction false} FullStays(s: State, limit: int, key: Key, minute: int, latest: int, ops: seq<Op>)
    requires Full(s, limit, key, minute, latest) && ClockNeverBack(ops) && (ops != [] ==> latest <= Minute(ops[0].now))
    requires forall op :: op in ops && op.Call? && op.key == key ==> Minute(op.now) == minute
    ensures Full(ExecFrom(s, limit, ops), limit, key, minute, if ops == [] then latest else Minute(ops[|ops| - 1].now))
    decreases |ops|
  {
    if ops != [] {
      assert ops[0] in ops;
      FullStep(s, limit, key, minute, latest, ops[0]);
      if |ops| > 1 { MinuteMonotone(ops[0].now, ops[1].now); }
      FullStays(Next(s, limit, ops[0]), limit, key, minute, Minute(ops[0].now), ops[1..]);
    }
  }

  /** After a denial, and whatever happens meanwhile except calls of the same key in later minutes, the next call
      of the key passes exactly when its clock reading is `RetryAfter` whole seconds on. */
  lemma RetryAfterIsExact(s: State, limit: int, key: Key, now: real, ops: seq<Op>, t: real)
    requires !Allowed(s, limit, key, now)
    requires ClockNeverBack([Call(key, now)] + ops + [Call(key, t)])
    requires forall op :: op in ops && op.Call? && op.key == key ==> Minute(op.now) == Minute(now)
    ensures Allowed(ExecFrom(s, limit, ops), limit, key, t) <==> t.Floor >= now.Floor + RetryAfter(now)
  {
    var all := [Call(key, now)] + ops + [Call(key, t)];
    assert all[0].now == now && all[|all| - 1].now == t;
    assert forall i :: 0 <= i < |ops| ==> all[i + 1] == ops[i];
    var latest := if ops == [] then Minute(now) else Minute(ops[|ops| - 1].now);
    if ops != [] {
      MinuteMonotone(all[0].now, all[1].now);
      MinuteMonotone(all[|ops|].now, t);
    } else {
      MinuteMonotone(now, t);
    }
    FullStays(s, limit, key, Minute(now), Minute(now), ops);
    assert Minute(now) <= latest <= Minute(t);
    assert t.Floor >= now.Floor + RetryAfter(now) <==> Minute(t) > Minute(now);
  }
}
