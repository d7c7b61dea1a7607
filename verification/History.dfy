/**
 What a model call is sent of a conversation: the oldest messages are dropped until two history bounds and a token
 budget are met, always leaving room for the pending message.
 */
module History {
  import opened Basics
  import OutputLimit

  /** A message, and what the token estimator says about it. */
  datatype Message = Message(content: string, tokens: nat)

  function Bytes(m: Message): nat { OutputLimit.Size(m.content) }

  function TotalBytes(h: seq<Message>): nat {
    if h == [] then 0 else Bytes(h[0]) + TotalBytes(h[1..])
  }

  function TotalTokens(h: seq<Message>): nat {
    if h == [] then 0 else h[0].tokens + TotalTokens(h[1..])
  }

  // ---- longest suffixes ----

  /** What is left after dropping `k` messages is within a bound, or nothing is left, and no longer suffix is. */
  ghost predicate LongestAt(h: seq<Message>, within: seq<Message> -> bool, k: nat)
    requires k <= |h|
  {
    (k < |h| ==> within(h[k..])) && forall j: nat :: j < k ==> !within(h[j..])
  }

  ghost predicate LongestWithin(h: seq<Message>, within: seq<Message> -> bool, kept: seq<Message>) {
    |kept| <= |h| && kept == h[|h| - |kept|..] && LongestAt(h, within, |h| - |kept|)
  }

  /** Dropping older messages never breaks a bound that was met. */
  ghost predicate KeptBySuffixes(within: seq<Message> -> bool) {
    forall h: seq<Message>, k: nat {:trigger within(h[k..])} :: k <= |h| && within(h) ==> within(h[k..])
  }

  function Both(first: seq<Message> -> bool, second: seq<Message> -> bool): seq<Message> -> bool {
    s => first(s) && second(s)
  }

  lemma LongestIsUnique(h: seq<Message>, within: seq<Message> -> bool, x: seq<Message>, y: seq<Message>)
    requires LongestWithin(h, within, x) && LongestWithin(h, within, y)
    ensures x == y
  {
    NoLater(h, within, |h| - |x|, |h| - |y|);
    NoLater(h, within, |h| - |y|, |h| - |x|);
  }

  lemma NoLater(h: seq<Message>, within: seq<Message> -> bool, j: nat, k: nat)
    requires j <= |h| && k <= |h| && LongestAt(h, within, j) && LongestAt(h, within, k)
    ensures j <= k
  {
    if k < |h| { assert within(h[k..]); }
  }

  lemma BothCommutes(h: seq<Message>, first: seq<Message> -> bool, second: seq<Message> -> bool, kept: seq<Message>)
    requires LongestWithin(h, Both(first, second), kept)
    ensures LongestWithin(h, Both(second, first), kept)
  {
    forall j: nat | j < |h| - |kept| ensures !Both(second, first)(h[j..]) {
      assert !Both(first, second)(h[j..]);
    }
  }

  /** Two bounds one after the other are both bounds at once. */
  lemma BoundsCompose(h: seq<Message>, first: seq<Message> -> bool, second: seq<Message> -> bool,
                      x: seq<Message>, y: seq<Message>)
    requires KeptBySuffixes(first)
    requires LongestWithin(h, first, x) && LongestWithin(x, second, y)
    ensures LongestWithin(h, Both(first, second), y)
  {
    var j, k := |h| - |x|, |x| - |y|;
    assert y == h[j + k..];
    if y != [] { assert first(x[k..]); }
    forall i: nat | i < j + k ensures !Both(first, second)(h[i..]) {
      if i < j {
        assert !first(h[i..]);
      } else {
        assert h[i..] == x[i - j..] && !second(x[i - j..]);
      }
    }
  }

  // ---- the bounds ----

  predicate FitsHistory(h: seq<Message>, pending: Message, maxMessages: int, maxBytes: int) {
    |h| + 1 <= maxMessages && TotalBytes(h) + Bytes(pending) <= maxBytes
  }

  predicate FitsWindow(h: seq<Message>, pending: Message, budget: int) {
    TotalTokens(h) + pending.tokens <= budget
  }

  function HistoryBound(pending: Message, maxMessages: int, maxBytes: int): seq<Message> -> bool {
    s => FitsHistory(s, pending, maxMessages, maxBytes)
  }

  function WindowBound(pending: Message, budget: int): seq<Message> -> bool {
    s => FitsWindow(s, pending, budget)
  }

  lemma {:induction false} SuffixCostsLess(h: seq<Message>, k: nat)
    requires k <= |h|
    ensures TotalBytes(h[k..]) <= TotalBytes(h) && TotalTokens(h[k..]) <= TotalTokens(h)
  {
    if k > 0 {
      SuffixCostsLess(h[1..], k - 1);
      assert h[1..][k - 1..] == h[k..];
    } else {
      assert h[0..] == h;
    }
  }

  lemma BoundsAreKeptBySuffixes(pending: Message, maxMessages: int, maxBytes: int, budget: int)
    ensures KeptBySuffixes(HistoryBound(pending, maxMessages, maxBytes))
    ensures KeptBySuffixes(WindowBound(pending, budget))
  {
    forall h: seq<Message>, k: nat | k <= |h|
      ensures FitsHistory(h, pending, maxMessages, maxBytes) ==> FitsHistory(h[k..], pending, maxMessages, maxBytes)
      ensures FitsWindow(h, pending, budget) ==> FitsWindow(h[k..], pending, budget)
    {
      SuffixCostsLess(h, k);
    }
  }

  // ---- the two loops ----

  const TOO_LONG := "context_length_exceeded"

  method PruneHistory(persisted: seq<Message>, pending: Message, maxMessages: int, maxBytes: int)
    returns (r: Result<seq<Message>>)
    ensures r.Failure? <==> Bytes(pending) > maxBytes
    ensures r.Failure? ==> r.code == TOO_LONG
    ensures r.Success? ==> LongestWithin(persisted, HistoryBound(pending, maxMessages, maxBytes), r.value)
  {
    var pendingBytes := Bytes(pending);
    if pendingBytes > maxBytes { return Failure(TOO_LONG); }
    var kept := persisted;
    var total := TotalBytes(kept) + pendingBytes;
    ghost var k: nat := 0;
    while kept != [] && (|kept| + 1 > maxMessages || total > maxBytes)
      invariant k <= |persisted| && kept == persisted[k..] && total == TotalBytes(kept) + pendingBytes
      invariant forall j: nat :: j < k ==> !FitsHistory(persisted[j..], pending, maxMessages, maxBytes)
      decreases |kept|
    {
      var removed := kept[0];
      kept := kept[1..];
      total := total - Bytes(removed);
      k := k + 1;
    }
    r := Success(kept);
  }

  /** The budget left for input, or why there is none. */
  function Budget(window: int, reserved: int): int {
    window - if reserved < 1 then 1 else reserved
  }

  method TrimToContextWindow(history: seq<Message>, pending: Message, window: int, reservedTokens: int)
    returns (r: Result<seq<Message>>)
    ensures var budget := Budget(window, reservedTokens);
      r.Failure? <==> window > 0 && (budget <= 0 || pending.tokens > budget)
    ensures r.Failure? ==> r.code == TOO_LONG
    ensures r.Success? && window <= 0 ==> r.value == history
    ensures r.Success? && window > 0 ==>
      LongestWithin(history, WindowBound(pending, Budget(window, reservedTokens)), r.value)
  {
    if window <= 0 { return Success(history); }
    var reserved := if reservedTokens < 1 then 1 else reservedTokens;
    if reserved >= window { return Failure(TOO_LONG); }
    var budget := window - reserved;
    if pending.tokens > budget { return Failure(TOO_LONG); }
    var kept := history;
    var total := TotalTokens(kept) + pending.tokens;
    ghost var k: nat := 0;
    while kept != [] && total > budget
      invariant k <= |history| && kept == history[k..] && total == TotalTokens(kept) + pending.tokens
      invariant forall j: nat :: j < k ==> !FitsWindow(history[j..], pending, budget)
      decreases |kept|
    {
      var removed := kept[0];
      kept := kept[1..];
      total := total - removed.tokens;
      k := k + 1;
    }
    r := Success(kept);
  }

  // ---- either order ----

  /** Pruning and trimming in either order keep the same messages: the longest suffix that meets all three bounds. */
  lemma EitherOrder(h: seq<Message>, pending: Message, maxMessages: int, maxBytes: int, budget: int,
                    pruned: seq<Message>, thenTrimmed: seq<Message>, trimmed: seq<Message>, thenPruned: seq<Message>)
    requires LongestWithin(h, HistoryBound(pending, maxMessages, maxBytes), pruned)
    requires LongestWithin(pruned, WindowBound(pending, budget), thenTrimmed)
    requires LongestWithin(h, WindowBound(pending, budget), trimmed)
    requires LongestWithin(trimmed, HistoryBound(pending, maxMessages, maxBytes), thenPruned)
    ensures thenTrimmed == thenPruned
    ensures LongestWithin(h, Both(HistoryBound(pending, maxMessages, maxBytes),
                                WindowBound(pending, budget)), thenTrimmed)
  {
    var history, window := HistoryBound(pending, maxMessages, maxBytes), WindowBound(pending, budget);
    BoundsAreKeptBySuffixes(pending, maxMessages, maxBytes, budget);
    BoundsCompose(h, history, window, pruned, thenTrimmed);
    BoundsCompose(h, window, history, trimmed, thenPruned);
    BothCommutes(h, window, history, thenPruned);
    LongestIsUnique(h, Both(history, window), thenTrimmed, thenPruned);
  }
}
