/**
 The edit distance behind "closest config path" suggestions: one row of the dynamic programme, overwritten in
 place. The meaning it is measured against is the cheapest script of single-character edits.
 */
module EditDistance {
  import opened Basics

  datatype Edit = Keep(c: char) | Change(from: char, to: char) | Insert(to: char) | Delete(from: char)

  type Script = seq<Edit>

  function Source(s: Script): string {
    if s == [] then []
    else
      var rest, e := Source(s[..|s| - 1]), s[|s| - 1];
      match e
      case Keep(c) => rest + [c]
      case Change(from, _) => rest + [from]
      case Insert(_) => rest
      case Delete(from) => rest + [from]
  }

  function Target(s: Script): string {
    if s == [] then []
    else
      var rest, e := Target(s[..|s| - 1]), s[|s| - 1];
      match e
      case Keep(c) => rest + [c]
      case Change(_, to) => rest + [to]
      case Insert(to) => rest + [to]
      case Delete(_) => rest
  }

  function Cost(s: Script): nat {
    if s == [] then 0 else Cost(s[..|s| - 1]) + (if s[|s| - 1].Keep? then 0 else 1)
  }

  ghost predicate Transforms(s: Script, a: string, b: string) {
    Source(s) == a && Target(s) == b
  }

  function Min(x: nat, y: nat): nat { if x < y then x else y }

  /** The recurrence of the table: distance of all of `a` from all of `b`, by their last characters. */
  function Distance(a: string, b: string): nat
    decreases |a| + |b|
  {
    if a == [] then |b|
    else if b == [] then |a|
    else
      var a', b' := a[..|a| - 1], b[..|b| - 1];
      Min(Min(Distance(a', b) + 1, Distance(a, b') + 1),
          Distance(a', b') + if a[|a| - 1] == b[|b| - 1] then 0 else 1)
  }

  function Reads(e: Edit): string { if e.Insert? then [] else if e.Keep? then [e.c] else [e.from] }

  function Writes(e: Edit): string { if e.Delete? then [] else if e.Keep? then [e.c] else [e.to] }

  function Price(e: Edit): nat { if e.Keep? then 0 else 1 }

  lemma Snoc(s: Script, e: Edit)
    ensures (s + [e])[..|s + [e]| - 1] == s
    ensures Cost(s + [e]) == Cost(s) + Price(e)
    ensures Source(s + [e]) == Source(s) + Reads(e)
    ensures Target(s + [e]) == Target(s) + Writes(e)
  {
    assert (s + [e])[..|s + [e]| - 1] == s;
  }

  lemma Recurrence(a: string, x: char, b: string, y: char)
    ensures Distance(a + [x], b + [y]) ==
      Min(Min(Distance(a, b + [y]) + 1, Distance(a + [x], b) + 1), Distance(a, b) + if x == y then 0 else 1)
  {
    assert (a + [x])[..|a|] == a && (b + [y])[..|b|] == b;
  }

  lemma LastEditOfBoth(a: string, x: char, b: string, y: char) returns (e: Edit, a': string, b': string)
    ensures a + [x] == a' + Reads(e) && b + [y] == b' + Writes(e) && |a'| + |b'| < |a + [x]| + |b + [y]|
    ensures Distance(a + [x], b + [y]) == Distance(a', b') + Price(e)
  {
    Recurrence(a, x, b, y);
    var d := Distance(a + [x], b + [y]);
    if d == Distance(a, b + [y]) + 1 {
      e, a', b' := Delete(x), a, b + [y];
    } else if d == Distance(a + [x], b) + 1 {
      e, a', b' := Insert(y), a + [x], b;
    } else {
      e, a', b' := if x == y then Keep(x) else Change(x, y), a, b;
    }
  }

  /** A last edit that the recurrence allows, and what is left of both strings before it. */
  lemma CheapestLastEdit(a: string, b: string) returns (e: Edit, a': string, b': string)
    requires a != [] || b != []
    ensures a == a' + Reads(e) && b == b' + Writes(e) && |a'| + |b'| < |a| + |b|
    ensures Distance(a, b) == Distance(a', b') + Price(e)
  {
    if a == [] {
      e, a', b' := Insert(b[|b| - 1]), a, b[..|b| - 1];
    } else if b == [] {
      e, a', b' := Delete(a[|a| - 1]), a[..|a| - 1], b;
      DistanceToEmpty(a);
      DistanceToEmpty(a');
    } else {
      var m, n := |a| - 1, |b| - 1;
      assert a == a[..m] + [a[m]] && b == b[..n] + [b[n]];
      e, a', b' := LastEditOfBoth(a[..m], a[m], b[..n], b[n]);
    }
  }

  /** Some script reaches the distance. */
  lemma {:induction false} DistanceIsReached(a: string, b: string) returns (s: Script)
    ensures Transforms(s, a, b) && Cost(s) == Distance(a, b)
    decreases |a| + |b|
  {
    if a == [] && b == [] {
      s := [];
    } else {
      var e, a', b' := CheapestLastEdit(a, b);
      var s' := DistanceIsReached(a', b');
      Snoc(s', e);
      s := s' + [e];
    }
  }

  /** One more character on either side costs at most one more edit. */
  lemma DistanceStep(a: string, b: string, x: char, y: char)
    ensures Distance(a + [x], b) <= Distance(a, b) + 1
    ensures Distance(a, b + [y]) <= Distance(a, b) + 1
    ensures Distance(a + [x], b + [y]) <= Distance(a, b) + if x == y then 0 else 1
  {
    assert (a + [x])[..|a|] == a && (b + [y])[..|b|] == b;
    if b == [] { DistanceToEmpty(a); }
  }

  lemma DistanceToEmpty(a: string)
    ensures Distance(a, []) == |a|
  {
  }

  /** No script beats the distance. */
  lemma {:induction false} NoScriptIsCheaper(s: Script)
    ensures Distance(Source(s), Target(s)) <= Cost(s)
    decreases |s|
  {
    if s != [] {
      var rest, e := s[..|s| - 1], s[|s| - 1];
      NoScriptIsCheaper(rest);
      var x := if e.Keep? then e.c else if e.Insert? then e.to else e.from;
      var y := if e.Keep? then e.c else if e.Delete? then e.from else e.to;
      DistanceStep(Source(rest), Target(rest), x, y);
    }
  }

  ghost predicate IsCheapest(d: nat, a: string, b: string) {
    && (exists s :: Transforms(s, a, b) && Cost(s) == d)
    && (forall s :: Transforms(s, a, b) ==> d <= Cost(s))
  }

  lemma DistanceIsCheapest(a: string, b: string)
    ensures IsCheapest(Distance(a, b), a, b)
  {
    var s := DistanceIsReached(a, b);
    forall t | Transforms(t, a, b) ensures Distance(a, b) <= Cost(t) {
      NoScriptIsCheaper(t);
    }
  }

  // ---- it is a metric ----

  function Inverse(e: Edit): Edit {
    match e
    case Keep(c) => Keep(c)
    case Change(from, to) => Change(to, from)
    case Insert(to) => Delete(to)
    case Delete(from) => Insert(from)
  }

  lemma {:induction false} UndoScript(s: Script) returns (t: Script)
    ensures Transforms(t, Target(s), Source(s)) && Cost(t) == Cost(s)
    decreases |s|
  {
    if s == [] {
      t := [];
    } else {
      var t' := UndoScript(s[..|s| - 1]);
      Snoc(t', Inverse(s[|s| - 1]));
      t := t' + [Inverse(s[|s| - 1])];
    }
  }

  lemma {:induction false} FreeScriptIsIdentity(s: Script)
    requires Cost(s) == 0
    ensures Source(s) == Target(s)
    decreases |s|
  {
    if s != [] {
      FreeScriptIsIdentity(s[..|s| - 1]);
    }
  }

  lemma {:induction false} SelfDistance(a: string)
    ensures Distance(a, a) == 0
    decreases |a|
  {
    if a != [] {
      SelfDistance(a[..|a| - 1]);
    }
  }

  /** Two scripts that meet in the middle merge into one that costs no more than both. */
  lemma {:induction false} Compose(s: Script, t: Script) returns (u: Script)
    requires Target(s) == Source(t)
    ensures Transforms(u, Source(s), Target(t)) && Cost(u) <= Cost(s) + Cost(t)
    decreases |s| + |t|
  {
    if s == [] && t == [] {
      u := [];
    } else if t != [] && t[|t| - 1].Insert? {
      var u' := Compose(s, t[..|t| - 1]);
      Snoc(u', t[|t| - 1]);
      u := u' + [t[|t| - 1]];
    } else if s != [] && s[|s| - 1].Delete? {
      var u' := Compose(s[..|s| - 1], t);
      Snoc(u', s[|s| - 1]);
      u := u' + [s[|s| - 1]];
    } else {
      u := ComposeMeeting(s, t);
    }
  }

  /** The case where the last edits write and read the same middle character. */
  lemma {:induction false} ComposeMeeting(s: Script, t: Script) returns (u: Script)
    requires Target(s) == Source(t) && (s != [] || t != [])
    requires t != [] ==> !t[|t| - 1].Insert?
    requires s != [] ==> !s[|s| - 1].Delete?
    ensures Transforms(u, Source(s), Target(t)) && Cost(u) <= Cost(s) + Cost(t)
    decreases |s| + |t|, 0
  {
    assert s != [] ==> Target(s) != [];
    assert t != [] ==> Source(t) != [];
    var s', e := s[..|s| - 1], s[|s| - 1];
    var t', f := t[..|t| - 1], t[|t| - 1];
    var mid := Target(s);
    assert Target(s') == mid[..|mid| - 1] == Source(t');
    var u' := Compose(s', t');
    var from := if e.Keep? then Some(e.c) else if e.Insert? then None else Some(e.from);
    var to := if f.Keep? then Some(f.c) else if f.Delete? then None else Some(f.to);
    match (from, to) {
      case (None, None) =>
        u := u';
      case (Some(x), None) =>
        Snoc(u', Delete(x));
        u := u' + [Delete(x)];
      case (None, Some(y)) =>
        Snoc(u', Insert(y));
        u := u' + [Insert(y)];
      case (Some(x), Some(y)) =>
        var g := if x == y then Keep(x) else Change(x, y);
        Snoc(u', g);
        u := u' + [g];
    }
  }

  lemma DistanceIsMetric(a: string, b: string, c: string)
    ensures Distance(a, b) == 0 <==> a == b
    ensures Distance(a, b) == Distance(b, a)
    ensures Distance(a, c) <= Distance(a, b) + Distance(b, c)
  {
    var ab := DistanceIsReached(a, b);
    var ba := DistanceIsReached(b, a);
    var bc := DistanceIsReached(b, c);
    if Distance(a, b) == 0 { FreeScriptIsIdentity(ab); }
    if a == b { SelfDistance(a); }
    var undoneAb := UndoScript(ab);
    var undoneBa := UndoScript(ba);
    NoScriptIsCheaper(undoneAb);
    NoScriptIsCheaper(undoneBa);
    var ac := Compose(ab, bc);
    NoScriptIsCheaper(ac);
  }

  // ---- the row that is overwritten in place ----

  /** Entries before `j` already belong to the next row (one more character of `a`), the others still to the last. */
  ghost predicate RowUpTo(dp: seq<nat>, a: string, b: string, i: nat, j: nat)
    requires i < |a|
  {
    && |dp| == |b| + 1
    && (forall n :: 0 <= n < |dp| ==> dp[n] == Distance(if n < j then a[..i + 1] else a[..i], b[..n]))
  }

  lemma DistanceCell(a: string, b: string, i: nat, j: nat)
    requires i < |a| && j < |b|
    ensures Distance(a[..i + 1], b[..j + 1]) ==
      Min(Min(Distance(a[..i], b[..j + 1]) + 1, Distance(a[..i + 1], b[..j]) + 1),
          Distance(a[..i], b[..j]) + if a[i] == b[j] then 0 else 1)
  {
    assert a[..i + 1][..i] == a[..i] && b[..j + 1][..j] == b[..j];
  }

  lemma RowStarts(row: seq<nat>, a: string, b: string, i: nat)
    requires i < |a| && IsRow(row, a[..i], b)
    ensures RowUpTo(row[0 := i + 1], a, b, i, 1)
  {
    DistanceToEmpty(a[..i + 1]);
  }

  lemma RowStep(row: seq<nat>, prev: nat, a: string, b: string, i: nat, j: nat)
    requires i < |a| && j < |b| && RowUpTo(row, a, b, i, j + 1) && prev == Distance(a[..i], b[..j])
    ensures row[j + 1] == Distance(a[..i], b[..j + 1])
    ensures var cell := Min(Min(row[j + 1] + 1, row[j] + 1), prev + if a[i] == b[j] then 0 else 1);
      RowUpTo(row[j + 1 := cell], a, b, i, j + 2)
  {
    DistanceCell(a, b, i, j);
  }

  ghost predicate IsRow(dp: seq<nat>, prefix: string, b: string) {
    |dp| == |b| + 1 && forall n :: 0 <= n <= |b| ==> dp[n] == Distance(prefix, b[..n])
  }

  /** One pass of the inner loop: the row for `a[..i]` becomes the row for `a[..i + 1]`. */
  method NextRow(dp: array<nat>, a: string, b: string, i: nat)
    requires i < |a| && IsRow(dp[..], a[..i], b)
    modifies dp
    ensures IsRow(dp[..], a[..i + 1], b)
  {
    var prev := dp[0];
    ghost var row := dp[..];
    RowStarts(row, a, b, i);
    dp[0] := i + 1;
    assert dp[..] == row[0 := dp[0]];
    for j := 0 to |b|
      invariant RowUpTo(dp[..], a, b, i, j + 1)
      invariant prev == Distance(a[..i], b[..j])
    {
      row := dp[..];
      RowStep(row, prev, a, b, i, j);
      var cur := dp[j + 1];
      dp[j + 1] := Min(Min(dp[j + 1] + 1, dp[j] + 1), prev + if a[i] == b[j] then 0 else 1);
      assert dp[..] == row[j + 1 := dp[j + 1]];
      prev := cur;
    }
  }

  method Dist(a: string, b: string) returns (d: nat)
    ensures d == Distance(a, b)
    ensures IsCheapest(d, a, b)
  {
    var dp := new nat[|b| + 1](n => n);
    for i := 0 to |a|
      invariant IsRow(dp[..], a[..i], b)
    {
      NextRow(dp, a, b, i);
    }
    assert a[..|a|] == a && b[..|b|] == b;
    d := dp[..][|b|];
    DistanceIsCheapest(a, b);
  }
}
