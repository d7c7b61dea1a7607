/**
 Collision-safe tool names: globally over all servers in configured order, and within one list. Both searches take
 the first free name of the same sequence of candidates: the raw name, the server's name in front, then suffixes 2, 3,
 and so on.
 */
module McpNames {
  import opened Basics

  // ---- candidates ----

  function Digit(d: nat): char
    requires d < 10
  {
    "0123456789"[d]
  }

  function Decimal(n: nat): (s: string)
    ensures |s| > 0
  {
    if n < 10 then [Digit(n)] else Decimal(n / 10) + [Digit(n % 10)]
  }

  lemma DigitInjective(d: nat, e: nat)
    requires d < 10 && e < 10 && Digit(d) == Digit(e)
    ensures d == e
  {
  }

  lemma {:induction false} DecimalInjective(m: nat, n: nat)
    requires Decimal(m) == Decimal(n)
    ensures m == n
  {
    var s := Decimal(m);
    if m >= 10 && n >= 10 {
      assert Decimal(m / 10) == s[..|s| - 1] == Decimal(n / 10);
      assert Digit(m % 10) == s[|s| - 1] == Digit(n % 10);
      DigitInjective(m % 10, n % 10);
      DecimalInjective(m / 10, n / 10);
    } else {
      assert m >= 10 ==> |Decimal(m)| > 1;
      assert n >= 10 ==> |Decimal(n)| > 1;
      DigitInjective(m % 10, n % 10);
    }
  }

  /** Candidate 0 is the raw name, 1 has the server in front, `k` >= 2 also has the suffix `k`. */
  function Candidate(server: string, raw: string, k: nat): string {
    if k == 0 then raw
    else if k == 1 then server + "_" + raw
    else server + "_" + raw + "_" + Decimal(k)
  }

  lemma CandidatesDiffer(server: string, raw: string, j: nat, k: nat)
    requires j != k
    ensures Candidate(server, raw, j) != Candidate(server, raw, k)
  {
    if j >= 2 && k >= 2 {
      var base := server + "_" + raw + "_";
      assert (base + Decimal(j))[|base|..] == Decimal(j) && (base + Decimal(k))[|base|..] == Decimal(k);
      if Decimal(j) == Decimal(k) {
        DecimalInjective(j, k);
      }
    }
  }

  /** The name that both searches choose: the first candidate that is not in use. */
  ghost predicate Chosen(used: set<string>, server: string, raw: string, name: string) {
    exists k: nat ::
      && name == Candidate(server, raw, k) && name !in used
      && forall j: nat :: j < k ==> Candidate(server, raw, j) in used
  }

  lemma ChosenIsUnique(used: set<string>, server: string, raw: string, x: string, y: string)
    requires Chosen(used, server, raw, x) && Chosen(used, server, raw, y)
    ensures x == y
  {
    var j: nat :| x == Candidate(server, raw, j) && x !in used
      && forall i: nat :: i < j ==> Candidate(server, raw, i) in used;
    var k: nat :| y == Candidate(server, raw, k) && y !in used
      && forall i: nat :: i < k ==> Candidate(server, raw, i) in used;
    assert j < k ==> Candidate(server, raw, j) in used;
    assert k < j ==> Candidate(server, raw, k) in used;
  }

  /** The candidates tried so far, all taken: the search ends because they are as many as the tries. */
  ghost function Tried(server: string, raw: string, k: nat): (s: set<string>)
    ensures forall x :: x in s <==> exists j: nat :: j < k && x == Candidate(server, raw, j)
  {
    if k == 0 then {} else Tried(server, raw, k - 1) + {Candidate(server, raw, k - 1)}
  }

  lemma {:induction false} TriesAreDistinct(server: string, raw: string, k: nat)
    ensures |Tried(server, raw, k)| == k
  {
    if k > 0 {
      TriesAreDistinct(server, raw, k - 1);
      NextIsUntried(server, raw, k - 1);
      OneMore(Tried(server, raw, k - 1), Candidate(server, raw, k - 1));
    }
  }

  lemma NextIsUntried(server: string, raw: string, k: nat)
    ensures Candidate(server, raw, k) !in Tried(server, raw, k)
  {
    forall j: nat | j < k ensures Candidate(server, raw, j) != Candidate(server, raw, k) {
      CandidatesDiffer(server, raw, j, k);
    }
  }

  lemma OneMore(tried: set<string>, x: string)
    requires x !in tried
    ensures |tried + {x}| == |tried| + 1
  {
  }

  lemma TriesFitInUsed(used: set<string>, server: string, raw: string, k: nat)
    requires forall j: nat :: j < k ==> Candidate(server, raw, j) in used
    ensures k <= |used|
  {
    TriesAreDistinct(server, raw, k);
    assert Tried(server, raw, k) <= used;
    assert used == Tried(server, raw, k) + (used - Tried(server, raw, k));
  }

  // ---- one list of names ----

  /** `finals` are the choices for `raws`, one after the other, on top of the names already used. */
  ghost predicate Assigned(used: set<string>, server: string, raws: seq<string>, finals: seq<string>) {
    |finals| == |raws| &&
    forall i {:trigger ChosenAt(used, server, raws, finals, i)} ::
      0 <= i < |raws| ==> ChosenAt(used, server, raws, finals, i)
  }

  ghost predicate ChosenAt(used: set<string>, server: string, raws: seq<string>, finals: seq<string>, i: nat)
    requires i < |raws| && i < |finals|
  {
    Chosen(used + Names(finals[..i]), server, raws[i], finals[i])
  }

  function Names(xs: seq<string>): set<string> { set x | x in xs }

  lemma NamesSnoc(xs: seq<string>, x: string)
    ensures Names(xs + [x]) == Names(xs) + {x}
  {
  }

  ghost predicate Distinct(xs: seq<string>) {
    forall i, j :: 0 <= i < j < |xs| ==> xs[i] != xs[j]
  }

  lemma AssignedSnoc(used: set<string>, server: string, raws: seq<string>, finals: seq<string>,
                     raw: string, final: string)
    requires Assigned(used, server, raws, finals) && Chosen(used + Names(finals), server, raw, final)
    ensures Assigned(used, server, raws + [raw], finals + [final])
  {
    var more := finals + [final];
    assert more[..|finals|] == finals;
    forall i | 0 <= i < |finals| ensures ChosenAt(used, server, raws + [raw], more, i) {
      assert ChosenAt(used, server, raws, finals, i);
      assert more[..i] == finals[..i];
    }
    assert ChosenAt(used, server, raws + [raw], more, |finals|);
  }

  /** Assigned names are new and pairwise distinct. */
  lemma AssignedAreDistinct(used: set<string>, server: string, raws: seq<string>, finals: seq<string>)
    requires Assigned(used, server, raws, finals)
    ensures Distinct(finals) && used !! Names(finals)
  {
    forall i, j | 0 <= i < j < |finals| ensures finals[i] != finals[j] {
      assert ChosenAt(used, server, raws, finals, j);
      assert finals[..j][i] == finals[i];
    }
    forall i | 0 <= i < |finals| ensures finals[i] !in used {
      assert ChosenAt(used, server, raws, finals, i);
    }
  }

  lemma AssignedPrefix(used: set<string>, server: string, raws: seq<string>, finals: seq<string>, n: nat)
    requires Assigned(used, server, raws, finals) && n <= |raws|
    ensures Assigned(used, server, raws[..n], finals[..n])
  {
    forall i | 0 <= i < n ensures ChosenAt(used, server, raws[..n], finals[..n], i) {
      assert ChosenAt(used, server, raws, finals, i);
      assert finals[..n][..i] == finals[..i];
    }
  }

  lemma {:induction false} AssignedIsUnique(used: set<string>, server: string, raws: seq<string>,
                                           f: seq<string>, g: seq<string>)
    requires Assigned(used, server, raws, f) && Assigned(used, server, raws, g)
    ensures f == g
    decreases |raws|
  {
    if raws != [] {
      var n := |raws| - 1;
      AssignedPrefix(used, server, raws, f, n);
      AssignedPrefix(used, server, raws, g, n);
      AssignedIsUnique(used, server, raws[..n], f[..n], g[..n]);
      assert ChosenAt(used, server, raws, f, n) && ChosenAt(used, server, raws, g, n);
      ChosenIsUnique(used + Names(f[..n]), server, raws[n], f[n], g[n]);
      assert f == f[..n] + [f[n]] && g == g[..n] + [g[n]];
    }
  }

  /** The suffix search of the global renaming. */
  method FindFree(used: set<string>, server: string, raw: string) returns (name: string)
    requires raw in used
    ensures Chosen(used, server, raw, name)
  {
    var candidate := server + "_" + raw;
    var suffix := 2;
    ghost var k := 1;
    while candidate in used
      invariant suffix == k + 1 && candidate == Candidate(server, raw, k)
      invariant forall j: nat :: j < k ==> Candidate(server, raw, j) in used
      decreases |used| + 1 - k
    {
      candidate := server + "_" + raw + "_" + Decimal(suffix);
      suffix := suffix + 1;
      k := k + 1;
      TriesFitInUsed(used, server, raw, k);
    }
    name := candidate;
  }

  /** `rename_collision_safe`: the same choice by another loop. */
  method RenameCollisionSafe(raws: seq<string>, server: string) returns (out: seq<string>)
    ensures Assigned({}, server, raws, out)
    ensures |out| == |raws| && Distinct(out)
  {
    out := [];
    var used: set<string> := {};
    for i := 0 to |raws|
      invariant used == Names(out) && Assigned({}, server, raws[..i], out)
    {
      var raw := raws[i];
      var candidate := raw;
      assert Candidate(server, raw, 0) == raw && Candidate(server, raw, 1) == server + "_" + raw;
      if raw !in used {
        assert Chosen(used, server, raw, candidate);
      } else {
        candidate := server + "_" + raw;
        if candidate !in used {
          assert Chosen(used, server, raw, candidate);
        } else {
          candidate := SuffixSearch(used, server, raw);
        }
      }
      assert {} + Names(out) == used;
      AssignedSnoc({}, server, raws[..i], out, raw, candidate);
      NamesSnoc(out, candidate);
      assert raws[..i + 1] == raws[..i] + [raw];
      out := out + [candidate];
      used := used + {candidate};
    }
    assert raws[..|raws|] == raws;
    AssignedAreDistinct({}, server, raws, out);
  }

  method SuffixSearch(used: set<string>, server: string, raw: string) returns (candidate: string)
    requires raw in used && server + "_" + raw in used
    ensures Chosen(used, server, raw, candidate)
  {
    var n := 2;
    candidate := server + "_" + raw + "_" + Decimal(n);
    while candidate in used
      invariant n >= 2 && candidate == Candidate(server, raw, n)
      invariant forall j: nat :: j < n ==> Candidate(server, raw, j) in used
      decreases |used| + 1 - n
    {
      n := n + 1;
      TriesFitInUsed(used, server, raw, n);
      candidate := server + "_" + raw + "_" + Decimal(n);
    }
  }

  // ---- all servers ----

  datatype Server = Server(name: string, raws: seq<string>, filtered: seq<string>)

  /** Every name given to the servers before `n`. */
  function UsedBefore(finals: seq<seq<string>>, n: nat): set<string>
    requires n <= |finals|
  {
    if n == 0 then {} else UsedBefore(finals, n - 1) + Names(finals[n - 1])
  }

  ghost predicate GloballyAssigned(servers: seq<Server>, finals: seq<seq<string>>) {
    && |finals| == |servers|
    && (forall n :: 0 <= n < |servers| ==> |finals[n]| == |servers[n].filtered|)
    && forall n {:trigger AssignedAt(servers, finals, n)} :: 0 <= n < |servers| ==> AssignedAt(servers, finals, n)
  }

  /** The names of server `n`, on top of those of the servers before it. */
  ghost predicate AssignedAt(servers: seq<Server>, finals: seq<seq<string>>, n: nat)
    requires n < |finals| && n < |servers|
  {
    Assigned(UsedBefore(finals, n), servers[n].name, servers[n].filtered, finals[n])
  }

  lemma {:induction false} UsedBeforePrefix(finals: seq<seq<string>>, more: seq<seq<string>>, n: nat)
    requires n <= |finals| && finals <= more
    ensures UsedBefore(finals, n) == UsedBefore(more, n)
  {
    if n > 0 {
      UsedBeforePrefix(finals, more, n - 1);
    }
  }

  lemma {:induction false} UsedBeforeHolds(finals: seq<seq<string>>, n: nat, m: nat, i: nat)
    requires m < n <= |finals| && i < |finals[m]|
    ensures finals[m][i] in UsedBefore(finals, n)
  {
    if m < n - 1 {
      UsedBeforeHolds(finals, n - 1, m, i);
    }
  }

  /** All final names are pairwise distinct, within a server and across servers. */
  lemma FinalNamesAreDistinct(servers: seq<Server>, finals: seq<seq<string>>, m: nat, i: nat, n: nat, j: nat)
    requires GloballyAssigned(servers, finals)
    requires m < |finals| && i < |finals[m]| && n < |finals| && j < |finals[n]| && (m, i) != (n, j)
    ensures finals[m][i] != finals[n][j]
  {
    assert AssignedAt(servers, finals, m) && AssignedAt(servers, finals, n);
    AssignedAreDistinct(UsedBefore(finals, n), servers[n].name, servers[n].filtered, finals[n]);
    AssignedAreDistinct(UsedBefore(finals, m), servers[m].name, servers[m].filtered, finals[m]);
    if m < n {
      UsedBeforeHolds(finals, n, m, i);
    } else if n < m {
      UsedBeforeHolds(finals, m, n, j);
    }
  }

  lemma NextServerAgrees(s: Server, t: Server, f: seq<seq<string>>, g: seq<seq<string>>, m: nat)
    requires m < |f| && m < |g| && f[..m] == g[..m] && s == t
    requires Assigned(UsedBefore(f, m), s.name, s.filtered, f[m])
    requires Assigned(UsedBefore(g, m), t.name, t.filtered, g[m])
    ensures f[..m + 1] == g[..m + 1]
  {
    UsedBeforePrefix(f[..m], f, m);
    UsedBeforePrefix(f[..m], g, m);
    AssignedIsUnique(UsedBefore(f, m), s.name, s.filtered, f[m], g[m]);
    assert f[..m + 1] == f[..m] + [f[m]] && g[..m + 1] == g[..m] + [g[m]];
  }

  lemma {:induction false} FirstServersAgree(servers: seq<Server>, more: seq<Server>,
                                           f: seq<seq<string>>, g: seq<seq<string>>, n: nat)
    requires servers <= more && GloballyAssigned(servers, f) && GloballyAssigned(more, g) && n <= |servers|
    ensures f[..n] == g[..n]
  {
    if n > 0 {
      var m := n - 1;
      FirstServersAgree(servers, more, f, g, m);
      assert AssignedAt(servers, f, m) && AssignedAt(more, g, m);
      NextServerAgrees(servers[m], more[m], f, g, m);
    }
  }

  /** The names of earlier servers do not depend on later ones: a longer configuration extends the assignment. */
  lemma EarlierServersAreIndependent(servers: seq<Server>, more: seq<Server>, f: seq<seq<string>>, g: seq<seq<string>>)
    requires servers <= more && GloballyAssigned(servers, f) && GloballyAssigned(more, g)
    ensures f <= g
  {
    FirstServersAgree(servers, more, f, g, |servers|);
    assert f[..|servers|] == f;
  }

  /** One list on its own is the one-server case of the global renaming. */
  lemma OneServerIsRename(server: Server, out: seq<string>)
    ensures GloballyAssigned([server], [out]) <==> Assigned({}, server.name, server.filtered, out)
  {
    assert AssignedAt([server], [out], 0) <==> Assigned({}, server.name, server.filtered, out);
  }

  class Manager {
    var servers: seq<Server>
    var finals: seq<seq<string>>

    constructor (servers: seq<Server>)
      ensures this.servers == servers && this.finals == []
    {
      this.servers := servers;
      finals := [];
    }

    method RecomputeFinals()
      modifies this`finals
      ensures GloballyAssigned(servers, finals)
    {
      var used: set<string> := {};
      finals := [];
      for n := 0 to |servers|
        invariant unchanged(`servers) && |finals| == n && used == UsedBefore(finals, n)
        invariant GloballyAssigned(servers[..n], finals)
      {
        var names := NameServer(used, servers[n].name, servers[n].filtered);
        assert servers[..n + 1] == servers[..n] + [servers[n]];
        ExtendAssignment(servers[..n], finals, servers[n], names);
        used := used + Names(names);
        finals := finals + [names];
      }
      assert servers[..|servers|] == servers;
    }

    /** The first server and position whose final name matches, as the pair of its server and raw name. */
    method LookupTool(final: string) returns (found: Option<(string, string)>)
      ensures found == Lookup(servers, finals, final)
    {
      for n := 0 to |servers|
        invariant Lookup(servers, finals, final) == LookupFrom(servers, finals, final, n)
      {
        if n < |finals| {
          var raws, names := servers[n].raws, finals[n];
          for i := 0 to if |raws| < |names| then |raws| else |names|
            invariant LookupIn(raws, names, final, 0) == LookupIn(raws, names, final, i)
          {
            if names[i] == final {
              return Some((servers[n].name, raws[i]));
            }
          }
        }
      }
      found := None;
    }
  }

  method NameServer(used: set<string>, server: string, filtered: seq<string>) returns (names: seq<string>)
    ensures Assigned(used, server, filtered, names)
  {
    names := [];
    var taken := used;
    for i := 0 to |filtered|
      invariant taken == used + Names(names) && Assigned(used, server, filtered[..i], names)
    {
      var raw := filtered[i];
      var name := raw;
      assert Candidate(server, raw, 0) == raw;
      if raw in taken {
        name := FindFree(taken, server, raw);
      } else {
        assert Chosen(taken, server, raw, raw);
      }
      AssignedSnoc(used, server, filtered[..i], names, raw, name);
      NamesSnoc(names, name);
      assert filtered[..i + 1] == filtered[..i] + [raw];
      names := names + [name];
      taken := taken + {name};
    }
    assert filtered[..|filtered|] == filtered;
  }

  lemma StaysAssigned(servers: seq<Server>, finals: seq<seq<string>>, server: Server, names: seq<string>, n: nat)
    requires n < |finals| && n < |servers| && AssignedAt(servers, finals, n)
    ensures AssignedAt(servers + [server], finals + [names], n)
  {
    UsedBeforePrefix(finals, finals + [names], n);
  }

  lemma LastIsAssigned(servers: seq<Server>, finals: seq<seq<string>>, server: Server, names: seq<string>)
    requires |finals| == |servers| && Assigned(UsedBefore(finals, |finals|), server.name, server.filtered, names)
    ensures AssignedAt(servers + [server], finals + [names], |finals|)
    ensures UsedBefore(finals + [names], |finals| + 1) == UsedBefore(finals, |finals|) + Names(names)
  {
    UsedBeforePrefix(finals, finals + [names], |finals|);
  }

  lemma SameLengths(servers: seq<Server>, finals: seq<seq<string>>, server: Server, names: seq<string>)
    requires |finals| == |servers| && |names| == |server.filtered|
    requires forall n :: 0 <= n < |servers| ==> |finals[n]| == |servers[n].filtered|
    ensures forall n :: 0 <= n < |servers| + 1 ==> |(finals + [names])[n]| == |(servers + [server])[n].filtered|
  {
  }

  lemma ExtendAssignment(servers: seq<Server>, finals: seq<seq<string>>, server: Server, names: seq<string>)
    requires GloballyAssigned(servers, finals)
    requires Assigned(UsedBefore(finals, |finals|), server.name, server.filtered, names)
    ensures GloballyAssigned(servers + [server], finals + [names])
    ensures UsedBefore(finals + [names], |finals| + 1) == UsedBefore(finals, |finals|) + Names(names)
  {
    LastIsAssigned(servers, finals, server, names);
    SameLengths(servers, finals, server, names);
    forall n | 0 <= n < |finals| + 1 ensures AssignedAt(servers + [server], finals + [names], n) {
      if n < |finals| {
        StaysAssigned(servers, finals, server, names, n);
      }
    }
  }

  // ---- looking a final name up ----

  /** Position of `final` among the pairs of raw and final names, the raw name there. */
  function LookupIn(raws: seq<string>, names: seq<string>, final: string, i: nat): Option<string>
    decreases |raws| - i
  {
    if i >= |raws| || i >= |names| then None
    else if names[i] == final then Some(raws[i])
    else LookupIn(raws, names, final, i + 1)
  }

  function LookupFrom(servers: seq<Server>, finals: seq<seq<string>>, final: string, n: nat): Option<(string, string)>
    decreases |servers| - n
  {
    if n >= |servers| || n >= |finals| then None
    else
      match LookupIn(servers[n].raws, finals[n], final, 0)
      case Some(raw) => Some((servers[n].name, raw))
      case None => LookupFrom(servers, finals, final, n + 1)
  }

  function Lookup(servers: seq<Server>, finals: seq<seq<string>>, final: string): Option<(string, string)> {
    LookupFrom(servers, finals, final, 0)
  }

  lemma {:induction false} LookupInFinds(raws: seq<string>, names: seq<string>, i: nat, from: nat)
    requires Distinct(names) && from <= i < |names| && |names| <= |raws|
    ensures LookupIn(raws, names, names[i], from) == Some(raws[i])
    decreases i - from
  {
    if from < i {
      LookupInFinds(raws, names, i, from + 1);
    }
  }

  lemma {:induction false} LookupInMisses(raws: seq<string>, names: seq<string>, final: string, from: nat)
    requires final !in names
    ensures LookupIn(raws, names, final, from) == None
    decreases |raws| - from
  {
    if from < |raws| && from < |names| {
      LookupInMisses(raws, names, final, from + 1);
    }
  }

  lemma {:induction false} LookupFromFinds(servers: seq<Server>, finals: seq<seq<string>>, n: nat, i: nat, from: nat)
    requires GloballyAssigned(servers, finals) && FilteredAreNoMore(servers)
    requires from <= n < |servers| && i < |finals[n]|
    ensures LookupFrom(servers, finals, finals[n][i], from) == Some((servers[n].name, servers[n].raws[i]))
    decreases n - from
  {
    if from < n {
      forall j | 0 <= j < |finals[from]| ensures finals[from][j] != finals[n][i] {
        FinalNamesAreDistinct(servers, finals, from, j, n, i);
      }
      LookupInMisses(servers[from].raws, finals[from], finals[n][i], 0);
      LookupFromFinds(servers, finals, n, i, from + 1);
    } else {
      assert AssignedAt(servers, finals, n);
      AssignedAreDistinct(UsedBefore(finals, n), servers[n].name, servers[n].filtered, finals[n]);
      LookupInFinds(servers[n].raws, finals[n], i, 0);
    }
  }

  /** Filtering only drops names. */
  ghost predicate FilteredAreNoMore(servers: seq<Server>) {
    forall n :: 0 <= n < |servers| ==> |servers[n].filtered| <= |servers[n].raws|
  }

  /** Looking up every final name gives its server and the raw name that it was made from, for every tool of
      every server, exactly when each server's filtered names are a prefix of its raw names. */
  lemma LookupInvertsExactlyOnPrefixes(servers: seq<Server>, finals: seq<seq<string>>)
    requires GloballyAssigned(servers, finals) && FilteredAreNoMore(servers)
    ensures
      (forall n, i :: 0 <= n < |servers| && 0 <= i < |finals[n]| ==>
         Lookup(servers, finals, finals[n][i]) == Some((servers[n].name, servers[n].filtered[i])))
      <==> forall n :: 0 <= n < |servers| ==> servers[n].filtered <= servers[n].raws
  {
    forall n, i | 0 <= n < |servers| && 0 <= i < |finals[n]|
      ensures Lookup(servers, finals, finals[n][i]) == Some((servers[n].name, servers[n].raws[i]))
    {
      LookupFromFinds(servers, finals, n, i, 0);
    }
    if forall n, i :: 0 <= n < |servers| && 0 <= i < |finals[n]| ==>
         Lookup(servers, finals, finals[n][i]) == Some((servers[n].name, servers[n].filtered[i])) {
      forall n | 0 <= n < |servers| ensures servers[n].filtered <= servers[n].raws {
        assert |finals[n]| == |servers[n].filtered|;
        forall i | 0 <= i < |servers[n].filtered| ensures servers[n].filtered[i] == servers[n].raws[i] {
          assert finals[n][i] == finals[n][i];
        }
      }
    }
  }

  /** The final name stands at this place. */
  predicate StandsAt(servers: seq<Server>, finals: seq<seq<string>>, final: string, n: nat, i: nat) {
    n < |servers| && n < |finals| && i < |servers[n].raws| && i < |finals[n]| && finals[n][i] == final
  }

  /** Nothing is found exactly when the name stands nowhere; what is found is the server and the raw name of a place
      where it stands, before which it stands at none. */
  lemma LookupExactly(servers: seq<Server>, finals: seq<seq<string>>, final: string)
    ensures Lookup(servers, finals, final) == None <==> forall n: nat, i: nat :: !StandsAt(servers, finals, final, n, i)
    ensures Lookup(servers, finals, final).Some? ==>
      exists n: nat, i: nat ::
        && StandsAt(servers, finals, final, n, i)
        && Lookup(servers, finals, final).value == (servers[n].name, servers[n].raws[i])
        && forall m: nat, j: nat :: StandsAt(servers, finals, final, m, j) ==> m > n || (m == n && j >= i)
  {
    var found := LookupFromFirst(servers, finals, final, 0);
  }

  lemma {:induction false} LookupInFirst(raws: seq<string>, names: seq<string>, final: string, from: nat)
    returns (i: nat)
    ensures LookupIn(raws, names, final, from) == None <==>
      forall j: nat :: from <= j < |raws| && j < |names| ==> names[j] != final
    ensures LookupIn(raws, names, final, from).Some? ==>
      && from <= i < |raws| && i < |names| && names[i] == final && LookupIn(raws, names, final, from).value == raws[i]
      && forall j: nat :: from <= j < i ==> names[j] != final
    decreases |raws| - from
  {
    i := from;
    if from < |raws| && from < |names| && names[from] != final {
      i := LookupInFirst(raws, names, final, from + 1);
    }
  }

  lemma {:induction false} LookupFromFirst(servers: seq<Server>, finals: seq<seq<string>>, final: string, from: nat)
    returns (place: (nat, nat))
    ensures var found := LookupFrom(servers, finals, final, from);
      && (found == None <==> forall m: nat, j: nat :: m >= from ==> !StandsAt(servers, finals, final, m, j))
      && (found.Some? ==>
            && place.0 >= from && StandsAt(servers, finals, final, place.0, place.1)
            && found.value == (servers[place.0].name, servers[place.0].raws[place.1])
            && forall m: nat, j: nat :: m >= from && StandsAt(servers, finals, final, m, j) ==>
                 m > place.0 || (m == place.0 && j >= place.1))
    decreases |servers| - from
  {
    place := (0, 0);
    if from < |servers| && from < |finals| {
      var i := LookupInFirst(servers[from].raws, finals[from], final, 0);
      if LookupIn(servers[from].raws, finals[from], final, 0).Some? {
        place := (from, i);
        assert StandsAt(servers, finals, final, from, i);
      } else {
        place := LookupFromFirst(servers, finals, final, from + 1);
      }
    }
  }

  // ---- what the names look like ----

  /** The number that a string of digits stands for. */
  function ValueOf(digits: string): int {
    if digits == "" then 0
    else ValueOf(digits[..|digits| - 1]) * 10 + (digits[|digits| - 1] as int - '0' as int)
  }

  /** The suffix is written in decimal, without leading zeros. */
  lemma {:induction false} DecimalReadsBack(n: nat)
    ensures ValueOf(Decimal(n)) == n
    ensures forall c :: c in Decimal(n) ==> '0' <= c <= '9'
    ensures n > 0 ==> Decimal(n)[0] != '0'
  {
    if n >= 10 {
      DecimalReadsBack(n / 10);
      assert Decimal(n)[..|Decimal(n)| - 1] == Decimal(n / 10);
    } else {
      assert Decimal(n)[..0] == "" && ValueOf("") == 0;
    }
  }

  /** Four tools of one name on a server get the name itself, the server in front, and then the suffixes 2 and 3. */
  lemma FourAlike(server: string, raw: string, finals: seq<string>)
    requires Assigned({}, server, [raw, raw, raw, raw], finals)
    ensures finals == [raw, server + "_" + raw, server + "_" + raw + "_2", server + "_" + raw + "_3"]
  {
    var raws := [raw, raw, raw, raw];
    var first, second := raw, server + "_" + raw;
    var third, fourth := server + "_" + raw + "_2", server + "_" + raw + "_3";
    assert Decimal(2) == "2" && Decimal(3) == "3";
    assert Candidate(server, raw, 2) == third && Candidate(server, raw, 3) == fourth;
    NextAlike(server, raw, raws, finals, 0);
    NextAlike(server, raw, raws, finals, 1);
    NextAlike(server, raw, raws, finals, 2);
    NextAlike(server, raw, raws, finals, 3);
  }

  lemma NextAlike(server: string, raw: string, raws: seq<string>, finals: seq<string>, n: nat)
    requires Assigned({}, server, raws, finals) && n < |raws| && raws[n] == raw
    requires forall i: nat :: i < n ==> finals[i] == Candidate(server, raw, i)
    ensures finals[n] == Candidate(server, raw, n)
  {
    assert ChosenAt({}, server, raws, finals, n);
    forall i: nat | i < n ensures Candidate(server, raw, i) in {} + Names(finals[..n]) {
      assert finals[..n][i] == Candidate(server, raw, i);
    }
    forall x | x in {} + Names(finals[..n]) ensures x != Candidate(server, raw, n) {
      var i :| 0 <= i < n && finals[i] == x;
      CandidatesDiffer(server, raw, i, n);
    }
    ChosenIsUnique({} + Names(finals[..n]), server, raw, finals[n], Candidate(server, raw, n));
  }
}
