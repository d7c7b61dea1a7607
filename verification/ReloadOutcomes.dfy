/**
 Which paths belong to which class of changes, and what exactly becomes of a candidate configuration, told by what
 readers of the two configurations see.
 */
module ReloadOutcomes {
  import opened Basics
  import opened Documents
  import opened Reload

  // ---- the classes ----

  /** A path is in a class exactly if its dotted form continues one of the prefixes of the class. */
  lemma InClassExactly(prefixes: seq<string>, p: Path)
    ensures InClass(prefixes, p) <==> exists i, rest :: 0 <= i < |prefixes| && Dotted(p) == prefixes[i] + rest
  {
    if InClass(prefixes, p) {
      var i :| 0 <= i < |prefixes| && prefixes[i] <= Dotted(p);
      assert Dotted(p) == prefixes[i] + Dotted(p)[|prefixes[i]|..];
    }
  }

  lemma DottedGrows(p: Path, rest: Path)
    requires p != []
    ensures Dotted(p) <= Dotted(p + rest)
    ensures rest != [] ==> Dotted(p) + "." <= Dotted(p + rest)
  {
    if rest == [] {
      assert p + rest == p;
    } else {
      DottedAncestor(p + rest, |p|);
      assert (p + rest)[..|p|] == p;
    }
  }

  /** A class that has a section has everything below it. */
  lemma ClassIsInherited(prefixes: seq<string>, p: Path, rest: Path)
    requires p != [] && InClass(prefixes, p)
    ensures InClass(prefixes, p + rest)
  {
    DottedGrows(p, rest);
    var i :| 0 <= i < |prefixes| && prefixes[i] <= Dotted(p);
    assert prefixes[i] <= Dotted(p + rest);
  }

  /** The settings that need a restart and those that need a rebuild, key by key. An empty last key stands for
      everything below its section. */
  const RESTART_PATHS: seq<Path> := [
    ["schemaVersion"], ["name"], ["profile"],
    ["storage", "type"], ["storage", "path"], ["storage", "connectionString"],
    ["server", "host"], ["server", "port"], ["server", "protocols"], ["server", "cors"], ["server", "auth"],
    ["server", "trustedProxyCidrs"],
    ["server", "maxRequestLineBytes"], ["server", "maxHeaderBytes"], ["server", "maxHeaderCount"],
    ["observability", "prometheus"], ["k8s", ""], ["observability", "logFormat"], ["observability", "otel"]]

  const REBUILD_PATHS: seq<Path> := [
    ["engine", "systemInstruction"], ["engine", "temperature"], ["engine", "topP"], ["engine", "maxTokens"],
    ["llm", ""], ["tools", ""], ["agents"], ["approval"], ["rag"], ["costs"]]

  /** The path `p` goes through the sections of `q`, and its next key begins with the last key of `q`. */
  predicate Continues(q: Path, p: Path) {
    && 0 < |q| <= |p|
    && (forall j :: 0 <= j < |q| - 1 ==> p[j] == q[j])
    && q[|q| - 1] <= p[|q| - 1]
  }

  predicate NoDot(s: string) { NoDotFrom(s, 0) }

  lemma KeyBegins(key: string, p: Path)
    requires p != [] && NoDot(key)
    ensures key <= Dotted(p) <==> key <= p[0]
  {
    DottedShape(p);
    if |p| > 1 { assert p[0] <= Dotted(p); }
  }

  lemma PairBegins(section: string, key: string, p: Path)
    requires p != [] && NoDot(section) && NoDot(key) && NoDot(p[0])
    ensures section + "." + key <= Dotted(p) <==> |p| > 1 && p[0] == section && key <= p[1]
  {
    var r := section + "." + key;
    DottedShape(p);
    if |p| > 1 {
      assert Dotted(p) == p[0] + "." + Dotted(p[1..]) && r[|section|] == '.';
      KeyBegins(key, p[1..]);
      if p[0] == section && key <= p[1] {
        assert (section + ".") + key <= (section + ".") + Dotted(p[1..]);
      }
      if r <= Dotted(p) { SameSection(section, key, p); }
    } else {
      assert r[|section|] == '.';
    }
  }

  lemma SameSection(section: string, key: string, p: Path)
    requires |p| > 1 && NoDot(section) && NoDot(p[0]) && section + "." + key <= Dotted(p)
    ensures p[0] == section && key <= Dotted(p[1..])
  {
    var r, d := section + "." + key, Dotted(p);
    assert d == p[0] + "." + Dotted(p[1..]);
    assert r[|section|] == d[|section|] == '.' && d[|p[0]|] == '.';
    assert forall i :: 0 <= i < |section| ==> d[i] == r[i] == section[i];
    assert forall i :: 0 <= i < |p[0]| ==> d[i] == p[0][i];
    assert |section| == |p[0]|;
    assert section == r[..|section|] == d[..|section|] == p[0];
    assert key == r[|section| + 1..] && Dotted(p[1..]) == d[|section| + 1..];
  }

  /** How an entry of a class reads as a path. */
  ghost predicate Reads(prefix: string, q: Path) {
    || (q == [prefix] && NoDot(prefix))
    || (|q| == 2 && prefix == q[0] + "." + q[1] && NoDot(q[0]) && NoDot(q[1]))
  }

  lemma EntryBegins(prefix: string, q: Path, p: Path)
    requires Reads(prefix, q) && p != [] && NoDot(p[0])
    ensures prefix <= Dotted(p) <==> Continues(q, p)
  {
    if |q| == 1 { KeyBegins(prefix, p); } else { PairBegins(q[0], q[1], p); }
  }

  lemma StorageReads(i: nat)
    requires i < 6
    ensures Reads(RESTART_REQUIRED[i], RESTART_PATHS[i])
  {
  }

  lemma ServerReads(i: nat)
    requires 6 <= i < 12
    ensures Reads(RESTART_REQUIRED[i], RESTART_PATHS[i])
  {
  }

  lemma ServerLimitsRead(i: nat)
    requires 12 <= i < 15
    ensures Reads(RESTART_REQUIRED[i], RESTART_PATHS[i])
  {
  }

  lemma ObservabilityReads(i: nat)
    requires 15 <= i < 19
    ensures Reads(RESTART_REQUIRED[i], RESTART_PATHS[i])
  {
  }

  lemma RestartReads(i: nat)
    requires i < |RESTART_REQUIRED|
    ensures |RESTART_PATHS| == |RESTART_REQUIRED| && Reads(RESTART_REQUIRED[i], RESTART_PATHS[i])
  {
    if i < 6 { StorageReads(i); } else if i < 12 { ServerReads(i); } else if i < 15 { ServerLimitsRead(i); }
    else { ObservabilityReads(i); }
  }

  lemma EngineReads(i: nat)
    requires i < 4
    ensures Reads(REBUILD[i], REBUILD_PATHS[i])
  {
  }

  lemma SectionsRead(i: nat)
    requires 4 <= i < 10
    ensures Reads(REBUILD[i], REBUILD_PATHS[i])
  {
  }

  lemma RebuildReads(i: nat)
    requires i < |REBUILD|
    ensures |REBUILD_PATHS| == |REBUILD| && Reads(REBUILD[i], REBUILD_PATHS[i])
  {
    if i < 4 { EngineReads(i); } else { SectionsRead(i); }
  }

  /** Which settings are in which class, key by key: those listed, those whose last key only begins with a listed one,
      and all that is below them. */
  lemma ClassesByKey(p: Path)
    requires p != [] && NoDot(p[0])
    ensures InClass(RESTART_REQUIRED, p) <==> exists q :: q in RESTART_PATHS && Continues(q, p)
    ensures InClass(REBUILD, p) <==> exists q :: q in REBUILD_PATHS && Continues(q, p)
  {
    forall i | 0 <= i < |RESTART_REQUIRED|
      ensures |RESTART_PATHS| == |RESTART_REQUIRED|
      ensures RESTART_REQUIRED[i] <= Dotted(p) <==> Continues(RESTART_PATHS[i], p)
    {
      RestartReads(i);
      EntryBegins(RESTART_REQUIRED[i], RESTART_PATHS[i], p);
    }
    forall i | 0 <= i < |REBUILD|
      ensures |REBUILD_PATHS| == |REBUILD| && (REBUILD[i] <= Dotted(p) <==> Continues(REBUILD_PATHS[i], p))
    {
      RebuildReads(i);
      EntryBegins(REBUILD[i], REBUILD_PATHS[i], p);
    }
  }

  lemma BelowSection(prefixes: seq<string>, i: nat, section: string, rest: Path)
    requires i < |prefixes| && prefixes[i] == section + "." && rest != []
    ensures InClass(prefixes, [section] + rest)
  {
    DottedGrows([section], rest);
  }

  /** Everything below these three sections is in its class. */
  lemma SectionsAreClassified(rest: Path)
    requires rest != []
    ensures InClass(RESTART_REQUIRED, ["k8s"] + rest)
    ensures InClass(REBUILD, ["llm"] + rest) && InClass(REBUILD, ["tools"] + rest)
  {
    BelowSection(RESTART_REQUIRED, 16, "k8s", rest);
    BelowSection(REBUILD, 4, "llm", rest);
    BelowSection(REBUILD, 5, "tools", rest);
  }

  // ---- what becomes of a candidate ----

  /** Some path of the class reads differently. */
  ghost predicate Differs(prefixes: seq<string>, o: Val, n: Val) {
    exists p :: InClass(prefixes, p) && KindAt(o, p) != KindAt(n, p)
  }

  /** Each outcome, by the candidate, by what readers see, and by how a rebuild for it would go. */
  lemma OutcomeExactly(s: State, a: Attempt)
    requires Shaped(s.config) && (a.candidate.Some? ==> Shaped(a.candidate.value))
    ensures var outcome := Apply(s, a).1;
      && (outcome == Rejected <==> a.candidate == None)
      && (outcome == Noop <==> a.candidate == Some(s.config))
      && (a.candidate.Some? ==>
            var n := a.candidate.value;
            && (outcome == NeedsRestart <==> Differs(RESTART_REQUIRED, s.config, n))
            && (outcome == RebuildFailed <==>
                  !Differs(RESTART_REQUIRED, s.config, n) && Differs(REBUILD, s.config, n) && a.build.Failed?)
            && (outcome == AppliedRebuild <==>
                  !Differs(RESTART_REQUIRED, s.config, n) && Differs(REBUILD, s.config, n) && a.build.Built?)
            && (outcome == AppliedLive <==>
                  n != s.config && !Differs(RESTART_REQUIRED, s.config, n) && !Differs(REBUILD, s.config, n)))
  {
    if a.candidate.Some? {
      ClassifiedExactly(s.config, a.candidate.value);
    }
  }

  /** And so after every history. */
  lemma OutcomeAfterAnyHistory(config: Val, components: Components, attempts: seq<Attempt>, a: Attempt)
    requires Shaped(config) && ShapedAttempts(attempts) && (a.candidate.Some? ==> Shaped(a.candidate.value))
    ensures var s := History(Boot(config, components), attempts);
      var outcome := Apply(s, a).1;
      && (outcome == Rejected <==> a.candidate == None)
      && (outcome == Noop <==> a.candidate == Some(s.config))
      && (a.candidate.Some? ==>
            var n := a.candidate.value;
            && (outcome == NeedsRestart <==> Differs(RESTART_REQUIRED, config, n))
            && (outcome == RebuildFailed <==>
                  !Differs(RESTART_REQUIRED, config, n) && Differs(REBUILD, s.builtFrom, n) && a.build.Failed?)
            && (outcome == AppliedRebuild <==>
                  !Differs(RESTART_REQUIRED, config, n) && Differs(REBUILD, s.builtFrom, n) && a.build.Built?)
            && (outcome == AppliedLive <==>
                  n != s.config && !Differs(RESTART_REQUIRED, config, n) && !Differs(REBUILD, s.builtFrom, n)))
  {
    var s := History(Boot(config, components), attempts);
    EveryHistoryIsSafe(config, components, attempts);
    OutcomeExactly(s, a);
    if a.candidate.Some? {
      DiffersAlike(RESTART_REQUIRED, s.config, config, a.candidate.value);
      DiffersAlike(REBUILD, s.config, s.builtFrom, a.candidate.value);
    }
  }

  lemma DiffersAlike(prefixes: seq<string>, o: Val, o': Val, n: Val)
    requires Agree(prefixes, o, o')
    ensures Differs(prefixes, o, n) <==> Differs(prefixes, o', n)
  {
  }
}
