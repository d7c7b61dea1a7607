/**
 Live reload: a candidate configuration is diffed against the live one, classified, and applied in place,
 applied by swapping rebuilt components, or turned away. Safety over whole histories rests on the diff
 missing nothing that a classifying prefix covers.
 */
module Reload {
  import opened Basics
  import opened Documents
  import opened ConfigDiff

  const RESTART_REQUIRED: seq<string> := [
    "schemaVersion", "name", "profile",
    "storage.type", "storage.path", "storage.connectionString",
    "server.host", "server.port", "server.protocols", "server.cors", "server.auth", "server.trustedProxyCidrs",
    "server.maxRequestLineBytes", "server.maxHeaderBytes", "server.maxHeaderCount",
    "observability.prometheus", "k8s.", "observability.logFormat", "observability.otel"]

  const REBUILD: seq<string> := [
    "engine.systemInstruction", "engine.temperature", "engine.topP", "engine.maxTokens",
    "llm.", "tools.", "agents", "approval", "rag", "costs"]

  datatype Category = RestartRequired | ComponentRebuild | LiveSnapshot

  function Dotted(p: Path): string {
    if p == [] then "" else if |p| == 1 then p[0] else p[0] + "." + Dotted(p[1..])
  }

  predicate StartsWithAny(s: string, prefixes: seq<string>) {
    exists i :: 0 <= i < |prefixes| && prefixes[i] <= s
  }

  predicate InClass(prefixes: seq<string>, p: Path) {
    StartsWithAny(Dotted(p), prefixes)
  }

  function Classify(paths: set<Path>): Category {
    if exists p :: p in paths && InClass(RESTART_REQUIRED, p) then RestartRequired
    else if exists p :: p in paths && InClass(REBUILD, p) then ComponentRebuild
    else LiveSnapshot
  }

  method ClassifyChange(paths: seq<Path>) returns (category: Category)
    ensures category == Classify(set p | p in paths)
  {
    var rebuild := false;
    for i := 0 to |paths|
      invariant forall j :: 0 <= j < i ==> !InClass(RESTART_REQUIRED, paths[j])
      invariant rebuild <==> exists j :: 0 <= j < i && InClass(REBUILD, paths[j])
    {
      if InClass(RESTART_REQUIRED, paths[i]) {
        assert paths[i] in (set p | p in paths);
        return RestartRequired;
      }
      rebuild := rebuild || InClass(REBUILD, paths[i]);
    }
    category := if rebuild then ComponentRebuild else LiveSnapshot;
  }

  // ---- the diff misses nothing that a prefix covers ----

  /** A classifying prefix points inside this section. */
  predicate ReachesInto(prefixes: seq<string>, p: Path) {
    exists i :: 0 <= i < |prefixes| && Dotted(p) + "." <= prefixes[i]
  }

  /** What the schema guarantees of a validated configuration: the sections that the prefixes reach into are there. */
  ghost predicate Shaped(c: Val) {
    && c.Dict?
    && forall p :: p != [] && (ReachesInto(RESTART_REQUIRED, p) || ReachesInto(REBUILD, p)) ==>
         KindAt(c, p) == Section
  }

  lemma {:induction false} DottedAncestor(p: Path, i: nat)
    requires 0 < i < |p|
    ensures Dotted(p[..i]) + "." <= Dotted(p)
    decreases i
  {
    if i == 1 {
      assert p[..1] == [p[0]];
    } else {
      DottedAncestor(p[1..], i - 1);
      assert p[..i][1..] == p[1..][..i - 1];
      assert Dotted(p[..i]) == p[0] + "." + Dotted(p[1..][..i - 1]);
      assert Dotted(p) == p[0] + "." + Dotted(p[1..]);
      assert (p[0] + ".") + (Dotted(p[1..][..i - 1]) + ".") <= (p[0] + ".") + Dotted(p[1..]);
    }
  }

  lemma PrefixesOfOneString(r: string, d: string, s: string)
    requires r <= s && d + "." <= s
    ensures r <= d || d + "." <= r
  {
  }

  lemma DifferenceInClassIsReported(o: Val, n: Val, prefixes: seq<string>, p: Path) returns (q: Path)
    requires Shaped(o) && Shaped(n) && (prefixes == RESTART_REQUIRED || prefixes == REBUILD)
    requires InClass(prefixes, p) && KindAt(o, p) != KindAt(n, p)
    ensures q in Diff(o, n) && InClass(prefixes, q) && KindAt(o, q) != KindAt(n, q)
  {
    var i := DiffIsComplete(o, n, p);
    q := p[..i];
    DiffIsFirstDifferences(o, n, q);
    assert q != [];
    if i < |p| {
      DottedAncestor(p, i);
      var r :| 0 <= r < |prefixes| && prefixes[r] <= Dotted(p);
      PrefixesOfOneString(prefixes[r], Dotted(q), Dotted(p));
    } else {
      assert q == p;
    }
  }

  /** A reload is sent to a restart exactly when some restart-required path reads differently, and otherwise
      to a rebuild exactly when some rebuild-class path does. */
  lemma ClassifiedExactly(o: Val, n: Val)
    requires Shaped(o) && Shaped(n)
    ensures Classify(Diff(o, n)) == RestartRequired <==>
      exists p :: InClass(RESTART_REQUIRED, p) && KindAt(o, p) != KindAt(n, p)
    ensures Classify(Diff(o, n)) == LiveSnapshot ==>
      forall p :: InClass(REBUILD, p) ==> KindAt(o, p) == KindAt(n, p)
    ensures Classify(Diff(o, n)) == ComponentRebuild ==>
      exists p :: InClass(REBUILD, p) && KindAt(o, p) != KindAt(n, p)
  {
    forall p | InClass(RESTART_REQUIRED, p) && KindAt(o, p) != KindAt(n, p)
      ensures Classify(Diff(o, n)) == RestartRequired
    {
      var q := DifferenceInClassIsReported(o, n, RESTART_REQUIRED, p);
    }
    forall p | InClass(REBUILD, p) && KindAt(o, p) != KindAt(n, p)
      ensures Classify(Diff(o, n)) != LiveSnapshot
    {
      var q := DifferenceInClassIsReported(o, n, REBUILD, p);
    }
    forall p | p in Diff(o, n) ensures KindAt(o, p) != KindAt(n, p) {
      DiffIsFirstDifferences(o, n, p);
    }
  }

  // ---- the manager ----

  datatype Component = Generation(number: int) | ConfigHash(of: Val) | Holder(config: Val) | Part(id: int)

  type Components = map<string, Component>

  datatype Build = Failed | Built(replacements: Components)

  /** One watch event: the validated candidate, if validation passed, and how a rebuild for it would go. */
  datatype Attempt = Attempt(candidate: Option<Val>, build: Build)

  datatype Outcome = AppliedLive | AppliedRebuild | Noop | Rejected | RebuildFailed | NeedsRestart {
    predicate Applied() { AppliedLive? || AppliedRebuild? }
  }

  /** `builtFrom` is history: the configuration that the current components were built from. */
  datatype State = State(generation: int, config: Val, components: Components, builtFrom: Val)

  function Labels(components: Components, generation: int, config: Val): Components {
    components["generation" := Generation(generation)]["config_hash" := ConfigHash(config)]["config" := Holder(config)]
  }

  function Boot(config: Val, components: Components): State {
    State(1, config, components["generation" := Generation(1)]["config_hash" := ConfigHash(config)], config)
  }

  function Apply(s: State, a: Attempt): (State, Outcome) {
    if a.candidate.None? then (s, Rejected)
    else
      var config := a.candidate.value;
      if config == s.config then (s, Noop)
      else
        match Classify(Diff(s.config, config))
        case RestartRequired => (s, NeedsRestart)
        case LiveSnapshot =>
          (State(s.generation + 1, config, Labels(s.components, s.generation + 1, config), s.builtFrom), AppliedLive)
        case ComponentRebuild =>
          if a.build.Failed? then (s, RebuildFailed)
          else (State(s.generation + 1, config,
                      s.components + Labels(a.build.replacements, s.generation + 1, config), config), AppliedRebuild)
  }

  function History(s: State, attempts: seq<Attempt>): State {
    if attempts == [] then s
    else Apply(History(s, attempts[..|attempts| - 1]), attempts[|attempts| - 1]).0
  }

  function AppliedCount(s: State, attempts: seq<Attempt>): nat {
    if attempts == [] then 0
    else
      var before := attempts[..|attempts| - 1];
      AppliedCount(s, before) +
      if Apply(History(s, before), attempts[|attempts| - 1]).1.Applied() then 1 else 0
  }

  ghost predicate ShapedAttempts(attempts: seq<Attempt>) {
    forall i :: 0 <= i < |attempts| && attempts[i].candidate.Some? ==> Shaped(attempts[i].candidate.value)
  }

  ghost predicate Agree(prefixes: seq<string>, a: Val, b: Val) {
    forall p :: InClass(prefixes, p) ==> KindAt(a, p) == KindAt(b, p)
  }

  /** What one attempt does and does not do, whatever the state. */
  lemma OneAttempt(s: State, a: Attempt)
    ensures var (s', outcome) := Apply(s, a);
      && (!outcome.Applied() ==> s' == s)
      && (outcome.Applied() ==>
            && s'.generation == s.generation + 1 && a.candidate == Some(s'.config)
            && s'.components.Keys >= s.components.Keys
            && s'.components["generation"] == Generation(s'.generation)
            && s'.components["config_hash"] == ConfigHash(s'.config)
            && s'.components["config"] == Holder(s'.config))
      && (outcome == AppliedLive ==>
            forall key :: key in s.components && key !in ["generation", "config_hash", "config"] ==>
              s'.components[key] == s.components[key])
      && (outcome == AppliedRebuild ==>
            && s'.builtFrom == s'.config
            && forall key :: key !in ["generation", "config_hash", "config"] ==>
              if key in a.build.replacements
              then key in s'.components && s'.components[key] == a.build.replacements[key]
              else (key in s'.components <==> key in s.components) &&
                   (key in s.components ==> s'.components[key] == s.components[key]))
  {
  }

  ghost predicate Safe(boot: State, s: State) {
    && Shaped(s.config)
    && Agree(RESTART_REQUIRED, s.config, boot.config)
    && Agree(REBUILD, s.config, s.builtFrom)
    && boot.components.Keys <= s.components.Keys
    && "generation" in s.components && s.components["generation"] == Generation(s.generation)
    && "config_hash" in s.components && s.components["config_hash"] == ConfigHash(s.config)
  }

  lemma AttemptKeepsSafe(boot: State, s: State, a: Attempt)
    requires Safe(boot, s) && (a.candidate.Some? ==> Shaped(a.candidate.value))
    ensures Safe(boot, Apply(s, a).0)
  {
    OneAttempt(s, a);
    if Apply(s, a).1.Applied() {
      ClassifiedExactly(s.config, a.candidate.value);
    }
  }

  /** Over every history: restart-required leaves keep their boot value, the components agree with the live
      configuration on every rebuild-class leaf, no component key is lost, and the generation counts the applied
      outcomes. */
  lemma {:induction false} EveryHistoryIsSafe(config: Val, components: Components, attempts: seq<Attempt>)
    requires Shaped(config) && ShapedAttempts(attempts)
    ensures var boot := Boot(config, components);
      && Safe(boot, History(boot, attempts))
      && History(boot, attempts).generation == 1 + AppliedCount(boot, attempts)
    decreases |attempts|
  {
    if attempts != [] {
      var boot, before := Boot(config, components), attempts[..|attempts| - 1];
      EveryHistoryIsSafe(config, components, before);
      AttemptKeepsSafe(boot, History(boot, before), attempts[|attempts| - 1]);
      OneAttempt(History(boot, before), attempts[|attempts| - 1]);
    }
  }

  /** The shape is needed: when the storage section turns into null, the one reported path is the section's,
      which no prefix of its leaves matches, and a restart-required leaf is lost by a live reload. */
  lemma NullSectionSlipsThrough(o: Val, n: Val)
    requires Shaped(o) && n == Dict(o.fields["storage" := Null])
    requires KindAt(o, ["storage", "type"]) != Nothing
    ensures InClass(RESTART_REQUIRED, ["storage", "type"]) && KindAt(n, ["storage", "type"]) == Nothing
    ensures Diff(o, n) == {["storage"]} && Classify(Diff(o, n)) == LiveSnapshot
  {
    assert ["storage", "type"][1..] == ["type"];
    assert Dotted(["storage", "type"]) == "storage" + "." + "type";
    assert RESTART_REQUIRED[3] <= Dotted(["storage", "type"]);
    DiffOfOneField(o, n, "storage");
    StorageItselfIsUnclassified();
  }

  lemma StorageItselfIsUnclassified()
    ensures !InClass(RESTART_REQUIRED, ["storage"]) && !InClass(REBUILD, ["storage"])
  {
    assert Dotted(["storage"]) == "storage" && |"storage"| == 7 && "storage"[0] == 's';
    assert forall i :: 0 <= i < |RESTART_REQUIRED| ==> |RESTART_REQUIRED[i]| > 7 || RESTART_REQUIRED[i][0] != 's';
    assert forall i :: 0 <= i < |REBUILD| ==> |REBUILD[i]| > 7 || REBUILD[i][0] != 's';
  }

  lemma DiffOfOneField(o: Val, n: Val, k: string)
    requires o.Dict? && n == Dict(o.fields[k := Null]) && Get(o, k) != Null
    ensures Diff(o, n) == {[k]}
  {
    forall p ensures p in Diff(o, n) <==> p == [k] {
      if p != [] {
        assert p == [p[0]] + p[1..];
        DiffOfDicts(o, n, p[0], p[1..]);
        if p[0] != k {
          DiffEmptyIffSame(Get(o, p[0]), Get(n, p[0]));
        }
      } else {
        DiffOfDicts(o, n, k, []);
      }
    }
  }

  /** The sections that the prefixes reach into, by name. */
  const SECTIONS: seq<string> := ["engine", "llm", "tools", "storage", "server", "k8s", "observability"]

  predicate NoDotFrom(s: string, n: nat) {
    forall i :: n <= i < |s| ==> s[i] != '.'
  }

  /** A prefix has no dot at all, or one, after the name of a section. */
  ghost predicate OneSectionDeep(s: string) {
    NoDotFrom(s, 0) ||
    exists j :: 0 <= j < |SECTIONS| && SECTIONS[j] + "." <= s && NoDotFrom(s, |SECTIONS[j]| + 1)
  }

  lemma StoragePrefixes()
    ensures forall i :: 3 <= i < 6 ==> SECTIONS[3] + "." <= RESTART_REQUIRED[i] && NoDotFrom(RESTART_REQUIRED[i], 8)
  {
  }

  lemma ServerPrefixes()
    ensures forall i :: 6 <= i < 15 ==> SECTIONS[4] + "." <= RESTART_REQUIRED[i] && NoDotFrom(RESTART_REQUIRED[i], 7)
  {
  }

  lemma OtherRestartPrefixes()
    ensures forall i :: 0 <= i < 3 ==> NoDotFrom(RESTART_REQUIRED[i], 0)
    ensures SECTIONS[5] + "." <= RESTART_REQUIRED[16] && NoDotFrom(RESTART_REQUIRED[16], 4)
    ensures forall i :: i in [15, 17, 18] ==>
      SECTIONS[6] + "." <= RESTART_REQUIRED[i] && NoDotFrom(RESTART_REQUIRED[i], 14)
  {
  }

  lemma RebuildPrefixes()
    ensures forall i :: 0 <= i < 4 ==> SECTIONS[0] + "." <= REBUILD[i] && NoDotFrom(REBUILD[i], 7)
    ensures SECTIONS[1] + "." <= REBUILD[4] && NoDotFrom(REBUILD[4], 4)
    ensures SECTIONS[2] + "." <= REBUILD[5] && NoDotFrom(REBUILD[5], 6)
    ensures forall i :: 6 <= i < 10 ==> NoDotFrom(REBUILD[i], 0)
  {
  }

  lemma RestartIsOneSectionDeep(i: nat)
    requires i < |RESTART_REQUIRED|
    ensures OneSectionDeep(RESTART_REQUIRED[i])
  {
    StoragePrefixes();
    ServerPrefixes();
    OtherRestartPrefixes();
    assert |SECTIONS[3]| == 7 && |SECTIONS[4]| == 6 && |SECTIONS[5]| == 3 && |SECTIONS[6]| == 13;
  }

  lemma RebuildIsOneSectionDeep(i: nat)
    requires i < |REBUILD|
    ensures OneSectionDeep(REBUILD[i])
  {
    RebuildPrefixes();
    assert |SECTIONS[0]| == 6 && |SECTIONS[1]| == 3 && |SECTIONS[2]| == 5;
  }

  lemma SectionsHaveNoDot()
    ensures forall j :: 0 <= j < |SECTIONS| ==> NoDotFrom(SECTIONS[j], 0)
  {
  }

  lemma DottedShape(p: Path)
    requires p != []
    ensures |p| > 1 ==> |p[0]| < |Dotted(p)| && Dotted(p)[|p[0]|] == '.'
    ensures |p| == 1 ==> Dotted(p) == p[0]
  {
  }

  lemma ReachedSection(p: Path, r: string, section: string)
    requires p != [] && Dotted(p) + "." <= r
    requires section + "." <= r && NoDotFrom(section, 0) && NoDotFrom(r, |section| + 1)
    ensures p == [section]
  {
    var d := Dotted(p);
    DottedShape(p);
    assert r[|d|] == '.' && r[|section|] == '.';
    assert forall i :: 0 <= i < |section| ==> r[i] == section[i];
    assert d == r[..|d|] == section;
  }

  lemma ReachedPrefix(p: Path, r: string) returns (j: nat)
    requires p != [] && OneSectionDeep(r) && Dotted(p) + "." <= r
    ensures j < |SECTIONS| && p == [SECTIONS[j]]
  {
    assert r[|Dotted(p)|] == '.';
    j :| 0 <= j < |SECTIONS| && SECTIONS[j] + "." <= r && NoDotFrom(r, |SECTIONS[j]| + 1);
    SectionsHaveNoDot();
    ReachedSection(p, r, SECTIONS[j]);
  }

  /** A configuration that has the seven sections has the shape that the theorems above ask for. */
  lemma SectionsMakeShape(c: Val)
    requires c.Dict? && forall i :: 0 <= i < |SECTIONS| ==> Get(c, SECTIONS[i]).Dict?
    ensures Shaped(c)
  {
    forall p | p != [] && (ReachesInto(RESTART_REQUIRED, p) || ReachesInto(REBUILD, p))
      ensures KindAt(c, p) == Section
    {
      var j: nat;
      if ReachesInto(RESTART_REQUIRED, p) {
        var i :| 0 <= i < |RESTART_REQUIRED| && Dotted(p) + "." <= RESTART_REQUIRED[i];
        RestartIsOneSectionDeep(i);
        j := ReachedPrefix(p, RESTART_REQUIRED[i]);
      } else {
        var i :| 0 <= i < |REBUILD| && Dotted(p) + "." <= REBUILD[i];
        RebuildIsOneSectionDeep(i);
        j := ReachedPrefix(p, REBUILD[i]);
      }
      assert p == [p[0]] + [];
      KindAtChild(c, p[0], []);
    }
  }

  // ---- the manager in place ----

  class Manager {
    var generation: int
    var config: Val
    var components: Components
    ghost var builtFrom: Val

    ghost function View(): State
      reads this
    {
      State(generation, config, components, builtFrom)
    }

    constructor (config: Val, components: Components)
      ensures View() == Boot(config, components)
    {
      generation := 1;
      this.config := config;
      this.components := components["generation" := Generation(1)]["config_hash" := ConfigHash(config)];
      builtFrom := config;
    }

    method ApplyTier8(a: Attempt) returns (outcome: Outcome)
      modifies this
      ensures (View(), outcome) == Apply(old(View()), a)
    {
      if a.candidate.None? { return Rejected; }
      var candidate := a.candidate.value;
      if candidate == config { return Noop; }
      var paths := ChangedPaths(config, candidate);
      assert (set p | p in paths) == Diff(config, candidate);
      var category := ClassifyChange(paths);
      if category.RestartRequired? { return NeedsRestart; }
      if category.LiveSnapshot? {
        generation := generation + 1;
        config := candidate;
        components := components["generation" := Generation(generation)];
        components := components["config_hash" := ConfigHash(candidate)];
        components := components["config" := Holder(candidate)];
        return AppliedLive;
      }
      if a.build.Failed? { return RebuildFailed; }
      var retired := components;
      var replacements := a.build.replacements;
      generation := generation + 1;
      config := candidate;
      replacements := replacements["generation" := Generation(generation)];
      replacements := replacements["config_hash" := ConfigHash(candidate)];
      replacements := replacements["config" := Holder(candidate)];
      components := CarryOver(replacements, retired);
      builtFrom := candidate;
      outcome := AppliedRebuild;
    }
  }

  /** The loop that carries over every retired component the rebuild did not replace. */
  method CarryOver(replacements: Components, retired: Components) returns (all: Components)
    ensures all == retired + replacements
  {
    all := replacements;
    var todo := retired.Keys;
    CarriedEnds(replacements, retired);
    while todo != {}
      invariant todo <= retired.Keys
      invariant all == Carried(replacements, retired, todo)
      decreases |todo|
    {
      var key :| key in todo;
      CarryOne(replacements, retired, todo, key);
      if key !in all {
        all := all[key := retired[key]];
      }
      todo := todo - {key};
    }
  }

  function Carried(replacements: Components, retired: Components, todo: set<string>): Components {
    map key | key in retired.Keys + replacements.Keys && (key in replacements || key !in todo) ::
      if key in replacements then replacements[key] else retired[key]
  }

  lemma CarriedEnds(replacements: Components, retired: Components)
    ensures Carried(replacements, retired, retired.Keys) == replacements
    ensures Carried(replacements, retired, {}) == retired + replacements
  {
  }

  lemma CarryOne(replacements: Components, retired: Components, todo: set<string>, key: string)
    requires key in todo && todo <= retired.Keys
    ensures key in Carried(replacements, retired, todo) <==> key in replacements
    ensures Carried(replacements, retired, todo - {key}) ==
      if key in replacements then Carried(replacements, retired, todo)
      else Carried(replacements, retired, todo)[key := retired[key]]
  {
  }
}
