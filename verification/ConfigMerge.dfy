/**
 The tier merge of the configuration resolver: recursive, with null resets, and with a provenance label for
 every leaf and reset. What a fold over any list of tiers gives at a path is decided by the last tier that touches it.
 */
module ConfigMerge {
  import opened Basics
  import opened Documents

  datatype Provenance = Provenance(tier: int, reset: bool, source: string)

  datatype Tier = Tier(number: int, source: string, doc: Val)

  /** One tier on top of a merged document. */
  function Merge(merged: Val, doc: Val): Val
    requires merged.Dict? && doc.Dict?
    decreases doc
  {
    Dict(map k | k in merged.fields.Keys + doc.fields.Keys && !(k in doc.fields && doc.fields[k].Null?) ::
      if k !in doc.fields then merged.fields[k]
      else if doc.fields[k].Scalar? then doc.fields[k]
      else Merge(SectionOrEmpty(Get(merged, k)), doc.fields[k]))
  }

  function SectionOrEmpty(v: Val): Val {
    if v.Dict? then v else Dict(map[])
  }

  // ---- the meaning of one tier at one path ----

  datatype Effect = Keep | Set(text: string) | Open | Drop

  function EffectAt(doc: Val, p: Path): Effect
    requires doc.Dict? && p != []
    decreases |p|
  {
    if p[0] !in doc.fields then Keep
    else
      match doc.fields[p[0]]
      case Null => Drop
      case Scalar(text) => if |p| == 1 then Set(text) else Drop
      case Dict(_) => if |p| == 1 then Open else EffectAt(doc.fields[p[0]], p[1..])
  }

  /** The document writes null at the path or above it, or a scalar above it. */
  ghost predicate Removes(doc: Val, p: Path) {
    exists n :: 1 <= n <= |p| &&
      (Lookup(doc, p[..n]) == Some(Null) || (n < |p| && Lookup(doc, p[..n]).Some? && Lookup(doc, p[..n]).value.Scalar?))
  }

  /** The four effects, read off the document directly. */
  lemma {:induction false} EffectMeaning(doc: Val, p: Path)
    requires doc.Dict? && p != []
    ensures forall text :: EffectAt(doc, p) == Set(text) <==> Lookup(doc, p) == Some(Scalar(text))
    ensures EffectAt(doc, p).Open? <==> Lookup(doc, p).Some? && Lookup(doc, p).value.Dict?
    ensures EffectAt(doc, p).Drop? <==> Removes(doc, p)
    decreases |p|
  {
    assert p[..1] == [p[0]];
    assert Lookup(doc, p[..1]) == if p[0] in doc.fields then Some(doc.fields[p[0]]) else None;
    if p[0] in doc.fields && doc.fields[p[0]].Dict? && |p| > 1 {
      var sub, rest := doc.fields[p[0]], p[1..];
      EffectMeaning(sub, rest);
      assert forall n :: 1 <= n <= |rest| ==> p[..n + 1][1..] == rest[..n] && p[..n + 1][0] == p[0];
      if Removes(sub, rest) {
        var n :| 1 <= n <= |rest| && (Lookup(sub, rest[..n]) == Some(Null) ||
          (n < |rest| && Lookup(sub, rest[..n]).Some? && Lookup(sub, rest[..n]).value.Scalar?));
        assert Lookup(doc, p[..n + 1]) == Lookup(sub, rest[..n]);
      }
      if Removes(doc, p) {
        var n :| 1 <= n <= |p| && (Lookup(doc, p[..n]) == Some(Null) ||
          (n < |p| && Lookup(doc, p[..n]).Some? && Lookup(doc, p[..n]).value.Scalar?));
        assert n > 1;
        assert p[..n][1..] == rest[..n - 1];
        assert Lookup(doc, p[..n]) == Lookup(sub, rest[..n - 1]);
      }
    } else if p[0] !in doc.fields {
      assert forall n :: 1 <= n <= |p| ==> p[..n][0] == p[0];
    } else if doc.fields[p[0]].Scalar? && |p| == 1 {
      assert p[1..] == [];
    }
  }

  function After(effect: Effect, before: Kind): Kind {
    match effect
    case Keep => before
    case Set(text) => Leaf(text)
    case Open => Section
    case Drop => Nothing
  }

  /** At every path the merge gives what the tier's effect there says. */
  lemma {:induction false} MergeAt(merged: Val, doc: Val, p: Path)
    requires merged.Dict? && doc.Dict? && p != []
    ensures KindAt(Merge(merged, doc), p) == After(EffectAt(doc, p), KindAt(merged, p))
    decreases |p|
  {
    var k, rest := p[0], p[1..];
    if k in doc.fields && doc.fields[k].Dict? {
      var below := SectionOrEmpty(Get(merged, k));
      assert KindAt(Merge(merged, doc), p) == KindAt(Merge(below, doc.fields[k]), rest);
      if rest != [] {
        MergeAt(below, doc.fields[k], rest);
        assert KindAt(below, rest) == KindAt(merged, p);
      }
    }
  }

  // ---- a whole list of tiers ----

  predicate WellFormed(tiers: seq<Tier>) {
    forall i :: 0 <= i < |tiers| ==> tiers[i].doc.Dict?
  }

  function MergeAll(tiers: seq<Tier>): (r: Val)
    requires WellFormed(tiers)
    ensures r.Dict?
  {
    if tiers == [] then Dict(map[]) else Merge(MergeAll(tiers[..|tiers| - 1]), tiers[|tiers| - 1].doc)
  }

  /** Tier `i` is the last one that touches the path. */
  ghost predicate LastTouch(tiers: seq<Tier>, p: Path, i: int)
    requires WellFormed(tiers) && p != []
  {
    && 0 <= i < |tiers| && EffectAt(tiers[i].doc, p) != Keep
    && forall j :: i < j < |tiers| ==> EffectAt(tiers[j].doc, p) == Keep
  }

  /** The last tier that touches a path decides alone what is there; an untouched path holds nothing. */
  lemma {:induction false} LastTouchDecides(tiers: seq<Tier>, p: Path)
    requires WellFormed(tiers) && p != []
    ensures forall i :: LastTouch(tiers, p, i) ==>
      KindAt(MergeAll(tiers), p) == After(EffectAt(tiers[i].doc, p), Nothing)
    ensures (forall i :: !LastTouch(tiers, p, i)) ==> KindAt(MergeAll(tiers), p) == Nothing
    decreases |tiers|
  {
    if tiers != [] {
      var n := |tiers| - 1;
      LastTouchDecides(tiers[..n], p);
      MergeAt(MergeAll(tiers[..n]), tiers[n].doc, p);
      if EffectAt(tiers[n].doc, p) == Keep {
        assert forall i :: LastTouch(tiers, p, i) ==> LastTouch(tiers[..n], p, i);
        assert forall i :: LastTouch(tiers[..n], p, i) ==> LastTouch(tiers, p, i);
      } else {
        assert LastTouch(tiers, p, n);
      }
    }
  }

  // ---- provenance ----

  /** A tier labels the paths at which it writes a scalar or a null. */
  function LabelOf(tier: Tier, p: Path): Option<Provenance> {
    match Lookup(tier.doc, p)
    case Some(Scalar(_)) => Some(Provenance(tier.number, false, tier.source))
    case Some(Null) => Some(Provenance(tier.number, true, tier.source))
    case _ => None
  }

  function ProvenanceAt(tiers: seq<Tier>, p: Path): Option<Provenance> {
    if tiers == [] then None
    else
      var newest := LabelOf(tiers[|tiers| - 1], p);
      if newest.Some? then newest else ProvenanceAt(tiers[..|tiers| - 1], p)
  }

  lemma NullRemoves(doc: Val, p: Path)
    requires p != []
    ensures Lookup(doc, p) == Some(Null) ==> Removes(doc, p)
  {
    assert p[..|p|] == p;
  }

  /** Every leaf that survives carries the label of exactly the tier that set it. */
  lemma {:induction false} SurvivingLeafNamesItsTier(tiers: seq<Tier>, p: Path) returns (i: nat)
    requires WellFormed(tiers) && p != [] && KindAt(MergeAll(tiers), p).Leaf?
    ensures LastTouch(tiers, p, i)
    ensures Lookup(tiers[i].doc, p) == Some(Scalar(KindAt(MergeAll(tiers), p).text))
    ensures ProvenanceAt(tiers, p) == Some(Provenance(tiers[i].number, false, tiers[i].source))
    decreases |tiers|
  {
    var n := |tiers| - 1;
    MergeAt(MergeAll(tiers[..n]), tiers[n].doc, p);
    EffectMeaning(tiers[n].doc, p);
    if EffectAt(tiers[n].doc, p) == Keep {
      i := SurvivingLeafNamesItsTier(tiers[..n], p);
      NullRemoves(tiers[n].doc, p);
    } else {
      i := n;
    }
  }

  // ---- the loop over a document's items ----

  function Recorded(prov: map<Path, Provenance>, p: Path): Option<Provenance> {
    if p in prov then Some(prov[p]) else None
  }

  /** The label at `p` once the items of `doc` (which sits at `path`) with keys in `done` have been applied. */
  function Relabelled(before: Option<Provenance>, tier: Tier, path: Path,
                      done: set<string>, p: Path): Option<Provenance>
  {
    if path < p && p[|path|] in done && LabelOf(tier, p[|path|..]).Some? then LabelOf(tier, p[|path|..]) else before
  }

  ghost predicate Labelled(prov: map<Path, Provenance>, prov': map<Path, Provenance>,
                          tier: Tier, path: Path, done: set<string>)
  {
    forall p :: Recorded(prov', p) == Relabelled(Recorded(prov, p), tier, path, done, p)
  }

  lemma OneMoreLabel(prov: map<Path, Provenance>, last: map<Path, Provenance>, prov': map<Path, Provenance>,
                     tier: Tier, path: Path, done: set<string>, k: string)
    requires Labelled(prov, last, tier, path, done) && Labelled(last, prov', tier, path, {k})
    ensures Labelled(prov, prov', tier, path, done + {k})
  {
    forall p ensures Recorded(prov', p) == Relabelled(Recorded(prov, p), tier, path, done + {k}, p) {
      assert Recorded(last, p) == Relabelled(Recorded(prov, p), tier, path, done, p);
    }
  }

  lemma LabelBelow(tier: Tier, k: string, rest: Path)
    requires tier.doc.Dict? && k in tier.doc.fields
    ensures LabelOf(tier, [k] + rest) == LabelOf(tier.(doc := tier.doc.fields[k]), rest)
  {
    assert ([k] + rest)[1..] == rest;
  }

  function MergeItem(merged: Val, doc: Val, k: string): (r: Val)
    requires merged.Dict? && doc.Dict? && k in doc.fields
    ensures r.Dict?
  {
    match doc.fields[k]
    case Null => Dict(merged.fields - {k})
    case Scalar(_) => Dict(merged.fields[k := doc.fields[k]])
    case Dict(_) => Dict(merged.fields[k := Merge(SectionOrEmpty(Get(merged, k)), doc.fields[k])])
  }

  /** The items with keys outside `todo` have been applied, the others not. */
  ghost predicate MergedSoFar(merged: Val, merged': Val, doc: Val, todo: set<string>)
    requires merged.Dict? && merged'.Dict? && doc.Dict?
  {
    && (forall k :: k !in todo ==>
          && (k in merged'.fields <==> k in Merge(merged, doc).fields)
          && (k in merged'.fields ==> merged'.fields[k] == Merge(merged, doc).fields[k]))
    && (forall k :: k in todo ==>
          && (k in merged'.fields <==> k in merged.fields)
          && (k in merged'.fields ==> merged'.fields[k] == merged.fields[k]))
  }

  lemma OneMoreItem(merged: Val, merged': Val, doc: Val, todo: set<string>, k: string)
    requires merged.Dict? && merged'.Dict? && doc.Dict? && k in doc.fields && k in todo
    requires MergedSoFar(merged, merged', doc, todo)
    ensures MergedSoFar(merged, MergeItem(merged', doc, k), doc, todo - {k})
  {
    assert Get(merged', k) == Get(merged, k);
  }

  lemma AllItems(merged: Val, merged': Val, doc: Val)
    requires merged.Dict? && merged'.Dict? && doc.Dict? && MergedSoFar(merged, merged', doc, {})
    ensures merged' == Merge(merged, doc)
  {
    assert merged'.fields == Merge(merged, doc).fields;
  }

  method ApplyTier(merged: Val, prov: map<Path, Provenance>, tier: Tier, path: Path)
    returns (merged': Val, prov': map<Path, Provenance>)
    requires merged.Dict? && tier.doc.Dict?
    ensures merged' == Merge(merged, tier.doc)
    ensures Labelled(prov, prov', tier, path, tier.doc.fields.Keys)
    decreases tier.doc, 1
  {
    merged', prov' := merged, prov;
    var todo := tier.doc.fields.Keys;
    while todo != {}
      invariant todo <= tier.doc.fields.Keys && merged'.Dict?
      invariant MergedSoFar(merged, merged', tier.doc, todo)
      invariant Labelled(prov, prov', tier, path, tier.doc.fields.Keys - todo)
      decreases |todo|
    {
      var k :| k in todo;
      OneMoreItem(merged, merged', tier.doc, todo, k);
      ghost var last := prov';
      merged', prov' := ApplyItem(merged', prov', tier, path, k);
      OneMoreLabel(prov, last, prov', tier, path, tier.doc.fields.Keys - todo, k);
      assert tier.doc.fields.Keys - (todo - {k}) == (tier.doc.fields.Keys - todo) + {k};
      todo := todo - {k};
    }
    assert tier.doc.fields.Keys - todo == tier.doc.fields.Keys;
    AllItems(merged, merged', tier.doc);
  }

  method ApplyItem(merged: Val, prov: map<Path, Provenance>, tier: Tier, path: Path, k: string)
    returns (merged': Val, prov': map<Path, Provenance>)
    requires merged.Dict? && tier.doc.Dict? && k in tier.doc.fields
    ensures merged' == MergeItem(merged, tier.doc, k)
    ensures Labelled(prov, prov', tier, path, {k})
    decreases tier.doc, 0
  {
    var value, at := tier.doc.fields[k], path + [k];
    match value {
      case Dict(_) =>
        var existing := Get(merged, k);
        var sub;
        sub, prov' := ApplyTier(if existing.Dict? then existing else Dict(map[]), prov, tier.(doc := value), at);
        merged' := Dict(merged.fields[k := sub]);
      case Null =>
        merged' := Dict(merged.fields - {k});
        prov' := prov[at := Provenance(tier.number, true, tier.source)];
      case Scalar(_) =>
        merged' := Dict(merged.fields[k := value]);
        prov' := prov[at := Provenance(tier.number, false, tier.source)];
    }
    forall p ensures Recorded(prov', p) == Relabelled(Recorded(prov, p), tier, path, {k}, p) {
      ItemLabels(prov, prov', tier, path, k, p);
    }
  }

  /** What one item did to the labels: a scalar or null relabels its own path, a section relabels below itself. */
  lemma ItemLabels(last: map<Path, Provenance>, prov: map<Path, Provenance>, tier: Tier, path: Path, k: string, p: Path)
    requires tier.doc.Dict? && k in tier.doc.fields
    requires var value, at := tier.doc.fields[k], path + [k];
      if value.Dict? then
        Recorded(prov, p) == Relabelled(Recorded(last, p), tier.(doc := value), at, value.fields.Keys, p)
      else prov == last[at := Provenance(tier.number, value.Null?, tier.source)]
    ensures Recorded(prov, p) == Relabelled(Recorded(last, p), tier, path, {k}, p)
  {
    var value, at := tier.doc.fields[k], path + [k];
    if path < p && p[|path|] == k {
      var rest := p[|path| + 1..];
      assert p[|path|..] == [k] + rest;
      LabelBelow(tier, k, rest);
      assert at <= p && p[|at|..] == rest;
      if rest == [] {
        assert p == at;
      }
    } else {
      assert !(at <= p);
    }
  }

  /** Folding the loop over the tiers, lowest first. */
  method Resolve(tiers: seq<Tier>) returns (merged: Val, prov: map<Path, Provenance>)
    requires WellFormed(tiers)
    ensures merged == MergeAll(tiers)
    ensures forall p :: p != [] ==> Recorded(prov, p) == ProvenanceAt(tiers, p)
  {
    merged, prov := Dict(map[]), map[];
    for n := 0 to |tiers|
      invariant merged == MergeAll(tiers[..n])
      invariant forall p :: p != [] ==> Recorded(prov, p) == ProvenanceAt(tiers[..n], p)
    {
      ghost var last := prov;
      assert tiers[..n + 1][..n] == tiers[..n];
      merged, prov := ApplyTier(merged, prov, tiers[n], []);
      forall p | p != [] ensures Recorded(prov, p) == ProvenanceAt(tiers[..n + 1], p) {
        assert p[0..] == p && [] < p;
        assert Recorded(last, p) == ProvenanceAt(tiers[..n], p);
      }
    }
    assert tiers[..|tiers|] == tiers;
  }
}
