/** The leaf diff between two configurations, and how a set of changed paths is classified. */
module ConfigDiff {
  import opened Documents

  function Prepend(k: string, ps: set<Path>): set<Path> {
    set p | p in ps :: [k] + p
  }

  /** The recursive walk: descend while both sides are dictionaries, else report a difference here. */
  function Diff(o: Val, n: Val): set<Path>
    decreases o, 1
  {
    if o.Dict? && n.Dict? then set k, p | k in o.fields.Keys + n.fields.Keys && p in Prepend(k, DiffBelow(o, n, k)) :: p
    else if o != n then {[]} else {}
  }

  function DiffBelow(o: Val, n: Val, k: string): set<Path>
    requires o.Dict? && n.Dict?
    decreases o, 0
  {
    if k in o.fields then Diff(o.fields[k], Get(n, k))
    else if Get(n, k) != Null then {[]} else {}
  }

  lemma DiffBelowIsDiff(o: Val, n: Val, k: string)
    requires o.Dict? && n.Dict?
    ensures DiffBelow(o, n, k) == Diff(Get(o, k), Get(n, k))
  {
  }

  lemma KindAtChild(v: Val, k: string, rest: Path)
    ensures KindAt(v, [k] + rest) == KindAt(Get(v, k), rest)
  {
    assert ([k] + rest)[1..] == rest;
  }

  lemma DiffOfDicts(o: Val, n: Val, k: string, rest: Path)
    requires o.Dict? && n.Dict?
    ensures [] !in Diff(o, n)
    ensures [k] + rest in Diff(o, n) <==> rest in Diff(Get(o, k), Get(n, k))
  {
    DiffBelowIsDiff(o, n, k);
    assert ([k] + rest)[0] == k && ([k] + rest)[1..] == rest;
    if rest in DiffBelow(o, n, k) {
      assert k in o.fields.Keys + n.fields.Keys;
      assert [k] + rest in Prepend(k, DiffBelow(o, n, k));
    }
    if [k] + rest in Diff(o, n) {
      var k', p :| k' in o.fields.Keys + n.fields.Keys && p in Prepend(k', DiffBelow(o, n, k')) && p == [k] + rest;
      var q :| q in DiffBelow(o, n, k') && p == [k'] + q;
      assert p[0] == k' && p[1..] == q;
    }
  }

  /** A reported path is one where readers see a difference, below sections that both sides have. */
  ghost predicate FirstDifference(o: Val, n: Val, p: Path) {
    && KindAt(o, p) != KindAt(n, p)
    && forall i :: 0 <= i < |p| ==> KindAt(o, p[..i]) == Section == KindAt(n, p[..i])
  }

  lemma {:induction false} DiffIsFirstDifferences(o: Val, n: Val, p: Path)
    ensures p in Diff(o, n) <==> FirstDifference(o, n, p)
    decreases |p|
  {
    if p != [] {
      var k, rest := p[0], p[1..];
      assert p == [k] + rest && p[..0] == [];
      if o.Dict? && n.Dict? {
        DiffOfDicts(o, n, k, rest);
        DiffIsFirstDifferences(Get(o, k), Get(n, k), rest);
        KindAtChild(o, k, rest);
        KindAtChild(n, k, rest);
        forall i | 0 <= i < |rest|
          ensures KindAt(o, p[..i + 1]) == KindAt(Get(o, k), rest[..i])
          ensures KindAt(n, p[..i + 1]) == KindAt(Get(n, k), rest[..i])
        {
          assert p[..i + 1] == [k] + rest[..i];
          KindAtChild(o, k, rest[..i]);
          KindAtChild(n, k, rest[..i]);
        }
        if FirstDifference(o, n, p) {
          forall i | 0 <= i < |rest| ensures KindAt(Get(o, k), rest[..i]) == Section == KindAt(Get(n, k), rest[..i]) {
            assert KindAt(o, p[..i + 1]) == Section;
          }
        }
        if FirstDifference(Get(o, k), Get(n, k), rest) {
          forall i | 0 <= i < |p| ensures KindAt(o, p[..i]) == Section == KindAt(n, p[..i]) {
            if i > 0 {
              var j := i - 1;
              assert KindAt(Get(o, k), rest[..j]) == Section == KindAt(Get(n, k), rest[..j]);
              assert KindAt(o, p[..j + 1]) == KindAt(Get(o, k), rest[..j]);
            } else {
              assert p[..i] == [];
            }
          }
        }
      } else {
        assert KindAt(o, p[..0]) != Section || KindAt(n, p[..0]) != Section;
      }
    }
  }

  /** Completeness: below or at every difference a reader can see, some reported path lies on the way. */
  lemma {:induction false} DiffIsComplete(o: Val, n: Val, p: Path) returns (i: nat)
    requires KindAt(o, p) != KindAt(n, p)
    ensures i <= |p| && p[..i] in Diff(o, n)
  {
    i := 0;
    while KindAt(o, p[..i]) == KindAt(n, p[..i])
      invariant i <= |p|
      invariant forall j :: 0 <= j < i ==> KindAt(o, p[..j]) == Section == KindAt(n, p[..j])
      decreases |p| - i
    {
      assert p[..|p|] == p;
      if KindAt(o, p[..i]) != Section {
        NothingBelowLeaves(o, p, i);
        NothingBelowLeaves(n, p, i);
        assert false;
      }
      i := i + 1;
    }
    forall j | 0 <= j < i ensures KindAt(o, p[..i][..j]) == Section == KindAt(n, p[..i][..j]) {
      assert p[..i][..j] == p[..j];
    }
    DiffIsFirstDifferences(o, n, p[..i]);
  }

  lemma {:induction false} NothingBelowLeaves(v: Val, p: Path, i: nat)
    requires i < |p| && KindAt(v, p[..i]) != Section
    ensures KindAt(v, p) == Nothing
    decreases |p|
  {
    if i > 0 && v.Dict? && p[0] in v.fields {
      assert p[..i][1..] == p[1..][..i - 1];
      NothingBelowLeaves(v.fields[p[0]], p[1..], i - 1);
    }
  }

  /** The list is empty exactly when no reader can tell the documents apart. */
  lemma DiffEmptyIffSame(o: Val, n: Val)
    ensures Diff(o, n) == {} <==> SameDocument(o, n)
  {
    if SameDocument(o, n) {
      forall p ensures p !in Diff(o, n) {
        DiffIsFirstDifferences(o, n, p);
      }
    } else {
      var p :| KindAt(o, p) != KindAt(n, p);
      var i := DiffIsComplete(o, n, p);
    }
  }

  // ---- overwriting the old document at the reported paths ----

  function Below(ps: set<Path>, k: string): set<Path> {
    set p | p in ps && p != [] && p[0] == k :: p[1..]
  }

  function Heads(ps: set<Path>): set<string> {
    set p | p in ps && p != [] :: p[0]
  }

  /** `old` with `new`'s value written at every path of `ps`. */
  function Overwrite(o: Val, n: Val, ps: set<Path>): Val
    decreases o
  {
    if [] in ps then n
    else if !o.Dict? then o
    else Dict(map k | k in o.fields.Keys + Heads(ps) ::
      if k in o.fields then Overwrite(o.fields[k], Get(n, k), Below(ps, k))
      else if [] in Below(ps, k) then Get(n, k) else Null)
  }

  ghost predicate Covered(ps: set<Path>, p: Path) {
    exists i :: 0 <= i <= |p| && p[..i] in ps
  }

  lemma CoveredBelow(ps: set<Path>, k: string, rest: Path)
    requires [] !in ps
    ensures Covered(ps, [k] + rest) <==> Covered(Below(ps, k), rest)
  {
    var p := [k] + rest;
    if Covered(ps, p) {
      var i :| 0 <= i <= |p| && p[..i] in ps;
      assert i > 0 && p[..i][1..] == rest[..i - 1] && p[..i][0] == k;
      assert rest[..i - 1] in Below(ps, k);
    }
    if Covered(Below(ps, k), rest) {
      var i :| 0 <= i <= |rest| && rest[..i] in Below(ps, k);
      var q :| q in ps && q != [] && q[0] == k && q[1..] == rest[..i];
      assert q == p[..i + 1];
    }
  }

  /** Where an ancestor or the path itself is in `ps` the reader sees `new`, elsewhere `old` — provided the
      paths of `ps` stay below sections of `old`, as reported paths do. */
  lemma {:induction false} OverwriteAt(o: Val, n: Val, ps: set<Path>, p: Path)
    requires forall q :: q in ps ==> forall i :: 0 <= i < |q| ==> KindAt(o, q[..i]) == Section
    requires forall q :: q in ps ==> forall i :: 0 <= i < |q| ==> KindAt(n, q[..i]) == Section
    ensures KindAt(Overwrite(o, n, ps), p) == if Covered(ps, p) then KindAt(n, p) else KindAt(o, p)
    decreases |p|
  {
    assert p[..0] == [];
    if [] in ps {
      assert Covered(ps, p);
    } else if !o.Dict? {
      forall q | q in ps ensures q != [] ==> KindAt(o, q[..0]) == KindOf(o) {
        RootAndChildKinds(o, q);
      }
    } else if p != [] {
      var k, rest := p[0], p[1..];
      assert p == [k] + rest;
      CoveredBelow(ps, k, rest);
      KindAtChild(n, k, rest);
      KindAtChild(o, k, rest);
      BelowStaysInSections(o, ps, k);
      BelowStaysInSections(n, ps, k);
      if k in o.fields {
        OverwriteAt(o.fields[k], Get(n, k), Below(ps, k), rest);
      } else {
        UnderMissing(o, ps, k, rest);
      }
    }
  }

  lemma RootAndChildKinds(v: Val, p: Path)
    ensures KindAt(v, p[..0]) == KindOf(v)
    ensures p != [] ==> KindAt(v, p[..1]) == KindOf(Get(v, p[0]))
  {
    if p != [] {
      assert p[..1] == [p[0]] + [];
      KindAtChild(v, p[0], []);
    }
  }

  lemma BelowStaysInSections(v: Val, ps: set<Path>, k: string)
    requires forall q :: q in ps ==> forall i :: 0 <= i < |q| ==> KindAt(v, q[..i]) == Section
    ensures forall q :: q in Below(ps, k) ==> forall i :: 0 <= i < |q| ==> KindAt(Get(v, k), q[..i]) == Section
  {
    forall q, i | q in Below(ps, k) && 0 <= i < |q| ensures KindAt(Get(v, k), q[..i]) == Section {
      var p :| p in ps && p != [] && p[0] == k && p[1..] == q;
      assert p[..i + 1] == [k] + q[..i];
      KindAtChild(v, k, q[..i]);
      assert KindAt(v, p[..i + 1]) == Section;
    }
  }

  /** Below a key that `old` lacks only the key itself can be in `ps`. */
  lemma UnderMissing(o: Val, ps: set<Path>, k: string, rest: Path)
    requires o.Dict? && k !in o.fields && [] !in ps
    requires forall q :: q in ps ==> forall i :: 0 <= i < |q| ==> KindAt(o, q[..i]) == Section
    ensures Covered(Below(ps, k), rest) <==> [] in Below(ps, k)
    ensures [] in Below(ps, k) ==> k in Heads(ps)
  {
    assert rest[..0] == [];
    if [] in Below(ps, k) {
      var q :| q in ps && q != [] && q[0] == k && q[1..] == [];
    }
    forall q | q in Below(ps, k) ensures q == [] {
      var p :| p in ps && p != [] && p[0] == k && p[1..] == q;
      RootAndChildKinds(o, p);
    }
  }

  lemma DiffPathsStayInSections(o: Val, n: Val, ps: set<Path>)
    requires ps <= Diff(o, n)
    ensures forall q :: q in ps ==> forall i :: 0 <= i < |q| ==> KindAt(o, q[..i]) == Section
    ensures forall q :: q in ps ==> forall i :: 0 <= i < |q| ==> KindAt(n, q[..i]) == Section
  {
    forall q | q in ps ensures FirstDifference(o, n, q) {
      DiffIsFirstDifferences(o, n, q);
    }
  }

  /** Overwriting at exactly the reported paths gives the new document... */
  lemma DiffSuffices(o: Val, n: Val)
    ensures SameDocument(Overwrite(o, n, Diff(o, n)), n)
  {
    DiffPathsStayInSections(o, n, Diff(o, n));
    forall p ensures KindAt(Overwrite(o, n, Diff(o, n)), p) == KindAt(n, p) {
      OverwriteAt(o, n, Diff(o, n), p);
      if KindAt(o, p) != KindAt(n, p) {
        var i := DiffIsComplete(o, n, p);
        assert Covered(Diff(o, n), p);
      }
    }
  }

  /** ...and at any proper subset of them does not. */
  lemma DiffIsMinimal(o: Val, n: Val, ps: set<Path>)
    requires ps < Diff(o, n)
    ensures !SameDocument(Overwrite(o, n, ps), n)
  {
    var p :| p in Diff(o, n) && p !in ps;
    DiffPathsStayInSections(o, n, ps);
    OverwriteAt(o, n, ps, p);
    DiffIsFirstDifferences(o, n, p);
    OthersDoNotCover(o, n, ps, p);
  }

  lemma OthersDoNotCover(o: Val, n: Val, ps: set<Path>, p: Path)
    requires ps <= Diff(o, n) && p in Diff(o, n) && p !in ps
    ensures !Covered(ps, p)
  {
    DiffIsFirstDifferences(o, n, p);
    assert p[..|p|] == p;
    forall i | 0 <= i <= |p| ensures p[..i] !in ps {
      DiffIsFirstDifferences(o, n, p[..i]);
    }
  }

  // ---- the walk that fills a list ----

  /** The paths reported so far, with `o` and `n` sitting at `at`. */
  method Walk(o: Val, n: Val, at: Path, paths: seq<Path>) returns (paths': seq<Path>)
    ensures forall p :: p in paths' <==> p in paths || (at <= p && p[|at|..] in Diff(o, n))
    decreases o, 1
  {
    if o.Dict? && n.Dict? {
      paths' := WalkKeys(o, n, at, paths);
    } else {
      paths' := paths;
      if o != n {
        paths' := paths' + [at];
        assert at[|at|..] == [];
      }
    }
    forall p ensures at <= p && p[|at|..] == [] <==> p == at {
      ExactlyAt(at, p);
    }
  }

  lemma ExactlyAt(at: Path, p: Path)
    ensures at <= p && p[|at|..] == [] <==> p == at
  {
    if at <= p {
      assert p == at + p[|at|..];
    }
  }

  method WalkKeys(o: Val, n: Val, at: Path, paths: seq<Path>) returns (paths': seq<Path>)
    requires o.Dict? && n.Dict?
    ensures forall p :: p in paths' <==> p in paths || (at <= p && p[|at|..] in Diff(o, n))
    decreases o, 0
  {
    paths' := paths;
    var todo := o.fields.Keys + n.fields.Keys;
    while todo != {}
      invariant todo <= o.fields.Keys + n.fields.Keys
      invariant forall p :: p in paths' <==>
        p in paths || ReportedUnder(o, n, at, o.fields.Keys + n.fields.Keys - todo, p)
      decreases |todo|
    {
      var k :| k in todo;
      ghost var last := paths';
      if k in o.fields {
        paths' := Walk(o.fields[k], Get(n, k), at + [k], paths');
      } else if Get(n, k) != Null {
        paths' := paths' + [at + [k]];
      }
      forall p ensures p in paths' <==> p in last || ReportedUnder(o, n, at, {k}, p) {
        ReportedKey(o, n, at, k, p);
        ExactlyAt(at + [k], p);
      }
      todo := todo - {k};
    }
    forall p ensures ReportedUnder(o, n, at, o.fields.Keys + n.fields.Keys, p) <==> at <= p && p[|at|..] in Diff(o, n) {
      ReportedAll(o, n, at, p);
    }
  }

  ghost predicate ReportedUnder(o: Val, n: Val, at: Path, keys: set<string>, p: Path) {
    at < p && p[|at|] in keys && p[|at|..] in Diff(o, n)
  }

  lemma ReportedKey(o: Val, n: Val, at: Path, k: string, p: Path)
    requires o.Dict? && n.Dict?
    ensures ReportedUnder(o, n, at, {k}, p) <==> at + [k] <= p && p[|at + [k]|..] in DiffBelow(o, n, k)
  {
    if at < p && p[|at|] == k {
      var rest := p[|at| + 1..];
      assert p[|at|..] == [k] + rest;
      DiffOfDicts(o, n, k, rest);
      DiffBelowIsDiff(o, n, k);
      assert at + [k] <= p && p[|at + [k]|..] == rest;
    }
  }

  lemma ReportedAll(o: Val, n: Val, at: Path, p: Path)
    requires o.Dict? && n.Dict?
    ensures ReportedUnder(o, n, at, o.fields.Keys + n.fields.Keys, p) <==> at <= p && p[|at|..] in Diff(o, n)
  {
    if at <= p && p[|at|..] in Diff(o, n) {
      var q := p[|at|..];
      var k :| k in o.fields.Keys + n.fields.Keys && q in Prepend(k, DiffBelow(o, n, k));
      assert q != [] && q[0] == k;
    }
  }

  method ChangedPaths(o: Val, n: Val) returns (paths: seq<Path>)
    ensures forall p :: p in paths <==> FirstDifference(o, n, p)
    ensures forall p :: p in paths <==> p in Diff(o, n)
  {
    paths := Walk(o, n, [], []);
    forall p
      ensures p in paths <==> p in Diff(o, n)
      ensures p in Diff(o, n) <==> FirstDifference(o, n, p)
    {
      assert p[0..] == p;
      DiffIsFirstDifferences(o, n, p);
    }
  }
}
