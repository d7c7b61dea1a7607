/**
 Metric accounting under a cap on label sets. The registry is compared with the whole stream of observations: which
 label sets it keeps, and what it holds for each of them. Floating-point amounts are reals here.
 */
module Metrics {
  type Labels = map<string, string>

  datatype Kind = Counter | Histogram

  datatype Obs = Obs(kind: Kind, name: string, labels: Labels, amount: real)

  // ---- what a stream says ----

  /** The label sets of one metric, in the order in which they first appear. */
  function LabelSets(log: seq<Obs>, metric: string): seq<Labels> {
    if log == [] then []
    else
      var before, last := LabelSets(log[..|log| - 1], metric), log[|log| - 1];
      if last.name == metric && last.labels !in before then before + [last.labels] else before
  }

  /** The first `cap` of them. */
  function Admitted(log: seq<Obs>, metric: string, cap: int): set<Labels> {
    First(LabelSets(log, metric), cap)
  }

  function First(all: seq<Labels>, cap: int): set<Labels> {
    set i | 0 <= i < |all| && i < cap :: all[i]
  }

  lemma FirstSnoc(all: seq<Labels>, x: Labels, cap: int)
    ensures First(all + [x], cap) == First(all, cap) + if |all| < cap then {x} else {}
  {
    var more := all + [x];
    forall i | 0 <= i < |all| && i < cap ensures all[i] in First(more, cap) {
      assert more[i] == all[i];
    }
    assert more[|all|] == x;
    assert |all| < cap ==> more[|all|] in First(more, cap);
  }

  /** The amounts observed for one label set, in order. */
  function Amounts(log: seq<Obs>, kind: Kind, metric: string, labels: Labels): seq<real> {
    if log == [] then []
    else
      var before, last := Amounts(log[..|log| - 1], kind, metric, labels), log[|log| - 1];
      if (last.kind, last.name, last.labels) == (kind, metric, labels) then before + [last.amount] else before
  }

  function Sum(xs: seq<real>): real {
    if xs == [] then 0.0 else Sum(xs[..|xs| - 1]) + xs[|xs| - 1]
  }

  function AtMost(xs: seq<real>, bound: real): nat {
    |set i | 0 <= i < |xs| && xs[i] <= bound|
  }

  lemma LogSnoc(log: seq<Obs>, o: Obs, kind: Kind, metric: string, labels: Labels)
    ensures LabelSets(log + [o], metric) ==
      if o.name == metric && o.labels !in LabelSets(log, metric) then LabelSets(log, metric) + [o.labels]
      else LabelSets(log, metric)
    ensures Amounts(log + [o], kind, metric, labels) ==
      if (o.kind, o.name, o.labels) == (kind, metric, labels) then Amounts(log, kind, metric, labels) + [o.amount]
      else Amounts(log, kind, metric, labels)
  {
    assert (log + [o])[..|log|] == log;
  }

  lemma SumSnoc(xs: seq<real>, x: real)
    ensures Sum(xs + [x]) == Sum(xs) + x
  {
    assert (xs + [x])[..|xs|] == xs;
  }

  lemma AtMostSnoc(xs: seq<real>, x: real, bound: real)
    ensures AtMost(xs + [x], bound) == AtMost(xs, bound) + if x <= bound then 1 else 0
  {
    var was := set i | 0 <= i < |xs| && xs[i] <= bound;
    var now := set i | 0 <= i < |xs + [x]| && (xs + [x])[i] <= bound;
    assert now == was + if x <= bound then {|xs|} else {};
  }

  lemma {:induction false} LabelSetsDistinct(log: seq<Obs>, metric: string)
    ensures forall i, j :: 0 <= i < j < |LabelSets(log, metric)| ==>
      LabelSets(log, metric)[i] != LabelSets(log, metric)[j]
    decreases |log|
  {
    if log != [] {
      LabelSetsDistinct(log[..|log| - 1], metric);
    }
  }

  lemma {:induction false} LabelSetsGrow(log: seq<Obs>, more: seq<Obs>, metric: string)
    ensures LabelSets(log, metric) <= LabelSets(log + more, metric)
    decreases |more|
  {
    if more == [] {
      assert log + more == log;
    } else {
      var n := |more| - 1;
      LabelSetsGrow(log, more[..n], metric);
      assert log + more == (log + more[..n]) + [more[n]];
      LogSnoc(log + more[..n], more[n], Counter, metric, more[n].labels);
    }
  }

  lemma {:induction false} DistinctSize(xs: seq<Labels>, n: nat)
    requires n <= |xs| && forall i, j :: 0 <= i < j < |xs| ==> xs[i] != xs[j]
    ensures |First(xs, n)| == n
  {
    if n > 0 {
      DistinctSize(xs, n - 1);
      assert First(xs, n) == First(xs, n - 1) + {xs[n - 1]};
    }
  }

  /** Each metric keeps all its label sets up to the cap, and never more than the cap. */
  lemma AdmittedSize(log: seq<Obs>, m: string, cap: int)
    ensures |Admitted(log, m, cap)| ==
      if |LabelSets(log, m)| <= cap then |LabelSets(log, m)| else if cap > 0 then cap else 0
  {
    var all := LabelSets(log, m);
    var n := if |all| <= cap then |all| else if cap > 0 then cap else 0;
    LabelSetsDistinct(log, m);
    DistinctSize(all, n);
    assert First(all, cap) == First(all, n);
  }

  /** A label set is kept or dropped for good when it first appears. */
  lemma DecidedAtFirstSight(log: seq<Obs>, more: seq<Obs>, metric: string, cap: int, labels: Labels)
    ensures labels in Admitted(log, metric, cap) ==> labels in Admitted(log + more, metric, cap)
    ensures labels in LabelSets(log, metric) ==>
      (labels in Admitted(log + more, metric, cap) <==> labels in Admitted(log, metric, cap))
  {
    LabelSetsGrow(log, more, metric);
    LabelSetsDistinct(log + more, metric);
    var all := LabelSets(log + more, metric);
    if i :| 0 <= i < |LabelSets(log, metric)| && i < cap && labels == LabelSets(log, metric)[i] {
      assert all[i] == labels;
    }
  }

  lemma {:induction false} UnseenHasNoAmounts(log: seq<Obs>, kind: Kind, metric: string, labels: Labels)
    ensures Amounts(log, kind, metric, labels) != [] ==> labels in LabelSets(log, metric)
    decreases |log|
  {
    if log != [] {
      UnseenHasNoAmounts(log[..|log| - 1], kind, metric, labels);
    }
  }

  /** Buckets never decrease from one bound to the next, and none passes the count. */
  lemma BucketsAreCumulative(xs: seq<real>, lower: real, upper: real)
    requires lower <= upper
    ensures AtMost(xs, lower) <= AtMost(xs, upper) <= |xs|
  {
    var low := set i | 0 <= i < |xs| && xs[i] <= lower;
    var high := set i | 0 <= i < |xs| && xs[i] <= upper;
    assert low <= high;
    assert high == low + (high - low);
    NoMoreThanAll(xs, upper);
  }

  lemma {:induction false} NoMoreThanAll(xs: seq<real>, bound: real)
    ensures AtMost(xs, bound) <= |xs|
  {
    if xs != [] {
      var n := |xs| - 1;
      NoMoreThanAll(xs[..n], bound);
      AtMostSnoc(xs[..n], xs[n], bound);
      assert xs[..n] + [xs[n]] == xs;
    }
  }

  // ---- the guard ----

  class CardinalityGuard {
    const cap: int
    var seen: map<string, set<Labels>>
    var warned: set<string>

    constructor (cap: int)
      ensures this.cap == cap && Holds([])
    {
      this.cap, seen, warned := cap, map[], {};
    }

    function Seen(metric: string): set<Labels>
      reads this
    {
      if metric in seen then seen[metric] else {}
    }

    /** The label sets kept are the first `cap`, and a metric was warned about exactly when it has more. */
    ghost predicate Holds(log: seq<Obs>)
      reads this
    {
      && (forall m :: Seen(m) == Admitted(log, m, cap))
      && (forall m :: m in warned <==> |LabelSets(log, m)| > cap && LabelSets(log, m) != [])
    }

    method Admit(metric: string, key: Labels, ghost log: seq<Obs>, ghost o: Obs) returns (ok: bool)
      requires Holds(log) && o.name == metric && o.labels == key
      modifies this
      ensures Holds(log + [o]) && (ok <==> key in Admitted(log + [o], metric, cap))
    {
      AdmitOne(log, o, metric, cap);
      if metric !in seen { seen := seen[metric := {}]; }
      if key in seen[metric] {
        ok := true;
      } else if |seen[metric]| >= cap {
        warned := warned + {metric};
        ok := false;
      } else {
        seen := seen[metric := seen[metric] + {key}];
        ok := true;
      }
      forall m
        ensures Seen(m) == Admitted(log + [o], m, cap)
        ensures m in warned <==> |LabelSets(log + [o], m)| > cap && LabelSets(log + [o], m) != []
      {
        AdmitOne(log, o, m, cap);
      }
    }
  }

  /** What one observation does to the label sets of a metric. */
  ghost predicate Admits(log: seq<Obs>, o: Obs, m: string, cap: int) {
    var was, now := Admitted(log, m, cap), Admitted(log + [o], m, cap);
    if m != o.name || o.labels in was then now == was && |LabelSets(log + [o], m)| == |LabelSets(log, m)|
    else if |was| >= cap then
      && now == was && o.labels !in now
      && |LabelSets(log + [o], m)| > cap && LabelSets(log + [o], m) != []
    else now == was + {o.labels} && |LabelSets(log, m)| < |LabelSets(log + [o], m)| <= cap
  }

  lemma AdmitOne(log: seq<Obs>, o: Obs, m: string, cap: int)
    ensures Admits(log, o, m, cap)
  {
    LogSnoc(log, o, o.kind, m, o.labels);
    AdmittedSize(log, m, cap);
    FirstSnoc(LabelSets(log, m), o.labels, cap);
  }

  // ---- the registry ----

  function Row<V>(table: map<string, map<Labels, V>>, name: string): map<Labels, V> {
    if name in table then table[name] else map[]
  }

  /** Bucket counts of some amounts, one for each bound. */
  function Buckets(xs: seq<real>, bounds: seq<real>): seq<nat> {
    seq(|bounds|, i requires 0 <= i < |bounds| => AtMost(xs, bounds[i]))
  }

  /** An entry is there for exactly the label sets that are kept and were observed. */
  ghost predicate Kept(log: seq<Obs>, kind: Kind, name: string, labels: Labels, cap: int) {
    labels in Admitted(log, name, cap) && Amounts(log, kind, name, labels) != []
  }

  function Put<V>(table: map<string, map<Labels, V>>, name: string, labels: Labels, v: V): map<string, map<Labels, V>> {
    table[name := Row(table, name)[labels := v]]
  }

  /** The entry for a label set: there exactly if it is kept, and then with this value. */
  ghost predicate Holds<V(!new)>(table: map<string, map<Labels, V>>, name: string, labels: Labels,
                         kept: bool, value: V)
  {
    && (labels in Row(table, name) <==> kept)
    && (kept ==> Row(table, name)[labels] == value)
  }

  ghost predicate CounterRight(counters: map<string, map<Labels, real>>, log: seq<Obs>,
                               cap: int, name: string, labels: Labels)
  {
    Holds(counters, name, labels, Kept(log, Counter, name, labels, cap), Sum(Amounts(log, Counter, name, labels)))
  }

  ghost predicate HistogramRight(buckets: map<string, map<Labels, seq<nat>>>, sums: map<string, map<Labels, real>>,
                                 counts: map<string, map<Labels, nat>>, bounds: seq<real>,
                                 log: seq<Obs>, cap: int, name: string, labels: Labels) {
    var xs, kept := Amounts(log, Histogram, name, labels), Kept(log, Histogram, name, labels, cap);
    && Holds(counts, name, labels, kept, |xs|)
    && Holds(sums, name, labels, kept, Sum(xs))
    && Holds(buckets, name, labels, kept, Buckets(xs, bounds))
  }

  /** An observation of another metric, kind or label set changes nothing, nor does one that was not admitted. */
  lemma OthersStay(buckets: map<string, map<Labels, seq<nat>>>, sums: map<string, map<Labels, real>>,
                   counts: map<string, map<Labels, nat>>, counters: map<string, map<Labels, real>>, bounds: seq<real>,
                   log: seq<Obs>, o: Obs, cap: int, name: string, labels: Labels)
    ensures (o.kind, o.name, o.labels) != (Histogram, name, labels) || o.labels !in Admitted(log + [o], o.name, cap) ==>
      HistogramRight(buckets, sums, counts, bounds, log, cap, name, labels) ==>
      HistogramRight(buckets, sums, counts, bounds, log + [o], cap, name, labels)
    ensures (o.kind, o.name, o.labels) != (Counter, name, labels) || o.labels !in Admitted(log + [o], o.name, cap) ==>
      CounterRight(counters, log, cap, name, labels) ==> CounterRight(counters, log + [o], cap, name, labels)
  {
    KeptSnoc(log, o, Counter, name, labels, cap);
    KeptSnoc(log, o, Histogram, name, labels, cap);
  }

  lemma PutElsewhere<V(!new)>(table: map<string, map<Labels, V>>, n: string, k: Labels,
                     v: V, name: string, labels: Labels, kept: bool, value: V)
    requires (n, k) != (name, labels)
    ensures Holds(Put(table, n, k, v), name, labels, kept, value) <==> Holds(table, name, labels, kept, value)
  {
  }

  lemma HistogramElsewhere(buckets: map<string, map<Labels, seq<nat>>>, sums: map<string, map<Labels, real>>,
                           counts: map<string, map<Labels, nat>>, n: string, k: Labels, row: seq<nat>, sum: real,
                           count: nat, bounds: seq<real>, log: seq<Obs>, cap: int, name: string, labels: Labels)
    requires (n, k) != (name, labels)
    ensures HistogramRight(buckets, sums, counts, bounds, log, cap, name, labels) ==>
      HistogramRight(Put(buckets, n, k, row), Put(sums, n, k, sum), Put(counts, n, k, count), bounds, log, cap, name,
                     labels)
  {
    var xs, kept := Amounts(log, Histogram, name, labels), Kept(log, Histogram, name, labels, cap);
    PutElsewhere(buckets, n, k, row, name, labels, kept, Buckets(xs, bounds));
    PutElsewhere(sums, n, k, sum, name, labels, kept, Sum(xs));
    PutElsewhere(counts, n, k, count, name, labels, kept, |xs|);
  }

  class Registry {
    const bounds: seq<real>
    const guard: CardinalityGuard
    var counters: map<string, map<Labels, real>>
    var histBuckets: map<string, map<Labels, seq<nat>>>
    var histSums: map<string, map<Labels, real>>
    var histCounts: map<string, map<Labels, nat>>
    ghost var log: seq<Obs>

    constructor (maxLabelSets: int, bounds: seq<real>)
      ensures Valid() && fresh(guard) && guard.cap == maxLabelSets && this.bounds == bounds && log == []
    {
      this.bounds := bounds;
      guard := new CardinalityGuard(maxLabelSets);
      counters, histBuckets, histSums, histCounts, log := map[], map[], map[], map[], [];
    }

    /** Every counter is the sum of what was added for it, and every histogram is that of the amounts recorded. */
    ghost predicate Valid()
      reads this, guard
    {
      && guard.Holds(log)
      && (forall name, labels :: CounterOk(name, labels))
      && (forall name, labels :: HistogramOk(name, labels))
    }

    ghost predicate CounterOk(name: string, labels: Labels)
      reads this
    {
      CounterRight(counters, log, guard.cap, name, labels)
    }

    ghost predicate HistogramOk(name: string, labels: Labels)
      reads this
    {
      HistogramRight(histBuckets, histSums, histCounts, bounds, log, guard.cap, name, labels)
    }

    method Add(name: string, amount: real, key: Labels)
      requires Valid()
      modifies this, guard
      ensures Valid() && log == old(log) + [Obs(Counter, name, key, amount)]
    {
      ghost var was, o := log, Obs(Counter, name, key, amount);
      var ok := guard.Admit(name, key, log, o);
      log := log + [o];
      if ok {
        assert old(CounterOk(name, key));
        KeptSnoc(was, o, Counter, name, key, guard.cap);
        SumSnoc(Amounts(was, Counter, name, key), amount);
        var row := Row(counters, name);
        counters := Put(counters, name, key, (if key in row then row[key] else 0.0) + amount);
      }
      forall n, l ensures CounterOk(n, l) && HistogramOk(n, l) {
        assert old(CounterOk(n, l)) && old(HistogramOk(n, l));
        OthersStay(histBuckets, histSums, histCounts, old(counters), bounds, was, o, guard.cap, n, l);
        if ok && (n, l) != (name, key) {
          PutElsewhere(old(counters), name, key, Row(counters, name)[key], n, l,
                       Kept(log, Counter, n, l, guard.cap), Sum(Amounts(log, Counter, n, l)));
        }
      }
    }

    method Record(name: string, amount: real, key: Labels)
      requires Valid()
      modifies this, guard
      ensures Valid() && log == old(log) + [Obs(Histogram, name, key, amount)]
    {
      ghost var was, o := log, Obs(Histogram, name, key, amount);
      var ok := guard.Admit(name, key, log, o);
      log := log + [o];
      if ok {
        assert old(HistogramOk(name, key));
        EntryBefore(was, o, guard.cap, histBuckets, histSums, histCounts, bounds);
        var row, sums, counts := Row(histBuckets, name), Row(histSums, name), Row(histCounts, name);
        var buckets := IncrementBuckets(if key in row then row[key] else seq(|bounds|, i => 0), bounds, amount,
                                        Amounts(was, Histogram, name, key));
        histBuckets := Put(histBuckets, name, key, buckets);
        histSums := Put(histSums, name, key, (if key in sums then sums[key] else 0.0) + amount);
        histCounts := Put(histCounts, name, key, (if key in counts then counts[key] else 0) + 1);
      }
      forall n, l ensures CounterOk(n, l) && HistogramOk(n, l) {
        assert old(CounterOk(n, l)) && old(HistogramOk(n, l));
        OthersStay(old(histBuckets), old(histSums), old(histCounts), counters, bounds, was, o, guard.cap, n, l);
        if ok && (n, l) != (name, key) {
          HistogramElsewhere(old(histBuckets), old(histSums), old(histCounts), name, key, Row(histBuckets, name)[key],
                             Row(histSums, name)[key], Row(histCounts, name)[key], bounds, log, guard.cap, n, l);
        }
      }
    }
  }

  /** What the tables held, if anything, for a label set that is being recorded. */
  lemma EntryBefore(log: seq<Obs>, o: Obs, cap: int, buckets: map<string, map<Labels, seq<nat>>>,
                    sums: map<string, map<Labels, real>>, counts: map<string, map<Labels, nat>>, bounds: seq<real>)
    requires o.kind == Histogram && o.labels in Admitted(log + [o], o.name, cap)
    requires HistogramRight(buckets, sums, counts, bounds, log, cap, o.name, o.labels)
    ensures var xs, row := Amounts(log, Histogram, o.name, o.labels), Row(buckets, o.name);
      && Buckets(xs, bounds) == (if o.labels in row then row[o.labels] else seq(|bounds|, i => 0))
      && Sum(xs) == (if o.labels in Row(sums, o.name) then Row(sums, o.name)[o.labels] else 0.0)
      && |xs| == (if o.labels in Row(counts, o.name) then Row(counts, o.name)[o.labels] else 0)
      && Kept(log + [o], Histogram, o.name, o.labels, cap)
      && Amounts(log + [o], Histogram, o.name, o.labels) == xs + [o.amount]
      && Sum(xs + [o.amount]) == Sum(xs) + o.amount
  {
    KeptSnoc(log, o, Histogram, o.name, o.labels, cap);
    NothingObserved(bounds);
    SumSnoc(Amounts(log, Histogram, o.name, o.labels), o.amount);
  }

  lemma NothingObserved(bounds: seq<real>)
    ensures Buckets([], bounds) == seq(|bounds|, i => 0)
  {
    forall i | 0 <= i < |bounds| ensures AtMost([], bounds[i]) == 0 {
      NoMoreThanAll([], bounds[i]);
    }
  }

  predicate Ascending(bounds: seq<real>) { forall i, j :: 0 <= i < j < |bounds| ==> bounds[i] <= bounds[j] }

  const DEFAULT_BUCKETS := [
    0.005, 0.01, 0.025, 0.05, 0.1, 0.25, 0.5, 1.0, 2.5, 5.0, 10.0, 30.0, 60.0, 120.0, 300.0, 600.0, 1800.0, 3600.0]

  lemma DefaultBucketsAscend()
    ensures Ascending(DEFAULT_BUCKETS)
  {
  }

  /** A histogram as it is kept, over ascending bounds: nondecreasing, and never above the count. */
  lemma BucketsNeverDecrease(registry: Registry, name: string, labels: Labels, i: nat, j: nat)
    requires registry.Valid() && Ascending(registry.bounds) && labels in Row(registry.histCounts, name)
    requires i <= j < |registry.bounds|
    ensures labels in Row(registry.histBuckets, name)
    ensures var row := Row(registry.histBuckets, name)[labels];
      |row| == |registry.bounds| && row[i] <= row[j] <= Row(registry.histCounts, name)[labels]
  {
    assert registry.HistogramOk(name, labels);
    BucketsAreCumulative(Amounts(registry.log, Histogram, name, labels), registry.bounds[i], registry.bounds[j]);
  }

  /** Once kept, a label set loses no later observation, whatever other label sets arrive in between. */
  lemma NoLaterObservationIsLost(registry: Registry, before: seq<Obs>, name: string, labels: Labels)
    requires registry.Valid() && before <= registry.log
    requires Kept(before, Histogram, name, labels, registry.guard.cap)
    ensures labels in Row(registry.histCounts, name)
    ensures Row(registry.histCounts, name)[labels] == |Amounts(registry.log, Histogram, name, labels)|
    ensures Amounts(before, Histogram, name, labels) <= Amounts(registry.log, Histogram, name, labels)
  {
    var more := registry.log[|before|..];
    assert registry.log == before + more;
    DecidedAtFirstSight(before, more, name, registry.guard.cap, labels);
    AmountsGrow(before, more, Histogram, name, labels);
    assert registry.HistogramOk(name, labels);
  }

  lemma {:induction false} AmountsGrow(log: seq<Obs>, more: seq<Obs>, kind: Kind, name: string, labels: Labels)
    ensures Amounts(log, kind, name, labels) <= Amounts(log + more, kind, name, labels)
    decreases |more|
  {
    if more == [] {
      assert log + more == log;
    } else {
      var n := |more| - 1;
      AmountsGrow(log, more[..n], kind, name, labels);
      assert log + more == (log + more[..n]) + [more[n]];
      LogSnoc(log + more[..n], more[n], kind, name, labels);
    }
  }

  /** The loop over the bounds. */
  method IncrementBuckets(row: seq<nat>, bounds: seq<real>, amount: real, ghost xs: seq<real>)
    returns (buckets: seq<nat>)
    requires row == Buckets(xs, bounds)
    ensures buckets == Buckets(xs + [amount], bounds)
  {
    buckets := row;
    for i := 0 to |bounds|
      invariant |buckets| == |bounds|
      invariant forall j :: 0 <= j < i ==> buckets[j] == AtMost(xs + [amount], bounds[j])
      invariant forall j :: i <= j < |bounds| ==> buckets[j] == row[j]
    {
      AtMostSnoc(xs, amount, bounds[i]);
      if amount <= bounds[i] {
        buckets := buckets[i := buckets[i] + 1];
      }
    }
  }

  /** A new entry starts from nothing: it is kept now and was not before only if nothing was observed for it. */
  lemma KeptSnoc(log: seq<Obs>, o: Obs, kind: Kind, name: string, labels: Labels, cap: int)
    ensures (o.kind, o.name, o.labels) != (kind, name, labels) ==>
      && (Kept(log + [o], kind, name, labels, cap) <==> Kept(log, kind, name, labels, cap))
      && Amounts(log + [o], kind, name, labels) == Amounts(log, kind, name, labels)
    ensures (o.kind, o.name, o.labels) == (kind, name, labels) ==>
      && (Kept(log + [o], kind, name, labels, cap) <==> labels in Admitted(log + [o], name, cap))
      && (Kept(log, kind, name, labels, cap) ==> Kept(log + [o], kind, name, labels, cap))
      && (Kept(log + [o], kind, name, labels, cap) && !Kept(log, kind, name, labels, cap) ==>
            Amounts(log, kind, name, labels) == [])
      && Amounts(log + [o], kind, name, labels) == Amounts(log, kind, name, labels) + [o.amount]
  {
    LogSnoc(log, o, kind, name, labels);
    DecidedAtFirstSight(log, [o], name, cap, labels);
    UnseenHasNoAmounts(log, kind, name, labels);
  }
}
