/** The threshold engine (src/utils/thresholds.js): four nearest-rank quantile
    breakpoints over the positive values of one disease, per year or pooled. */
module Thresholds {
  import opened Wrappers
  import opened Sorting
  import opened IhmeData

  /** `scaleMode`: "year" keeps one year's values, "global" pools every year. */
  datatype ScaleMode = PerYear | Global

  /** The returned `[t1, t2, t3, t4]`. */
  datatype Quartet = Quartet(t1: real, t2: real, t3: real, t4: real)

  /** Fewer candidates than this yields no thresholds. */
  const MinSamples: nat := 10

  // ----- Gathering candidates ----------------------------------------------

  ghost function KeysWithValue(b: Bucket, x: real): set<string> {
    set k | k in b && b[k] == x
  }

  lemma KeysWithValueRemove(b: Bucket, k: string, x: real)
    requires k in b
    ensures |KeysWithValue(b, x)| == |KeysWithValue(b - {k}, x)| + (if b[k] == x then 1 else 0)
  {
    var rest := b - {k};
    assert k !in KeysWithValue(rest, x);
    assert KeysWithValue(b, x) == KeysWithValue(rest, x) + (if b[k] == x then {k} else {});
  }

  /** `Object.values(perYear)`: one entry per key, so each value occurs as often
      as there are countries holding it. */
  ghost function BucketValues(b: Bucket): (r: seq<real>)
    ensures |r| == |b|
    ensures forall x :: multiset(r)[x] == |KeysWithValue(b, x)|
    decreases b.Keys
  {
    if b.Keys == {} then
      assert forall x :: KeysWithValue(b, x) == {};
      []
    else
      var k :| k in b.Keys;
      var rest := b - {k};
      assert rest.Keys == b.Keys - {k};
      var r := [b[k]] + BucketValues(rest);
      assert forall x :: multiset(r)[x] == |KeysWithValue(b, x)| by {
        forall x ensures multiset(r)[x] == |KeysWithValue(b, x)| {
          KeysWithValueRemove(b, k, x);
        }
      }
      r
  }

  /** A value occurs among a bucket's values exactly when some country holds it. */
  lemma InBucketValues(b: Bucket, x: real)
    ensures x in BucketValues(b) <==> x in b.Values
  {
    var own := BucketValues(b);
    assert x in own <==> multiset(own)[x] > 0;
    if x in own {
      var k :| k in KeysWithValue(b, x);
    }
    if x in b.Values {
      var k :| k in b && b[k] == x;
      assert k in KeysWithValue(b, x);
    }
  }

  ghost function Pick<T>(s: set<T>): (x: T)
    requires s != {}
    ensures x in s
  {
    var x :| x in s; x
  }

  /** Some year's bucket of `d` holds `x`. */
  ghost predicate HeldInSomeYear(d: map<int, Bucket>, x: real) {
    exists y :: y in d && x in d[y].Values
  }

  lemma HeldInSomeYearSplit(d: map<int, Bucket>, yr: int, x: real)
    requires yr in d
    ensures HeldInSomeYear(d, x) <==> x in d[yr].Values || HeldInSomeYear(d - {yr}, x)
  {
    if HeldInSomeYear(d, x) {
      var y :| y in d && x in d[y].Values;
      if y != yr {
        assert y in d - {yr};
      }
    }
  }

  /** The (year, country) slots of `d` that hold `x`. */
  ghost function Holders(d: map<int, Bucket>, x: real): set<(int, string)> {
    set y, k | y in d && k in d[y] && d[y][k] == x :: (y, k)
  }

  /** The slots of one year, tagged with that year. */
  ghost function Tagged(yr: int, ks: set<string>): set<(int, string)> {
    set k | k in ks :: (yr, k)
  }

  lemma {:induction false} TaggedSize(yr: int, ks: set<string>)
    ensures |Tagged(yr, ks)| == |ks|
    decreases ks
  {
    if ks != {} {
      var k := Pick(ks);
      TaggedSize(yr, ks - {k});
      assert Tagged(yr, ks) == Tagged(yr, ks - {k}) + {(yr, k)};
      assert (yr, k) !in Tagged(yr, ks - {k});
    }
  }

  /** Removing one year splits off that year's holders of `x`. */
  lemma HoldersSplit(d: map<int, Bucket>, yr: int, x: real)
    requires yr in d
    ensures |Holders(d, x)| == |KeysWithValue(d[yr], x)| + |Holders(d - {yr}, x)|
  {
    var own := Tagged(yr, KeysWithValue(d[yr], x));
    var rest := Holders(d - {yr}, x);
    assert Holders(d, x) == own + rest;
    assert own * rest == {};
    TaggedSize(yr, KeysWithValue(d[yr], x));
  }

  /** The values of every year of a disease, concatenated (the global loop):
      each value occurs once per (year, country) slot holding it. */
  ghost function PooledValues(d: map<int, Bucket>): (r: seq<real>)
    ensures forall x :: x in r <==> HeldInSomeYear(d, x)
    ensures forall x :: multiset(r)[x] == |Holders(d, x)|
    decreases d.Keys
  {
    if d.Keys == {} then
      assert forall x :: Holders(d, x) == {};
      []
    else
      var yr := Pick(d.Keys);
      var rest := d - {yr};
      assert rest.Keys == d.Keys - {yr};
      var own := BucketValues(d[yr]);
      var r := own + PooledValues(rest);
      assert forall x :: multiset(r)[x] == |Holders(d, x)| by {
        forall x ensures multiset(r)[x] == |Holders(d, x)| {
          HoldersSplit(d, yr, x);
        }
      }
      assert forall x :: x in r <==> HeldInSomeYear(d, x) by {
        forall x ensures x in r <==> HeldInSomeYear(d, x) {
          InBucketValues(d[yr], x);
          HeldInSomeYearSplit(d, yr, x);
        }
      }
      r
  }

  /** The `Number.isFinite(v) && v > 0` filter. Index values are finite reals,
      so it keeps exactly the strictly positive ones, with their multiplicity. */
  function Positives(s: seq<real>): (r: seq<real>)
    ensures forall x :: multiset(r)[x] == (if x > 0.0 then multiset(s)[x] else 0)
    ensures forall i :: 0 <= i < |r| ==> r[i] > 0.0
  {
    if s == [] then []
    else
      assert s == [s[0]] + s[1..];
      (if s[0] > 0.0 then [s[0]] else []) + Positives(s[1..])
  }

  /** The candidate values for a disease's year map in the given scale mode. */
  ghost function Candidates(d: map<int, Bucket>, year: int, mode: ScaleMode): seq<real>
    requires mode == PerYear ==> year in d
  {
    match mode
    case PerYear => Positives(BucketValues(d[year]))
    case Global => Positives(PooledValues(d))
  }

  // ----- Nearest-rank selection --------------------------------------------

  function MapReal(f: real -> real, s: seq<real>): (r: seq<real>)
    ensures |r| == |s| && forall i :: 0 <= i < |s| ==> r[i] == f(s[i])
  {
    seq(|s|, i requires 0 <= i < |s| => f(s[i]))
  }

  /** The 0-based index floor((n-1)*k/5) that `quantiles` reads for p = k/5. */
  function RankIndex(n: nat, k: nat): int {
    (n - 1) * k / 5
  }

  /** For k = 1..4 the index is in range, and it grows with k. */
  lemma RankIndexBounds(n: nat, k: nat)
    requires n >= 1 && 1 <= k < 4
    ensures 0 <= RankIndex(n, k) <= RankIndex(n, k + 1) < n
  {
    assert (n - 1) * (k + 1) == (n - 1) * k + (n - 1);
    assert (n - 1) * (k + 1) <= (n - 1) * 4 by {
      assert k + 1 <= 4;
    }
    assert (n - 1) * 4 <= 5 * (n - 1);
  }

  /** `quantiles`: the entries at indices floor((n-1)*k/5), k = 1..4, of a
      sorted sequence; nothing is interpolated. */
  function Quantiles(sorted: seq<real>): Quartet
    requires |sorted| > 0
  {
    var n := |sorted|;
    RankIndexBounds(n, 1);
    RankIndexBounds(n, 2);
    RankIndexBounds(n, 3);
    Quartet(sorted[RankIndex(n, 1)], sorted[RankIndex(n, 2)], sorted[RankIndex(n, 3)], sorted[RankIndex(n, 4)])
  }

  function CountLess(s: seq<real>, v: real): nat {
    if s == [] then 0 else (if s[0] < v then 1 else 0) + CountLess(s[1..], v)
  }

  function CountAtMost(s: seq<real>, v: real): nat {
    if s == [] then 0 else (if s[0] <= v then 1 else 0) + CountAtMost(s[1..], v)
  }

  /** `v` is a rank-`i` order statistic of `c` (0-based): it occurs in `c`, at
      most `i` entries are smaller and more than `i` are no larger. */
  ghost predicate IsRank(c: seq<real>, v: real, i: int) {
    v in c && CountLess(c, v) <= i < CountAtMost(c, v)
  }

  /** The reference definition of the thresholds of a candidate sequence:
      the rank floor((n-1)*k/5) order statistics for k = 1..4. */
  ghost predicate NearestRank(c: seq<real>, q: Quartet) {
    var n := |c|;
    && IsRank(c, q.t1, RankIndex(n, 1))
    && IsRank(c, q.t2, RankIndex(n, 2))
    && IsRank(c, q.t3, RankIndex(n, 3))
    && IsRank(c, q.t4, RankIndex(n, 4))
  }

  predicate Ordered(q: Quartet) {
    q.t1 <= q.t2 <= q.t3 <= q.t4
  }

  // ----- The engine ---------------------------------------------------------

  /** `computeThresholds` with explicit metric and scale mode. `log1p` and
      `expm1` stand for `Math.log1p` and `Math.expm1`. */
  ghost function ComputeThresholds(vals: Values, disease: string, year: int, metric: Metric,
                                   mode: ScaleMode, log1p: real -> real, expm1: real -> real): (r: Option<Quartet>)
    ensures disease !in vals ==> r == None
    ensures mode == PerYear && disease in vals && year !in vals[disease] ==> r == None
    ensures r.Some? <==>
              && disease in vals
              && (mode == PerYear ==> year in vals[disease])
              && |Candidates(vals[disease], year, mode)| >= MinSamples
    ensures r.Some? && metric == Rate ==>
              NearestRank(Candidates(vals[disease], year, mode), r.value) && Ordered(r.value)
    ensures r.Some? && metric == Number ==>
              exists q :: NearestRank(MapReal(log1p, Candidates(vals[disease], year, mode)), q)
                          && r.value == Quartet(expm1(q.t1), expm1(q.t2), expm1(q.t3), expm1(q.t4))
  {
    if disease !in vals then None
    else
      var d := vals[disease];
      if mode == PerYear && year !in d then None
      else
        var raw := Candidates(d, year, mode);
        if |raw| < MinSamples then None
        else
          match metric
          case Number =>
            var logs := MapReal(log1p, raw);
            var q := Quantiles(Sort(logs, RealLe));
            QuantilesAreRanks(logs);
            Some(Quartet(expm1(q.t1), expm1(q.t2), expm1(q.t3), expm1(q.t4)))
          case Rate =>
            QuantilesAreRanks(raw);
            Some(Quantiles(Sort(raw, RealLe)))
  }

  // ----- Lemmas about counting and ranks ------------------------------------

  lemma {:induction false} CountsOfInsert(x: real, s: seq<real>, v: real)
    ensures CountLess(Insert(x, s, RealLe), v) == CountLess([x] + s, v)
    ensures CountAtMost(Insert(x, s, RealLe), v) == CountAtMost([x] + s, v)
  {
    if s != [] && !RealLe(x, s[0]) {
      CountsOfInsert(x, s[1..], v);
      assert ([x] + s)[1..] == s;
      assert ([x] + s[1..])[1..] == s[1..];
      assert s == [s[0]] + s[1..];
    }
  }

  /** Sorting does not change how many entries lie below or at a value. */
  lemma {:induction false} CountsOfSort(s: seq<real>, v: real)
    ensures CountLess(Sort(s, RealLe), v) == CountLess(s, v)
    ensures CountAtMost(Sort(s, RealLe), v) == CountAtMost(s, v)
  {
    if s != [] {
      CountsOfSort(s[1..], v);
      CountsOfInsert(s[0], Sort(s[1..], RealLe), v);
      assert ([s[0]] + Sort(s[1..], RealLe))[1..] == Sort(s[1..], RealLe);
    }
  }

  lemma {:induction false} CountLessBelow(s: seq<real>, v: real, i: nat)
    requires i <= |s|
    requires forall j :: i <= j < |s| ==> v <= s[j]
    ensures CountLess(s, v) <= i
  {
    if s != [] {
      if i == 0 {
        CountLessBelow(s[1..], v, 0);
      } else {
        CountLessBelow(s[1..], v, i - 1);
      }
    }
  }

  lemma {:induction false} CountAtMostAbove(s: seq<real>, v: real, i: nat)
    requires i < |s|
    requires forall j :: 0 <= j <= i ==> s[j] <= v
    ensures CountAtMost(s, v) > i
  {
    if i > 0 {
      CountAtMostAbove(s[1..], v, i - 1);
    }
  }

  /** In a sorted sequence the entry at index `i` is a rank-`i` order statistic. */
  lemma SortedEntryIsRank(s: seq<real>, i: nat)
    requires SortedBy(s, RealLe)
    requires i < |s|
    ensures IsRank(s, s[i], i)
  {
    CountLessBelow(s, s[i], i);
    CountAtMostAbove(s, s[i], i);
  }

  lemma QuantilesOrdered(s: seq<real>)
    requires |s| > 0 && SortedBy(s, RealLe)
    ensures Ordered(Quantiles(s))
  {
    var n := |s|;
    RankIndexBounds(n, 1);
    RankIndexBounds(n, 2);
    RankIndexBounds(n, 3);
    var q := Quantiles(s);
    assert RealLe(q.t1, q.t2) && RealLe(q.t2, q.t3) && RealLe(q.t3, q.t4);
  }

  /** `Quantiles` of the sorted candidates meets the reference definition and is
      non-decreasing. */
  lemma QuantilesAreRanks(c: seq<real>)
    requires |c| > 0
    ensures NearestRank(c, Quantiles(Sort(c, RealLe)))
    ensures Ordered(Quantiles(Sort(c, RealLe)))
  {
    var n := |c|;
    RankIndexBounds(n, 1);
    RankIndexBounds(n, 2);
    RankIndexBounds(n, 3);
    SortedEntryIsRankOf(c, RankIndex(n, 1));
    SortedEntryIsRankOf(c, RankIndex(n, 2));
    SortedEntryIsRankOf(c, RankIndex(n, 3));
    SortedEntryIsRankOf(c, RankIndex(n, 4));
    NumericOrdersArePreorders();
    SortSorted(c, RealLe);
    QuantilesOrdered(Sort(c, RealLe));
  }

  /** The entry at index `i` of the sorted candidates is their rank-`i` order statistic. */
  lemma SortedEntryIsRankOf(c: seq<real>, i: nat)
    requires i < |c|
    ensures IsRank(c, Sort(c, RealLe)[i], i)
  {
    var s := Sort(c, RealLe);
    NumericOrdersArePreorders();
    SortSorted(c, RealLe);
    SortedEntryIsRank(s, i);
    CountsOfSort(c, s[i]);
    assert s[i] in multiset(s);
  }

  lemma {:induction false} CountAtMostBelowCountLess(c: seq<real>, v: real, w: real)
    requires v < w
    ensures CountAtMost(c, v) <= CountLess(c, w)
  {
    if c != [] {
      CountAtMostBelowCountLess(c[1..], v, w);
    }
  }

  /** The reference definition pins each threshold down: two values of the
      same rank are equal. */
  lemma RankIsUnique(c: seq<real>, v: real, w: real, i: int)
    requires IsRank(c, v, i) && IsRank(c, w, i)
    ensures v == w
  {
    if v < w {
      CountAtMostBelowCountLess(c, v, w);
    } else if w < v {
      CountAtMostBelowCountLess(c, w, v);
    }
  }

  // ----- Properties of the engine -------------------------------------------

  /** Exactly the strictly positive values of the scope are candidates; each
      occurs as many times as there are countries (per-year) or (year, country)
      slots (global) holding it. */
  lemma CandidatesArePositiveValues(d: map<int, Bucket>, year: int, mode: ScaleMode, x: real)
    requires mode == PerYear ==> year in d
    ensures mode == PerYear ==> (x in Candidates(d, year, mode) <==> x > 0.0 && x in d[year].Values)
    ensures mode == Global ==> (x in Candidates(d, year, mode) <==> x > 0.0 && HeldInSomeYear(d, x))
    ensures mode == PerYear ==>
              multiset(Candidates(d, year, mode))[x] == (if x > 0.0 then |KeysWithValue(d[year], x)| else 0)
    ensures mode == Global ==>
              multiset(Candidates(d, year, mode))[x] == (if x > 0.0 then |Holders(d, x)| else 0)
  {
    var c := Candidates(d, year, mode);
    assert x in c <==> multiset(c)[x] > 0;
    match mode
    case PerYear =>
      var b := BucketValues(d[year]);
      assert x in b <==> multiset(b)[x] > 0;
      InBucketValues(d[year], x);
    case Global =>
      var p := PooledValues(d);
      assert x in p <==> multiset(p)[x] > 0;
  }

  /** The sample floor: fewer than 10 candidates gives no thresholds, 10 or more
      always gives a 4-tuple (provided the disease, and in per-year mode the
      year, has an entry). */
  lemma SampleFloor(vals: Values, disease: string, year: int, metric: Metric, mode: ScaleMode,
                    log1p: real -> real, expm1: real -> real)
    requires disease in vals && (mode == PerYear ==> year in vals[disease])
    ensures |Candidates(vals[disease], year, mode)| < 10 ==>
              ComputeThresholds(vals, disease, year, metric, mode, log1p, expm1) == None
    ensures |Candidates(vals[disease], year, mode)| >= 10 ==>
              ComputeThresholds(vals, disease, year, metric, mode, log1p, expm1).Some?
  {
  }

  /** Global mode pools every year, so the year argument does not matter. */
  lemma GlobalIgnoresYear(vals: Values, disease: string, y1: int, y2: int, metric: Metric,
                          log1p: real -> real, expm1: real -> real)
    ensures ComputeThresholds(vals, disease, y1, metric, Global, log1p, expm1)
         == ComputeThresholds(vals, disease, y2, metric, Global, log1p, expm1)
  {
  }

  ghost predicate StrictlyIncreasing(f: real -> real) {
    forall a, b :: a < b ==> f(a) < f(b)
  }

  ghost predicate LeftInverse(g: real -> real, f: real -> real) {
    forall x :: g(f(x)) == x
  }

  /** Sorting commutes with a strictly increasing map. */
  lemma {:induction false} SortCommutesWithMonotone(f: real -> real, s: seq<real>)
    requires StrictlyIncreasing(f)
    ensures Sort(MapReal(f, s), RealLe) == MapReal(f, Sort(s, RealLe))
  {
    if s != [] {
      SortCommutesWithMonotone(f, s[1..]);
      assert MapReal(f, s)[1..] == MapReal(f, s[1..]);
      InsertCommutesWithMonotone(f, s[0], Sort(s[1..], RealLe));
    }
  }

  lemma {:induction false} InsertCommutesWithMonotone(f: real -> real, x: real, s: seq<real>)
    requires StrictlyIncreasing(f)
    ensures Insert(f(x), MapReal(f, s), RealLe) == MapReal(f, Insert(x, s, RealLe))
  {
    if s != [] {
      var fs := MapReal(f, s);
      assert fs == [f(s[0])] + MapReal(f, s[1..]);
      assert RealLe(f(x), f(s[0])) <==> RealLe(x, s[0]);
      if RealLe(x, s[0]) {
        MapRealCons(f, x, s);
      } else {
        InsertCommutesWithMonotone(f, x, s[1..]);
        MapRealCons(f, s[0], Insert(x, s[1..], RealLe));
      }
    }
  }

  lemma MapRealCons(f: real -> real, a: real, t: seq<real>)
    ensures MapReal(f, [a] + t) == [f(a)] + MapReal(f, t)
  {
  }

  /** With `log1p` strictly increasing and `expm1` undoing it, the number branch
      returns exactly what the rate branch returns: nearest-rank selection
      commutes with monotone maps. */
  lemma NumberMatchesRate(vals: Values, disease: string, year: int, mode: ScaleMode,
                          log1p: real -> real, expm1: real -> real)
    requires StrictlyIncreasing(log1p) && LeftInverse(expm1, log1p)
    ensures ComputeThresholds(vals, disease, year, Number, mode, log1p, expm1)
         == ComputeThresholds(vals, disease, year, Rate, mode, log1p, expm1)
  {
    if disease in vals && (mode == PerYear ==> year in vals[disease]) {
      var raw := Candidates(vals[disease], year, mode);
      if |raw| >= MinSamples {
        var sorted := Sort(raw, RealLe);
        SortCommutesWithMonotone(log1p, raw);
        var q := Quantiles(Sort(MapReal(log1p, raw), RealLe));
        var n := |raw|;
        assert q == Quartet(log1p(sorted[RankIndex(n, 1)]), log1p(sorted[RankIndex(n, 2)]),
                            log1p(sorted[RankIndex(n, 3)]), log1p(sorted[RankIndex(n, 4)]));
      }
    }
  }
}
