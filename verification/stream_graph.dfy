/** The data preparation of the stream graph (src/components/StreamGraph.jsx,
    lines 16-45): keep the global death counts, group them by disease with
    each group in year order, and order the groups by their peak value,
    largest first.  Rendering is not modelled. */
module StreamGraph {
  import opened Wrappers
  import opened Sorting
  import opened Counting

  /** One CSV row with its numeric fields already converted; a value that does
      not convert (NaN) is `None`. */
  datatype CsvRow = CsvRow(locationName: string, metricName: string, causeName: string, year: int, val: Option<real>)

  /** The `{year, disease, val}` record a kept row becomes. */
  datatype Rec = Rec(year: int, disease: string, val: Option<real>)

  /** A disease's series; `maxVal` is filled in by `WithPeaks`. */
  datatype Series = Series(disease: string, values: seq<Rec>, maxVal: real)

  predicate Kept(r: CsvRow) {
    r.locationName == "Global" && r.metricName == "Number"
  }

  function ToRec(r: CsvRow): Rec {
    Rec(r.year, r.causeName, r.val)
  }

  /** The positions of the kept rows that map to the record `x`. */
  ghost function RowsGiving(raw: seq<CsvRow>, x: Rec): set<int> {
    set j | 0 <= j < |raw| && Kept(raw[j]) && ToRec(raw[j]) == x
  }

  /** The filter and map, in input order: each record occurs once for every
      kept row that maps to it. */
  function Records(raw: seq<CsvRow>): (data: seq<Rec>)
    ensures |data| <= |raw|
    ensures forall x :: x in data ==> exists j :: 0 <= j < |raw| && Kept(raw[j]) && x == ToRec(raw[j])
    ensures forall j :: 0 <= j < |raw| && Kept(raw[j]) ==> ToRec(raw[j]) in data
    ensures forall x :: multiset(data)[x] == |RowsGiving(raw, x)|
    decreases |raw|
  {
    if raw == [] then
      assert forall x :: RowsGiving(raw, x) == {};
      []
    else
      var rest := Records(raw[1..]);
      assert forall j :: 1 <= j < |raw| ==> raw[j] == raw[1..][j - 1];
      RowsGivingCons(raw);
      if Kept(raw[0]) then [ToRec(raw[0])] + rest else rest
  }

  /** Dropping the first row drops its position and shifts the others down. */
  lemma RowsGivingCons(raw: seq<CsvRow>)
    requires raw != []
    ensures forall x :: |RowsGiving(raw, x)| == (if Kept(raw[0]) && ToRec(raw[0]) == x then 1 else 0) + |RowsGiving(raw[1..], x)|
  {
    forall x ensures |RowsGiving(raw, x)| == (if Kept(raw[0]) && ToRec(raw[0]) == x then 1 else 0) + |RowsGiving(raw[1..], x)| {
      RowsGivingConsAt(raw, x);
    }
  }

  lemma RowsGivingConsAt(raw: seq<CsvRow>, x: Rec)
    requires raw != []
    ensures |RowsGiving(raw, x)| == (if Kept(raw[0]) && ToRec(raw[0]) == x then 1 else 0) + |RowsGiving(raw[1..], x)|
  {
    var t := RowsGiving(raw[1..], x);
    var h := Kept(raw[0]) && ToRec(raw[0]) == x;
    forall j ensures j in RowsGiving(raw, x) <==> j in (if h then {0} else {}) + Shift(t) {
      assert j in Shift(t) <==> j - 1 in t;
      if 1 <= j < |raw| {
        assert raw[j] == raw[1..][j - 1];
      }
    }
    assert RowsGiving(raw, x) == (if h then {0} else {}) + Shift(t);
    HeadPlusShift(h, t, |raw| - 1);
  }

  /** How many rows pass the filter. */
  function KeptCount(raw: seq<CsvRow>): nat
    decreases |raw|
  {
    if raw == [] then 0 else (if Kept(raw[0]) then 1 else 0) + KeptCount(raw[1..])
  }

  /** Exactly one record per kept row. */
  lemma {:induction false} OneRecordPerKeptRow(raw: seq<CsvRow>)
    ensures |Records(raw)| == KeptCount(raw)
    decreases |raw|
  {
    if raw != [] {
      OneRecordPerKeptRow(raw[1..]);
    }
  }

  // ----- Grouping ----------------------------------------------------------

  /** All values of all series, series by series. */
  function Flatten(gs: seq<Series>): seq<Rec>
    decreases |gs|
  {
    if gs == [] then [] else gs[0].values + Flatten(gs[1..])
  }

  /** The records of one disease, in input order. */
  function OfDisease(data: seq<Rec>, d: string): (r: seq<Rec>)
    ensures forall x :: x in r ==> x.disease == d && x in data
    decreases |data|
  {
    if data == [] then []
    else
      var init := OfDisease(data[..|data| - 1], d);
      if data[|data| - 1].disease == d then init + [data[|data| - 1]] else init
  }

  /** Position of the series for disease `d`, if any. */
  function Find(gs: seq<Series>, d: string): (r: Option<nat>)
    ensures r.Some? ==> r.value < |gs| && gs[r.value].disease == d
    ensures r.None? ==> forall i :: 0 <= i < |gs| ==> gs[i].disease != d
    decreases |gs|
  {
    if gs == [] then None
    else if gs[|gs| - 1].disease == d then Some(|gs| - 1)
    else Find(gs[..|gs| - 1], d)
  }

  /** One step of `d3.group`: append the record to its disease's series, or
      open a new series at the end for a disease not seen before. */
  function GroupStep(gs: seq<Series>, x: Rec): seq<Series> {
    match Find(gs, x.disease)
    case Some(i) => gs[i := gs[i].(values := gs[i].values + [x])]
    case None => gs + [Series(x.disease, [x], 0.0)]
  }

  /** `d3.group(data, d => d.disease)`: series in order of first appearance. */
  function Group(data: seq<Rec>): seq<Series>
    decreases |data|
  {
    if data == [] then [] else GroupStep(Group(data[..|data| - 1]), data[|data| - 1])
  }

  ghost predicate DistinctDiseases(gs: seq<Series>) {
    forall i, j :: 0 <= i < j < |gs| ==> gs[i].disease != gs[j].disease
  }

  /** Each series holds exactly its disease's records, in input order. */
  ghost predicate SeriesAreFilters(gs: seq<Series>, data: seq<Rec>) {
    forall i :: 0 <= i < |gs| ==> gs[i].values == OfDisease(data, gs[i].disease)
  }

  /** Every record's disease has a series. */
  ghost predicate Covers(gs: seq<Series>, data: seq<Rec>) {
    forall x :: x in data ==> exists i :: 0 <= i < |gs| && gs[i].disease == x.disease
  }

  /** What grouping guarantees about `data`. */
  ghost predicate GroupsOf(gs: seq<Series>, data: seq<Rec>) {
    && DistinctDiseases(gs)
    && SeriesAreFilters(gs, data)
    && Covers(gs, data)
    && multiset(Flatten(gs)) == multiset(data)
  }

  lemma {:induction false} FlattenAppend(gs: seq<Series>, g: Series)
    ensures Flatten(gs + [g]) == Flatten(gs) + g.values
    decreases |gs|
  {
    if gs == [] {
      assert [g][1..] == [];
    } else {
      assert (gs + [g])[1..] == gs[1..] + [g];
      FlattenAppend(gs[1..], g);
    }
  }

  lemma {:induction false} FlattenExtend(gs: seq<Series>, i: nat, x: Rec)
    requires i < |gs|
    ensures multiset(Flatten(gs[i := gs[i].(values := gs[i].values + [x])])) == multiset(Flatten(gs)) + multiset{x}
    decreases i
  {
    var gs' := gs[i := gs[i].(values := gs[i].values + [x])];
    assert Flatten(gs') == gs'[0].values + Flatten(gs'[1..]);
    assert Flatten(gs) == gs[0].values + Flatten(gs[1..]);
    if i == 0 {
      assert gs'[1..] == gs[1..];
    } else {
      assert gs'[1..] == gs[1..][i - 1 := gs[1..][i - 1].(values := gs[1..][i - 1].values + [x])];
      FlattenExtend(gs[1..], i - 1, x);
    }
  }

  lemma OfDiseaseSnoc(data: seq<Rec>, x: Rec, d: string)
    ensures OfDisease(data + [x], d) == OfDisease(data, d) + (if x.disease == d then [x] else [])
  {
    assert (data + [x])[..|data|] == data;
  }

  lemma {:induction false} OfDiseaseEmpty(data: seq<Rec>, d: string)
    requires forall y :: y in data ==> y.disease != d
    ensures OfDisease(data, d) == []
    decreases |data|
  {
    if data != [] {
      OfDiseaseEmpty(data[..|data| - 1], d);
    }
  }

  lemma FiltersExtend(gs: seq<Series>, data: seq<Rec>, x: Rec, i: nat)
    requires SeriesAreFilters(gs, data) && DistinctDiseases(gs)
    requires i < |gs| && gs[i].disease == x.disease
    ensures SeriesAreFilters(gs[i := gs[i].(values := gs[i].values + [x])], data + [x])
  {
    var gs' := gs[i := gs[i].(values := gs[i].values + [x])];
    forall k | 0 <= k < |gs'| ensures gs'[k].values == OfDisease(data + [x], gs'[k].disease) {
      OfDiseaseSnoc(data, x, gs'[k].disease);
      if k != i {
        assert gs'[k] == gs[k];
      }
    }
  }

  lemma CoversExtend(gs: seq<Series>, data: seq<Rec>, x: Rec, gs': seq<Series>, i: nat)
    requires Covers(gs, data)
    requires |gs| <= |gs'| && forall k :: 0 <= k < |gs| ==> gs'[k].disease == gs[k].disease
    requires i < |gs'| && gs'[i].disease == x.disease
    ensures Covers(gs', data + [x])
  {
    forall y | y in data + [x] ensures exists k :: 0 <= k < |gs'| && gs'[k].disease == y.disease {
      if y in data {
        var k :| 0 <= k < |gs| && gs[k].disease == y.disease;
        assert gs'[k].disease == y.disease;
      } else {
        assert gs'[i].disease == y.disease;
      }
    }
  }

  /** A record of an already listed disease extends that disease's series. */
  lemma GroupStepFound(gs: seq<Series>, data: seq<Rec>, x: Rec, i: nat)
    requires GroupsOf(gs, data)
    requires i < |gs| && gs[i].disease == x.disease
    ensures GroupsOf(gs[i := gs[i].(values := gs[i].values + [x])], data + [x])
  {
    var gs' := gs[i := gs[i].(values := gs[i].values + [x])];
    FiltersExtend(gs, data, x, i);
    CoversExtend(gs, data, x, gs', i);
    FlattenExtend(gs, i, x);
    assert DistinctDiseases(gs') by {
      assert forall k :: 0 <= k < |gs| ==> gs'[k].disease == gs[k].disease;
    }
  }

  /** A record of a new disease opens a series at the end. */
  lemma GroupStepNew(gs: seq<Series>, data: seq<Rec>, x: Rec)
    requires GroupsOf(gs, data)
    requires forall k :: 0 <= k < |gs| ==> gs[k].disease != x.disease
    ensures GroupsOf(gs + [Series(x.disease, [x], 0.0)], data + [x])
  {
    var g := Series(x.disease, [x], 0.0);
    var gs' := gs + [g];
    forall y | y in data ensures y.disease != x.disease {
      var k :| 0 <= k < |gs| && gs[k].disease == y.disease;
    }
    OfDiseaseEmpty(data, x.disease);
    forall k | 0 <= k < |gs'| ensures gs'[k].values == OfDisease(data + [x], gs'[k].disease) {
      OfDiseaseSnoc(data, x, gs'[k].disease);
    }
    CoversExtend(gs, data, x, gs', |gs|);
    FlattenAppend(gs, g);
  }

  lemma GroupStepKeeps(gs: seq<Series>, data: seq<Rec>, x: Rec)
    requires GroupsOf(gs, data)
    ensures GroupsOf(GroupStep(gs, x), data + [x])
  {
    match Find(gs, x.disease)
    case Some(i) => GroupStepFound(gs, data, x, i);
    case None => GroupStepNew(gs, data, x);
  }

  /** Grouping partitions the records: one series per disease, each holding
      exactly that disease's records in input order, together holding every
      record once. */
  lemma {:induction false} GroupPartitions(data: seq<Rec>)
    ensures GroupsOf(Group(data), data)
    decreases |data|
  {
    if data != [] {
      var init := data[..|data| - 1];
      var x := data[|data| - 1];
      assert Group(data) == GroupStep(Group(init), x);
      assert init + [x] == data;
      GroupPartitions(init);
      GroupStepKeeps(Group(init), init, x);
    }
  }

  // ----- Per-series year order -------------------------------------------

  /** The comparator `(a, b) => a.year - b.year`. */
  predicate YearLe(a: Rec, b: Rec) {
    a.year <= b.year
  }

  lemma YearLeTotalPreorder()
    ensures TotalPreorder(YearLe)
  {
  }

  /** Each series' values sorted by year into a new sequence. */
  function SortValues(gs: seq<Series>): (r: seq<Series>)
    ensures |r| == |gs|
    ensures forall i :: 0 <= i < |gs| ==> r[i].disease == gs[i].disease && multiset(r[i].values) == multiset(gs[i].values)
    decreases |gs|
  {
    if gs == [] then []
    else [gs[0].(values := Sort(gs[0].values, YearLe))] + SortValues(gs[1..])
  }

  lemma {:induction false} SortValuesOrdered(gs: seq<Series>)
    ensures forall i :: 0 <= i < |gs| ==> SortedBy(SortValues(gs)[i].values, YearLe)
    decreases |gs|
  {
    if gs != [] {
      YearLeTotalPreorder();
      SortSorted(gs[0].values, YearLe);
      SortValuesOrdered(gs[1..]);
      forall i | 1 <= i < |gs| ensures SortedBy(SortValues(gs)[i].values, YearLe) {
        assert SortValues(gs)[i] == SortValues(gs[1..])[i - 1];
      }
    }
  }

  /** Rearranging the values inside the series keeps the flattened multiset. */
  lemma {:induction false} FlattenPermuted(gs: seq<Series>, hs: seq<Series>)
    requires |gs| == |hs|
    requires forall i :: 0 <= i < |gs| ==> multiset(gs[i].values) == multiset(hs[i].values)
    ensures multiset(Flatten(gs)) == multiset(Flatten(hs))
    decreases |gs|
  {
    if gs != [] {
      FlattenPermuted(gs[1..], hs[1..]);
    }
  }

  // ----- Peaks and draw order --------------------------------------------

  /** `d3.max` over the values, ignoring the ones that did not convert. */
  function MaxOf(values: seq<Rec>): (r: Option<real>)
    ensures r.None? <==> forall i :: 0 <= i < |values| ==> values[i].val.None?
    ensures r.Some? ==> exists i :: 0 <= i < |values| && values[i].val == r
    ensures r.Some? ==> forall i :: 0 <= i < |values| && values[i].val.Some? ==> values[i].val.value <= r.value
    decreases |values|
  {
    if values == [] then None
    else
      var rest := MaxOf(values[1..]);
      assert forall i :: 1 <= i < |values| ==> values[i] == values[1..][i - 1];
      var v := values[0].val;
      if v.None? then rest
      else if rest.None? || rest.value < v.value then v
      else rest
  }

  /** `d3.max(...) ?? 0`. */
  function Peak(values: seq<Rec>): real {
    MaxOf(values).GetOr(0.0)
  }

  function WithPeaks(gs: seq<Series>): (r: seq<Series>)
    ensures |r| == |gs|
    ensures forall i :: 0 <= i < |gs| ==> r[i] == gs[i].(maxVal := Peak(gs[i].values))
    decreases |gs|
  {
    if gs == [] then [] else [gs[0].(maxVal := Peak(gs[0].values))] + WithPeaks(gs[1..])
  }

  /** The comparator `(a, b) => b.maxVal - a.maxVal`: larger peaks first. */
  predicate PeakDesc(a: Series, b: Series) {
    a.maxVal >= b.maxVal
  }

  lemma PeakDescTotalPreorder()
    ensures TotalPreorder(PeakDesc)
  {
  }

  /** The whole preparation: filter, map, group, sort each series, compute
      peaks, order the series. */
  function Prepare(raw: seq<CsvRow>): seq<Series> {
    Sort(WithPeaks(SortValues(Group(Records(raw)))), PeakDesc)
  }

  /** What each prepared series satisfies on its own. */
  ghost predicate SeriesOf(s: Series, data: seq<Rec>) {
    && SortedBy(s.values, YearLe)
    && multiset(s.values) == multiset(OfDisease(data, s.disease))
    && s.maxVal == Peak(s.values)
  }

  /** The stage before the final ordering: every series is finished, the
      diseases are distinct and the records are partitioned. */
  lemma SeriesStage(data: seq<Rec>)
    ensures var wp := WithPeaks(SortValues(Group(data)));
      && (forall i :: 0 <= i < |wp| ==> SeriesOf(wp[i], data))
      && DistinctDiseases(wp)
      && (forall x :: x in data ==> exists i :: 0 <= i < |wp| && wp[i].disease == x.disease)
      && multiset(Flatten(wp)) == multiset(data)
  {
    var gs := Group(data);
    GroupPartitions(data);
    FinishSeries(gs, data);
  }

  /** Sorting each series and computing its peak keeps the grouping facts
      and makes every series finished. */
  lemma FinishSeries(gs: seq<Series>, data: seq<Rec>)
    requires GroupsOf(gs, data)
    ensures var wp := WithPeaks(SortValues(gs));
      && (forall i :: 0 <= i < |wp| ==> SeriesOf(wp[i], data))
      && DistinctDiseases(wp)
      && (forall x :: x in data ==> exists i :: 0 <= i < |wp| && wp[i].disease == x.disease)
      && multiset(Flatten(wp)) == multiset(data)
  {
    var sv := SortValues(gs);
    var wp := WithPeaks(sv);
    SortValuesOrdered(gs);
    forall i | 0 <= i < |wp| ensures SeriesOf(wp[i], data) && wp[i].disease == gs[i].disease {
      assert wp[i].values == sv[i].values;
    }
    FlattenPermuted(gs, sv);
    FlattenPermuted(sv, wp);
    forall x | x in data ensures exists i :: 0 <= i < |wp| && wp[i].disease == x.disease {
      var i :| 0 <= i < |gs| && gs[i].disease == x.disease;
      assert wp[i].disease == x.disease;
    }
  }

  /** Reordering the series keeps every per-series fact, distinctness,
      coverage and the partition. */
  lemma Reorder(wp: seq<Series>, out: seq<Series>, data: seq<Rec>)
    requires multiset(out) == multiset(wp)
    requires forall i :: 0 <= i < |wp| ==> SeriesOf(wp[i], data)
    requires DistinctDiseases(wp)
    requires forall x :: x in data ==> exists i :: 0 <= i < |wp| && wp[i].disease == x.disease
    requires multiset(Flatten(wp)) == multiset(data)
    ensures forall i :: 0 <= i < |out| ==> SeriesOf(out[i], data)
    ensures DistinctDiseases(out)
    ensures forall x :: x in data ==> exists i :: 0 <= i < |out| && out[i].disease == x.disease
    ensures multiset(Flatten(out)) == multiset(data)
  {
    forall i | 0 <= i < |out| ensures SeriesOf(out[i], data) {
      assert out[i] in multiset(wp);
    }
    ReorderDistinct(wp, out);
    forall x | x in data ensures exists i :: 0 <= i < |out| && out[i].disease == x.disease {
      CoverOne(wp, out, x.disease);
    }
    FlattenOfPermutation(wp, out);
  }

  lemma CoverOne(wp: seq<Series>, out: seq<Series>, d: string)
    requires multiset(out) == multiset(wp)
    requires exists i :: 0 <= i < |wp| && wp[i].disease == d
    ensures exists k :: 0 <= k < |out| && out[k].disease == d
  {
    var i :| 0 <= i < |wp| && wp[i].disease == d;
    assert wp[i] in multiset(out);
    var k :| 0 <= k < |out| && out[k] == wp[i];
    assert out[k].disease == d;
  }

  /** A reordering of series with distinct diseases has distinct diseases. */
  lemma ReorderDistinct(wp: seq<Series>, out: seq<Series>)
    requires DistinctDiseases(wp)
    requires multiset(out) == multiset(wp)
    ensures DistinctDiseases(out)
  {
    assert NoDuplicates(wp);
    NoDuplicatesMultiset(wp);
    NoDuplicatesMultiset(out);
    forall i, j | 0 <= i < j < |out| ensures out[i].disease != out[j].disease {
      assert out[i] in multiset(wp) && out[j] in multiset(wp);
      var a :| 0 <= a < |wp| && wp[a] == out[i];
      var b :| 0 <= b < |wp| && wp[b] == out[j];
      assert a != b;
    }
  }

  /** What the stream graph is drawn from: distinct diseases, each series in
      year order and holding exactly that disease's records, every kept record
      in exactly one series, peaks non-increasing along the draw order. */
  lemma PrepareProperties(raw: seq<CsvRow>)
    ensures var out := Prepare(raw);
      && SortedBy(out, PeakDesc)
      && DistinctDiseases(out)
      && (forall i :: 0 <= i < |out| ==> SeriesOf(out[i], Records(raw)))
      && (forall x :: x in Records(raw) ==> exists i :: 0 <= i < |out| && out[i].disease == x.disease)
      && multiset(Flatten(out)) == multiset(Records(raw))
  {
    var data := Records(raw);
    var wp := WithPeaks(SortValues(Group(data)));
    SeriesStage(data);
    Reorder(wp, Sort(wp, PeakDesc), data);
    PeakDescTotalPreorder();
    SortSorted(wp, PeakDesc);
  }

  /** Any reordering of the series keeps the flattened multiset. */
  lemma {:induction false} FlattenOfPermutation(gs: seq<Series>, hs: seq<Series>)
    requires multiset(gs) == multiset(hs)
    ensures multiset(Flatten(gs)) == multiset(Flatten(hs))
    decreases |gs|
  {
    if gs == [] {
      assert hs == [] by { assert |hs| == |multiset(hs)|; }
    } else {
      var g := gs[0];
      assert g in multiset(hs);
      var k :| 0 <= k < |hs| && hs[k] == g;
      var hs' := hs[..k] + hs[k + 1..];
      RemoveAt(hs, k);
      assert multiset(gs[1..]) == multiset(hs') by {
        assert gs == [g] + gs[1..];
      }
      FlattenOfPermutation(gs[1..], hs');
      FlattenRemove(hs, k);
    }
  }

  lemma RemoveAt<T>(s: seq<T>, k: nat)
    requires k < |s|
    ensures multiset(s[..k] + s[k + 1..]) == multiset(s) - multiset{s[k]}
  {
    assert s == s[..k] + [s[k]] + s[k + 1..];
  }

  lemma {:induction false} FlattenRemove(hs: seq<Series>, k: nat)
    requires k < |hs|
    ensures multiset(Flatten(hs)) == multiset(Flatten(hs[..k] + hs[k + 1..])) + multiset(hs[k].values)
    decreases k
  {
    if k == 0 {
      assert hs[..0] + hs[1..] == hs[1..];
    } else {
      FlattenRemove(hs[1..], k - 1);
      assert hs[..k] + hs[k + 1..] == [hs[0]] + (hs[1..][..k - 1] + hs[1..][k..]);
    }
  }
}
