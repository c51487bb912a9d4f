/** The choropleth side of the globe hook (src/hooks/useMapboxGlobe.js): the
    fill-colour `case` expression as a classifier, the per-year lookup, the
    feature-state clear/set update, the thresholds memo and the country meta. */
module MapboxGlobe {
  import opened Wrappers
  import opened JsValues
  import opened IhmeData
  import opened Thresholds

  /** The seven outcomes of the fill-colour expression. */
  datatype FillClass = NoData | Zero | Bin1 | Bin2 | Bin3 | Bin4 | Bin5

  /** The colour each outcome paints. */
  function Colour(c: FillClass): string {
    match c
    case NoData => "#e5e7eb"
    case Zero => "#f3f4f6"
    case Bin1 => "#dbeafe"
    case Bin2 => "#93c5fd"
    case Bin3 => "#60a5fa"
    case Bin4 => "#2563eb"
    case Bin5 => "#1e40af"
  }

  /** 1..5 for the threshold bins, 0 for the two fixed classes. */
  function BinNumber(c: FillClass): nat {
    match c
    case NoData => 0
    case Zero => 0
    case Bin1 => 1
    case Bin2 => 2
    case Bin3 => 3
    case Bin4 => 4
    case Bin5 => 5
  }

  /** How many of the thresholds a value has reached. */
  function Reached(q: Quartet, v: real): nat {
    (if q.t1 <= v then 1 else 0) + (if q.t2 <= v then 1 else 0)
    + (if q.t3 <= v then 1 else 0) + (if q.t4 <= v then 1 else 0)
  }

  /** `buildFillExpressionFromState(thresholds)` evaluated for one feature whose
      feature-state reads `value` (Some(v) when `hasValue` is true). Without
      thresholds every present non-zero value gets "#2563eb", the colour of the
      fourth bin. */
  function Classify(value: Option<real>, thresholds: Option<Quartet>): (c: FillClass)
    ensures c == NoData <==> value.None?
    ensures c == Zero <==> value == Some(0.0)
    ensures value.Some? && value.value != 0.0 && thresholds.None? ==> Colour(c) == "#2563eb"
    ensures value.Some? && value.value != 0.0 && thresholds.Some? ==>
              && 1 <= BinNumber(c) <= 5
              && (BinNumber(c) < 5 ==> value.value < ThresholdAt(thresholds.value, BinNumber(c)))
              && (forall i :: 1 <= i < BinNumber(c) ==> ThresholdAt(thresholds.value, i) <= value.value)
  {
    match value
    case None => NoData
    case Some(v) =>
      if v == 0.0 then Zero
      else
        match thresholds
        case None => Bin4
        case Some(q) =>
          if v < q.t1 then Bin1
          else if v < q.t2 then Bin2
          else if v < q.t3 then Bin3
          else if v < q.t4 then Bin4
          else Bin5
  }

  /** t_i for i = 1..4. */
  function ThresholdAt(q: Quartet, i: int): real
    requires 1 <= i <= 4
  {
    if i == 1 then q.t1 else if i == 2 then q.t2 else if i == 3 then q.t3 else q.t4
  }

  /** With non-decreasing thresholds, the bin is one more than the number of
      thresholds the value has reached; values below t1, negatives included,
      land in the first bin, and values at or above t4 in the fifth. */
  lemma BinCountsReachedThresholds(v: real, q: Quartet)
    requires v != 0.0 && Ordered(q)
    ensures BinNumber(Classify(Some(v), Some(q))) == 1 + Reached(q, v)
  {
  }

  /** Comparisons are strict: with non-decreasing thresholds a value equal to
      t_i never falls in a bin below the one that starts at t_i. */
  lemma ThresholdValueStartsItsBin(q: Quartet, i: int)
    requires 1 <= i <= 4 && ThresholdAt(q, i) != 0.0 && Ordered(q)
    ensures BinNumber(Classify(Some(ThresholdAt(q, i)), Some(q))) >= i + 1
  {
  }

  /** For non-decreasing thresholds the bin never decreases as the value grows. */
  lemma ClassifyMonotone(v: real, w: real, q: Quartet)
    requires v != 0.0 && w != 0.0 && v <= w && Ordered(q)
    ensures BinNumber(Classify(Some(v), Some(q))) <= BinNumber(Classify(Some(w), Some(q)))
  {
    BinCountsReachedThresholds(v, q);
    BinCountsReachedThresholds(w, q);
  }

  // ----- Per-year lookup -----------------------------------------------------

  /** `valuesByDiseaseYear?.[disease]?.[year] || {}`. */
  function PerYear(vals: Values, disease: string, year: int): (r: Bucket)
    ensures forall iso :: iso in r <==> Lookup(vals, disease, year, iso).Some?
    ensures forall iso :: iso in r ==> Lookup(vals, disease, year, iso) == Some(r[iso])
    ensures !(disease in vals && year in vals[disease]) ==> r == map[]
  {
    if disease in vals && year in vals[disease] then vals[disease][year] else map[]
  }

  // ----- Feature-state synchronisation -------------------------------------

  /** The feature-state Mapbox keeps for one country. */
  datatype FeatureState = FeatureState(hasValue: bool, value: Option<real>)

  const Cleared := FeatureState(false, None)

  function Filled(v: real): FeatureState {
    FeatureState(true, Some(v))
  }

  /** What the fill expression and the hover handler read for a feature:
      its value when `hasValue` is true, else nothing. */
  function ShownValue(states: map<string, FeatureState>, iso: string): Option<real> {
    if iso in states && states[iso].hasValue then states[iso].value else None
  }

  function BucketValue(b: Bucket, iso: string): Option<real> {
    if iso in b then Some(b[iso]) else None
  }

  /** The tracked set covers every feature currently showing a value. */
  ghost predicate Tracked(states: map<string, FeatureState>, tracked: set<string>) {
    forall iso :: iso in states && states[iso].hasValue ==> iso in tracked
  }

  /** The outcome of one clear-then-set update from (`states`, `prev`) to
      (`states2`, `next`) for the bucket `perYear`. */
  ghost predicate UpdatedFrom(states: map<string, FeatureState>, prev: set<string>, perYear: Bucket,
                              states2: map<string, FeatureState>, next: set<string>) {
    && next == perYear.Keys
    && (forall iso :: iso in perYear ==> iso in states2 && states2[iso] == Filled(perYear[iso]))
    && (forall iso :: iso in prev && iso !in perYear ==> iso in states2 && states2[iso] == Cleared)
    && (forall iso :: iso !in prev && iso !in perYear ==>
          (iso in states2 <==> iso in states) && (iso in states ==> states2[iso] == states[iso]))
  }

  /** The two loops of the update: clear every previously set country, then
      set every country of `perYear` and remember exactly those. */
  method UpdateFeatureStates(states: map<string, FeatureState>, prev: set<string>, perYear: Bucket)
    returns (states2: map<string, FeatureState>, next: set<string>)
    ensures next == perYear.Keys
    ensures forall iso :: iso in perYear ==> iso in states2 && states2[iso] == Filled(perYear[iso])
    ensures forall iso :: iso in prev && iso !in perYear ==> iso in states2 && states2[iso] == Cleared
    ensures forall iso :: iso !in prev && iso !in perYear ==>
              (iso in states2 <==> iso in states) && (iso in states ==> states2[iso] == states[iso])
    ensures UpdatedFrom(states, prev, perYear, states2, next)
  {
    states2 := states;
    var toClear := prev;
    while toClear != {}
      invariant toClear <= prev
      invariant forall iso :: iso in prev - toClear ==> iso in states2 && states2[iso] == Cleared
      invariant forall iso :: iso !in prev - toClear ==>
                  (iso in states2 <==> iso in states) && (iso in states ==> states2[iso] == states[iso])
      decreases toClear
    {
      var iso :| iso in toClear;
      states2 := states2[iso := Cleared];
      toClear := toClear - {iso};
    }
    next := {};
    var toSet := perYear.Keys;
    while toSet != {}
      invariant toSet <= perYear.Keys
      invariant next == perYear.Keys - toSet
      invariant forall iso :: iso in next ==> iso in states2 && states2[iso] == Filled(perYear[iso])
      invariant forall iso :: iso in prev && iso !in next ==> iso in states2 && states2[iso] == Cleared
      invariant forall iso :: iso !in prev && iso !in next ==>
                  (iso in states2 <==> iso in states) && (iso in states ==> states2[iso] == states[iso])
      decreases toSet
    {
      var iso :| iso in toSet;
      next := next + {iso};
      states2 := states2[iso := Filled(perYear[iso])];
      toSet := toSet - {iso};
    }
  }

  /** No stale colours: if the tracked set covered every country showing a
      value before the update, then afterwards every country shows exactly its
      `perYear` value (nothing when it has none) and the new tracked set covers
      the new state. */
  lemma NoStaleValues(states: map<string, FeatureState>, prev: set<string>, perYear: Bucket,
                      states2: map<string, FeatureState>, next: set<string>)
    requires Tracked(states, prev)
    requires UpdatedFrom(states, prev, perYear, states2, next)
    ensures Tracked(states2, next)
    ensures forall iso :: ShownValue(states2, iso) == BucketValue(perYear, iso)
  {
    forall iso ensures ShownValue(states2, iso) == BucketValue(perYear, iso) {
      if iso !in prev && iso !in perYear && iso in states {
        assert !states[iso].hasValue;
      }
    }
  }

  /** Every country of the globe is coloured from the index value for the
      selected (disease, year): absent -> NO_DATA, 0 -> ZERO, else a bin. */
  lemma GlobeShowsIndex(vals: Values, disease: string, year: int, thresholds: Option<Quartet>,
                        states: map<string, FeatureState>, prev: set<string>,
                        states2: map<string, FeatureState>, next: set<string>, iso: string)
    requires Tracked(states, prev)
    requires UpdatedFrom(states, prev, PerYear(vals, disease, year), states2, next)
    ensures Classify(ShownValue(states2, iso), thresholds) == Classify(Lookup(vals, disease, year, iso), thresholds)
    ensures Classify(ShownValue(states2, iso), thresholds) == NoData <==> Lookup(vals, disease, year, iso).None?
  {
    NoStaleValues(states, prev, PerYear(vals, disease, year), states2, next);
  }

  // ----- Thresholds memo and country meta --------------------------------------

  /** The `thresholds` memo: nothing without a selected disease (`null` or ""),
      else the engine's answer: a quartet exactly when the disease is indexed
      (and the year too, per year) with at least `MinSamples` candidates, made
      of nearest-rank quantiles of the candidates (of their `log1p` images for
      counts). */
  ghost function SelectedThresholds(vals: Values, selected: Option<string>, year: int, metric: Metric,
                                    mode: ScaleMode, log1p: real -> real, expm1: real -> real): (r: Option<Quartet>)
    ensures selected.None? || selected == Some("") ==> r.None?
    ensures r.Some? ==> selected.Some? && selected.value in vals
    ensures r.Some? && metric == Rate ==> Ordered(r.value)
    ensures selected.Some? && selected.value != "" ==>
              (r.Some? <==>
                 && selected.value in vals
                 && (mode.PerYear? ==> year in vals[selected.value])
                 && |Candidates(vals[selected.value], year, mode)| >= MinSamples)
    ensures r.Some? && metric == Rate ==> NearestRank(Candidates(vals[selected.value], year, mode), r.value)
    ensures r.Some? && metric == Number ==>
              exists q :: NearestRank(MapReal(log1p, Candidates(vals[selected.value], year, mode)), q)
                          && r.value == Quartet(expm1(q.t1), expm1(q.t2), expm1(q.t3), expm1(q.t4))
  {
    if selected.None? || selected.value == "" then None
    else ComputeThresholds(vals, selected.value, year, metric, mode, log1p, expm1)
  }

  /** The two properties of a GeoJSON feature the program reads (None when
      missing). */
  datatype Feature = Feature(name: Option<string>, iso: Option<string>)

  datatype CountryMeta = CountryMeta(name: string, iso3: string)

  /** `featureToCountryMeta`: a missing or empty name reads "Unknown"; the ISO
      code is trimmed, "" when missing. */
  function FeatureToCountryMeta(feature: Option<Feature>): (r: CountryMeta)
    ensures feature.None? ==> r == CountryMeta("Unknown", "")
    ensures feature.Some? && feature.value.name.Some? && feature.value.name.value != "" ==>
              r.name == feature.value.name.value
    ensures feature.Some? && (feature.value.name.None? || feature.value.name.value == "") ==> r.name == "Unknown"
    ensures feature.Some? && feature.value.iso.Some? ==> r.iso3 == Trim(feature.value.iso.value)
    ensures feature.Some? && feature.value.iso.None? ==> r.iso3 == ""
    ensures r.iso3 == "" || (!IsSpace(r.iso3[0]) && !IsSpace(r.iso3[|r.iso3| - 1]))
  {
    match feature
    case None => CountryMeta("Unknown", "")
    case Some(f) => CountryMeta(MetaName(f.name), MetaIso(f.iso))
  }

  /** The name property, or "Unknown" when it is missing or empty. */
  function MetaName(name: Option<string>): (r: string)
    ensures name.Some? && name.value != "" ==> r == name.value
    ensures name.None? || name.value == "" ==> r == "Unknown"
  {
    if name.Some? && name.value != "" then name.value else "Unknown"
  }

  /** The trimmed ISO property, or "" when it is missing. */
  function MetaIso(iso: Option<string>): (r: string)
    ensures iso.Some? ==> r == Trim(iso.value)
    ensures iso.None? ==> r == ""
    ensures r == "" || (!IsSpace(r[0]) && !IsSpace(r[|r| - 1]))
  {
    Trim(iso.GetOr(""))
  }
}
