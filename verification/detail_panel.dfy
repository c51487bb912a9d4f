/** The drill-down panel (src/components/DetailPanel.jsx): the per-year series
    of one country and the guards that decide what the panel draws. */
module DetailPanel {
  import opened Wrappers
  import opened Sorting
  import opened IhmeData
  import opened MapboxGlobe

  /** One `{year, value}` entry of the series; `value` is None for `null`. */
  datatype Point = Point(year: int, value: Option<real>)

  /** `getSeries`: one entry per year of `years`, in order, holding the stored
      value for (disease, year, iso3) or `null`; a stored 0 stays 0. A disease
      without an entry gives the empty series. */
  function GetSeries(vals: Values, years: seq<int>, iso3: string, disease: string): (r: seq<Point>)
    ensures disease !in vals ==> r == []
    ensures disease in vals ==> |r| == |years|
    ensures disease in vals ==>
              forall i :: 0 <= i < |r| ==> r[i].year == years[i] && r[i].value == Lookup(vals, disease, years[i], iso3)
  {
    if disease !in vals then []
    else
      var d := vals[disease];
      seq(|years|, i requires 0 <= i < |years| =>
        Point(years[i], if years[i] in d && iso3 in d[years[i]] then Some(d[years[i]][iso3]) else None))
  }

  /** The `series` memo: empty when the feature has no ISO code. */
  function PanelSeries(vals: Values, years: seq<int>, meta: CountryMeta, disease: string): (r: seq<Point>)
    ensures meta.iso3 == "" ==> r == []
    ensures meta.iso3 != "" ==> r == GetSeries(vals, years, meta.iso3, disease)
  {
    if meta.iso3 == "" then [] else GetSeries(vals, years, meta.iso3, disease)
  }

  /** The panel renders only when open, with a feature whose ISO code is non-empty. */
  predicate PanelRenders(open: bool, feature: Option<Feature>) {
    open && feature.Some? && FeatureToCountryMeta(feature).iso3 != ""
  }

  function NonNullCount(series: seq<Point>): (n: nat)
    ensures n <= |series|
    ensures n == 0 <==> forall i :: 0 <= i < |series| ==> series[i].value.None?
  {
    if series == [] then 0
    else (if series[0].value.Some? then 1 else 0) + NonNullCount(series[1..])
  }

  /** The Sparkline shows "Not enough data to plot." below two non-null values. */
  predicate EnoughData(series: seq<Point>) {
    NonNullCount(series) >= 2
  }

  /** Some entry has a value. */
  predicate HasValueAt(series: seq<Point>, i: int) {
    0 <= i < |series| && series[i].value.Some?
  }

  /** The sparkline is drawn exactly when two different entries carry a value. */
  lemma {:induction false} EnoughDataIffTwoValues(series: seq<Point>)
    ensures EnoughData(series) <==> exists i, j :: i < j && HasValueAt(series, i) && HasValueAt(series, j)
    decreases |series|
  {
    if series != [] {
      var t := series[1..];
      EnoughDataIffTwoValues(t);
      assert NonNullCount(series) == (if series[0].value.Some? then 1 else 0) + NonNullCount(t);
      if exists i, j :: i < j && HasValueAt(series, i) && HasValueAt(series, j) {
        var i, j :| i < j && HasValueAt(series, i) && HasValueAt(series, j);
        assert HasValueAt(t, j - 1);
        if i > 0 {
          assert HasValueAt(t, i - 1);
        }
      }
      if series[0].value.Some? && NonNullCount(t) >= 1 {
        var j :| 0 <= j < |t| && t[j].value.Some?;
        assert HasValueAt(series, 0) && HasValueAt(series, j + 1);
      }
      if NonNullCount(t) >= 2 {
        var i, j :| i < j && HasValueAt(t, i) && HasValueAt(t, j);
        assert HasValueAt(series, i + 1) && HasValueAt(series, j + 1);
      }
    }
  }

  /** `series.find(d => d.year === selectedYear)`: the first entry of that year. */
  function FindYear(series: seq<Point>, year: int): (r: Option<nat>)
    ensures r.Some? ==> r.value < |series| && series[r.value].year == year
    ensures r.Some? ==> forall j :: 0 <= j < r.value ==> series[j].year != year
    ensures r.None? <==> forall j :: 0 <= j < |series| ==> series[j].year != year
  {
    if series == [] then None
    else if series[0].year == year then Some(0)
    else
      match FindYear(series[1..], year)
      case None => None
      case Some(i) => Some(i + 1)
  }

  /** `selHas`: the entry found for the selected year has a non-null value. */
  predicate ShowsMarker(series: seq<Point>, year: int) {
    var sel := FindYear(series, year);
    sel.Some? && series[sel.value].value.Some?
  }

  /** The selected-year circle is on screen: the Sparkline got past its
      not-enough-data return and `selHas` holds. */
  predicate MarkerDrawn(series: seq<Point>, year: int) {
    EnoughData(series) && ShowsMarker(series, year)
  }

  /** When the series has one entry per year, `selHas` holds exactly when the
      selected year has a non-null value, and the circle is drawn exactly when,
      besides, two different entries carry a value. */
  lemma MarkerIffSelectedValue(series: seq<Point>, year: int)
    requires forall i, j :: 0 <= i < j < |series| ==> series[i].year != series[j].year
    ensures ShowsMarker(series, year) <==>
              exists i :: 0 <= i < |series| && series[i].year == year && series[i].value.Some?
    ensures MarkerDrawn(series, year) <==>
              && (exists i, j :: i < j && HasValueAt(series, i) && HasValueAt(series, j))
              && (exists i :: 0 <= i < |series| && series[i].year == year && series[i].value.Some?)
  {
    EnoughDataIffTwoValues(series);
    if exists i :: 0 <= i < |series| && series[i].year == year && series[i].value.Some? {
      var i :| 0 <= i < |series| && series[i].year == year && series[i].value.Some?;
      var sel := FindYear(series, year);
      assert sel.Some?;
      assert sel.value == i by {
        if sel.value < i {} else if sel.value > i {}
      }
    }
  }

  /** On a loaded index, the series of an open panel reports, for every listed
      year, the value of the last accepted row for that country, disease and
      metric, and `null` when there is none. */
  lemma PanelShowsLastRows(rows: seq<Row>, m: Metric, open: bool, feature: Option<Feature>, disease: string)
    requires PanelRenders(open, feature)
    requires disease in IndexValues(Build(rows), m)
    ensures var ix := Build(rows); var iso := FeatureToCountryMeta(feature).iso3;
      var s := PanelSeries(IndexValues(ix, m), ix.years, FeatureToCountryMeta(feature), disease);
      && |s| == |ix.years|
      && forall i :: 0 <= i < |s| ==> s[i].year == ix.years[i] && s[i].value == LastValue(rows, m, disease, ix.years[i], iso)
  {
    var ix := Build(rows);
    var iso := FeatureToCountryMeta(feature).iso3;
    forall i | 0 <= i < |ix.years| ensures Lookup(IndexValues(ix, m), disease, ix.years[i], iso) == LastValue(rows, m, disease, ix.years[i], iso) {
      IngestLookup(rows, m, disease, ix.years[i], iso);
      assert IndexValues(ix, m) == ValuesOf(Ingest(rows), m);
    }
  }

  /** On a loaded index `selHas` holds exactly when the selected year is
      listed and the country has a value for it; the circle is drawn exactly
      when, besides, the country has values for two listed years. */
  lemma MarkerOnLoadedIndex(rows: seq<Row>, m: Metric, iso: string, disease: string, year: int)
    requires iso != "" && disease in IndexValues(Build(rows), m)
    ensures var ix := Build(rows);
      ShowsMarker(GetSeries(IndexValues(ix, m), ix.years, iso, disease), year) <==>
        year in ix.years && Lookup(IndexValues(ix, m), disease, year, iso).Some?
    ensures var ix := Build(rows); var vals := IndexValues(ix, m);
      MarkerDrawn(GetSeries(vals, ix.years, iso, disease), year) <==>
        && year in ix.years && Lookup(vals, disease, year, iso).Some?
        && exists i, j :: 0 <= i < j < |ix.years| && Lookup(vals, disease, ix.years[i], iso).Some?
                                                  && Lookup(vals, disease, ix.years[j], iso).Some?
  {
    BuildYears(rows);
    MarkerOnSeries(IndexValues(Build(rows), m), Build(rows).years, iso, disease, year);
  }

  /** The marker facts for the series of a year list without repeats. */
  lemma MarkerOnSeries(vals: Values, years: seq<int>, iso: string, disease: string, year: int)
    requires disease in vals
    requires forall i, j :: 0 <= i < j < |years| ==> years[i] != years[j]
    ensures ShowsMarker(GetSeries(vals, years, iso, disease), year) <==>
              year in years && Lookup(vals, disease, year, iso).Some?
    ensures MarkerDrawn(GetSeries(vals, years, iso, disease), year) <==>
              && year in years && Lookup(vals, disease, year, iso).Some?
              && exists i, j :: 0 <= i < j < |years| && Lookup(vals, disease, years[i], iso).Some?
                                                     && Lookup(vals, disease, years[j], iso).Some?
  {
    var s := GetSeries(vals, years, iso, disease);
    MarkerIffSelectedValue(s, year);
    if year in years && Lookup(vals, disease, year, iso).Some? {
      var i :| 0 <= i < |years| && years[i] == year;
      assert s[i].year == year && s[i].value.Some?;
    }
    assert forall i :: HasValueAt(s, i) <==> 0 <= i < |years| && Lookup(vals, disease, years[i], iso).Some?;
  }
}
