/** The page-level selection logic of the globe page (src/pages/GlobePage.jsx):
    the disease taken from the query string, the precedence between the
    disease sources, the selector's lock, the readiness predicate, the year
    initialisation and the play tick that cycles through the years. */
module GlobePage {
  import opened Wrappers
  import opened JsValues
  import opened IhmeData
  import opened VizStore

  /** The `disease` query parameter: absent and blank both mean no disease;
      otherwise its trimmed text. */
  function QueryDisease(param: Option<string>): (r: Option<string>)
    ensures r.None? <==> param.None? || AllSpace(param.value)
    ensures r.Some? ==> r.value == Trim(param.value) && r.value != []
  {
    var t := Trim(param.GetOr(""));
    if t == [] then None else Some(t)
  }

  /** The first entry of a list, as `xs[0] ?? null` gives it. */
  function First<T>(xs: seq<T>): (r: Option<T>)
    ensures r.None? <==> xs == []
    ensures r.Some? ==> r.value == xs[0]
  {
    if xs == [] then None else Some(xs[0])
  }

  /** `a ?? b`: only a missing value falls through; an empty string does not. */
  function Coalesce<T>(a: Option<T>, b: Option<T>): (r: Option<T>)
    ensures a.Some? ==> r == a
    ensures a.None? ==> r == b
  {
    if a.Some? then a else b
  }

  /** The disease the page shows: query, then store, then the data default,
      then the first listed disease. */
  function SelectedDisease(query: Option<string>, viz: VizState, defaults: Defaults, diseases: seq<string>): (r: Option<string>)
    ensures query.Some? ==> r == query
    ensures query.None? && viz.disease.Some? ==> r == viz.disease
    ensures query.None? && viz.disease.None? && defaults.defaultDisease.Some? ==> r == defaults.defaultDisease
    ensures query.None? && viz.disease.None? && defaults.defaultDisease.None? ==> r == First(diseases)
  {
    Coalesce(query, Coalesce(viz.disease, Coalesce(defaults.defaultDisease, First(diseases))))
  }

  /** The selection is one of the four sources, or nothing when all are empty. */
  lemma SelectedDiseaseSource(query: Option<string>, viz: VizState, defaults: Defaults, diseases: seq<string>)
    ensures var r := SelectedDisease(query, viz, defaults, diseases);
      (r.None? <==> query.None? && viz.disease.None? && defaults.defaultDisease.None? && diseases == [])
      && (r.Some? ==> r == query || r == viz.disease || r == defaults.defaultDisease || r.value in diseases)
  {
  }

  /** On loaded data the default and the list agree: with no query and no store
      choice, the page shows the alphabetically first disease. */
  lemma SelectedDiseaseOnLoadedData(query: Option<string>, viz: VizState, rows: seq<Row>)
    requires query.None? && viz.disease.None?
    ensures var ix := Build(rows);
      SelectedDisease(query, viz, DeriveDefaults(ix.diseases, ix.years), ix.diseases) == First(ix.diseases)
  {
    DefaultDiseaseOfBuild(rows);
  }

  /** The selector is locked by the store or overridden by the query. */
  predicate DiseaseDisabled(viz: VizState, query: Option<string>) {
    viz.locked || query.Some?
  }

  /** Starting from the store's initial state, the selector is disabled exactly
      when a query disease is present or some streamgraph selection happened
      with no unlock after it. */
  lemma DisabledAfterActions(acts: seq<Action>, query: Option<string>)
    ensures DiseaseDisabled(Run(Init(), acts).state, query) <==>
      query.Some?
      || exists i :: 0 <= i < |acts| && acts[i].FromStreamgraph? && forall j :: i < j < |acts| ==> !acts[j].Unlock?
  {
    LockedIffStreamgraphSinceUnlock(Init(), acts);
  }

  /** A value JavaScript treats as true: a missing or empty string is not. */
  predicate Truthy(s: Option<string>) {
    s.Some? && s.value != []
  }

  /** The page can be marked ready: loaded, no error, a disease chosen, some years. */
  predicate Ready(loading: bool, error: Option<string>, selected: Option<string>, years: seq<int>) {
    !loading && !Truthy(error) && Truthy(selected) && |years| > 0
  }

  /** Some row passed the loader's guards exactly when a disease, and
      exactly when a year, was collected. */
  lemma AcceptedListsTogether(rows: seq<Row>)
    ensures AcceptedDiseases(rows) == {} <==> AcceptedYears(rows) == {}
  {
    if exists i :: 0 <= i < |rows| && Accepted(rows[i]) {
      var i :| 0 <= i < |rows| && Accepted(rows[i]);
      assert Trim(rows[i].causeName) in AcceptedDiseases(rows);
      assert rows[i].year.value in AcceptedYears(rows);
    } else {
      assert forall y :: y !in AcceptedYears(rows);
      assert forall d :: d !in AcceptedDiseases(rows);
    }
  }

  /** With no query and no store choice, the page is ready on a disease list
      without empty names exactly when the list is non-empty, provided the
      year list is empty exactly when the disease list is. */
  lemma ReadyIffListed(viz: VizState, ds: seq<string>, ys: seq<int>)
    requires viz.disease.None?
    requires forall i :: 0 <= i < |ds| ==> ds[i] != []
    requires ds == [] <==> ys == []
    ensures Ready(false, None, SelectedDisease(None, viz, DeriveDefaults(ds, ys), ds), ys) <==> ds != []
  {
  }

  /** No disease name in a built index is empty, and the list is empty
      exactly when no row was accepted. */
  lemma LoadedDiseaseNames(rows: seq<Row>)
    ensures var ds := Build(rows).diseases;
      && (forall i :: 0 <= i < |ds| ==> ds[i] != [])
      && (ds != [] <==> AcceptedDiseases(rows) != {})
  {
    var ds := Build(rows).diseases;
    BuildDiseases(rows);
    forall i | 0 <= i < |ds| ensures ds[i] != [] {
      assert ds[i] in AcceptedDiseases(rows);
    }
    if ds == [] {
      assert forall d :: d !in AcceptedDiseases(rows);
    } else {
      assert ds[0] in AcceptedDiseases(rows);
    }
  }

  /** The year list is empty exactly when no row was accepted. */
  lemma LoadedYears(rows: seq<Row>)
    ensures Build(rows).years != [] <==> AcceptedYears(rows) != {}
  {
    var ys := Build(rows).years;
    BuildYears(rows);
    if ys == [] {
      assert forall y :: y !in AcceptedYears(rows);
    } else {
      assert ys[0] in AcceptedYears(rows);
    }
  }

  /** With no query and no store choice on loaded data, the page becomes
      ready exactly when some row passed the loader's guards. */
  lemma ReadyOnLoadedData(viz: VizState, rows: seq<Row>)
    requires viz.disease.None?
    ensures var ix := Build(rows);
      var sel := SelectedDisease(None, viz, DeriveDefaults(ix.diseases, ix.years), ix.diseases);
      Ready(false, None, sel, ix.years) <==> AcceptedDiseases(rows) != {}
  {
    var ix := Build(rows);
    LoadedDiseaseNames(rows);
    LoadedYears(rows);
    AcceptedListsTogether(rows);
    ReadyIffListed(viz, ix.diseases, ix.years);
  }

  /** The effect that seeds the year once defaults exist: a year already set
      (non-zero) is kept, otherwise the default is taken; nothing happens while
      there is no default disease. */
  function InitYear(prev: int, defaults: Defaults): (r: int)
    ensures !Truthy(defaults.defaultDisease) ==> r == prev
    ensures Truthy(defaults.defaultDisease) && prev != 0 ==> r == prev
    ensures Truthy(defaults.defaultDisease) && prev == 0 ==> r == defaults.defaultYear
  {
    if !Truthy(defaults.defaultDisease) then prev
    else if prev != 0 then prev else defaults.defaultYear
  }

  /** The year the page starts with before any data arrives. */
  const InitialYear := 2000

  /** On first load the year effect never applies the default year: the page
      starts at a non-zero year, which is kept. When the data lacks that year
      but holds others, the page therefore shows a year that is not listed and
      differs from the default. */
  lemma FirstLoadKeepsInitialYear(rows: seq<Row>)
    ensures var ix := Build(rows);
      var df := DeriveDefaults(ix.diseases, ix.years);
      && InitYear(InitialYear, df) == InitialYear
      && (InitialYear !in AcceptedYears(rows) && AcceptedYears(rows) != {} ==>
            InitYear(InitialYear, df) != df.defaultYear && InitYear(InitialYear, df) !in ix.years)
  {
    DefaultYearOfBuild(rows);
    BuildYears(rows);
  }

  /** The first and last listed years, or 1970 and 2024 with no years. */
  function MinYear(years: seq<int>): int {
    if years == [] then 1970 else years[0]
  }

  function MaxYear(years: seq<int>): int {
    if years == [] then 2024 else years[|years| - 1]
  }

  /** One play tick: past or at the last year, wrap to the first; otherwise advance. */
  function Tick(years: seq<int>, prev: int): (r: int)
    ensures prev >= MaxYear(years) ==> r == MinYear(years)
    ensures prev < MaxYear(years) ==> r == prev + 1
  {
    var minY := MinYear(years);
    var maxY := MaxYear(years);
    if prev >= maxY then minY else prev + 1
  }

  /** A year inside the range stays inside it. */
  lemma TickStaysInRange(years: seq<int>, prev: int)
    requires MinYear(years) <= prev <= MaxYear(years)
    ensures MinYear(years) <= Tick(years, prev) <= MaxYear(years)
  {
  }

  /** `n` ticks in a row. */
  function Ticks(years: seq<int>, y: int, n: nat): int
    decreases n
  {
    if n == 0 then y else Ticks(years, Tick(years, y), n - 1)
  }

  /** From the first year, `k` ticks (fewer than the number of years in the
      range) reach the `k`-th year after it. */
  lemma {:induction false} TicksAdvance(years: seq<int>, k: nat)
    requires MinYear(years) + k <= MaxYear(years)
    ensures Ticks(years, MinYear(years), k) == MinYear(years) + k
    decreases k
  {
    if k > 0 {
      TicksAdvance(years, k - 1);
      TicksSnoc(years, MinYear(years), k - 1);
    }
  }

  lemma {:induction false} TicksSnoc(years: seq<int>, y: int, n: nat)
    ensures Ticks(years, y, n + 1) == Tick(years, Ticks(years, y, n))
    decreases n
  {
    if n > 0 {
      TicksSnoc(years, Tick(years, y), n - 1);
    }
  }

  /** Playing from the first year returns to it after exactly one pass over
      the range, and not earlier. */
  lemma PlayCycles(years: seq<int>)
    requires MinYear(years) <= MaxYear(years)
    ensures var minY, maxY := MinYear(years), MaxYear(years);
      Ticks(years, minY, maxY - minY + 1) == minY
      && forall k: nat :: 0 < k <= maxY - minY ==> Ticks(years, minY, k) != minY
  {
    var minY, maxY := MinYear(years), MaxYear(years);
    TicksAdvance(years, maxY - minY);
    TicksSnoc(years, minY, maxY - minY);
    forall k: nat | 0 < k <= maxY - minY ensures Ticks(years, minY, k) != minY {
      TicksAdvance(years, k);
    }
  }

  /** On loaded data the tick range is the data's own year range. */
  lemma TickRangeOnLoadedData(rows: seq<Row>, y: int)
    ensures var ix := Build(rows);
      ix.years != [] ==> (y in ix.years ==> MinYear(ix.years) <= y <= MaxYear(ix.years))
  {
    BuildYears(rows);
    var ys := Build(rows).years;
    if ys != [] && y in ys {
      var i :| 0 <= i < |ys| && ys[i] == y;
      if i > 0 { assert ys[0] < ys[i]; }
      if i < |ys| - 1 { assert ys[i] < ys[|ys| - 1]; }
    }
  }
}
