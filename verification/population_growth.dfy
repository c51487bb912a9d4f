/** The data preparation of the population-growth chart
    (src/components/PopulationGrowth.jsx, lines 40-91): find the country
    column, find the World row, turn its year columns into points in
    [1980, 2023] ordered by year, and report each failure the chart shows as
    an error message.  The year-extracting regular expression and the number
    conversion are parameters. */
module PopulationGrowth {
  import opened Wrappers
  import opened JsValues
  import opened Sorting
  import opened Counting

  /** One parsed CSV row: its column names in key order and its cells. */
  datatype CsvRow = CsvRow(keys: seq<string>, cells: map<string, string>)

  datatype Point = Point(year: int, value: real)

  /** The four messages the chart can show instead of a line. */
  datatype ChartError = CsvNotLoaded | NoCountryColumn | NoWorldRow | TooFewPoints

  const FirstYear := 1980
  const LastYear := 2023
  const CountryName := "Country Name"

  /** `String(row[k] ?? "")`. */
  function Cell(row: CsvRow, k: string): string {
    if k in row.cells then row.cells[k] else ""
  }

  /** First index whose element satisfies `p`. */
  function FindFirst<T>(xs: seq<T>, p: T -> bool): (r: Option<nat>)
    ensures r.Some? ==> r.value < |xs| && p(xs[r.value])
    ensures r.Some? ==> forall j :: 0 <= j < r.value ==> !p(xs[j])
    ensures r.None? ==> forall j :: 0 <= j < |xs| ==> !p(xs[j])
    decreases |xs|
  {
    if xs == [] then None
    else if p(xs[0]) then Some(0)
    else
      var r := FindFirst(xs[1..], p);
      assert forall j :: 1 <= j < |xs| ==> xs[j] == xs[1..][j - 1];
      if r.None? then None else Some(r.value + 1)
  }

  predicate IsExactCountryKey(k: string) {
    Trim(k) == CountryName
  }

  predicate MentionsCountryName(k: string) {
    Contains(Lower(k), "country") && Contains(Lower(k), "name")
  }

  /** The country column: the first key that trims to "Country Name", else the
      first key mentioning both "country" and "name" in any ASCII case. */
  function CountryColumn(keys: seq<string>): (r: Option<string>)
    ensures (exists i :: 0 <= i < |keys| && IsExactCountryKey(keys[i])) ==>
      r.Some? && IsExactCountryKey(r.value)
      && exists i :: 0 <= i < |keys| && keys[i] == r.value && forall j :: 0 <= j < i ==> !IsExactCountryKey(keys[j])
    ensures (forall i :: 0 <= i < |keys| ==> !IsExactCountryKey(keys[i])) ==>
      (r.Some? <==> exists i :: 0 <= i < |keys| && MentionsCountryName(keys[i]))
      && (r.Some? ==> exists i :: 0 <= i < |keys| && keys[i] == r.value && MentionsCountryName(keys[i])
                                 && forall j :: 0 <= j < i ==> !MentionsCountryName(keys[j]))
  {
    var exact := FindFirst(keys, IsExactCountryKey);
    if exact.Some? then Some(keys[exact.value])
    else
      var loose := FindFirst(keys, MentionsCountryName);
      if loose.Some? then Some(keys[loose.value]) else None
  }

  predicate IsWorld(col: string, row: CsvRow) {
    Lower(Trim(Cell(row, col))) == "world"
  }

  predicate NoWorld(rows: seq<CsvRow>, col: string) {
    forall i :: 0 <= i < |rows| ==> !IsWorld(col, rows[i])
  }

  /** The first row whose country cell reads "world" after trimming and lower-casing. */
  function WorldRow(rows: seq<CsvRow>, col: string): (r: Option<CsvRow>)
    ensures r.None? <==> NoWorld(rows, col)
    ensures r.Some? ==> exists i :: 0 <= i < |rows| && rows[i] == r.value && IsWorld(col, rows[i])
                                   && forall j :: 0 <= j < i ==> !IsWorld(col, rows[j])
  {
    var i := FindFirst(rows, (row: CsvRow) => IsWorld(col, row));
    if i.None? then None else Some(rows[i.value])
  }

  /** `+String(cell).trim()`: a blank cell is 0, anything else goes through
      the number conversion. */
  function CellNumber(cell: string, toNumber: string -> JsNum): JsNum {
    var t := Trim(cell);
    if t == [] then Finite(0.0) else toNumber(t)
  }

  /** A year column gives a point when its year is in range and its value is finite. */
  predicate Plotted(year: Option<int>, value: JsNum) {
    year.Some? && value.Finite? && FirstYear <= year.value <= LastYear
  }

  /** The point a column gives, if it is plotted. */
  function FromKey(row: CsvRow, k: string, extractYear: string -> Option<int>, toNumber: string -> JsNum): (r: Option<Point>)
    ensures r.Some? ==> FirstYear <= r.value.year <= LastYear
  {
    var y := extractYear(k);
    var v := CellNumber(Cell(row, k), toNumber);
    if Plotted(y, v) then Some(Point(y.value, v.v)) else None
  }

  /** The positions of `xs` whose entry `f` maps to `Some(p)`. */
  ghost function KeysGiving<K, P>(xs: seq<K>, f: K -> Option<P>, p: P): set<int> {
    set i | 0 <= i < |xs| && f(xs[i]) == Some(p)
  }

  /** `xs.map(f).filter(...)` where `f` yields `None` for a dropped entry:
      each value occurs once for every entry that yields it. */
  function Collect<K, P(==,!new)>(xs: seq<K>, f: K -> Option<P>): (r: seq<P>)
    ensures |r| <= |xs|
    ensures forall p :: p in r <==> exists i :: 0 <= i < |xs| && f(xs[i]) == Some(p)
    ensures forall p :: multiset(r)[p] == |KeysGiving(xs, f, p)|
    decreases |xs|
  {
    if xs == [] then
      assert forall p :: KeysGiving(xs, f, p) == {};
      []
    else
      var rest := Collect(xs[1..], f);
      assert forall i :: 1 <= i < |xs| ==> xs[i] == xs[1..][i - 1];
      KeysGivingCons(xs, f);
      if f(xs[0]).Some? then [f(xs[0]).value] + rest else rest
  }

  /** Dropping the first entry drops its position and shifts the others down. */
  lemma KeysGivingCons<K, P>(xs: seq<K>, f: K -> Option<P>)
    requires xs != []
    ensures forall p :: |KeysGiving(xs, f, p)| == (if f(xs[0]) == Some(p) then 1 else 0) + |KeysGiving(xs[1..], f, p)|
  {
    forall p ensures |KeysGiving(xs, f, p)| == (if f(xs[0]) == Some(p) then 1 else 0) + |KeysGiving(xs[1..], f, p)| {
      KeysGivingConsAt(xs, f, p);
    }
  }

  lemma KeysGivingConsAt<K, P>(xs: seq<K>, f: K -> Option<P>, p: P)
    requires xs != []
    ensures |KeysGiving(xs, f, p)| == (if f(xs[0]) == Some(p) then 1 else 0) + |KeysGiving(xs[1..], f, p)|
  {
    var t := KeysGiving(xs[1..], f, p);
    var h := f(xs[0]) == Some(p);
    forall j ensures j in KeysGiving(xs, f, p) <==> j in (if h then {0} else {}) + Shift(t) {
      assert j in Shift(t) <==> j - 1 in t;
      if 1 <= j < |xs| {
        assert xs[j] == xs[1..][j - 1];
      }
    }
    assert KeysGiving(xs, f, p) == (if h then {0} else {}) + Shift(t);
    HeadPlusShift(h, t, |xs| - 1);
  }

  /** The year columns of the World row mapped to points and filtered, in key
      order. */
  function Candidates(row: CsvRow, extractYear: string -> Option<int>, toNumber: string -> JsNum): (r: seq<Point>)
    ensures |r| <= |row.keys|
    ensures forall p :: p in r <==> exists i :: 0 <= i < |row.keys| && FromKey(row, row.keys[i], extractYear, toNumber) == Some(p)
    ensures forall p :: p in r ==> FirstYear <= p.year <= LastYear
  {
    Collect(row.keys, k => FromKey(row, k, extractYear, toNumber))
  }

  /** Each candidate occurs once for every year column that yields it. */
  lemma CandidatesCount(row: CsvRow, extractYear: string -> Option<int>, toNumber: string -> JsNum, p: Point)
    ensures multiset(Candidates(row, extractYear, toNumber))[p] ==
              |set i | 0 <= i < |row.keys| && FromKey(row, row.keys[i], extractYear, toNumber) == Some(p)|
  {
    var g := k => FromKey(row, k, extractYear, toNumber);
    assert KeysGiving(row.keys, g, p) == set i | 0 <= i < |row.keys| && FromKey(row, row.keys[i], extractYear, toNumber) == Some(p);
  }

  predicate YearLe(a: Point, b: Point) {
    a.year <= b.year
  }

  /** What the chart draws from: points in ascending year order, all within
      the plotted year range. */
  predicate Plottable(pts: seq<Point>) {
    SortedBy(pts, YearLe) && forall i :: 0 <= i < |pts| ==> FirstYear <= pts[i].year <= LastYear
  }

  /** The candidates ordered by year. */
  function Points(world: CsvRow, extractYear: string -> Option<int>, toNumber: string -> JsNum): (r: seq<Point>)
    ensures multiset(r) == multiset(Candidates(world, extractYear, toNumber))
    ensures Plottable(r)
  {
    var cands := Candidates(world, extractYear, toNumber);
    assert TotalPreorder(YearLe);
    SortSorted(cands, YearLe);
    var r := Sort(cands, YearLe);
    assert forall i :: 0 <= i < |r| ==> r[i] in multiset(cands);
    r
  }

  /** The checks before any point is computed: a loaded CSV, a country
      column, a World row. */
  function Locate(raw: Option<seq<CsvRow>>): (r: Result<CsvRow, ChartError>)
    ensures r == Err(CsvNotLoaded) <==> raw.None? || raw.value == []
    ensures r.Err? ==> r.error != TooFewPoints
  {
    if raw.None? || raw.value == [] then Err(CsvNotLoaded)
    else
      var rows := raw.value;
      var col := CountryColumn(rows[0].keys);
      if col.None? then Err(NoCountryColumn)
      else
        var world := WorldRow(rows, col.value);
        if world.None? then Err(NoWorldRow) else Ok(world.value)
  }

  /** The whole preparation. */
  function Prepare(raw: Option<seq<CsvRow>>, extractYear: string -> Option<int>, toNumber: string -> JsNum): (r: Result<seq<Point>, ChartError>)
    ensures r == Err(CsvNotLoaded) <==> raw.None? || raw.value == []
    ensures r.Ok? ==> |r.value| >= 2 && Plottable(r.value)
  {
    var world := Locate(raw);
    if world.Err? then Err(world.error)
    else
      var pts := Points(world.value, extractYear, toNumber);
      if |pts| < 2 then Err(TooFewPoints) else Ok(pts)
  }

  /** The column and row errors are reported exactly when the column or the
      World row is missing, in that order of checking. */
  lemma PrepareLookupErrors(rows: seq<CsvRow>, extractYear: string -> Option<int>, toNumber: string -> JsNum)
    requires rows != []
    ensures var r := Prepare(Some(rows), extractYear, toNumber);
      var col := CountryColumn(rows[0].keys);
      && (r == Err(NoCountryColumn) <==> col.None?)
      && (r == Err(NoWorldRow) <==> col.Some? && NoWorld(rows, col.value))
  {
    var col := CountryColumn(rows[0].keys);
    if col.Some? {
      var world := WorldRow(rows, col.value);
      if world.Some? {
        var pts := Points(world.value, extractYear, toNumber);
      }
    }
  }

  /** A successful result is the World row's plotted year columns, each once;
      too few of them is the only error left once the World row is found. */
  lemma PrepareResult(rows: seq<CsvRow>, extractYear: string -> Option<int>, toNumber: string -> JsNum)
    requires rows != []
    requires CountryColumn(rows[0].keys).Some?
    requires WorldRow(rows, CountryColumn(rows[0].keys).value).Some?
    ensures var world := WorldRow(rows, CountryColumn(rows[0].keys).value).value;
      var cands := Candidates(world, extractYear, toNumber);
      var r := Prepare(Some(rows), extractYear, toNumber);
      && (r == Err(TooFewPoints) <==> |cands| < 2)
      && (r.Ok? ==> multiset(r.value) == multiset(cands))
      && (r.Ok? || r == Err(TooFewPoints))
  {
    var world := WorldRow(rows, CountryColumn(rows[0].keys).value).value;
    assert Locate(Some(rows)) == Ok(world);
    var pts := Points(world, extractYear, toNumber);
    assert |pts| == |Candidates(world, extractYear, toNumber)| by {
      assert |pts| == |multiset(pts)|;
    }
  }
}
