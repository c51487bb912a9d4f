/** The observation index built from the flat rows of the observations file
    (src/hooks/useIhmeData.js): two nested maps, metric -> disease -> year ->
    iso3 -> value, plus the sorted disease and year lists and the defaults. */
module IhmeData {
  import opened Wrappers
  import opened JsValues
  import opened Sorting

  /** iso3 -> value for one (disease, year). */
  type Bucket = map<string, real>
  /** disease -> year -> iso3 -> value for one metric. */
  type Values = map<string, map<int, Bucket>>

  datatype Metric = Rate | Number

  /** One record of the observations file. `iso3` and `causeName` hold the field
      or "" when it is missing or falsy; `year`, `valRate` and `valNumber` hold
      the result of `Number()` on the field, so a `null` or "" field arrives as
      `Finite(0.0)` and an `undefined` one as `NonFinite`. `year` is None when
      `Number(r.year)` is not finite. */
  datatype Row = Row(iso3: string, year: Option<int>, causeName: string, valRate: JsNum, valNumber: JsNum)

  /** What the row loop accumulates: both metric maps and the two JavaScript
      `Set`s, kept as sequences in insertion order. */
  datatype Acc = Acc(rate: Values, number: Values, diseaseSet: seq<string>, yearSet: seq<int>)

  /** What the hook exposes after a load. */
  datatype Index = Index(rate: Values, number: Values, diseases: seq<string>, years: seq<int>)

  datatype Defaults = Defaults(defaultDisease: Option<string>, defaultYear: int)

  /** `safeNum`: a finite number is kept, anything else becomes `null`. */
  function SafeNum(x: JsNum): (r: Option<real>)
    ensures r.Some? <==> x.Finite?
    ensures x.Finite? ==> r.value == x.v
  {
    match x
    case Finite(v) => Some(v)
    case NonFinite => None
  }

  /** The stored value at (disease, year, iso3), None when any level is missing. */
  function Lookup(vals: Values, disease: string, year: int, iso3: string): Option<real> {
    if disease in vals && year in vals[disease] && iso3 in vals[disease][year]
    then Some(vals[disease][year][iso3])
    else None
  }

  /** `ensurePath`: makes sure the disease and year levels exist and hands back
      the bucket at that path; an existing bucket comes back as it was and no
      existing entry of the map changes. */
  function EnsurePath(vals: Values, disease: string, year: int): (r: (Values, Bucket))
    ensures disease in r.0 && year in r.0[disease] && r.0[disease][year] == r.1
    ensures disease in vals && year in vals[disease] ==> r.0 == vals
    ensures !(disease in vals && year in vals[disease]) ==> r.1 == map[]
    ensures r.0.Keys == vals.Keys + {disease}
    ensures r.0[disease].Keys == (if disease in vals then vals[disease].Keys else {}) + {year}
    ensures forall d, y, iso :: Lookup(r.0, d, y, iso) == Lookup(vals, d, y, iso)
  {
    if disease in vals && year in vals[disease] then (vals, vals[disease][year])
    else
      var byYear := if disease in vals then vals[disease] else map[];
      (vals[disease := byYear[year := map[]]], map[])
  }

  /** `ensurePath(...)[iso3] = value`: afterwards exactly that key reads `value`
      and every other key reads what it read before. */
  function StoreAt(vals: Values, disease: string, year: int, iso3: string, value: real): (r: Values)
    ensures forall d, y, iso ::
              Lookup(r, d, y, iso) ==
              (if d == disease && y == year && iso == iso3 then Some(value) else Lookup(vals, d, y, iso))
    ensures r.Keys == vals.Keys + {disease}
    ensures forall d :: d in vals && d != disease ==> r[d] == vals[d]
    ensures r[disease].Keys == (if disease in vals then vals[disease].Keys else {}) + {year}
  {
    var (path, bucket) := EnsurePath(vals, disease, year);
    path[disease := path[disease][year := bucket[iso3 := value]]]
  }

  /** A row passes the three guards of the loop: non-empty trimmed iso3, finite
      year, non-empty trimmed cause name. */
  predicate Accepted(r: Row) {
    Trim(r.iso3) != [] && r.year.Some? && Trim(r.causeName) != []
  }

  function MetricValue(r: Row, m: Metric): Option<real> {
    match m
    case Rate => SafeNum(r.valRate)
    case Number => SafeNum(r.valNumber)
  }

  function ValuesOf(a: Acc, m: Metric): Values {
    match m
    case Rate => a.rate
    case Number => a.number
  }

  /** `Set.prototype.add` on a set kept in insertion order. */
  function AddToSet<T(==,!new)>(s: seq<T>, x: T): (r: seq<T>)
    ensures forall y :: y in r <==> y in s || y == x
    ensures NoDuplicates(s) ==> NoDuplicates(r)
  {
    if x in s then s else s + [x]
  }

  /** `ensurePath(...)[iso3] = value` when the value is present, nothing otherwise. */
  function StoreIf(vals: Values, disease: string, year: int, iso3: string, value: Option<real>): Values {
    if value.Some? then StoreAt(vals, disease, year, iso3, value.value) else vals
  }

  /** The body of the loop for a row that passed the guards, on its trimmed
      fields and converted values. */
  function Record(a: Acc, disease: string, year: int, iso3: string, rate: Option<real>, number: Option<real>): Acc {
    Acc(
      StoreIf(a.rate, disease, year, iso3, rate),
      StoreIf(a.number, disease, year, iso3, number),
      AddToSet(a.diseaseSet, disease),
      AddToSet(a.yearSet, year))
  }

  /** One iteration of the row loop. */
  function Step(a: Acc, r: Row): Acc {
    var iso3 := Trim(r.iso3);
    if iso3 == [] then a
    else if r.year.None? then a
    else
      var disease := Trim(r.causeName);
      if disease == [] then a
      else Record(a, disease, r.year.value, iso3, SafeNum(r.valRate), SafeNum(r.valNumber))
  }

  /** The whole row loop, as a left fold over the rows in input order. */
  function Ingest(rows: seq<Row>): Acc {
    if rows == [] then Acc(map[], map[], [], [])
    else Step(Ingest(rows[..|rows| - 1]), rows[|rows| - 1])
  }

  /** The loop followed by `Array.from(set).sort()` on both sets. */
  function Build(rows: seq<Row>): Index {
    var a := Ingest(rows);
    Index(a.rate, a.number, Sort(a.diseaseSet, StrLe), Sort(a.yearSet, IntLe))
  }

  function IndexValues(ix: Index, m: Metric): Values {
    match m
    case Rate => ix.rate
    case Number => ix.number
  }

  // ----- Reference definitions --------------------------------------------

  /** The value the LAST accepted row with this key and a finite value for `m`
      supplies, or None when no row does. */
  function LastValue(rows: seq<Row>, m: Metric, disease: string, year: int, iso3: string): Option<real> {
    if rows == [] then None
    else
      var r := rows[|rows| - 1];
      if Accepted(r) && Trim(r.causeName) == disease && r.year.value == year
         && Trim(r.iso3) == iso3 && MetricValue(r, m).Some?
      then MetricValue(r, m)
      else LastValue(rows[..|rows| - 1], m, disease, year, iso3)
  }

  ghost function AcceptedDiseases(rows: seq<Row>): set<string> {
    set i | 0 <= i < |rows| && Accepted(rows[i]) :: Trim(rows[i].causeName)
  }

  ghost function AcceptedYears(rows: seq<Row>): set<int> {
    set i | 0 <= i < |rows| && Accepted(rows[i]) :: rows[i].year.value
  }

  // ----- Properties of the row loop ---------------------------------------

  /** A row failing any guard leaves every map and set exactly as it was. */
  lemma RejectedRowIsSkipped(a: Acc, r: Row)
    requires !Accepted(r)
    ensures Step(a, r) == a
  {
  }

  /** An accepted row always records its disease and year, whether or not it
      carries any metric value; each metric map changes only at the row's own
      key and only when that metric's value is finite. */
  lemma AcceptedRowEffect(a: Acc, r: Row, m: Metric, d: string, y: int, iso: string)
    requires Accepted(r)
    ensures Trim(r.causeName) in Step(a, r).diseaseSet && r.year.value in Step(a, r).yearSet
    ensures MetricValue(r, m).None? ==> ValuesOf(Step(a, r), m) == ValuesOf(a, m)
    ensures Lookup(ValuesOf(Step(a, r), m), d, y, iso) ==
      (if MetricValue(r, m).Some? && d == Trim(r.causeName) && y == r.year.value && iso == Trim(r.iso3)
       then MetricValue(r, m) else Lookup(ValuesOf(a, m), d, y, iso))
  {
    RecordEffect(a, Trim(r.causeName), r.year.value, Trim(r.iso3), SafeNum(r.valRate), SafeNum(r.valNumber), m, d, y, iso);
  }

  lemma RecordEffect(a: Acc, disease: string, year: int, iso3: string, rate: Option<real>, number: Option<real>,
                     m: Metric, d: string, y: int, iso: string)
    ensures var b := Record(a, disease, year, iso3, rate, number);
      var v := match m case Rate => rate case Number => number;
      && disease in b.diseaseSet && year in b.yearSet
      && (v.None? ==> ValuesOf(b, m) == ValuesOf(a, m))
      && Lookup(ValuesOf(b, m), d, y, iso) ==
         (if v.Some? && d == disease && y == year && iso == iso3 then v else Lookup(ValuesOf(a, m), d, y, iso))
  {
  }

  /** Last write wins: after the loop, each (metric, disease, year, iso3) holds
      the value of the last accepted row for that key with a finite value for
      that metric, and is absent when there is none. The two metrics are stored
      independently. */
  lemma {:induction false} IngestLookup(rows: seq<Row>, m: Metric, d: string, y: int, iso: string)
    ensures Lookup(ValuesOf(Ingest(rows), m), d, y, iso) == LastValue(rows, m, d, y, iso)
  {
    if rows != [] {
      var r := rows[|rows| - 1];
      IngestLookup(rows[..|rows| - 1], m, d, y, iso);
      if Accepted(r) {
        AcceptedRowEffect(Ingest(rows[..|rows| - 1]), r, m, d, y, iso);
      }
    }
  }

  /** Every disease and year that keys `vals` is in the given lists. */
  ghost predicate KeysListed(vals: Values, diseases: seq<string>, years: seq<int>) {
    forall d :: d in vals ==> d in diseases && forall y :: y in vals[d] ==> y in years
  }

  /** What the loop keeps between iterations: the sets are duplicate-free, hold
      exactly the accepted diseases and years, and every key of either map is in
      them. */
  ghost predicate AccInvariant(a: Acc, rows: seq<Row>) {
    && NoDuplicates(a.diseaseSet) && NoDuplicates(a.yearSet)
    && (forall d :: d in a.diseaseSet <==> d in AcceptedDiseases(rows))
    && (forall y :: y in a.yearSet <==> y in AcceptedYears(rows))
    && KeysListed(a.rate, a.diseaseSet, a.yearSet)
    && KeysListed(a.number, a.diseaseSet, a.yearSet)
  }

  lemma AcceptedDiseasesSnoc(pre: seq<Row>, r: Row)
    ensures AcceptedDiseases(pre + [r]) == AcceptedDiseases(pre) + (if Accepted(r) then {Trim(r.causeName)} else {})
  {
    AcceptedDiseasesSnocShrinks(pre, r);
    AcceptedDiseasesSnocGrows(pre, r);
  }

  lemma AcceptedDiseasesSnocShrinks(pre: seq<Row>, r: Row)
    ensures AcceptedDiseases(pre + [r]) <= AcceptedDiseases(pre) + (if Accepted(r) then {Trim(r.causeName)} else {})
  {
    var rows := pre + [r];
    forall i | 0 <= i < |rows| && Accepted(rows[i])
      ensures Trim(rows[i].causeName) in AcceptedDiseases(pre) + (if Accepted(r) then {Trim(r.causeName)} else {})
    {
      if i < |pre| { assert rows[i] == pre[i]; } else { assert rows[i] == r; }
    }
  }

  lemma AcceptedDiseasesSnocGrows(pre: seq<Row>, r: Row)
    ensures AcceptedDiseases(pre) + (if Accepted(r) then {Trim(r.causeName)} else {}) <= AcceptedDiseases(pre + [r])
  {
    var rows := pre + [r];
    forall d | d in AcceptedDiseases(pre) ensures d in AcceptedDiseases(rows) {
      var i :| 0 <= i < |pre| && Accepted(pre[i]) && d == Trim(pre[i].causeName);
      assert rows[i] == pre[i];
    }
    if Accepted(r) {
      assert rows[|pre|] == r;
    }
  }

  lemma AcceptedYearsSnoc(pre: seq<Row>, r: Row)
    ensures AcceptedYears(pre + [r]) == AcceptedYears(pre) + (if Accepted(r) then {r.year.value} else {})
  {
    var rows := pre + [r];
    forall y ensures y in AcceptedYears(rows) <==> y in AcceptedYears(pre) || (Accepted(r) && y == r.year.value) {
      if y in AcceptedYears(rows) {
        var i :| 0 <= i < |rows| && Accepted(rows[i]) && y == rows[i].year.value;
        if i < |pre| { assert rows[i] == pre[i]; }
      }
      if y in AcceptedYears(pre) {
        var i :| 0 <= i < |pre| && Accepted(pre[i]) && y == pre[i].year.value;
        assert rows[i] == pre[i];
      }
      if Accepted(r) && y == r.year.value {
        assert rows[|pre|] == r;
      }
    }
  }

  lemma StoreKeepsKeysListed(vals: Values, ds: seq<string>, ys: seq<int>, d: string, y: int, iso: string, v: real)
    requires KeysListed(vals, ds, ys)
    requires d in ds && y in ys
    ensures KeysListed(StoreAt(vals, d, y, iso, v), ds, ys)
  {
  }

  lemma StepInvariant(a: Acc, pre: seq<Row>, r: Row)
    requires AccInvariant(a, pre)
    ensures AccInvariant(Step(a, r), pre + [r])
  {
    AcceptedDiseasesSnoc(pre, r);
    AcceptedYearsSnoc(pre, r);
    if Accepted(r) {
      var d := Trim(r.causeName);
      var y := r.year.value;
      var iso := Trim(r.iso3);
      var b := Step(a, r);
      assert KeysListed(a.rate, b.diseaseSet, b.yearSet);
      assert KeysListed(a.number, b.diseaseSet, b.yearSet);
      if SafeNum(r.valRate).Some? {
        StoreKeepsKeysListed(a.rate, b.diseaseSet, b.yearSet, d, y, iso, SafeNum(r.valRate).value);
      }
      if SafeNum(r.valNumber).Some? {
        StoreKeepsKeysListed(a.number, b.diseaseSet, b.yearSet, d, y, iso, SafeNum(r.valNumber).value);
      }
    }
  }

  /** StepInvariant for the last row of `rows`. */
  lemma StepInvariantAt(rows: seq<Row>, a: Acc)
    requires rows != []
    requires AccInvariant(a, rows[..|rows| - 1])
    ensures AccInvariant(Step(a, rows[|rows| - 1]), rows)
  {
    var pre, r := rows[..|rows| - 1], rows[|rows| - 1];
    assert rows == pre + [r];
    StepInvariant(a, pre, r);
  }

  lemma NothingAccepted(rows: seq<Row>)
    requires rows == []
    ensures AccInvariant(Ingest(rows), rows)
  {
    assert AcceptedDiseases(rows) == {} && AcceptedYears(rows) == {};
  }

  lemma {:induction false} IngestInvariant(rows: seq<Row>)
    ensures AccInvariant(Ingest(rows), rows)
  {
    if rows == [] {
      NothingAccepted(rows);
    } else {
      IngestInvariant(rows[..|rows| - 1]);
      StepInvariantAt(rows, Ingest(rows[..|rows| - 1]));
    }
  }

  /** The disease list is duplicate-free, sorted by string order and holds
      exactly the accepted diseases. */
  lemma BuildDiseases(rows: seq<Row>)
    ensures SortedBy(Build(rows).diseases, StrLe)
    ensures NoDuplicates(Build(rows).diseases)
    ensures forall d :: d in Build(rows).diseases <==> d in AcceptedDiseases(rows)
  {
    var a := Ingest(rows);
    IngestInvariant(rows);
    StrLeTotalPreorder();
    SortSorted(a.diseaseSet, StrLe);
    SortKeepsNoDuplicates(a.diseaseSet, StrLe);
    assert forall d :: d in Sort(a.diseaseSet, StrLe) <==> d in multiset(a.diseaseSet);
  }

  /** The year list is strictly ascending and holds exactly the accepted years. */
  lemma BuildYears(rows: seq<Row>)
    ensures forall i, j :: 0 <= i < j < |Build(rows).years| ==> Build(rows).years[i] < Build(rows).years[j]
    ensures forall y :: y in Build(rows).years <==> y in AcceptedYears(rows)
  {
    var a := Ingest(rows);
    var ys := Build(rows).years;
    IngestInvariant(rows);
    NumericOrdersArePreorders();
    SortSorted(a.yearSet, IntLe);
    SortKeepsNoDuplicates(a.yearSet, IntLe);
    assert forall y :: y in ys <==> y in multiset(a.yearSet);
    forall i, j | 0 <= i < j < |ys| ensures ys[i] < ys[j] {
      assert IntLe(ys[i], ys[j]) && ys[i] != ys[j];
    }
  }

  /** Every disease and year that keys either metric map is in both lists. */
  lemma BuildKeysListed(rows: seq<Row>, m: Metric)
    ensures KeysListed(IndexValues(Build(rows), m), Build(rows).diseases, Build(rows).years)
  {
    var a := Ingest(rows);
    IngestInvariant(rows);
    var ix := Build(rows);
    assert forall d :: d in ix.diseases <==> d in multiset(a.diseaseSet);
    assert forall y :: y in ix.years <==> y in multiset(a.yearSet);
  }

  // ----- Defaults ----------------------------------------------------------

  /** The `defaults` memo: the first disease (`null` for an empty list or an
      empty first name); year 2000 when listed, else the first year, else 2000. */
  function DeriveDefaults(diseases: seq<string>, years: seq<int>): (r: Defaults)
    ensures r.defaultDisease.Some? <==> |diseases| > 0 && diseases[0] != []
    ensures r.defaultDisease.Some? ==> r.defaultDisease.value == diseases[0]
    ensures 2000 in years ==> r.defaultYear == 2000
    ensures 2000 !in years && |years| > 0 ==> r.defaultYear == years[0]
    ensures years == [] ==> r.defaultYear == 2000
  {
    Defaults(
      if |diseases| > 0 && diseases[0] != [] then Some(diseases[0]) else None,
      if 2000 in years then 2000 else if |years| > 0 then years[0] else 2000)
  }

  /** On a built index the default disease is the least accepted disease in
      string order, and there is none exactly when no row was accepted. */
  lemma DefaultDiseaseOfBuild(rows: seq<Row>)
    ensures var df := DeriveDefaults(Build(rows).diseases, Build(rows).years).defaultDisease;
      && (df.None? <==> AcceptedDiseases(rows) == {})
      && (df.Some? ==> df.value in AcceptedDiseases(rows))
      && (df.Some? ==> forall d :: d in AcceptedDiseases(rows) ==> StrLe(df.value, d))
  {
    var ds := Build(rows).diseases;
    BuildDiseases(rows);
    if ds != [] {
      assert ds[0] in AcceptedDiseases(rows);
      assert Trim(ds[0]) != [] by {
        var i :| 0 <= i < |rows| && Accepted(rows[i]) && ds[0] == Trim(rows[i].causeName);
      }
      forall e | e in AcceptedDiseases(rows) ensures StrLe(ds[0], e) {
        var j :| 0 <= j < |ds| && ds[j] == e;
        if j > 0 {
          assert StrLe(ds[0], ds[j]);
        } else {
          StrLeTotal(e, e);
        }
      }
    } else {
      assert forall d :: d !in AcceptedDiseases(rows);
    }
  }

  /** On a built index the default year is 2000 when some accepted row has it,
      else the earliest accepted year, else 2000. */
  lemma DefaultYearOfBuild(rows: seq<Row>)
    ensures var dy := DeriveDefaults(Build(rows).diseases, Build(rows).years).defaultYear;
      && (2000 in AcceptedYears(rows) ==> dy == 2000)
      && (AcceptedYears(rows) == {} ==> dy == 2000)
      && (2000 !in AcceptedYears(rows) && AcceptedYears(rows) != {} ==> dy in AcceptedYears(rows))
      && (2000 !in AcceptedYears(rows) ==> forall y :: y in AcceptedYears(rows) ==> dy <= y)
  {
    var ys := Build(rows).years;
    BuildYears(rows);
    if ys != [] {
      assert ys[0] in AcceptedYears(rows);
      forall e | e in AcceptedYears(rows) ensures ys[0] <= e {
        var j :| 0 <= j < |ys| && ys[j] == e;
      }
    } else {
      assert forall y :: y !in AcceptedYears(rows);
    }
  }
}
