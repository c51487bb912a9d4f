# Disease-burden globe: a Dafny model of its data pipeline

This project models the logic behind a web visualisation of disease burden
(IHME data) in Dafny and proves properties of that model. The visualisation
has a choropleth globe, a country drill-down panel, a streamgraph and a
population-growth chart. The model covers:

- **Observation index** (`IhmeData`): the row loop that turns flat
  `{iso3, year, cause_name, val_rate, val_number}` records into two nested maps
  (disease → year → iso3 → value, one map per metric). It also builds the
  sorted disease and year lists and derives the default disease and year.
- **Threshold engine** (`Thresholds`): candidate selection, which keeps only
  positive values, taken from one year or pooled over all years. Then the floor
  of ten samples and nearest-rank quantiles at 20/40/60/80 %, in log space for
  the count metric.
- **Globe colouring** (`MapboxGlobe`): the fill expression as a total
  classifier into seven classes, the per-year bucket lookup, the
  clear-then-set feature-state update, and the country-metadata helper.
- **Tooltip** (`Tooltip`): the visibility guard and the absent / zero /
  numeric value text.
- **Detail panel** (`DetailPanel`): the per-year series, the "enough data"
  guard, the selected-year marker and the render guard.
- **Sparkline** (`Sparkline`): the path builder as a sequence of Move/Line
  commands split into runs.
- **Shared store** (`VizStore`): the disease/lock state, its three
  transitions and listener notification.
- **Globe page** (`GlobePage`): the query-disease normalisation, the
  selected-disease precedence chain, the disabled flag, the ready flag, the
  year initialisation and the play tick.
- **Layout** (`AppLayout`): route ranks, slide direction and the
  once-per-route ready guard.
- **Streamgraph preparation** (`StreamGraph`): filter, map, group by disease,
  per-series year sort, peak and descending-peak order.
- **Population-growth preparation** (`PopulationGrowth`): column and row
  detection, year/value extraction, range filter, sort and the minimum count,
  with every error path.

Four support modules hold what the rest shares:

- `Wrappers`: `Option` and `Result`.
- `JsValues`: JavaScript-like numbers, `trim` over the ECMAScript white-space and line-terminator code points, ASCII lower-casing and substring search.
- `Sorting`: a stable insertion sort with sortedness and permutation lemmas. It stands in for `Array.prototype.sort` with a comparator.
- `Counting`: index sets and the shift that relates the indices of a sequence to those of its tail, used to count how often a filter-map yields a value.

Floating-point functions and environment calls are function parameters of the
model:

- `Math.log1p` and `Math.expm1`;
- `Number(x)` of a cell;
- `toFixed(2)`;
- the chart scales;
- the year-in-key regular expression.

Where a property depends on such a function, the lemma states what it
assumes: for example, that `log1p` is strictly increasing and that `expm1`
undoes it.

## Model

| member | source | states |
|---|---|---|
| IhmeData.SafeNum | src/hooks/useIhmeData.js:9-12 | a number is kept exactly when it is finite, and then unchanged |
| IhmeData.EnsurePath | src/hooks/useIhmeData.js:14-18 | the disease and year levels exist afterwards; an existing bucket is returned as it was; no stored value anywhere changes |
| IhmeData.StoreAt | src/hooks/useIhmeData.js:68-69 | writing one (disease, year, iso3) slot changes that slot only; every other lookup answers as before |
| IhmeData.AddToSet | src/hooks/useIhmeData.js:63-64 | insertion-ordered set add: the members are the old ones plus the new one, and no duplicates appear |
| IhmeData.RejectedRowIsSkipped | src/hooks/useIhmeData.js:53-60 | a row with blank iso3, non-finite year or blank cause contributes nothing to either map or either set |
| IhmeData.AcceptedRowEffect | src/hooks/useIhmeData.js:62-76 | an accepted row always adds its disease and year to the sets; each metric is written only when its own value is finite, and a metric without a value leaves its map untouched |
| IhmeData.IngestLookup | src/hooks/useIhmeData.js:52-77 | every lookup in the finished maps equals the value of the last accepted row for that key with a finite value of that metric (last write wins) |
| IhmeData.StepInvariant | src/hooks/useIhmeData.js:52-77 | one loop iteration keeps the sets duplicate-free, equal to the accepted diseases/years seen so far, and covering every map key |
| IhmeData.IngestInvariant | src/hooks/useIhmeData.js:52-77 | after the whole loop the sets hold exactly the accepted diseases and years, without duplicates, and list every key of both maps |
| IhmeData.BuildDiseases | src/hooks/useIhmeData.js:63-79 | the disease list is sorted in string order, duplicate-free and holds exactly the diseases of accepted rows |
| IhmeData.BuildYears | src/hooks/useIhmeData.js:64-80 | the year list is strictly ascending and holds exactly the years of accepted rows |
| IhmeData.BuildKeysListed | src/hooks/useIhmeData.js:62-80 | every disease and year key of either metric map appears in the published lists |
| IhmeData.DeriveDefaults | src/hooks/useIhmeData.js:105-109 | default disease is the first list entry unless the list is empty or that entry is empty; default year is 2000 when listed, else the first year, else 2000 |
| IhmeData.DefaultDiseaseOfBuild | src/hooks/useIhmeData.js:79-106 | on loaded data the default disease is absent exactly when no row was accepted, and otherwise is the string-least accepted disease |
| IhmeData.DefaultYearOfBuild | src/hooks/useIhmeData.js:80-107 | on loaded data the default year is 2000 when 2000 occurs or nothing was accepted, and otherwise the smallest accepted year |
| Thresholds.Positives | src/utils/thresholds.js:18-24 | the candidate filter keeps each value greater than zero with its multiplicity and drops everything else |
| Thresholds.PooledValues | src/utils/thresholds.js:13-20 | the pooled sequence holds exactly the values present in some year of the disease, each as often as there are (year, country) slots holding it |
| Thresholds.BucketValues | src/utils/thresholds.js:24 | the values of a bucket, one entry per country, each value repeated as often as countries hold it |
| Thresholds.CandidatesArePositiveValues | src/utils/thresholds.js:13-25 | a value is a candidate exactly when it is positive and held in the requested year (per-year) or in any year (global), each occurring once per holding country (per-year) or per holding (year, country) slot (global) |
| Thresholds.ComputeThresholds | src/utils/thresholds.js:1-43 | missing disease, or a missing year in per-year mode, gives null; a result exists exactly when there are at least ten candidates; the rate result is the ordered nearest-rank quartet and the count result is expm1 of the nearest-rank quartet of the log1p values |
| Thresholds.RankIndexBounds | src/utils/thresholds.js:30-31 | the rank indices floor((n-1)k/5) lie inside the sample and do not decrease with k |
| Thresholds.QuantilesOrdered | src/utils/thresholds.js:29-33 | quantiles taken from a sorted sample satisfy t1 <= t2 <= t3 <= t4 |
| Thresholds.QuantilesAreRanks | src/utils/thresholds.js:29-42 | the k-th threshold of the sorted candidates is a rank-floor((n-1)k/5) order statistic of the candidates themselves, so each threshold is an actual candidate and no interpolation happens |
| Thresholds.RankIsUnique | src/utils/thresholds.js:31 | a given rank has only one order statistic, so the reference definition pins the thresholds down |
| Thresholds.SampleFloor | src/utils/thresholds.js:27 | fewer than ten candidates gives null and ten or more always gives a quartet |
| Thresholds.GlobalIgnoresYear | src/utils/thresholds.js:13-20 | in global mode the result does not depend on the year argument |
| Thresholds.SortCommutesWithMonotone | src/utils/thresholds.js:36-41 | sorting then mapping by a strictly increasing function equals mapping then sorting |
| Thresholds.NumberMatchesRate | src/utils/thresholds.js:35-42 | with a strictly increasing log1p and an expm1 that undoes it, the count branch returns exactly the rate branch's quartet |
| MapboxGlobe.Classify | src/hooks/useMapboxGlobe.js:14-42 | absent is NO_DATA and only absent is; exactly zero is ZERO; without thresholds every other value takes the fallback colour; with thresholds a value gets the first bin whose upper threshold it is below, and bin 5 when it reaches t4 |
| MapboxGlobe.BinCountsReachedThresholds | src/hooks/useMapboxGlobe.js:32-40 | for ordered thresholds the bin number of a non-zero value is one plus the number of thresholds it has reached |
| MapboxGlobe.ThresholdValueStartsItsBin | src/hooks/useMapboxGlobe.js:32-40 | a value equal to threshold i falls in bin i+1 or above, never in the bin below it |
| MapboxGlobe.ClassifyMonotone | src/hooks/useMapboxGlobe.js:32-40 | for ordered thresholds a larger non-zero value never gets a lower bin |
| MapboxGlobe.PerYear | src/hooks/useMapboxGlobe.js:355-356 | the bucket holds exactly the countries with a stored value for that disease and year, with those values, and is empty when either key is missing |
| MapboxGlobe.UpdateFeatureStates | src/hooks/useMapboxGlobe.js:359-374 | after the two loops every country of the bucket shows its value, every previously set country outside it is cleared, the tracked set is exactly the bucket's keys and every other feature is untouched |
| MapboxGlobe.NoStaleValues | src/hooks/useMapboxGlobe.js:303-320 | if the tracked set covered every shown value before the update, it still does afterwards and every feature shows exactly the bucket's value or nothing |
| MapboxGlobe.GlobeShowsIndex | src/hooks/useMapboxGlobe.js:354-374 | after an update each country's colour class equals the class of its value in the index; NO_DATA exactly when the index has no value |
| MapboxGlobe.SelectedThresholds | src/hooks/useMapboxGlobe.js:97-104 | no selected disease (or an empty one) gives no thresholds; for a non-empty one there are thresholds exactly when the disease (and, per year, the year) is indexed with at least ten candidates, and they are the nearest-rank quantiles of the candidates (of their log1p images for counts, mapped back by expm1) |
| MapboxGlobe.FeatureToCountryMeta | src/hooks/useMapboxGlobe.js:386-390 | name defaults to "Unknown" when missing or empty; iso3 is the trimmed property or "" when missing, with no surrounding white space |
| Tooltip.ValueText | src/components/Tooltip.jsx:11-13 | absent reads "No data", exactly zero reads "0 (no burden)" ahead of formatting, any other value its two-decimal rendering |
| Tooltip.Render | src/components/Tooltip.jsx:5-33 | hidden exactly when not visible or without a feature; otherwise shows the feature's name and iso3 and the value text |
| Tooltip.HoverAfterUpdate | src/hooks/useMapboxGlobe.js:218-224 | after a feature-state update the hover text reads "No data" exactly for countries outside the current bucket, and a stored zero reads "0 (no burden)" |
| DetailPanel.GetSeries | src/components/DetailPanel.jsx:6-13 | empty for an unknown disease; otherwise one entry per year in the given order, carrying that year's stored value or null, with a stored zero kept as zero |
| DetailPanel.PanelSeries | src/components/DetailPanel.jsx:75-78 | empty when the country has no iso3, otherwise the country's series |
| DetailPanel.EnoughDataIffTwoValues | src/components/DetailPanel.jsx:20-25 | the sparkline is drawn, rather than the not-enough-data message, exactly when two different entries of the series carry a value |
| DetailPanel.FindYear | src/components/DetailPanel.jsx:37 | finds the first entry of the selected year, or reports that none has it |
| DetailPanel.MarkerIffSelectedValue | src/components/DetailPanel.jsx:20-45 | in a series with one entry per year `selHas` holds exactly when the selected year has a non-null value, and the circle is drawn exactly when, besides, two different entries carry a value (otherwise the not-enough-data message replaces the chart) |
| DetailPanel.PanelShowsLastRows | src/components/DetailPanel.jsx:75-80 | a rendered panel given the selected metric's index of loaded data shows one entry per listed year whose value is the last accepted row's value for that country |
| DetailPanel.MarkerOnLoadedIndex | src/components/DetailPanel.jsx:20-45 | on loaded data `selHas` holds exactly when the selected year is listed and the index holds a value for it; the circle is drawn exactly when, besides, the index holds values for two listed years |
| Sparkline.BuildSparkPath | src/utils/sparkline.js:1-36 | the loop produces the reference command sequence, and nothing for an empty series |
| Sparkline.CommandPerPoint | src/utils/sparkline.js:5-33 | exactly one command per drawable point |
| Sparkline.MovePerRun | src/utils/sparkline.js:5-33 | the number of Move commands equals the number of maximal runs of drawable points |
| Sparkline.EmptyIffNothingDrawable | src/utils/sparkline.js:8-25 | the path is empty exactly when no point has a finite value, finite year and finite scaled coordinates |
| Sparkline.FirstIsMove | src/utils/sparkline.js:27-29 | a non-empty path starts with a Move |
| Sparkline.NextCommand | src/utils/sparkline.js:27-32 | a drawable point emits a Move exactly when the point before it was not drawable, and a Line otherwise |
| VizStore.Init | src/state/vizStore.js:3-8 | no disease, unlocked, no listeners, nobody notified |
| VizStore.Emit | src/state/vizStore.js:9 | every registered listener is called once more; nothing else changes |
| VizStore.SetDiseaseFromStreamgraph | src/state/vizStore.js:11-15 | disease becomes the argument and the lock is set; each listener is notified once |
| VizStore.SetDiseaseManual | src/state/vizStore.js:17-20 | disease becomes the argument and the lock is unchanged; each listener is notified once |
| VizStore.UnlockDiseaseSelector | src/state/vizStore.js:22-25 | the lock is cleared and the disease is unchanged; each listener is notified once |
| VizStore.Dispatch | src/state/vizStore.js:9-25 | a transition changes the state as its action says and notifies exactly the registered listeners, once each |
| VizStore.Subscribe | src/state/vizStore.js:29-30 | registers the listener and changes nothing else |
| VizStore.Unsubscribe | src/state/vizStore.js:31 | removes the listener and changes nothing else |
| VizStore.UnsubscribedIsSilent | src/state/vizStore.js:9-31 | a listener that is not registered is never called, whatever transitions happen |
| VizStore.CallsPerTransition | src/state/vizStore.js:9-25 | a registered listener is called exactly once per transition |
| VizStore.LockedIffStreamgraphSinceUnlock | src/state/vizStore.js:11-25 | the lock is set exactly when a streamgraph selection happened with no unlock after it, or the lock was already set and no unlock happened |
| VizStore.DiseaseIsLastWritten | src/state/vizStore.js:11-20 | the disease is the one written by the last disease-setting transition, or the initial one if there was none |
| GlobePage.QueryDisease | src/pages/GlobePage.jsx:33 | no query disease exactly when the parameter is missing or blank; otherwise its trimmed, non-empty text |
| GlobePage.SelectedDisease | src/pages/GlobePage.jsx:57-65 | the first present of query disease, store disease, default disease and first listed disease |
| GlobePage.SelectedDiseaseSource | src/pages/GlobePage.jsx:57-65 | no disease is selected exactly when all four sources are empty; a selected disease always comes from one of them |
| GlobePage.SelectedDiseaseOnLoadedData | src/pages/GlobePage.jsx:57-65 | without query and store disease, the selection on loaded data is the first listed disease |
| GlobePage.DisabledAfterActions | src/pages/GlobePage.jsx:167 | from the store's initial state, the selector is disabled exactly when a query disease is present or a streamgraph selection happened with no unlock after it |
| GlobePage.ReadyOnLoadedData | src/pages/GlobePage.jsx:72-75 | once loaded without error, with no store disease and no query disease, the page is ready exactly when some row was accepted |
| GlobePage.AcceptedListsTogether | src/hooks/useIhmeData.js:62-64 | the disease set and the year set are empty together |
| GlobePage.InitYear | src/pages/GlobePage.jsx:67-70 | with a default disease a zero year takes the default year and any other year is kept; without one the year is kept |
| GlobePage.FirstLoadKeepsInitialYear | src/pages/GlobePage.jsx:35-70 | on first load the initial year 2000 is kept whatever the data; when 2000 is not among the accepted years but others are, the page shows an unlisted year that differs from the default year |
| GlobePage.Tick | src/pages/GlobePage.jsx:113-116 | at or past the last year the tick wraps to the first, otherwise it advances by one; 1970 and 2024 stand in for an empty list |
| GlobePage.PlayCycles | src/pages/GlobePage.jsx:113-116 | starting from the first year, exactly last-first+1 ticks return to it and no smaller positive number does |
| GlobePage.TickRangeOnLoadedData | src/pages/GlobePage.jsx:114-116 | on loaded data every listed year lies between the tick's first and last year |
| AppLayout.RouteRank | src/layout/AppLayout.jsx:10-15 | rank 2 exactly for "/dashboard" paths, 1 exactly for "/globe" paths, 0 for everything else |
| AppLayout.PrefixesExclusive | src/layout/AppLayout.jsx:10-15 | the three route prefixes exclude each other, so the order of the tests does not matter |
| AppLayout.Mount | src/layout/AppLayout.jsx:33-44 | the remembered rank is the current route's, the direction is forward, the curtain is closed, the fallback timer is not armed and nothing is ready or scheduled |
| AppLayout.MountRunsRouteEffect | src/layout/AppLayout.jsx:33-67 | the route effect also runs on mount, so the first committed state has the curtain open, the fallback armed, the direction forward, nothing ready and the starting route's rank |
| AppLayout.Direction | src/layout/AppLayout.jsx:37-39 | a higher rank gives 1, a lower rank gives -1, an equal rank keeps the previous direction |
| AppLayout.Navigate | src/layout/AppLayout.jsx:56-67 | a route change updates the direction, clears readiness, opens the curtain, arms the fallback and commits the new rank |
| AppLayout.MarkReady | src/layout/AppLayout.jsx:47-53 | a no-op once ready; otherwise sets ready and schedules one curtain close; the route, direction, curtain and fallback timer are untouched |
| AppLayout.CloseCurtain | src/layout/AppLayout.jsx:52 | the curtain is closed and nothing else changes |
| AppLayout.MarkReadyOncePerRoute | src/layout/AppLayout.jsx:47-67 | any positive number of ready calls after a route change schedules exactly one close |
| AppLayout.MarkReadyStable | src/layout/AppLayout.jsx:47-48 | repeated ready calls while ready change nothing |
| AppLayout.NavigateKeepsDirection | src/layout/AppLayout.jsx:37-39 | through any sequence of route changes the direction stays 1 or -1 |
| AppLayout.DirectionOfLastRankChange | src/layout/AppLayout.jsx:33-67 | after a sequence of route changes the committed rank is the last route's, and the direction points from the previous rank to it when they differ |
| StreamGraph.Records | src/components/StreamGraph.jsx:16-26 | the records are exactly the mapped rows located "Global" with metric "Number", each record occurring once for every kept row that maps to it |
| StreamGraph.OneRecordPerKeptRow | src/components/StreamGraph.jsx:16-26 | there is one record per kept row |
| StreamGraph.GroupPartitions | src/components/StreamGraph.jsx:31-37 | grouping gives one series per disease, each holding exactly that disease's records in input order, and together every record once |
| StreamGraph.SortValues | src/components/StreamGraph.jsx:35 | each series keeps its disease and is a permutation of its values |
| StreamGraph.SortValuesOrdered | src/components/StreamGraph.jsx:35 | each series' values are in ascending year order |
| StreamGraph.MaxOf | src/components/StreamGraph.jsx:43 | the maximum ignores missing values, is undefined exactly when all are missing, and otherwise is an upper bound held by some record |
| StreamGraph.WithPeaks | src/components/StreamGraph.jsx:42-44 | each series gets its maximum as peak, or 0 when undefined, and is otherwise unchanged |
| StreamGraph.ReorderDistinct | src/components/StreamGraph.jsx:45 | reordering the series keeps the diseases distinct |
| StreamGraph.PrepareProperties | src/components/StreamGraph.jsx:16-45 | the prepared series are in non-increasing peak order, one per disease, each year-sorted with its own records and correct peak, covering every record exactly once |
| PopulationGrowth.FindFirst | src/components/PopulationGrowth.jsx:46-61 | finds the first element that satisfies the test, or reports that none does |
| PopulationGrowth.CountryColumn | src/components/PopulationGrowth.jsx:45-51 | the first key trimming to "Country Name" wins; otherwise the first key mentioning "country" and "name" in any case; none exactly when no key qualifies |
| PopulationGrowth.WorldRow | src/components/PopulationGrowth.jsx:58-61 | the first row whose trimmed lower-cased country cell is "world", and none exactly when no row has one |
| PopulationGrowth.Collect | src/components/PopulationGrowth.jsx:72-85 | the map-then-filter keeps exactly the values some entry yields, each once for every entry that yields it |
| PopulationGrowth.Candidates | src/components/PopulationGrowth.jsx:68-85 | a point is a candidate exactly when some key yields it, and every candidate's year lies in 1980..2023 |
| PopulationGrowth.CandidatesCount | src/components/PopulationGrowth.jsx:68-85 | each candidate occurs once for every year column of the World row that yields it |
| PopulationGrowth.Points | src/components/PopulationGrowth.jsx:72-86 | the plotted points are the candidates rearranged into ascending year order, all within 1980..2023 |
| PopulationGrowth.Locate | src/components/PopulationGrowth.jsx:40-66 | "CSV did not load" exactly for a missing or empty file, and never the too-few-points error |
| PopulationGrowth.Prepare | src/components/PopulationGrowth.jsx:40-91 | "CSV did not load" exactly for a missing or empty file; a successful result has at least two points, year-sorted and within range |
| PopulationGrowth.PrepareLookupErrors | src/components/PopulationGrowth.jsx:45-66 | the missing-column error occurs exactly when no column qualifies, and the missing-World error exactly when a column exists but no row reads "world" |
| PopulationGrowth.PrepareResult | src/components/PopulationGrowth.jsx:68-91 | once the World row is found, the too-few-points error occurs exactly when fewer than two candidates exist, and otherwise the chart gets exactly the candidates |
| JsValues.Trim | src/hooks/useIhmeData.js:53-59 | the trimmed text is the slice of the input between an all-space prefix and an all-space suffix, has no white space at either end, is empty exactly for blank text and leaves already-trimmed text alone |
| JsValues.Lower | src/components/PopulationGrowth.jsx:49-50 | lower-casing keeps the length and maps each character |
| Sorting.SortSorted | src/hooks/useIhmeData.js:79-80 | sorting by a total preorder yields a sorted permutation |
| Sorting.SortKeepsNoDuplicates | src/hooks/useIhmeData.js:79-80 | sorting a duplicate-free list keeps it duplicate-free |
| Sorting.StrLeTotalPreorder | src/hooks/useIhmeData.js:79 | the default string order is total and transitive |

## Left out

- Fetching, JSON parsing, the `alive` stale-result guard and the loading/error state changes of the data hook: these are I/O. The model starts from the row sequence.
- Row field conversion: the model receives each row's year as an optional integer and each metric as `Number(field)`, already converted. JavaScript turns `null` and `""` into 0, so a null metric reaches the model as the finite value 0 and is stored.
- Fractional years: years are integers. A fractional `Number(r.year)` would be accepted by the source and is not representable here.
- Floating point: values are exact reals. `Math.log1p`, `Math.expm1`, `toFixed(2)`, the chart scales and cell parsing are parameters of the model.
- Thresholds.RankIndex: computes the integer index `(n-1)*k/5` and does not model the float evaluation of `(n-1)*0.2` etc. before `Math.floor`.
- Thresholds.ComputeThresholds: is ghost because it enumerates the values of a map. Its candidates are finite by construction, since the index only stores finite values, so the `Number.isFinite` filter reduces to `> 0`.
- The property wiring between the globe page and its children: the page passes a metric-keyed index, a metric and a scale mode, while the globe hook reads another property name and calls the threshold function with three arguments. The model takes the metric and scale mode as explicit parameters. Likewise the page hands the detail panel `valuesByMetricDiseaseYear` (GlobePage.jsx:202), while the panel reads `valuesByDiseaseYear` (DetailPanel.jsx:69); as written the panel's series is always empty, so it always shows the not-enough-data message. The model gives the panel the selected metric's index directly, and DetailPanel.PanelShowsLastRows and DetailPanel.MarkerOnLoadedIndex hold for that intended wiring only.
- Mapbox plumbing: map construction, layers, event handlers, fog, camera moves and the spin animation are foreign library calls and animation. Of the hover handler, only the value read is modelled.
- MapboxGlobe.Classify: the fallback colour for missing thresholds is the same string as bin 4's colour, so the fallback is modelled as bin 4. The contract states the colour and not the bin.
- Timers: the 120 ms and 1200 ms curtain timeouts and the play interval are modelled as counts of scheduled closes and as single ticks, not as time.
- Text handling: `toLowerCase` is modelled for ASCII letters only. The only lower-cased text is compared with "country", "name" and "world", and no non-ASCII capital lowers to one of their letters. String order is by code point, not by UTF-16 code unit.
- The year-in-key regular expression of the population chart is a parameter returning the matched year, or none.
- SVG and d3 rendering, axes, transitions and hit-testing of both charts, and the sparkline's scale arithmetic.
- Sparkline.BuildSparkPath: returns Move/Line commands with their coordinates rather than the path text.
- StreamGraph.Records: `+d.year` is an integer. A blank year, which JavaScript reads as 0, must be given as 0, and a non-numeric (NaN) or fractional year is not representable.
- StreamGraph.Records: `+d.val` is an optional real. Infinite and not-a-number values, which `d3.max` treats differently, are not distinguished from missing ones.
- Sorting.Sort: is a stable insertion sort, but stability is not stated as a lemma. So StreamGraph.PrepareProperties and PopulationGrowth.Points state each permutation as a multiset, not as an order among equal keys.
- Object key order: JavaScript lists integer-like keys in ascending order. This ordering is not modelled. Buckets are maps, and candidate sequences are compared as multisets.
- Tooltip.Render: does not model the position, the disease accent or the disease/year line.
- VizStore: listeners are identified by number. `useSyncExternalStore` re-reading the snapshot is not modelled.
- The control-panel legend: it is presentation only and uses three thresholds, so it is not the classifier.
- The palette and colour lookup tables, the unrouted globe draft, and the purely presentational components (header, help modal, stepper, curtain, routing): none holds logic with a stateable property.
