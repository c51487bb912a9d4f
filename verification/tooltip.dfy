/** The hover tooltip (src/components/Tooltip.jsx): when it shows and which
    text it gives the hovered country's value. `toFixed2` stands for
    `Number(value).toFixed(2)`. */
module Tooltip {
  import opened Wrappers
  import opened IhmeData
  import opened Thresholds
  import opened MapboxGlobe

  const NoDataText := "No data"
  const ZeroText := "0 (no burden)"

  /** What the tooltip renders: nothing, or the country's name, code and value text. */
  datatype View = Hidden | Shown(name: string, iso3: string, valueText: string)

  /** The value text: absent -> "No data", exactly 0 -> "0 (no burden)" (checked
      first), anything else its two-decimal rendering. */
  function ValueText(value: Option<real>, toFixed2: real -> string): (t: string)
    ensures value.None? ==> t == NoDataText
    ensures value == Some(0.0) ==> t == ZeroText
    ensures value.Some? && value.value != 0.0 ==> t == toFixed2(value.value)
  {
    if value == Some(0.0) then ZeroText
    else if value.None? then NoDataText
    else toFixed2(value.value)
  }

  /** The component: hidden unless visible with a feature. */
  function Render(visible: bool, feature: Option<Feature>, value: Option<real>, toFixed2: real -> string): (v: View)
    ensures v.Hidden? <==> !visible || feature.None?
    ensures v.Shown? ==> v.name == FeatureToCountryMeta(feature).name && v.iso3 == FeatureToCountryMeta(feature).iso3
    ensures v.Shown? ==> v.valueText == ValueText(value, toFixed2)
  {
    if !visible || feature.None? then Hidden
    else
      var meta := FeatureToCountryMeta(feature);
      Shown(meta.name, meta.iso3, ValueText(value, toFixed2))
  }

  /** A two-decimal rendering never reads like one of the two fixed texts. */
  ghost predicate Numeric(toFixed2: real -> string) {
    forall v :: toFixed2(v) != NoDataText && toFixed2(v) != ZeroText
  }

  /** The tooltip and the fill colour agree on the zero-versus-absent
      distinction: "No data" exactly for the NO_DATA colour, "0 (no burden)"
      exactly for the ZERO colour, whatever the thresholds. */
  lemma TextMatchesFill(value: Option<real>, thresholds: Option<Quartet>, toFixed2: real -> string)
    requires Numeric(toFixed2)
    ensures ValueText(value, toFixed2) == NoDataText <==> Classify(value, thresholds) == NoData
    ensures ValueText(value, toFixed2) == ZeroText <==> Classify(value, thresholds) == Zero
  {
  }

  /** After a feature-state update, hovering a country shows "No data" exactly
      when the selected year's bucket has no value for it. */
  lemma HoverAfterUpdate(states: map<string, FeatureState>, prev: set<string>, perYear: Bucket,
                         states2: map<string, FeatureState>, next: set<string>, iso: string,
                         toFixed2: real -> string)
    requires Numeric(toFixed2)
    requires Tracked(states, prev)
    requires UpdatedFrom(states, prev, perYear, states2, next)
    ensures ValueText(ShownValue(states2, iso), toFixed2) == NoDataText <==> iso !in perYear
    ensures iso in perYear && perYear[iso] == 0.0 ==> ValueText(ShownValue(states2, iso), toFixed2) == ZeroText
  {
    NoStaleValues(states, prev, perYear, states2, next);
  }
}
