/**
  The alert classifier of `fetchWeatherAlerts`: an alert is kept when its area
  description names one of sixteen East Coast states (by code or by full name,
  case-sensitive) and its lower-cased event name contains a winter keyword.
*/
module Alerts {
  import opened Wrappers
  import opened JsStrings

  /** The `properties` object of one GeoJSON feature of the alerts feed. */
  datatype Alert = Alert(
    event: Option<string>,
    severity: Option<string>,
    areaDesc: Option<string>,
    expires: Option<string>,
    description: Option<string>)

  /** One element of `data.features`; `properties` may be missing. */
  datatype Feature = Feature(properties: Option<Alert>)

  const TargetStates: seq<string> :=
    ["ME", "NH", "VT", "MA", "RI", "CT", "NY", "NJ", "PA", "DE", "MD", "DC", "VA", "NC", "SC", "GA"]

  const WinterKeywords: seq<string> :=
    ["winter", "snow", "blizzard", "ice", "freeze", "wind chill", "cold", "frost"]

  const StateNames: map<string, string> := map[
    "ME" := "Maine", "NH" := "New Hampshire", "VT" := "Vermont", "MA" := "Massachusetts",
    "RI" := "Rhode Island", "CT" := "Connecticut", "NY" := "New York", "NJ" := "New Jersey",
    "PA" := "Pennsylvania", "DE" := "Delaware", "MD" := "Maryland", "DC" := "District of Columbia",
    "VA" := "Virginia", "NC" := "North Carolina", "SC" := "South Carolina", "GA" := "Georgia"]

  /** `getStateName`: the full name of a code, or the code itself when it is not in the table. */
  function StateName(abbr: string): (name: string)
    ensures abbr in StateNames ==> name == StateNames[abbr]
    ensures abbr !in StateNames ==> name == abbr
  {
    if abbr in StateNames && StateNames[abbr] != "" then StateNames[abbr] else abbr
  }

  /** Every target code has a name of its own, so the fallback is never taken from the filter. */
  lemma StateNameCoversTargets()
    ensures forall i :: 0 <= i < |TargetStates| ==>
      TargetStates[i] in StateNames && StateName(TargetStates[i]) != TargetStates[i]
  {
  }

  /** The area test: some target code, or its name, is a substring of the area text. */
  predicate InTargetArea(area: string) {
    exists i | 0 <= i < |TargetStates| ::
      Includes(area, TargetStates[i]) || Includes(area, StateName(TargetStates[i]))
  }

  /** The event test: some winter keyword is a substring of the lower-cased event text. */
  predicate IsWinterRelated(event: string) {
    exists k | 0 <= k < |WinterKeywords| :: Includes(ToLower(event), WinterKeywords[k])
  }

  /** The filter callback, with `props.areaDesc || ''` and `props.event || ''`. */
  predicate Kept(a: Alert) {
    InTargetArea(OrDefault(a.areaDesc, "")) && IsWinterRelated(OrDefault(a.event, ""))
  }

  /** `s` is an order-preserving subsequence of `t`. */
  predicate IsSubsequence<T(==)>(s: seq<T>, t: seq<T>)
    decreases |t|
  {
    if s == [] then true
    else if t == [] then false
    else if s[0] == t[0] then IsSubsequence(s[1..], t[1..])
    else IsSubsequence(s, t[1..])
  }

  /** `alerts.filter(...)`: the kept alerts, in input order, unchanged, each copy of a kept alert. */
  function FilterAlerts(s: seq<Alert>): (r: seq<Alert>)
    ensures |r| <= |s|
    ensures forall k :: 0 <= k < |r| ==> Kept(r[k])
  {
    if s == [] then []
    else if Kept(s[0]) then [s[0]] + FilterAlerts(s[1..])
    else FilterAlerts(s[1..])
  }

  /** The filter keeps input order, and every copy of a kept alert and no other. */
  lemma {:induction false} FilterAlertsSpec(s: seq<Alert>)
    ensures IsSubsequence(FilterAlerts(s), s)
    ensures forall a :: multiset(FilterAlerts(s))[a] == if Kept(a) then multiset(s)[a] else 0
    decreases |s|
  {
    if s != [] {
      FilterAlertsSpec(s[1..]);
      assert s == [s[0]] + s[1..];
      var rest := FilterAlerts(s[1..]);
      assert rest != [] ==> rest[0] != s[0] || Kept(s[0]);
    }
  }

  /** The filter keeps nothing exactly when no alert passes the test. */
  lemma {:induction false} FilterEmptyIff(s: seq<Alert>)
    ensures FilterAlerts(s) == [] <==> forall i :: 0 <= i < |s| ==> !Kept(s[i])
    decreases |s|
  {
    if s != [] {
      FilterEmptyIff(s[1..]);
      assert forall i :: 1 <= i < |s| ==> s[i] == s[1..][i - 1];
    }
  }

  /** An alert with no event text, or no area text, is never kept. */
  lemma MissingFieldDrops(a: Alert)
    requires a.event.None? || a.areaDesc.None?
    ensures !Kept(a)
  {
    if a.areaDesc.None? {
      forall i | 0 <= i < |TargetStates| ensures !Includes("", TargetStates[i]) && !Includes("", StateName(TargetStates[i])) {
        assert |StateName(TargetStates[i])| > 0;
      }
    } else {
      assert ToLower("") == "";
    }
  }

  /** `includes` of a needle no shorter than the text holds only when they are equal. */
  lemma IncludesNoShorter(hay: string, needle: string)
    requires |needle| >= |hay|
    ensures Includes(hay, needle) <==> hay == needle
  {
    if |needle| == |hay| && hay != needle {
      assert hay[..|needle|] == hay;
    }
  }

  /** The area test is case-sensitive: a lower-case code does not count. */
  lemma AreaTestIsCaseSensitive(upper: string, lower: string)
    requires upper == "MA" && lower == "ma"
    ensures InTargetArea(upper) && !InTargetArea(lower)
  {
    forall i | 0 <= i < |TargetStates|
      ensures !Includes(lower, TargetStates[i]) && !Includes(lower, StateName(TargetStates[i]))
    {
      var code := TargetStates[i];
      assert |code| == 2 && code[0] != 'm';
      IncludesNoShorter(lower, code);
      IncludesNoShorter(lower, StateName(code));
    }
    assert TargetStates[3] == upper;
    IncludesNoShorter(upper, upper);
  }

  /** "Winter Storm Warning" passes the event test through its lower-cased first word. */
  lemma WinterStormIsWinterRelated(text: string)
    requires text == "Winter Storm Warning"
    ensures IsWinterRelated(text)
  {
    var ev := ToLower(text);
    assert ev[0] == 'w' && ev[1] == 'i' && ev[2] == 'n' && ev[3] == 't' && ev[4] == 'e' && ev[5] == 'r';
    assert ev[0..6] == WinterKeywords[0];
    IncludesAt(ev, WinterKeywords[0], 0);
  }

  /** A winter storm warning for "MA" is kept while the same warning for "ma" is dropped. */
  lemma CaseSensitiveExample(upper: Alert, lower: Alert)
    requires upper.event == lower.event == Some("Winter Storm Warning")
    requires upper.areaDesc == Some("MA") && lower.areaDesc == Some("ma")
    ensures Kept(upper) && !Kept(lower)
  {
    var ev := OrDefault(upper.event, "");
    assert ev == upper.event.value;
    WinterStormIsWinterRelated(ev);
    AreaTestIsCaseSensitive(OrDefault(upper.areaDesc, ""), OrDefault(lower.areaDesc, ""));
  }
}
