/**
  The severity ranker: `filteredAlerts.sort((a, b) => aSev - bSev)` where a
  rank is `severityOrder[severity] || 4`. Because `0 || 4` is 4, an Extreme
  alert ranks 4, together with Unknown, missing and unrecognised severities.
  `Array.prototype.sort` is stable (ECMA-262, 10th edition, section 22.1.3.27).
*/
module Severity {
  import opened Wrappers
  import opened Alerts
  import opened StableSort

  const SeverityOrder: map<string, int> :=
    map["Extreme" := 0, "Severe" := 1, "Moderate" := 2, "Minor" := 3, "Unknown" := 4]

  /** `severityOrder[key]`; an absent severity is looked up under the key "undefined". */
  function Lookup(severity: Option<string>): Option<int> {
    var key := if severity.Some? then severity.value else "undefined";
    if key in SeverityOrder then Some(SeverityOrder[key]) else None
  }

  /** `v || 4` on a number or undefined: undefined and 0 are both falsy. */
  function OrFour(v: Option<int>): int {
    if v.Some? && v.value != 0 then v.value else 4
  }

  /** The effective rank of one alert. */
  function RankOf(a: Alert): (r: int)
    ensures 1 <= r <= 4
  {
    OrFour(Lookup(a.severity))
  }

  /** The effective ranks, with the Extreme quirk. */
  lemma RankTable(a: Alert)
    ensures a.severity == Some("Severe") ==> RankOf(a) == 1
    ensures a.severity == Some("Moderate") ==> RankOf(a) == 2
    ensures a.severity == Some("Minor") ==> RankOf(a) == 3
    ensures RankOf(a) == 4 <==> a.severity !in {Some("Severe"), Some("Moderate"), Some("Minor")}
    ensures a.severity == Some("Extreme") ==> RankOf(a) == 4
  {
  }

  /** Every alert rank lies in 1..4, so the reference stable order covers all alerts. */
  lemma RanksInRange(s: seq<Alert>)
    ensures KeysInRange(RankOf, s)
  {
  }

  /** The order `fetchWeatherAlerts` shows the filtered alerts in. */
  function RankedAlerts(s: seq<Alert>): seq<Alert> {
    ByKey(RankOf, s)
  }

  /** The ranked order keeps all alerts, is ordered by rank and keeps each rank's input order. */
  lemma RankedAlertsIsStableSort(s: seq<Alert>)
    ensures multiset(RankedAlerts(s)) == multiset(s)
    ensures SortedBy(RankOf, RankedAlerts(s))
    ensures forall r :: OfKey(RankOf, RankedAlerts(s), r) == OfKey(RankOf, s, r)
  {
    RanksInRange(s);
    ByKeyPermutes(RankOf, s);
    ByKeySorted(RankOf, s);
    forall r ensures OfKey(RankOf, RankedAlerts(s), r) == OfKey(RankOf, s, r) {
      ByKeyKeepsClasses(RankOf, s, r);
    }
  }

  /** Two Extreme alerts keep their relative order and go after Severe and Moderate ones. */
  lemma ExtremeRanksLast(m: Alert, e1: Alert, sv: Alert, e2: Alert)
    requires m.severity == Some("Moderate") && sv.severity == Some("Severe")
    requires e1.severity == Some("Extreme") && e2.severity == Some("Extreme")
    ensures RankedAlerts([m, e1, sv, e2]) == [sv, m, e1, e2]
  {
    RankTable(m);
    RankTable(e1);
    RankTable(sv);
    RankTable(e2);
    ByKeyOfFour(RankOf, m, e1, sv, e2);
  }

  /**
    `filteredAlerts.sort(...)` with the severity comparator: afterwards the
    array holds the ranked order of its old contents.
  */
  method SortBySeverity(a: array<Alert>)
    modifies a
    ensures SortedBy(RankOf, a[..])
    ensures forall r :: OfKey(RankOf, a[..], r) == OfKey(RankOf, old(a[..]), r)
    ensures a[..] == RankedAlerts(old(a[..]))
  {
    RanksInRange(a[..]);
    SortByKey(RankOf, a);
  }
}
