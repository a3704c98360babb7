/**
  One run of `fetchWeatherAlerts` as a state machine over an abstract fetch
  result. The panel first shows the loading spinner, then exactly one of
  three end states: the retryable failure, "No Active Winter Alerts", or the
  alert list; the five-minute timer is re-armed except when no alert survives
  the filter, because that branch returns before `setTimeout`.
*/
module AlertCycle {
  import opened Wrappers
  import opened Alerts
  import opened StableSort
  import opened Severity
  import opened Render

  /**
    What the alerts request produced: a failure (a rejected `fetch`, a status
    that is not ok, or a body that is not JSON) or the parsed document's
    `features`, which may be missing.
  */
  datatype FetchResult = FetchFailed | Fetched(features: Option<seq<Feature>>)

  /** The contents of the alerts container. */
  datatype Display =
    | Placeholder
    | Loading
    | LoadFailed                                // "Unable to Load Alerts", with a Retry button
    | NoWinterAlerts                            // "No Active Winter Alerts"
    | AlertList(total: nat, cards: seq<Card>)   // header count and the rendered cards

  datatype Outcome = Outcome(display: Display, rescheduled: bool)

  /** `data.features || []`. */
  function FeaturesOf(fetch: FetchResult): seq<Feature>
    requires fetch.Fetched?
  {
    if fetch.features.Some? then fetch.features.value else []
  }

  /** Reading `alert.properties.areaDesc` throws a TypeError unless every feature has properties. */
  predicate AllHaveProperties(fs: seq<Feature>) {
    forall i :: 0 <= i < |fs| ==> fs[i].properties.Some?
  }

  function PropertiesOf(fs: seq<Feature>): (s: seq<Alert>)
    requires AllHaveProperties(fs)
    ensures |s| == |fs| && forall i :: 0 <= i < |fs| ==> s[i] == fs[i].properties.value
  {
    if fs == [] then [] else [fs[0].properties.value] + PropertiesOf(fs[1..])
  }

  /** The cards of the first twenty ranked alerts. */
  function ShownCards(ranked: seq<Alert>): seq<Card> {
    seq(Min(|ranked|, MaxCards), i requires 0 <= i < Min(|ranked|, MaxCards) => CardOf(ranked[i]))
  }

  /** The filtered alerts of a successful fetch whose features all have properties. */
  function Filtered(fetch: FetchResult): seq<Alert>
    requires fetch.Fetched? && AllHaveProperties(FeaturesOf(fetch))
  {
    FilterAlerts(PropertiesOf(FeaturesOf(fetch)))
  }

  /** The end state of one cycle. */
  function Cycle(fetch: FetchResult): Outcome {
    if fetch.FetchFailed? || !AllHaveProperties(FeaturesOf(fetch)) then Outcome(LoadFailed, true)
    else
      var filtered := Filtered(fetch);
      if |filtered| == 0 then Outcome(NoWinterAlerts, false)
      else Outcome(AlertList(|filtered|, ShownCards(RankedAlerts(filtered))), true)
  }

  /** A cycle ends in one of the three end states; the timer is re-armed unless nothing was kept. */
  lemma CycleEndStates(fetch: FetchResult)
    ensures Cycle(fetch).display in {LoadFailed, NoWinterAlerts} || Cycle(fetch).display.AlertList?
    ensures Cycle(fetch).rescheduled <==> Cycle(fetch).display != NoWinterAlerts
  {
  }

  /** A failed request, or a feature without properties, gives the retryable failure and re-arms the timer. */
  lemma FailureIsRetryable(fetch: FetchResult)
    requires fetch.FetchFailed? || (fetch.Fetched? && !AllHaveProperties(FeaturesOf(fetch)))
    ensures Cycle(fetch) == Outcome(LoadFailed, true)
  {
  }

  /** A document without `features` behaves like an empty one: no alerts, and no new timer. */
  lemma MissingFeaturesMeansNoAlerts()
    ensures Cycle(Fetched(None)) == Cycle(Fetched(Some([]))) == Outcome(NoWinterAlerts, false)
  {
  }

  /** The failure state is reached exactly when the request failed or a feature lacked properties. */
  lemma FailureExactly(fetch: FetchResult)
    ensures Cycle(fetch).display == LoadFailed <==>
      fetch.FetchFailed? || !AllHaveProperties(FeaturesOf(fetch))
  {
  }

  /** When nothing failed, the cycle shows no alerts exactly when the filter kept none. */
  lemma EmptyExactly(fetch: FetchResult)
    requires fetch.Fetched? && AllHaveProperties(FeaturesOf(fetch))
    ensures Cycle(fetch).display == NoWinterAlerts <==>
      forall i :: 0 <= i < |FeaturesOf(fetch)| ==> !Kept(FeaturesOf(fetch)[i].properties.value)
  {
    FilterEmptyIff(PropertiesOf(FeaturesOf(fetch)));
  }

  /**
    In the alert list, the header counts every kept alert, while the cards are
    those of the first min(n, 20) alerts in ranked order.
  */
  lemma RenderSelection(fetch: FetchResult)
    requires Cycle(fetch).display.AlertList?
    ensures fetch.Fetched? && AllHaveProperties(FeaturesOf(fetch))
    ensures var d, ranked := Cycle(fetch).display, RankedAlerts(Filtered(fetch));
      && d.total == |Filtered(fetch)| == |ranked| > 0
      && |d.cards| == Min(d.total, MaxCards)
      && forall i :: 0 <= i < |d.cards| ==> d.cards[i] == CardOf(ranked[i])
  {
    var filtered := Filtered(fetch);
    RanksInRange(filtered);
    ByKeyLength(RankOf, filtered);
    assert Cycle(fetch).display == AlertList(|filtered|, ShownCards(RankedAlerts(filtered)));
  }

  /** The alerts container of the page, with the flag of the five-minute timer. */
  class AlertsPanel {
    const hasContainer: bool            // `document.getElementById('nws-alerts')` found an element
    var display: Display
    var rescheduled: bool               // the last cycle armed `setTimeout(fetchWeatherAlerts, 300000)`
    var history: seq<Display>           // every assignment to `innerHTML`, oldest first

    constructor (hasContainer: bool)
      ensures this.hasContainer == hasContainer
      ensures display == Placeholder && !rescheduled && history == []
    {
      this.hasContainer := hasContainer;
      display := Placeholder;
      rescheduled := false;
      history := [];
    }

    method Show(d: Display)
      modifies this
      ensures display == d && history == old(history) + [d] && rescheduled == old(rescheduled)
    {
      display := d;
      history := history + [d];
    }

    /** One cycle: spinner, request, filter, in-place sort, render, re-arm. */
    method FetchWeatherAlerts(fetch: FetchResult)
      modifies this
      ensures !hasContainer ==> display == old(display) && history == old(history) && !rescheduled
      ensures hasContainer ==> display == Cycle(fetch).display && rescheduled == Cycle(fetch).rescheduled
      ensures hasContainer ==> history == old(history) + [Loading, display]
    {
      if !hasContainer {
        rescheduled := false;
        return;
      }
      Show(Loading);
      var failed := false;
      var filtered: seq<Alert> := [];
      if fetch.FetchFailed? {
        failed := true;
      } else {
        var features := if fetch.features.Some? then fetch.features.value else [];
        if !AllHaveProperties(features) {
          failed := true;
        } else {
          filtered := FilterAlerts(PropertiesOf(features));
          assert filtered == Filtered(fetch);
        }
      }
      if failed {
        Show(LoadFailed);
      } else {
        var d := SortAndRender(filtered);
        Show(d);
        if d == NoWinterAlerts {
          rescheduled := false;
          return;
        }
      }
      rescheduled := true;
    }
  }

  /**
    Sorts a copy of the filtered alerts in place and renders them: the
    empty message when there are none, otherwise the header count and the
    cards of the first twenty ranked alerts.
  */
  method SortAndRender(filtered: seq<Alert>) returns (d: Display)
    ensures |filtered| == 0 ==> d == NoWinterAlerts
    ensures |filtered| > 0 ==> d == AlertList(|filtered|, ShownCards(RankedAlerts(filtered)))
  {
    var alerts := new Alert[|filtered|](i requires 0 <= i < |filtered| => filtered[i]);
    assert alerts[..] == filtered;
    SortBySeverity(alerts);
    if alerts.Length == 0 {
      return NoWinterAlerts;
    }
    var cards := RenderCards(alerts[..]);
    assert cards == ShownCards(RankedAlerts(filtered));
    d := AlertList(alerts.Length, cards);
  }
}
