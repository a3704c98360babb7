/**
  What one cycle renders from the ranked alerts: the header counts every
  alert, but only the first twenty become cards (`slice(0, 20)`), and each
  card summarises its area text by its first three `;`-separated parts.
  The markup, colours and icons around these values are not modelled.
*/
module Render {
  import opened Wrappers
  import opened JsStrings
  import opened Alerts

  const MaxCards := 20

  /** The values one alert card shows. `expires` None stands for the label 'Unknown'. */
  datatype Card = Card(
    event: string,
    severity: string,
    areas: string,
    expires: Option<string>,
    description: string)

  function Min(a: int, b: int): int {
    if a <= b then a else b
  }

  /** `${x}` of a property that may be absent. */
  function TemplateText(x: Option<string>): string {
    if x.Some? then x.value else "undefined"
  }

  /** `areas` plus the ellipsis of the card's "Areas:" line. */
  function AreaSummary(desc: string): string {
    var parts := Split(desc, ';');
    Join(parts[..Min(|parts|, 3)], ", ") + (if |parts| > 3 then "..." else "")
  }

  /** The card of one alert. */
  function CardOf(a: Alert): Card {
    Card(
      TemplateText(a.event),
      TemplateText(a.severity),
      AreaSummary(OrDefault(a.areaDesc, "")),
      if a.expires.Some? && a.expires.value != "" then a.expires else None,
      OrDefault(a.description, "No description available."))
  }

  /** Splitting at a separator splits the parts on each side independently. */
  lemma {:induction false} SplitAround(p: string, q: string, c: char)
    ensures Split(p + [c] + q, c) == Split(p, c) + Split(q, c)
    decreases |p|
  {
    if p == [] {
      var whole := p + [c] + q;
      assert whole == [c] + q;
      assert whole[1..] == q;
    } else {
      SplitAround(p[1..], q, c);
      SplitAroundStep(p, q, c);
    }
  }

  /** One step of `SplitAround`: from the split around the tail of `p` to the split around `p`. */
  lemma SplitAroundStep(p: string, q: string, c: char)
    requires p != []
    requires Split(p[1..] + [c] + q, c) == Split(p[1..], c) + Split(q, c)
    ensures Split(p + [c] + q, c) == Split(p, c) + Split(q, c)
  {
    AroundTail(p, q, c);
    SplitHead(p + [c] + q, c);
    SplitHead(p, c);
    if p[0] == c {
      SeparatorStep(Split(p[1..], c), Split(q, c));
    } else {
      ExtendFirstPart(p[0], Split(p[1..], c), Split(q, c));
    }
  }

  lemma AroundTail(p: string, q: string, c: char)
    requires p != []
    ensures (p + [c] + q)[0] == p[0] && (p + [c] + q)[1..] == p[1..] + [c] + q
  {
  }

  lemma SeparatorStep(a: seq<string>, b: seq<string>)
    ensures [""] + (a + b) == ([""] + a) + b
  {
  }

  lemma ExtendFirstPart(x: char, a: seq<string>, b: seq<string>)
    requires |a| >= 1
    ensures [[x] + (a + b)[0]] + (a + b)[1..] == ([[x] + a[0]] + a[1..]) + b
  {
  }

  /** With at most three parts, the summary is the whole area text with each `;` shown as ", ". */
  lemma AreaSummaryFewParts(desc: string)
    requires Count(desc, ';') <= 2
    ensures AreaSummary(desc) == ReplaceChar(desc, ';', ", ")
  {
    SplitLength(desc, ';');
    JoinSplitReplaces(desc, ';', ", ");
    var parts := Split(desc, ';');
    assert parts[..Min(|parts|, 3)] == parts;
  }

  /** With more than three parts, the summary is the text before the third `;`, then '...'. */
  lemma AreaSummaryManyParts(p: string, q: string)
    requires Count(p, ';') == 2
    ensures AreaSummary(p + ";" + q) == ReplaceChar(p, ';', ", ") + "..."
  {
    SplitAround(p, q, ';');
    SplitLength(p, ';');
    JoinSplitReplaces(p, ';', ", ");
    var parts := Split(p + ";" + q, ';');
    assert parts[..3] == Split(p, ';');
  }

  /** `filteredAlerts.slice(0, 20).forEach(...)`: one card per shown alert, in order. */
  method RenderCards(sorted: seq<Alert>) returns (cards: seq<Card>)
    ensures |cards| == Min(|sorted|, MaxCards)
    ensures forall i :: 0 <= i < |cards| ==> cards[i] == CardOf(sorted[i])
  {
    var shown := sorted[..Min(|sorted|, MaxCards)];
    cards := [];
    var i := 0;
    while i < |shown|
      invariant 0 <= i <= |shown|
      invariant |cards| == i
      invariant forall k :: 0 <= k < i ==> cards[k] == CardOf(shown[k])
    {
      cards := cards + [CardOf(shown[i])];
      i := i + 1;
    }
  }
}
