# Storm tracker core, modelled in Dafny

The storm tracker page of bombcyclone2026 gets its data from `js/tracker.js`.
Five parts of that file are modelled here:

- **The alert feed** (`fetchWeatherAlerts`). The page asks the National Weather Service for active alerts. It keeps an alert when the alert's area text names one of sixteen East Coast states (by code or by full name) and its lower-cased event name contains a winter keyword. It orders the kept alerts by severity rank and shows a header count plus up to twenty alert cards. It then re-arms a five-minute timer. On failure it shows a retryable error instead.
- **State names** (`getStateName`). The full name of a state code, or the code itself when the code is not in the table.
- **The ZIP lookup** (`checkZipSnow`). The page trims the input and accepts only five ASCII digits. It looks the ZIP up in a table of exact ZIP codes, then in a table of three-digit prefixes, and otherwise sends the reader to weather.gov.
- **The countdown** (`initCountdown`). The whole hours and leftover minutes before peak impact.
- **The JavaScript built-ins these rely on.** `||` defaults, `includes`, `toLowerCase`, `trim`, `split` and `join`.

The modules follow the program's parts:

| file | module | what it holds |
|---|---|---|
| `wrappers.dfy` | `Wrappers` | `Option`, for a JavaScript property that may be absent |
| `jsstrings.dfy` | `JsStrings` | the string built-ins, each with a reference definition and lemmas tying the two together |
| `alerts.dfy` | `Alerts` | the alert record, `getStateName`, and the area and winter filter |
| `stablesort.dfy` | `StableSort` | a generic stable sort by an integer key from 1 to 4. `ByKey` is the reference definition (concatenate the elements of each key, in input order). `SortByKey` is an in-place insertion sort on an `array`, proved equal to `ByKey` |
| `severity.dfy` | `Severity` | the severity rank `severityOrder[s] \|\| 4` and the in-place `filteredAlerts.sort` |
| `render.dfy` | `Render` | the values of one alert card, the area summary and `slice(0, 20)` |
| `cycle.dfy` | `AlertCycle` | one refresh cycle, both as a function (`Cycle`) and as a class with mutable display state (`AlertsPanel`) |
| `zip.dfy` | `ZipLookup` | the two ZIP tables, with every entry of the source, and the resolver |
| `countdown.dfy` | `Countdown` | the hours-and-minutes arithmetic |

In five places the code does something a reader may not expect; the model follows the code:

- **Extreme alerts rank last.** `severityOrder['Extreme']` is 0, and `0 || 4` is 4. So an Extreme alert ranks with Unknown and unrecognised severities, after Minor ones. The model keeps this (`Severity.RankTable`, `Severity.ExtremeRanksLast`).
- **The area test is case-sensitive.** An area text "ma" matches no state (`Alerts.AreaTestIsCaseSensitive`). Only the event name is lower-cased.
- **The twenty-card cap is applied at render time.** The header shows the count of all kept alerts, not of the shown cards (`AlertCycle.RenderSelection`).
- **An empty result stops the refresh.** When no alert survives the filter, the function returns before `setTimeout`. The panel then stops refreshing (`AlertCycle.CycleEndStates`).
- **A failed refresh does not keep the old alerts.** The loading spinner replaces the previous display before the request is made. So a failed refresh ends on the error panel, not on the previous alerts (`AlertCycle.AlertsPanel.FetchWeatherAlerts`).

## Model

| member | source | states |
|---|---|---|
| JsStrings.OrDefault | js/tracker.js:252-253 | `x \|\| d` gives the default exactly when the value is absent, empty, or equal to the default; otherwise it gives the value itself |
| JsStrings.IncludesIff | js/tracker.js:256-261 | `includes` holds exactly when the needle occurs at some offset of the text |
| JsStrings.ToLower | js/tracker.js:253 | lower-casing keeps the length and maps each character through the ASCII letter map |
| JsStrings.TrimSpec | js/tracker.js:357 | the trim is a middle slice of the input with only white space cut off at both ends, and it neither starts nor ends with white space |
| JsStrings.TrimUnchanged | js/tracker.js:357 | a string with no white space at either end is its own trim |
| JsStrings.TrimIdempotent | js/tracker.js:357 | trimming twice is trimming once |
| JsStrings.SplitPartsFree | js/tracker.js:299 | no part of `split(c)` contains `c` |
| JsStrings.SplitLength | js/tracker.js:299 | `split(c)` has one part more than the occurrences of `c` |
| JsStrings.JoinSplitReplaces | js/tracker.js:299 | `split(c).join(sep)` equals the string with each `c` replaced by `sep` |
| JsStrings.JoinSplitRoundTrip | js/tracker.js:299 | `split(c).join(c)` gives back the string |
| Alerts.StateName | js/tracker.js:343-351 | a code in the table gives its full name; any other code that is not an `Object.prototype` property name is returned unchanged |
| Alerts.StateNameCoversTargets | js/tracker.js:203 | every one of the sixteen target codes has its own full name, so the filter's name test never falls back to the code |
| Alerts.FilterAlerts | js/tracker.js:250-264 | the filter returns no more alerts than it was given, and each returned alert passes both the area test and the winter test |
| Alerts.FilterAlertsSpec | js/tracker.js:250-264 | the filter keeps input order, and keeps every copy of a passing alert and nothing else |
| Alerts.FilterEmptyIff | js/tracker.js:250-264 | the filter returns nothing exactly when no alert passes |
| Alerts.MissingFieldDrops | js/tracker.js:252-253 | an alert with no event or no area text is never kept |
| Alerts.AreaTestIsCaseSensitive | js/tracker.js:256-258 | "MA" is a target area and "ma" is not |
| Alerts.WinterStormIsWinterRelated | js/tracker.js:249-261 | "Winter Storm Warning" passes the event test |
| Alerts.CaseSensitiveExample | js/tracker.js:250-264 | the same winter storm warning is kept for area "MA" and dropped for area "ma" |
| StableSort.ByKeyPermutes | js/tracker.js:267-272 | the reference stable order is a permutation of its input |
| StableSort.ByKeySorted | js/tracker.js:267-272 | the reference stable order is ordered by key |
| StableSort.ByKeyKeepsClasses | js/tracker.js:267-272 | within each key, the reference order keeps the elements in their input order (stability) |
| StableSort.SortedIsByKey | js/tracker.js:267-272 | a sequence already ordered by key is left unchanged by the reference order |
| StableSort.StableSortIsUnique | js/tracker.js:267-272 | any sequence that is ordered by key and keeps each key's elements in input order is the reference order, so a stable sort has exactly one result |
| StableSort.SwapKeepsClasses | js/tracker.js:267-272 | swapping two neighbours with different keys keeps each key's elements in order |
| StableSort.ByKeyLength | js/tracker.js:267-272 | the reference order has the input's length |
| StableSort.ByKeyOfFour | js/tracker.js:267-272 | four elements with keys 2, 4, 1, 4 come out as the third, the first, the second, then the fourth |
| StableSort.SortByKey | js/tracker.js:267-272 | the in-place sort leaves the array ordered by key, with each key's elements in their old order, equal to the reference order of its old contents |
| Severity.RankOf | js/tracker.js:268-270 | every alert's rank lies between 1 and 4 |
| Severity.RankTable | js/tracker.js:268-270 | Severe ranks 1, Moderate 2, Minor 3; any other severity ranks 4, Extreme and an absent severity included |
| Severity.RanksInRange | js/tracker.js:268-270 | all ranks of a list lie in the range the sort handles |
| Severity.RankedAlertsIsStableSort | js/tracker.js:267-272 | the shown order is a permutation of the kept alerts, ordered by rank, and stable within each rank |
| Severity.ExtremeRanksLast | js/tracker.js:268-271 | Moderate, Extreme, Severe, Extreme are shown as Severe, Moderate, then both Extreme alerts in their old order |
| Severity.SortBySeverity | js/tracker.js:267-272 | sorting in place leaves the array ordered by rank, stable, and equal to the ranked order of its old contents |
| Render.SplitAround | js/tracker.js:299 | splitting at a separator splits the text on each side of it independently |
| Render.AreaSummaryFewParts | js/tracker.js:299-308 | an area text with at most two `;` is shown whole, with each `;` as ", " and no ellipsis |
| Render.AreaSummaryManyParts | js/tracker.js:299-308 | an area text with a third `;` is shown up to that `;`, with the earlier `;` as ", ", then "..." |
| Render.RenderCards | js/tracker.js:294-321 | one card per alert for the first min(n, 20) alerts, in order |
| AlertCycle.PropertiesOf | js/tracker.js:251 | the properties of the features, one per feature and in order |
| AlertCycle.CycleEndStates | js/tracker.js:233-339 | a cycle ends as the error panel, "No Active Winter Alerts" or the alert list; the timer is re-armed exactly when the end state is not "No Active Winter Alerts" |
| AlertCycle.FailureIsRetryable | js/tracker.js:243-339 | a failed request, or a feature without properties, gives the error panel and re-arms the timer |
| AlertCycle.MissingFeaturesMeansNoAlerts | js/tracker.js:246-284 | a document without `features` behaves like an empty one: no alerts, and the timer is not re-armed |
| AlertCycle.FailureExactly | js/tracker.js:233-339 | the error panel is shown exactly when the request failed or some feature had no properties |
| AlertCycle.EmptyExactly | js/tracker.js:249-284 | when nothing failed, "No Active Winter Alerts" is shown exactly when no alert passes the filter |
| AlertCycle.RenderSelection | js/tracker.js:286-321 | in the alert list, the header counts every kept alert, and the cards are those of the first min(n, 20) alerts in severity order |
| AlertCycle.AlertsPanel.constructor | js/tracker.js:198-200 | a new panel shows its placeholder, has no display history, and has no timer armed |
| AlertCycle.AlertsPanel.Show | js/tracker.js:234-329 | a display assignment replaces the display and appends it to the history |
| AlertCycle.AlertsPanel.FetchWeatherAlerts | js/tracker.js:198-340 | without a container nothing changes; otherwise the display history gains the spinner and then the end state of `Cycle`, and the timer flag is `Cycle`'s |
| AlertCycle.SortAndRender | js/tracker.js:267-324 | sorting a copy in place and rendering it gives "No Active Winter Alerts" for no alerts, and otherwise the count plus the cards of the ranked alerts |
| ZipLookup.ValidationBeforeLookup | js/tracker.js:357-363 | the validation message is shown exactly when the trimmed input is not five ASCII digits, and then neither table is consulted |
| ZipLookup.Precedence | js/tracker.js:405-486 | a valid ZIP resolves to its exact entry if it has one, else to its prefix entry, else to the weather.gov fallback |
| ZipLookup.ExactIgnoresPrefixTable | js/tracker.js:446 | when the ZIP has an exact entry, the prefix table does not affect the result |
| ZipLookup.ZipKeysWellFormed | js/tracker.js:366-402 | every key of the exact table is five digits, so every exact entry can be reached |
| ZipLookup.PrefixKeysWellFormed | js/tracker.js:405-444 | every key of the prefix table has the three characters of `zip.substring(0, 3)` |
| ZipLookup.PrefixEntriesHaveNoWind | js/tracker.js:408-444 | no prefix entry has a wind figure |
| ZipLookup.PrefixHitShowsDefaultWind | js/tracker.js:446-467 | an answer that comes from the prefix table always shows the '40+ mph' default wind |
| ZipLookup.BostonExample | js/tracker.js:366-475 | 02108 shows Boston's own 12-18" and 65 mph, even though prefix 021 holds 6-12" |
| ZipLookup.UnknownZipExample | js/tracker.js:446-486 | 99999 matches no entry and no prefix, so it falls back to weather.gov |
| ZipLookup.PaddedZipExample | js/tracker.js:357 | " 02108\n" resolves like "02108" |
| ZipLookup.LongZipExample | js/tracker.js:359-363 | a six-digit input gets the validation message |
| ZipLookup.SameTrimSameResult | js/tracker.js:357 | two inputs with the same trim resolve alike |
| Countdown.Countdown | js/tracker.js:165-170 | the display is not updated exactly for a negative difference, so the previous text stays; otherwise minutes are at most 59, and the reading is the largest hours-and-minutes value not past the difference |
| Countdown.CountdownUnique | js/tracker.js:169-170 | exactly one hours-and-minutes reading fits a difference, and it is the one shown |
| Countdown.OneMinuteLater | js/tracker.js:169-179 | one interval tick later the difference is a minute smaller: the reading drops by one minute, borrowing an hour at 0, and the display is no longer updated once less than a minute was left |

## Left out

- `initMap`, `initIntensityGauge`, the navigation dropdown listeners and the `DOMContentLoaded` start-up: page decoration with no logic of its own that the model could state.
- `scripts/monitor_storm.js` and `fix_titles.js`: separate tools, not part of the page's logic.
- HTML markup, colours, icons and the plural "s" of the header: presentation only. A card holds the values it shows, and `Display` names the panel's state.
- The HTTP request and JSON parsing. A `FetchResult` parameter stands for their outcome. A rejected request, a status that is not ok, a body that is not JSON, and a JSON `null` body (whose `.features` throws) all become `FetchFailed`. A `features` value that is present but is not an array is not modelled.
- Property values are strings or absent. A JSON `null` property is treated like an absent one. Numbers or objects in those places are not modelled.
- `Alerts.StateName`: a code that names an `Object.prototype` property, such as "toString" or "__proto__", finds that inherited property in the `states` object, and `getStateName` then returns a function or an object. The model returns the code itself. Only the sixteen target codes are ever passed, so the filter is unaffected.
- Severity strings that name `Object.prototype` members, such as "constructor", make `severityOrder[s]` a function and the comparator `NaN`. These are not modelled: every string outside the table ranks 4.
- `JsStrings.ToLower`: lower-cases the ASCII letters only. Full Unicode case mapping, which can change the length of a string, is not modelled. This does not change which alerts are kept. The only non-ASCII characters that lower-case to ASCII letters are U+212A (to "k") and U+0130 (to "i" followed by a combining dot). No winter keyword contains "k", and in every keyword an "i" is followed by a letter, never by a combining dot.
- Times and dates: `toLocaleTimeString`, `toLocaleString`, the `new Date(expires)` formatting and the countdown's target date. A card keeps the raw `expires` text, and the countdown takes the millisecond difference as its parameter.
- `Countdown.Countdown`: works on whole milliseconds, as `getTime()` returns them, and not on floating-point values in general.
- Scheduling: `setTimeout`, `setInterval` and the Retry button are not run. `AlertsPanel.rescheduled` records whether the last cycle re-armed the timer. Overlapping cycles, started by Retry while a timer is pending, are not modelled.
- `console.log` and `console.error`: logging only.
- The "Last updated" timestamp of the ZIP result, and the result element's `style.display`, are not modelled.
- Strings are Dafny strings, sequences of Unicode scalar values, while JavaScript strings are sequences of UTF-16 code units. A lone surrogate, such as a JSON `\uD800` in `areaDesc` or `event`, cannot be represented. On well-formed text, `includes`, `split(';')`, `trim` and the digit test give the same answers under either view.
