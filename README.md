# Discourse trust-level progress: a verified model of the decision layer

The repository holds three userscripts that show how far a Discourse user
is from the next trust level:

- `progress-widget.user.js`, a floating widget;
- `progress.js`, which colours the stats on the profile summary page;
- `progress.user.js`, which does the same but also reads the
  `directory_items` endpoint.

Most of each script is DOM, CSS and `fetch` plumbing. This project models
the deterministic logic inside that plumbing and proves properties of it:

- the requirement table `TL_REQUIREMENTS` and the in-place rewrite of its
  two dynamic tier-2 thresholds;
- the three ways the scripts pick a tier for a trust level;
- the reconciliation of the summary and directory stats;
- the met / not-met evaluation, the met count, the percentage and the
  status message;
- the path parsers: API base, user name and the summary-route test.

Modules, one per file:

- `JsValues` (`js_values.dfy`): how a property read behaves in JavaScript.
  A stats object is a `map<string, Option<int>>`. An absent key reads as
  `undefined`, `None` is `null`. `Number(null)` is 0, and `null >= n`
  compares 0 with n. `undefined` becomes NaN and never compares true.
- `Api` (`api.dfy`): the response shapes. `Response` is either a parsed
  body or a rejected fetch.
- `Requirements` (`requirements.dfy`): a tier is an ordered list of
  `key: need` properties, because `Object.entries` order decides item order.
  `SetNeed` is JavaScript property assignment. The class
  `RequirementTable` is the module-global mutable table.
- `Paths` (`paths.dfy`): the three regular expressions. The API base
  (`apiBase` / `getApiBase`) appears in all three files
  (`progress-widget.user.js:36-40`, `progress.js:24-30`,
  `progress.user.js:18-23`). The user name and the `/u/…/summary` route
  test appear only in `progress.js` and `progress.user.js`.
- `Widget`, `Tracker`, `DirTracker` (`widget.dfy`, `tracker.dfy`,
  `dir_tracker.dfy`): the `refresh` logic of each of the three scripts.

Each `refresh` is a method. It changes the table only through
`RequirementTable.ApplyDynamicThresholds`, and its `ensures` give the
outcome and the new table in terms of the pure functions. Those functions
carry the lemmas.

Behaviour of the code worth knowing, each stated by a contract:

- When no directory item matches the user name, `progress.user.js` uses
  the first item, which shows another user's numbers (third `ensures` of
  `DirTracker.SelectItem`).
- An empty directory list is "user not found" and aborts the whole
  refresh (`DirTracker.Refresh`).
- The widget stops at level 3 or more; `progress.js` measures levels of 3
  or more against tier 0; `progress.user.js` measures them against tier 2
  (`Widget.Refresh`, `Requirements.TierOrDefault`, `DirTracker.TierIndex`).

## Model

| member | source | states |
|---|---|---|
| JsValues.AtLeastGet | progress.js:125 | `Number(stats[k]) >= need` holds iff the key is present and its value, with null read as 0, reaches `need`; `(stats[k] ?? 0) >= need` reads absent as 0 |
| Api.FirstUserLevel | progress.js:148 | with no user entry the level is 0, otherwise it is the first user's `trust_level` (possibly missing) |
| Api.SummaryTrustLevel | progress.user.js:102-105 | the summary level is the first user's level, and 0 when there is no user or no level |
| Requirements.DefaultsWellFormed | progress-widget.user.js:17-24 | both default tables have tiers 0, 1 and 2, none empty, no key twice, and both dynamic keys in tier 2 |
| Requirements.SetNeed | progress-widget.user.js:110-111 | the assignment `t[k] = v` always reads back `v`; an existing key keeps the tier's length; a new key is appended at the end and nothing else changes (SetNeedExisting adds positions) |
| Requirements.SetNeedExisting | progress-widget.user.js:110-111 | assigning an existing property keeps the tier's length and order and replaces exactly that property |
| Requirements.SetNeedKeys | progress.js:152-159 | after assigning an existing key the keys are unchanged, still distinct, and the key reads back the new value |
| Requirements.DynamicThreshold | progress.js:152-159 | the result is the cap when count ≥ 4·cap and otherwise floor(count/4); it lies in [0, cap] for non-negative inputs and is 0 for a zero count |
| Requirements.WithDynamicThresholds | progress.js:151-160 | the table keeps its levels and every tier other than 2; DynamicThresholdsUpdate states the new tier 2 entry by entry |
| Requirements.DynamicThresholdsUpdate | progress-widget.user.js:109-112 | the rewrite sets tier-2 `posts_read_count` and `topics_entered` to the capped thresholds (caps 20000 and 500); tiers 0 and 1, tier 2's key order and all its other properties are unchanged; the table stays well formed |
| Requirements.DynamicThresholdsLastWins | progress.user.js:149-154 | rewriting twice equals the last rewrite alone: thresholds of an earlier refresh never survive, and the rewrite is idempotent |
| Requirements.TierOrDefault | progress.js:111 | a level with a tier gets that tier; a missing level or one without a tier gets tier 0 |
| Requirements.RequirementTable.constructor | progress.user.js:33-53 | the table starts as the given well-formed defaults |
| Requirements.RequirementTable.ApplyDynamicThresholds | progress.js:151-160 | the two in-place assignments leave the table equal to `WithDynamicThresholds` of the old table, and well formed |
| Paths.Run | progress.js:27 | the greedy run is a prefix with no stop character, ending at a stop character or at the end |
| Paths.ApiBase | progress.js:24-30 | the base always begins with the origin, and when it differs it is `origin/seg` for a `/seg/u/` prefix of the path; ApiBaseSubfolder and ApiBaseOrigin give both directions |
| Paths.ApiBaseSubfolder | progress.js:24-30 | a path starting `/seg/u/` (seg non-empty, slash-free) gives `origin + "/" + seg` |
| Paths.ApiBaseOrigin | progress-widget.user.js:36-40 | the base is the bare origin iff no such `seg` exists |
| Paths.ApiBaseFolderNamedU | progress.user.js:18-23 | `/u/u/...` is taken as a forum in sub-folder `u` |
| Paths.ApiBaseSubfolderExample | progress.js:26-28 | `/forum/u/alice/summary` gives base `origin/forum` |
| Paths.ApiBaseRootExample | progress.js:27-29 | `/u/alice/summary` gives the bare origin |
| Paths.UsernameMatchSpec | progress.user.js:26-29 | the scan from an index returns the first index holding `/u/<seg>/` and its `seg`, or none when there is no such index |
| Paths.Username | progress.js:36-39 | a found name is non-empty and holds no `/`, `?` or `#`; UsernameSpec adds that it is the leftmost one and that null means there is none |
| Paths.UsernameSpec | progress.js:36-39 | `getUsername` returns the segment of the leftmost `/u/<seg>/` (seg non-empty, without `/`, `?`, `#`), and null iff there is none |
| Paths.UsernameExample | progress.js:37 | `/u/alice/summary` yields `alice` |
| Paths.UsernameNeedsTrailingSlash | progress.js:37-38 | `/u/alice` without a trailing slash yields null |
| Paths.RouteFromSpec | progress.user.js:167 | the scan from an index succeeds iff `/u/<seg>/summary` occurs at or after it |
| Paths.IsSummaryRoute | progress.js:184-186 | the route test of the history fallback; IsSummaryRouteSpec states it is true iff `/u/<seg>/summary` occurs |
| Paths.IsSummaryRouteSpec | progress.js:178 | a refresh is triggered iff the URL contains `/u/<seg>/summary` with seg non-empty and slash-free (the same test as line 185) |
| Widget.Items | progress-widget.user.js:115-121 | one item per tier property, in table order, with its key and need; a key other than `time_read` has current value `stats[k] ?? 0` and is met iff that value ≥ need; `time_read` keeps the raw value (undefined, null or a number) and is met iff present and its value (null as 0) ≥ need |
| Widget.CountOk | progress-widget.user.js:123 | the met count is the number of items whose `ok` is true (counted over the item list); hence at most the item count, equal to it iff every item is met, and 0 iff none is |
| Widget.Percent | progress-widget.user.js:124 | the percentage is 100·k/n rounded half up (NaN, here None, for n = 0); it lies in [0, 100] and, for fewer than 200 items, is 100 iff every item is met |
| Widget.StatusOf | progress-widget.user.js:143-145 | the status is congratulations on level tl+1 iff the met count equals the item count, otherwise the number missing |
| Widget.Message | progress-widget.user.js:143-145 | the footer text of a status; MessageKind states it starts "Congrats!" iff it is the congratulation, NaturalTextRoundTrip that its number reads back, NeedOneMessage one concrete text |
| Widget.NaturalTextRoundTrip | progress-widget.user.js:144-145 | the decimal text of a number in the message is non-empty digits that read back as the number |
| Widget.MessageKind | progress-widget.user.js:143-145 | the message starts "Congrats!" iff it is the congratulation |
| Widget.Evaluate | progress-widget.user.js:115-124 | the report's items, met count, percentage and status agree: the percentage is the rounded share `Percent(okCnt, n)` of met items, congratulation iff all met, percentage 100 iff all met, missing = items − met |
| Widget.MissingTimeReadNotMet | progress-widget.user.js:117-120 | a missing or null `time_read` against a positive need is never met, so the message asks for more targets |
| Widget.DefaultTimeReadPositive | progress-widget.user.js:18-21 | every `time_read` need in the widget's table is positive |
| Widget.TierZeroExample | progress-widget.user.js:115-124 | 5 topics, 10 posts and 700 seconds at level 0 give 2 of 3 met, 67 % and one target missing |
| Widget.NeedOneMessage | progress-widget.user.js:145 | one missing target reads "Need 1 more target(s)." |
| Widget.Refresh | progress-widget.user.js:93-148 | not logged in or a failed fetch: an error and no table change; level ≥ 3: stop, no change; level exactly 2 alone rewrites the thresholds; otherwise the report of the level's tier, or an error when the level has no tier |
| Tracker.PaintOf | progress.js:117-125 | the element shows the current value and the need, and is green iff the stat is present and `Number(current) >= need`: absent is never green, null counts as 0 |
| Tracker.PaintStats | progress.js:113 | exactly the target tier's keys are painted, in its order |
| Tracker.Refresh | progress.js:136-166 | no user name or a failed fetch: nothing painted, table unchanged; level exactly 2 alone rewrites the thresholds; the painted list is the target tier (tier 0 for levels without one) evaluated on the summary stats |
| DirTracker.FindByName | progress.user.js:82 | `find` returns the first index whose user name matches, or none when no item matches |
| DirTracker.SelectItem | progress.user.js:82-84 | "user not found" iff the list is empty; a matching item is the first match; with no match the first item is used |
| DirTracker.DirRecordOf | progress.user.js:85-94 | the directory record has the eight keys in source order; `post_count` becomes `posts_count`, `posts_read` becomes `posts_read_count`; `time_read` is null; the level is the item user's or 0 |
| DirTracker.EffectiveTrustLevelFromItem | progress.user.js:144 | the effective level is the directory item's, 0 when the item has no user, whatever the summary says |
| DirTracker.EffectiveTrustLevel | progress.user.js:144 | `dir.trust_level ?? summary level`; EffectiveTrustLevelFromItem states that for a directory record the directory's level always wins |
| DirTracker.MergeStats | progress.user.js:139-142 | copying the summary and assigning each overriding directory entry in order gives `Merged(summary, dir)` |
| DirTracker.Merged | progress.user.js:139-142 | the reference fold of the merge; MergedKeys, MergedKeeps, MergedOverrides, MergedAllNull and MergedRecord state its keys and values |
| DirTracker.MergedKeys | progress.user.js:140-141 | merged keys are the summary keys plus the keys of non-null, non-`trust_level` directory entries |
| DirTracker.MergedKeeps | progress.user.js:139 | a summary value that no directory entry overrides is kept |
| DirTracker.MergedOverrides | progress.user.js:141 | the last non-null directory entry for a key (other than `trust_level`) gives its value |
| DirTracker.MergedAllNull | progress.user.js:140-142 | when no directory entry other than `trust_level` is non-null, the merged stats equal the summary stats |
| DirTracker.MergedNullCounters | progress.user.js:85-94 | a directory item whose six counters are all null yields a record (with a numeric `trust_level`) that leaves the summary stats unchanged |
| DirTracker.MergedRecord | progress.user.js:92 | for a real directory record, `time_read` and `trust_level` stay as in the summary, every summary key is kept, and each non-null counter overrides |
| DirTracker.TierIndex | progress.user.js:144-146 | levels ≥ 3 use tier 2 (maintain mode), lower levels their own; the index is 2 iff the level is ≥ 2 |
| DirTracker.PaintIfPresent | progress.user.js:112-122 | one target property: nothing for a null or undefined stat, otherwise one element, green iff `Number(stat) >= Number(need)` |
| DirTracker.DirPaints | progress.user.js:111-123 | the `forEach` over the target's keys as a fold; DirPaintsSpec states which keys are painted and with which colour |
| DirTracker.DirPaintsSpec | progress.user.js:112-122 | null or undefined stats are skipped; every other target key is painted once it has a value, green iff value ≥ target; every painted element comes from a target property |
| DirTracker.PaintStats | progress.user.js:109-126 | the loop paints `DirPaints` of the target (tier 0 for an index without a tier) |
| DirTracker.Refresh | progress.user.js:128-160 | no user name, a failed fetch or an empty directory: nothing painted, table unchanged; the thresholds are rewritten iff the tier index is 2; the painted list is the merged stats against the chosen tier |

## Left out

- DOM work: element lookup, `insertAdjacentHTML`, colours, hover listeners,
  dark mode and the CSS block. A paint or a report is the value that would
  be written.
- Display text: minutes and seconds strings, labels, the `→ TL…` badge,
  the `L…` level and the `okCnt/total` counter. None of them affects
  met / not met. The widget's footer message is modelled.
- `getCurrentUsername` and the widget's start-up check. They use a meta
  tag and a session fetch, so the user name is an input (None: not logged
  in).
- `fetch`, `Promise.all`, `.json()` and the HTTP status checks are I/O.
  Each fetch is a `Response` input; any rejection aborts the refresh.
  `progress.js` and `progress.user.js` reject on an error status.
- Widget.Refresh: `refresh` does not check `r.ok` on its two fetches
  (`getCurrentUsername` does). An error body from `about.json` is parsed
  and, at levels 0 and 1, the report still appears; an error body from
  `summary.json` has no `users` or `user_summary`, so reading a stat throws
  a TypeError that the `catch` shows as an error. The model has no such
  response: a `Rejected` fetch aborts.
- `elmGetter` is an external library. It waits for elements and ignores a
  missing selector, so painting is modelled as the list of elements it
  would write.
- The single-page-application hooks (`urlchange`, the patched `history`
  methods, `popstate`). Only the route test they apply is modelled.
- Overlapping asynchronous refreshes are not modelled. Each refresh runs as
  one atomic step on the table.
- JSON shapes the code does not guard are assumed present: the model has
  no state for a missing `about.stats`, `directory_items`, or a missing
  `user_summary` in the widget and in `progress.js`. The widget's `catch`
  would report the resulting TypeError; in `progress.js` it is raised
  inside the `elmGetter` callback and swallowed by its `.catch`. In
  `progress.user.js` a missing `user_summary` spreads to `{}`, which is
  the empty `Record` and is covered. Counters are integers or null; non-numeric strings and NaN
  site counts are not modelled.
- Widget.Percent: uses exact half-up rounding of 100·k/n, while the source
  uses double arithmetic. The two agree for the widget's table sizes (3, 6
  and 8 items), because no quotient comes close to a half except exact
  binary halves. That agreement is not proved.
- Text is sequences of `char`; the regular expressions run over UTF-16
  code units, and the model ignores that difference.
