# AI safety incident dashboard — a Dafny model of its incident logic

The dashboard keeps an in-memory list of reported AI safety incidents. Each
incident has an id, a title, a description, a severity, a reported-at time and
optional tags. This project models what the dashboard computes from that
list, without the rendering:

- **the store** (`App`): `addIncident` appends to the list;
- **the list view's pipeline** (`App`): the severity, tag and search tests
  combined with AND, then the stable sort by reported-at time ("Newest First"
  or any other order, which is oldest first);
- **the tag registry** (`App.AllTags`): the distinct tags in first-seen order;
- **the dashboard's statistics** (`Dashboard`): counts per severity, the
  30-day count, the most recent time, and the top five tags by frequency;
- **the six-month series** (`TimeSeries`): `generateTimeSeriesData`, once
  as the code computes it and once as it is meant to work (see Findings);
- **the report form's submit handler** (`IncidentForm`): validation order,
  the trimmed new incident, and the form reset;
- **the tag picker** (`TagsInput`): `addTag`, `removeTag` and the dropdown
  suggestions;
- **the list view's own state** (`IncidentList`): `toggleExpand` and
  `getSeverityColor`;
- **the tag tally on a plain object** (`ObjectTally`): the tag distribution
  as the code computes it on `{}`, where tags that name members of
  `Object.prototype` behave differently (see Findings).

Underneath are three support modules:

- `Seqs`: JavaScript's array `filter`, `Array.from(new Set(...))` and the
  stable `sort` with a numeric comparator, modelled on sequences.
- `Text`: `trim` with the ECMAScript whitespace set, ASCII `toLowerCase`, and
  `includes`.
- `Optional`: the optional tag list.

React state becomes plain values. Each handler is a function from the old
state to the new one. Clock readings (`Date.now()`, `new Date()`) are
parameters. Reported-at times are integers in milliseconds. The calendar
month a time falls in depends on the time zone, so the time series takes
that reading as a parameter `monthOf`.

## Model

| member | source | states |
|---|---|---|
| App.AddIncident | src/App.tsx:84-85 | the store grows by exactly one; the old incidents are an unchanged prefix and the new one is last |
| App.FilterIncidents | src/App.tsx:90-104 | the result keeps the store's order (a subsequence); an incident is in it exactly when it is in the store and passes all three tests; a kept incident keeps its number of copies and a dropped one has none |
| App.FilterIsConjunction | src/App.tsx:90-104 | the AND-combined filter equals the severity, tag and search filters applied one after another |
| App.SeverityMatches | src/App.tsx:92 | the severity test: "All" passes every incident, any other value only incidents of exactly that severity (stated by App.SeverityFilterSemantics) |
| App.TagsMatch | src/App.tsx:95-96 | the tag test: the empty selection passes everything, otherwise every selected tag must be in the incident's tag list, an absent list failing (stated by App.TagsMatchIff) |
| App.SearchMatches | src/App.tsx:99-101 | the search test: the empty query passes everything, otherwise the lower-cased title or description must contain the lower-cased query (stated by App.SearchSemantics) |
| App.SeverityFilterSemantics | src/App.tsx:92 | with "All" the severity test drops nothing; with any other value every result has exactly that severity |
| App.TagsMatchIff | src/App.tsx:95-96 | an incident passes the tag test exactly when it carries every selected tag; so an untagged incident fails any non-empty selection, and the empty selection passes everything |
| App.MoreTagsNarrow | src/App.tsx:95-96 | selecting one more tag gives a subsequence of the previous result |
| App.SearchSemantics | src/App.tsx:99-101 | the search ignores the query's case; the empty-query shortcut agrees with substring search, since every string contains "" |
| App.AddIncidentFiltered | src/App.tsx:84-104 | after an add, the filtered list is the old filtered list plus the new incident exactly when it passes |
| App.SortIncidents | src/App.tsx:107-111 | the sorted list is a permutation of its input; "Newest First" gives non-increasing times and any other order non-decreasing times |
| App.SortIncidentsStable | src/App.tsx:107-111 | incidents with equal times keep their input order |
| App.SortedStrictly | src/App.tsx:107-111 | with distinct times the sorted list strictly increases in the chosen order's key |
| App.SortOrdersAreReverses | src/App.tsx:107-111 | with distinct times, "Newest First" is exactly "Oldest First" reversed |
| App.VisibleIncidents | src/App.tsx:90-111 | the shown list holds exactly the matching incidents, as a permutation of the filtered list, ordered by time as requested |
| App.FlatTags | src/App.tsx:115 | the flattened list holds exactly the tags of some incident; an absent tag list adds nothing |
| App.AllTags | src/App.tsx:114-116 | the registry has no duplicates, holds exactly the tags some incident carries, and lists them in order of first occurrence |
| App.AddIncidentRegistry | src/App.tsx:114-116 | adding an incident keeps the registry's entries in place at the front, and registers exactly the new incident's tags besides |
| Seqs.Filter | src/App.tsx:90 | `filter` keeps exactly the elements that pass and never lengthens the list |
| Seqs.FilterIsSubseq | src/App.tsx:90 | `filter` keeps the survivors in their original order |
| Seqs.Dedup | src/App.tsx:114-116 | the set-based de-duplication yields a duplicate-free list with the same members |
| Seqs.DedupFirstSeen | src/App.tsx:114-116 | the de-duplicated list orders elements by their first position in the input |
| Seqs.DedupAppend | src/App.tsx:114-116 | de-duplicating a longer list extends the de-duplication of its prefix |
| Seqs.SortBy | src/App.tsx:107-111 | the sort yields a permutation whose keys never decrease |
| Seqs.SortByStable | src/App.tsx:107-111 | the sort is stable: for every key, the elements with that key keep their relative order |
| Seqs.StrictlySortedUnique | src/App.tsx:107-111 | two permutations of each other that both strictly increase in a key are equal |
| Dashboard.SeverityCount | src/Dashboard.tsx:17-19 | a level's count never exceeds the total, and is zero exactly when no incident has that severity |
| Dashboard.SeverityCountAppend | src/Dashboard.tsx:17-19 | the count of a level over two lists joined is the sum of the counts over each |
| Dashboard.SeverityCountSingle | src/Dashboard.tsx:17-19 | a single incident counts once exactly when its severity is the level; with the previous row this fixes the count on every list |
| Dashboard.SeverityCountsPartition | src/Dashboard.tsx:16-19 | low + medium + high never exceeds the total, and equals it when every severity is one of the three levels |
| Dashboard.Last30Days | src/Dashboard.tsx:22-27 | the 30-day count never exceeds the total, and equals it exactly when every incident falls in the window |
| Dashboard.Last30DaysAppend | src/Dashboard.tsx:22-27 | the count of two lists joined is the sum of their counts |
| Dashboard.Last30DaysSingle | src/Dashboard.tsx:22-27 | one incident counts 1 when reported at or after 30 days before now and 0 otherwise; with the previous row this fixes the count of every list |
| Dashboard.MaxReportedAt | src/Dashboard.tsx:31 | the maximum is at least every incident's time and is the time of some incident |
| Dashboard.MostRecent | src/Dashboard.tsx:30-32 | the most recent time is absent exactly for the empty list; otherwise it is the latest time and belongs to an incident |
| Dashboard.Summarize | src/Dashboard.tsx:16-32 | the stats cards: the total is the list's length; the high, medium and low cards are the counts of those levels, the 30-day card is the 30-day count, and the most recent time is that of the latest incident; the three level counts add up to at most the total, and the most recent time is absent exactly for the empty list |
| Dashboard.TallyTags | src/Dashboard.tsx:55-57 | the inner loop adds each tag's number of occurrences in the list to its count and defines exactly the tags seen |
| Dashboard.TallyIncidents | src/Dashboard.tsx:53-59 | the outer loop adds each tag's occurrences over all incidents; incidents without tags add nothing |
| Dashboard.TagCounts | src/Dashboard.tsx:51-59 | the tally has an entry exactly for each tag in use, holding its number of occurrences |
| Dashboard.Entries | src/Dashboard.tsx:61-62 | `Object.entries(...).map(...)` gives one entry per name, in the order of the names, with the tally's count |
| Dashboard.TagEntriesFacts | src/Dashboard.tsx:51-62 | the entries list every tag in use once, each with its number of occurrences |
| Dashboard.SortedTagEntries | src/Dashboard.tsx:63 | the entries sorted by descending count with a stable sort (stated by Dashboard.SortedTagEntriesMembers and Dashboard.SortedTagEntriesDescending) |
| Dashboard.SortedTagEntriesMembers | src/Dashboard.tsx:61-63 | sorting keeps exactly those entries and repeats no name |
| Dashboard.SortedTagEntriesDescending | src/Dashboard.tsx:63 | after the comparator `b.value - a.value` the counts never increase |
| Dashboard.TagDistribution | src/Dashboard.tsx:50-65 | at most five entries, five unless fewer tags are in use; counts non-increasing; every entry is a tag in use with its true count; no name twice |
| Dashboard.TagDistributionIsTop | src/Dashboard.tsx:61-64 | a tag in use that missed the cut occurs no more often than any tag that made it |
| Dashboard.TagDistributionHeadIsMostCommon | src/Dashboard.tsx:200-202 | the tag the insights panel names "most common" occurs at least as often as every tag |
| TimeSeries.BucketMonth | src/Dashboard.tsx:250-252 | the bucket meant for iteration `i` is the month `i` months before the current one |
| TimeSeries.BucketMonthAsWritten | src/Dashboard.tsx:251-252 | `setMonth` on a date holding today's day gives the intended month when that day exists in it, and the month after otherwise |
| TimeSeries.BucketMonthsConsecutive | src/Dashboard.tsx:250-252 | the intended buckets are six consecutive months ending at the current one, hence distinct |
| TimeSeries.BucketMonthsAgreeEarly | src/Dashboard.tsx:250-252 | up to the 28th of the month the buckets as written are the intended ones |
| TimeSeries.MonthName | src/Dashboard.tsx:253 | a month's label is one of the twelve three-letter short names |
| TimeSeries.MonthNameDistinguishes | src/Dashboard.tsx:253 | two months share a label exactly when they are the same month of the year |
| TimeSeries.LabelIndexInvertsMonthName | src/Dashboard.tsx:253 | reading a label back gives the month it was printed for |
| TimeSeries.CountInMonth | src/Dashboard.tsx:256-260 | a month's count never exceeds the number of incidents, and is zero exactly when no incident falls in that month and year |
| TimeSeries.Points | src/Dashboard.tsx:253-262 | one point per month, labelled with its short name and counting the incidents in that month and year |
| TimeSeries.Series | src/Dashboard.tsx:239-277 | exactly six points; the demo series for five incidents or fewer; otherwise point `k` counts the month `5 - k` months before the current one |
| TimeSeries.SeriesAsWritten | src/Dashboard.tsx:239-277 | exactly six points; the demo series for five incidents or fewer; otherwise point `k` counts the month `setMonth` selects |
| TimeSeries.SeriesAgreesEarly | src/Dashboard.tsx:250-263 | up to the 28th of the month the series as written is the intended series |
| TimeSeries.SumOverDistinctMonths | src/Dashboard.tsx:256-260 | over distinct months, the bucket counts add up to the number of incidents in any of those months |
| TimeSeries.SeriesTotalBounded | src/Dashboard.tsx:245-263 | with more than five incidents the six intended counts add up to at most the number of incidents |
| TimeSeries.CountsInOneMonth | src/Dashboard.tsx:256-260 | when every incident falls in one month, that month's bucket counts all of them and every other bucket none |
| TimeSeries.BucketMonthsAsWrittenRepeat | src/Dashboard.tsx:250-252 | on 31 March 2025 the buckets as written are Oct, Dec, Dec, Jan, Mar, Mar: November and February are skipped |
| TimeSeries.SeriesAsWrittenOvercounts | src/Dashboard.tsx:245-265 | six incidents from March 2025, seen on 31 March 2025: the series as written counts twelve |
| TimeSeries.SeriesCountsOnce | src/Dashboard.tsx:245-265 | the same six incidents on the same day: the intended series counts six |
| IncidentForm.Submit | src/IncidentForm.tsx:22-56 | a blank title shows the title error and changes nothing else; else a blank description shows the description error; else exactly one incident is appended with the given id and time, the trimmed non-empty title and description, the chosen severity and the selected tags (absent when none), and the form resets to "", "", "Low", [] with the error cleared |
| IncidentForm.SubmitAcceptsIffNotBlank | src/IncidentForm.tsx:26-37 | an incident is added exactly when neither title nor description is blank; otherwise the store is unchanged and an error shows |
| IncidentForm.SubmittedWellFormed | src/IncidentForm.tsx:39-46 | the incident a submission creates has a non-empty trimmed title and description and no empty tag list |
| IncidentForm.SubmitKeepsWellFormed | src/IncidentForm.tsx:39-48 | if every incident in the store has that shape, it still does after a submission |
| IncidentForm.SubmitAgainAfterSuccess | src/IncidentForm.tsx:51-55 | the reset form is blank, so submitting it again adds nothing and shows the title error |
| Text.Trim | src/IncidentForm.tsx:41-42 | `trim` never lengthens a string, and neither end of its result is whitespace |
| Text.TrimSlice | src/IncidentForm.tsx:41-42 | `trim` returns the slice between a blank prefix and a blank suffix, and neither end of it is whitespace |
| Text.TrimEmptyIffBlank | src/IncidentForm.tsx:26 | `!s.trim()` holds exactly when `s` is empty or all whitespace |
| Text.TrimFixedPoint | src/IncidentForm.tsx:41-42 | `trim` leaves a string unchanged exactly when neither end is whitespace |
| Text.TrimIdempotent | src/IncidentForm.tsx:41-42 | trimming twice is trimming once |
| Text.ToLower | src/App.tsx:100-101 | `toLowerCase` keeps the length and folds each character |
| Text.Contains | src/App.tsx:100-101 | `includes`: the needle occurs at some position of the haystack (stated by Text.ContainsIffSlice) |
| Text.ContainsIffSlice | src/TagsInput.tsx:32 | `includes` holds exactly when some slice of the haystack equals the needle |
| Text.ContainsEmpty | src/TagsInput.tsx:32 | every string includes the empty string |
| TagsInput.AddTag | src/TagsInput.tsx:18-24 | a blank or already selected tag leaves the selection unchanged; any other is appended untrimmed; the input always clears and the dropdown closes; a duplicate-free selection stays duplicate-free |
| TagsInput.AddTagIdempotent | src/TagsInput.tsx:18-24 | adding the same tag twice selects it once |
| TagsInput.RemoveTag | src/TagsInput.tsx:26-28 | every copy of the tag leaves the selection, the rest keep their order, and the input and dropdown are untouched |
| TagsInput.AddThenRemove | src/TagsInput.tsx:18-28 | adding an unselected tag and then removing it restores the selection |
| TagsInput.FilteredTags | src/TagsInput.tsx:30-33 | the suggestions are a subsequence of the available tags, holding exactly those not selected whose lower-cased text contains the lower-cased input |
| TagsInput.FilteredTagsEmptyInput | src/TagsInput.tsx:30-33 | with empty input every unselected available tag is suggested, and all of them when nothing is selected |
| TagsInput.RemoveTagResuggests | src/TagsInput.tsx:26-33 | a selected tag is never suggested; once removed it is suggested again if it is available and matches the input |
| IncidentList.ToggleExpand | src/IncidentList.tsx:10-16 | an expanded id collapses with no copy left and the others kept in order; a collapsed id is appended; no other id changes; a duplicate-free list stays duplicate-free |
| IncidentList.ToggleTwice | src/IncidentList.tsx:10-16 | toggling twice restores every id's membership, and the list itself when the id was collapsed |
| IncidentList.SeverityColor | src/IncidentList.tsx:18-25 | the default badge is returned exactly for strings other than the three levels, and every result is one of the four class strings |
| IncidentList.SeverityColorDistinguishes | src/IncidentList.tsx:18-25 | the three levels get three different badges |
| ObjectTally.Increment | src/Dashboard.tsx:56 | one increment of `tagCounts[tag]` on `{}`: the `__proto__` accessor stores nothing, every other tag becomes a key and no other key changes; on a reachable tally a tag that names nothing inherited gets its count plus one |
| ObjectTally.TallyTagsAsWritten | src/Dashboard.tsx:55-57 | the inner loop defines exactly the tags seen other than `__proto__`, keeps the tally reachable, and adds each such tag's occurrences to its count |
| ObjectTally.TallyIncidentsAsWritten | src/Dashboard.tsx:53-59 | the outer loop does the same over all incidents' tags |
| ObjectTally.TagCountsAsWritten | src/Dashboard.tsx:51-59 | the tally on `{}` has a key for every tag in use except `__proto__`; an inherited method's name holds text, every other tag its number of occurrences |
| ObjectTally.TallyEntries | src/Dashboard.tsx:61-62 | one entry per own key of the tally, no name twice; every entry names a tag in use other than `__proto__` and carries the value stored for it: text for an inherited method's name, the occurrence count otherwise |
| ObjectTally.InsertByCompare | src/Dashboard.tsx:63 | the insertion step of the sort with the comparator as written keeps exactly the entries |
| ObjectTally.SortByCompare | src/Dashboard.tsx:63 | the sort with the comparator as written is a permutation of its input |
| ObjectTally.DistributionAsWritten | src/Dashboard.tsx:50-65 | the distribution as written has five entries, or one per own key of the tally when there are fewer; no name is listed twice, and each names a tag in use other than `__proto__` and carries the value stored for it |
| ObjectTally.TagCountsAgree | src/Dashboard.tsx:51-59 | when no tag names a member of `Object.prototype`, the tally on `{}` is the numeric tally of Dashboard.TagCounts |
| ObjectTally.InsertByCompareLift | src/Dashboard.tsx:63 | on numeric values the comparator as written inserts where the descending-count key does |
| ObjectTally.SortByCompareLift | src/Dashboard.tsx:63 | on numeric values the sort with the comparator as written is the stable sort by descending count |
| ObjectTally.DistributionAgrees | src/Dashboard.tsx:50-65 | when no tag names a member of `Object.prototype`, the distribution as written is Dashboard.TagDistribution entry for entry |
| ObjectTally.PrototypeNameLeads | src/Dashboard.tsx:51-64 | tags "toString", "Bias", "Bias": the distribution as written lists "toString" first, holding text, although it occurs once and "Bias" twice; Dashboard.TagDistribution lists "Bias" first |
| ObjectTally.ProtoTagDropped | src/Dashboard.tsx:51-62 | a lone "__proto__" tag: the distribution as written is empty, while Dashboard.TagDistribution lists the tag once |

## Left out

- Rendering, animation, icons, toasts, the tabs and the dark-mode toggle: they are presentation with nothing to state.
- The search bar and filter control components: they only set the filter state, which is a parameter here.
- `setShowForm(false)` in `addIncident` and the form's `onChange`, `onFocus` and `onBlur` handlers: these are UI state.
- `getSeverityIcon`: presentation only.
- The seed data loaded at start-up: the model works for any list.
- `Date` parsing: reported-at times are integers. An unparsable ISO string would give NaN in the comparator; that case is not modelled.
- Time zones: the month of a time is the `monthOf` parameter.
- Dashboard.Last30Days: the window is exactly 30 × 24 hours. `setDate(getDate() - 30)` works in local calendar days, which can differ by the length of a daylight-saving shift. "Now" is also read once: the code builds a fresh `new Date()` for every incident inside the filter (src/Dashboard.tsx:24), so a count taken as the clock passes a boundary could judge two incidents against two slightly different windows.
- TimeSeries.Series: "today" is read once. The code reads `new Date()` again in every iteration, so a run across midnight at a month's end could mix two days.
- TimeSeries.MonthName: English short month names. The code formats with the browser's default locale.
- Dashboard.TallyTags: counts on a map with no inherited keys. The code counts on `{}`, which differs for tags that name members of `Object.prototype`. That case is modelled separately by ObjectTally (see Findings).
- Dashboard.TallyIncidents: the same assumption as Dashboard.TallyTags; ObjectTally.TallyIncidentsAsWritten is the outer loop as written on `{}`.
- Dashboard.TagCounts: the same assumption as Dashboard.TallyTags; ObjectTally.TagCountsAsWritten is the tally as written.
- Dashboard.TagDistributionHeadIsMostCommon: holds for the corrected distribution. ObjectTally.PrototypeNameLeads shows that the code as written can name another tag.
- Dashboard.TagDistribution: counts as in Dashboard.TallyTags, so prototype member names are left to ObjectTally. Also, the entries before sorting are in first-seen order. `Object.entries` puts integer-like keys such as "42" first, in numeric order. So ties between such tags may come out in another order; the contract says nothing about the order of ties.
- ObjectTally.TallyEntries: the entries follow the order in which tags were first tallied. `Object.entries` lists integer-like keys such as "7" first, in numeric order, and the other keys after them in insertion order. For tags "b" then "7" the code's entries are [7, b] while the model's are [b, 7]. When values tie or one is text, that order can reach ObjectTally.DistributionAsWritten's result.
- ObjectTally.SortByCompare: a stable insertion sort. When some value is text, the comparator is not a consistent order. For three or more entries, ECMAScript then leaves the order to the implementation. With two entries, as in ObjectTally.PrototypeNameLeads, every stable sort gives this result.
- Text.ToLower: folds ASCII letters only; Unicode case mapping is not modelled.
- IncidentForm.Submit: the id comes from `Date.now()` and is a parameter here. Two submissions in the same millisecond would share an id, and the model does not claim ids are unique.
- Formatting the most recent date with `toLocaleDateString` is presentation and is not modelled.
- React's batching of state updates: each handler's updates are applied as one step.

## Findings

| source | as written | input that shows it | evidently intended | confidence | as-written member | corrected member |
|---|---|---|---|---|---|---|
| src/Dashboard.tsx:51-64 | `tagCounts` is the plain object `{}`, so reading `tagCounts[tag]` before the increment finds inherited members: a tag such as "toString" stores a string, the comparator `b.value - a.value` then answers NaN (read as 0), and a `__proto__` tag is never stored | tags "toString", "Bias", "Bias" (any text can be added as a tag): the distribution is "toString" then "Bias", and the insights panel names "toString" the most common type although "Bias" occurs twice | a count per tag whatever its name, e.g. a `Map` or `Object.create(null)`, so that the head of the list is a most common tag | not executed | ObjectTally.PrototypeNameLeads | Dashboard.TagDistributionHeadIsMostCommon |
| src/Dashboard.tsx:250-252 | `date.setMonth(today.getMonth() - i)` on a date that keeps today's day of the month; a day missing from the target month rolls over into the next month | today 31 March 2025, six incidents from March 2025: the buckets are Oct, Dec, Dec, Jan, Mar, Mar, so the chart counts twelve incidents and never shows Nov or Feb | the six calendar months ending at the current one, each incident counted at most once | not executed | TimeSeries.SeriesAsWrittenOvercounts | TimeSeries.SeriesTotalBounded |
