# Santos Alerta: flood reports, voting and report lists

A model in Dafny of the logic in a community flood-reporting web application.
Citizens submit geotagged flood reports. Other users confirm (up vote) or deny
(down vote) them, and a report is marked resolved when the flooding ends. The
model covers three parts of the code.

- **The report lifecycle** (`src/lib/supabase/client.ts`). A new report gets its
  defaults: one up vote (the submitter's), no down votes, status `active`. A
  vote adds one to its own counter. A down vote rejects the report when the
  down votes would exceed twice the up votes. Resolving sets the status to
  `resolved`. Listing returns the active reports, newest first. The
  `flood_reports` table is a map from id to row held by the `ReportStore.Store`
  class. Whether the remote store answers with an error is a parameter of each
  operation. The error and not-found branches return `None` and change nothing.
- **The page's report lists** (`src/app/page.tsx`). The page filters reports by
  time window, severity and neighbourhood. It extracts the neighbourhood from an
  address: the second comma-separated field, trimmed. It lists the distinct
  non-empty neighbourhoods. It rewrites the loaded and filtered lists after a
  create (prepend), a vote (replace by id) and a resolve (remove by id). The
  `Page.HomePage` class holds the page's state. Its invariant is that the
  filtered list is always an order-preserving subsequence of the loaded list.
- **The filter bar** (`src/components/reports/FilterBar.tsx`). It holds the
  current filter options and has one handler per control. The severity
  selection is never empty and never holds a level twice. Every change is
  reported to the page, and the `notified` field logs these calls.

One module per concern: `Wrappers` (the optional value), `Sequences` (the
array comprehensions the page uses: `filter`, `map`, `Array.from(new Set(..))`,
and the subsequence relation), `FloodReports` (the record and the pure
update rules), `ReportStore` (the table and its four operations), `Addresses`
(`split`, `trim` and neighbourhood extraction), `Filters` (filter options and
the filter bar), `Page` (the home page).

Modelling choices:
- Times are integer milliseconds. The test `hoursDiff > timeRange` becomes
  `now - reportedAt > timeRange * 3600000`.
- `reportedAt` is that integer, not an ISO 8601 string.
- Report ids are natural numbers drawn from a counter in the store. The real
  store assigns opaque string ids.
- The clock (`now`) and the store's failures (`fails`, `fetchFails`,
  `updateFails`) are method parameters.

Nothing in the code makes `resolved` or `rejected` final:
- `markFloodAsResolved` overwrites any status, including `rejected`
  (`FloodReports.ResolveOverridesRejection`).
- The vote rule reads no prior status, so a down vote can move a `resolved`
  report to `rejected` (`FloodReports.DownVoteCanRejectResolved`).
- What the code does guarantee is that no operation ever makes a report
  `active` again (`FloodReports.MayFollow`, kept by every store operation
  through `ReportStore.Evolves`).

A further detail of the code:
- `handleFilterChange` tests `if (filters.neighborhood)`. This is a
  truthiness test, so a neighbourhood of `''` filters nothing
  (`Page.FiltersByNeighborhood`). The filter bar never stores `''`
  (`Filters.FilterBar.Valid`).

Source behaviour the model reproduces as it is:
- The page shows the loaded list unfiltered until the first filter change,
  although the bar shows the one-day default.
- A created report is added to the filtered list whatever the filters are.
- A voted report stays in both lists even when it is now `rejected`.
- The neighbourhood list is computed only when the reports are loaded.

## Model

| member | source | states |
|---|---|---|
| `FloodReports.NewReport` | src/lib/supabase/client.ts:48-54 | a new report has no id, one up vote, no down votes, status active, and exactly the draft's other fields |
| `FloodReports.ApplyVote` | src/lib/supabase/client.ts:82-89 | a vote keeps the id and every submitted field, never lowers a counter, adds exactly one vote in total, and leaves the status as it was or makes it rejected |
| `FloodReports.Resolve` | src/lib/supabase/client.ts:107-111 | resolving yields status resolved and changes no other field |
| `FloodReports.UpVote` | src/lib/supabase/client.ts:83-88 | an up vote adds one up vote, keeps the down votes, and never changes the status |
| `FloodReports.DownVote` | src/lib/supabase/client.ts:83-88 | a down vote adds one down vote and keeps the up votes; the report becomes rejected if the new down count exceeds twice the up votes, otherwise its status is kept |
| `FloodReports.DownVoteExamples` | src/lib/supabase/client.ts:86-88 | from (1 up, 0 down) and (1 up, 1 down) a down vote keeps the report active; from (1 up, 2 down) it rejects it |
| `FloodReports.VoteNeverReactivates` | src/lib/supabase/client.ts:86-88 | no vote makes a non-active report active |
| `FloodReports.ResolveIdempotent` | src/lib/supabase/client.ts:107-111 | resolving twice gives the same row as resolving once |
| `FloodReports.ResolveOverridesRejection` | src/lib/supabase/client.ts:107-111 | a rejected report can be resolved, because no prior status is checked |
| `FloodReports.DownVoteCanRejectResolved` | src/lib/supabase/client.ts:86-88 | a resolved report at (1 up, 2 down) is rejected by one more down vote, because no prior status is checked |
| `FloodReports.ApplyVotesCounters` | src/lib/supabase/client.ts:82-89 | after any sequence of votes, the up votes grow by the number of up votes and the down votes by the number of down votes; id and submitted fields are kept; the status is kept or rejected |
| `FloodReports.UpVotesKeepStatus` | src/lib/supabase/client.ts:83-88 | n up votes in a row add n up votes and leave down votes and status unchanged |
| `FloodReports.DownVotesStatus` | src/lib/supabase/client.ts:84-88 | after n > 0 down votes in a row, the report is rejected exactly when the last one passes the threshold, and otherwise keeps its status; the down votes grow by n |
| `FloodReports.NewReportRejectedByThirdDownVote` | src/lib/supabase/client.ts:48-89 | a freshly created report is rejected after n down votes exactly when n is at least 3 |
| `ReportStore.InsertNewestFirst` | src/lib/supabase/client.ts:37 | inserting into a newest-first list keeps it newest first and adds exactly that row |
| `ReportStore.Store.CreateFloodReport` | src/lib/supabase/client.ts:48-67 | a failed insert returns None and changes nothing; otherwise the new report, with its defaults and a fresh id, is added and returned, and no other row changes |
| `ReportStore.Store.VoteOnFloodReport` | src/lib/supabase/client.ts:70-103 | a failed read, a missing id or a failed update returns None and changes nothing; otherwise only that row is replaced by the voted row, which is returned |
| `ReportStore.Store.MarkFloodAsResolved` | src/lib/supabase/client.ts:106-119 | a failed update or a missing id returns None and changes nothing; otherwise only that row becomes resolved and is returned |
| `ReportStore.Store.GetActiveFloodReports` | src/lib/supabase/client.ts:32-45 | a failed query returns the empty list; otherwise the result is newest first and is a permutation of the active rows |
| `ReportStore.ListingIsExactlyActive` | src/lib/supabase/client.ts:33-37 | a permutation of the active rows contains every active row and only active rows |
| `ReportStore.NewestFirstUnique` | src/lib/supabase/client.ts:37 | if no two rows share a timestamp, the newest-first listing is unique |
| `ReportStore.EvolvesTransitive` | src/lib/supabase/client.ts:70-119 | the guarantees every operation keeps (no row deleted, fields kept, counters non-decreasing, never back to active) compose over several operations |
| `Sequences.Filter` | src/app/page.tsx:60-77 | a filter keeps exactly the elements that satisfy the predicate, each as often as it occurs, in their original order |
| `Sequences.Map` | src/app/page.tsx:113-118 | a map keeps the length and transforms each position |
| `Sequences.Dedup` | src/app/page.tsx:35-45 | a Set conversion has no repeats, the same elements, and lists them in the order of their first occurrences |
| `Sequences.FilterKeepsSubseq` | src/app/page.tsx:137-138 | removing by the same predicate from both lists keeps the filtered list a subsequence of the loaded one |
| `Sequences.MapKeepsSubseq` | src/app/page.tsx:113-118 | replacing by the same rule in both lists keeps the filtered list a subsequence of the loaded one |
| `Sequences.SubseqNoDuplicates` | src/components/reports/FilterBar.tsx:32 | removing elements from a list without repeats leaves none |
| `Addresses.Split` | src/app/page.tsx:40 | split always yields at least one piece, and no piece contains the separator |
| `Addresses.JoinSplit` | src/app/page.tsx:40 | joining the pieces of a split gives back the original string |
| `Addresses.SplitHasSeveralParts` | src/app/page.tsx:41 | a split yields more than one piece exactly when the separator occurs |
| `Addresses.TrimStart` | src/app/page.tsx:41 | the result starts with no whitespace and is what remains after dropping a prefix that is all whitespace |
| `Addresses.TrimEnd` | src/app/page.tsx:41 | the result ends with no whitespace and is what remains after dropping a suffix that is all whitespace |
| `Addresses.Trim` | src/app/page.tsx:41 | the result neither starts nor ends with whitespace and is the original minus whitespace at both ends |
| `Addresses.TrimUnique` | src/app/page.tsx:41 | trim returns the whitespace-free core of a string, whatever whitespace surrounds it |
| `Addresses.TrimOfTrimmed` | src/app/page.tsx:41 | a string that neither starts nor ends with whitespace is left unchanged by trim |
| `Addresses.TrimIdempotent` | src/app/page.tsx:41 | trimming twice is trimming once |
| `Addresses.Neighborhood` | src/app/page.tsx:40-41 | an address has a neighbourhood exactly when it contains a comma, and the neighbourhood is trimmed |
| `Addresses.NeighborhoodIsSecondField` | src/app/page.tsx:40-41 | the neighbourhood is the trimmed text between the first comma and the next comma or the end |
| `Addresses.FilterNeighborhood` | src/app/page.tsx:71-72 | the string the filter compares: '' for an address without a comma, otherwise its neighbourhood |
| `Addresses.NonEmptyNeighborhoods` | src/app/page.tsx:37-43 | after dropping null and '', the list holds exactly the non-empty neighbourhoods of the reports |
| `Addresses.UniqueNeighborhoods` | src/app/page.tsx:35-46 | the neighbourhood list holds each non-empty neighbourhood of the reports exactly once, in the order of their first appearance |
| `Filters.ToggleSeverity` | src/components/reports/FilterBar.tsx:28-41 | toggles the level in or out of the selection; an unselected level is appended; removing a level keeps the others in order; when nothing would remain, the toggle is refused |
| `Filters.ToggleKeepsValid` | src/components/reports/FilterBar.tsx:30-40 | the severity selection stays non-empty and without repeats |
| `Filters.ToggleRefusesOnlyTheLastLevel` | src/components/reports/FilterBar.tsx:33-37 | the toggle is refused exactly when the level is the only one selected |
| `Filters.ToggleTwiceRestores` | src/components/reports/FilterBar.tsx:30-40 | toggling an unselected level on and then off restores the selection |
| `Filters.NeighborhoodChoice` | src/components/reports/FilterBar.tsx:48-50 | '' becomes no neighbourhood and any other value is kept; '' is never stored; the select shows the chosen value |
| `Filters.ChoiceOfShownValue` | src/components/reports/FilterBar.tsx:146 | choosing the option the select shows stores the same neighbourhood |
| `Filters.FilterBar.constructor` | src/components/reports/FilterBar.tsx:16-20 | the initial filters are 24 hours, levels [1, 2, 3] and no neighbourhood |
| `Filters.FilterBar.HandleTimeRangeChange` | src/components/reports/FilterBar.tsx:22-26 | only the time range changes, and the new filters are reported |
| `Filters.FilterBar.HandleSeverityChange` | src/components/reports/FilterBar.tsx:28-46 | a refused toggle changes nothing and reports nothing; otherwise only the selection changes, and the new filters are reported |
| `Filters.FilterBar.HandleNeighborhoodChange` | src/components/reports/FilterBar.tsx:48-53 | only the neighbourhood changes ('' becomes none), and the new filters are reported |
| `Filters.FilterBar.ClearFilters` | src/components/reports/FilterBar.tsx:55-63 | the filters return to the defaults, whatever they were (so clearing is idempotent), and the defaults are reported |
| `Page.FilterReports` | src/app/page.tsx:58-80 | the shown list is an order-preserving subsequence; every kept report is of a selected severity and inside the time window; with a neighbourhood set, every kept report is in it; every report passing the test is kept, as often as it occurs, and no other; without a neighbourhood set, the neighbourhood excludes nothing |
| `Page.BarNeighborhoodFilters` | src/app/page.tsx:70 | for filters from the bar, the neighbourhood test applies exactly when a neighbourhood is chosen |
| `Page.ReplaceById` | src/app/page.tsx:113-118 | the length is kept; exactly the entries with that id are replaced and all others are unchanged |
| `Page.RemoveById` | src/app/page.tsx:137-138 | exactly the entries with that id are removed; every other entry is kept, as often as it occurs and in its order |
| `Page.HomePage.constructor` | src/app/page.tsx:17-23 | the page starts with empty lists, no selection and the form hidden |
| `Page.HomePage.LoadFloodReports` | src/app/page.tsx:26-55 | both lists become the active reports, newest first (empty on failure), and the neighbourhood list is computed from them |
| `Page.HomePage.HandleFilterChange` | src/app/page.tsx:58-80 | only the filtered list changes, to the filter applied to the loaded list |
| `Page.HomePage.HandleMarkerClick` | src/app/page.tsx:83-86 | the clicked report is selected and the form is hidden |
| `Page.HomePage.OpenReportForm` | src/app/page.tsx:154-157 | the form is shown and the selection cleared |
| `Page.HomePage.CloseDetails` | src/app/page.tsx:206 | the selection is cleared |
| `Page.HomePage.HandleSubmitReport` | src/app/page.tsx:89-105 | on success the stored report is prepended to both lists, the existing entries stay in order, and the form is hidden; on failure nothing changes |
| `Page.HomePage.HandleVote` | src/app/page.tsx:108-129 | on success the entries with that id in both lists, and the selection if it is that report, become the voted row; other entries and both lengths are kept; on failure nothing changes |
| `Page.HomePage.HandleMarkResolved` | src/app/page.tsx:132-144 | on success every entry with that id leaves both lists, the others stay in order, and the selection is cleared; on failure nothing changes |
| `Page.HomePage.ShowUpdated` | src/app/page.tsx:113-124 | the entries with that id in both lists, and the selection if it is that report, become the updated row; the filtered list stays a subsequence of the loaded one |
| `Page.HomePage.HideResolved` | src/app/page.tsx:137-139 | every entry with that id leaves both lists, the filtered list stays a subsequence of the loaded one, and the selection is cleared |

## Left out

- Construction of the store client and its endpoint and key defaults
  (`src/lib/supabase/client.ts:5-9`). The client is a foreign library; the
  store is an abstract map.
- The lost-update race in the vote's read-modify-write
  (`src/lib/supabase/client.ts:71-95`). Each call is modelled as atomic.
- The `isVoting`/`isResolving` double-click guards of the details card, and
  the page's `isSubmitting`/`isLoading` flags. They only block asynchronous UI
  interactions.
- Rendering: the map (`src/components/map/MapComponent.tsx`), the report form
  (`src/components/reports/ReportForm.tsx`),
  the details card (`src/components/reports/FloodDetailsCard.tsx`), the report
  count text, `alert` and `console.error`.
- Validation in the report form. A draft's severity is restricted to 1..3 by
  its type.
- Floating point. Coordinates are `real` and never computed with. The hour
  window uses exact integer milliseconds, so float rounding at the window
  boundary is not modelled.
- Timestamp strings. The store sorts ISO 8601 strings, and the model sorts
  integers. The two orders agree only for strings in one format and time zone.
- Store-assigned string ids; the model uses a counter of natural numbers.
- The vote counters are JavaScript numbers, exact only below 2^53; the
  model's counters are unbounded natural numbers.
- JavaScript `trim` removes a larger Unicode whitespace set than the fixed set
  in `Addresses.IsSpace`.
- Exceptions thrown inside the page handlers (`try`/`catch`). The model treats
  them like a failed store call: no state changes.
- The wiring from `onFilterChange` to `HomePage.HandleFilterChange`. The filter
  bar records each call in its `notified` log; the two classes are not
  connected.
- ReportStore.Store.GetActiveFloodReports: fixes no order among reports with
  equal `reportedAt`. The store's sort leaves that order open too.
