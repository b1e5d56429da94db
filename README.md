# Candidate triage and review — a Dafny model

A browser-based recruiting aid has two pages. The **triage page** pulls one profile at a
time from a public developer directory and lets the user accept or reject it. The
**review page** shows the accepted profiles as a table that can be filtered and sorted,
with a remove action per row. Accepted profiles live in one browser storage slot that
both pages share.

This project models the decision logic of both pages and proves what it promises:

- `candidates.dfy` (module `Candidates`): the `Candidate` record and a nullable `Option`.
- `sequences.dfy` (module `Sequences`): an order-preserving `Filter` (the JavaScript
  `Array.prototype.filter`) and a subsequence predicate, with their lemmas.
- `acceptance_store.dfy` (module `AcceptanceStore`): the stored list and its operations.
  These are the de-duplicating append of an accept, the unconditional append of the test
  button, and removal by id. Also here: the `Slot` datatype (unset, a decodable list,
  or malformed text) and the `Store` class that holds it.
- `triage.dfy` (module `Triage`): the triage page's four state fields. The directory is
  an oracle: a `Directory` object hands out scripted `Response`s. The fetch routine is a
  spec function `Fetch` plus a looping method `TriageController.FetchCandidate` proved
  equal to it. Accept, reject and the test button are methods. `ViewOf` picks the
  render branch.
- `review_table.dfy` (module `ReviewTable`): the case-insensitive four-column filter,
  the null-aware and direction-aware comparator, a stable sort, the header-click toggle
  and the `ReviewPage` class. `ValueOf`, `FieldMatches` and `Flip` are helpers of
  `CompareCandidates`, `Matches` and `NextSort`: the row's value in the sort column
  (`SavedCandidates.tsx:68-69`, where the login is never null), one optional-chained
  `includes` test (`SavedCandidates.tsx:59-62`) and the direction toggle
  (`SavedCandidates.tsx:39`).

Every member's contract in the table below is verified.

The model follows the code in these places:

- Removal drops every entry with the id, duplicates included, not only a single one
  (`SavedCandidates.tsx:30`). The intended behaviour is to remove the one profile the
  row shows; with unique ids the two agree (`AcceptanceStore.RemoveUniqueIsRemoveOne`).
- A malformed slot is not read as an empty list, which is the intended reading of
  unusable storage. On the triage page the `catch` stops the
  operation: nothing changes and no fetch follows (`CandidateSearch.tsx:87-89`,
  `125-127`). On the review page the parse throws and is not caught; `ReviewPage.Load`
  reports `ok == false` and keeps the list it had.
- The retry on an incomplete profile has no cap in the code (`CandidateSearch.tsx:38-43`).
  The intended behaviour is to move on to the next user until a usable one is found.
  The model runs the retry inside the same fetch, over a finite script of directory
  answers. When the script runs out during retries, the model's state is left loading.
  The code differs here: the retry is not awaited, so the outer `finally`
  (`CandidateSearch.tsx:49-51`) clears loading while the retry is still running. Until the
  retry settles, the page shows the previous candidate, or "No candidate data available"
  (`CandidateSearch.tsx:246-251`).
- The exhausted flag is never cleared by a fetch: it stays set for the rest of the session,
  and the exhausted view (`CandidateSearch.tsx:173-186`) offers no button that fetches.
  Once it is raised, no fetch brings a candidate onto the screen again
  (`Triage.ExhaustedIsFinal`).

## Model

| member | source | states |
|---|---|---|
| `Sequences.FilterConcat` | src/pages/SavedCandidates.tsx:30 | filtering distributes over concatenation |
| `Sequences.FilterCount` | src/pages/SavedCandidates.tsx:30 | a filter keeps every occurrence of a passing value and none of a failing one |
| `Sequences.FilterMembers` | src/pages/SavedCandidates.tsx:54-64 | a value survives the filter iff it was in the input and passes |
| `Sequences.FilterIsSubsequence` | src/pages/SavedCandidates.tsx:30 | the filter only deletes; survivors keep their relative order |
| `Sequences.FilterAllPass` | src/pages/SavedCandidates.tsx:55 | when every element passes, the filter is the identity |
| `Sequences.FilterNonePass` | src/pages/SavedCandidates.tsx:54-64 | when no element passes, the filter is empty |
| `AcceptanceStore.AppendIfAbsent` | src/pages/CandidateSearch.tsx:72-81 | after an accept the candidate's id is stored, the old list is a prefix, and unique ids stay unique |
| `AcceptanceStore.AppendTest` | src/pages/CandidateSearch.tsx:94-121 | the test button always adds exactly one entry, the fixed 12345 profile, after the old list |
| `AcceptanceStore.Decode` | src/pages/CandidateSearch.tsx:65-68 | an unset slot reads as the empty list, a stored list as itself, and only malformed text fails; `SaveCandidate` and `ReviewPage.Load` state what each page does with each case |
| `AcceptanceStore.Store.constructor` | src/pages/SavedCandidates.tsx:14 | the storage slot starts with the given contents |
| `AcceptanceStore.HasId` | src/pages/CandidateSearch.tsx:72 | the `some` test holds iff some stored entry carries the id; `HasIdIffCounted` relates it to the id count |
| `AcceptanceStore.RemoveId` | src/pages/SavedCandidates.tsx:30 | removal never lengthens the list, leaves no entry with the id, and keeps unique ids unique |
| `AcceptanceStore.FilterKeepsUniqueIds` | src/pages/SavedCandidates.tsx:30 | any filter of a list with unique ids has unique ids |
| `AcceptanceStore.RemoveLength` | src/pages/SavedCandidates.tsx:30 | removal shortens the list by exactly the number of entries with the id |
| `AcceptanceStore.RemoveUniqueIsRemoveOne` | src/pages/SavedCandidates.tsx:30 | with unique ids, removing an id drops exactly the one entry that carries it and keeps the others in order |
| `AcceptanceStore.HasIdIffCounted` | src/pages/CandidateSearch.tsx:72 | the `some` test holds iff the id's count is positive |
| `AcceptanceStore.CountIdAppend` | src/pages/CandidateSearch.tsx:77 | appending one entry raises only that entry's id count, by one |
| `AcceptanceStore.UniqueCountsAtMostOne` | src/pages/CandidateSearch.tsx:72-77 | with unique ids each id is stored at most once |
| `AcceptanceStore.AcceptDuplicateUnchanged` | src/pages/CandidateSearch.tsx:72-83 | accepting an id that is already stored leaves the list exactly unchanged |
| `AcceptanceStore.AcceptNewAppends` | src/pages/CandidateSearch.tsx:75-81 | accepting a new id stores the old list, in order, followed by the candidate |
| `AcceptanceStore.AcceptTwiceStoresOnce` | src/pages/CandidateSearch.tsx:72-83 | accepting the same id twice leaves exactly one entry with it (when it was not already duplicated) |
| `AcceptanceStore.TestAppendBreaksUniqueness` | src/pages/CandidateSearch.tsx:116-121 | the test button duplicates id 12345 when it is already stored |
| `AcceptanceStore.RemoveIdSpec` | src/pages/SavedCandidates.tsx:30 | after removal no entry has the id, duplicates included; other entries keep all occurrences and their order |
| `AcceptanceStore.RemoveAbsentUnchanged` | src/pages/SavedCandidates.tsx:30 | removing an id that is not stored changes nothing |
| `Triage.IsComplete` | src/pages/CandidateSearch.tsx:38 | an absent detail or one with an empty login is unusable; any other detail is usable; `FetchCandidateIsComplete` shows only such a detail becomes the candidate |
| `Triage.Incomplete` | src/pages/CandidateSearch.tsx:38 | only a detail answer can cause a retry, and it does exactly when the detail is absent or has an empty login; `FetchSkipsIncomplete` shows a fetch skips exactly the leading such answers |
| `Triage.Begin` | src/pages/CandidateSearch.tsx:14-15 | a fetch starts loading with the error cleared; the candidate and the exhausted flag are kept |
| `Triage.Settle` | src/pages/CandidateSearch.tsx:23-51 | every answer but an incomplete detail ends loading; the candidate changes only to a complete detail; the exhausted flag is raised only by an empty listing; the error changes only on a failed lookup, to the fixed message |
| `Triage.ConsistentView` | src/pages/CandidateSearch.tsx:142-252 | in a consistent state the error view shows the fixed message and the card shows a profile with a login |
| `Triage.FetchKeepsConsistent` | src/pages/CandidateSearch.tsx:13-52 | a fetch keeps the state consistent: the candidate stays a complete profile and the only error is the fixed message |
| `Triage.Fetch` | src/pages/CandidateSearch.tsx:13-52 | one fetch uses at most the responses the directory gives |
| `Triage.LeadingIncomplete` | src/pages/CandidateSearch.tsx:38-43 | counts the head run of incomplete details; the next response, if any, is not incomplete |
| `Triage.FetchSkipsIncomplete` | src/pages/CandidateSearch.tsx:13-52 | a fetch skips exactly the leading incomplete details; the first other response decides the state |
| `Triage.FetchLoadingIffAllIncomplete` | src/pages/CandidateSearch.tsx:38-51 | the page is left loading iff every directory answer was an incomplete detail |
| `Triage.FetchErrorOnlyOnFailure` | src/pages/CandidateSearch.tsx:15-51 | the error is cleared unless the deciding lookup threw; then it is the fixed message, loading is off, and the candidate is kept |
| `Triage.FetchEmptyListing` | src/pages/CandidateSearch.tsx:23-28 | an empty listing raises the exhausted flag and clears loading, keeping the candidate |
| `Triage.FetchNeverResetsExhausted` | src/pages/CandidateSearch.tsx:14-28 | after a fetch the flag is set iff it was set before or the listing came back empty |
| `Triage.FetchCandidateIsComplete` | src/pages/CandidateSearch.tsx:38-45 | the candidate is unchanged or the complete detail that decided the fetch; incomplete details are skipped by fetching again |
| `Triage.ViewOf` | src/pages/CandidateSearch.tsx:142-252 | the error view shows the state's message; the candidate view shows the current candidate |
| `Triage.ViewAfterFetch` | src/pages/CandidateSearch.tsx:142-186 | the view after a fetch follows the priority loading > error > exhausted > candidate, by the deciding response |
| `Triage.ExhaustedIsFinal` | src/pages/CandidateSearch.tsx:173-186 | once exhausted, no fetch brings a candidate onto the screen |
| `Triage.ScenarioAbsentDetailSkipped` | src/pages/CandidateSearch.tsx:31-45 | an absent first detail is skipped and the next complete one is shown |
| `Triage.Directory.Next` | src/pages/CandidateSearch.tsx:20-35 | each lookup returns the next scripted answer |
| `Triage.TriageController.constructor` | src/pages/CandidateSearch.tsx:7-10 | the page starts loading, with no candidate, no error, not exhausted |
| `Triage.TriageController.CurrentView` | src/pages/CandidateSearch.tsx:142-252 | the branch the page renders; under the controller's invariant an error shows the fixed message and a card a profile with a login |
| `Triage.TriageController.FetchCandidate` | src/pages/CandidateSearch.tsx:13-52 | the retry loop ends in the state `Fetch` gives and consumes exactly the answers it used |
| `Triage.TriageController.SaveCandidate` | src/pages/CandidateSearch.tsx:55-90 | no candidate or malformed storage: nothing changes, no fetch; otherwise the slot holds the de-duplicated append and the next fetch runs |
| `Triage.TriageController.SaveTestCandidate` | src/pages/CandidateSearch.tsx:93-128 | the slot holds the old list plus the test profile, or is unchanged when malformed; the page state is untouched |
| `Triage.TriageController.RejectCandidate` | src/pages/CandidateSearch.tsx:131-134 | rejecting only fetches; the store is not touched |
| `ReviewTable.Lower` | src/pages/SavedCandidates.tsx:57 | lower-casing keeps the length, turns each upper-case letter into its lower-case letter, leaves no upper-case letter and keeps every other character |
| `ReviewTable.Contains` | src/pages/SavedCandidates.tsx:59-62 | the empty needle is always included; a needle longer than the text never is |
| `ReviewTable.Matches` | src/pages/SavedCandidates.tsx:54-63 | an empty text matches every row; a row whose nullable columns are all null matches a non-empty text only when its lower-cased login includes the lower-cased text |
| `ReviewTable.FilterCandidates` | src/pages/SavedCandidates.tsx:54-64 | the filter never lengthens the list and every row it keeps matches |
| `ReviewTable.LowerIdempotent` | src/pages/SavedCandidates.tsx:57 | lower-casing is idempotent and only the empty text lowers to empty |
| `ReviewTable.ContainsSpec` | src/pages/SavedCandidates.tsx:59-62 | `includes` holds iff the needle occurs at some position |
| `ReviewTable.MatchesSpec` | src/pages/SavedCandidates.tsx:54-63 | a row passes iff the text is empty or its lower-cased form occurs in the lower-cased name, login, location or company; null columns never match |
| `ReviewTable.MatchesIgnoresCase` | src/pages/SavedCandidates.tsx:57 | the filter does not depend on the case of the text |
| `ReviewTable.FilterCandidatesSpec` | src/pages/SavedCandidates.tsx:53-64 | the filter keeps exactly the matching rows, all their occurrences, in stored order |
| `ReviewTable.FilterCandidatesEdgeCases` | src/pages/SavedCandidates.tsx:54-63 | an empty text keeps every row; a text matching no row keeps none |
| `ReviewTable.CompareStrings` | src/pages/SavedCandidates.tsx:77-81 | string comparison returns a sign |
| `ReviewTable.CompareStringsAntisymmetric` | src/pages/SavedCandidates.tsx:78-80 | swapping the strings negates the result |
| `ReviewTable.CompareStringsZero` | src/pages/SavedCandidates.tsx:79 | only equal strings compare equal |
| `ReviewTable.CompareStringsTransitive` | src/pages/SavedCandidates.tsx:79 | "not after" is transitive |
| `ReviewTable.CompareValues` | src/pages/SavedCandidates.tsx:72-81 | the column comparator returns -1, 0 or 1, and 0 exactly on equal values, two nulls included |
| `ReviewTable.NullOrdering` | src/pages/SavedCandidates.tsx:72-74 | two nulls are equal; a null is after a string ascending and before it descending |
| `ReviewTable.DescendingFlipsAscending` | src/pages/SavedCandidates.tsx:72-81 | descending (a, b) equals ascending (b, a), nulls included |
| `ReviewTable.CompareValuesAntisymmetric` | src/pages/SavedCandidates.tsx:72-81 | the column comparator is antisymmetric in both directions |
| `ReviewTable.CompareValuesTransitive` | src/pages/SavedCandidates.tsx:72-81 | the column comparator is transitive in both directions |
| `ReviewTable.CompareCandidates` | src/pages/SavedCandidates.tsx:65-91 | the sort callback returns -1, 0 or 1, and 0 exactly when no column is active or both rows have the same value in it |
| `ReviewTable.CompareCandidatesAntisymmetric` | src/pages/SavedCandidates.tsx:65-91 | the sort callback is antisymmetric |
| `ReviewTable.CompareCandidatesTransitive` | src/pages/SavedCandidates.tsx:65-91 | the sort callback is transitive |
| `ReviewTable.SortSpecification` | src/pages/SavedCandidates.tsx:65-91 | the sort returns a permutation of its input, ordered by the callback |
| `ReviewTable.Insert` | src/pages/SavedCandidates.tsx:65 | inserting one row makes the list one longer and the row is in it |
| `ReviewTable.Sort` | src/pages/SavedCandidates.tsx:65 | the sort keeps the number of rows |
| `ReviewTable.SortKeepsSorted` | src/pages/SavedCandidates.tsx:65-91 | an already ordered list comes back unchanged |
| `ReviewTable.InsertTies` | src/pages/SavedCandidates.tsx:65 | inserting a row puts it in front of the stored rows it ties with and reorders none of them |
| `ReviewTable.SortStable` | src/pages/SavedCandidates.tsx:65-91 | the sort is stable: the rows tied with any given row appear in the sorted table in the stored order |
| `ReviewTable.NullsLastAscending` | src/pages/SavedCandidates.tsx:72-74 | ascending, the rows with a value come sorted and all rows with a null value follow, in stored order |
| `ReviewTable.NullsFirstDescending` | src/pages/SavedCandidates.tsx:72-74 | descending, all rows with a null value come first, in stored order, and the rows with a value follow sorted |
| `ReviewTable.UnsortedKeepsOrder` | src/pages/SavedCandidates.tsx:66 | with no active column the order is the stored one |
| `ReviewTable.DescendingIsReversedAscending` | src/pages/SavedCandidates.tsx:78-80 | a list is descending by a column iff its reverse is ascending by it |
| `ReviewTable.DescendingSortIsReverse` | src/pages/SavedCandidates.tsx:72-81 | without ties, the descending table is exactly the ascending table reversed |
| `ReviewTable.DescendingSortWithNulls` | src/pages/SavedCandidates.tsx:72-81 | when rows with a value never tie, the descending table is the null rows in stored order followed by the ascending order of the other rows reversed |
| `ReviewTable.ScenarioNullNameSort` | src/pages/SavedCandidates.tsx:72-74 | a named row comes before a null-named row ascending and after it descending |
| `ReviewTable.DisplayedCandidates` | src/pages/SavedCandidates.tsx:53-91 | the displayed rows are a permutation of the filtered rows, ordered by the callback |
| `ReviewTable.DisplayedUnfiltered` | src/pages/SavedCandidates.tsx:55-66 | empty filter and no active column show the stored list in its order |
| `ReviewTable.NextSort` | src/pages/SavedCandidates.tsx:36-45 | the clicked column becomes active; it is ascending unless it was already active and ascending |
| `ReviewTable.ClickTwice` | src/pages/SavedCandidates.tsx:37-43 | two clicks on the active column restore the sort; two on another column leave it descending |
| `ReviewTable.ReviewPage.constructor` | src/pages/SavedCandidates.tsx:6-9 | empty list, no active column, ascending, empty filter |
| `ReviewTable.ReviewPage.Load` | src/pages/SavedCandidates.tsx:13-16 | the list becomes what the slot holds; a malformed slot fails and the list is kept |
| `ReviewTable.ReviewPage.RemoveCandidate` | src/pages/SavedCandidates.tsx:29-33 | the list loses every row with the id, and the slot then holds exactly the new list |
| `ReviewTable.ReviewPage.HandleSort` | src/pages/SavedCandidates.tsx:36-45 | the sort fields move as `NextSort` says |
| `ReviewTable.ReviewPage.SetFilterText` | src/pages/SavedCandidates.tsx:48-50 | the filter text becomes the input's value |
| `ReviewTable.ReviewPage.Render` | src/pages/SavedCandidates.tsx:53-91 | the rows shown are the filter-then-stable-sort of the stored list under the current sort; so exactly the stored matching rows, each as often as stored, in callback order, and the stored list itself when there is no filter and no active column |

## Left out

- JSON encoding and decoding and the `'savedCandidates'` key: the slot holds an already decoded list, or is marked malformed.
- `async`/`await`: every call is flattened into one sequential step. The un-awaited retry call and the `finally` of the call that issued it (`CandidateSearch.tsx:41`, `49-51`) would interleave on the event loop; the model runs the retry inside the same fetch.
- The directory client (`searchGithub`, `searchGithubUser`) is not part of this model. It is an oracle of scripted answers, and only the listing's first user is looked up, as in the code.
- Triage.Fetch: the number of retries is bounded by the finite script of answers. A run that exhausts the script is left loading, whereas the code's outer `finally` has cleared loading by then; the unbounded retry after that is not modelled.
- `console.log` and `alert` have no effect on state and are left out.
- The `window` `'storage'` listener and its cleanup (`SavedCandidates.tsx:21-25`): a storage event is a call of `ReviewPage.Load`.
- React batching and re-rendering: the mount effect (`CandidateSearch.tsx:137-140`) is a `FetchCandidate` call after the constructor.
- ReviewTable.CompareStrings: `localeCompare` is modelled as code-point lexicographic order, not locale rules.
- ReviewTable.Lower: `toLowerCase` is modelled on ASCII letters only.
- The numeric branch and the final `return 0` of the comparator (`SavedCandidates.tsx:84-90`): the headers sort only the four text columns.
- A field missing from stored JSON (`undefined`, not `null`) is not distinguished from `null`. In the code such a field passes the first two null checks. Against a `null` value the third check (`SavedCandidates.tsx:73-74`) returns ±1, so it sorts before `null` ascending and after it descending. Against a string or another missing field the comparator falls through to `return 0` (`SavedCandidates.tsx:90`). It then ties with every string, which makes the code's comparator inconsistent when two different strings are present.
- Ids are unbounded integers compared for equality, not JavaScript numbers.
- JSX markup, icons, CSS, `src/components/Nav.tsx` and `vite.config.ts`: presentation, routing and build configuration.
