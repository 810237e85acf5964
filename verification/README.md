# DVD shelf: a Dafny model of the collection logic

This project models the logic of a small DVD collection manager. It covers
the client and the server:

- **Schema.** The shared record shapes: a `dvds` row, a `users` row and the
  insert payload. It also models the insert schema's validation of a JSON
  request body, in full and in its partial form.
- **Storage.** The owner-scoped store (`DatabaseStorage`). It is a map from
  serial id to row, beside a map of users and a fresh-id counter. Every
  read, update and delete is guarded by "this id and this owner". Search
  and filter are predicates over the owner's rows.
- **Routes.** The `/api/dvds` handlers and the `/api/lookup` handler, as
  functions from a request to a status code and a body.
  - The database is a parameter: online (a store value) or offline (every
    store call throws, so the handler answers 500).
  - The remote movie service is a function from search term to reply.
- **Collection.** The collection page:
  - the four-stage filter pipeline (`filteredDvds`)
  - the status counts
  - the genre histogram
  - the empty-state message
- **StatsModal.** The statistics dialog:
  - completion rate
  - genre and director rankings
  - oldest, newest and average year
- **Sidebar.** The filter sidebar's transitions on the filter state, and
  the genre list it shows.
- **DvdForm.** The add/edit dialog:
  - default values, validation and the submitted request
  - how a lookup reply fills the form
  - the barcode scan

Supporting modules:

- `Base`: `Option`, `Result`, and the JavaScript truthiness of a nullable
  text or number.
- `Seqs`: `Array.prototype.filter`, subsequences, removal of every copy of
  an item.
- `Strings`:
  - ASCII `toLowerCase`
  - `includes`
  - `split` and `join` on a non-empty separator
  - `parseInt`
- `Tally`: a histogram keyed by string, in first-insertion order, as
  `Object.entries` of a counting record yields it. It also holds the stable
  sort by count and the top-`n` cut.

Some JavaScript behaviour is written out explicitly:

- **Truthiness.** A year of `0`, an empty genre and an empty director are
  all falsy. The filters, the counts and the form defaults treat them as
  missing, exactly as the code's `if (dvd.year)`, `if (dvd.genre)` and
  `x || ""` do.
- **`Math.round`.** It is applied to a non-negative ratio or to an average
  of integers. It is modelled as exact half-up rounding, `(2n + d) / (2d)`.
- **SQL `LIKE`.** PostgreSQL's `LIKE` is case-sensitive, so the server's
  search (server/storage.ts:108-110) and genre filter
  (server/storage.ts:126) are case-sensitive substring tests, unlike the
  page's own search, which lower-cases both sides first
  (client/src/pages/collection.tsx:71-75).
- **Row order.** The store returns **sets** of rows, because none of the
  queries has an `ORDER BY`.

## Model

| member | source | states |
|---|---|---|
| `Seqs.Filter` | client/src/pages/collection.tsx:72-95 | `Array.prototype.filter`: an element is in the result iff it is in the input and meets the predicate; the result is never longer |
| `Seqs.FilterIsSubsequence` | client/src/pages/collection.tsx:66-98 | filtering keeps the surviving elements in their original order (the result is a subsequence) |
| `Seqs.FilterThenFilter` | client/src/pages/collection.tsx:66-98 | two successive filters equal one filter by the conjunction of their predicates |
| `Seqs.RemoveAll` | client/src/components/sidebar-filters.tsx:34 | `filter(s => s !== x)`: no copy of `x` remains, every other item keeps its multiplicity, and the order is kept |
| `Seqs.AppendThenRemove` | client/src/components/sidebar-filters.tsx:32-34 | appending an absent item and then removing it restores the list |
| `Strings.Lower` | client/src/pages/collection.tsx:71-75 | `toLowerCase` (ASCII): same length, and no upper-case ASCII letter remains |
| `Strings.LowerIdempotent` | client/src/pages/collection.tsx:71-75 | lower-casing twice is lower-casing once |
| `Strings.Contains` | client/src/pages/collection.tsx:73-75 | `includes`: true iff the needle occurs at some position of the text |
| `Strings.ContainsLower` | client/src/pages/collection.tsx:71-75 | a case-sensitive occurrence is still an occurrence after both sides are lower-cased |
| `Strings.Split` | client/src/pages/collection.tsx:111 | `split(", ")` always yields at least one piece; what the pieces are is stated by `Strings.SplitPieces` and `Strings.SplitJoin` |
| `Strings.SplitPieces` | client/src/pages/collection.tsx:111 | the text is cut at every occurrence of the separator: the first piece starts the text and no piece contains the separator |
| `Strings.SplitJoin` | client/src/pages/collection.tsx:111 | joining the pieces of a split with the separator gives back the text |
| `Strings.SplitWithoutSeparator` | client/src/pages/collection.tsx:111 | a text without the separator splits into itself alone |
| `Strings.ParseInt` | server/routes.ts:20 | `parseInt`: a number is read only if the text holds a digit; the exact reading is stated by `Strings.ParseIntReads` and `Strings.ParseIntNaN` |
| `Strings.ParseIntReads` | server/routes.ts:20 | blanks, an optional sign, then a run of digits ended by a non-digit or the end: the value of the run, negated after "-"; the text after the run is ignored |
| `Strings.ParseIntNaN` | server/routes.ts:20 | blanks and an optional sign followed by anything but a digit give `NaN`; with `Strings.ParseIntReads` this covers every text |
| `Strings.ParseIntOfDecimal` | server/routes.ts:20 | `parseInt` reads back the decimal rendering of every natural number |
| `Strings.ParseIntOfNegative` | server/routes.ts:126 | `parseInt` reads back a minus sign followed by a decimal rendering as the negative number |
| `Schema.ValidateInsert` | shared/schema.ts:51-55 | the insert schema refuses a body iff some field fails (title and status must be strings; year an integer or null; the other columns strings or null); the errors name exactly the failing fields; an accepted payload, encoded back, carries the body's value for every field, with an absent nullable field as null |
| `Schema.ValidatePatch` | server/routes.ts:70 | the partial schema refuses iff some given field fails; an accepted patch mentions exactly the schema keys present in the body and carries the body's value for each of them |
| `Schema.ValidateEncodeInsert` | shared/schema.ts:51-55 | every insert payload, encoded as the client sends it, validates back to itself |
| `Schema.ValidateIgnoresUnknownKeys` | shared/schema.ts:51-55 | keys outside the schema, among them the store-assigned `id`, `userId` and `createdAt`, do not change the outcome of validation |
| `Schema.InsertValidIsPatchValid` | server/routes.ts:70 | a body the full schema accepts is also accepted by the partial schema |
| `Schema.StatusIsFreeText` | shared/schema.ts:45 | at the store level status is free text: a status other than "owned" and "wishlist" passes validation |
| `Schema.MissingTitleRefused` | shared/schema.ts:41 | a body without a title is refused, with the title among the errors |
| `Storage.EmptyDbValid` | shared/schema.ts:28-49 | the empty database meets the table invariants (keys match ids, ids below the serial counter, owners exist, emails unique) |
| `Storage.GetUser` | server/storage.ts:39-42 | a user is returned iff one exists with that id, and it is that row |
| `Storage.UpsertUserRow` | server/storage.ts:44-57 | insert-or-update by id: fails iff another user holds the email the row would get; otherwise every identity field given (null included) is written, a field left out keeps its stored value on update and is null on insert, `updatedAt = now`, `createdAt` is kept on update, the DVDs are untouched and the invariants are kept |
| `Storage.UpsertOmittedKeepsRow` | server/storage.ts:44-57 | re-upserting an existing user with only the id changes nothing but `updatedAt` |
| `Storage.GetUserDvds` | server/storage.ts:60-62 | exactly the rows whose owner is the given user |
| `Storage.GetDvd` | server/storage.ts:64-70 | a row is returned iff one exists with that id and owner, and it is that row |
| `Storage.GetDvdOtherOwner` | server/storage.ts:64-70 | another owner's row is never returned |
| `Storage.NewRow` | server/storage.ts:75 | the inserted row carries the payload's fields, the owner, the fresh id and the insertion time |
| `Storage.CreateDvd` | server/storage.ts:72-78 | fails iff the owner is not a user (foreign key); otherwise adds exactly one row under a fresh id with the payload's fields and the owner, changes nothing else and keeps the invariants |
| `Storage.ApplyPatch` | server/storage.ts:85-89 | each field given in the patch is overwritten (null included); every other field, the id, the owner and the timestamp are kept |
| `Storage.ApplyPatchLaws` | server/storage.ts:85-89 | an empty patch changes nothing, and applying a patch twice is applying it once |
| `Storage.UpdateDvd` | server/storage.ts:80-91 | fails ("No values to set") iff the patch carries no field, whatever the id; otherwise returns none and changes nothing iff no row has that id and owner, and else only that row changes, by the patch, and no row is created |
| `Storage.DeleteDvd` | server/storage.ts:93-98 | reports a removal iff a row with that id and owner existed, and then removes exactly it |
| `Storage.SearchDvds` | server/storage.ts:100-114 | exactly the owner's rows whose title, director or genre contains the query (case-sensitive); a null column never matches |
| `Storage.FilterDvds` | server/storage.ts:116-136 | exactly the owner's rows meeting every criterion that is given and truthy: equal status, genre containing the text, equal year |
| `Storage.SearchEmptyListsAll` | server/storage.ts:100-114 | an empty search lists all of the owner's rows |
| `Storage.FilterNothingListsAll` | server/storage.ts:116-136 | a filter without criteria lists all of the owner's rows |
| `Storage.FilterIsIntersection` | server/storage.ts:120-135 | the filter is the intersection of the single-criterion filters |
| `Storage.CreateThenGet` | server/storage.ts:64-78 | a created row reads back by id and owner, and the owner's list grows by exactly that row |
| `Storage.DeleteThenDeleteAgain` | server/storage.ts:93-98 | after a delete the row is gone and a second delete reports nothing removed |
| `Storage.SameRowsSameList` | server/storage.ts:60-62 | an owner's list depends only on that owner's rows |
| `Storage.UpdateLeavesOthers` | server/storage.ts:80-91 | an update never changes another owner's list |
| `Storage.DeleteLeavesOthers` | server/storage.ts:93-98 | a delete never changes another owner's list |
| `Storage.CreateLeavesOthers` | server/storage.ts:72-78 | a create never changes another owner's list |
| `Routes.PlanList` | server/routes.ts:11-24 | a non-empty search wins; otherwise any of status, genre or year selects the filter (year read with `parseInt`); otherwise everything is listed |
| `Routes.HandleList` | server/routes.ts:9-30 | corrected list endpoint: 500 iff the database fails; otherwise 200 with the owner's search, filter or full list as planned |
| `Routes.ListAsWritten` | server/routes.ts:22-24 | the list endpoint as written: the no-parameter case answers 500; every other case agrees with the corrected endpoint |
| `Routes.ListAsWrittenFailsPlainList` | server/routes.ts:22-29 | a plain list request fails as written even with a working database, where the corrected endpoint answers 200 with the owner's rows |
| `Routes.HandleGet` | server/routes.ts:33-46 | 404 iff the store finds no row of that id and owner, 200 with the row otherwise, 500 when the database fails |
| `Routes.HandleCreate` | server/routes.ts:49-64 | an invalid body gets 400 with the errors and leaves the database unchanged; 201 with the created row iff the store inserts it; any other outcome leaves the database unchanged |
| `Routes.HandleUpdate` | server/routes.ts:67-88 | the partial schema is checked first (400); 500 iff the database fails or the validated patch carries no field; then 404 iff no row of that id and owner exists, 200 with the updated row otherwise |
| `Routes.EmptyPatchFails` | server/routes.ts:67-88 | a body naming no schema field validates to the empty patch and is answered 500 for every id, even with the database up |
| `Routes.HandleDelete` | server/routes.ts:91-102 | 204 iff a row of that id and owner was removed, 404 iff none existed, 500 when the database fails |
| `Routes.LookupTerm` | server/routes.ts:108-115 | no term iff neither title nor barcode is given; the term is the title when given, otherwise the barcode |
| `Routes.NormaliseMovie` | server/routes.ts:124-130 | a poster of "N/A" becomes null, any other poster passes unchanged; title, genre and director are copied; the year is `parseInt` of the reply's year |
| `Routes.HandleLookup` | server/routes.ts:106-136 | 400 iff no term; 500 iff the fetch fails; 404 iff the service answers `Response: "False"`; otherwise 200 with the normalised movie |
| `Routes.Handle` | server/routes.ts:9-136 | every answer is one of 200, 201, 204, 400, 404, 500; reads never change the database; the table invariants are kept |
| `Routes.CreateThenGetOverHttp` | server/routes.ts:33-64 | a record created over HTTP reads back over HTTP with the same body |
| `Routes.DeleteTwiceOverHttp` | server/routes.ts:91-102 | deleting a record twice answers 204 and then 404 |
| `Routes.UpdateValidatesFirst` | server/routes.ts:67-77 | a patch with a failing field gets the same 400, naming that field, whatever the id and whatever the state of the database |
| `Tally.Bump` | client/src/pages/collection.tsx:113 | `counts[k] = (counts[k] \|\| 0) + 1`: the count of `k` grows by one and no other count changes; a new key is appended after the existing ones |
| `Tally.Count` | client/src/pages/collection.tsx:107-118 | the counting record: keys are distinct, counts positive, each key's count is its number of occurrences and the keys are exactly the values counted |
| `Tally.SortByCount` | client/src/components/sidebar-filters.tsx:45-46 | the entries by non-increasing count, as a permutation of the input |
| `Tally.Top` | client/src/components/stats-modal.tsx:31-33 | the first `n` of the sorted entries: length `min(n, size)`, non-increasing, drawn from the histogram, and no entry left out has a larger count than one chosen |
| `Tally.TopCountsAreCounts` | client/src/components/stats-modal.tsx:31-33 | each ranked entry reports its key's count in the histogram |
| `Collection.FilteredDvds` | client/src/pages/collection.tsx:66-98 | a record is shown iff it is in the collection and meets the search, status, genre and year predicates |
| `Collection.StagesAreFilters` | client/src/pages/collection.tsx:69-95 | each `if`-guarded stage is a filter by its predicate, with an empty selection meaning no constraint |
| `Collection.FilteredIsConjunction` | client/src/pages/collection.tsx:66-98 | the pipeline is one filter by the conjunction of the four predicates |
| `Collection.FilteredIsSubsequence` | client/src/pages/collection.tsx:66-98 | the shown records are a subsequence of the collection, in collection order |
| `Collection.StageOrderIrrelevant` | client/src/pages/collection.tsx:66-98 | applying the stages in reverse order gives the same list |
| `Collection.SearchMeaning` | client/src/pages/collection.tsx:70-77 | for a non-empty query, a record matches iff the lower-cased query occurs in the lower-cased title, director or genre |
| `Collection.ServerSearchWithinPageSearch` | client/src/pages/collection.tsx:70-77 | every record the server's case-sensitive search returns also passes the page's case-insensitive search |
| `Collection.CountStatusIsMultiplicity` | client/src/pages/collection.tsx:102-103 | the filtered length equals the number of records with exactly that status |
| `Collection.StatusCountsPartition` | client/src/pages/collection.tsx:100-105 | owned, wishlist and the records of any other status add up to the total |
| `Collection.StatusCounts` | client/src/pages/collection.tsx:100-105 | total is the collection size; owned and wishlist are exact-status counts; `owned + wishlist <= total` |
| `Collection.GenreLabelsAppend` | client/src/pages/collection.tsx:109-116 | the labels of two collections together are the labels of each, in order |
| `Collection.GenreCounts` | client/src/pages/collection.tsx:107-118 | keys distinct, counts positive, each label's count is its number of occurrences among the split genres |
| `Collection.GenreContribution` | client/src/pages/collection.tsx:109-116 | adding a record adds, for each label, its occurrences in the record's split genre, and nothing when the genre is null or empty |
| `Collection.SingleGenreCountsOnce` | client/src/pages/collection.tsx:110-114 | a record with a single genre adds exactly one to that genre's count |
| `Collection.EmptyStateAsWritten` | client/src/pages/collection.tsx:229-232 | as written: "nothing yet" iff the search is empty and no status or genre is selected; the year range is not consulted |
| `Collection.EmptyStateMisleads` | client/src/pages/collection.tsx:229-232 | a non-empty collection whose only record (from 1942) lies outside the default range shows nothing, yet the message says the collection is empty |
| `Collection.EmptyState` | client/src/pages/collection.tsx:225-232 | corrected message: "nothing yet" iff the collection is empty |
| `Collection.EmptyStateTruthful` | client/src/pages/collection.tsx:225-232 | when nothing is shown, "no matches" means some record exists and none passes the filters, and "nothing yet" means there is no record |
| `StatsModal.RoundDiv` | client/src/components/stats-modal.tsx:51 | `Math.round(n / d)` for `d > 0`: the nearest integer, halves rounded up |
| `StatsModal.RoundDivBetween` | client/src/components/stats-modal.tsx:51 | the rounded quotient stays within any integer bounds the exact quotient lies within |
| `StatsModal.CompletionRate` | client/src/components/stats-modal.tsx:62 | 0 for an empty collection; otherwise `100 * owned / total` rounded half-up, within 0..100 when `owned <= total` |
| `StatsModal.Years` | client/src/components/stats-modal.tsx:48 | the truthy years of the collection, each year occurring as often as there are records carrying it |
| `StatsModal.MinOf` | client/src/components/stats-modal.tsx:49 | `Math.min` of a non-empty list: an element no larger than any other |
| `StatsModal.MaxOf` | client/src/components/stats-modal.tsx:50 | `Math.max` of a non-empty list: an element no smaller than any other |
| `StatsModal.SumBounds` | client/src/components/stats-modal.tsx:51 | the sum of a list lies between its length times a lower bound and its length times an upper bound |
| `StatsModal.YearSummary` | client/src/components/stats-modal.tsx:48-51 | oldest, newest and average are null iff no record has a truthy year; otherwise oldest and newest are the least and greatest such years, both occur in the collection, the average is the rounded mean of the years, and `oldest <= average <= newest` |
| `StatsModal.Directors` | client/src/components/stats-modal.tsx:37-41 | the truthy director names of the collection, each name occurring as often as there are records carrying it |
| `StatsModal.TopGenres` | client/src/components/stats-modal.tsx:21-33 | `min(5, n)` distinct genres drawn from the histogram, by non-increasing count, each with its true count, and no genre left out has more records than one shown |
| `StatsModal.TopDirectors` | client/src/components/stats-modal.tsx:36-45 | `min(5, n)` distinct directors drawn from the histogram, by non-increasing count, each with its true count, and no director left out has more records than one shown |
| `StatsModal.ComputeStats` | client/src/components/stats-modal.tsx:15-64 | total is the collection size; owned and wishlist are the numbers of records with exactly that status; the completion rate is their rounded percentage, within 0..100; the rankings and year summary are those above |
| `Sidebar.Toggle` | client/src/components/sidebar-filters.tsx:32-34 | checking appends the item; unchecking removes every copy, keeps the other items' multiplicities and their order |
| `Sidebar.UncheckUndoesCheck` | client/src/components/sidebar-filters.tsx:31-36 | unchecking an item just checked restores the selection |
| `Sidebar.UncheckLast` | client/src/components/sidebar-filters.tsx:34 | unchecking the only item selected leaves the selection empty |
| `Sidebar.ToggleStatus` | client/src/components/sidebar-filters.tsx:31-36 | only the status selection changes, as `Toggle` says, and its checkbox then shows the new state |
| `Sidebar.ToggleGenre` | client/src/components/sidebar-filters.tsx:38-43 | only the genre selection changes, as `Toggle` says, and its checkbox then shows the new state |
| `Sidebar.AllItems` | client/src/components/sidebar-filters.tsx:64-68 | checking "All Items" empties the status selection and nothing else; unchecking it changes nothing |
| `Sidebar.AllItemsLiftsStatus` | client/src/components/sidebar-filters.tsx:63-68 | with "All Items" checked, the page shows exactly the records meeting the search, genre and year predicates |
| `Sidebar.UncheckLastStatus` | client/src/components/sidebar-filters.tsx:63 | unchecking the last selected status shows "All Items" checked |
| `Sidebar.CheckedStatusPasses` | client/src/components/sidebar-filters.tsx:31-36 | after a status is checked, every record with that status passes the status predicate |
| `Sidebar.SetYearRange` | client/src/components/sidebar-filters.tsx:133-138 | only the year range changes, and a record then passes the year predicate iff it has no truthy year or its year is within the new range |
| `Sidebar.LateYearsNeverPass` | client/src/components/sidebar-filters.tsx:133-138 | the default range is a slider position, and no slider position lets through a record dated after 2024 |
| `Sidebar.DisplayedGenres` | client/src/components/sidebar-filters.tsx:45-47 | non-increasing counts; five entries at most unless all are requested, then every entry; drawn from the histogram; no entry left out beats one shown |
| `Sidebar.ShowMoreMeaning` | client/src/components/sidebar-filters.tsx:119-126 | the show-more button appears iff the short list hides a genre, and showing all lists every genre |
| `Sidebar.DisplayedCountsAreTrue` | client/src/components/sidebar-filters.tsx:45-47 | every genre shown carries its true number of occurrences in the collection |
| `DvdForm.TextOr` | client/src/components/add-dvd-modal.tsx:40-44 | `value \|\| ""`: the text when it is truthy, the empty string otherwise |
| `DvdForm.YearOr` | client/src/components/add-dvd-modal.tsx:39 | `year \|\| undefined`: the year is kept iff it is truthy |
| `DvdForm.DefaultValues` | client/src/components/add-dvd-modal.tsx:37-45 | a new record starts empty and "owned"; an edited record's title is copied, a truthy year and truthy texts are copied, a falsy year is left unset, falsy texts become "", and an empty status becomes "owned" |
| `DvdForm.FormIssues` | client/src/components/add-dvd-modal.tsx:18-21 | the form is accepted iff the title is non-empty and the status is "owned" or "wishlist"; each rule reports its own issue |
| `DvdForm.ToBody` | client/src/components/add-dvd-modal.tsx:132-137 | the sent body carries the title and status as strings, the year only when it is set, and no key outside the schema |
| `DvdForm.BodyValidates` | client/src/components/add-dvd-modal.tsx:18-21 | every body the form can send passes the server's insert schema, which reads back the form's values, and passes the partial schema with a non-empty patch |
| `DvdForm.Submit` | client/src/components/add-dvd-modal.tsx:132-138 | nothing is sent while the form is invalid; otherwise an update of the edited record iff one is being edited, and a create otherwise |
| `DvdForm.UnchangedEditPayload` | client/src/components/add-dvd-modal.tsx:37-45 | saving an untouched edit writes back the record's own fields, except that falsy texts become "" and a falsy year is left out |
| `DvdForm.UnchangedEditKeepsRecord` | client/src/components/add-dvd-modal.tsx:37-45 | a record with every optional field set survives an untouched edit exactly |
| `DvdForm.ClientView` | client/src/components/add-dvd-modal.tsx:83-100 | what the client reads of a lookup reply: its status, no `error` field, and the movie iff the body is one |
| `DvdForm.Fill` | client/src/components/add-dvd-modal.tsx:102-108 | title, year, genre and director are overwritten from the result; the poster only when the result's poster is truthy; status and barcode are kept |
| `DvdForm.ApplyLookup` | client/src/components/add-dvd-modal.tsx:80-124 | key hint iff a failed reply is a 401 carrying `API_KEY_INVALID`; found iff the reply succeeds with a movie; only a found movie changes the form |
| `DvdForm.NoKeyHintFromServer` | client/src/components/add-dvd-modal.tsx:88-95 | no answer of the lookup endpoint leads to the key-hint branch |
| `DvdForm.LookupFillsFromService` | client/src/components/add-dvd-modal.tsx:100-108 | end to end: the form is filled from the service's reply iff the service answers with a movie, an "N/A" or empty poster keeps the poster input, and otherwise the form is unchanged |
| `DvdForm.SearchMovie` | client/src/components/add-dvd-modal.tsx:181-184 | a lookup is sent iff the prompt's answer is non-empty, with the answer as the title |
| `DvdForm.BarcodeScanned` | client/src/components/add-dvd-modal.tsx:126-130 | the code is stored in the barcode input, nothing else changes, and the code is looked up as a title |
| `DvdForm.ScannedCodeSurvivesLookup` | client/src/components/add-dvd-modal.tsx:126-130 | the server searches for exactly the scanned code (400 for an empty one), and the code stays in the barcode input whatever the lookup answers |

## Left out

- Rendering, dialogs, toasts, the view mode, `confirm` and `prompt`, and the 401 redirect timer of the collection page. These are user interface only. The prompt's answer is a parameter of `DvdForm.SearchMovie`.
- react-query caching and invalidation, and `apiRequest`. `client/src/lib/queryClient.ts` is not part of this model. The lookup branches are modelled as if `apiRequest` hands every reply back, failed ones included.
- The camera stream and the simulated random barcode of the scanner. These are device input and `Math.random`. The scanned code is a parameter of `DvdForm.BarcodeScanned`.
- The HTTP fetch to the movie service and the API key taken from the environment. The fetch is a parameter `remote: string -> Fetch` of `Routes.HandleLookup`: a failed transport or JSON parse, or a reply.
- Drizzle's SQL generation, the connection, and concurrency between requests. Each handler is one atomic step on a database value. The one error the query builder raises on its own, `.set` with no values, is modelled in `Storage.UpdateDvd`.
- The wildcards `%` and `_` inside a `LIKE` pattern. The query is treated as plain text.
- `Strings.Lower`: only ASCII letters are case-mapped. Unicode case mapping is not modelled.
- `Strings.ParseInt`: only blanks are skipped before the sign. Other whitespace, the `0x` prefix and the radix argument are not modelled.
- Path ids that `parseInt` cannot read (`NaN`). The handlers take an integer id.
- The `int4` range of the `id` and `year` columns.
- Timestamps as dates. `now` is an integer parameter.
- The timestamps in `upsertUser`'s argument. Its type allows `createdAt` and `updatedAt`. A given `updatedAt` is overridden by the update's own stamp. `Schema.UpsertUser` carries neither, so a caller-supplied `createdAt` is not modelled.
- `StatsModal.TopGenres`, `StatsModal.TopDirectors` and `Sidebar.DisplayedGenres` state non-increasing order but not the order among equal counts. `Object.entries` places integer-like keys first, so that order is left unstated.
- Floating-point `Math.round`. It is replaced by exact half-up rounding.
- The sessions table and the display components. These are the landing page, the profile menu, the DVD card and the stats cards.
- `DvdForm.YearInput`: has no `NaN` case. The year input is registered with `valueAsNumber`, and react-hook-form reads an empty number input, whether cleared by hand or never touched with an `undefined` default, as `NaN`. The form schema refuses `NaN`, and only the title's error is rendered (`client/src/components/add-dvd-modal.tsx:207`), so such a form is silently not submitted. `NoYear` models the `undefined` of the default values as the schema would see it, and `DvdForm.Submit` sends it without a year. What the page does with an empty year input depends on the form library and is not modelled.
- `DvdForm.DefaultValues`: computes the default values for a given record, but `useForm` reads them only on its first render. The dialog is mounted with the page (`client/src/pages/collection.tsx:277-281`), while no record is being edited (`client/src/pages/collection.tsx:31`), and nothing calls `reset` with a record. So on the page the edit dialog starts from the empty defaults, not from the record. `DvdForm.UnchangedEditPayload` and `DvdForm.UnchangedEditKeepsRecord` describe the values the code computes for a record, not what the page shows when editing.
- `Tally.Bump`: assumes no key names an inherited property of a plain object (`constructor`, `toString`, `__proto__` and the like). The source counts in a `{}` literal. For such a key `counts[k] || 0` starts from a function, so the count becomes a string and the sort comparator yields `NaN`; assigning to `__proto__` stores nothing. The model starts every key at 0.
- The routes call the store without the owner argument (for example `server/routes.ts:15`, against `server/storage.ts:20-33`). The model passes the signed-in owner to every store call explicitly.
- A two-step lookup for numeric barcodes, and a server-sent `API_KEY_INVALID` reply. The server code has neither. `DvdForm.NoKeyHintFromServer` proves that the client's key-hint branch is unreachable against this server.
## Findings

| source | as written | input that shows it | evidently intended | confidence | as-written member | corrected member |
|---|---|---|---|---|---|---|
| server/routes.ts:22-24 | with no query parameter the list handler calls `storage.getAllDvds()`, which `DatabaseStorage` does not define; the call throws and the handler answers 500 | `GET /api/dvds` with no parameters, by any user, with the database up | list the signed-in user's records (`getUserDvds`) with 200 | medium, not executed | `Routes.ListAsWritten` (shown by `Routes.ListAsWrittenFailsPlainList`) | `Routes.HandleList` |
| client/src/pages/collection.tsx:229-232 | the empty-state message ignores the year range, so a collection hidden only by the year slider is announced as empty | one record with year 1942 (the add form accepts years from 1900) under the default range 1950..2024, empty search, no status or genre selected | say "No DVDs match your filters" whenever the collection has records | medium, not executed | `Collection.EmptyStateAsWritten` (shown by `Collection.EmptyStateMisleads`) | `Collection.EmptyState` (proved by `Collection.EmptyStateTruthful`) |
