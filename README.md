# Recruitment dashboard: round advancement, counts and rosters

This project models the logic layer of the recruitment dashboard. The layer sits on the
table `recruitment_25`. The table becomes an in-memory `Store.Table`: a class over an array of `Row`s. Its
methods `Select`, `Count` and `Update` play the store's statements and are proved against the
pure functions `Selected` and `Updated`. Rows come back in table order.

On top of the store:

- **Business bulk update** (`BusinessBulkUpdate`). The route:
  - authenticates;
  - validates the body;
  - fetches the requested rows;
  - classifies each row's two domain slots by a case-insensitive "business" substring test;
  - stamps `domain1_round`/`modified_at`/`modified_by1`, then `domain2_round`/`modified_at`/`modified_by2`, in two separate updates with early return;
  - re-reads the requested rows.
- **Events bulk update** (`EventsBulkUpdate`). There is no auth gate. The route sets the legacy `round` on requested rows that mention "events" in either slot. It then reports `updatedCount`, `notFound` (input order, duplicates kept) and the summary message.
- **Creatives bulk update** (`CreativesBulkUpdate`). The same update for "creatives", behind the auth gate. It answers with the re-read rows.
- **Domain counts** (`DomainCounts`). A loop over technical, creatives, business and events takes one exact count per domain. An error or a null count becomes 0.
- **Registration listings** (`Registrations`). The technical and creatives rows are projected onto the roster view-model.
- **Technical roster page** (`TechnicalPage`):
  - year of study from a registration number;
  - the search/year/round filter;
  - the export guard;
  - the registration numbers a bulk-update CSV yields;
  - the rounds the bulk modal offers.

Each route is a pure function from the table, the request and a fault oracle. A POST route yields an `Outcome`: the response and the table afterwards. A GET route (`DomainCounts.GetOutcome`, `Registrations.ListOutcome`) changes nothing and yields the response alone. Where the route changes the table or loops, an imperative handler (`Post`, `Get`) is proved equal to that function. The properties are lemmas about the functions.

Inputs that stand for the environment:

- **Authentication.** `Api.Auth` holds the `authorization` header (absent, or possibly empty) and the user the token yields (`None` when `getUser` fails).
- **Store failures.** A per-statement `Option<string>` oracle gives the store's error message. A failed statement has no effect.
- **Time.** The request timestamp is an opaque string parameter.
- **Unparsable body.** A body that `req.json()` cannot parse is `Unparsable`. It reaches the catch-all 500 "Internal server error".

Matching `ILIKE '%d%'` and `toLowerCase().includes(d)` are both modelled as ASCII case-insensitive substring tests. `parseInt` is modelled as JavaScript defines it: leading whitespace, sign, `0x` prefix, longest digit prefix, and NaN as `None`.

## Model

| member | source | states |
|---|---|---|
| Api.Authenticate | src/app/api/business-bulk-update/route.tsx:12-37 | succeeds exactly when the header is present and non-empty and a user is found; every failure is 401, and the message is "No authorization header" exactly when the header is missing |
| Api.Validate | src/app/api/business-bulk-update/route.tsx:42-51 | accepts exactly a parsed body with a non-empty list and a round in 1..3 and passes both on; unparsable body 500; list checked first (400 "Registration numbers array is required"), then round (400 "Valid round number (1-3) is required") |
| Text.Lower | src/app/api/business-bulk-update/route.tsx:64-66 | lower-casing keeps the length, maps each character by ASCII case and leaves no upper-case letter |
| Text.NatToString | src/app/api/events-bulk-update/route.tsx:54 | a count is written as a non-empty string of decimal digits |
| Text.IntToString | src/app/api/technical-registrations/route.tsx:100 | an integer is written as decimal digits and a minus sign only |
| Text.ParseInt | src/app/recruitments25/Technical/page.tsx:107 | `parseInt` of a blank string is NaN, and a string starting with two decimal digits (or one digit alone) reads as a non-negative number |
| Text.Join | src/app/api/events-bulk-update/route.tsx:55 | the empty list joins to "", a single element joins to itself; a non-empty join starts with the first element and contains every element |
| Text.JoinSnoc | src/app/api/events-bulk-update/route.tsx:55 | joining one more element appends the separator and that element, so the elements appear in order with one separator between neighbours |
| Text.ParseIntOfIntToString | src/app/api/technical-registrations/route.tsx:100 | `parseInt` reads back exactly the integer `toString` wrote |
| Text.IntToStringInjective | src/app/recruitments25/Technical/page.tsx:120-127 | distinct integers have distinct decimal texts, so comparing texts compares numbers |
| Store.MentionsDomainIffSlot | src/app/api/business-bulk-update/route.tsx:64-66 | for a lower-case domain, the store's two-slot ILIKE filter holds exactly when the slot-1 or slot-2 in-code test holds |
| Store.Apply | src/app/api/business-bulk-update/route.tsx:71-75 | a patch never changes id, name, registration number, contacts or domain labels |
| Store.Selected | src/app/api/events-bulk-update/route.tsx:35-39 | a select returns, in table order, exactly the table's rows the filter selects |
| Store.SelectedMultiplicity | src/app/api/events-bulk-update/route.tsx:35-39 | a select holds each selected row exactly as often as the table does, and no other row |
| Store.Updated | src/app/api/events-bulk-update/route.tsx:23-27 | an update keeps every row's identity, contact and label columns, patches exactly the rows its filter selects and leaves every other row as it was |
| Store.SelectedSameIdentities | src/app/api/events-bulk-update/route.tsx:23-39 | tables that agree on identity columns select rows that agree position by position |
| Store.NumbersOfMembers | src/app/api/events-bulk-update/route.tsx:47 | a number is among the mapped registration numbers exactly when some row carries it |
| Store.SelectedCountsRows | src/app/api/domain-counts/route.ts:36-39 | a selection's size is the number of table positions the filter selects (a row matching in both slots counts once) |
| Store.SelectedNumbersAfterUpdate | src/app/api/events-bulk-update/route.tsx:23-47 | re-reading under an update's own filter finds exactly the numbers of the rows that filter selected before the update |
| Store.SetRoundIdempotent | src/app/api/events-bulk-update/route.tsx:25 | setting the legacy round twice under one filter is setting it once |
| Store.SelectedAfterSetRound | src/app/api/creatives-bulk-update/route.tsx:51-66 | after the round is set under a filter, every row that filter re-reads carries that round |
| Store.Table.Select | src/app/api/business-bulk-update/route.tsx:104-107 | the loop returns `Selected` of the current rows |
| Store.Table.Count | src/app/api/domain-counts/route.ts:36-39 | the loop returns the size of `Selected`, at most the number of rows |
| Store.Table.Update | src/app/api/events-bulk-update/route.tsx:23-27 | the array afterwards is `Updated` of the array before: selected rows patched, all others as they were |
| BusinessBulkUpdate.SlotNumbers | src/app/api/business-bulk-update/route.tsx:64-66 | a slot's update list holds exactly the numbers of fetched rows whose slot mentions business, and is no longer than the fetch |
| BusinessBulkUpdate.Advance | src/app/api/business-bulk-update/route.tsx:53-113 | after validation every failure is a 500; identities are kept; a failed fetch changes nothing; with no failure the answer succeeds and holds exactly the new table's rows with a requested number |
| BusinessBulkUpdate.PostOutcome | src/app/api/business-bulk-update/route.tsx:33-113 | the answer is 401 exactly when authentication fails; an authenticated valid request with no store failure succeeds; identities are kept; a non-500 error leaves the table as it was |
| BusinessBulkUpdate.Post | src/app/api/business-bulk-update/route.tsx:33-113 | the handler's response and final table are those of `PostOutcome` on the table before |
| BusinessBulkUpdate.UnauthenticatedIsRejected | src/app/api/business-bulk-update/route.tsx:12-37 | without header or user: 401 with the matching message, table unchanged |
| BusinessBulkUpdate.InvalidBodyIsRejected | src/app/api/business-bulk-update/route.tsx:45-51 | authenticated but invalid list or round: 400 with the list's message taking precedence, table unchanged |
| BusinessBulkUpdate.SlotNumbersOfRow | src/app/api/business-bulk-update/route.tsx:64-66 | with unique numbers, a row's number is in a slot's list exactly when it was requested and that slot matches |
| BusinessBulkUpdate.SlotNumbersAreRequested | src/app/api/business-bulk-update/route.tsx:54-66 | every number in a slot's update list was requested |
| BusinessBulkUpdate.StampSlotAt | src/app/api/business-bulk-update/route.tsx:68-77 | a slot phase keeps the table's length and sets that slot's round, `modified_at` and modifier on exactly the rows whose number is listed; skipping the statement for an empty list leaves every row as an update would |
| BusinessBulkUpdate.PostFrame | src/app/api/business-bulk-update/route.tsx:71-96 | on every outcome, identities and labels are kept and rows whose number was not requested are unchanged |
| BusinessBulkUpdate.PostAttributesSlots | src/app/api/business-bulk-update/route.tsx:63-101 | with unique numbers, after success each row is `Advanced`: slot-1 columns changed exactly if requested and slot 1 matches, slot-2 columns likewise, `modified_at` the request timestamp if either changed |
| BusinessBulkUpdate.ResponseIsRequestedRows | src/app/api/business-bulk-update/route.tsx:104-113 | the success body is, in table order, exactly the new table's rows with a requested number, each as often as the table holds it, without domain filter |
| BusinessBulkUpdate.FetchFailureChangesNothing | src/app/api/business-bulk-update/route.tsx:59-61 | a failed initial fetch is a 500 with the store's message and the table unchanged |
| BusinessBulkUpdate.MatchingRowListsSlot | src/app/api/business-bulk-update/route.tsx:64-68 | a requested row whose slot matches makes that slot's list non-empty, so the update is issued |
| BusinessBulkUpdate.UpdateFailures | src/app/api/business-bulk-update/route.tsx:78-100 | a slot-1 failure is a 500 with the table unchanged and slot 2 not attempted; a slot-2 failure is a 500 that keeps the slot-1 stamps |
| BusinessBulkUpdate.EmptySlotIssuesNoUpdate | src/app/api/business-bulk-update/route.tsx:68-101 | for either slot: when no requested row matches that slot, the outcome does not depend on that slot's update failing, because no statement is issued |
| BusinessBulkUpdate.StampTwice | src/app/api/business-bulk-update/route.tsx:71-95 | stamping both slots a second time with the same values changes nothing |
| BusinessBulkUpdate.PostIdempotent | src/app/api/business-bulk-update/route.tsx:71-95 | repeating a successful request with the same list, round, timestamp and user on the resulting table gives the same table and rows |
| BusinessBulkUpdate.StampSlotKeepsWellFormed | src/app/api/business-bulk-update/route.tsx:71-96 | stamping a round in 1..3 keeps unique numbers, rounds in 1..3, and a slot-2 round only where a slot-2 label exists |
| BusinessBulkUpdate.PostKeepsWellFormed | src/app/api/business-bulk-update/route.tsx:68-101 | every outcome of the route leaves a well-formed table (unique registration numbers, rounds in 1..3, a slot-2 round only with a slot-2 label) well formed |
| EventsBulkUpdate.Missing | src/app/api/events-bulk-update/route.tsx:48 | `notFound` is an order-preserving subsequence of the input holding exactly the numbers not found, each with its input multiplicity |
| EventsBulkUpdate.Message | src/app/api/events-bulk-update/route.tsx:54-55 | the message starts with the headline, is the headline alone exactly when nothing is missing, mentions every not-found number, and otherwise is the headline, ". Not found: " and the numbers joined by ", " |
| EventsBulkUpdate.MessageOfOneMissing | src/app/api/events-bulk-update/route.tsx:54-55 | a single missing number X gives exactly `<headline>. Not found: X` |
| EventsBulkUpdate.MessageOfOneMoreMissing | src/app/api/events-bulk-update/route.tsx:54-55 | one more missing number extends the message by ", " and that number, so the numbers appear in input order |
| EventsBulkUpdate.Summarize | src/app/api/events-bulk-update/route.tsx:47-56 | `updatedCount` is the number of re-read rows; `notFound` holds exactly the requested numbers no re-read row carries; the message starts with the headline, mentions each of them, and is `Message` of the count, the round and `notFound` |
| EventsBulkUpdate.PostOutcome | src/app/api/events-bulk-update/route.tsx:9-62 | the route succeeds exactly when the body is valid and neither statement fails; every error is a 400 or a 500; the table keeps its length and is untouched when validation or the update fails |
| EventsBulkUpdate.Post | src/app/api/events-bulk-update/route.tsx:11-56 | the handler's response and final table are those of `PostOutcome` on the table before |
| EventsBulkUpdate.InvalidBodyTouchesNothing | src/app/api/events-bulk-update/route.tsx:11-20 | an invalid body is a 400 (500 if unparsable) with the table unchanged, whatever the store would have done |
| EventsBulkUpdate.UpdateScope | src/app/api/events-bulk-update/route.tsx:23-27 | only `round` is written, exactly on requested rows mentioning events in either slot; every other row is unchanged |
| EventsBulkUpdate.StoreErrors | src/app/api/events-bulk-update/route.tsx:29-44 | an update error is a 500 with the store's message and no change; a re-fetch error is a 500 with its message |
| EventsBulkUpdate.UpdatedCountCountsScope | src/app/api/events-bulk-update/route.tsx:35-52 | `updatedCount` is the number of requested rows mentioning events, counted in the table before |
| EventsBulkUpdate.NotFoundExactly | src/app/api/events-bulk-update/route.tsx:35-48 | `notFound` is a subsequence of the input holding exactly the requested numbers carried by no row that mentions events |
| EventsBulkUpdate.ExistingNonEventsNumberIsNotFound | src/app/api/events-bulk-update/route.tsx:35-48 | a number the table holds whose row never mentions events is reported in `notFound` |
| EventsBulkUpdate.NoFullStopInHeadline | src/app/api/events-bulk-update/route.tsx:54 | the "<n> participants moved to Round <r>" headline contains no full stop |
| EventsBulkUpdate.MessageShape | src/app/api/events-bulk-update/route.tsx:54-55 | the message starts with the headline and contains ". Not found: " exactly when `notFound` is non-empty |
| EventsBulkUpdate.PostIdempotent | src/app/api/events-bulk-update/route.tsx:23-56 | a second identical request leaves the same table and returns the same count, `notFound` and message |
| CreativesBulkUpdate.PostOutcome | src/app/api/creatives-bulk-update/route.tsx:12-72 | succeeds exactly when authenticated, valid and neither statement fails; 401 exactly when authentication fails; the table keeps its length and is untouched unless the update ran |
| CreativesBulkUpdate.Post | src/app/api/creatives-bulk-update/route.tsx:12-72 | the handler's response and final table are those of `PostOutcome` on the table before |
| CreativesBulkUpdate.UnauthenticatedIsRejected | src/app/api/creatives-bulk-update/route.tsx:12-37 | without header or user: 401, table unchanged |
| CreativesBulkUpdate.InvalidBodyTouchesNothing | src/app/api/creatives-bulk-update/route.tsx:39-48 | authenticated with an invalid body: 400 (500 if unparsable), table unchanged, independent of store faults |
| CreativesBulkUpdate.UpdateScope | src/app/api/creatives-bulk-update/route.tsx:51-55 | only `round` is written, no `modified_*` column, exactly on requested rows mentioning creatives; other rows unchanged |
| CreativesBulkUpdate.StoreErrors | src/app/api/creatives-bulk-update/route.tsx:57-70 | an update error is a 500 with no re-fetch and no change; a re-fetch error is a 500 with its message |
| CreativesBulkUpdate.ResponseIsUpdatedScope | src/app/api/creatives-bulk-update/route.tsx:62-72 | the answer matches, row for row, the requested creatives rows of the table before, and every returned row has the requested round |
| CreativesBulkUpdate.PostIdempotent | src/app/api/creatives-bulk-update/route.tsx:51-72 | repeating a successful request on its resulting table changes nothing and answers alike |
| DomainCounts.GetOutcome | src/app/api/domain-counts/route.ts:31-49 | succeeds exactly when authenticated, else 401; on success one entry per domain in loop order, and a failed or null query records 0 |
| DomainCounts.Get | src/app/api/domain-counts/route.ts:31-49 | the loop's result is `GetOutcome` of the table |
| DomainCounts.UnauthenticatedIsRejected | src/app/api/domain-counts/route.ts:6-29 | without header or user the answer is 401 |
| DomainCounts.AuthenticatedSucceeds | src/app/api/domain-counts/route.ts:31-49 | once authenticated, the route answers 200 whatever the count queries do |
| DomainCounts.KeysInOrder | src/app/api/domain-counts/route.ts:31-34 | the keys are technical, creatives, business, events, in that order, each once |
| DomainCounts.CountsMatchingRows | src/app/api/domain-counts/route.ts:36-45 | each count is the number of rows with either label containing the domain (a row counted once); a failed or null query records 0 |
| DomainCounts.CountsBoundedByTotal | src/app/api/total-registrations/route.ts:31-39 | no domain count exceeds the unfiltered total |
| DomainCounts.FaultsAreIsolated | src/app/api/domain-counts/route.ts:41-46 | a failure on one domain changes no other domain's entry |
| Registrations.ToRegistration | src/app/api/technical-registrations/route.tsx:99-107 | the view-model's `id` reads back with `parseInt` as the row's numeric id; name, number, email and phone are the row's columns; `round` is the legacy column |
| Registrations.ListOutcome | src/app/api/technical-registrations/route.tsx:38-110 | succeeds exactly when the header and user are present and the query does not fail; every error is a 401 or a 500; on success one entry per row mentioning the domain |
| Registrations.ListingErrors | src/app/api/technical-registrations/route.tsx:38-89 | for either listing route: missing header 401 "No authorization header"; no user 401 "Invalid or expired token"; query error 500 with its message; success exactly otherwise |
| Registrations.ListingProjectsMatchingRows | src/app/api/technical-registrations/route.tsx:99-106 | the listing has one entry per matching row, in order: `id` reads back as the numeric id; name, number, email and phone are copied; `round` is the legacy column |
| Registrations.ListingMembers | src/app/api/technical-registrations/route.tsx:75-78 | a view-model is listed exactly when some row mentioning the domain projects onto it |
| Registrations.NoMatchIsEmpty | src/app/api/technical-registrations/route.tsx:93-96 | with no matching row the answer is `[]` |
| Registrations.ListingIgnoresSlotRounds | src/app/api/technical-registrations/route.tsx:106 | changing only slot rounds and audit columns leaves the listing unchanged: the round shown is the legacy column |
| Registrations.CreativesListing | src/app/api/creatives-registrations/route.tsx:29-77 | the creatives listing: 401/500 error mapping and success exactly otherwise; one view-model per row mentioning creatives, in order, with the id read back, the number copied and the legacy round; `[]` when none matches |
| Registrations.ListingLengthIsDomainCount | src/app/api/domain-counts/route.ts:36-45 | with no failures, the technical and creatives listings are as long as their domain counts |
| TechnicalPage.BatchYearDigits | src/app/recruitments25/Technical/page.tsx:107 | `parseInt(substring(2, 4))` is NaN for a number of two characters or fewer, and the two-digit value when positions 2 and 3 are digits |
| TechnicalPage.YearOfStudy | src/app/recruitments25/Technical/page.tsx:106-110 | with digits at positions 2 and 3 the year of study is 26 less that two-digit batch year; a number of two characters or fewer has a NaN year |
| TechnicalPage.SecondYearExample | src/app/recruitments25/Technical/page.tsx:106-110 | "RA24…" is in year 2 |
| TechnicalPage.MatchesSearch | src/app/recruitments25/Technical/page.tsx:113-118 | the empty term matches everyone; a match means the term is no longer than one of the four fields |
| TechnicalPage.MatchesFilter | src/app/recruitments25/Technical/page.tsx:120-126 | an unset filter passes everything; against a number's text it passes exactly the equal number, and never the text "NaN" |
| TechnicalPage.Keep | src/app/recruitments25/Technical/page.tsx:112-129 | a kept participant matches the search; a numeric round or year filter keeps only that round or year of study; an empty term with unset filters keeps everyone |
| TechnicalPage.FilterBy | src/app/recruitments25/Technical/page.tsx:112 | `filter` keeps, in order, each accepted participant as often as it is listed, and nothing else |
| TechnicalPage.FilteredRegistrations | src/app/recruitments25/Technical/page.tsx:112-129 | the filtered list is an order-preserving subsequence holding each participant that passes search, year and round exactly as often as listed, and no other |
| TechnicalPage.EmptySearchMatches | src/app/recruitments25/Technical/page.tsx:113-118 | an empty search term matches every participant |
| TechnicalPage.NoFilterKeepsAll | src/app/recruitments25/Technical/page.tsx:112-129 | with an empty term and unset year and round filters the list is unchanged |
| TechnicalPage.SearchIgnoresTermCase | src/app/recruitments25/Technical/page.tsx:113 | a term and its lower case match the same participants |
| TechnicalPage.YearFilterIsExact | src/app/recruitments25/Technical/page.tsx:120-122 | a numeric year filter keeps exactly the participants in that year; a NaN year never passes it |
| TechnicalPage.RoundFilterIsExact | src/app/recruitments25/Technical/page.tsx:124-126 | a numeric round filter keeps exactly the participants in that round |
| TechnicalPage.Export | src/app/recruitments25/Technical/page.tsx:132-146 | export refuses exactly the empty list, else writes one record per participant, in order, with the number under "Registration Number" and no `registerNumber` column |
| TechnicalPage.ExtractNumbers | src/app/recruitments25/Technical/page.tsx:173-175 | the extracted numbers are the `registerNumber` column in file order, untrimmed, with every non-blank value as often as it occurs and no blank or absent one |
| TechnicalPage.ExtractedAreNotBlank | src/app/recruitments25/Technical/page.tsx:175 | no extracted number is empty or all whitespace |
| TechnicalPage.ExportThenImportFindsNothing | src/app/recruitments25/Technical/page.tsx:141-174 | an exported file read back yields no numbers, since the export's header differs from the column the import reads |
| TechnicalPage.BulkUpdateRequest | src/app/recruitments25/Technical/page.tsx:161-192 | a built request carries a list of non-blank numbers, and passes bulk-update validation exactly when `parseInt` of the chosen round is in 1..3 |
| TechnicalPage.RequestOnlyWithNumbers | src/app/recruitments25/Technical/page.tsx:161-192 | a request is built exactly when a file is chosen and it yields numbers, and it carries those numbers |
| TechnicalPage.OfferedRoundsPassValidation | src/app/recruitments25/Technical/page.tsx:464-465 | the default "2" is offered, and each offered round yields a request that passes the bulk-update validation with round 2 or 3 |

## Left out

- Unicode case folding: `toLowerCase` and `ILIKE` are ASCII-only here. Strings are sequences of code points, not UTF-16 code units.
- Postgres `ILIKE` wildcards: the route patterns contain no `%` or `_` in the domain name, so matching is a plain substring test.
- Row order: selects return rows in table order. The store promises no order without `ORDER BY`.
- Concurrency: the two business updates and all requests run one after another. No concurrent reader or writer is modelled.
- Supabase client construction, bearer-token parsing, `getUser` and row-level security: authentication is an input.
- `registeredAt` (`toLocaleDateString`) and the "Registered At" export column: these depend on the locale and are omitted from `Registration` and `ExportRow`.
- Papa.parse/unparse, Blob and download DOM work, toasts, timers and React state: CSV rows are given as parsed string maps.
- The `/api/technical-bulk-update` endpoint, which the page's bulk update calls, is not part of this model. `TechnicalPage.OfferedRoundsPassValidation` checks the request against the shared bulk-update validation instead.
- The `success: true` field of the events response is implied by the `Ok` variant.
- JavaScript numbers: `round` is an integer, so a fractional round passing the range check is not modelled. `id` is an integer.
- `console` logging.
- BusinessBulkUpdate.PostAttributesSlots: exact slot attribution is stated only when registration numbers are unique. The updates filter by `registration_number`, so a row that shares its number with a matching row is stamped too. `PostFrame` still bounds every change to requested numbers without that assumption.
- DomainCounts.CountsBoundedByTotal: the total is the table's length. The total-registrations route's own auth gate and error path are not modelled.

## Behaviour worth knowing

- **Authentication.** The events route has no authentication step.
- **Slot updates.** Slot 1 is updated before slot 2, and a slot-1 failure returns before slot 2 is tried.
- **Counting and reconciliation.** The events route's `updatedCount` counts the re-read rows, and `notFound` keeps input duplicates.
- **`domain2_round`.** No check ties `domain2_round` to `domain2`. Provided registration numbers are unique, `BusinessBulkUpdate.PostKeepsWellFormed` shows the route still keeps `domain2_round` null wherever `domain2` is. Without unique numbers it does not: the slot-2 update is scoped by registration number alone, so a row sharing its number with a slot-2 match gets a `domain2_round` even when its `domain2` is null.
