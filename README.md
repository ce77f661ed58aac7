# Advocate directory, modelled in Dafny

This project models the logic of a small advocate directory. It has one read-only endpoint, `GET /api/advocates`, and the page and components that show its records.

- **The endpoint** (module `Route`):
  - It validates `search`, `page` and `limit`. Missing values take their defaults, and out-of-range values get a 400 with the list of offending fields.
  - It trims the search term.
  - It keeps the rows where the term occurs, case-insensitively, in the first name, last name, city, degree, a specialty, or the printed years of experience.
  - It orders the rows newest first and cuts the page `[offset, offset + limit)`.
  - It reads the total from the window count on the first returned row.
  - It builds the pagination envelope (`totalPages`, `hasNext`, `hasPrev`).
  - A missing database or a failing query answers 500, and so does a row that fails the record shape check. Either way the whole request fails.
- **The directory page** (module `HomePage`, class `Home`):
  - State: the loaded advocates, the filtered ones on show, the search box, and the loading and error flags.
  - Handlers: the load on mount, the search-box change with its in-browser filter, and the reset button.
  - A view function gives what the page shows in each state.
- **The pagination bar** (module `PaginationControls`): the "Showing start to end of total" range, and the Previous and Next buttons with the pages they request.
- **Phone formatting** (module `Phone`): a ten-digit number becomes `(XXX) XXX-XXXX` and an eleven-digit number starting with `1` becomes `1 (XXX) XXX-XXXX`; anything else is left as printed.
- **The advocate card** (module `AdvocateCard`): the specialty list collapsed to three, the "+N more" / "Show less" toggle, the initials and the call link.

Supporting modules:
- `Types`: the record as the table stores it, and the pagination block.
- `Text`: ASCII case folding, `includes`, JavaScript `trim` and decimal printing of integers.
- `Sequences`: filter, a stable descending sort and subsequences.
- `Wrappers`: `Option` and `Result`.
- `RouteExamples`: two worked requests.

Modelling choices:
- The table is a `seq<Advocate>`, and `createdAt` is an integer order key.
- The database is a `Store`: not configured, failing, or connected to the rows.
- The record shape check (`advocateResponseSchema`) is a predicate parameter, because its definition is not part of this model.
- The single SQL query is modelled by its result: filter, stable sort newest first, slice, and window count.
- The page's fetch is modelled by its outcome (a status and rows, or a thrown error), handed to `Home.FetchAdvocates`.

## Model

| member | source | states |
|---|---|---|
| Route.Issues | src/app/api/advocates/route.ts:13-17 | each field is reported exactly when it breaks its bound: a search longer than 100, a page that is not an integer in 1..1000, a limit that is not an integer in 1..100 (NaN included, defaults substituted first) |
| Route.ValidateQuery | src/app/api/advocates/route.ts:24-36 | the request is accepted exactly when all three bounds hold; accepted values lie within the bounds; a rejection carries the non-empty list of issues |
| Route.ValidatedValues | src/app/api/advocates/route.ts:24-28 | a missing search is "", a missing page is 1, a missing limit is 20; a given value is kept as it is |
| Route.DefaultsAreValid | src/app/api/advocates/route.ts:13-28 | a request without parameters is valid, with search "", page 1 and limit 20 |
| Route.InvalidQueryRunsNoQuery | src/app/api/advocates/route.ts:30-36 | a rejected request answers 400 with the issues whatever the database holds, so no query runs |
| Route.FirstPageQuery | src/app/api/advocates/route.ts:38-44 | a first-page request with no search queries from offset 0 with an empty term |
| Text.Trim | src/app/api/advocates/route.ts:44 | the trimmed term is no longer than the input and neither starts nor ends with white space |
| Text.TrimIsBlock | src/app/api/advocates/route.ts:44 | the trimmed term is a contiguous block of the input with only white space before and after it |
| Text.TrimEmptyIffAllSpace | src/app/api/advocates/route.ts:44-54 | the trimmed term is empty (so no filter applies) exactly when the search is all white space |
| Text.TrimIdempotent | src/app/api/advocates/route.ts:44 | trimming twice is trimming once |
| Route.MatchingMembers | src/app/api/advocates/route.ts:54-63 | a row is kept exactly when it is in the table and matches the term on one of the six fields; kept rows keep table order |
| Route.EmptyTermKeepsAll | src/app/api/advocates/route.ts:54-63 | with an empty term the WHERE clause keeps every row |
| Route.PageSlice | src/app/api/advocates/route.ts:82-83 | the page has `min(limit, max(0, n - offset))` rows, and row i is element `offset + i` of the ordered rows |
| Sequences.SortDesc | src/app/api/advocates/route.ts:81 | the ordering is a permutation of its input with descending keys |
| Route.RunQuery | src/app/api/advocates/route.ts:66-86 | the data is the block `[offset, offset + limit)` of the matching rows ordered newest first, of length `min(limit, max(0, matches - offset))`; the count is the match count when the page is non-empty, else 0 |
| Route.OrderedRowsMatch | src/app/api/advocates/route.ts:79-81 | every row of the ordered matches is a row of the table that matches the term |
| Route.QueryRowsMatch | src/app/api/advocates/route.ts:66-83 | every returned row is a row of the table that matches the term |
| Route.QuerySorted | src/app/api/advocates/route.ts:81-83 | the returned rows are in descending `createdAt` order |
| Route.PageSliceSorted | src/app/api/advocates/route.ts:81-83 | a page cut from a descending sequence is descending |
| Route.QueryPage | src/app/api/advocates/route.ts:66-85 | the returned rows are matching table rows, newest first |
| Route.SingleMatchFirstPage | src/app/api/advocates/route.ts:66-86 | with exactly one matching row, the first page holds that row and a count of 1 |
| Route.EmptySearchCountsAll | src/app/api/advocates/route.ts:54-86 | with no search term, a non-empty page reports the whole table as the count |
| Route.WholeTableFirstPage | src/app/api/advocates/route.ts:54-86 | with no search term, the first page is the newest `min(limit, n)` rows of the table and the count is the table size |
| Route.CeilDiv | src/app/api/advocates/route.ts:107 | `Math.ceil(n / d)`: the least q with `n <= q * d` |
| Route.Envelope | src/app/api/advocates/route.ts:101-111 | the envelope echoes page, limit and total; `totalPages` is the least number of pages holding `total` rows; `hasNext` iff `page < totalPages`; `hasPrev` iff `page > 1` |
| Route.EmptyEnvelope | src/app/api/advocates/route.ts:103-110 | a total of 0 gives no pages and no next page |
| Route.PastLastPage | src/app/api/advocates/route.ts:103-108 | a page beyond `totalPages` starts at or after the last row |
| Route.PastEndPage | src/app/api/advocates/route.ts:85-110 | a page whose offset is past the last match is empty and reports total 0, no pages and no next page |
| Route.Respond | src/app/api/advocates/route.ts:92-113 | the response succeeds exactly when every row passes the shape check, with the rows and the envelope; otherwise it is the 500 "Failed to fetch advocates" |
| Route.Get | src/app/api/advocates/route.ts:19-120 | 400 exactly for invalid parameters; a success needs the database and carries only rows that pass the shape check; no database URL answers the 500 "Database connection not established" |
| Route.Status | src/app/api/advocates/route.ts:19-120 | success is 200, a rejected request 400, a failure 500 |
| Route.GetOk | src/app/api/advocates/route.ts:85-113 | a success is valid input, and its data and envelope are the query's page and the envelope of its count |
| Route.PastEndUnderreportsTotal | src/app/api/advocates/route.ts:85-86 | with one matching row, page 2 of size 1 answers no rows, total 0 and a previous page |
| Route.GetExactTotal | src/app/api/advocates/route.ts:85-110 | the corrected endpoint succeeds exactly when the original does and fails the same way |
| Route.ExactTotalCounts | src/app/api/advocates/route.ts:101-110 | with the exact count, the data is the original's, `total` is the match count on every page, and a page past `totalPages` is empty with no next page |
| RouteExamples.OncoValid | src/app/api/advocates/route.ts:24-36 | `?search=onco` is valid with page 1 and limit 20 |
| RouteExamples.JaneMatchesOnco | src/app/api/advocates/route.ts:54-62 | "onco" matches a record through the specialty "Oncology" |
| RouteExamples.BobMissesOnco | src/app/api/advocates/route.ts:54-62 | "onco" matches no field of a record without it |
| RouteExamples.OncoQuery | src/app/api/advocates/route.ts:44-86 | the "onco" search over two records returns the one oncology record with a count of 1 |
| RouteExamples.DefaultEnvelopeOf45 | src/app/api/advocates/route.ts:103-110 | 45 rows at 20 a page make 3 pages; page 1 has a next page and no previous one |
| RouteExamples.FortyFiveQuery | src/app/api/advocates/route.ts:66-86 | the default query over 45 rows returns 20 rows and a count of 45 |
| RouteExamples.FortyFiveRowsExample | src/app/api/advocates/route.ts:24-113 | a request without parameters over 45 well-formed rows answers 20 rows with the envelope (1, 20, 45, 3, next, no previous) |
| Sequences.Filter | src/app/page.tsx:46-58 | the result keeps exactly the elements that pass, each as often as in the input |
| Sequences.FilterIsSubsequence | src/app/page.tsx:46-58 | a filtered list is a subsequence of its input in the same order |
| HomePage.Home.constructor | src/app/page.tsx:7-11 | the initial state: empty lists, an empty search box, loading and no error |
| HomePage.Home.FetchAdvocates | src/app/page.tsx:13-39 | a 2xx response sets both lists to its rows and clears the error; a non-2xx sets "HTTP error! status: N"; a throw sets its message or the fallback; on error the lists are unchanged; loading ends false; the rows on show stay drawn from the loaded ones |
| HomePage.Home.HandleSearchChange | src/app/page.tsx:41-61 | the raw value becomes the search term and the rows on show are the loaded ones that pass the filter for it; the loaded rows, loading and error are unchanged |
| HomePage.Home.HandleResetSearch | src/app/page.tsx:63-66 | an empty search term and every loaded row on show; the loaded rows are unchanged |
| HomePage.Home.View | src/app/page.tsx:68-131 | loading shows the loading notice; otherwise a non-empty error shows the banner with that error's text; an empty list shows "No advocates found matching your search." when a search term is set and "No advocates available." otherwise; otherwise the table of the rows on show |
| HomePage.ClientFilterMembers | src/app/page.tsx:46-58 | an advocate is on show exactly when it was loaded and passes the page's test |
| HomePage.EmptySearchKeepsAll | src/app/page.tsx:46-58 | an empty search value keeps every loaded row |
| HomePage.ClientFilterIdempotent | src/app/page.tsx:46-60 | filtering the filtered list again with the same value changes nothing |
| HomePage.LowerDecimal | src/app/page.tsx:56 | a printed number is its own lower-case form |
| HomePage.YearsSearchIgnoresCase | src/app/page.tsx:56 | searching the printed years with the raw value agrees with a case-insensitive search |
| HomePage.ClientAgreesWithServer | src/app/page.tsx:47-56 | the page's test and the endpoint's match agree on every advocate and every term |
| HomePage.ClientFilterIsServerFilter | src/app/page.tsx:46-58 | for a value without surrounding white space, the page keeps the same rows in the same order as the endpoint's filter |
| HomePage.MountLoadsNewestTwenty | src/app/page.tsx:20 | the load without parameters brings the newest `min(20, n)` rows of the table |
| PaginationControls.End | src/components/PaginationControls.tsx:17 | the last row number never exceeds the total |
| PaginationControls.RangeWithinPage | src/components/PaginationControls.tsx:16-17 | on a page that holds rows, `1 <= start <= end <= total` and the range is at most one page long |
| PaginationControls.EmptyTotalRange | src/components/PaginationControls.tsx:16-23 | with no rows on page 1 the range is 1 to 0 |
| PaginationControls.WindowRange | src/components/PaginationControls.tsx:16-17 | for a page of n > 0 rows from `offset` on, the range runs from `offset + 1` to `offset + n` |
| PaginationControls.QueryRange | src/components/PaginationControls.tsx:16-17 | for a query whose page holds rows, the range runs from `offset + 1` to `offset + rows` |
| PaginationControls.ParamsRange | src/components/PaginationControls.tsx:16-17 | the same for validated parameters, with the offset `(page - 1) * limit` |
| PaginationControls.RangeMatchesResponse | src/components/PaginationControls.tsx:16-23 | for an endpoint response with rows, the bar numbers exactly the rows returned |
| PaginationControls.PastEndRange | src/components/PaginationControls.tsx:16-23 | for an empty response the bar ends at 0, and past page 1 it starts after a full page |
| PaginationControls.ButtonsStayInRange | src/components/PaginationControls.tsx:28-57 | Previous is enabled exactly when `page > 1` and then asks for a page from 1 to the one before; Next is enabled exactly when `page < totalPages` and then asks for a page no further than `totalPages` |
| Phone.FormatPhoneNumber | src/utils/phone.ts:6-25 | ten printed characters give a 14-character display, eleven starting with `1` a 16-character one; any other number is returned as printed |
| Phone.Layout | src/utils/phone.ts:12-14 | the pattern adds four characters of punctuation |
| Phone.LayoutBlocks | src/utils/phone.ts:12-14 | the brackets, space and dash sit at fixed places, with the three blocks between them |
| Phone.FormatRoundTrip | src/utils/phone.ts:6-25 | reading the display form back gives the printed number, in every branch |
| Phone.FormatInjective | src/utils/phone.ts:6-25 | two numbers share a display form exactly when they are equal |
| Phone.StripDigits | src/utils/phone.ts:21-24 | the fallback's digits survive the removal of punctuation |
| Phone.StripDigitLayout | src/utils/phone.ts:10-14 | the ten-digit display strips back to its digits |
| Phone.StripElevenDigits | src/utils/phone.ts:15-20 | the eleven-digit display strips back to its digits |
| Phone.FormatOnlyAddsSeparators | src/utils/phone.ts:6-25 | for a non-negative number, deleting `(`, `)`, space and `-` from the output gives the printed digits |
| Phone.TenDigitNumbers | src/utils/phone.ts:7-14 | the bracketed pattern is used exactly for the numbers from 1000000000 to 9999999999 |
| Text.Decimal | src/utils/phone.ts:7 | integers print as their digits without leading zeros, with a minus sign when negative |
| Text.DigitsRoundTrip | src/utils/phone.ts:7 | reading the printed digits back gives the number |
| Text.DecimalInjective | src/utils/phone.ts:7 | different integers print differently |
| Text.DigitCount | src/utils/phone.ts:10 | a number prints with k + 1 digits exactly when it lies in `[10^k, 10^(k+1))` |
| AdvocateCard.VisibleSpecialties | src/components/AdvocateCard.tsx:15-17 | expanded shows the whole list; collapsed shows the prefix of `min(3, n)` entries |
| AdvocateCard.ToggleIffSomethingHidden | src/components/AdvocateCard.tsx:107-121 | the toggle appears exactly when collapsing hides a specialty; it reports the advocate's id; the shown and hidden parts make up the list |
| AdvocateCard.ExpandShowsAll | src/components/AdvocateCard.tsx:15-17 | expanding shows every specialty, and the two states differ exactly when a toggle is offered |
| AdvocateCard.CollapsedLabelCountsHidden | src/components/AdvocateCard.tsx:117-119 | the collapsed label is "+N more", where N is at least 1 and reads back as the number of hidden specialties |
| AdvocateCard.FirstChar | src/components/AdvocateCard.tsx:26-27 | the first character of a non-empty name, nothing for an empty one |
| AdvocateCard.Initials | src/components/AdvocateCard.tsx:26-27 | the initials are the first character of the first name followed by that of the last name, one per non-empty name |
| AdvocateCard.CallLinkAgrees | src/components/AdvocateCard.tsx:145-147 | the link's spoken number, without punctuation, is the number it dials |

## Left out

- SQL `ILIKE` wildcards: `%`, `_` and `\` in the search term are not escaped in the source. The model treats the term as a plain substring.
- The specialty match runs `ILIKE` over the JSON text of the array, so it can match across quotes, commas and brackets. The model matches within a single specialty.
- Case folding is ASCII only. Both `toLowerCase` and `ILIKE` fold full Unicode.
- String length is the number of characters. JavaScript and zod count UTF-16 code units.
- `parseInt` and zod internals: a parameter is modelled as missing, an integer or NaN. Partial parses such as "12abc" giving 12 are the caller's concern.
- `ORDER BY created_at DESC` leaves ties unordered. The model keeps rows with equal timestamps in table order.
- `count(*) over()` is a `bigint` that the Postgres driver may hand over as a string. The model treats it as a number.
- Database I/O, connection pooling, logging, seeding and index definitions are left out. The database is the `Store` value.
- `advocateResponseSchema` is not defined in the files modelled here. It is the predicate parameter `wellFormed`.
- Async fetching and React effects: only the state change for each fetch outcome is modelled. Loading is set at the start and cleared at the end of the same call.
- Rendering: only the choice of screen (`Home.View`) and the numbers and labels of the bar and the card are modelled, not the markup.
- The presentation components (header, loading, error, search card, results summary, empty state, grid) hold only markup. The grid's `expandedAdvocateId === advocate.id` is the card's `isExpanded` parameter.
- Number printing follows `toString` for integers. JavaScript's exponent form for magnitudes of 1e21 and above is not modelled.
- AdvocateCard.CallLinkAgrees: stated for non-negative phone numbers only. For a negative number the leading `-` is removed along with the punctuation.
- Page changes: the directory page asks only for the default first page and never passes `page` or `limit`, so the bar's `onPageChange` is not wired to a fetch here. Rows beyond the first 20 are never filtered in the browser (`HomePage.MountLoadsNewestTwenty`).
- HomePage.ClientFilterIsServerFilter: stated for search values without surrounding white space. The page does not trim and the endpoint does, so a padded value can differ.

## Findings

| source | as written | input that shows it | evidently intended | confidence | as-written member | corrected member |
|---|---|---|---|---|---|---|
| src/app/api/advocates/route.ts:86 | `total` is read from the window count on the first returned row, so an empty page reports `total = 0`, `totalPages = 0` | one matching row, `?page=2&limit=1`: no rows, total 0, while one row matches | `total` is the number of rows matching the search on every page: the window count `count(*) over()` at route.ts:77 counts exactly those rows, and `totalPages` and `hasNext` are derived from `total` (`Route.GetExactTotal` reports it so) | not executed | Route.PastEndUnderreportsTotal | Route.ExactTotalCounts |
