# Funeral-home search: a Dafny model

This project models the core of a small funeral-home directory. It has three parts:

- **The search page** (`frontend/app/page.tsx`): the card helpers, the paging arithmetic, and the state machine of the form, the submitted search, the page number and the fetch effect.
- **The query client** (`frontend/lib/api.ts`): parameter cleaning, the request URL, and the handling of responses and errors.
- **The read-only API** (`backend/app/main.py`): the filters, the validation of the sort column and direction, the ordering, the `LIMIT`/`OFFSET` slice, and the count.

The two sides are joined by a model of the `application/x-www-form-urlencoded` query format. The client writes that format and the server parses it.

What is proved:

- The query the page sends parses back to the cleaned parameters.
- The server binds those parameters to the page's filters and page.
- Every page the page can reach is answered with that slice of the matching rows in `internal_id` order.
- The count the page pages by is the number of those rows.
- "Next" is enabled exactly when the next page holds rows.
- A settlement of the fetch effect shows the answer to the search the page currently displays.

Modules, one per file:

| module | file | models |
|---|---|---|
| `Optional` | optional.dfy | `Option` and `Result` |
| `Text` | text.dfy | white space and trimming, ASCII lower-casing, substrings, joining, decimal text |
| `Records` | records.dfy | the funeral-home row |
| `FormEncoding` | form_encoding.dfy | UTF-8, percent-encoding, `URLSearchParams.toString()`, the server's query parser on well-formed UTF-8 |
| `SqlLike` | sql_like.dfy | SQL `LIKE` without an escape character |
| `Api` | api.dfy | `frontend/lib/api.ts` |
| `View` | view.dfy | the card helpers of `page.tsx` |
| `SearchPage` | search_page.dfy | the form, the paging arithmetic and the request objects of `page.tsx` |
| `PageState` | page_state.dfy | the state and the fetch effect of `HomePage` |
| `Server` | server.dfy | `backend/app/main.py` on a table given as a sequence of rows |
| `EndToEnd` | end_to_end.dfy | the page's requests as the server answers them |

The network, the environment variable holding the base URL, and the order in which two failing requests fail are parameters.

## Model

| member | source | states |
|---|---|---|
| Text.Trim | frontend/lib/api.ts:42 | the result has no white space at either end and is empty exactly when the input is blank |
| Text.TrimRemovesOnlyEnds | frontend/app/page.tsx:43 | trimming removes white space from the two ends only: the result is a middle slice with blank text on both sides |
| Text.TrimUnique | backend/app/main.py:38 | whenever text splits into blank, trimmed, blank, the trimmed middle is what trimming yields |
| Text.TrimIdempotent | frontend/app/page.tsx:61 | trimming twice is trimming once |
| Text.ParseIntToString | backend/app/main.py:70-71 | the server's integer binding reads back every integer the client writes in decimal |
| FormEncoding.DecodeComponentOfEncoding | frontend/lib/api.ts:53-54 | any name or value survives the client's percent-encoding followed by the server's decoding |
| FormEncoding.ParseQueryOfSerialize | frontend/lib/api.ts:54 | the server's query parser gives back exactly the pairs the client serialized, in order |
| SqlLike.LikeContains | backend/app/main.py:38-39 | for a query without `%` or `_`, the pattern `%q%` matches exactly the values that contain `q` |
| SqlLike.UnderscoreMatchesAnyCharacter | backend/app/main.py:38-39 | the wildcards are not escaped: a query of `_` matches any one-character value |
| Api.SetParam | frontend/lib/api.ts:44 | `set` gives the name its value, leaves every other name's value alone, and keeps names unique |
| Api.CleanParams | frontend/lib/api.ts:38-47 | names are unique and are exactly the kept names; every value is non-empty trimmed text |
| Api.CleanParamsInOrder | frontend/lib/api.ts:38-47 | for distinct property names, the cleaned query is the kept properties in order, each with its trimmed text |
| Api.CleanParamsOmitsBlank | frontend/lib/api.ts:41-43 | an `undefined`, `null` or blank property is absent from the query; any other is present with its trimmed text |
| Api.CleanParamsEmptyIff | frontend/lib/api.ts:38-47 | the query is empty exactly when no property is kept |
| Api.StripTrailingSlash | frontend/lib/api.ts:54 | at most one slash comes off, and it does come off when the base ends in one |
| Api.StripOneSlash | frontend/lib/api.ts:54 | exactly one trailing slash is removed even when several precede it; a base without one is unchanged |
| Api.RequestUrl | frontend/lib/api.ts:50-54 | it fails exactly when the base is unset or empty, with the configuration message; otherwise it names the stripped base and the endpoint path, and its query parses back to the cleaned parameters |
| Api.ErrorDetail | frontend/lib/api.ts:58-59 | the detail is the body text when it is non-empty, and the status text otherwise |
| Api.ErrorMessageParses | frontend/lib/api.ts:59 | the status and the detail can be read back from the error message |
| Api.NotFoundMessage | frontend/lib/api.ts:59 | a 404 with body `not found` gives `API error 404: not found` |
| Api.HandleList | frontend/lib/api.ts:56-61 | it succeeds exactly for a delivered 2xx response with a parseable body, which it returns; a transport failure or a non-OK status gives its message |
| Api.HandleCount | frontend/lib/api.ts:73-79 | as `HandleList`, and a missing `total` counts as 0 |
| Api.MissingBaseFailsBeforeRequest | frontend/lib/api.ts:50-51 | without a base URL both calls fail with the configuration error, whatever the network would answer |
| Api.FetchAsksNetwork | frontend/lib/api.ts:49-61 | with a base URL the list call asks the network once, at the URL of the cleaned query, and reports its answer |
| Api.FetchCountAsksNetwork | frontend/lib/api.ts:64-79 | with a base URL the count call asks the network once, at `/funeral-homes/count` with the query of the cleaned filters, and reports its total |
| View.Fmt | frontend/app/page.tsx:42-45 | absent or blank text gives `null`; anything else gives its trimmed text |
| View.BuildAddress | frontend/app/page.tsx:47-58 | line 1 is the formatted street; line 2 is absent exactly when city, region and postal code are all blank |
| View.BuildAddressLine2 | frontend/app/page.tsx:54-55 | line 2 agrees with a case-by-case table of the non-blank parts joined by `", "` |
| View.BuildAddressWithoutPostal | frontend/app/page.tsx:47-58 | a row with street, city and region but no postal code shows `city, region` on line 2 |
| View.BuildAddressEmpty | frontend/app/page.tsx:47-58 | a row with every address field null shows no address |
| View.NormalizeWebsite | frontend/app/page.tsx:60-64 | blank gives `""`; trimmed text with an `http://` or `https://` scheme is kept; anything else gets `https://` in front |
| View.NormalizeWebsiteIdempotent | frontend/app/page.tsx:60-64 | normalising a normalised link changes nothing |
| View.NormalizeWebsiteExamples | frontend/app/page.tsx:63 | `example.org` becomes `https://example.org`, and `http://example.org` is kept |
| SearchPage.CeilDiv | frontend/app/page.tsx:210 | the result is the ceiling of the quotient |
| SearchPage.PageCount | frontend/app/page.tsx:210 | there is at least one page; the pages hold the total; no page beyond the first is empty |
| SearchPage.CanNextIffMoreRows | frontend/app/page.tsx:212 | Next is possible exactly when rows lie beyond the current page |
| SearchPage.PrevNextInverse | frontend/app/page.tsx:315-323 | Prev undoes Next on every reachable page, and Next undoes Prev wherever Prev is enabled |
| SearchPage.NextPageStartsWithinTotal | frontend/app/page.tsx:211-212 | the page Next leads to starts before the end of the total |
| SearchPage.WithField | frontend/app/page.tsx:244-271 | a keystroke changes its one field and copies the other three |
| SearchPage.HasFiltersIffCountQueryFiltered | frontend/app/page.tsx:209 | "has filters" holds exactly when the count request sends some filter |
| SearchPage.ListQueryPaging | frontend/app/page.tsx:181-187 | a page's list query asks for 15 rows from row `15 * page`, sorted by `internal_id` ascending |
| SearchPage.ListQueryFilters | frontend/app/page.tsx:181-182 | each form field reaches the list query trimmed unless it is blank; country, phone and website are never sent |
| SearchPage.CountQueryFilters | frontend/app/page.tsx:188 | the count query filters exactly as the list query does and carries no paging |
| PageState.JoinCalls | frontend/app/page.tsx:180-189 | both answers when both calls succeed, otherwise the message of a failing call |
| PageState.JoinCallsOrderIrrelevant | frontend/app/page.tsx:180-189 | timing matters only when both calls fail |
| PageState.AnswerWithoutBase | frontend/app/page.tsx:180-189 | without a base URL every run fails with the configuration error |
| PageState.Mount | frontend/app/page.tsx:165-178 | once the first run of the effect has started, the page holds the initial form on page 0 with no rows and a total of 0, loading, with no error |
| PageState.Rerun | frontend/app/page.tsx:175-207 | the dependency check changes only the effect's own state: the update is kept, the run number advances by one exactly when the submitted object or the page changed, and a new run is loading with no error |
| PageState.Step | frontend/app/page.tsx:175-224 | a new run starts exactly when a dependency changed; a superseded settlement changes nothing; rows and total change only when the latest run succeeds; a failure keeps them and shows its error, an `Error`'s message or else `Unknown error`; Submit, Reset, keystrokes and the disabled buttons act as written |
| PageState.StepPreservesInv | frontend/app/page.tsx:164-224 | every event keeps the page non-negative, keeps errors hidden while loading, and keeps identities determining their fields |
| PageState.RunPreservesInv | frontend/app/page.tsx:164-224 | every reachable state keeps the invariant |
| PageState.SameRunSameSearch | frontend/app/page.tsx:175-207 | while no newer run has started, the submitted fields and the page are those the latest run was started for |
| PageState.SettledRowsAnswerShownSearch | frontend/app/page.tsx:190-202 | the latest run's settlement shows the list and count answers for the submitted fields and page of the resulting state; a failure keeps the old rows and shows the failing call's error |
| PageState.SubmitNewTextFetches | frontend/app/page.tsx:214-218 | submitting new text fetches again, from page 0 |
| PageState.ResubmitIsInert | frontend/app/page.tsx:214-218 | resubmitting the submitted object on page 0 changes nothing |
| PageState.RetypedTextFetches | frontend/app/page.tsx:207 | identity decides, not text: typing a character and deleting it, then submitting, fetches again |
| PageState.ResetWhenInitialIsInert | frontend/app/page.tsx:220-224 | Reset on the initial form and page 0 changes nothing |
| PageState.ButtonsMove | frontend/app/page.tsx:314-323 | Prev and Next move one page exactly when enabled and not loading, and otherwise do nothing |
| PageState.OverlappingSearches | frontend/app/page.tsx:175-207 | an answer to a superseded search is ignored and the latest search's answer is shown, whatever the two submitted texts are |
| Server.PartialMatchIsSubstring | backend/app/main.py:37-48 | for a query without wildcards, a partial-match filter is substring search that ignores ASCII case, and a `NULL` column never matches |
| Server.EmptyFilterIsNoFilter | backend/app/main.py:37-52 | an absent filter and an empty one both leave every row in |
| Server.RegionMatchIgnoresCase | backend/app/main.py:44-45 | a region query matches exactly the values of its own length that agree with it letter by letter up to ASCII case; nothing is stripped and `NULL` never matches |
| Server.FilterKindsExamples | backend/app/main.py:44-52 | `on` finds region `ON` but ` on` does not; country `ca` does not find `CA`; a `NULL` phone never matches |
| Server.MatchesEachFilter | backend/app/main.py:36-54 | each given filter adds an independent condition: a row matches them all exactly when it matches each alone |
| Server.NoFiltersMatchAll | backend/app/main.py:36-54 | without filters every row matches |
| Server.BlankFilterExcludesNull | backend/app/main.py:37-39 | a filter of white space only still applies: it matches every non-`NULL` value and no `NULL` |
| Server.Select | backend/app/main.py:36-54 | the result holds only table rows that match, and every matching row |
| Server.CountIsSelected | backend/app/main.py:127-138 | the count is the number of rows the list endpoint pages through |
| Server.SelectNarrows | backend/app/main.py:36-54 | a stricter filter selects a sub-multiset of the rows |
| Server.ParseSortBy | backend/app/main.py:91-99 | a column is found exactly for the six sortable names |
| Server.ParseSortByName | backend/app/main.py:91-99 | every column is found by its own name |
| Server.ParseSortDir | backend/app/main.py:103 | `asc` and `desc` are recognised after lower-casing |
| Server.SortDirIgnoresCase | backend/app/main.py:103 | any capitalisation of a direction is accepted |
| Server.ValueLeOrder | backend/app/main.py:107 | the order on column values is total, transitive and antisymmetric |
| Server.Sort | backend/app/main.py:107 | the result is sorted by the column in the direction, and is a permutation of its input |
| Server.SortedByIdDetermined | backend/app/main.py:91-107 | sorted by the primary key, the order is fully determined |
| Server.Page | backend/app/main.py:110 | at most `limit` rows, none past the end, each the row at `offset + i` |
| Server.PagesAdjoin | backend/app/main.py:110 | consecutive pages join into the page of twice the size: no row is skipped or repeated |
| Server.ListFuneralHomes | backend/app/main.py:57-113 | 422 exactly for a bad limit or offset; then 400 for an unknown `sort_by`; then 400 for an unknown `sort_dir` |
| Server.ListAnswer | backend/app/main.py:99-113 | a successful answer had admissible paging and known sort names, and is the `[offset, offset+limit)` slice of the matching rows sorted by that column and direction |
| Server.ListByDefaultOrder | backend/app/main.py:99-110 | with admissible paging and `internal_id`/`asc`, the answer is that page of the matching rows in key order |
| Server.ListWithinCount | backend/app/main.py:110-138 | an answer holds at most `limit` rows and at most the count, is empty once `offset` reaches the count, and otherwise holds what remains up to `limit` |
| Server.ListRowsMatch | backend/app/main.py:80-112 | every listed row is a matching table row, in the requested order |
| Server.LastValue | backend/app/main.py:62-75 | a bound value is the value of some pair with that name |
| Server.BindInt | backend/app/main.py:70-71 | an absent integer takes its default; one that is not a decimal integer is a 422 |
| Server.BindList | backend/app/main.py:58-76 | `limit` defaults to 15, `offset` to 0, `sort_by` to `internal_id` and `sort_dir` to `asc`; binding fails exactly when an integer fails |
| Server.DefaultsListFirstPage | backend/app/main.py:70-75 | a query without paging or sort parameters lists the first 15 matching rows in key order |
| EndToEnd.LastValueIsLookup | backend/app/main.py:62-67 | under unique names the server's binding and the client's lookup agree |
| EndToEnd.ListQueryBinds | frontend/app/page.tsx:181-187 | the server binds a page's list query to the form's filters, 15 rows from row `15 * page`, in `internal_id` ascending order |
| EndToEnd.CountQueryBinds | frontend/app/page.tsx:188 | the server binds the count query to the same filters |
| EndToEnd.PageServed | backend/app/main.py:57-113 | every reachable page is answered with the slice of the listing that starts at row `15 * page` |
| EndToEnd.PageUrlParses | frontend/lib/api.ts:53-54 | the server parses the URL of a list request back into exactly the cleaned query |
| EndToEnd.CountRequestServed | frontend/lib/api.ts:70-71 | the count the page shows is the length of the listing it pages through |
| EndToEnd.ListingLength | backend/app/main.py:127-138 | the listing holds as many rows as the count |
| EndToEnd.NextEnabledIffNextPageHasRows | frontend/app/page.tsx:212 | with the server's count, Next is enabled exactly when the next page has rows |

## Left out

- Text.Trim: only the white space that JavaScript's `trim()` and Python's `strip()` share is trimmed. U+FEFF (JavaScript only) and U+001C to U+001F and U+0085 (Python only) are treated as text. So `View.Fmt`, `Api.Keeps` and `Server.Pattern` keep those characters where the source strips them.
- Text.Lower: folds ASCII capitals only. This is SQLite's `lower()`, which the source applies to the column. But main.py:38, 42 and 47 lower-case the query with Python's `str.lower()`, which also folds non-ASCII capitals, and SQLite's `LIKE` compares non-ASCII letters case-sensitively. The model folds both sides the ASCII way, so for a query holding a non-ASCII letter that Python lower-cases it differs from the source in both directions. Query `É` against column `é`: the source matches (pattern `%é%`), the model does not. Query `École` against column `École`: the model matches, the source does not, because `É` is never `LIKE` `é`. For queries without such letters the two patterns are equal.
- Text.ParseInt: reads an optional minus sign and decimal digits only. The server's integer validation also accepts other spellings, such as a leading `+` or surrounding white space.
- Text.IntToString: renders integers only. JavaScript's `String` of a non-integer or very large number is not modelled; the page only sends integers.
- Server.ListFuneralHomes: assumes SQLite, the default `DATABASE_URL` of `backend/app/db.py:11`. SQLite puts `NULL` first in ascending order, orders integers before text, compares text by code point, and its `lower()` and `LIKE` fold ASCII only. Other engines differ.
- Server.PartialMatchIsSubstring: states substring search only for queries without `%` or `_`, and ignores ASCII case only; how non-ASCII capitals differ from the source is on the `Text.Lower` line. `Server.PartialMatch` itself matches with the unescaped wildcards, as `SqlLike.UnderscoreMatchesAnyCharacter` shows.
- Server.Sort: breaks ties by table order, where SQL leaves the order of equal keys open. `Server.SortedByIdDetermined` shows this never shows under `internal_id` order, the only order the page asks for.
- Api.HandleCount: the count body's `total` is an optional integer. `Number(...)` of a string, a float or a `null` JSON body (api.ts:79) is not represented.
- Api.HandleList: the JSON body is taken as already decoded into rows or a parse error; JSON decoding and the response schema are not modelled.
- FormEncoding.ParseQuery: gives `None` when a name or value is not well-formed UTF-8 once percent-decoded (`a=%FF`, say). Python's `parse_qsl` decodes with `errors="replace"` and yields U+FFFD instead. Every query the client serializes is well-formed, and only those reach the proofs.
- PageState.Step: a settlement applies `then` or `catch` and `finally` as one step. The render between them, with new rows while still loading, is not modelled.
- PageState.Mount: a state update and the start of the effect it triggers are one step, here and in `PageState.Rerun`, so the paint in between is not modelled. On the first paint `loading` is still false with no rows, so the page briefly shows "No results found." (page.tsx:172 and 330-336). After Submit, Prev or Next it shows the new page number with the old rows before `loading` turns on.
- PageState.Answer: the two calls are modelled as settling together; their timing shows only in which failure wins, which is a parameter.
- Records.FuneralHome: latitude and longitude are floating-point columns no core operation reads. `cluster_id` is carried but never read.
- View.Fmt: the card's rendering (JSX, chips, the loading grid, `toLocaleString` of the total) is not modelled. The website label shows the trimmed text, as page.tsx:70 and 131 do.
- Server.BindFilters: there is no website filter on the server; the page never sends one either.
- Server.LastValue: a repeated parameter binds to its last value. The client never repeats a name, which `EndToEnd.LastValueIsLookup` uses.
- The CORS middleware, the `/health` endpoint, the database session and the response schema (main.py:16-33, db.py, schemas.py) are not modelled.
- A filter of white space only (main.py:37) is truthy in Python, so its pattern is `%%`, which drops `NULL` values. It is modelled as written (`Server.BlankFilterExcludesNull`); the page never sends one, because it trims first.
