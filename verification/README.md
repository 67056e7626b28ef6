# Lessons scraper: decision logic in Dafny

This project models the pure decision logic of the lessons scraper service
(`LessonsScraperService`). The service crawls a paginated lesson site with a
headless browser. It merges newly found lessons into the last stored snapshot
and does not re-scrape lessons it already has. The browser calls around the
logic are replaced by plain inputs: optional DOM reads and abstract
functions. Five rules are modelled:

- **Request filtering** (`ResourcePolicy`). Every outbound request's resource
  type is trimmed and lower-cased. It is aborted when it is one of twelve
  blocked types and continued otherwise.
- **Pagination** (`Pagination`, `Decimal`). The last page number becomes the
  listing URLs `root&_paged=1` … `root&_paged=last`, in ascending order.
- **Date parsing** (`DateParse`). `convertDate` cuts out the parenthesised part
  of the date text, deletes the first comma and splits on single spaces.
  `convertMonthToNumber` looks the month name up in a twelve-entry table. The
  table is an abstract `MonthTable` of twelve names. The lookup keeps
  JavaScript `Map` semantics, where a later duplicate key wins.
- **Record assembly** (`LessonRecord`). Each DOM read on a lesson page is an
  `Option<string>`. From them `Assemble` builds the lesson's tags, id, date
  and validity, and it always produces a record.
- **Reconciliation** (`Reconcile`). The `scrapController` loop walks listing
  pages and their item URLs in order. It skips URLs the working list already
  has and appends the record scraped for every other URL. The record is
  appended whether or not it is valid.

`Strings` models the JavaScript string primitives the service uses: `trim`,
`toLowerCase`, `indexOf`, `substring`, `replace` of one character and `split`.
It also defines `Join`, which the service never calls, so that `split` can be
stated by round trips.

Behaviours of the code worth knowing; the model follows the code:

- `convertDate` deletes the first comma anywhere, not a trailing one. It splits
  on single spaces, not on any white space. Extra tokens are ignored and
  missing ones are `undefined`.
- `convertDate` never returns `undefined`, because the `Date` constructor does
  not throw. So the `?? new Date()` default at line 249 never applies. A
  record's date is absent exactly when the date element is missing.
- `convertMonthToNumber` reports the first month as `-1`, the same as an
  unknown name. This is modelled as written and listed under Findings.
- A non-numeric last-page text coerces to `NaN`. `1 <= NaN` is false, so the
  result is an empty page list, not a failure.
- The retry loop in `genericScrapper` does not stop after a fixed number of
  attempts. Its condition `1 <= retries` never changes, so it retries until an
  attempt succeeds.

## Model

| member | source | states |
|---|---|---|
| `ResourcePolicy.Normalize` | src/scrap/lessons-scraper/lessons-scraper.service.ts:111 | the normalized type has no white space at either end and is no longer than the reported type |
| `ResourcePolicy.Classify` | src/scrap/lessons-scraper/lessons-scraper.service.ts:110-119 | a request is aborted exactly when its trimmed, lower-cased type is on the block list, and continued exactly when it is not; no request gets both decisions |
| `ResourcePolicy.BlockedTypesAborted` | src/scrap/lessons-scraper/lessons-scraper.service.ts:96-115 | each of the twelve listed types (image … ping) is aborted |
| `ResourcePolicy.ClassifyNormalWord` | src/scrap/lessons-scraper/lessons-scraper.service.ts:111-118 | for a type already written in lower case, the decision is plain block-list membership, in both directions |
| `ResourcePolicy.ClassifyIgnoresPaddingAndCase` | src/scrap/lessons-scraper/lessons-scraper.service.ts:111 | white space around a type and upper-case letters in it never change the decision |
| `ResourcePolicy.NormalizeIdempotent` | src/scrap/lessons-scraper/lessons-scraper.service.ts:111 | normalizing a type twice gives the same type as once, and classifying the normal form gives the same decision as classifying the raw type |
| `ResourcePolicy.NormalizeShape` | src/scrap/lessons-scraper/lessons-scraper.service.ts:111 | the normalized type has no white space at either end and no upper-case letter |
| `Strings.Trim` | src/scrap/lessons-scraper/lessons-scraper.service.ts:111 | `trim`'s result has no white space at either end and is no longer than its input |
| `Strings.TrimIsInfix` | src/scrap/lessons-scraper/lessons-scraper.service.ts:111 | `trim` only removes white space: the input is its trim with white space on both sides |
| `Strings.TrimPadding` | src/scrap/lessons-scraper/lessons-scraper.service.ts:232 | adding white space around a string does not change its trim |
| `Strings.ToLower` | src/scrap/lessons-scraper/lessons-scraper.service.ts:111 | lower-casing keeps the length and maps each character to its lower-case form, one position at a time |
| `Pagination.RabbiPagination` | src/scrap/lessons-scraper/lessons-scraper.service.ts:155-159 | for last page n ≥ 1 the loop yields exactly n URLs, and URL k (1-based) is `root&_paged=k`; for n < 1 it yields none |
| `Pagination.PageUrl` | src/scrap/lessons-scraper/lessons-scraper.service.ts:157 | a page URL is the root URL followed by `&_paged=` and a non-empty decimal numeral |
| `Pagination.PagesAscending` | src/scrap/lessons-scraper/lessons-scraper.service.ts:156-157 | URL k selects page k, so the URLs are pairwise distinct and strictly ascending by page number |
| `Pagination.PageNumberOfPageUrl` | src/scrap/lessons-scraper/lessons-scraper.service.ts:157 | the page number can be read back from every synthesized URL |
| `Decimal.NatToString` | src/scrap/lessons-scraper/lessons-scraper.service.ts:157 | the interpolated page number is a non-empty run of decimal digits with no leading zero |
| `Pagination.FourPages` | src/scrap/lessons-scraper/lessons-scraper.service.ts:155-159 | a last page of 4 gives `root&_paged=1` … `root&_paged=4`, in that order |
| `Decimal.ParseNatToString` | src/scrap/lessons-scraper/lessons-scraper.service.ts:157 | the decimal page number in a URL parses back to the number |
| `Decimal.NatToStringInjective` | src/scrap/lessons-scraper/lessons-scraper.service.ts:157 | distinct page numbers are written as distinct numerals |
| `DateParse.ConvertMonthToNumber` | src/scrap/lessons-scraper/lessons-scraper.service.ts:181-198 | the result is always in [-1, 11]; it is -1 exactly when the name is unknown or its entry is index 0; any other result is an index whose table name is the input |
| `DateParse.MapGet` | src/scrap/lessons-scraper/lessons-scraper.service.ts:182-195 | a lookup is absent exactly when no entry has the name; otherwise it gives the last index holding the name, as a later `set` overwrites an earlier one |
| `DateParse.MonthLookup` | src/scrap/lessons-scraper/lessons-scraper.service.ts:181-197 | with distinct names, the name at index k in 1..11 maps to k, and a name outside the table maps to -1 |
| `DateParse.FirstMonthLost` | src/scrap/lessons-scraper/lessons-scraper.service.ts:195-196 | the index-0 name maps to -1, the same result as an unknown name |
| `DateParse.MonthIndexInverse` | src/scrap/lessons-scraper/lessons-scraper.service.ts:181-197 | the corrected lookup maps the name at every index 0..11 to that index, and keeps "not found" apart from the first month |
| `DateParse.ConvertDate` | src/scrap/lessons-scraper/lessons-scraper.service.ts:163-179 | `convertDate` always yields a month number in [-1, 11]; a year token is present only when a day token is; neither contains a space |
| `DateParse.DateMonthWellFormed` | src/scrap/lessons-scraper/lessons-scraper.service.ts:164-168 | under the corrected lookup, the month of a well-formed date text is recovered for every month, including the first |
| `DateParse.DateTokens` | src/scrap/lessons-scraper/lessons-scraper.service.ts:164-167 | tokenising always yields at least one token (the month name), and no token contains a space |
| `DateParse.Parenthesised` | src/scrap/lessons-scraper/lessons-scraper.service.ts:165 | the cut-out text is never longer than the date text, and is empty when the text has no parentheses at all |
| `DateParse.TokenAt` | src/scrap/lessons-scraper/lessons-scraper.service.ts:164 | destructuring yields a token exactly when the position is inside the token list, and then yields the token at that position |
| `DateParse.ParenthesisedBetween` | src/scrap/lessons-scraper/lessons-scraper.service.ts:165 | when the first `(` precedes the first `)`, the parser reads exactly the text strictly between them |
| `DateParse.ConvertDateWellFormed` | src/scrap/lessons-scraper/lessons-scraper.service.ts:163-170 | for `pre(<month> <day>, <year>)post` the first three tokens are the month, the day and the year, in that order |
| `DateParse.ConvertDateNoParentheses` | src/scrap/lessons-scraper/lessons-scraper.service.ts:164-167 | text with no parentheses yields an empty month token and no day or year |
| `Strings.IndexOf` | src/scrap/lessons-scraper/lessons-scraper.service.ts:165 | the result is the position of the first occurrence, or -1 exactly when the character does not occur |
| `Strings.Substring` | src/scrap/lessons-scraper/lessons-scraper.service.ts:165 | `substring` never yields more than the string, and with in-range ordered bounds yields exactly the slice between them |
| `Strings.SubstringSymmetric` | src/scrap/lessons-scraper/lessons-scraper.service.ts:165 | swapping `substring`'s two bounds does not change the result |
| `Strings.RemoveFirst` | src/scrap/lessons-scraper/lessons-scraper.service.ts:166 | `replace(",", "")` leaves text without a comma unchanged and otherwise removes exactly one character |
| `Strings.RemoveFirstAt` | src/scrap/lessons-scraper/lessons-scraper.service.ts:166 | deleting a comma deletes only the first one: the text before it and the text after it, later commas included, are kept unchanged and joined |
| `Strings.RemoveFirstCount` | src/scrap/lessons-scraper/lessons-scraper.service.ts:166 | when the text has a comma, exactly one comma is removed |
| `Strings.SplitJoin` | src/scrap/lessons-scraper/lessons-scraper.service.ts:167 | joining the pieces of a split with the separator gives back the original string |
| `Strings.JoinSplit` | src/scrap/lessons-scraper/lessons-scraper.service.ts:167 | splitting a join of separator-free pieces gives back the pieces |
| `Strings.Split` | src/scrap/lessons-scraper/lessons-scraper.service.ts:167 | `split` never yields an empty array: the empty string gives one empty piece |
| `Strings.SplitPieces` | src/scrap/lessons-scraper/lessons-scraper.service.ts:167 | no piece of a split contains the separator |
| `Strings.SplitLength` | src/scrap/lessons-scraper/lessons-scraper.service.ts:232 | a string splits into one more piece than it has separators |
| `LessonRecord.TagList` | src/scrap/lessons-scraper/lessons-scraper.service.ts:230-242 | an absent tag anchor contributes no tags; a present one contributes one tag per comma-separated piece, tag k being the trim of piece k, so every tag is trimmed and comma-free |
| `LessonRecord.TagListRoundTrip` | src/scrap/lessons-scraper/lessons-scraper.service.ts:231-233 | reading back a comma-joined list of clean tags, with any white space around each tag, gives those tags, in order, duplicates included |
| `LessonRecord.AssembledTags` | src/scrap/lessons-scraper/lessons-scraper.service.ts:206-242 | a record's tags are the keyword tags followed by the series tags, whatever white space surrounds each tag in the anchor text, and an absent anchor contributes nothing |
| `LessonRecord.CanonicalIdOfSegments` | src/scrap/lessons-scraper/lessons-scraper.service.ts:252-257 | an href joined with `/` from two or more `/`-free segments yields its second-to-last segment as the id |
| `LessonRecord.CanonicalId` | src/scrap/lessons-scraper/lessons-scraper.service.ts:255-257 | an id is derived exactly when the canonical href contains a `/` (otherwise index -1 is `undefined`), and it never contains a `/` |
| `LessonRecord.AssembledId` | src/scrap/lessons-scraper/lessons-scraper.service.ts:252-269 | the id comes from the canonical link, and the record's url stays the requested URL whatever the canonical link says |
| `LessonRecord.Assemble` | src/scrap/lessons-scraper/lessons-scraper.service.ts:200-272 | every page yields a record; its url is the requested one; it is valid exactly when the media link and the title are both present; without a canonical link the id is unset; the date is present exactly when the date element is |
| `LessonRecord.ValidityIndependent` | src/scrap/lessons-scraper/lessons-scraper.service.ts:262 | two pages that agree on whether the media link and the title are present agree on validity, whatever their tags, date and id |
| `LessonRecord.TitleWithoutAudio` | src/scrap/lessons-scraper/lessons-scraper.service.ts:213-228 | a page with a title and no audio link still yields a record, with no media URL and marked invalid |
| `LessonRecord.NothingFound` | src/scrap/lessons-scraper/lessons-scraper.service.ts:213-272 | a page on which every query fails yields a record that has only the requested URL and is marked invalid |
| `Reconcile.ScrapController` | src/scrap/lessons-scraper/lessons-scraper.service.ts:40-55 | the nested page and item loops compute the crawl; the prior lessons are a prefix of the result; unique prior URLs stay unique |
| `Reconcile.Visit` | src/scrap/lessons-scraper/lessons-scraper.service.ts:44-52 | handling one item URL never changes the lessons already in the list; a known URL changes nothing, and any other URL adds exactly one lesson |
| `Reconcile.Scan` | src/scrap/lessons-scraper/lessons-scraper.service.ts:43-53 | the item loop keeps the list it starts from as a prefix and adds at most one lesson per item |
| `Reconcile.Crawl` | src/scrap/lessons-scraper/lessons-scraper.service.ts:40-55 | a whole crawl keeps the prior lessons as a prefix of the result |
| `Reconcile.ScrapPage` | src/scrap/lessons-scraper/lessons-scraper.service.ts:43-52 | the item loop of one listing page computes the left-to-right scan of its item URLs: known URLs skipped, every other one scraped and appended |
| `Reconcile.CrawlShape` | src/scrap/lessons-scraper/lessons-scraper.service.ts:41-55 | the result is the prior lessons followed by one scraped record per fetched URL, valid or not; a URL is fetched exactly when it is an item URL that no prior lesson has, and never twice; every item URL ends up with a lesson |
| `Reconcile.CrawlPreservesDistinct` | src/scrap/lessons-scraper/lessons-scraper.service.ts:44-52 | the prior list is a prefix of the result, so the length never decreases; unique prior URLs give unique result URLs |
| `Reconcile.CrawlIdempotent` | src/scrap/lessons-scraper/lessons-scraper.service.ts:43-47 | crawling the same pages again from the result fetches nothing and changes nothing |
| `Reconcile.VisitKnows` | src/scrap/lessons-scraper/lessons-scraper.service.ts:44-52 | handling one item URL keeps every known URL known and makes that URL known |
| `Reconcile.ScanCovers` | src/scrap/lessons-scraper/lessons-scraper.service.ts:43-52 | after the item loop every item URL has a lesson in the working list |
| `Reconcile.ScanFetchesItems` | src/scrap/lessons-scraper/lessons-scraper.service.ts:43-48 | the loop scrapes item URLs only |

## Findings

| source | as written | input that shows it | evidently intended | confidence | as-written member | corrected member |
|---|---|---|---|---|---|---|
| src/scrap/lessons-scraper/lessons-scraper.service.ts:196 | `if (!res) return -1` reads the found index 0 as "not found" | the name of the first month (table entry 0) gives -1, the same as an unknown name; the `Date` constructor then rolls it into the previous year's last month | the first month maps to 0, and -1 only for a name not in the table | high; not executed | `DateParse.FirstMonthLost` (about `DateParse.ConvertMonthToNumber`) | `DateParse.MonthIndexInverse` (about `DateParse.MonthIndex`, used by `DateParse.DateMonth`) |

The record assembly keeps the as-written lookup, because it models what the
service stores.

## Left out

- Browser plumbing is not modelled: getting the browser, opening and closing pages, setting headers, enabling request interception, navigation, selector waits and `$eval`/`$$eval`. Their results are the optional inputs of `PageReads` and the abstract `listing` and `fetch` functions.
- The retry loop of `genericScrapper` (line 85) is not modelled. Its condition never changes: with `retries ≥ 1` it retries until an attempt succeeds, and with `retries < 1` it makes no attempt and returns `undefined`. Termination depends on I/O outcomes. `fetch` and `listing` are therefore total functions, and a run in which a scrape yields `undefined` is not modelled. In the source that happens only when `retries < 1`; then `rabbiPagination` (line 40) already yields `undefined`, so `for (let page of pageUrls)` at line 41 throws into the `catch` at line 67 before any item is scraped, and no snapshot is stored.
- `extractLessonsUrlsFromRabbiPage` is a DOM query only and is modelled as the `listing` function.
- `Date` values are not modelled: building a date from year, month and day, the `updatedAt` and snapshot timestamps, and numeric coercion of the day and year tokens. Day and year are kept as raw tokens, so `NaN` is not modelled. The `catch` around `new Date` cannot fire.
- Pagination.RabbiPagination: takes the last page number as an integer. Non-integer coercions are not modelled: a fractional value behaves like its floor, and `NaN` behaves like any value below 1.
- Strings.ToLower: lower-cases ASCII letters only, not all of Unicode. The resource types the browser reports are ASCII.
- Snapshot storage, Telegram notifications, logging and configuration lookups are external collaborators. The model starts from the prior lesson list and returns the merged list. Writing it back and reporting the count are left to the caller.
- `src/main.ts` is application bootstrap and logger wiring, with no logic to model.
