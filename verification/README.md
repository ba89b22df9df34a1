# stocks-app in Dafny

A model of the core of `stocks-app`. The application scrapes daily quotes and insider trades of stock tickers from the Nasdaq web site into a PostgreSQL database, and serves them back as HTML pages or as JSON under `/api`. Three parts are modelled:

- **Scraping** (module `Parser`, with `Text` and `Dom`). `find_tag`, `parse_table`, the history and insider-trade row conversions, and the trade page count read from the "last page" link. The HTML page is abstracted to what `find` returns and the cell texts of the table rows.
- **Storing** (modules `Tables`, `Store`, `Fetcher`).
  - The generic insert-or-update `upsert` on a table keyed by its natural key (`Tables`).
  - The four tables, with the column widths, enum column, unique keys and foreign keys of the models (`Store`).
  - The fetch schedule, the history and trade tasks, and the run that catches every task failure (`Fetcher`). The program only logs each task's result or error. The report's success and failure counts are this model's summary of those log lines; the program computes no such counts.
- **Serving** (modules `Queries`, `Handlers`).
  - The JSON-or-HTML decision, and the lookups that answer 404.
  - The validation of the analytic pages' query arguments.
  - The result sets of the two raw SQL queries. The analytics query gives every same-type price difference between two dates in a window. The delta query gives the price moves of at least a given size over the smallest number of days. Each query is specified as a set comprehension and computed by a nested-loop join proved equal to it.

The model works on immutable values. The database is a `Store` value, and every write returns the new store or the error the database would raise. Dates are day numbers. Prices and volumes are `real`. The date parser and `float()` are parameters (`Converters`), as are the web site (`Web`, a function from requests to responses) and the argument converters of the web framework (`FieldConverters`).

## Model

| member | source | states |
|---|---|---|
| Dom.Find | app/data_fetcher.py:63 | `find` gives a tag exactly when the element holds one for the selector |
| Parser.ParsePage | app/data_fetcher.py:46-50 | no response is a transport error, a 4xx or 5xx status is an HTTP error carrying that status, and any other status gives the page |
| Parser.FindTag | app/data_fetcher.py:63-67 | `ParsingError` exactly when the lookup finds nothing, otherwise the found tag |
| Parser.ParseTable | app/data_fetcher.py:78-79 | one list per direct `tr`, one cell per `td`, each cell the stripped text and therefore trimmed |
| Text.Strip | app/data_fetcher.py:78 | the result is trimmed and is what is left of the input after a whitespace prefix and a whitespace suffix |
| Text.StripPadded | app/data_fetcher.py:78 | stripping a trimmed text padded with whitespace on both sides gives that text back |
| Text.StripIdempotent | app/data_fetcher.py:78 | stripping twice is stripping once |
| Text.RemoveChar | app/data_fetcher.py:105-109 | `replace(',', '')` leaves no comma, keeps every other character with its count, and changes nothing without a comma |
| Text.RemoveCharAppend | app/data_fetcher.py:105-109 | comma removal distributes over concatenation, so the kept characters stay in order |
| Text.Lower | app/data_fetcher.py:90 | `ticker.lower()` keeps the length, turns each ASCII upper-case letter into its lower-case letter, and keeps every other character |
| Text.LowerIdempotent | app/data_fetcher.py:90 | lowering an already lowered ticker changes nothing |
| Parser.HistoryRow | app/data_fetcher.py:97-113 | a row of other than 6 cells is skipped; an item takes its date from cell 0 and the five numbers from cells 1-5 with commas removed; a row with a valid date and five valid numbers is always an item; the row fails the page exactly when the date parser raises something other than `ValueError` |
| Parser.TradeRow | app/data_fetcher.py:137-155 | a row of other than 8 cells is skipped; the fields come from their cells; the last price is absent exactly when its cell is empty and is read without removing commas; a row whose conversions succeed is always an item; the row fails the page exactly when the date parser raises something other than `ValueError` |
| Parser.CollectRows | app/data_fetcher.py:97-115 | skipped rows leave no item, every item comes from a row, every converted row's item is kept, and the first escaping error fails the whole page |
| Parser.CollectRowsAppend | app/data_fetcher.py:97-115 | converting `a + b` gives the items of `a` followed by those of `b`, or the first error: rows are processed in order and the output keeps table order |
| Parser.SkippedRowIsInvisible | app/data_fetcher.py:98-100 | removing a skipped row from anywhere in the table does not change the result |
| Parser.HistoryNumberIgnoresCommas | app/data_fetcher.py:105-109 | a history number with thousands separators reads as the same number written without them |
| Parser.CommaInLastPriceDropsTrade | app/data_fetcher.py:150 | when `float()` rejects commas, a trade whose last price contains a comma is never an item |
| Parser.ParseHistory | app/data_fetcher.py:90-115 | a fetch error is passed on; a missing content div or table raises `ParsingError` for that selector; a table without a body raises `AttributeError`; otherwise the result is the conversion of that body's rows |
| Parser.FirstValue | app/data_fetcher.py:171 | `parse_qs(...).get(name)[0]`: nothing exactly when no field gives a non-blank value for the name, otherwise the value of the first field that does |
| Parser.UrlQuery | app/data_fetcher.py:169 | the `.query` that `urlparse` gives when it accepts the address never holds a `#`; it is empty when the URL before its fragment has no `?`, and otherwise it is the text between the first `?` and the fragment |
| Parser.HostLength | app/data_fetcher.py:169 | `urlsplit` ends a network location at the first `/`, `?` or `#`: the run before it holds none of them, and the character after it is one |
| Parser.NetLoc | app/data_fetcher.py:169 | `urlsplit(...).netloc`: present exactly when the address starts with `//` or with `scheme://`; it is the text after `//` up to the first `/`, `?` or `#` |
| Parser.UrlParse | app/data_fetcher.py:169 | `urlparse` raises `ValueError` exactly when the network location holds a `[` without a `]` or a `]` without a `[`; otherwise its query is `UrlQuery` |
| Parser.NetLocPrefix | app/data_fetcher.py:169 | the network location of `path?rest` is that of `path` when `path` has no `?`: nothing in the query changes it |
| Parser.HostCheckPrefix | app/data_fetcher.py:169 | so `urlparse` refuses `path?rest` exactly when it refuses `path` |
| Parser.UnbalancedHostFails | app/data_fetcher.py:168-171 | a last-page link to `http://` and a host with one bracket but not the other (`http://[x?page=3`) fails the page count with `ValueError`, whatever follows the host |
| Parser.UrlQueryWithFragment | app/data_fetcher.py:169 | the query of `path?query#fragment` is `query`, so the fragment is cut off; `urlparse` gives it unless the network location of `path` is malformed, and then raises `ValueError` |
| Parser.UrlQueryOf | app/data_fetcher.py:169 | the query of `path?query` is `query` when neither part holds `#` and the path holds no `?`; `urlparse` gives it unless the network location of `path` is malformed, and then raises `ValueError` |
| Parser.SplitEach | app/data_fetcher.py:171 | no piece holds the second separator, no input piece is lost, and joining the pieces with the separator gives the joined input back |
| Parser.QueryFields | app/data_fetcher.py:171 | the fields `parse_qs` sees: at least one, none holding `;`, and joined with `;` they are the query with every `&` read as `;` |
| Parser.LinkPage | app/data_fetcher.py:169-171 | the `page` value of a link is never blank, and a link whose `href` has no `?` gives none |
| Parser.LinkPageWithFragment | app/data_fetcher.py:169-171 | a link to `path?page=N#fragment` has `N` as its page value, so the fragment does not change the page; `urlparse` of its address gives the query `page=N`, or `ValueError` exactly when the network location of `path` is malformed |
| Parser.SingleFieldValue | app/data_fetcher.py:171 | a query made of one `name=value` field gives `value` for `name` |
| Parser.PageCount | app/data_fetcher.py:160-171 | a missing last-page link raises `ParsingError`; a link whose network location is malformed raises `urlparse`'s `ValueError`; otherwise a link without a `page` value gives 1, and one with a value gives the value read by `int()`, or `ValueError` when `int()` rejects it |
| Parser.DefaultPageCount | app/data_fetcher.py:171 | the default `'1'` reads as one page |
| Parser.PageCountOfLink | app/data_fetcher.py:168-171 | a last-page link to `path?page=N` gives exactly `N` pages, or `ValueError` when the network location of `path` is malformed |
| Text.ParseInt | app/data_fetcher.py:171 | `int()` succeeds exactly on a stripped text that is an optional sign followed by decimal digits |
| Text.ParseDigits | app/data_fetcher.py:171 | `int()` of a run of digits is its decimal value |
| Text.ParseNegativeDigits | app/data_fetcher.py:171 | `int()` of a minus sign followed by digits is the negated decimal value |
| Text.ParsePadded | app/data_fetcher.py:171 | `int()` of whitespace, an optional `+` or `-`, digits and whitespace is the digits' value with the sign applied, so `int(" +7 ")` is 7 |
| Text.IntToStringRoundTrip | app/data_fetcher.py:171 | `int(str(n)) == n` for every integer |
| Text.JoinSplit | app/data_fetcher.py:171 | splitting a query on a separator loses nothing: joining the pieces gives the text back |
| Text.JoinAppend | app/data_fetcher.py:171 | joining two non-empty runs of pieces puts exactly one separator between the two joins |
| Text.SplitOnce | app/data_fetcher.py:171 | a `name=value` field splits around its first `=`, and only a text holding `=` splits |
| Parser.ParseTrades | app/data_fetcher.py:127-157 | a fetch error or a page-count error is passed on; a page past the count gives no items; otherwise a missing `genTable` div or table raises `ParsingError` for that selector, and the result is the conversion of that table's rows |
| Parser.PastLastPageIsEmpty | app/data_fetcher.py:128-131 | past the last page the result is empty and no error, whatever the page holds where the table would be |
| Models.OwnerTypeFromName | app/app/models.py:11-20 | a name denotes the member whose `str` it is, and no member when no member has that name |
| Models.OwnerTypeName | app/app/models.py:16-20 | `str` of the member with value `v` is the `v`-th declared name: `direct`, `indirect` |
| Models.OwnerTypeMembers | app/app/models.py:11-20 | exactly two members, `direct` = 1 and `indirect` = 2, each found again from its name |
| Models.PriceTypeFromName | app/app/models.py:23-34 | a name denotes the member whose `str` it is, and no member when no member has that name |
| Models.PriceTypeName | app/app/models.py:28-34 | `str` of the member with value `v` is the `v`-th declared name: `open`, `close`, `low`, `high` |
| Models.PriceTypeMembers | app/app/models.py:23-34 | exactly four members, `open`, `close`, `low`, `high` = 1..4, each found again from its name; a text is among the names exactly when it denotes a member |
| Models.PriceTypeNames | app/app/handlers.py:194 | `list(map(str, PriceType))` lists the member names in declaration order |
| Models.PriceColumnSelects | app/app/handlers.py:236 | the column `type + '_price'` is the quote field of that price type |
| Models.RoundToInteger | app/app/models.py:92-94 | a float written to an `Integer` column becomes the nearest integer, halves rounded away from zero |
| Models.RoundToIntegerWhole | app/app/models.py:92-94 | a whole number is stored as itself, and a larger float never stores a smaller integer |
| Tables.Lookup | app/data_fetcher.py:289 | `filter_by(**key).first()` finds the row exactly when one has the key |
| Tables.Upsert | app/data_fetcher.py:270-296 | exactly one row has the key afterwards and it holds the data; a resident row keeps its id, a new row gets an unused id; no other row changes; table validity is kept |
| Tables.UpsertKeepsIds | app/data_fetcher.py:280-292 | no identity disappears in an upsert |
| Tables.UpsertLastWriteWins | app/data_fetcher.py:283-294 | two upserts under one key leave what the second alone leaves, so repeating an upsert changes nothing |
| Store.UpsertStock | app/data_fetcher.py:233 | fails exactly when the ticker is longer than 5; otherwise the stock row for the ticker exists, a resident one keeps its id, every other stock row is unchanged, other tables do not change, and validity is kept |
| Store.UpsertStockAgain | app/data_fetcher.py:256 | upserting a stored ticker changes nothing and returns its row |
| Store.UpsertQuote | app/data_fetcher.py:236 | fails exactly when the `(stock_id, date)` key is free and the stock does not exist, since the insert is refused and the fallback finds no row to update; otherwise the key holds the data, a resident quote keeps its id, other quotes and tables do not change, and validity is kept |
| Store.UpsertInsider | app/data_fetcher.py:258-259 | fails exactly when the name is over 100 or the relation over 50 characters; otherwise the insider row for the name holds the relation, a resident one keeps its id, and every other insider row is unchanged |
| Store.TradeDataOf | app/app/models.py:89-94 | the enum column accepts exactly the member names and stores the named member; the share counts are stored rounded to integers |
| Store.AddTrade | app/data_fetcher.py:261-262 | the trade is appended with a fresh id exactly when its owner type is a member, its transaction type fits 100 characters, both share counts round into the `integer` range, and its stock and insider exist; the error is `DataError` for a bad value and `IntegrityError` for a missing reference; validity is kept |
| Store.AddTradeOutOfRange | app/data_fetcher.py:261-262 | a share count rounding past 2^31 - 1, such as 3,000,000,000 shares held, makes the commit raise `DataError` |
| Store.AddTradeTwiceKeepsBoth | app/app/models.py:79-94 | trades have no key beyond `id`: adding the same trade twice stores two rows with equal data and different ids |
| Fetcher.TickerTasks | app/data_fetcher.py:208-210 | a ticker's block is its history task followed by trade tasks for pages 1..N |
| Fetcher.Schedule | app/data_fetcher.py:207-210 | every submitted task is for a listed ticker, and every trade task asks for a page from 1 to the page budget |
| Fetcher.ScheduleLength | app/data_fetcher.py:207-210 | `fetch` submits `|tickers| * (1 + max_trades_pages)` tasks |
| Fetcher.ScheduleAt | app/data_fetcher.py:207-210 | the task at `i * (1 + N) + p` is ticker `i`'s history task for `p = 0` and its trade task for page `p` otherwise |
| Fetcher.SaveQuotes | app/data_fetcher.py:234-236 | only quotes change, and every resident quote keeps its id |
| Fetcher.SaveQuotesValid | app/data_fetcher.py:234-236 | on a valid database whose stock exists every quote write succeeds and validity is kept |
| Fetcher.SaveQuotesCovers | app/data_fetcher.py:234-236 | every date of the history has a quote of the stock afterwards |
| Fetcher.SaveQuotesLastWins | app/data_fetcher.py:234-236 | each date holds the data of the last history item with that date |
| Fetcher.SaveQuotesKeepsOthers | app/data_fetcher.py:234-236 | quotes of other stocks and of dates not in the history are unchanged |
| Fetcher.SaveQuotesResident | app/data_fetcher.py:236 | when every quote is already resident the writes add no row and draw no id |
| Fetcher.SaveQuotesAgainAt | app/data_fetcher.py:234-236 | writing the same history a second time leaves each quote as the first write left it |
| Fetcher.SaveQuotesAgain | app/data_fetcher.py:234-236 | writing the same history twice stores what writing it once stores |
| Fetcher.SaveTrades | app/data_fetcher.py:257-262 | only insiders and trades change, trades are only appended, and resident insiders keep their ids |
| Fetcher.SaveTradesValid | app/data_fetcher.py:257-262 | on a valid database whose stock exists the writes fail exactly at the first item whose insider, owner type, transaction type or share counts the columns refuse, and validity is kept |
| Fetcher.FirstRefused | app/data_fetcher.py:257-262 | the position of the first item the columns refuse: every earlier item is accepted, the item there is refused, and its problem is the page's first problem |
| Fetcher.SaveTradesStopsAt | app/data_fetcher.py:257-262 | the loop stops at the first refused item: one trade is appended for each earlier item, in order, and the refused item's insider row is written when it fits |
| Fetcher.SaveTradesAppends | app/data_fetcher.py:257-262 | when every write succeeds one trade is appended per item, in item order, referring to the stock and to the insider row of the item's name |
| Fetcher.SaveTradesAgain | app/data_fetcher.py:257-262 | writing the same items twice succeeds twice and appends the same trade data twice |
| Fetcher.RunHistory | app/data_fetcher.py:222-242 | on a valid database the task keeps validity and reports the outcome decided by the page and ticker alone; a parse failure writes nothing, and on a valid database no failure writes anything; insiders and trades are untouched and stored stocks keep their ids |
| Fetcher.RunHistoryStores | app/data_fetcher.py:222-242 | a collected history task leaves the stock row and, under every item's date, the quote of the last item with that date; quotes of other stocks are untouched |
| Fetcher.RunHistoryAgain | app/data_fetcher.py:222-242 | re-running a successful history task changes nothing and reports the same |
| Fetcher.RunTrades | app/data_fetcher.py:244-268 | on a valid database the task keeps validity and reports the outcome decided by the page and ticker alone; a parse failure writes nothing; quotes are untouched, trades only appended, and stored stocks and insiders keep their ids |
| Fetcher.RunTradesStores | app/data_fetcher.py:244-268 | a collected trade task leaves the stock row and appends one trade per parsed item, in page order, each referring to the stock and to its insider's row |
| Fetcher.RunTradesAgain | app/data_fetcher.py:244-268 | re-running a successful trade task reports the same count and appends the same trades again |
| Fetcher.RunTask | app/data_fetcher.py:208-210 | on a valid database every task keeps validity and reports its own outcome, whatever the database held before; trades only grow and stored stocks and insiders keep their ids |
| Fetcher.RunAll | app/data_fetcher.py:212-218 | one outcome per task in order, each the task's own on a valid database; a failure does not stop the run; stored stocks keep their ids |
| Fetcher.RunTaskKeepsHistory | app/data_fetcher.py:222-242 | a stored history survives any later task: other tickers write under other stock ids, and the same ticker stores the same page again |
| Fetcher.RunAllKeepsHistory | app/data_fetcher.py:212-218 | a stored history survives a whole run of later tasks |
| Fetcher.RunAllStoresHistory | app/data_fetcher.py:212-242 | a collecting history task of a run leaves its history in the run's final database |
| Fetcher.RunAllKeepsTrades | app/data_fetcher.py:212-218 | stored trades survive a run of later tasks, since trades are only appended and insider ids stay |
| Fetcher.RunAllStoresTrades | app/data_fetcher.py:212-268 | a collecting trade task of a run leaves its page's trades, in order, in the run's final database |
| Fetcher.Tally | app/data_fetcher.py:212-218 | the success count is the number of positions holding a collected outcome and the failure count the number holding a failed one; they add up to the number of tasks, and no failure means every task collected |
| Fetcher.Fetch | app/data_fetcher.py:197-220 | one outcome per scheduled task, the counts those of collected and failed outcomes, trades only appended, validity kept, and each outcome the scheduled task's own |
| Fetcher.FetchStoresHistory | app/data_fetcher.py:207-218 | every ticker whose history task collects ends the fetch with its stock row and that page's quotes stored, whatever the other tasks did |
| Fetcher.FetchStoresTrades | app/data_fetcher.py:207-218 | every collected trade page ends the fetch with its trades stored, in page order, from some position on |
| Fetcher.FetchOutcomeAt | app/data_fetcher.py:207-218 | ticker `i`'s history and trade-page outcomes sit at `i * (1 + N) + p` and depend on that ticker and page alone |
| Handlers.BuildResponse | app/app/handlers.py:32-42 | JSON exactly for an API request, otherwise the named template, always with the given data |
| Handlers.IsApiRequest | app/app/handlers.py:22-29 | a request is an API request exactly when its path's first four characters are `/api` |
| Handlers.ApiPrefix | app/app/handlers.py:22-29 | every `/api/...` path gets JSON; a `/...` path gets HTML unless it starts with `api`, so `/apix` counts as an API request |
| Handlers.QuotesOf | app/app/handlers.py:73 | the quote rows of exactly the given stock |
| Handlers.TradesOf | app/app/handlers.py:94 | the trades of the stock, and of the insider when one is given, and no others |
| Handlers.TradesOfRefines | app/app/handlers.py:118 | filtering a stock's trades by insider gives the stock-and-insider filter |
| Handlers.GetTicker | app/app/handlers.py:62-80 | 404 exactly when no stock has the ticker; otherwise that stock's quotes, as JSON exactly for an API request |
| Handlers.TickerQuotesByDate | app/app/handlers.py:72-73 | on a valid database no two quotes of a ticker page share a date |
| Handlers.GetInsiders | app/app/handlers.py:83-101 | 404 exactly when no stock has the ticker; otherwise exactly that stock's trades |
| Handlers.GetInsider | app/app/handlers.py:104-126 | 404 exactly when the ticker or the insider name has no row; otherwise exactly the trades matching both ids |
| Handlers.InsiderWithinTicker | app/app/handlers.py:116-118 | the insider page lists exactly the ticker page's trades made by that insider (as sequences, under the append order both pages use in the model) |
| Handlers.Field | app/app/handlers.py:129-132 | a required field has a value exactly when it is present and converts |
| Handlers.ValidateAnalytics | app/app/handlers.py:129-132 | valid exactly when both dates are present and convert; otherwise the failing fields, exactly |
| Handlers.ValidateDelta | app/app/handlers.py:192-195 | valid exactly when `value` converts and is at least 0 and `type` is a price type name; otherwise the failing fields, exactly |
| Handlers.DeltaColumn | app/app/handlers.py:236 | the compared column of a valid request is the quote field of the requested price type |
| Handlers.GetAnalytics | app/app/handlers.py:135-189 | 422 exactly on invalid arguments, else 404 exactly for an unknown ticker, else exactly the analytics rows of the stock and window |
| Handlers.GetDelta | app/app/handlers.py:198-251 | 422 exactly on invalid arguments, else 404 exactly for an unknown ticker, else exactly the delta rows, empty exactly when no pair qualifies |
| Queries.Abs | app/app/handlers.py:169 | SQL `abs` is non-negative and is the value or its negation |
| Queries.SelfJoin | app/app/handlers.py:170 | the nested-loop join yields exactly the rows of every pair of quotes |
| Queries.AnalyticsRowsOf | app/app/handlers.py:164-175 | a pair yields one row per price type exactly when it is of the stock, ordered by date and inside the window |
| Queries.AnalyticsQuery | app/app/handlers.py:149-177 | exactly the rows of the set comprehension; each starts on or after `date_from`, ends on or before `date_to`, spans at least a day, and has `price_diff = abs(start - end) >= 0` |
| Queries.AnalyticsRowMeaning | app/app/handlers.py:164-175 | a row is in the result exactly when two quotes of the stock inside the window, the earlier first, give its dates and its type's prices |
| Queries.AnalyticsEmptyWindow | app/app/handlers.py:170-173 | a window of no days gives no rows |
| Queries.DeltaRowsOf | app/app/handlers.py:216-225 | a pair yields its row exactly when both quotes are of the stock, dated in order, and their prices differ by at least `value` |
| Queries.MinDateDiff | app/app/handlers.py:229-232 | `MIN(date_diff)` is absent exactly for no candidates and is otherwise a candidate's gap no larger than any other |
| Queries.KeepDateDiff | app/app/handlers.py:227-232 | exactly the candidates with the given gap |
| Queries.DeltaQuery | app/app/handlers.py:213-234 | exactly the rows of the specification; all share one gap; empty exactly when no pair qualifies |
| Queries.DeltaRowMeaning | app/app/handlers.py:215-232 | every row joins two quotes of the stock, earlier first, with prices at least `value` apart, a gap of `end - start` days, and no qualifying pair closer |
| Queries.SmallestGap | app/app/handlers.py:229-232 | a non-empty set of candidates has one with the smallest gap |
| Queries.DeltaThreshold | app/app/handlers.py:223 | the result is empty exactly when no pair qualifies; a larger `value` admits only pairs a smaller one admits, and never gives a smaller smallest gap |

## Left out

- HTTP and HTML (`parse_page`, app/data_fetcher.py:46-50, and the BeautifulSoup calls): the site is a function from requests to responses, and a page is the answer of each `find` plus the cell texts of its table rows.
- Date parsing and `float()`: foreign conversions, passed in as `Converters`. Dates are day numbers and numbers are `real`, so IEEE rounding, infinities and NaN are not modelled.
- The thread pool (app/data_fetcher.py:195, 212): tasks run one after another in submission order. On a valid database each task's outcome does not depend on the others, which is what `FetchOutcomeAt` states. The final database contents under other interleavings are not modelled, nor is the insert race that makes the update fallback find no row.
- SQLAlchemy session mechanics: every write commits on its own. A refused write leaves the tables as they were, and the rollback in the task's `except` undoes nothing already committed.
- The `id` sequence: a conflicting insert here draws no id, while PostgreSQL burns a sequence value. Ids stay unique; their exact values are not modelled.
- `ON UPDATE CASCADE` on the foreign keys: ids never change in the model.
- Row ids are unbounded naturals; the `integer` range of the `id` columns is not reached by the model.
- Text.Lower: lowers ASCII letters only; Python's `str.lower()` also lowers non-ASCII letters and can lengthen a string (`'İ'`), which is not modelled.
- `int()` on the page value: digit underscores and non-ASCII digits are not accepted here, and the digit-count limit of newer Python releases (4300 digits) is not modelled. `parse_qs`: percent and `+` decoding are not modelled; blank values are dropped and `&` and `;` both separate fields.
- A missing last-page link raises `ParsingError` from `find_tag` rather than giving one page. Only a link without a `page` value gives one page. The model follows the code.
- Logging, the result message strings (reduced to item counts), and the `__main__` block with its argument parsing and tickers file (app/data_fetcher.py:299-315).
- `get_tickers` (app/app/handlers.py:45-59): it lists every stock with no lookup or validation; the response decision it uses is `BuildResponse`.
- URL unquoting of the insider name (app/app/handlers.py:115): the name is taken as already decoded.
- SQL execution and `quote_ident` (app/app/handlers.py:237-241): only the result sets are modelled; the column name is a validated price type, so quoting does not change it.
- Serialization of rows into JSON, template rendering, the body of a 422 answer, and the form pages (app/app/handlers.py:254-293).
- The framework and configuration files: forms, serialization schemas, configuration, application setup, the server entry point and the JSON encoder of enums.
- Queries.AnalyticsQuery: states the set of result rows, not their order or how often each appears; PostgreSQL promises no order without `ORDER BY`.
- Queries.DeltaQuery: states the set of result rows, not their order or how often each appears, for the same reason.
- Handlers.GetAnalytics: the body is stated as a set of rows; `quotes` is the quote table in an unspecified scan order.
- Handlers.GetDelta: the body is stated as a set of rows; `quotes` is the quote table in an unspecified scan order.
- Handlers.GetInsiders: the trades are listed in append order; the source's query has no `ORDER BY`, so only which rows are listed is promised there, not their order.
- Handlers.GetInsider: the same; its trades are listed in append order, which the source does not promise.
- Handlers.InsiderWithinTicker: the sequence equality rests on both pages using append order; under the source's unordered queries only the two pages' sets of rows are promised to agree.
- Store.UpsertStock: a ticker longer than 5 characters is refused, while PostgreSQL truncates an over-long `varchar` value whose excess characters are all spaces. The program never sends such a value: tickers are stripped before use (app/data_fetcher.py:312).
- Store.UpsertInsider: an insider name or relation longer than its column is refused, while PostgreSQL would truncate excess that is all spaces. The program never sends such a value, because `parse_table` strips every cell (app/data_fetcher.py:78).
- Store.AddTrade: an over-long transaction type is refused, while PostgreSQL would truncate excess that is all spaces. The program never sends such a value, because `parse_table` strips every cell.
- Text.ParseInt: its contract states only when `int()` succeeds. The value is stated by `ParsePadded`, which covers every accepted text: whitespace, an optional sign, digits, whitespace.
- Parser.UrlParse: of the checks `urlsplit` makes, only the unbalanced `[`/`]` in the network location is modelled. Not modelled: the check that a non-ASCII network location does not normalise (NFKC) to one holding `/`, `?`, `#`, `@` or `:`, since there is no Unicode normalisation here; the validation of bracketed IPv6 hosts and the rule that a scheme starts with a letter, which newer releases added; and the removal of tab, CR and LF characters that newer releases make before splitting. The network location follows the scheme rules of Python 3.8, whose `urlsplit` reads `scheme://` after any non-empty run of scheme characters.
- Parser.LinkPage: its contract states only that a found value is non-empty and that an address without `?` has none. Its value on `path?page=N` links, with or without a fragment, is stated by `LinkPageOf` and `LinkPageWithFragment`. On other addresses it is stated only through the contracts of `UrlQuery`, `QueryFields` and `FirstValue`.
