# FTSE market analysis: a Dafny model of its data transformations

`FTSE_Market_Analysis.py` defines one class, `Market_Analysis`, and a short
script that drives it. The class:

- builds the ticker universe, which is every FTSE 100 and FTSE 250
  constituent without a '.' in its symbol, given the London suffix ".L" and
  sorted;
- when `pull_dividends` is set, scrapes a table of declared dividends and
  normalises it. It gets the fixed ten-column schema and ".L" on each ticker.
  Each "DD-Mon" text date resolves to a concrete day of the two-year window
  around today;
- downloads daily prices for the universe;
- reshapes the price response into one flat frame keyed by TICKER.

This project models those transformations as pure functions and proves
properties of them. Whatever the program fetches arrives as a parameter:
the constituent lists, the scraped dividend table, the price provider's
response and today's date.

Modules, one file each:

- `Wrappers` (wrappers.dfy): `Option` and `Result`. An exception the program
  would raise becomes `Failure` carrying a `Tables.Error` named after the
  Python exception. Only `LengthMismatch` is named differently: it stands for
  the ValueError "Length mismatch" that pandas raises when a `columns =`
  assignment (lines 94 and 157) has the wrong number of names.
- `Sorting` (sorting.dfy): insertion sort and de-duplication over a total
  order. It models Python's `sorted` and the level order pandas uses when
  unstacking.
- `Text` (text.dfy): Python's string order, and `str.upper` on ASCII.
- `Calendar` (calendar.dfy): the proleptic Gregorian calendar on day
  numbers, with day 0 = 1970-01-01, and the `strftime("%d-%b")` label of a
  day.
- `Universe` (universe.dfy): the ticker universe of `__init__`.
- `DateLookup` (dates.dfy): the date window and the earliest/latest matching
  rules of `format_dividends`.
- `Tables` (tables.dfy): the DataFrame operations the program uses, with the
  errors pandas raises for them. These are `columns =`, `insert`,
  `drop(columns=…)`, `set_index` and `reset_index`.
- `Dividends` (dividends.dfy): the body of `format_dividends`.
- `MarketData` (market.dfy): the body of `reformat_market_data`. It covers
  both the several-ticker stack/unstack path and the one-ticker path,
  followed by the tail the two paths share.
- `Analysis` (analysis.dfy): the object's attributes, each method as a step
  from one state to the next, and the driving script.

Four behaviours of the code are easy to miss:

- The universe is not de-duplicated. A symbol listed in both indices appears
  twice (`Universe.NoDeduplication`).
- A "DD-Mon" label can match three days of the 731-day window. Today, the
  same date a year earlier and the same date a year later all match when no
  29 February falls in between (`DateLookup.ThreeMatchesExample`).
- The two reshaping paths do not give the same column layout. The one-ticker
  path keeps the provider's field order (`MarketData.ProviderFrameSingleTicker`).
  The several-ticker path lists the fields in ascending string order
  (`MarketData.SeveralTickersResult`).
- `format_dividends` uses `datetime` and `timedelta`, and the script uses
  `datetime`, but the file imports neither. The model gives the intended
  behaviour, with today's date as a parameter.

## Model

| member | source | states |
|---|---|---|
| Universe.Candidates | FTSE_Market_Analysis.py:30 | Before sorting, every entry is a dot-free symbol followed by ".L", and each dot-free symbol occurs suffixed as often as the FTSE 100 and FTSE 250 lists hold it together. |
| Universe.Build | FTSE_Market_Analysis.py:30 | The universe is in ascending Python string order and is a permutation of the dot-free constituents with ".L" appended. |
| Universe.Membership | FTSE_Market_Analysis.py:30 | A string is in the universe exactly when it is some dot-free symbol of the FTSE 100 or FTSE 250 list followed by ".L". |
| Universe.NoDeduplication | FTSE_Market_Analysis.py:30 | The universe holds as many copies of a symbol plus ".L" as the two lists hold of the symbol together, so nothing is de-duplicated. |
| Universe.EntryShape | FTSE_Market_Analysis.py:30 | Every entry ends in ".L" and contains no '.' before the suffix. |
| Universe.OnlySortedArrangement | FTSE_Market_Analysis.py:30 | Any ascending arrangement of the candidates is the universe, so `sorted` has exactly one answer. |
| Universe.SuffixInjective | FTSE_Market_Analysis.py:30 | Two symbols with equal suffixed forms are equal. |
| Universe.WithSuffixCount | FTSE_Market_Analysis.py:30 | Appending ".L" carries each symbol's multiplicity over to the suffixed symbol. |
| Sorting.SortBy | FTSE_Market_Analysis.py:30 | The result is ascending under the given total order and is a permutation of the input. |
| Sorting.Insert | FTSE_Market_Analysis.py:30 | Inserting into an ascending sequence keeps it ascending and adds exactly that one element. |
| Sorting.SortedPermutationsEqual | FTSE_Market_Analysis.py:30 | Two ascending permutations of the same multiset are the same sequence. |
| Sorting.SortedDistinct | FTSE_Market_Analysis.py:158-161 | The result is ascending, repeats nothing and holds exactly the values of the input, as unstacked levels do. |
| Sorting.Dedup | FTSE_Market_Analysis.py:158-161 | On an ascending input, the result is ascending, has no repeats and has the same values. |
| Text.LexLe | FTSE_Market_Analysis.py:30 | `a <= b` on strings holds exactly when `a` is a prefix of `b` or, at the first position where they differ, `a` has the smaller code point. |
| Text.LexLeTotalOrder | FTSE_Market_Analysis.py:30 | Python's string comparison is reflexive, antisymmetric, transitive and total. |
| Text.UpperChar | FTSE_Market_Analysis.py:167 | A lower-case ASCII letter maps to its capital, 32 code points lower, and every other character is unchanged. |
| Text.Upper | FTSE_Market_Analysis.py:167 | An upper-cased name has the same length, and each character is upper-cased in place. |
| Text.UpperProperties | FTSE_Market_Analysis.py:167 | An upper-cased name has no lower-case letters, an upper-case name is left as it is, and upper-casing twice is the same as once. |
| Calendar.SplitEra | FTSE_Market_Analysis.py:115-119 | A day of a 400-year era splits into a year of the era and a day of that year, and the year start plus the day gives back the day of the era. A 366th day occurs only before a leap year. |
| Calendar.SplitEraInverse | FTSE_Market_Analysis.py:115-119 | Splitting the start of year `yoe` plus `doy`, with `doy` below 365, gives back `(yoe, doy)`. |
| Calendar.SplitYear | FTSE_Market_Analysis.py:119 | A day of a March-based year splits into a month and a day of month that fits that month. |
| Calendar.CivilFromDays | FTSE_Market_Analysis.py:115-119 | Every day number is a valid calendar date: the month is 1 to 12 and the day fits the month of that year, leap years included. |
| Calendar.DaysRoundTrip | FTSE_Market_Analysis.py:115-119 | Converting a day number to a date and back returns the same day number, so each day of the window has its own date. |
| Calendar.LeapYearPeriodic | FTSE_Market_Analysis.py:115-119 | Whether a year is a leap year repeats every 400 years. |
| Calendar.DayMonthLabel | FTSE_Market_Analysis.py:119 | `%d-%b` is six characters: a two-digit day, '-', and the English month abbreviation. |
| Calendar.Label | FTSE_Market_Analysis.py:119 | The label of a day is its day of the month in two digits, '-', and the English abbreviation of its month. |
| Calendar.LabelMeansDayAndMonth | FTSE_Market_Analysis.py:119 | Two days share a label exactly when they share both day of month and month. |
| Calendar.TwoDigitsInjective | FTSE_Market_Analysis.py:119 | Different days of the month print differently under `%d`. |
| DateLookup.EarliestMatch | FTSE_Market_Analysis.py:122-123 | The result is the least day of the range with the label, and nothing is returned exactly when no day of the range has it. |
| DateLookup.LatestMatch | FTSE_Market_Analysis.py:124-127 | The result is the greatest day of the range with the label, and nothing is returned exactly when no day of the range has it. |
| DateLookup.DeclarationDate | FTSE_Market_Analysis.py:110-123 | The declaration date is the earliest day within 365 days of today, both ends included, whose "DD-Mon" label is the text. It is missing exactly when no day of that window matches. |
| DateLookup.ExOrPaymentDate | FTSE_Market_Analysis.py:110-127 | The ex-dividend and payment dates are the latest matching day of the same window, and missing exactly when none matches. |
| DateLookup.ResolutionAsymmetry | FTSE_Market_Analysis.py:122-127 | Both rules agree on whether a text resolves, the declaration reading is never later than the other, and the two coincide exactly when only one day matches. |
| DateLookup.TieBreak | FTSE_Market_Analysis.py:122-127 | When two days of the window share a label, the declaration date is at or before the earlier one, and the ex-dividend/payment date is at or after the later one. The two readings differ. |
| DateLookup.MalformedTextIsMissing | FTSE_Market_Analysis.py:119-127 | A text that is not six characters long never resolves. |
| DateLookup.ThreeMatchesExample | FTSE_Market_Analysis.py:110-119 | With today 2026-10-10, "10-Oct" matches three days. It resolves to 2025-10-10 as a declaration date and to 2027-10-10 as an ex-dividend or payment date. |
| Tables.CountLabel | FTSE_Market_Analysis.py:168-169 | The count is zero exactly when the label is absent, and never exceeds the number of columns. |
| Tables.SetColumns | FTSE_Market_Analysis.py:94-95 | Relabelling fails with a length mismatch exactly when the new list has a different length. Otherwise the columns are the new names and the rows are unchanged. |
| Tables.SetColumnsRestores | FTSE_Market_Analysis.py:94-95 | Assigning the old labels back after a relabelling gives back the original table, so `columns =` changes only the labels. |
| Tables.UpperColumns | FTSE_Market_Analysis.py:167 | Every column name is upper-case and keeps its length, and the rows are unchanged. |
| Tables.KeptIncreasing | FTSE_Market_Analysis.py:168 | The columns kept by a drop stay in their original order. |
| Tables.KeptComplete | FTSE_Market_Analysis.py:168 | Every column not carrying the dropped label is kept. |
| Tables.DropColumn | FTSE_Market_Analysis.py:168 | Dropping raises KeyError exactly when the label is absent. Otherwise every column with that label goes, the rest keep their order, and each row keeps the cells of the kept columns. |
| Tables.WithoutMembership | FTSE_Market_Analysis.py:168 | A label survives the removal of another exactly when it was present and differs from the removed label. |
| Tables.InsertFirst | FTSE_Market_Analysis.py:165 | Inserting fails exactly when the name is already a column. Otherwise the new first column holds the value in every row and the old cells follow. |
| Tables.SetIndexUndoesInsertFirst | FTSE_Market_Analysis.py:165-169 | Indexing by a column just inserted at the front succeeds. Every row's index is the inserted value, and the columns and rows are the frame's from before the insert. |
| Tables.SetIndex | FTSE_Market_Analysis.py:169 | Indexing succeeds exactly when one column carries the name, and raises KeyError when none does. That column's cells become the index, and the other columns keep their order and cells. |
| Tables.PositionOf | FTSE_Market_Analysis.py:169 | The position holds the label and no earlier column does. |
| Tables.ResetIndex | FTSE_Market_Analysis.py:164 | The index comes back as the first column and the cells follow unchanged. This fails exactly when a column already has the index's name. |
| Tables.DropThenSetIndex | FTSE_Market_Analysis.py:168-169 | After `drop(columns=a)` and `set_index(b)`, row i's index is its cell in the column labelled b. Its cells are exactly those of the columns labelled neither a nor b, in their original order and with their labels. |
| Tables.SetIndexUndoesResetIndex | FTSE_Market_Analysis.py:164-169 | Indexing by the column that `reset_index` restored gives back the original frame. |
| Dividends.Format | FTSE_Market_Analysis.py:94-127 | Formatting fails exactly when the table does not have ten columns or a ticker is present but not text. On success the columns are the ten-name schema and the row count is kept. Every text ticker gains ".L" and a missing ticker stays missing. The untouched middle cells pass through, and the three date cells are resolved. |
| Dividends.FormatRow | FTSE_Market_Analysis.py:98-127 | A formatted row has ten cells. The ticker is suffixed, NAME to DIV_IMPACT pass through, DECLARATION_DATE takes the earliest matching day, and EX-DIVIDEND_DATE and PAYMENT_DATE take the latest. |
| Dividends.SuffixedTicker | FTSE_Market_Analysis.py:98 | A text ticker becomes that text followed by ".L", and a missing ticker stays missing. |
| Dividends.DeclarationCell | FTSE_Market_Analysis.py:122-123 | A declaration cell becomes the earliest matching day of the window, and missing when the cell is not text or nothing matches. |
| Dividends.ExOrPaymentCell | FTSE_Market_Analysis.py:124-127 | An ex-dividend or payment cell becomes the latest matching day of the window, and missing when the cell is not text or nothing matches. |
| Dividends.SameTextOrdered | FTSE_Market_Analysis.py:122-127 | The same text read as a declaration date and as an ex-dividend date resolves for both or neither, with the declaration reading no later. |
| Dividends.TickersKeepBase | FTSE_Market_Analysis.py:98 | Each formatted text ticker is the scraped ticker followed by ".L", and a formatted ticker is missing exactly when the scraped one was. |
| MarketData.Present | FTSE_Market_Analysis.py:156 | Keeps exactly the observations whose value is not missing. |
| MarketData.ColumnObs | FTSE_Market_Analysis.py:156 | One column of the response yields exactly its non-missing values, each labelled with the column's ticker and field and the row's date. |
| MarketData.Stack | FTSE_Market_Analysis.py:156 | The long table holds exactly the non-missing values of the response, each with its ticker, field and date. |
| MarketData.ValueAt | FTSE_Market_Analysis.py:158 | The value at a (ticker, field, date) slot is the observed one when there is one, and missing when there is none. |
| MarketData.WideFields | FTSE_Market_Analysis.py:158-161 | The field columns are each observed field once, in ascending order, and no others. |
| MarketData.WideKeys | FTSE_Market_Analysis.py:158 | The rows are each observed (ticker, date) pair once, ordered by ticker and then by date. |
| MarketData.WideRow | FTSE_Market_Analysis.py:158-161 | A wide row is its ticker, its date, then each field's value at that key. |
| MarketData.Unstack | FTSE_Market_Analysis.py:157-161 | Unstacking fails exactly when a (ticker, field, date) slot repeats. Otherwise the columns are "Ticker", "Date" and the sorted fields, with one row per key. |
| MarketData.UnstackPlacesEveryValue | FTSE_Market_Analysis.py:158-161 | Every observation appears in the wide table, in the row of its ticker and date and under the column of its field. |
| MarketData.UnstackRowsAreKeyed | FTSE_Market_Analysis.py:158 | Every wide row comes from an observation, no two rows share a (ticker, date) pair, and rows are ordered by ticker and then by date. |
| MarketData.SinglePath | FTSE_Market_Analysis.py:163-165 | The one-ticker path puts "Ticker" first, holding the ticker in every row, then the date index, then the provider's columns in order. |
| MarketData.UpperAll | FTSE_Market_Analysis.py:167 | Each name is upper-cased in place, and every resulting name is upper-case. |
| MarketData.Finish | FTSE_Market_Analysis.py:167-169 | The shared tail raises KeyError when ADJ CLOSE is absent after upper-casing. It succeeds exactly when ADJ CLOSE is present and one TICKER column remains. The result is indexed by TICKER, keeps every row, has only upper-case column names, and has neither ADJ CLOSE nor TICKER among its columns. Row i's index is the row's cell under the upper-cased TICKER column. Its cells are exactly the row's cells under the columns whose upper-cased name is neither ADJ CLOSE nor TICKER, in order. |
| MarketData.Reformat | FTSE_Market_Analysis.py:154-169 | A reshaped frame is indexed by TICKER, has upper-case column names and no ADJ CLOSE. It comes from the several-ticker path exactly when more than one ticker was requested. With no ticker, a several-ticker response raises IndexError. |
| MarketData.SingleTickerResult | FTSE_Market_Analysis.py:163-169 | With one ticker, every row is indexed by that ticker. The columns are the date index and the provider's columns, upper-cased and in their order, without ADJ CLOSE. |
| MarketData.FinishKeepsTicker | FTSE_Market_Analysis.py:165-169 | A leading "Ticker" column holding one ticker in every row becomes an index holding that ticker. |
| MarketData.SeveralTickersResult | FTSE_Market_Analysis.py:154-169 | With several tickers, the columns are the date and then the observed fields, sorted and upper-cased, without ADJ CLOSE. There is one row per (ticker, date) pair holding a value. Row i is indexed by the ticker of the i-th pair and starts with its date. |
| MarketData.FinishOfWide | FTSE_Market_Analysis.py:157-169 | After unstacking and the shared tail, row i is indexed by the ticker of the i-th (ticker, date) key and starts with that key's date. |
| MarketData.FinishOfKeyed | FTSE_Market_Analysis.py:165-169 | On a table that starts with "Ticker" and "Date" columns, each row's ticker becomes its index and its date becomes its first cell. |
| MarketData.FinishIndexesFirst | FTSE_Market_Analysis.py:165-169 | When the first column is "Ticker", each row is indexed by its first cell. |
| MarketData.FinishKeepsSecondFirst | FTSE_Market_Analysis.py:165-169 | When the first columns are "Ticker" and "Date", each row's date becomes its first cell. |
| MarketData.ProviderFrameSingleTicker | FTSE_Market_Analysis.py:163-169 | A one-ticker frame indexed by Date with columns Open, High, Low, Close, Adj Close, Volume, Dividends and Stock Splits reshapes to DATE, OPEN, HIGH, LOW, CLOSE, VOLUME, DIVIDENDS and STOCK SPLITS in that order. |
| Analysis.Init | FTSE_Market_Analysis.py:25-30 | The new object keeps its three inputs, its tickers are the sorted universe, and it has no dividend or market data yet. |
| Analysis.GetDividends | FTSE_Market_Analysis.py:40-82 | With the flag set the dividend table becomes the scraped one; with it clear nothing changes. |
| Analysis.FormatDividends | FTSE_Market_Analysis.py:89-127 | With the flag clear nothing changes. With it set, a missing dividend table raises AttributeError; otherwise the table is formatted, or the formatting error is raised. |
| Analysis.DownloadMarketData | FTSE_Market_Analysis.py:137-145 | The provider's answer is stored and nothing else changes. |
| Analysis.ReformatMarketData | FTSE_Market_Analysis.py:147-169 | Without downloaded data this raises AttributeError. Otherwise, when the data reshapes, the stored data is replaced by the reshaped frame and nothing else changes. When reshaping raises, the step raises that same error. |
| Analysis.Run | FTSE_Market_Analysis.py:171-181 | A completed run has well-formed frames, the requested flag and the sorted universe as tickers. |
| Analysis.DividendStepsInert | FTSE_Market_Analysis.py:40-89 | With the flag clear, `get_dividends` followed by `format_dividends` leaves the state unchanged. |
| Analysis.DividendStepsFormatScraped | FTSE_Market_Analysis.py:40-127 | With the flag set, the two dividend steps succeed exactly when the scraped table formats, and they store the formatted table. |
| Analysis.RunWithoutDividends | FTSE_Market_Analysis.py:171-181 | A run with the flag clear succeeds exactly when the provider's answer reshapes. It then holds no dividend table, and its market data is that reshaped frame. |

## Left out

- Network access is not modelled. This covers the constituent-list fetches, the HTTP session and user agent, HTML parsing of the dividend pages and the `yf.download` call (lines 30, 45-82, 137-145). Their results are parameters: two lists of symbols, the scraped table and the provider's response.
- The concatenation of the two scraped pages is not modelled, because it is part of the scraping. `Analysis.GetDividends` receives the combined table.
- Dividends.Format, Dividends.FormatRow: the `float` conversions of SHARE_PRICE and DIV_IMPACT and the DIVIDEND recompute (lines 100-107) are floating point. Those cells pass through unchanged. The errors those lines raise are not modelled either: a ValueError for malformed text, and a TypeError when a cell is missing or not text, since `x[:-1]` cannot slice it.
- Text.UpperChar: only ASCII letters are upper-cased. Python's `str.upper` also maps letters such as 'é' to 'É'. The provider's column names are ASCII, so this covers them.
- Text.UpperProperties: the claim that an upper-case name is left as it is holds for the ASCII mapping modelled here. Python's `str.upper` would change a name such as "é", which has no ASCII lower-case letter.
- Text.Upper: the length is kept only because just ASCII letters are mapped. Python turns 'ß' into "SS".
- Tables.UpperColumns: "keeps its length" and the upper-casing hold only because just ASCII letters are mapped. Python turns 'ß' into "SS". The provider's column names are ASCII.
- Calendar.Label: only English month abbreviations are modelled, because `%b` is locale dependent.
- `datetime.now()` (lines 110 and 172) is today's date, which is a parameter. The window bounds use the same `today`.
- `print` and `display` (lines 22, 42, 91, 134, 152, 178) produce output only.
- The frame shown on the script's last line (183) has no effect.
- Provider options such as `threads`, `interval`, `auto_adjust` and `actions` (lines 137-145) are not modelled. They shape the response, and the response is a parameter. `dataFrom` and `dataTo` are stored but not interpreted.
- MarketData.Stack: missing values are dropped, as `stack` does by default. The pandas 2.x `future_stack` behaviour, which keeps them, is not modelled.
- Tables.SetIndex: a label carried by several columns is reported as ValueError. Pandas' exact message for that case is not modelled.
- Tables.Error: exception messages are indicative only. Only the exception kind is part of the contracts.
- The indices of the dividend frame and of the flat market frame's non-key columns are not modelled. Pandas' `ignore_index` renumbering and the `MultiIndex` of column labels are pandas internals.
