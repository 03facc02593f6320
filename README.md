# prime-parser: a verified model of the report-parsing core

prime-parser reads the daily hydropower report of Uzbekgidroenergo, a PDF. It finds two things in it:

- the report date, printed on the first page as `8.01.2026 й.`;
- the total daily energy production in million kWh, printed in the summary row of the report's
  tables, the row whose first cell names "Ўзбекгидроэнерго АЖ бўйича".

The date and the total are forwarded to a downstream service, and failed deliveries are retried
with exponential backoff. Configuration values may name environment variables as `${VAR}` or
`${VAR:-default}`.

This project models that core in Dafny and proves what it promises:

- `DecimalParser` models `PDFParser._parse_decimal`. A cell is stripped. Placeholders (`""`,
  `-`, `—`) yield nothing. A comma becomes a decimal point, and everything but digits, `.` and `-`
  is deleted. The rest is read as an exact decimal.
- `DateExtractor` models `PDFParser._extract_date`. It takes the leftmost match of
  `(\d{1,2})\.(\d{2})\.(\d{4})\s*й\.` in the first page's text, checks it against the calendar,
  and models the three failures.
- `TableSearch` models the search over the tables:
  - `_find_target_column_index`: the column of the first cell, in the first five rows of each
    table, that names the daily-production header, written normally or reversed;
  - `_find_total_energy`: the first summary row, read at that column;
  - `_extract_energy_from_row`: the fallback scan for a figure between 10 and 200.
- `PdfParser` models `parse_pdf`, `_extract_stations` and `to_parsed_data` over a decoded
  document, i.e. the list of its pages.
- `Retry` models `retry_with_backoff` as a method with the source's loop.
- `Settings` models `Settings._expand_env_vars` as a recursive function over the parsed YAML
  value, with the environment passed in as a map.
- The supporting modules are:
  - `Wrappers`: `Option` and `Result`;
  - `Text`: the Python string operations the core uses (`strip`, `replace`, `in`, reversal and
    ASCII digits);
  - `Exceptions` and `DomainModels`: the exception classes and records.

Exact decimals are `(negative, coefficient, scale)`, the way Python's `Decimal` holds a finite
value. Dates are `(year, month, day)` and are valid by the proleptic Gregorian rules
`datetime.date` applies.

Points of the code the model keeps as written:

- The total's column is the column of a header cell naming daily production. It is looked for in
  the first five rows of each table (pdf_parser.py:199-216). The summary row is read at that
  column, and a range scan of the row is the fallback (pdf_parser.py:161-181). No column sums are
  compared.
- The fallback scan applies 0.01..1000 and then 10..200 (pdf_parser.py:262-265), so only 10..200
  decides (`TableSearch.IsPlausibleEnergy`). Both ranges are tested on `abs(val)`, which Python
  rounds to the 28 significant digits of the default decimal context. The model rounds in the
  same way (`DomainModels.ContextAbs`), so a figure just outside the range can be accepted.
- The `й.` after the date is required by the pattern (pdf_parser.py:26).
- The reversed header keyword is `балш`, a part of the reversed `ишлаб` (`балши`)
  (pdf_parser.py:197). A cell whose header is reversed is still recognised
  (`TableSearch.ReversedHeaderRecognised`).

## Model

| member | source | states |
|---|---|---|
| DomainModels.RoundHalfEvenNearest | src/prime_parser/core/pdf_parser.py:262-265 | ROUND_HALF_EVEN, the default context's rounding: the result is the multiple of `10^k` nearest the number, at most half a unit away, and the even one of two equally near |
| DomainModels.ContextAbs | src/prime_parser/core/pdf_parser.py:262-265 | `abs(val)` under the default 28-digit context is non-negative, and is the exact magnitude whenever the coefficient has at most 28 digits |
| DomainModels.ContextAbsError | src/prime_parser/core/pdf_parser.py:262-265 | a longer coefficient is rounded to 28 significant digits: the result is off by at most half a unit in the 28th digit |
| DecimalParser.Clean | src/prime_parser/core/pdf_parser.py:234 | the cleaned text is no longer than the input and holds only digits, '.' and '-' |
| DecimalParser.CleanConcat | src/prime_parser/core/pdf_parser.py:234 | cleaning deletes character by character: cleaning a concatenation is concatenating the cleaned parts |
| DecimalParser.CleanDropsAll | src/prime_parser/core/pdf_parser.py:234 | text with no digit, '.' or '-' cleans to nothing |
| DecimalParser.CleanKeepsAll | src/prime_parser/core/pdf_parser.py:234 | text made only of digits, '.' and '-' is kept whole |
| DecimalParser.CleanSpaces | src/prime_parser/core/pdf_parser.py:226-234 | whitespace is deleted by cleaning |
| DecimalParser.CleanIgnoresStrip | src/prime_parser/core/pdf_parser.py:226-234 | stripping the cell before cleaning it does not change the cleaned text |
| DecimalParser.ParseNumeralSound | src/prime_parser/core/pdf_parser.py:237-239 | a cleaned numeral that `Decimal()` accepts has its minus only at the front, at most one point and at least one digit |
| DecimalParser.ParseNumeralComplete | src/prime_parser/core/pdf_parser.py:237-239 | every cleaned numeral of that shape is accepted |
| DecimalParser.ParseNumeralDefined | src/prime_parser/core/pdf_parser.py:237-239 | on cleaned text, `Decimal()` gives a value exactly when the text is well formed; otherwise `InvalidOperation` is caught and the result is None |
| DecimalParser.TwoPointsUnreadable | src/prime_parser/core/pdf_parser.py:237-239 | cleaned text with two decimal points is never a number |
| DecimalParser.ParseNumeralOf | src/prime_parser/core/pdf_parser.py:237 | `[-]whole.fraction` reads as the coefficient spelled by whole and fraction together, scaled by the number of fraction digits |
| DecimalParser.ParseNumeralRender | src/prime_parser/core/pdf_parser.py:237 | round trip: printing any decimal with a point and reading it back gives the same decimal |
| DecimalParser.ParseDecimalNone | src/prime_parser/core/pdf_parser.py:223-228 | None, a stripped placeholder (`""`, `-`, `—`), or a cell without digits, points, minus signs or commas gives no number |
| DecimalParser.ParseDecimalDefined | src/prime_parser/core/pdf_parser.py:221-239 | a cell gives a number exactly when its stripped text is no placeholder and its cleaned text is a well-formed numeral |
| DecimalParser.PlaceholderReplace | src/prime_parser/core/pdf_parser.py:227-232 | replacing commas never turns a placeholder into a non-placeholder, nor the reverse |
| DecimalParser.CommaIsPoint | src/prime_parser/core/pdf_parser.py:232 | a comma and a point are read alike: writing points for commas never changes the result |
| DecimalParser.RenderReplace | src/prime_parser/core/pdf_parser.py:232 | a figure written with a decimal comma becomes, after the replacement, the figure written with a point |
| DecimalParser.ParseRendered | src/prime_parser/core/pdf_parser.py:221-239 | round trip: any decimal written with a point or a comma, between text holding no digits, signs, points or commas (spaces, units), reads back as itself |
| DecimalParser.ExampleCommaCell | src/prime_parser/core/pdf_parser.py:221-239 | "81,03" reads as 81.03 |
| DecimalParser.ExampleUnitsCell | src/prime_parser/core/pdf_parser.py:221-239 | "1 234,5 млн" reads as 1234.5: the space between digit groups and the unit are deleted |
| DecimalParser.ExampleTwoPointsCell | src/prime_parser/core/pdf_parser.py:237-239 | "1.2.3" gives no number |
| DecimalParser.ExampleThousandsCommaCell | src/prime_parser/core/pdf_parser.py:232-239 | "1,234.5" gives no number, since the thousands comma becomes a second point |
| DecimalParser.ExamplePlusSignCell | src/prime_parser/core/pdf_parser.py:232-237 | "+2.5" reads as 2.5: the plus sign is deleted by cleaning |
| DecimalParser.ExampleLonePointCell | src/prime_parser/core/pdf_parser.py:234-239 | "." gives no number, since a numeral needs a digit |
| DecimalParser.ExampleInnerMinusCell | src/prime_parser/core/pdf_parser.py:234-239 | "1-2" gives no number, since a minus may only lead |
| DateExtractor.DayLengthAt | src/prime_parser/core/pdf_parser.py:26 | a match at a position has a day of one or two digits and the rest of the pattern after it |
| DateExtractor.YearMarkMatches | src/prime_parser/core/pdf_parser.py:26 | `\s*й\.` matches exactly when whitespace and then `й.` follow |
| DateExtractor.DayLengthAtMatches | src/prime_parser/core/pdf_parser.py:26 | the day length the match takes is n exactly when the pattern matches there with an n-digit day (the greedy `\d{1,2}` backtracks) |
| DateExtractor.DayLengthAtSound | src/prime_parser/core/pdf_parser.py:26 | the match found at a position is a match of the pattern |
| DateExtractor.DayLengthAtComplete | src/prime_parser/core/pdf_parser.py:26 | every match of the pattern at a position is found there |
| DateExtractor.NoMatchAtNonDigit | src/prime_parser/core/pdf_parser.py:26 | no match starts at a character that is not a digit |
| DateExtractor.FirstMatch | src/prime_parser/core/pdf_parser.py:109 | `re.search` takes the leftmost position where the pattern matches; none matches before it |
| DateExtractor.FirstMatchAt | src/prime_parser/core/pdf_parser.py:109 | the first matching position, if no earlier one matches, is the one searched out |
| DateExtractor.ExtractDateLeftmost | src/prime_parser/core/pdf_parser.py:103-127 | a date is the groups of the leftmost match and a valid calendar date; an invalid-date failure carries the leftmost groups, which the calendar rejects; "pattern not found" holds exactly when the pattern matches nowhere; on non-empty text no other failure is possible |
| DateExtractor.ExtractDateOfLeftmost | src/prime_parser/core/pdf_parser.py:109-127 | conversely, for any text the leftmost match decides the outcome: its groups are returned when they form a valid date, and otherwise `InvalidDateValues` carries them |
| DateExtractor.ExtractDateNoText | src/prime_parser/core/pdf_parser.py:104-106 | a page without text, or with empty text, fails with "no text" |
| DateExtractor.RenderDateLayout | src/prime_parser/core/pdf_parser.py:25-26 | where the day, month and year fields and `й.` sit in a date printed as "D.MM.YYYY й." |
| DateExtractor.PrefixNoMatch | src/prime_parser/core/pdf_parser.py:109 | no match starts inside text that holds no digit |
| DateExtractor.ExtractRenderedDate | src/prime_parser/core/pdf_parser.py:103-127 | round trip: a date printed as "D.MM.YYYY й." after digit-free text is read back as that date when it is valid, and as the invalid-values error otherwise |
| DateExtractor.ExtractPrintedDate | src/prime_parser/core/pdf_parser.py:103-127 | the same for a page whose text is exactly the printed date |
| DateExtractor.ExampleReportDate | src/prime_parser/core/pdf_parser.py:103-120 | "8.01.2026 й." is 8 January 2026 |
| DateExtractor.ExampleNoLeapDay | src/prime_parser/core/pdf_parser.py:112-127 | "29.02.2025 й." fails with invalid date values 29, 2, 2025 |
| TableSearch.Head | src/prime_parser/core/pdf_parser.py:201 | `table[:5]`: the whole table when it has fewer than five rows, otherwise its first five rows |
| TableSearch.RowsConcat | src/prime_parser/core/pdf_parser.py:143-144 | the rows of two runs of tables are the rows of the first, then those of the second |
| TableSearch.RowsMembers | src/prime_parser/core/pdf_parser.py:143-144 | the rows scanned are exactly the rows of the tables |
| TableSearch.FirstHeaderCell | src/prime_parser/core/pdf_parser.py:202-216 | the first header cell of a row, scanning left to right; no earlier cell is a header |
| TableSearch.FirstHeaderColumnFound | src/prime_parser/core/pdf_parser.py:199-216 | the column found is the first header cell of some row, and no earlier row holds a header |
| TableSearch.FirstHeaderColumnNone | src/prime_parser/core/pdf_parser.py:199-219 | no column is found exactly when no row holds a header cell |
| TableSearch.FindTargetColumnIndexFound | src/prime_parser/core/pdf_parser.py:187-216 | a column found is the first header cell of a row among the first five rows of some table, and no earlier table and no earlier row of that table has a header cell in its first five rows |
| TableSearch.FindTargetColumnIndexNone | src/prime_parser/core/pdf_parser.py:187-219 | None exactly when no cell in the first five rows of any table names the header |
| TableSearch.FindTargetIgnoresLowerRows | src/prime_parser/core/pdf_parser.py:201 | rows added after the fifth row of a table never change the column found |
| TableSearch.HeaderTextReverse | src/prime_parser/core/pdf_parser.py:206 | normalising a header cell (line breaks to spaces, then strip) commutes with reversing it |
| TableSearch.ReversedHeaderRecognised | src/prime_parser/core/pdf_parser.py:196-216 | a cell holding the header written backwards is recognised as a header cell |
| TableSearch.FirstSummaryRow | src/prime_parser/core/pdf_parser.py:143-152 | the first row, in table order and then row order, whose first cell holds all three summary keywords; empty rows never qualify |
| TableSearch.IsPlausibleEnergy | src/prime_parser/core/pdf_parser.py:262-265 | a figure is accepted exactly when its context-rounded `abs` lies in 10..200, which for a figure of at most 28 digits is its exact magnitude; the outer range 0.01..1000 adds nothing |
| TableSearch.FirstPlausible | src/prime_parser/core/pdf_parser.py:255-272 | the first cell of the row that parses to an accepted figure; no earlier cell does |
| TableSearch.ExtractEnergyFromRowResult | src/prime_parser/core/pdf_parser.py:241-276 | success returns the unrounded figure of the first cell whose context-rounded `abs` lies in 10..200; failure holds exactly when no cell qualifies, and its error carries the row |
| TableSearch.FindTotalEnergyFound | src/prime_parser/core/pdf_parser.py:141-181 | a total comes from the first summary row: the header column's number when the row reaches that column and its cell parses, otherwise the figure the fallback scan picks |
| TableSearch.FindTotalEnergyFirstRow | src/prime_parser/core/pdf_parser.py:141-185 | once the first summary row is found, the outcome is exactly what that row yields: the header column's number, or the fallback scan's figure or its `NoEnergyValue(row)` error |
| TableSearch.RoundedDownIntoRange | src/prime_parser/core/pdf_parser.py:262-265 | 200.00000000000000000000000000001 exceeds 200, but `abs` rounds it to 200, so it is accepted |
| TableSearch.RoundedUpIntoRange | src/prime_parser/core/pdf_parser.py:262-265 | 9.99999999999999999999999999999 is below 10, but `abs` rounds it to 10, so it is accepted |
| TableSearch.EnergyFromSummaryRowFound | src/prime_parser/core/pdf_parser.py:160-181 | once a summary row is found, "summary row not found" is never reported |
| TableSearch.FindTotalEnergyNotFound | src/prime_parser/core/pdf_parser.py:143-152 | the error is "summary row not found" exactly when no row of any table is a summary row |
| PdfParser.ExtractStations | src/prime_parser/core/pdf_parser.py:278-289 | no station is extracted |
| PdfParser.ParsePdf | src/prime_parser/core/pdf_parser.py:28-89 | the method, which gathers tables in a loop over pages, computes exactly the outcome stated by `ParseDocumentOutcome` |
| PdfParser.AllTablesConcat | src/prime_parser/core/pdf_parser.py:50-53 | the tables of two runs of pages are those of the first, then those of the second |
| PdfParser.AllTablesOnlyTables | src/prime_parser/core/pdf_parser.py:50-53 | only the pages' tables are collected |
| PdfParser.TablesInPageOrder | src/prime_parser/core/pdf_parser.py:50-53 | tables are gathered page after page, in page order |
| PdfParser.ParseDocumentOutcome | src/prime_parser/core/pdf_parser.py:43-89 | an unreadable or page-less document is a PDF parsing error and nothing else is; a date failure is raised before a total failure; a report holds the first page's date, the total of all tables and no station, and is returned exactly when both succeed |
| PdfParser.LaterTextIgnored | src/prime_parser/core/pdf_parser.py:44-46 | the text of pages after the first never changes the outcome |
| PdfParser.ToParsedData | src/prime_parser/core/pdf_parser.py:291-303 | the payload holds the report's date and total |
| PdfParser.ParsedDataOfDocument | src/prime_parser/core/pdf_parser.py:28-89 | for a parsed document, the payload holds the first page's date, which is a valid date, and the total of its tables |
| PdfParser.HeaderRowFound | src/prime_parser/core/pdf_parser.py:202-211 | a row `[None, "1 кунда ишлаб"]` has its header cell at column 1 |
| PdfParser.SummaryRowFound | src/prime_parser/core/pdf_parser.py:148-152 | "Ўзбекгидроэнерго АЖ бўйича" marks a summary row, and a row with an empty first cell is not one |
| PdfParser.ReportTableTarget | src/prime_parser/core/pdf_parser.py:187-216 | in a table of that header row and a summary row, the target column is 1 |
| PdfParser.ReportTableTotal | src/prime_parser/core/pdf_parser.py:141-165 | the total of that table is the summary row's "81,03" at column 1, i.e. 81.03 |
| PdfParser.ExampleOnePageReport | src/prime_parser/core/pdf_parser.py:28-81 | a page dated "8.01.2026 й." holding that table parses into the report of 8 January 2026 with total 81.03 and no station |
| Retry.Schedule | src/prime_parser/utils/retry.py:53 | the n-th delay slept is `min(backoff_factor ** n, max_delay)` |
| Retry.RetryWithBackoff | src/prime_parser/utils/retry.py:13-67 | with no attempt allowed, the retry-logic `RuntimeError`; otherwise between 1 and `max_attempts` calls, whose last outcome is returned or raised; every earlier call raised a retried exception; stopping before the last attempt means success or an exception that is not retried; the delays slept follow the schedule, one per failed call that was retried |
| Retry.PowGrows | src/prime_parser/utils/retry.py:53 | with a factor of at least 1, `backoff_factor ** attempt` is at least 1 and grows with the attempt |
| Retry.DelayBounds | src/prime_parser/utils/retry.py:53 | no delay exceeds `max_delay`, and none is negative when neither setting is |
| Retry.DelayNondecreasing | src/prime_parser/utils/retry.py:53 | with a factor of at least 1, delays never shrink from one attempt to the next |
| Retry.ScheduleTotal | src/prime_parser/utils/retry.py:53-64 | the total sleep before attempt n + 1 is at most n times `max_delay` |
| Retry.DefaultCatchesExceptions | src/prime_parser/utils/retry.py:18 | the default `(Exception,)` retries exactly the exceptions derived from `Exception` |
| Retry.RetryAlwaysFailing | src/prime_parser/utils/retry.py:35-50 | an operation that always raises a retried exception is called `max_attempts` times, sleeps between calls, and its exception is re-raised |
| Retry.RetryNotCaught | src/prime_parser/utils/retry.py:36-42 | an exception outside the retried classes escapes after one call without sleeping |
| Retry.RetryNoAttempts | src/prime_parser/utils/retry.py:35-67 | with `max_attempts` of 0 or less, nothing is called and the retry-logic error is raised |
| Retry.RetryTransientTimeouts | src/prime_parser/utils/retry.py:35-64 | two timeouts and then an answer, with factor 2 and cap 10: the answer comes on the third call, after sleeps of 2 and 4 seconds |
| Settings.NameEnd | src/prime_parser/configuration/settings.py:109 | the name group `[^:}]+` runs to the first ':' or '}' or to the end |
| Settings.LastClose | src/prime_parser/configuration/settings.py:109 | the greedy default group stops at the last '}' in its range, and there is none after it |
| Settings.MatchPlaceholderSound | src/prime_parser/configuration/settings.py:109-111 | a match yields a non-empty name without ':' or '}', and a default without a line feed, and the string starts with their placeholder text |
| Settings.MatchPlaceholderText | src/prime_parser/configuration/settings.py:109-111 | round trip: matching the text `${name}` or `${name:-default}` of a well-formed placeholder gives back that name and default |
| Settings.ExpandPlaceholder | src/prime_parser/configuration/settings.py:107-112 | a placeholder string expands to the variable's value when set, and otherwise to its default or "" |
| Settings.ExpandStringKeeps | src/prime_parser/configuration/settings.py:107-113 | a string changes only if it starts with `${`, ends with `}` and matches the pattern; every other string is kept |
| Settings.ExpandKeepsShape | src/prime_parser/configuration/settings.py:94-113 | expansion keeps every mapping's keys and order, every list's length, and every non-string value; every string, at any depth, becomes its own `ExpandString` expansion at the same place |
| Settings.ExampleTwoPlaceholders | src/prime_parser/configuration/settings.py:107-112 | "${A}-${B}" expands to the value of A (or "") alone: the match is anchored at the start only |
| Settings.ExampleGreedyDefault | src/prime_parser/configuration/settings.py:109-112 | with A unset, "${A:-x}${B}" expands to "x}${B": the default runs to the last '}' |
| Settings.ExampleUnmatched | src/prime_parser/configuration/settings.py:109-113 | "${}", "${:-x}" and "${A:x}" do not match and are kept |

## Left out

- The PDF library (`pdfplumber`) is replaced by its result: a document is the list of its pages, each page's extracted text (or none) and its tables, or nothing at all when opening or decoding the file raised. Every such exception becomes one `DocumentUnreadable` parsing error, and an empty document becomes `NoPages`. The message text of exceptions is replaced by a structured cause.
- Exceptions raised by `page.extract_text()` or `page.extract_tables()` on one page are not modelled apart from the whole document being unreadable.
- Table cells are text or absent. `str()` of a non-string cell is not modelled, because the decoder yields strings.
- Logging (`structlog`) is left out: it does not affect any result.
- `\d` and `int()` accept every Unicode decimal digit, and `Decimal()` accepts them too. The model reads ASCII digits only, which is what the reports contain.
- The numeral forms `Decimal()` also accepts (exponents, `Infinity`, `NaN`, a `+` sign, underscores) cannot survive the cleaning step, so they are not modelled.
- Retry.RetryWithBackoff: the awaited operation is a function from the attempt number to what that call did. `asyncio.sleep` is replaced by returning the delays slept. Cancellation and concurrency are not modelled.
- DomainModels.ContextAbs: the exponent limits of the default context are not modelled. A cell whose value has more than 1000000 integer digits, or exactly 1000000 when rounding to 28 significant digits carries into a new digit, makes `abs` raise `decimal.Overflow`, which `parse_pdf` turns into a `PDFParsingError`; the model rounds it and rejects it as too large. Below the smallest exponent `abs` would round to fewer digits, but such a value is far below 0.01 either way.
- Retry.Pow: `backoff_factor ** attempt` is computed on exact reals. Float rounding and the `OverflowError` of huge powers are not modelled.
- Retry.IsCaught: an exception matches a retried class by its class name appearing in the exception's base classes.
- Settings.ExpandEnvVars: the process environment is a map passed in. `os.getenv` is not called. Mapping keys are strings, whereas YAML also allows other keys.
- `Settings.from_yaml` and `get_settings` are not part of this model: YAML loading, pydantic validation and the settings cache.
- The API routes, the upload and authentication dependencies, the HTTP forwarding client, the application entry point and the mock server are not part of this model.
- The `ForwardingError`, `AuthenticationError` and `ConfigurationError` exception classes are raised only outside the modelled core.
- The optional station fields of `StationData` are declared but never filled, as `_extract_stations` returns no station.
