# Server-log ingestion, filtering and tokenising, in Dafny

This project models the text-processing core of a small web-server log
analyser (a Streamlit application over MySQL). It covers three parts.

1. **Access-log ingestion**, `parse_log_file` in `modules/log_parser.py`.
   - An uploaded file is cut into lines.
   - A blank line is counted and skipped.
   - The other lines are searched for the Common Log Format pattern
     `LOG_PATTERN`, validated in a fixed order (IP, then timestamp, then
     status) and turned into records `(ip, timestamp, status, level,
     response text)`.
   - Seven counters record what happened to each line.
   - The leaf functions `determine_log_level`, `determine_response_text`,
     `validate_ip` and `parse_timestamp` are modelled with it, and so are
     the `strptime` formats they rely on.
2. **Filter-query construction**, `get_logs_by_filters` in
   `modules/database.py`.
   - The SQL text and the parameter list grow by one conjunct per truthy
     argument, in a fixed order.
   - The same file's `save_log_data` refuses an empty batch before it asks
     for a connection.
3. **The fallback line tokeniser** in `load_file` (`app.py`). It splits each
   raw line into `(time, ip, method, path, status, size)` by whitespace,
   bracket and quote splitting.

Modules:

- `Wrappers`: `Option`.
- `Text`: the Python `str` operations the code uses, on `seq<char>`:
  - `isspace`, `strip`, `split()`, `split(sep)`, `splitlines()`, `isdigit`,
    `str()` of an integer (without its 4300-digit limit), and `int()` in
    base 10 as CPython 3.11 and later implement it (ASCII whitespace
    skipped, at most 4300 digits);
  - each with lemmas about what it returns.
- `Severity`: `determine_log_level`, `determine_response_text` and
  `STATUS_MESSAGES`.
- `Ipv4`: `validate_ip`, as a method with its loop.
- `Timestamp`:
  - a date-time record;
  - the four `strptime` formats compiled into directives;
  - a directive matcher;
  - `parse_timestamp`.
- `LogPattern`: `LOG_PATTERN` as a hand-written matcher at a position, and
  `search` as the leftmost position that matches.
- `LogParser`:
  - the per-line classification, as a function and as a method;
  - `parse_log_file` as a loop that appends records and bumps counters;
  - the conservation and first-failure properties.
- `Database`:
  - `get_logs_by_filters` as a method that grows `query` and `params`;
  - the criteria read as a row predicate;
  - `save_log_data` on a `LogStore` class whose rows it appends to.
- `LoadFile`: the `load_file` loop as a method, with the per-field
  extraction rules.

The code's behaviour is modelled as written, including two quirks:

- `validate_ip` range-checks only the last part, so `999.1.1.1` is accepted.
- `parse_timestamp` cuts the text at the first whitespace whenever it
  contains a space, so `2025-12-04 10:00:00` is not parsed.

## Model

| member | source | states |
|---|---|---|
| Severity.DetermineLogLevel | modules/log_parser.py:37-46 | INFO exactly for status ≤ 400 (so 400 is INFO), WARNING exactly for 401–499, ERROR exactly for ≥ 500 |
| Severity.LevelMonotone | modules/log_parser.py:41-46 | a higher status never gets a lower severity |
| Severity.LevelNamesDistinct | modules/log_parser.py:41-46 | the three level strings are distinct, so the string identifies the level |
| Severity.DetermineResponseText | modules/log_parser.py:49-51 | a listed code gets its table phrase; any other code gets "HTTP " followed by the code as `f"{status_code}"` writes it: a '-' exactly for a negative code, then the digits of its magnitude with no leading zero |
| Severity.RangeFallbackShort | modules/log_parser.py:51 | for an unlisted status in 100..599, the only codes a record can carry, the response text is "HTTP " and three digits |
| Text.IntTextUnique | modules/log_parser.py:51 | a code has exactly one such decimal text, so the fallback text is fully determined |
| Text.IntTextValue | modules/log_parser.py:51 | such a decimal text names one code only |
| Text.DecimalOfDigits | modules/log_parser.py:51 | digits without a leading zero are the decimal text of their own value |
| Severity.ListedCodes | modules/log_parser.py:17-35 | the table holds exactly the 14 codes 200, 201, 204, 301, 302, 304, 400, 401, 403, 404, 500, 502, 503, 504 |
| Severity.PhrasesAreNotFallbacks | modules/log_parser.py:17-35 | no table phrase is empty or starts like the "HTTP " fallback |
| Severity.PhrasesDistinct | modules/log_parser.py:17-35 | two different listed codes have different phrases |
| Severity.ResponseTextIdentifiesStatus | modules/log_parser.py:49-51 | equal response texts come from equal status codes |
| Ipv4.ValidateIp | modules/log_parser.py:53-65 | true exactly when the address has four dot-separated parts, each accepted by `int()` (ASCII whitespace around it skipped, one optional sign, at most 4300 digits), and the last one parsed is in 0..255 |
| Ipv4.DottedDecimalValidity | modules/log_parser.py:55-63 | for four digit strings joined by dots, the answer is true exactly when none is longer than 4300 digits and the last value is ≤ 255, whatever the first three values are |
| Ipv4.InRangeQuadAccepted | modules/log_parser.py:55-63 | four digit strings each ≤ 255 and at most 4300 digits long, joined by dots, are accepted |
| Ipv4.OverlongPartRejected | modules/log_parser.py:59-65 | a digit part longer than 4300 digits makes `int()` raise, so the address is rejected whatever its value |
| Ipv4.JunkPartRejected | modules/log_parser.py:59-65 | a part that starts with a character `int()` neither skips nor reads, such as U+001C which `isspace()` accepts, makes the address rejected |
| Ipv4.SeparatorPaddingRejected | modules/log_parser.py:53-65 | `"\x1c1.1.1.1"` is rejected |
| Text.ParseDigits | modules/log_parser.py:60 | `int()` reads a plain digit string of at most 4300 digits as its decimal value |
| Text.TooManyDigitsRejected | modules/log_parser.py:60 | `int()` refuses a plain digit string of more than 4300 digits |
| Text.LeadingJunkRejected | modules/log_parser.py:60 | `int()` refuses text whose first character is neither skipped whitespace, nor a sign, nor a digit |
| Text.AsciiSpaceSkipped | modules/log_parser.py:60 | `int("\t7 ")` is 7: ASCII whitespace around the number is skipped |
| Text.WideSpaceSkipped | modules/log_parser.py:60 | `int("\u00a07")` is 7: a non-ASCII space is skipped too |
| Text.SeparatorNotSkipped | modules/log_parser.py:60 | `int("\x1c7")` raises: the separators U+001C..U+001F are not skipped |
| Ipv4.HighFirstPartAccepted | modules/log_parser.py:59-63 | `999.1.1.1` is accepted |
| Ipv4.HighLastPartRejected | modules/log_parser.py:61-62 | `1.1.1.999` is rejected |
| Ipv4.WrongPartCountRejected | modules/log_parser.py:57-58 | an address that does not split into exactly four parts is rejected |
| Timestamp.CompiledFormats | modules/log_parser.py:80-85 | the four format strings compile to day/month-name/year/clock, day/month/year/clock, year-month-day blank clock and day-month-name-year blank clock, separators included |
| Timestamp.Strptime | modules/log_parser.py:89 | a successful parse is a valid calendar date-time |
| Timestamp.FirstParse | modules/log_parser.py:87-93 | the result of trying the formats in turn is, when present, a valid date-time |
| Timestamp.FirstSuccessWins | modules/log_parser.py:87-91 | when format k parses and every earlier one fails, the result is format k's parse |
| Timestamp.FirstParseFails | modules/log_parser.py:87-93 | no result exactly when every format fails |
| Timestamp.ParseTimestamp | modules/log_parser.py:67-93 | a parsed outcome is a valid date-time |
| Timestamp.RaisesOnlyOnBlank | modules/log_parser.py:77 | `split()[0]` raises exactly when the text contains a space and is all whitespace |
| Timestamp.StrptimeInputHasNoSpace | modules/log_parser.py:77 | the text handed to `strptime` never contains a space |
| Timestamp.CutAtFirstSpace | modules/log_parser.py:77 | a word followed by a space and anything else parses like the word alone |
| Timestamp.ParseWord | modules/log_parser.py:77-93 | a space-free word gets the first format that parses it, or no result |
| Timestamp.StrptimeRoundTrip | modules/log_parser.py:80-89 | every valid date-time, written out in one of the four formats, parses back to itself under that format |
| Timestamp.MonthNameRejectsDigit | modules/log_parser.py:81 | `%b` never matches text that starts with a digit |
| Timestamp.NumberRejectsLongRun | modules/log_parser.py:81-84 | a numeric directive fails on a digit run longer than its width |
| Timestamp.ClfTimestampParsed | modules/log_parser.py:77-91 | a valid date-time in `%d/%b/%Y:%H:%M:%S`, followed by a space and any zone text, parses to that date-time with no offset |
| Timestamp.NumericTimestampParsed | modules/log_parser.py:80-91 | the numeric-month form is rejected by the first format and parsed by the second |
| Timestamp.IsoTimestampUnparsed | modules/log_parser.py:77 | every zero-padded `%Y-%m-%d %H:%M:%S` rendering of a valid date-time is cut to its date part and yields no result |
| Timestamp.IsoDateRejected | modules/log_parser.py:80-93 | a bare `%Y-%m-%d` date is matched by none of the four formats |
| Timestamp.ClfExample | modules/log_parser.py:77-93 | `04/Dec/2025:10:00:00 +0700` parses to 2025-12-04 10:00:00 |
| Timestamp.IsoExample | modules/log_parser.py:77-93 | `2025-12-04 10:00:00` yields no result |
| LogPattern.Run | modules/log_parser.py:6-15 | a bounded run of one character class: the taken text has an allowed length, lies in the class and cannot be extended |
| LogPattern.IpAt | modules/log_parser.py:7 | the `ip` group is four dot-separated runs of one to three digits, not followed by a digit |
| LogPattern.IpOf | modules/log_parser.py:7 | any such dotted quad followed by a non-digit is captured whole |
| LogPattern.SizeAt | modules/log_parser.py:14 | the `size` group is `-` or a maximal run of digits |
| LogPattern.SizeOf | modules/log_parser.py:14 | any such size is captured whole |
| LogPattern.MatchAt | modules/log_parser.py:6-15 | a match at a position splits the text into the Common Log Format line with well-formed groups: ip, time without `]`, word method, space-free path, version of digits and dots, three-digit status, size |
| LogPattern.MatchLine | modules/log_parser.py:6-15 | every line built from well-formed groups matches at its start with exactly those groups |
| LogPattern.Search | modules/log_parser.py:154 | groups found by the search are well-formed |
| LogPattern.SearchLeftmost | modules/log_parser.py:154 | when position k matches and no earlier one does, the search returns the match at k |
| LogPattern.SearchFound | modules/log_parser.py:154 | a found match is the match at some position with no match before it |
| LogPattern.SearchNone | modules/log_parser.py:154 | nothing is found exactly when no position matches |
| LogPattern.SearchLine | modules/log_parser.py:154 | a well-formed log line is found with its own groups |
| LogPattern.PatternIpValidity | modules/log_parser.py:7 | a captured ip passes `validate_ip` exactly when its last octet is ≤ 255 |
| LogPattern.PatternStatusValue | modules/log_parser.py:13 | a captured status converts with `int()` to its digit value, at most 999 |
| LogPattern.SampleGroups | modules/log_parser.py:264 | the groups of the sample line `127.0.0.1 - - [04/Dec/2025:10:00:00 +0700] "GET /index.html HTTP/1.1" 200 1024` are well-formed |
| LogParser.ClassifyGroups | modules/log_parser.py:161-201 | an accepted record has the match's ip and passes every record condition |
| LogParser.ClassifyLine | modules/log_parser.py:147-201 | an accepted record has a valid, pattern-shaped ip, a valid timestamp, status in 100..599, and the level and response text of its status |
| LogParser.CheckLine | modules/log_parser.py:147-210 | the loop body's checks, run in order, give the line's classification |
| LogParser.ParseLogFile | modules/log_parser.py:105-210 | the returned records and counters are those of the lines of the content, one line at a time |
| LogParser.Conservation | modules/log_parser.py:138-210 | `total_lines` is the number of lines and equals the sum of the six outcome counters |
| LogParser.CountOne | modules/log_parser.py:139-207 | one line adds one to `total_lines` and one to the outcome counters together |
| LogParser.TallyStep | modules/log_parser.py:138-207 | the counters after one more line are the old counters bumped by that line's outcome |
| LogParser.RecordsCounted | modules/log_parser.py:138-204 | the number of records equals `parsed_success` |
| LogParser.RecordsAppend | modules/log_parser.py:138-203 | the records of two runs of lines are those of the first followed by those of the second, so records keep line order |
| LogParser.RecordsOfOneLine | modules/log_parser.py:195-204 | one line gives one record if accepted and none otherwise |
| LogParser.RecordsWellFormed | modules/log_parser.py:165-201 | every returned record has a valid ip, a valid timestamp, status in 100..599, and its status's level and response text |
| LogParser.ChecksInOrder | modules/log_parser.py:148-189 | blank, no match, invalid ip, timestamp failure and status out of range are tested in that order; a line passing all five is accepted |
| LogParser.FirstFailureBlamed | modules/log_parser.py:148-189 | a line is blamed on a check exactly when it fails that check and passes every earlier one (a `split()[0]` crash is blamed on the timestamp check but counted in `parse_errors`) |
| LogParser.AcceptedIffNoFailure | modules/log_parser.py:148-204 | a line is accepted exactly when it fails no check |
| LogParser.BlankTimeIsParseError | modules/log_parser.py:173-207 | a time group made only of whitespace (with a space) makes `split()[0]` raise: the line is a timestamp crash, and counting it adds one to `total_lines` and to `parse_errors` and changes no other counter |
| LogParser.InvalidIpIsHighLastOctet | modules/log_parser.py:163-168 | a matched line is counted as an invalid IP exactly when its last octet exceeds 255 |
| LogParser.InvalidStatusIsOutOfRange | modules/log_parser.py:181-186 | after ip and timestamp pass, a line is counted as invalid status exactly when the status is below 100 or above 599 |
| Database.BuildFilterQuery | modules/database.py:184-211 | the query and parameters are those of the truthy criteria: the fixed prefix, one clause per supplied criterion in order, the fixed ORDER BY suffix, and their values |
| Database.ConjunctsExactly | modules/database.py:187-209 | a criterion contributes a clause, with its value as parameter, exactly when it is truthy |
| Database.FixedOrder | modules/database.py:187-209 | clauses appear in the order start_date, end_date, log_level, ip_address, min_status, max_status |
| Database.EmptyTextIgnored | modules/database.py:187-201 | an empty-string date, level or ip adds no clause, as if absent |
| Database.ZeroStatusIgnored | modules/database.py:203-209 | a status bound of 0 adds no clause, as if absent |
| Database.NoCriteriaQuery | modules/database.py:184-211 | with no criteria the query is `SELECT * FROM server_logs WHERE 1=1 ORDER BY timestamp DESC` and there are no parameters |
| Database.PlaceholdersMatchParams | modules/database.py:187-209 | the number of `%s` in the query equals the number of parameters |
| Database.ClauseAligned | modules/database.py:187-209 | the i-th clause is preceded by exactly i placeholders, and the i-th parameter is the i-th supplied value |
| Database.WhereMeansMatches | modules/database.py:187-209 | read as a row predicate, the WHERE clause holds exactly when the row meets every truthy criterion |
| Database.MoreCriteriaAdmitFewer | modules/database.py:187-209 | adding criteria never admits a row that fewer criteria rejected |
| Database.NoCriteriaAdmitsAll | modules/database.py:184 | with no criteria every row is selected |
| Database.LogStore.SaveLogData | modules/database.py:93-121 | an empty batch returns False without a connection request and changes nothing; otherwise one connection is requested and the rows are appended (returning True) exactly when a connection was obtained and the insert went through |
| LoadFile.LoadRows | app.py:22-39 | the rows built are those of the lines of the content, in order |
| LoadFile.ShortLineSkipped | app.py:24-26 | a line gives no row exactly when it has fewer than 7 tokens, and never more than one row |
| LoadFile.RowCount | app.py:23-39 | the number of rows is the number of lines with at least 7 tokens |
| LoadFile.RowsAppend | app.py:23-39 | the rows of two runs of lines are those of the first followed by those of the second |
| LoadFile.RowsFromLines | app.py:23-39 | every row is the one some input line gives |
| LoadFile.IpIsFirstToken | app.py:24-27 | the ip is non-empty and space-free and sits right after the line's leading whitespace, followed by whitespace or the end |
| LoadFile.TimeRule | app.py:28-30 | time is "" without `[`; otherwise it is the text after the first `[`, free of `[` and `]`, up to the next `[` or `]` or the end |
| LoadFile.RequestRule | app.py:31-35 | the request is "" without `"`; otherwise it is the text after the first `"`, free of `"`, up to the next `"` or the end |
| LoadFile.RequestWordsRule | app.py:36 | method, path and protocol are the request's first three words, each non-empty and space-free, with missing ones "" |
| LoadFile.RowFields | app.py:24-39 | a row's ip is the first token, its time the bracket text, and its method and path the request's first two words or "" |
| LoadFile.StatusSizeRule | app.py:37-38 | status is the last-but-one token when it is all digits and "" otherwise; size likewise for the last token; neither holds whitespace |

## Left out

- Streamlit calls (warnings, progress bar, info and error boxes) are display only. The "first 5/3 warnings" caps do not touch the counters.
- The success-rate summary of `parse_log_file` (modules/log_parser.py:218-266) is not modelled. It uses floating-point percentages and message formatting.
- Byte decoding is not modelled: the UTF-8 / Latin-1 fallback of `parse_log_file` and `decode(errors="ignore")` in `load_file`. The content is taken as already-decoded text.
- `generate_sample_log` is not modelled. It depends on `random` and the clock.
- Python's `\d`, `\w`, `int()` and `isdigit()` also accept non-ASCII digits and letters. The model accepts ASCII digits and ASCII word characters only.
- `int()`'s digit limit is taken at its default of 4300; `sys.set_int_max_str_digits` is not modelled.
- Severity.DetermineResponseText / Text.IntToDecimal: the 4300-digit limit of int-to-str conversion is not modelled, so for a code of more than 4300 digits the model returns a text where `f"{status_code}"` raises ValueError. `parse_log_file` only calls the function with 100..599 (Severity.RangeFallbackShort), where the text is three digits.
- `%b` is matched against the English (C-locale) month abbreviations.
- `strptime` also accepts a few forms the four formats never meet (a leading space before a one-digit `%d`). Inputs that reach it never contain a space, so these are not modelled.
- The connection pool, `get_db_connection`, `pd.read_sql`, `executemany`, commit and rollback are I/O and are not modelled.
  - `SaveLogData` takes whether a connection was obtained (`connected`) and whether the insert and commit succeeded (`accepted`) as parameters.
  - The `conn is None` early return of `get_logs_by_filters` is outside the modelled query construction.
- `Database.WhereMeansMatches` compares `timestamp` bounds as text, lexicographically. MySQL's DATETIME conversion of the bound is not modelled.
- `get_data_to_dataframe`, `clear_all_logs`, `get_statistics` and `test_connection` are database I/O and are not modelled.
- The rest of `app.py` (the CSV branch, `pd.to_datetime`, `load_mysql`, the exports and `main`) consists of library and UI wrappers and is not modelled.
- `modules/visualizations.py` is pandas and matplotlib charting and is not modelled.
