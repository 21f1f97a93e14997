# Geasar flight-listing scraper, modelled in Dafny

This project models the core of the geasar.it departures scraper
(`parse_geasar_it/main.py`):

- `build_url` turns a route and a `DD/MM/YYYY` date into the listing's URL.
- `parse_date` validates the `--date-from` argument with
  `strptime("%d/%m/%Y")`.
- `parse_flights` walks the rows of the listing table. It skips rows with
  fewer than four cells. For every other row it takes the flight number from
  the first cell and the departure time from the last word of the third cell.
  That time is read as a Rome wall-clock time on the requested date,
  converted to UTC and written `YYYY-MM-DDTHH:MM:SSZ`. The first row whose
  time cannot be read or converted aborts the whole call.

The Python library behaviour the scraper relies on is modelled as well:

- `str.isspace`, `str.strip` and `str.split()`;
- the `strptime` directives `%d`, `%m`, `%Y`, `%H` and `%M`;
- the `strftime` padding;
- the proleptic Gregorian calendar of `datetime`;
- the `Europe/Rome` zone as `zoneinfo` applies it.

The files, one module each:

| file | module | contents |
|---|---|---|
| `results.dfy` | `Results` | `Option` and `Result` |
| `text.dfy` | `Text` | whitespace, strip, split, one-character split and join, decimal digits and padding |
| `calendar.dfy` | `Calendar` | dates, day numbers, weekdays, the last Sunday of a month |
| `rome.dfy` | `RomeTime` | wall-clock times, the Rome offset, local time to UTC |
| `datefmt.dfy` | `DateFormat` | `strptime` and `strftime` for the three formats the scraper uses |
| `geasar.dfy` | `Geasar` | `build_url`, `parse_date`, `parse_flights` and the conversion of one row |
| `scenarios.dfy` | `Scenarios` | three worked rows: summer, winter, and a time that moves to the previous UTC day |

`parse_flights` is a loop that appends to a list, so it is the method
`Geasar.ParseFlights`. Its `for` loop carries an invariant tying the records
collected so far to the specification function `Geasar.Collect`. `Collect`
is written for any row conversion. The lemmas about it are proved once, and
then apply to the conversion the scraper uses (`Geasar.Conversion`, built on
`Geasar.ConvertRow`). Everything else in the core is expression code and is
modelled as functions and lemmas.

The three errors `parse_flights` can raise become the values of
`Geasar.ParseError`:

| Python error | value | cause |
|---|---|---|
| `IndexError` | `MissingTime` | the departure cell is blank |
| `ValueError` | `BadTime(token)` | the time token does not match `%H:%M` |
| `OverflowError` | `OutOfRange` | the UTC time would fall before year 1 |

A rejected `--date-from` argument yields `Failure` carrying the usage message.

## Model

| member | source | states |
|---|---|---|
| Text.Trim | parse_geasar_it/main.py:45-46 | `get_text(strip=True)`: the result is a slice of the text with only whitespace (as `str.isspace` sees it) outside it, and it neither starts nor ends with whitespace |
| Text.TrimIsBothTrims | parse_geasar_it/main.py:45-46 | stripping both ends at once equals `lstrip` followed by `rstrip` |
| Text.TrimBlank | parse_geasar_it/main.py:46 | a cell's stripped text is blank exactly when the cell is |
| Text.Words | parse_geasar_it/main.py:48 | every word `str.split()` returns is non-empty and free of whitespace |
| Text.WordsEmptyIff | parse_geasar_it/main.py:48 | `str.split()` returns no word exactly when the text is blank, the case where `[-1]` raises |
| Text.LastWordIsFinalRun | parse_geasar_it/main.py:48 | `split()[-1]` is non-empty and sits at a position followed only by whitespace and preceded by whitespace or the start |
| Text.LastWordOfTrimmed | parse_geasar_it/main.py:46-48 | the last word of the stripped cell text is the final run of the cell text itself |
| Text.Pad4 | parse_geasar_it/main.py:51 | `%Y` writes four digits whose value is the year |
| Text.FourDigits | parse_geasar_it/main.py:70 | any four digits are the zero-padded form of their value, so `%Y` reads back what it writes |
| Text.JoinSplitOn | parse_geasar_it/main.py:20 | joining the pieces of a split on one character gives back the text |
| Text.SplitOnJoin | parse_geasar_it/main.py:20 | splitting undoes joining pieces that do not contain the separator |
| Calendar.PrevDay | parse_geasar_it/main.py:53 | the day before a date is a valid date, exactly one day number earlier, across month and year ends |
| Calendar.YearsFillDays | parse_geasar_it/main.py:53 | the closed-form day count of the years before `y` grows by the length of year `y - 1` |
| Calendar.WeekdayNext | parse_geasar_it/main.py:13 | consecutive days of a month have consecutive weekdays |
| Calendar.LastSunday | parse_geasar_it/main.py:13 | the day chosen lies in the last seven days of the month |
| Calendar.LastSundayIsLast | parse_geasar_it/main.py:13 | that day is a Sunday and no later day of the month is |
| RomeTime.RomeOffset | parse_geasar_it/main.py:52 | the offset `replace(tzinfo=ROME)` attaches is one hour or two |
| RomeTime.ToUtc | parse_geasar_it/main.py:53 | `astimezone(UTC)` moves the instant back by exactly the offset. It fails only below 0001-01-01. The UTC date stays the same exactly when the local time of day is at least the offset, and is otherwise the previous day |
| RomeTime.OffsetAgreesWithRule | parse_geasar_it/main.py:52-53 | outside the skipped spring hour, the offset used is the summer offset exactly when the resulting UTC instant lies in EU summer time |
| RomeTime.SpringGapReadAsWinter | parse_geasar_it/main.py:52-53 | a time in the skipped spring hour is read with the winter offset and lands at 01:xx UTC, in summer time |
| RomeTime.AutumnFoldReadAsSummer | parse_geasar_it/main.py:52-53 | a time in the repeated autumn hour is read as its first, summer-time occurrence and lands at 00:xx UTC |
| DateFormat.NumField | parse_geasar_it/main.py:52 | a one- or two-digit field accepts only values in its range, written zero-padded or as one digit |
| DateFormat.DayField | parse_geasar_it/main.py:70 | `%d` accepts only days 1 to 31, written zero-padded, as one digit, or as a space and one digit |
| DateFormat.MonthField | parse_geasar_it/main.py:70 | `%m` accepts only months 1 to 12, written zero-padded or as one digit |
| DateFormat.YearField | parse_geasar_it/main.py:70 | `%Y` accepts any four digits as their value, and an accepted text is the padded form of the year read |
| DateFormat.DateOf | parse_geasar_it/main.py:70 | the result is the date the three fields read, and only a real calendar date; when all three fields read and name a real date, that date is the result |
| DateFormat.DayFieldOfValue | parse_geasar_it/main.py:70 | `%d` reads every day back from its zero-padded form and, below ten, from one digit and from a space and one digit |
| DateFormat.MonthFieldOfValue | parse_geasar_it/main.py:70 | `%m` reads every month back from its zero-padded form and, below ten, from one digit |
| DateFormat.ClockField | parse_geasar_it/main.py:52 | `%H:%M` accepts only an hour below 24 and a minute below 60, and an accepted text is an hour field, one colon and a minute field that read as that hour and minute |
| DateFormat.ClockOfFields | parse_geasar_it/main.py:52 | an hour field, a colon and a minute field, both colon-free, are accepted exactly when both fields read, as those values |
| DateFormat.NumFieldOfValue | parse_geasar_it/main.py:52 | every value in range is read back from its zero-padded form and, below ten, from its one-digit form |
| DateFormat.ClockOfPadded | parse_geasar_it/main.py:52 | every hour below 24 and minute below 60, each zero-padded or as one digit, reads back as that time |
| DateFormat.ParseDayMonthYear | parse_geasar_it/main.py:70 | every date `%d/%m/%Y` accepts is a valid date |
| DateFormat.ParseDayMonthYearClock | parse_geasar_it/main.py:52 | every time `%d/%m/%Y %H:%M` accepts is a valid wall-clock time |
| DateFormat.FormatDayMonthYear | parse_geasar_it/main.py:51 | `%d/%m/%Y` writes ten characters: two-digit day, slash, two-digit month, slash, four-digit year, each reading back as its value |
| DateFormat.FormatIsoUtc | parse_geasar_it/main.py:54 | `%Y-%m-%dT%H:%M:%SZ` writes twenty characters: every field is zero-padded at a fixed position and reads back as its value, the seconds are `00`, and the separators are in place |
| DateFormat.FieldsOfPadded | parse_geasar_it/main.py:51 | the padded day, month and year read back through `%d`, `%m` and `%Y` |
| DateFormat.ParseFormatDayMonthYear | parse_geasar_it/main.py:68-74 | `%d/%m/%Y` reads back every date it writes |
| DateFormat.ParseDayMonthYearFields | parse_geasar_it/main.py:70 | a text of three slash-free fields joined by slashes parses exactly as its fields name a date |
| DateFormat.ParseDayMonthYearShape | parse_geasar_it/main.py:70 | every accepted text is three slash-free fields joined by slashes |
| DateFormat.ClockFieldChars | parse_geasar_it/main.py:52 | an accepted `%H:%M` holds only digits and the colon |
| DateFormat.ParseFormattedDateAndToken | parse_geasar_it/main.py:51-52 | the written date, a space and a whitespace-free token parse as that date at the token's clock time, or fail exactly when the token is not a valid `%H:%M` |
| Geasar.BuildUrl | parse_geasar_it/main.py:17-21 | the URL is the listing address, `?`, and the parameters `dep=`, `arr=` and `date-from=` joined by `&` |
| Geasar.BuildUrlQuery | parse_geasar_it/main.py:17-21 | the URL is the listing address, `?`, and a query whose `&`-separated parameters carry `dep`, `arr` and the date verbatim, provided none of them contains `&` |
| Geasar.RequestUrlQuery | parse_geasar_it/main.py:89 | with the date written as `DD/MM/YYYY`, the query carries the route and the date whenever the airport codes are free of `&` |
| Geasar.ParseDate | parse_geasar_it/main.py:68-74 | an accepted argument is a valid date; a rejected one carries the usage message |
| Geasar.ParseDateRoundTrip | parse_geasar_it/main.py:89 | the date written back as `DD/MM/YYYY` for the URL parses again as the same date |
| Geasar.ParseDateIff | parse_geasar_it/main.py:68-74 | three slash-free fields joined by slashes are accepted as a date exactly when they read as its day, month and year and that date exists |
| Geasar.ParseDateAccepts | parse_geasar_it/main.py:68-74 | an accepted argument is three slash-free fields naming that date, and a text without exactly two slashes is rejected |
| Geasar.DataRows | parse_geasar_it/main.py:41-43 | the rows kept are exactly the rows with at least four cells, in page order: they are the rows at a strictly increasing list of positions that holds every such row's position and no other |
| Geasar.Collect | parse_geasar_it/main.py:40-65 | on success, one record per row with at least four cells |
| Geasar.Flights | parse_geasar_it/main.py:40-65 | on success, one record per row with at least four cells, in order, each with that row's stripped flight number, the route, and a twenty-character UTC time |
| Geasar.ParseFlights | parse_geasar_it/main.py:35-65 | the loop returns what `Collect` specifies for the scraper's row conversion |
| Geasar.FailureIsFinal | parse_geasar_it/main.py:40-63 | once a prefix of the rows fails, the remaining rows do not change the outcome |
| Geasar.CollectSucceedsIff | parse_geasar_it/main.py:40-65 | the parse succeeds exactly when every row with four or more cells converts |
| Geasar.CollectRecords | parse_geasar_it/main.py:40-65 | on success there is one record per data row, in row order, each that row's conversion |
| Geasar.CollectFirstError | parse_geasar_it/main.py:40-53 | a failed parse reports the error of the first data row that fails, and every data row before it converts |
| Geasar.ShortRowsIgnored | parse_geasar_it/main.py:41-43 | dropping the rows with fewer than four cells beforehand changes nothing |
| Geasar.FlightsSucceedIff | parse_geasar_it/main.py:35-65 | for the scraper's conversion: the parse succeeds exactly when `ConvertRow` succeeds on every data row |
| Geasar.TimeToken | parse_geasar_it/main.py:46-48 | the token is missing exactly when the third cell is blank, and otherwise it is non-empty and free of whitespace |
| Geasar.ConvertRow | parse_geasar_it/main.py:45-63 | `MissingTime` exactly when the departure cell is blank; `BadTime` carries the row's token and only when that token is not `%H:%M`; a record holds the stripped flight number, the route and a twenty-character UTC time |
| Geasar.TimeTokenIsLastWord | parse_geasar_it/main.py:46-48 | the time token is missing exactly when the third cell is blank; otherwise it is the non-empty final whitespace-free run of that cell |
| Geasar.ConvertRowMeaning | parse_geasar_it/main.py:45-63 | what one row becomes. A blank departure cell gives `MissingTime`. A token that is not `%H:%M` gives `BadTime`. A time before year 1 in UTC gives `OutOfRange`. Otherwise the record holds the stripped flight number, the route, and the UTC time the local time moves to |
| Scenarios.SummerConversion | parse_geasar_it/main.py:52-54 | 09:30 in Rome on 18 June 2025 is written `2025-06-18T07:30:00Z` |
| Scenarios.WinterConversion | parse_geasar_it/main.py:52-54 | 09:30 in Rome on 18 January 2025 is written `2025-01-18T08:30:00Z` |
| Scenarios.AfterMidnightConversion | parse_geasar_it/main.py:52-54 | 00:30 in Rome on 18 June 2025 is written `2025-06-17T22:30:00Z` |
| Scenarios.ThirtyFirstOfFebruaryRefused | parse_geasar_it/main.py:68-74 | `31/02/2025` is refused with the usage message |
| Scenarios.LeapDayOfCommonYearRefused | parse_geasar_it/main.py:68-74 | `29/02/2025` is refused with the usage message |
| Scenarios.OneDigitFieldsAccepted | parse_geasar_it/main.py:68-74 | `7/6/2025` is accepted as 7 June 2025 |
| Scenarios.SpacePaddedDayAccepted | parse_geasar_it/main.py:68-74 | ` 7/06/2025` is accepted as 7 June 2025 |
| Scenarios.SummerDeparture | parse_geasar_it/main.py:45-63 | a row whose departure cell ends in `09:30`, on 18 June 2025, becomes the record at `2025-06-18T07:30:00Z` |
| Scenarios.WinterDeparture | parse_geasar_it/main.py:45-63 | the same row on 18 January 2025 becomes the record at `2025-01-18T08:30:00Z` |
| Scenarios.AfterMidnightDeparture | parse_geasar_it/main.py:45-63 | a row ending in `00:30` on 18 June 2025 is dated 17 June in UTC |

## Left out

- `fetch_html` (the HTTP request, its headers and timeout, `raise_for_status`): network I/O. The model starts from the table's rows.
- HTML parsing with BeautifulSoup and the selector `table.gs-table tbody tr`. A row is given as the texts of the cells `row.find_all("td")` returns, in page order. These are the `td` descendants of the row: `th` cells are not among them, while the `td` cells of a table nested in the row are. The `len(cols) < 4` test counts exactly these.
  - Each cell is taken to be a single text fragment. So `get_text(strip=True)` and `get_text(separator=" ", strip=True)` are both the stripped cell text.
  - Cells holding several text nodes, which the separator would join, are not modelled.
- The command line (`argparse`), writing the JSON file and logging: process I/O. `parse_date` is modelled without the `ArgumentTypeError` wrapper; its message is the value of `Failure`.
- Geasar.BuildUrl and Geasar.BuildUrlQuery: no percent-encoding, because `build_url` performs none. The query statement holds only for parameters free of `&`.
- DateFormat.NumField: ASCII digits only. The `\d` of Python's `strptime` also accepts other Unicode decimal digits, which are left out.
- RomeTime.RomeOffset: the current EU summer-time rule is applied to every year. The tz database's history for Rome is left out: the rules before 1996, the years without summer time, and local mean time before 1893. Only 1996 onward agrees with `zoneinfo`.
- DateFormat.FormatIsoUtc and DateFormat.FormatDayMonthYear: assume `%Y` pads the year to four digits, as current CPython does on every platform. Some older C libraries write years below 1000 without padding; there `strftime('%d/%m/%Y')` of a date such as 01/01/0005 writes a year that the `%Y` of the later `strptime` rejects, so every row fails where the model succeeds.
- DateFormat.FormatIsoUtc: the seconds are always `00`, because the parsed time has no seconds and the offsets are whole hours.
- Geasar.ParseFlights: rows are values. The `flights` list is a sequence that the loop extends, not a shared Python list.
