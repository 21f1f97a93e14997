/** The scraper of the geasar.it flight listing: the query URL for a route and
    a date, the validation of the `DD/MM/YYYY` date argument, and the
    normalisation of the listing's table rows into flight records whose
    departure time is converted from Rome time to UTC.

    The HTML itself is not modelled: the table arrives as its rows, each row
    as the texts of its cells, in page order. */
module Geasar {
  import opened Results
  import opened Text
  import opened Calendar
  import opened RomeTime
  import opened DateFormat

  // ---------------------------------------------------------------------
  // build_url

  const ListingUrl := "https://www.geasar.it/en/flights/all-flights"

  /** The listing's URL for a route and a date already written as `DD/MM/YYYY`:
      the listing's address, `?`, and the three `name=value` parameters joined
      by `&`. The values are spliced in as they are, without percent-encoding. */
  function BuildUrl(dep: string, arr: string, dateFrom: string): (url: string)
    ensures url == ListingUrl + "?" + Join(["dep=" + dep, "arr=" + arr, "date-from=" + dateFrom], '&')
  {
    var a, b, c := "dep=" + dep, "arr=" + arr, "date-from=" + dateFrom;
    Join3(a, b, c, '&');
    ListingUrl + "?" + (a + "&" + b + "&" + c)
  }

  /** The URL is the listing's address followed by a query whose three
      `&`-separated parameters carry `dep`, `arr` and the date verbatim, as
      long as none of them contains `&`. */
  lemma {:induction false} BuildUrlQuery(dep: string, arr: string, dateFrom: string)
    requires '&' !in dep && '&' !in arr && '&' !in dateFrom
    ensures var url := BuildUrl(dep, arr, dateFrom);
            |url| > |ListingUrl| && url[..|ListingUrl| + 1] == ListingUrl + "?"
            && SplitOn(url[|ListingUrl| + 1..], '&') == ["dep=" + dep, "arr=" + arr, "date-from=" + dateFrom]
  {
    var url := BuildUrl(dep, arr, dateFrom);
    var a, b, c := "dep=" + dep, "arr=" + arr, "date-from=" + dateFrom;
    var head, query := ListingUrl + "?", Join([a, b, c], '&');
    assert url == head + query;
    assert |head| == |ListingUrl| + 1;
    assert url[..|head|] == head && url[|head|..] == query;
    assert '&' !in a && '&' !in b && '&' !in c;
    SplitOnJoin([a, b, c], '&');
  }

  /** The URL the command line fetches: the date argument written back as
      `DD/MM/YYYY`, which never contains `&`, so its query carries the route
      and the date whenever the airport codes are free of `&`. */
  lemma {:induction false} RequestUrlQuery(dep: string, arr: string, date: Date)
    requires ValidDate(date) && '&' !in dep && '&' !in arr
    ensures var url := BuildUrl(dep, arr, FormatDayMonthYear(date));
            SplitOn(url[|ListingUrl| + 1..], '&')
            == ["dep=" + dep, "arr=" + arr, "date-from=" + FormatDayMonthYear(date)]
  {
    assert '&' !in FormatDayMonthYear(date) by {
      assert AllDigits(Pad2(date.day)) && AllDigits(Pad2(date.month)) && AllDigits(Pad4(date.year));
    }
    BuildUrlQuery(dep, arr, FormatDayMonthYear(date));
  }

  // ---------------------------------------------------------------------
  // parse_date

  const UsageMessage := "Invalid date format. Use DD/MM/YYYY (e.g., 18/06/2025)."

  /** The `--date-from` argument: a real calendar date written `DD/MM/YYYY`
      (as `%d/%m/%Y` reads it), or a usage error. */
  function ParseDate(s: string): (r: Result<Date, string>)
    ensures r.Success? ==> ValidDate(r.value)
    ensures r.Failure? ==> r.error == UsageMessage
  {
    match ParseDayMonthYear(s)
    case Some(d) => Success(d)
    case None => Failure(UsageMessage)
  }

  /** A date written back as `DD/MM/YYYY` is read again as the same date. */
  lemma ParseDateRoundTrip(d: Date)
    requires ValidDate(d)
    ensures ParseDate(FormatDayMonthYear(d)) == Success(d)
  {
    ParseFormatDayMonthYear(d);
  }

  /** Every accepted argument is a day, a month and a four-digit year between
      two slashes, naming a real date; a text with any other number of slashes
      is refused. */
  lemma ParseDateAccepts(s: string)
    ensures ParseDate(s).Success? ==>
              exists ds, ms, ys :: s == ds + "/" + ms + "/" + ys && '/' !in ds && '/' !in ms && '/' !in ys
                                   && DateOf(ds, ms, ys) == Some(ParseDate(s).value)
    ensures |SplitOn(s, '/')| != 3 ==> ParseDate(s).Failure?
  {
    if ParseDate(s).Success? {
      ParseDayMonthYearShape(s);
    }
  }

  /** Three slash-free fields joined by slashes are accepted as a date exactly
      when each field reads as that date's day, month and year and the date
      exists: an impossible date such as 31/02/2025 is refused. */
  lemma {:induction false} ParseDateIff(ds: string, ms: string, ys: string, d: Date)
    requires '/' !in ds && '/' !in ms && '/' !in ys
    ensures ParseDate(ds + "/" + ms + "/" + ys) == Success(d)
            <==> && DayField(ds) == Some(d.day) && MonthField(ms) == Some(d.month)
                 && YearField(ys) == Some(d.year) && ValidDate(d)
  {
    ParseDayMonthYearFields(ds, ms, ys);
  }

  // ---------------------------------------------------------------------
  // parse_flights

  /** One normalised table row. */
  datatype FlightRecord = FlightRecord(utcDatetime: string, flightNumber: string, dep: string, arr: string)

  /** Why a row stops the whole parse: its departure cell is blank (the
      `IndexError` of taking the last of no words), its time token is not an
      `HH:MM` time (`ValueError`), or its UTC time would fall before year 1
      (`OverflowError`). */
  datatype ParseError = MissingTime | BadTime(token: string) | OutOfRange

  /** Rows with fewer than four cells are not flights. */
  predicate IsDataRow(row: seq<string>)
  {
    |row| >= 4
  }

  /** `idx` lists, in increasing order, the positions of exactly the data rows
      of `rows`, and `data` holds the rows at those positions. */
  predicate SelectsDataRows(rows: seq<seq<string>>, data: seq<seq<string>>, idx: seq<nat>)
  {
    && |idx| == |data|
    && (forall j :: 0 <= j < |idx| ==> idx[j] < |rows| && data[j] == rows[idx[j]] && IsDataRow(rows[idx[j]]))
    && (forall i, j :: 0 <= i < j < |idx| ==> idx[i] < idx[j])
    && (forall k :: 0 <= k < |rows| && IsDataRow(rows[k]) ==> k in idx)
  }

  /** The positions of the data rows, in increasing order. */
  ghost function DataPositions(rows: seq<seq<string>>): (idx: seq<nat>)
    ensures forall j :: 0 <= j < |idx| ==> idx[j] < |rows|
  {
    if rows == [] then []
    else DataPositions(rows[..|rows| - 1]) + (if IsDataRow(rows[|rows| - 1]) then [|rows| - 1] else [])
  }

  /** The rows that are flights, in page order: every data row is kept, in
      order, and nothing else. */
  function DataRows(rows: seq<seq<string>>): (data: seq<seq<string>>)
    ensures forall k :: 0 <= k < |data| ==> IsDataRow(data[k])
    ensures SelectsDataRows(rows, data, DataPositions(rows))
  {
    if rows == [] then []
    else
      var init, last := rows[..|rows| - 1], rows[|rows| - 1];
      var data := DataRows(init) + (if IsDataRow(last) then [last] else []);
      DataRowsStep(rows, DataRows(init), DataPositions(init));
      data
  }

  /** A selection of the data rows of all rows but the last extends to one of
      all rows. */
  lemma DataRowsStep(rows: seq<seq<string>>, data: seq<seq<string>>, idx: seq<nat>)
    requires rows != [] && SelectsDataRows(rows[..|rows| - 1], data, idx)
    ensures var last := rows[|rows| - 1];
            var n := |rows| - 1;
            SelectsDataRows(rows, data + (if IsDataRow(last) then [last] else []),
                            idx + (if IsDataRow(last) then [n] else []))
  {
    var init, n := rows[..|rows| - 1], |rows| - 1;
    forall j | 0 <= j < |idx| ensures rows[idx[j]] == init[idx[j]] { }
    forall k | 0 <= k < n && IsDataRow(rows[k]) ensures k in idx {
      assert init[k] == rows[k];
    }
  }

  /** The departure-time token of a row: the last whitespace-separated word of
      its third cell's text. */
  function TimeToken(row: seq<string>): (token: Option<string>)
    requires IsDataRow(row)
    ensures token.None? <==> AllSpace(row[2])
    ensures token.Some? ==> token.value != [] && NoSpace(token.value)
  {
    var words := Words(Trim(row[2]));
    WordsEmptyIff(Trim(row[2]));
    TrimBlank(row[2]);
    if words == [] then None else Some(words[|words| - 1])
  }

  /** One data row as a flight record, or the error that aborts the parse. */
  function ConvertRow(row: seq<string>, date: Date, dep: string, arr: string): (r: Result<FlightRecord, ParseError>)
    requires IsDataRow(row) && ValidDate(date)
    ensures r == Failure(MissingTime) <==> AllSpace(row[2])
    ensures r.Failure? && r.error.BadTime? ==> Some(r.error.token) == TimeToken(row) && ClockField(r.error.token).None?
    ensures r.Success? ==> && r.value.flightNumber == Trim(row[0]) && r.value.dep == dep && r.value.arr == arr
                           && |r.value.utcDatetime| == 20
  {
    var flightNumber := Trim(row[0]);
    match TimeToken(row)
    case None => Failure(MissingTime)
    case Some(token) =>
      ParseFormattedDateAndToken(date, token);
      match ParseDayMonthYearClock(FormatDayMonthYear(date) + " " + token)
      case None => Failure(BadTime(token))
      case Some(local) =>
        match ToUtc(local)
        case None => Failure(OutOfRange)
        case Some(utc) => Success(FlightRecord(FormatIsoUtc(utc), flightNumber, dep, arr))
  }

  /** How each data row becomes a record, or the error that aborts the parse. */
  type RowConversion = seq<string> -> Result<FlightRecord, ParseError>

  /** The row conversion `parse_flights` applies for a date and a route. Rows
      with fewer than four cells never reach it. */
  function Conversion(date: Date, dep: string, arr: string): RowConversion
    requires ValidDate(date)
  {
    row => if IsDataRow(row) then ConvertRow(row, date, dep, arr) else Failure(MissingTime)
  }

  /** The loop of `parse_flights` for a given row conversion: the records of
      the data rows in order, or the error of the first data row that fails. */
  function Collect(rows: seq<seq<string>>, convert: RowConversion): (r: Result<seq<FlightRecord>, ParseError>)
    ensures r.Success? ==> |r.value| == |DataRows(rows)|
  {
    if rows == [] then Success([])
    else
      var last := rows[|rows| - 1];
      match Collect(rows[..|rows| - 1], convert)
      case Failure(e) => Failure(e)
      case Success(records) =>
        if !IsDataRow(last) then Success(records)
        else match convert(last)
          case Failure(e) => Failure(e)
          case Success(record) => Success(records + [record])
  }

  /** What `parse_flights` returns for the rows of a page. */
  function Flights(rows: seq<seq<string>>, date: Date, dep: string, arr: string): (r: Result<seq<FlightRecord>, ParseError>)
    requires ValidDate(date)
    ensures r.Success? ==> |r.value| == |DataRows(rows)|
    ensures r.Success? ==> forall k :: 0 <= k < |r.value| ==>
              && r.value[k].flightNumber == Trim(DataRows(rows)[k][0])
              && r.value[k].dep == dep && r.value[k].arr == arr && |r.value[k].utcDatetime| == 20
  {
    var convert := Conversion(date, dep, arr);
    var r := Collect(rows, convert);
    if r.Success? then
      CollectRecords(rows, convert);
      assert forall k :: 0 <= k < |r.value| ==> ConvertRow(DataRows(rows)[k], date, dep, arr) == Success(r.value[k]);
      r
    else r
  }

  /** `parse_flights`: walks the rows in order, skips those with fewer than
      four cells, converts the others and appends their records; the first
      row that fails aborts the call, and no partial list is returned. */
  method ParseFlights(rows: seq<seq<string>>, date: Date, dep: string, arr: string)
    returns (r: Result<seq<FlightRecord>, ParseError>)
    requires ValidDate(date)
    ensures r == Flights(rows, date, dep, arr)
  {
    ghost var convert := Conversion(date, dep, arr);
    var flights: seq<FlightRecord> := [];
    for i := 0 to |rows|
      invariant Collect(rows[..i], convert) == Success(flights)
    {
      var row := rows[i];
      assert rows[..i + 1][..i] == rows[..i];
      if |row| < 4 {
        continue;
      }
      var converted := ConvertRow(row, date, dep, arr);
      assert convert(row) == converted;
      if converted.Failure? {
        FailureIsFinal(rows, i + 1, convert);
        return Failure(converted.error);
      }
      flights := flights + [converted.value];
    }
    assert rows[..|rows|] == rows;
    return Success(flights);
  }

  /** Once a prefix of the rows fails, the rest of the rows do not matter. */
  lemma {:induction false} FailureIsFinal(rows: seq<seq<string>>, n: nat, convert: RowConversion)
    requires n <= |rows| && Collect(rows[..n], convert).Failure?
    ensures Collect(rows, convert) == Collect(rows[..n], convert)
    decreases |rows| - n
  {
    if n < |rows| {
      assert rows[..n + 1][..n] == rows[..n];
      FailureIsFinal(rows, n + 1, convert);
    } else {
      assert rows[..n] == rows;
    }
  }

  // ---------------------------------------------------------------------
  // Properties of parse_flights

  /** The parse succeeds exactly when every data row converts; rows with
      fewer than four cells never cause a failure. */
  lemma {:induction false} CollectSucceedsIff(rows: seq<seq<string>>, convert: RowConversion)
    ensures Collect(rows, convert).Success?
            <==> forall k :: 0 <= k < |rows| && IsDataRow(rows[k]) ==> convert(rows[k]).Success?
  {
    if rows != [] {
      var init := rows[..|rows| - 1];
      CollectSucceedsIff(init, convert);
      assert forall k :: 0 <= k < |init| ==> init[k] == rows[k];
    }
  }

  /** On success there is exactly one record per data row, in row order, and
      each is that row's conversion. */
  lemma {:induction false} CollectRecords(rows: seq<seq<string>>, convert: RowConversion)
    requires Collect(rows, convert).Success?
    ensures var records := Collect(rows, convert).value;
            var data := DataRows(rows);
            |records| == |data|
            && forall k :: 0 <= k < |data| ==> convert(data[k]) == Success(records[k])
  {
    if rows != [] {
      CollectRecords(rows[..|rows| - 1], convert);
    }
  }

  /** A failed parse reports the error of the first data row that fails; every
      data row before it converts. */
  lemma {:induction false} CollectFirstError(rows: seq<seq<string>>, convert: RowConversion)
    requires Collect(rows, convert).Failure?
    ensures exists k {:trigger rows[k]} :: FirstFailure(rows, k, Collect(rows, convert).error, convert)
  {
    var init := rows[..|rows| - 1];
    var e := Collect(rows, convert).error;
    if Collect(init, convert).Failure? {
      CollectFirstError(init, convert);
      var k :| FirstFailure(init, k, e, convert);
      FirstFailureExtends(init, rows, k, e, convert);
    } else {
      CollectSucceedsIff(init, convert);
      var k := |rows| - 1;
      forall j | 0 <= j < k && IsDataRow(rows[j])
        ensures convert(rows[j]).Success?
      {
        assert init[j] == rows[j];
      }
      assert FirstFailure(rows, k, e, convert);
    }
  }

  /** Row `k` is the first data row that fails, with error `e`. */
  predicate FirstFailure(rows: seq<seq<string>>, k: int, e: ParseError, convert: RowConversion)
  {
    && 0 <= k < |rows| && IsDataRow(rows[k])
    && convert(rows[k]) == Failure(e)
    && forall j :: 0 <= j < k && IsDataRow(rows[j]) ==> convert(rows[j]).Success?
  }

  lemma FirstFailureExtends(init: seq<seq<string>>, rows: seq<seq<string>>, k: int, e: ParseError, convert: RowConversion)
    requires init <= rows && FirstFailure(init, k, e, convert)
    ensures FirstFailure(rows, k, e, convert)
  {
    assert rows[k] == init[k];
    forall j | 0 <= j < k ensures rows[j] == init[j] { }
  }

  /** Dropping the rows with fewer than four cells changes nothing. */
  lemma {:induction false} ShortRowsIgnored(rows: seq<seq<string>>, convert: RowConversion)
    ensures Collect(DataRows(rows), convert) == Collect(rows, convert)
  {
    if rows != [] {
      var init := rows[..|rows| - 1];
      var last := rows[|rows| - 1];
      ShortRowsIgnored(init, convert);
      if IsDataRow(last) {
        assert DataRows(rows) == DataRows(init) + [last];
        CollectAppend(DataRows(init), last, convert);
      } else {
        assert DataRows(rows) == DataRows(init);
      }
    }
  }

  /** `Collect` of some rows followed by one more row. */
  lemma CollectAppend(rows: seq<seq<string>>, row: seq<string>, convert: RowConversion)
    ensures Collect(rows + [row], convert)
            == match Collect(rows, convert)
               case Failure(e) => Failure(e)
               case Success(records) =>
                 if !IsDataRow(row) then Success(records)
                 else match convert(row)
                   case Failure(e) => Failure(e)
                   case Success(record) => Success(records + [record])
  {
    assert (rows + [row])[..|rows|] == rows;
  }

  /** For the rows of a page: the parse succeeds exactly when every data row
      converts. */
  lemma FlightsSucceedIff(rows: seq<seq<string>>, date: Date, dep: string, arr: string)
    requires ValidDate(date)
    ensures Flights(rows, date, dep, arr).Success?
            <==> forall k :: 0 <= k < |rows| && IsDataRow(rows[k]) ==> ConvertRow(rows[k], date, dep, arr).Success?
  {
    CollectSucceedsIff(rows, Conversion(date, dep, arr));
  }

  // ---------------------------------------------------------------------
  // Properties of one row

  /** The time token is the last whitespace-separated word of the third
      cell: a non-empty run of non-whitespace characters followed only by
      whitespace. There is none exactly when that cell is blank. */
  lemma TimeTokenIsLastWord(row: seq<string>)
    requires IsDataRow(row)
    ensures TimeToken(row).None? <==> AllSpace(row[2])
    ensures TimeToken(row).Some? ==>
              var token := TimeToken(row).value;
              token != [] && NoSpace(token)
              && exists i {:trigger FinalRunAt(row[2], token, i)} :: FinalRunAt(row[2], token, i)
  {
    WordsEmptyIff(Trim(row[2]));
    TrimBlank(row[2]);
    if !AllSpace(row[2]) {
      LastWordOfTrimmed(row[2]);
    }
  }

  /** What one data row becomes. The flight number is the first cell with its
      surrounding whitespace removed; `dep` and `arr` are passed through. A
      blank third cell fails; otherwise its time token must be an `HH:MM`
      time. The caller's date at that Rome wall-clock time is moved back by
      Rome's offset (one hour in winter, two in summer) to UTC, which can be
      the previous day, and is written `YYYY-MM-DDTHH:MM:00Z`. */
  lemma {:induction false} ConvertRowMeaning(row: seq<string>, date: Date, dep: string, arr: string)
    requires IsDataRow(row) && ValidDate(date)
    ensures AllSpace(row[2]) ==> ConvertRow(row, date, dep, arr) == Failure(MissingTime)
    ensures !AllSpace(row[2]) && ClockField(TimeToken(row).value).None? ==>
              ConvertRow(row, date, dep, arr) == Failure(BadTime(TimeToken(row).value))
    ensures !AllSpace(row[2]) && ClockField(TimeToken(row).value).Some? ==>
              var (h, m) := ClockField(TimeToken(row).value).value;
              var local := DateTime(date, h, m);
              if Instant(local) < RomeOffset(local) then ConvertRow(row, date, dep, arr) == Failure(OutOfRange)
              else
                var utc := ToUtc(local).value;
                && ConvertRow(row, date, dep, arr) == Success(FlightRecord(FormatIsoUtc(utc), Trim(row[0]), dep, arr))
                && Instant(utc) == Instant(local) - RomeOffset(local)
  {
    TimeTokenIsLastWord(row);
    if !AllSpace(row[2]) {
      ParseFormattedDateAndToken(date, TimeToken(row).value);
    }
  }
}
