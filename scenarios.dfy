/** Worked conversions of single table rows for a departures page, one in
    summer time, one in winter time and one that moves back to the previous
    day in UTC. */
module Scenarios {
  import opened Results
  import opened Text
  import opened Calendar
  import opened RomeTime
  import opened DateFormat
  import opened Geasar

  /** The clock token of a 09:30 departure. */
  lemma ClockNineThirty()
    ensures ClockField("09:30") == Some((9, 30))
  {
    ClockOfPadded(9, 30);
    assert Pad2(9) + ":" + Pad2(30) == "09:30";
  }

  /** The clock token of a 00:30 departure. */
  lemma ClockHalfPastMidnight()
    ensures ClockField("00:30") == Some((0, 30))
  {
    ClockOfPadded(0, 30);
    assert Pad2(0) + ":" + Pad2(30) == "00:30";
  }

  /** 09:30 in Rome on 18 June 2025 (summer time) is 07:30 UTC. */
  lemma SummerConversion()
    ensures ToUtc(DateTime(Date(2025, 6, 18), 9, 30)) == Some(DateTime(Date(2025, 6, 18), 7, 30))
    ensures FormatIsoUtc(DateTime(Date(2025, 6, 18), 7, 30)) == "2025-06-18T07:30:00Z"
  {
    assert RomeOffset(DateTime(Date(2025, 6, 18), 9, 30)) == SummerOffset;
    assert ToUtc(DateTime(Date(2025, 6, 18), 9, 30)) == Some(DateTime(Date(2025, 6, 18), 7, 30));
  }

  /** 09:30 in Rome on 18 January 2025 (winter time) is 08:30 UTC. */
  lemma WinterConversion()
    ensures ToUtc(DateTime(Date(2025, 1, 18), 9, 30)) == Some(DateTime(Date(2025, 1, 18), 8, 30))
    ensures FormatIsoUtc(DateTime(Date(2025, 1, 18), 8, 30)) == "2025-01-18T08:30:00Z"
  {
    assert RomeOffset(DateTime(Date(2025, 1, 18), 9, 30)) == WinterOffset;
    assert ToUtc(DateTime(Date(2025, 1, 18), 9, 30)) == Some(DateTime(Date(2025, 1, 18), 8, 30));
  }

  /** 00:30 in Rome on 18 June 2025 is 22:30 UTC on 17 June. */
  lemma AfterMidnightConversion()
    ensures ToUtc(DateTime(Date(2025, 6, 18), 0, 30)) == Some(DateTime(Date(2025, 6, 17), 22, 30))
    ensures FormatIsoUtc(DateTime(Date(2025, 6, 17), 22, 30)) == "2025-06-17T22:30:00Z"
  {
    assert RomeOffset(DateTime(Date(2025, 6, 18), 0, 30)) == SummerOffset;
    assert PrevDay(Date(2025, 6, 18)) == Date(2025, 6, 17);
    assert ToUtc(DateTime(Date(2025, 6, 18), 0, 30)) == Some(DateTime(Date(2025, 6, 17), 22, 30));
  }

  /** A row whose time cell ends in 09:30, on a summer date. */
  lemma SummerDeparture(row: seq<string>, dep: string, arr: string)
    requires IsDataRow(row) && TimeToken(row) == Some("09:30")
    ensures ConvertRow(row, Date(2025, 6, 18), dep, arr)
            == Success(FlightRecord("2025-06-18T07:30:00Z", Trim(row[0]), dep, arr))
  {
    TimeTokenIsLastWord(row);
    assert !AllSpace(row[2]);
    ClockNineThirty();
    SummerConversion();
    var local := DateTime(Date(2025, 6, 18), 9, 30);
    assert Instant(local) >= RomeOffset(local);
    ConvertRowMeaning(row, Date(2025, 6, 18), dep, arr);
  }

  /** The same row on a winter date. */
  lemma WinterDeparture(row: seq<string>, dep: string, arr: string)
    requires IsDataRow(row) && TimeToken(row) == Some("09:30")
    ensures ConvertRow(row, Date(2025, 1, 18), dep, arr)
            == Success(FlightRecord("2025-01-18T08:30:00Z", Trim(row[0]), dep, arr))
  {
    TimeTokenIsLastWord(row);
    assert !AllSpace(row[2]);
    ClockNineThirty();
    WinterConversion();
    var local := DateTime(Date(2025, 1, 18), 9, 30);
    assert Instant(local) >= RomeOffset(local);
    ConvertRowMeaning(row, Date(2025, 1, 18), dep, arr);
  }

  /** A row whose time cell ends in 00:30: the UTC record is dated the day before. */
  lemma AfterMidnightDeparture(row: seq<string>, dep: string, arr: string)
    requires IsDataRow(row) && TimeToken(row) == Some("00:30")
    ensures ConvertRow(row, Date(2025, 6, 18), dep, arr)
            == Success(FlightRecord("2025-06-17T22:30:00Z", Trim(row[0]), dep, arr))
  {
    TimeTokenIsLastWord(row);
    assert !AllSpace(row[2]);
    ClockHalfPastMidnight();
    AfterMidnightConversion();
    var local := DateTime(Date(2025, 6, 18), 0, 30);
    assert Instant(local) >= RomeOffset(local);
    ConvertRowMeaning(row, Date(2025, 6, 18), dep, arr);
  }

  /** The year field `2025`. */
  lemma YearTwentyTwentyFive()
    ensures YearField("2025") == Some(2025)
  {
    assert Pad2(20) == "20" && Pad2(25) == "25";
    assert Pad4(2025) == "2025";
  }

  /** `--date-from 31/02/2025` names no real date and is refused with the
      usage message. */
  lemma ThirtyFirstOfFebruaryRefused()
    ensures ParseDate("31/02/2025") == Failure(UsageMessage)
  {
    assert Pad2(31) == "31" && "31/02/2025" == "31" + "/02/2025";
    FebruaryText("31", 31);
    FebruaryFieldsRefused("31", 31);
  }

  /** `--date-from 29/02/2025` falls in a common year and is refused with the
      usage message. */
  lemma LeapDayOfCommonYearRefused()
    ensures ParseDate("29/02/2025") == Failure(UsageMessage)
  {
    assert Pad2(29) == "29" && "29/02/2025" == "29" + "/02/2025";
    FebruaryText("29", 29);
    FebruaryFieldsRefused("29", 29);
  }

  /** A two-digit day of February 2025 parses as the three fields it is made
      of. */
  lemma FebruaryText(ds: string, day: nat)
    requires 10 <= day <= 31 && ds == Pad2(day)
    ensures ParseDate(ds + "/02/2025") == match DateOf(ds, "02", "2025")
                                          case Some(d) => Success(d)
                                          case None => Failure(UsageMessage)
  {
    assert '/' !in ds by { assert AllDigits(ds); }
    assert ds + "/02/2025" == ds + "/" + "02" + "/" + "2025";
    ParseDayMonthYearFields(ds, "02", "2025");
  }

  /** A day after the 28th of February 2025, written with two digits, names no
      date. */
  lemma FebruaryFieldsRefused(ds: string, day: nat)
    requires 28 < day <= 31 && ds == Pad2(day)
    ensures DateOf(ds, "02", "2025") == None
  {
    DayFieldOfValue(day);
    MonthFieldOfValue(2);
    assert Pad2(2) == "02";
    YearTwentyTwentyFive();
    assert !ValidDate(Date(2025, 2, day));
  }

  /** `%d/%m/%Y` also reads a one-digit day and month: `7/6/2025` is
      7 June 2025. */
  lemma OneDigitFieldsAccepted()
    ensures ParseDate("7/6/2025") == Success(Date(2025, 6, 7))
  {
    DayFieldOfValue(7);
    MonthFieldOfValue(6);
    assert [Digit(7)] == "7" && [Digit(6)] == "6";
    YearTwentyTwentyFive();
    assert ValidDate(Date(2025, 6, 7));
    assert "7/6/2025" == "7" + "/" + "6" + "/" + "2025";
    ParseDateIff("7", "6", "2025", Date(2025, 6, 7));
  }

  /** `%d` also reads a space and one digit: ` 7/06/2025` is 7 June 2025. */
  lemma SpacePaddedDayAccepted()
    ensures ParseDate(" 7/06/2025") == Success(Date(2025, 6, 7))
  {
    DayFieldOfValue(7);
    MonthFieldOfValue(6);
    assert [' ', Digit(7)] == " 7" && Pad2(6) == "06";
    YearTwentyTwentyFive();
    assert ValidDate(Date(2025, 6, 7));
    assert " 7/06/2025" == " 7" + "/" + "06" + "/" + "2025";
    ParseDateIff(" 7", "06", "2025", Date(2025, 6, 7));
  }
}
