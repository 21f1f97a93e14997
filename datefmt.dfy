/** The three `datetime` formats the scraper uses, as CPython's `_strptime`
    reads them and `strftime` writes them:
    `%d/%m/%Y`, `%d/%m/%Y %H:%M` and `%Y-%m-%dT%H:%M:%SZ`.

    `strptime` turns the format into a regular expression and requires it to
    match the whole text: `%d` is `3[01]|[12]\d|0[1-9]|[1-9]| [1-9]`, `%m` is
    `1[0-2]|0[1-9]|[1-9]`, `%Y` is `\d\d\d\d`, `%H` is `2[0-3]|[01]\d|\d`,
    `%M` is `[0-5]\d|\d`, and a space in the format matches one or more
    whitespace characters. The fields it reads must then name a real date. */
module DateFormat {
  import opened Results
  import opened Text
  import opened Calendar
  import opened RomeTime

  /** One or two ASCII digits whose value lies in `lo..hi`: the shape shared by
      `%d` (without its space form), `%m`, `%H` and `%M`. */
  function NumField(t: string, lo: nat, hi: nat): (r: Option<nat>)
    requires hi < 100
    ensures r.Some? ==> lo <= r.value <= hi && AllDigits(t)
    ensures r.Some? ==> t == Pad2(r.value) || (r.value < 10 && t == [Digit(r.value)])
  {
    if 1 <= |t| <= 2 && AllDigits(t) && lo <= NumberOf(t) <= hi then
      var v := NumberOf(t);
      if |t| == 1 then
        assert t[..0] == [] && NumberOf(t[..0]) == 0;
        assert v == DigitValue(t[0]);
        DigitOfValue(t[0]);
        assert t == [Digit(v)];
        Some(v)
      else
        TwoDigits(t);
        Some(v)
    else None
  }

  /** `%d`: a day of the month, 1 to 31, written with one or two digits or as a
      space and one digit. */
  function DayField(t: string): (r: Option<nat>)
    ensures r.Some? ==> 1 <= r.value <= 31
    ensures r.Some? ==> || t == Pad2(r.value)
                        || (r.value < 10 && t == [Digit(r.value)])
                        || (r.value < 10 && t == [' ', Digit(r.value)])
  {
    if |t| == 2 && t[0] == ' ' && '1' <= t[1] <= '9' then
      DigitOfValue(t[1]);
      assert t == [' ', t[1]];
      Some(DigitValue(t[1]))
    else NumField(t, 1, 31)
  }

  /** `%m`: a month, 1 to 12, written with one or two digits. */
  function MonthField(t: string): (r: Option<nat>)
    ensures r.Some? ==> 1 <= r.value <= 12
    ensures r.Some? ==> t == Pad2(r.value) || (r.value < 10 && t == [Digit(r.value)])
  {
    NumField(t, 1, 12)
  }

  /** `%Y`: exactly four digits. */
  function YearField(t: string): (r: Option<nat>)
    ensures r.Some? ==> r.value <= 9999 && t == Pad4(r.value)
    ensures |t| == 4 && AllDigits(t) ==> r == Some(NumberOf(t))
  {
    if |t| == 4 && AllDigits(t) then
      FourDigits(t);
      Some(NumberOf(t))
    else None
  }

  /** The date the three fields name, if they match and the date is real. */
  function DateOf(ds: string, ms: string, ys: string): (r: Option<Date>)
    ensures r.Some? ==> ValidDate(r.value)
    ensures r.Some? ==> && DayField(ds) == Some(r.value.day) && MonthField(ms) == Some(r.value.month)
                        && YearField(ys) == Some(r.value.year)
    ensures (&& DayField(ds).Some? && MonthField(ms).Some? && YearField(ys).Some?
             && ValidDate(Date(YearField(ys).value, MonthField(ms).value, DayField(ds).value)))
            ==> r.Some?
  {
    match (DayField(ds), MonthField(ms), YearField(ys))
    case (Some(d), Some(m), Some(y)) =>
      if ValidDate(Date(y, m, d)) then Some(Date(y, m, d)) else None
    case _ => None
  }

  /** `t` is an hour field `hs` and a minute field `ms` around one colon, and
      they read as the hour and the minute of `v`. */
  predicate ClockText(t: string, hs: string, ms: string, v: (nat, nat))
  {
    && t == hs + ":" + ms && ':' !in hs && ':' !in ms
    && NumField(hs, 0, 23) == Some(v.0) && NumField(ms, 0, 59) == Some(v.1)
  }

  /** `%H:%M`: an hour 0 to 23 and a minute 0 to 59, one or two digits each,
      separated by one colon. */
  function ClockField(t: string): (r: Option<(nat, nat)>)
    ensures r.Some? ==> r.value.0 < 24 && r.value.1 < 60
    ensures r.Some? ==> exists hs, ms {:trigger ClockText(t, hs, ms, r.value)} :: ClockText(t, hs, ms, r.value)
  {
    var parts := SplitOn(t, ':');
    if |parts| != 2 then None
    else match (NumField(parts[0], 0, 23), NumField(parts[1], 0, 59))
      case (Some(h), Some(m)) =>
        JoinSplitOn(t, ':');
        assert parts[1..] == [parts[1]];
        assert t == parts[0] + ":" + parts[1];
        assert ClockText(t, parts[0], parts[1], (h, m));
        Some((h, m))
      case _ => None
  }

  /** `datetime.strptime(s, "%d/%m/%Y")`; `None` where it raises `ValueError`. */
  function ParseDayMonthYear(s: string): (r: Option<Date>)
    ensures r.Some? ==> ValidDate(r.value)
  {
    var parts := SplitOn(s, '/');
    if |parts| == 3 then DateOf(parts[0], parts[1], parts[2]) else None
  }

  /** `datetime.strptime(s, "%d/%m/%Y %H:%M")`; `None` where it raises
      `ValueError`. */
  function ParseDayMonthYearClock(s: string): (r: Option<DateTime>)
    ensures r.Some? ==> ValidDateTime(r.value)
  {
    var parts := SplitOn(s, '/');
    if |parts| != 3 || |parts[2]| < 4 then None
    else
      var tail := parts[2][4..];
      var clock := TrimStart(tail);
      if |clock| == |tail| then None   // no whitespace between the year and the hour
      else match (DateOf(parts[0], parts[1], parts[2][..4]), ClockField(clock))
        case (Some(d), Some((h, m))) => Some(DateTime(d, h, m))
        case _ => None
  }

  /** `date.strftime("%d/%m/%Y")`. */
  function FormatDayMonthYear(d: Date): (s: string)
    requires ValidDate(d)
    ensures |s| == 10 && s[2] == '/' && s[5] == '/'
    ensures AllDigits(s[..2]) && NumberOf(s[..2]) == d.day
    ensures AllDigits(s[3..5]) && NumberOf(s[3..5]) == d.month
    ensures AllDigits(s[6..]) && NumberOf(s[6..]) == d.year
  {
    var s := Pad2(d.day) + "/" + Pad2(d.month) + "/" + Pad4(d.year);
    assert s[..2] == Pad2(d.day);
    assert s[3..5] == Pad2(d.month);
    assert s[6..] == Pad4(d.year);
    s
  }

  /** `datetime.strftime("%Y-%m-%dT%H:%M:%SZ")` of a UTC time whose seconds are
      zero: twenty characters, every field zero-padded, and each field can be
      read back from its fixed position. */
  function FormatIsoUtc(u: DateTime): (s: string)
    requires ValidDateTime(u)
    ensures |s| == 20
    ensures s[4] == '-' && s[7] == '-' && s[10] == 'T' && s[13] == ':' && s[16] == ':' && s[19] == 'Z'
    ensures AllDigits(s[..4]) && NumberOf(s[..4]) == u.date.year
    ensures AllDigits(s[5..7]) && NumberOf(s[5..7]) == u.date.month
    ensures AllDigits(s[8..10]) && NumberOf(s[8..10]) == u.date.day
    ensures AllDigits(s[11..13]) && NumberOf(s[11..13]) == u.hour
    ensures AllDigits(s[14..16]) && NumberOf(s[14..16]) == u.minute
    ensures s[17..19] == "00"
  {
    var s := Pad4(u.date.year) + "-" + Pad2(u.date.month) + "-" + Pad2(u.date.day)
             + "T" + Pad2(u.hour) + ":" + Pad2(u.minute) + ":00Z";
    assert s[..4] == Pad4(u.date.year);
    assert s[5..7] == Pad2(u.date.month);
    assert s[8..10] == Pad2(u.date.day);
    assert s[11..13] == Pad2(u.hour);
    assert s[14..16] == Pad2(u.minute);
    s
  }

  // ---------------------------------------------------------------------
  // What the parsers accept

  /** The canonical two- and four-digit fields read back as their values. */
  lemma FieldsOfPadded(d: Date)
    requires ValidDate(d)
    ensures DayField(Pad2(d.day)) == Some(d.day)
    ensures MonthField(Pad2(d.month)) == Some(d.month)
    ensures YearField(Pad4(d.year)) == Some(d.year)
    ensures DateOf(Pad2(d.day), Pad2(d.month), Pad4(d.year)) == Some(d)
  {
    assert Pad2(d.day)[0] != ' ';
  }

  /** `%d/%m/%Y` reads back every date it writes. */
  lemma {:induction false} ParseFormatDayMonthYear(d: Date)
    requires ValidDate(d)
    ensures ParseDayMonthYear(FormatDayMonthYear(d)) == Some(d)
  {
    var parts := [Pad2(d.day), Pad2(d.month), Pad4(d.year)];
    Join3(Pad2(d.day), Pad2(d.month), Pad4(d.year), '/');
    assert '/' !in Pad2(d.day) && '/' !in Pad2(d.month) && '/' !in Pad4(d.year) by {
      assert AllDigits(Pad2(d.day)) && AllDigits(Pad2(d.month)) && AllDigits(Pad4(d.year));
    }
    SplitOnJoin(parts, '/');
    FieldsOfPadded(d);
  }

  /** A day field, a month field and a year field, free of slashes and joined
      by slashes, parse exactly as `DateOf` reads the three fields. */
  lemma {:induction false} ParseDayMonthYearFields(ds: string, ms: string, ys: string)
    requires '/' !in ds && '/' !in ms && '/' !in ys
    ensures ParseDayMonthYear(ds + "/" + ms + "/" + ys) == DateOf(ds, ms, ys)
  {
    var parts := [ds, ms, ys];
    Join3(ds, ms, ys, '/');
    SplitOnJoin(parts, '/');
  }

  lemma {:induction false} ParseDayMonthYearShape(s: string)
    requires ParseDayMonthYear(s).Some?
    ensures exists ds, ms, ys :: s == ds + "/" + ms + "/" + ys && '/' !in ds && '/' !in ms && '/' !in ys
                                 && DateOf(ds, ms, ys) == ParseDayMonthYear(s)
  {
    var parts := SplitOn(s, '/');
    JoinSplitOn(s, '/');
    assert parts == [parts[0], parts[1], parts[2]];
    Join3(parts[0], parts[1], parts[2], '/');
  }

  /** An hour field and a minute field around one colon parse exactly as the
      two fields read: every accepted text has this form (`ClockField`'s own
      contract) and every text of this form whose fields read is accepted. */
  lemma {:induction false} ClockOfFields(hs: string, ms: string)
    requires ':' !in hs && ':' !in ms
    ensures ClockField(hs + ":" + ms)
            == match (NumField(hs, 0, 23), NumField(ms, 0, 59))
               case (Some(h), Some(m)) => Some((h, m))
               case _ => None
  {
    SplitOnAfterPiece(hs, ':', ms);
    SplitOnNoSeparator(ms, ':');
  }

  /** `%d` reads every day 1 to 31 back from its zero-padded form and, below
      ten, from its one-digit form and from a space and one digit. */
  lemma DayFieldOfValue(v: nat)
    requires 1 <= v <= 31
    ensures DayField(Pad2(v)) == Some(v)
    ensures v < 10 ==> DayField([Digit(v)]) == Some(v)
    ensures v < 10 ==> DayField([' ', Digit(v)]) == Some(v)
  {
    NumFieldOfValue(v, 1, 31);
    assert Pad2(v)[0] != ' ';
  }

  /** `%m` reads every month 1 to 12 back from its zero-padded form and, below
      ten, from its one-digit form. */
  lemma MonthFieldOfValue(v: nat)
    requires 1 <= v <= 12
    ensures MonthField(Pad2(v)) == Some(v)
    ensures v < 10 ==> MonthField([Digit(v)]) == Some(v)
  {
    NumFieldOfValue(v, 1, 12);
  }

  /** One or two digits in range read as their value: `%H` and `%M` accept
      both the zero-padded and the one-digit form. */
  lemma NumFieldOfValue(v: nat, lo: nat, hi: nat)
    requires lo <= v <= hi < 100
    ensures NumField(Pad2(v), lo, hi) == Some(v)
    ensures v < 10 ==> NumField([Digit(v)], lo, hi) == Some(v)
  {
    if v < 10 {
      var t := [Digit(v)];
      assert t[..0] == [] && AllDigits(t) && NumberOf(t) == v;
    }
  }

  /** Every in-range hour and minute, each zero-padded or, below ten, as one
      digit, is read back as that time. */
  lemma ClockOfPadded(h: nat, m: nat)
    requires h < 24 && m < 60
    ensures ClockField(Pad2(h) + ":" + Pad2(m)) == Some((h, m))
    ensures h < 10 ==> ClockField([Digit(h)] + ":" + Pad2(m)) == Some((h, m))
    ensures m < 10 ==> ClockField(Pad2(h) + ":" + [Digit(m)]) == Some((h, m))
    ensures h < 10 && m < 10 ==> ClockField([Digit(h)] + ":" + [Digit(m)]) == Some((h, m))
  {
    NumFieldOfValue(h, 0, 23);
    NumFieldOfValue(m, 0, 59);
    assert ':' !in Pad2(h) && ':' !in Pad2(m) by { assert AllDigits(Pad2(h)) && AllDigits(Pad2(m)); }
    ClockOfFields(Pad2(h), Pad2(m));
    if h < 10 {
      assert ':' !in [Digit(h)];
      ClockOfFields([Digit(h)], Pad2(m));
    }
    if m < 10 {
      assert ':' !in [Digit(m)];
      ClockOfFields(Pad2(h), [Digit(m)]);
    }
    if h < 10 && m < 10 {
      ClockOfFields([Digit(h)], [Digit(m)]);
    }
  }

  /** A clock field holds only digits and the colon. */
  lemma ClockFieldChars(t: string)
    requires ClockField(t).Some?
    ensures forall k :: 0 <= k < |t| ==> IsDigit(t[k]) || t[k] == ':'
  {
    var hs, ms :| ClockText(t, hs, ms, ClockField(t).value);
    assert AllDigits(hs) && AllDigits(ms);
    forall k | 0 <= k < |t| ensures IsDigit(t[k]) || t[k] == ':' {
      if k < |hs| {
        assert t[k] == hs[k];
      } else if k > |hs| {
        assert t[k] == ms[k - |hs| - 1];
      }
    }
  }

  /** The date the scraper writes, a space and a whitespace-free time token
      parse as that date at the token's clock time, or fail exactly when the
      token is not a valid `%H:%M`. */
  lemma {:induction false} ParseFormattedDateAndToken(d: Date, token: string)
    requires ValidDate(d) && token != [] && NoSpace(token)
    ensures ParseDayMonthYearClock(FormatDayMonthYear(d) + " " + token)
            == match ClockField(token)
               case Some((h, m)) => Some(DateTime(d, h, m))
               case None => None
  {
    var rest := Pad4(d.year) + " " + token;
    SplitFormatted(d, rest);
    assert FormatDayMonthYear(d) + " " + token == Pad2(d.day) + "/" + Pad2(d.month) + "/" + rest;
    if '/' in token {
      SlashedTokenRefused(d, token);
    } else {
      PlainTokenSplits(d, token);
      FieldsOfPadded(d);
    }
  }

  /** A token with a slash adds a fourth piece to the split and is no clock
      time. */
  lemma SlashedTokenRefused(d: Date, token: string)
    requires ValidDate(d) && '/' in token
    ensures |SplitOn(Pad4(d.year) + " " + token, '/')| >= 2
    ensures ClockField(token).None?
  {
    var rest := Pad4(d.year) + " " + token;
    assert '/' in rest by {
      var k :| 0 <= k < |token| && token[k] == '/';
      assert rest[k + 5] == '/';
    }
    SplitOnSeveral(rest, '/');
    if ClockField(token).Some? {
      ClockFieldChars(token);
    }
  }

  /** Without a slash, the year, the space and the token stay one piece, in
      which the year is followed by whitespace and then the token. */
  lemma PlainTokenSplits(d: Date, token: string)
    requires ValidDate(d) && token != [] && NoSpace(token) && '/' !in token
    ensures var rest := Pad4(d.year) + " " + token;
            && SplitOn(rest, '/') == [rest]
            && |rest| >= 4 && rest[..4] == Pad4(d.year)
            && TrimStart(rest[4..]) == token && |token| < |rest[4..]|
  {
    var rest := Pad4(d.year) + " " + token;
    assert '/' !in rest by {
      assert AllDigits(Pad4(d.year));
      assert rest == Pad4(d.year) + (" " + token);
    }
    SplitOnNoSeparator(rest, '/');
    assert rest[..4] == Pad4(d.year);
    assert rest[4..] == " " + token;
    TrimStartOfSpaced(token);
  }

  /** The day and the month written by `%d/%m/` split off as the first two
      pieces. */
  lemma SplitFormatted(d: Date, rest: string)
    requires ValidDate(d)
    ensures SplitOn(Pad2(d.day) + "/" + Pad2(d.month) + "/" + rest, '/')
            == [Pad2(d.day), Pad2(d.month)] + SplitOn(rest, '/')
  {
    assert '/' !in Pad2(d.day) && '/' !in Pad2(d.month) by {
      assert AllDigits(Pad2(d.day)) && AllDigits(Pad2(d.month));
    }
    assert Pad2(d.day) + "/" + Pad2(d.month) + "/" + rest
        == Pad2(d.day) + ['/'] + (Pad2(d.month) + ['/'] + rest);
    SplitOnAfterPiece(Pad2(d.day), '/', Pad2(d.month) + ['/'] + rest);
    SplitOnAfterPiece(Pad2(d.month), '/', rest);
  }

  /** Stripping the leading whitespace off a space and a word leaves the word. */
  lemma TrimStartOfSpaced(token: string)
    requires token != [] && NoSpace(token)
    ensures TrimStart(" " + token) == token
  {
    var x := " " + token;
    assert x[1] == token[0] && !IsSpace(x[1]);
    assert SkipSpace(x, 0) == SkipSpace(x, 1) == 1;
    assert x[1..] == token;
  }
}
