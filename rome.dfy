/** Wall-clock times, the Europe/Rome time zone and the conversion of a Rome
    wall-clock time to UTC, as `datetime.replace(tzinfo=ZoneInfo("Europe/Rome"))`
    followed by `astimezone(ZoneInfo("UTC"))` computes it.

    Rome keeps Central European Time (UTC+1) in winter and Central European
    Summer Time (UTC+2) from 01:00 UTC on the last Sunday of March to 01:00 UTC
    on the last Sunday of October (Directive 2000/84/EC). */
module RomeTime {
  import opened Results
  import opened Calendar

  /** A wall-clock date and time to the minute (seconds are always zero). */
  datatype DateTime = DateTime(date: Date, hour: int, minute: int)

  predicate ValidDateTime(t: DateTime)
  {
    ValidDate(t.date) && 0 <= t.hour < 24 && 0 <= t.minute < 60
  }

  /** Minutes from 0001-01-01T00:00 to `t` on the same clock. */
  function Instant(t: DateTime): nat
    requires ValidDateTime(t)
  {
    DayNumber(t.date) * 1440 + t.hour * 60 + t.minute
  }

  const WinterOffset := 60
  const SummerOffset := 120

  /** The offset from UTC, in minutes, that `zoneinfo` gives a Rome wall-clock
      time with `fold=0`. On the last Sunday of March the clock jumps from
      02:00 to 03:00: times before 03:00 keep winter time, so the skipped
      hour is read with the winter offset. On the last Sunday of October the
      clock goes back from 03:00 to 02:00: times before 03:00 keep summer time,
      so the repeated hour is read as its first (summer) occurrence. */
  function RomeOffset(t: DateTime): (offset: int)
    requires ValidDateTime(t)
    ensures offset == WinterOffset || offset == SummerOffset
  {
    var d := t.date;
    if d.month < 3 || d.month > 10 then WinterOffset
    else if 3 < d.month < 10 then SummerOffset
    else
      var sunday := LastSunday(d.year, d.month);
      var beforeSwitch := d.day < sunday || (d.day == sunday && t.hour < 3);
      if d.month == 3 then (if beforeSwitch then WinterOffset else SummerOffset)
      else (if beforeSwitch then SummerOffset else WinterOffset)
  }

  /** Whether a UTC wall-clock time falls in Rome's summer time: from 01:00 UTC
      on the last Sunday of March (included) to 01:00 UTC on the last Sunday of
      October (excluded). */
  predicate IsSummerUtc(u: DateTime)
    requires ValidDateTime(u)
  {
    var d := u.date;
    if d.month < 3 || d.month > 10 then false
    else if 3 < d.month < 10 then true
    else
      var sunday := LastSunday(d.year, d.month);
      var beforeSwitch := d.day < sunday || (d.day == sunday && u.hour < 1);
      if d.month == 3 then !beforeSwitch else beforeSwitch
  }

  /** A Rome wall-clock time in the hour the spring change skips. */
  predicate InSpringGap(t: DateTime)
    requires ValidDateTime(t)
  {
    t.date.month == 3 && t.date.day == LastSunday(t.date.year, 3) && t.hour == 2
  }

  /** A Rome wall-clock time in the hour the autumn change repeats. */
  predicate InAutumnFold(t: DateTime)
    requires ValidDateTime(t)
  {
    t.date.month == 10 && t.date.day == LastSunday(t.date.year, 10) && t.hour == 2
  }

  /** The UTC wall-clock time of the Rome wall-clock time `t`: the same instant
      moved back by Rome's offset, which may land on the previous day. `None`
      when that falls before 0001-01-01T00:00, where `datetime` raises
      `OverflowError`. */
  function ToUtc(t: DateTime): (r: Option<DateTime>)
    requires ValidDateTime(t)
    ensures r.Some? <==> Instant(t) >= RomeOffset(t)
    ensures r.Some? ==> ValidDateTime(r.value) && Instant(r.value) == Instant(t) - RomeOffset(t)
    ensures r.Some? ==> (r.value.date == t.date <==> t.hour * 60 + t.minute >= RomeOffset(t))
    ensures r.Some? && r.value.date != t.date ==> r.value.date == PrevDay(t.date)
  {
    var m := t.hour * 60 + t.minute - RomeOffset(t);
    if m >= 0 then Some(DateTime(t.date, m / 60, m % 60))
    else if t.date == Date(MinYear, 1, 1) then None
    else Some(DateTime(PrevDay(t.date), (m + 1440) / 60, (m + 1440) % 60))
  }

  /** Outside the skipped spring hour, the offset used for a Rome wall-clock
      time is the one the summer-time rule gives for the UTC instant it is
      converted to: summer offset exactly when that instant is in summer time.
      This covers the repeated autumn hour too, read as summer time. */
  lemma {:induction false} OffsetAgreesWithRule(t: DateTime)
    requires ValidDateTime(t) && !InSpringGap(t) && ToUtc(t).Some?
    ensures IsSummerUtc(ToUtc(t).value) <==> RomeOffset(t) == SummerOffset
  {
    var u := ToUtc(t).value;
    if u.date != t.date {
      var d := t.date;
      assert u.date == PrevDay(d);
      if d.day == 1 && d.month > 1 {
        // The previous day is the last of the previous month.
        assert u.date.day == DaysInMonth(d.year, d.month - 1);
        if d.month - 1 == 3 || d.month - 1 == 10 {
          assert u.date.day >= LastSunday(d.year, d.month - 1);
        }
      }
    }
  }

  /** A time in the skipped spring hour is read with the winter offset, so
      it lands in UTC on the far side of the change, in summer time. */
  lemma SpringGapReadAsWinter(t: DateTime)
    requires ValidDateTime(t) && InSpringGap(t)
    ensures RomeOffset(t) == WinterOffset
    ensures ToUtc(t).Some? && IsSummerUtc(ToUtc(t).value)
    ensures ToUtc(t).value.date == t.date && ToUtc(t).value.hour == 1
  {
  }

  /** A time in the repeated autumn hour is read as its first occurrence,
      with the summer offset. */
  lemma AutumnFoldReadAsSummer(t: DateTime)
    requires ValidDateTime(t) && InAutumnFold(t)
    ensures RomeOffset(t) == SummerOffset
    ensures ToUtc(t).Some? && IsSummerUtc(ToUtc(t).value)
    ensures ToUtc(t).value.date == t.date && ToUtc(t).value.hour == 0
  {
  }
}
