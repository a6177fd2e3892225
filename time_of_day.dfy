/**
 * Turning an "HH:MM" string into a deadline. The same rule appears three
 * times in the repository: the launcher's `parseTime`, the command-line
 * timer's `parseTime`, and the inline check at the top of the timer window's
 * `setTimerToTime`. It is defined once here.
 *
 * Instants are whole seconds on a global clock; `now` is always a parameter.
 */
module TimeOfDay {
  import opened Wrappers
  import opened SwiftText

  type Instant = int

  const SecondsPerDay: int := 86400

  datatype HourMinute = HourMinute(hour: int, minute: int)

  predicate ValidHourMinute(hm: HourMinute) {
    0 <= hm.hour < 24 && 0 <= hm.minute < 60
  }

  /**
   * The field check: split on `:` (empty pieces dropped), exactly two pieces,
   * each accepted by `Int(_:)`, hour in 0..23 and minute in 0..59.
   */
  function ParseHourMinute(s: string): (r: Option<HourMinute>)
    ensures r.Some? ==> ValidHourMinute(r.value)
  {
    var pieces := Split(s, ':');
    if |pieces| != 2 then None
    else
      match (ParseInt(pieces[0]), ParseInt(pieces[1]))
      case (Some(h), Some(m)) =>
        if 0 <= h < 24 && 0 <= m < 60 then Some(HourMinute(h, m)) else None
      case _ => None
  }

  /** Two-digit, zero-padded rendering of a number below 100, as the "HH:mm" date format prints it. */
  function TwoDigits(n: nat): (s: string)
    requires n < 100
    ensures |s| == 2 && AllDigits(s)
  {
    [DigitChar(n / 10), DigitChar(n % 10)]
  }

  /** The "HH:mm" text of an hour and minute. */
  function FormatHourMinute(hm: HourMinute): (s: string)
    requires ValidHourMinute(hm)
    ensures |s| == 5 && s[2] == ':'
  {
    TwoDigits(hm.hour) + ":" + TwoDigits(hm.minute)
  }

  lemma TwoDigitsValue(n: nat)
    requires n < 100
    ensures ParseInt(TwoDigits(n)) == Some(n)
  {
    var s := TwoDigits(n);
    assert s[..1] == [s[0]];
    assert DigitsValue(s[..1]) == DigitValue(s[0]) by {
      assert s[..1][..0] == [];
    }
    assert SignAndBody(s) == (false, s);
  }

  /** Every valid hour and minute, written as "HH:mm", is read back unchanged. */
  lemma ParseFormatRoundTrip(hm: HourMinute)
    requires ValidHourMinute(hm)
    ensures ParseHourMinute(FormatHourMinute(hm)) == Some(hm)
  {
    var a, b := TwoDigits(hm.hour), TwoDigits(hm.minute);
    assert ':' !in a && ':' !in b by {
      assert forall i :: 0 <= i < 2 ==> IsDigit(a[i]) && IsDigit(b[i]);
    }
    SplitTwo(a, b, ':');
    assert FormatHourMinute(hm) == a + [':'] + b;
    TwoDigitsValue(hm.hour);
    TwoDigitsValue(hm.minute);
  }

  // ---------------------------------------------------------------------------
  // Calendar
  // ---------------------------------------------------------------------------

  /**
   * The current calendar, as two operations that may fail:
   * `todayAt(now, h, m)` is `calendar.date(from:)` applied to now's year,
   * month and day with hour h, minute m and second 0; `addingDay(t)` is
   * `calendar.date(byAdding: .day, value: 1, to: t)`.
   */
  datatype Calendar = Calendar(todayAt: (Instant, int, int) -> Option<Instant>, addingDay: Instant -> Option<Instant>)

  /**
   * What the rollover relies on: the candidate lies on today's date, so the
   * same wall-clock time one calendar day later can be formed and is after
   * `now`. Any calendar whose days are shorter than a day of clock time
   * breaks it.
   */
  ghost predicate TomorrowIsAhead(cal: Calendar) {
    forall now: Instant, h: int, m: int ::
      0 <= h < 24 && 0 <= m < 60 && cal.todayAt(now, h, m).Some? ==>
        cal.addingDay(cal.todayAt(now, h, m).value).Some? &&
        cal.addingDay(cal.todayAt(now, h, m).value).value > now
  }

  /** The start of the local day containing `t`, in a zone `offset` seconds ahead of the global clock. */
  function DayStart(t: Instant, offset: int): (d: Instant)
    ensures d <= t < d + SecondsPerDay
  {
    t - (t + offset) % SecondsPerDay
  }

  /** A calendar for a zone with a fixed offset and no daylight-saving changes: a day is 86400 seconds. */
  function FixedOffsetCalendar(offset: int): Calendar {
    Calendar(
      (now: Instant, h: int, m: int) => Some(DayStart(now, offset) + h * 3600 + m * 60),
      (t: Instant) => Some(t + SecondsPerDay))
  }

  lemma FixedOffsetTomorrowIsAhead(offset: int)
    ensures TomorrowIsAhead(FixedOffsetCalendar(offset))
  {
    var cal := FixedOffsetCalendar(offset);
    forall now: Instant, h: int, m: int | 0 <= h < 24 && 0 <= m < 60
      ensures cal.addingDay(cal.todayAt(now, h, m).value).value > now
    {
      assert DayStart(now, offset) > now - SecondsPerDay;
    }
  }

  // ---------------------------------------------------------------------------
  // Resolution
  // ---------------------------------------------------------------------------

  datatype TimeError =
    | InvalidFormat       // the field check failed
    | DateCreationFailed  // calendar.date(from:) returned nil

  /**
   * Today's h:m:00; when that is not after `now`, one calendar day later, or
   * the candidate itself if the calendar cannot add the day (`?? targetDate`).
   */
  function ResolveTarget(hm: HourMinute, now: Instant, cal: Calendar): (r: Result<Instant, TimeError>)
    ensures r.Failure? <==> cal.todayAt(now, hm.hour, hm.minute).None?
    ensures r.Failure? ==> r.error == DateCreationFailed
    ensures r.Success? ==>
      var c := cal.todayAt(now, hm.hour, hm.minute).value;
      r.value == c || (c <= now && cal.addingDay(c) == Some(r.value))
  {
    match cal.todayAt(now, hm.hour, hm.minute)
    case None => Failure(DateCreationFailed)
    case Some(target) =>
      if target <= now then Success(cal.addingDay(target).GetOr(target)) else Success(target)
  }

  /** `parseTime`: the field check, then resolution against `now`. */
  function ParseTime(s: string, now: Instant, cal: Calendar): (r: Result<Instant, TimeError>)
    ensures r == Failure(InvalidFormat) <==> ParseHourMinute(s).None?
    ensures r.Success? ==> ParseHourMinute(s).Some?
  {
    match ParseHourMinute(s)
    case None => Failure(InvalidFormat)
    case Some(hm) => ResolveTarget(hm, now, cal)
  }

  /** Under a calendar whose tomorrow is ahead, a resolved deadline is strictly after `now`. */
  lemma ResolvedIsFuture(hm: HourMinute, now: Instant, cal: Calendar)
    requires ValidHourMinute(hm) && TomorrowIsAhead(cal)
    ensures ResolveTarget(hm, now, cal).Success? ==> ResolveTarget(hm, now, cal).value > now
  {
    match cal.todayAt(now, hm.hour, hm.minute)
    case None =>
    case Some(c) =>
      if c <= now {
        var next := cal.addingDay(c);
        assert next.Some? && next.value > now;
        assert next.GetOr(c) == next.value;
      }
  }

  /** `parseTime` never hands back a deadline at or before `now` under such a calendar. */
  lemma ParseTimeIsFuture(s: string, now: Instant, cal: Calendar)
    requires TomorrowIsAhead(cal)
    requires ParseTime(s, now, cal).Success?
    ensures ParseTime(s, now, cal).value > now
  {
    ResolvedIsFuture(ParseHourMinute(s).value, now, cal);
  }

  /**
   * Same-day versus next-day: a candidate after `now` is returned as is, and
   * one at or before `now` is returned one calendar day later.
   */
  lemma ResolveRollover(hm: HourMinute, now: Instant, cal: Calendar)
    requires cal.todayAt(now, hm.hour, hm.minute).Some?
    ensures var c := cal.todayAt(now, hm.hour, hm.minute).value;
      && (c > now ==> ResolveTarget(hm, now, cal) == Success(c))
      && (c <= now && cal.addingDay(c).Some? ==> ResolveTarget(hm, now, cal) == Success(cal.addingDay(c).value))
  {
  }

  /**
   * The `?? targetDate` fallback: if the calendar cannot add a day, the
   * deadline handed back is the candidate, which is not after `now`.
   */
  lemma ResolveFallbackNotFuture(hm: HourMinute, now: Instant, cal: Calendar)
    requires cal.todayAt(now, hm.hour, hm.minute).Some?
    requires cal.todayAt(now, hm.hour, hm.minute).value <= now
    requires cal.addingDay(cal.todayAt(now, hm.hour, hm.minute).value).None?
    ensures ResolveTarget(hm, now, cal).Success? && ResolveTarget(hm, now, cal).value <= now
  {
  }

  /** In a zone without daylight-saving changes the deadline is in the next 24 hours, never later. */
  lemma {:induction false} FixedOffsetWithinADay(hm: HourMinute, now: Instant, offset: int)
    requires ValidHourMinute(hm)
    ensures var r := ResolveTarget(hm, now, FixedOffsetCalendar(offset));
      r.Success? && now < r.value <= now + SecondsPerDay
  {
    var d := DayStart(now, offset);
    var c := d + hm.hour * 3600 + hm.minute * 60;
    assert d <= c < d + SecondsPerDay;
    assert FixedOffsetCalendar(offset).todayAt(now, hm.hour, hm.minute) == Some(c);
  }

  /** 2024-01-01T23:50:00 in UTC, as seconds since 1970. */
  const NewYearTenToMidnight: Instant := 1704153000

  /** At 23:50, "00:05" means five past midnight the next day: fifteen minutes ahead. */
  lemma FiveAfterMidnightExample()
    ensures ParseTime("00:05", NewYearTenToMidnight, FixedOffsetCalendar(0)) == Success(NewYearTenToMidnight + 900)
  {
    var hm := HourMinute(0, 5);
    ParseFormatRoundTrip(hm);
    assert FormatHourMinute(hm) == "00:05";
  }

  // ---------------------------------------------------------------------------
  // What the field check lets through
  // ---------------------------------------------------------------------------

  /** A doubled colon yields an empty piece, which `split` drops: "12::30" reads as 12:30. */
  lemma DoubledColonAccepted()
    ensures ParseHourMinute("12::30") == Some(HourMinute(12, 30))
  {
    var s := "12::30";
    assert s == "12" + "::30";
    PieceLengthPrefix("12", "::30", ':');
    assert s[..2] == "12" && s[2..] == "::30";
    assert Split(s, ':') == ["12"] + Split("::30", ':');
    assert "::30"[1..] == ":30" && ":30"[1..] == "30";
    SplitOne("30", ':');
    assert TwoDigits(12) == "12" && TwoDigits(30) == "30";
    TwoDigitsValue(12);
    TwoDigitsValue(30);
  }

  /** `Int(_:)` takes a sign, so "+7:-0" reads as 07:00. */
  lemma SignedFieldsAccepted()
    ensures ParseHourMinute("+7:-0") == Some(HourMinute(7, 0))
  {
    assert "+7:-0" == "+7" + [':'] + "-0";
    SplitTwo("+7", "-0", ':');
    assert ParseInt("+7") == Some(7) by {
      assert SignAndBody("+7") == (false, "7");
      assert "7"[..0] == [];
      assert DigitsValue("7") == 7;
    }
    assert ParseInt("-0") == Some(0) by {
      assert SignAndBody("-0") == (true, "0");
      assert "0"[..0] == [];
      assert DigitsValue("0") == 0;
    }
  }

  /** Out-of-range fields are refused: "25:61" is not a time of day. */
  lemma OutOfRangeRejected()
    ensures ParseHourMinute("25:61") == None
  {
    assert "25:61" == "25" + [':'] + "61";
    SplitTwo("25", "61", ':');
    assert TwoDigits(25) == "25";
    TwoDigitsValue(25);
  }
}
