/**
 * The command-line timer (`timer`): it checks its options, works out how many
 * seconds to wait, counts them down one by one showing some of them, and
 * then raises the alarm.
 */
module TimerCli {
  import opened Wrappers
  import opened SwiftText
  import opened TimeOfDay
  import Sounds

  /** The parsed options; `message` and `sound` have their defaults filled in by the argument parser. */
  datatype CliOptions = CliOptions(time: Option<string>, duration: Option<int>, message: string, sound: int, verbose: bool)

  datatype CliError =
    | NeitherTimeNorDuration
    | BothTimeAndDuration
    | BadTime(reason: TimeError)  // `parseTime` threw
    | DurationOverflow            // `durationMinutes * 60` leaves the 64-bit range, where Swift traps
    | NotInFuture                 // the wait is not positive

  /** `run` up to the countdown: the whole seconds to wait, or the reason there is no wait. */
  function WaitTime(o: CliOptions, now: Instant, cal: Calendar): (r: Result<int, CliError>)
    ensures r.Success? ==> r.value > 0
    ensures r == Failure(NeitherTimeNorDuration) <==> o.time.None? && o.duration.None?
    ensures r == Failure(BothTimeAndDuration) <==> o.time.Some? && o.duration.Some?
    ensures r.Success? && o.duration.Some? ==> r.value == o.duration.value * 60
    ensures r.Success? && o.time.Some? ==> ParseTime(o.time.value, now, cal) == Success(now + r.value)
  {
    if o.time.None? && o.duration.None? then Failure(NeitherTimeNorDuration)
    else if o.time.Some? && o.duration.Some? then Failure(BothTimeAndDuration)
    else if o.time.Some? then
      match ParseTime(o.time.value, now, cal)
      case Failure(e) => Failure(BadTime(e))
      case Success(target) =>
        if target - now <= 0 then Failure(NotInFuture) else Success(target - now)
    else
      var minutes := o.duration.value;
      if !InInt64(minutes * 60) then Failure(DurationOverflow)
      else if minutes * 60 <= 0 then Failure(NotInFuture)
      else Success(minutes * 60)
  }

  /** A positive duration that fits is waited out as exactly that many minutes. */
  lemma DurationAccepted(o: CliOptions, now: Instant, cal: Calendar)
    requires o.time.None? && o.duration.Some?
    requires o.duration.value > 0 && InInt64(o.duration.value * 60)
    ensures WaitTime(o, now, cal) == Success(o.duration.value * 60)
  {
  }

  /** A duration of zero or fewer minutes that fits never starts a countdown. */
  lemma NonPositiveDurationRejected(o: CliOptions, now: Instant, cal: Calendar)
    requires o.time.None? && o.duration.Some? && o.duration.value <= 0 && InInt64(o.duration.value * 60)
    ensures WaitTime(o, now, cal) == Failure(NotInFuture)
  {
  }

  /**
   * Under a calendar whose tomorrow is ahead, a well-formed time always
   * yields a wait, unless the calendar cannot form today's date.
   */
  lemma WellFormedTimeWaits(o: CliOptions, now: Instant, cal: Calendar)
    requires TomorrowIsAhead(cal)
    requires o.time.Some? && o.duration.None?
    requires ParseHourMinute(o.time.value).Some?
    requires cal.todayAt(now, ParseHourMinute(o.time.value).value.hour, ParseHourMinute(o.time.value).value.minute).Some?
    ensures WaitTime(o, now, cal).Success?
  {
    ResolvedIsFuture(ParseHourMinute(o.time.value).value, now, cal);
  }

  /** In a zone without daylight-saving changes, a well-formed time waits at least a second and at most a day. */
  lemma FixedOffsetWaitWithinADay(o: CliOptions, now: Instant, offset: int)
    requires o.time.Some? && o.duration.None? && ParseHourMinute(o.time.value).Some?
    ensures var r := WaitTime(o, now, FixedOffsetCalendar(offset));
      r.Success? && 1 <= r.value <= SecondsPerDay
  {
    FixedOffsetWithinADay(ParseHourMinute(o.time.value).value, now, offset);
  }

  // ---------------------------------------------------------------------------
  // Countdown
  // ---------------------------------------------------------------------------

  /** The remaining seconds the countdown visits: `total` down to 1, none when `total` is below 1. */
  function Countdown(total: int): (s: seq<nat>)
    decreases total
    ensures |s| == if total > 0 then total else 0
    ensures forall i :: 0 <= i < |s| ==> s[i] == total - i
  {
    if total <= 0 then [] else [total as nat] + Countdown(total - 1)
  }

  /** The display filter: every second when verbose, otherwise whole minutes and the last ten seconds. */
  predicate Shown(remaining: int, verbose: bool): (b: bool)
    ensures verbose || remaining <= 10 ==> b
    ensures !verbose && remaining > 10 ==> (b <==> remaining % 60 == 0)
  {
    verbose || remaining % 60 == 0 || remaining <= 10
  }

  datatype DisplayForm = HoursForm | MinutesForm | SecondsForm

  /** One countdown line: the remaining seconds, split into hours, minutes and seconds, and the form shown. */
  datatype CountdownLine = CountdownLine(remaining: nat, form: DisplayForm, hours: nat, minutes: nat, seconds: nat)

  /**
   * The line for `remaining`: hours, minutes of the hour and seconds of the
   * minute; hours are shown when there are any, minutes when there are
   * minutes but no hours, seconds alone otherwise.
   */
  function LineFor(remaining: nat): (l: CountdownLine)
    ensures l.remaining == remaining
    ensures l.hours * 3600 + l.minutes * 60 + l.seconds == remaining
    ensures l.minutes < 60 && l.seconds < 60
    ensures l.form == HoursForm <==> remaining >= 3600
    ensures l.form == MinutesForm <==> 60 <= remaining < 3600
    ensures l.form == SecondsForm <==> remaining < 60
  {
    var hours := remaining / 3600;
    var minutes := (remaining % 3600) / 60;
    var seconds := remaining % 60;
    var form := if hours > 0 then HoursForm else if minutes > 0 then MinutesForm else SecondsForm;
    CountdownLine(remaining, form, hours, minutes, seconds)
  }

  /** What one step prints: its line if it passes the filter, nothing otherwise. */
  function StepLines(remaining: nat, verbose: bool): seq<CountdownLine> {
    if Shown(remaining, verbose) then [LineFor(remaining)] else []
  }

  /** The lines shown for a run of remaining seconds, in order. */
  function Lines(rs: seq<nat>, verbose: bool): (ls: seq<CountdownLine>)
    ensures |ls| <= |rs|
  {
    if rs == [] then [] else StepLines(rs[0], verbose) + Lines(rs[1..], verbose)
  }

  lemma {:induction false} LinesAppend(rs: seq<nat>, r: nat, verbose: bool)
    ensures Lines(rs + [r], verbose) == Lines(rs, verbose) + StepLines(r, verbose)
  {
    var run := rs + [r];
    if rs == [] {
      assert run == [r] && run[1..] == [];
      assert Lines(run, verbose) == StepLines(r, verbose) + Lines([], verbose);
    } else {
      assert run[0] == rs[0] && run[1..] == rs[1..] + [r];
      LinesAppend(rs[1..], r, verbose);
      calc {
        Lines(run, verbose);
        StepLines(rs[0], verbose) + Lines(rs[1..] + [r], verbose);
        StepLines(rs[0], verbose) + (Lines(rs[1..], verbose) + StepLines(r, verbose));
        (StepLines(rs[0], verbose) + Lines(rs[1..], verbose)) + StepLines(r, verbose);
      }
    }
  }

  /**
   * `startCountdown`: one step per remaining second from `totalSeconds` down to
   * 1; a step that passes the display filter prints its line, and every step
   * sleeps one second.
   */
  method StartCountdown(totalSeconds: int, verbose: bool) returns (lines: seq<CountdownLine>, sleeps: nat)
    ensures lines == Lines(Countdown(totalSeconds), verbose)
    ensures sleeps == |Countdown(totalSeconds)|
  {
    ghost var schedule := Countdown(totalSeconds);
    lines := [];
    sleeps := 0;
    var remaining := totalSeconds;
    while remaining >= 1
      invariant 0 <= remaining <= totalSeconds || remaining == totalSeconds
      invariant totalSeconds - remaining <= |schedule|
      invariant lines == Lines(schedule[..totalSeconds - remaining], verbose)
      invariant sleeps == totalSeconds - remaining
      decreases remaining
    {
      var k := totalSeconds - remaining;
      assert schedule[..k + 1] == schedule[..k] + [remaining as nat];
      LinesAppend(schedule[..k], remaining as nat, verbose);
      if Shown(remaining, verbose) {
        lines := lines + [LineFor(remaining as nat)];
      }
      assert lines == Lines(schedule[..k], verbose) + StepLines(remaining as nat, verbose);
      sleeps := sleeps + 1;
      remaining := remaining - 1;
    }
    assert schedule[..totalSeconds - remaining] == schedule;
  }

  /** The seconds the countdown visits are exactly 1 through `total`, each once. */
  lemma CountdownVisits(total: int, r: int)
    ensures r in Countdown(total) <==> 1 <= r <= total
  {
    if 1 <= r <= total {
      assert Countdown(total)[total - r] == r;
    }
  }

  /** A line appears exactly for the shown seconds of the run, and each line is the one for its second. */
  lemma {:induction false} LinesMembers(rs: seq<nat>, verbose: bool)
    ensures forall l :: l in Lines(rs, verbose) ==> l.remaining in rs && Shown(l.remaining, verbose) && l == LineFor(l.remaining)
    ensures forall r :: r in rs && Shown(r, verbose) ==> LineFor(r) in Lines(rs, verbose)
  {
    if rs != [] {
      LinesMembers(rs[1..], verbose);
      assert rs == [rs[0]] + rs[1..];
    }
  }

  /** The countdown shows a line for second `r` exactly when `r` is in 1..`total` and passes the filter. */
  lemma ShownExactly(total: int, verbose: bool, r: nat)
    ensures LineFor(r) in Lines(Countdown(total), verbose) <==> 1 <= r <= total && Shown(r, verbose)
  {
    LinesMembers(Countdown(total), verbose);
    CountdownVisits(total, r);
  }

  /** Lines whose remaining seconds strictly decrease. */
  predicate Descending(ls: seq<CountdownLine>) {
    forall i, j :: 0 <= i < j < |ls| ==> ls[i].remaining > ls[j].remaining
  }

  /** Two descending runs, the first wholly above the second, make one descending run. */
  lemma DescendingConcat(a: seq<CountdownLine>, b: seq<CountdownLine>)
    requires Descending(a) && Descending(b)
    requires forall x, y :: x in a && y in b ==> x.remaining > y.remaining
    ensures Descending(a + b)
  {
    var ab := a + b;
    forall i, j | 0 <= i < j < |ab| ensures ab[i].remaining > ab[j].remaining {
      if j < |a| {
        assert ab[i] == a[i] && ab[j] == a[j];
      } else if i >= |a| {
        assert ab[i] == b[i - |a|] && ab[j] == b[j - |a|];
      } else {
        assert ab[i] == a[i] && ab[i] in a;
        assert ab[j] == b[j - |a|] && ab[j] in b;
      }
    }
  }

  /** Every line of a run is for one of the run's seconds. */
  lemma {:induction false} LinesFromRun(rs: seq<nat>, verbose: bool)
    ensures forall l :: l in Lines(rs, verbose) ==> l.remaining in rs
  {
    if rs != [] {
      LinesFromRun(rs[1..], verbose);
      assert forall l :: l in StepLines(rs[0], verbose) ==> l.remaining == rs[0];
    }
  }

  /** Lines come out with strictly decreasing remaining seconds when the run is strictly decreasing. */
  lemma {:induction false} LinesDescend(rs: seq<nat>, verbose: bool)
    requires forall i, j :: 0 <= i < j < |rs| ==> rs[i] > rs[j]
    ensures Descending(Lines(rs, verbose))
  {
    if rs != [] {
      var head, rest := StepLines(rs[0], verbose), Lines(rs[1..], verbose);
      LinesDescend(rs[1..], verbose);
      LinesFromRun(rs[1..], verbose);
      forall l | l in rest ensures l.remaining < rs[0] {
        var k :| 0 <= k < |rs[1..]| && rs[1..][k] == l.remaining;
        assert rs[k + 1] == l.remaining;
      }
      assert forall x :: x in head ==> x.remaining == rs[0];
      DescendingConcat(head, rest);
    }
  }

  /** The countdown's lines run strictly downwards. */
  lemma CountdownLinesDescend(total: int, verbose: bool)
    ensures Descending(Lines(Countdown(total), verbose))
  {
    LinesDescend(Countdown(total), verbose);
  }

  /** In verbose mode every step prints: one line per second, from `total` down to 1. */
  lemma {:induction false} VerboseShowsEverySecond(rs: seq<nat>)
    ensures |Lines(rs, true)| == |rs|
    ensures forall i :: 0 <= i < |rs| ==> Lines(rs, true)[i] == LineFor(rs[i])
  {
    if rs != [] {
      VerboseShowsEverySecond(rs[1..]);
    }
  }

  // ---------------------------------------------------------------------------
  // The whole run
  // ---------------------------------------------------------------------------

  /** What a successful run does: the countdown, then the notification and the alarm sound. */
  datatype CliOutcome = CliOutcome(
    waitSeconds: int,
    lines: seq<CountdownLine>,
    sleeps: nat,
    notificationText: string,
    notificationSound: Option<string>,
    alarmSound: Option<string>)

  /** `run`: the checks, the countdown, and `executeAlarm`. */
  method Run(o: CliOptions, now: Instant, cal: Calendar) returns (r: Result<CliOutcome, CliError>)
    ensures r.Failure? <==> WaitTime(o, now, cal).Failure?
    ensures r.Failure? ==> r.error == WaitTime(o, now, cal).error
    ensures r.Success? ==>
      var w := WaitTime(o, now, cal).value;
      && r.value.waitSeconds == w
      && r.value.lines == Lines(Countdown(w), o.verbose)
      && r.value.sleeps == w
      && r.value.notificationText == o.message
      && r.value.notificationSound == Sounds.CliNotificationSound(o.sound)
      && r.value.alarmSound == Sounds.CliAlarmSound(o.sound)
  {
    var wait := WaitTime(o, now, cal);
    if wait.Failure? {
      return Failure(wait.error);
    }
    var lines, sleeps := StartCountdown(wait.value, o.verbose);
    r := Success(CliOutcome(wait.value, lines, sleeps, o.message,
                            Sounds.CliNotificationSound(o.sound), Sounds.CliAlarmSound(o.sound)));
  }
}
