/**
 * One timer window (`MVTimerController`): the seconds shown on its clock, its
 * chosen alarm sound, and the operations through which the launcher's command
 * reaches the clock.
 *
 * The clock view itself (ticking, the alarm, the click that starts and stops
 * it) is not part of this model; the fields below are the clock-view
 * properties the controller assigns, and `startRequests` counts the clicks
 * the controller makes on it.
 */
module TimerWindow {
  import opened Wrappers
  import opened TimeOfDay
  import opened HandoffStore
  import Sounds

  datatype WindowLevel = Normal | Floating

  /**
   * What `setTimerToTime` puts on the clock: the seconds from `now` to the
   * resolved deadline, or nothing when the string fails the field check, the
   * calendar cannot form the date, or the deadline is not after `now`.
   */
  function SecondsUntil(timeString: string, now: Instant, cal: Calendar): (r: Option<real>)
    ensures r.Some? ==> r.value > 0.0
    ensures r.Some? ==> ParseHourMinute(timeString).Some?
    ensures r.Some? <==> ParseTime(timeString, now, cal).Success? && ParseTime(timeString, now, cal).value > now
    ensures r.Some? ==> r.value == (ParseTime(timeString, now, cal).value - now) as real
  {
    match ParseTime(timeString, now, cal)
    case Failure(_) => None
    case Success(target) =>
      if target - now > 0 then Some((target - now) as real) else None
  }

  /** Under a calendar whose tomorrow is ahead, every well-formed time of day reaches the clock. */
  lemma WellFormedTimeApplies(timeString: string, now: Instant, cal: Calendar)
    requires TomorrowIsAhead(cal)
    requires ParseHourMinute(timeString).Some?
    requires cal.todayAt(now, ParseHourMinute(timeString).value.hour, ParseHourMinute(timeString).value.minute).Some?
    ensures SecondsUntil(timeString, now, cal).Some?
  {
    ResolvedIsFuture(ParseHourMinute(timeString).value, now, cal);
  }

  /** In a zone without daylight-saving changes, a well-formed time puts between 1 second and 24 hours on the clock. */
  lemma FixedOffsetWithinADayOnClock(timeString: string, now: Instant, offset: int)
    requires ParseHourMinute(timeString).Some?
    ensures var r := SecondsUntil(timeString, now, FixedOffsetCalendar(offset));
      r.Some? && 1.0 <= r.value <= SecondsPerDay as real
  {
    FixedOffsetWithinADay(ParseHourMinute(timeString).value, now, offset);
  }

  /** The seconds a command puts on the clock, through `setTimerToTime` or `setTimerFromLauncher`. */
  function SecondsFor(cmd: Command, now: Instant, cal: Calendar): (r: Option<real>)
    ensures r.Some? ==> r.value > 0.0
    ensures cmd.NoCommand? ==> r.None?
  {
    match cmd
    case ApplyTime(t) => SecondsUntil(t, now, cal)
    case ApplySeconds(v) => if v > 0.0 then Some(v) else None
    case NoCommand => None
  }

  class TimerController {
    var clockSeconds: real          // clockView.seconds
    var windowIsVisible: bool       // clockView.windowIsVisible
    var inDock: bool                // clockView.inDock
    var soundName: Option<string>   // the resource behind soundURL
    var soundsPlayed: nat           // playAlarmSound calls that played something
    var notificationsDelivered: nat
    var startRequests: nat          // clicks made on the clock view by startTimer
    var level: WindowLevel

    /** A new window; a fresh clock view is not shown in the dock. */
    constructor (initialClockSeconds: real)
      ensures clockSeconds == initialClockSeconds && !inDock
      ensures soundName == Some(Sounds.AlertSound)
      ensures soundsPlayed == 0 && notificationsDelivered == 0 && startRequests == 0
      ensures level == Normal
    {
      clockSeconds := initialClockSeconds;
      windowIsVisible := true;
      inDock := false;
      soundName := Some(Sounds.AlertSound);
      soundsPlayed := 0;
      notificationsDelivered := 0;
      startRequests := 0;
      level := Normal;
    }

    method ShowInDock(state: bool)
      modifies this`inDock
      ensures inDock == state
    {
      inDock := state;
    }

    method WindowVisibilityChanged(visible: bool)
      modifies this`windowIsVisible
      ensures windowIsVisible == visible
    {
      windowIsVisible := visible;
    }

    /** Plays the chosen sound, if there is one. */
    method PlayAlarmSound()
      modifies this`soundsPlayed
      ensures soundsPlayed == old(soundsPlayed) + (if soundName.Some? then 1 else 0)
    {
      if soundName.Some? {
        soundsPlayed := soundsPlayed + 1;
      }
    }

    /** The clock's alarm: a notification, and the chosen sound if any. */
    method HandleClockTimer()
      modifies this`notificationsDelivered, this`soundsPlayed
      ensures notificationsDelivered == old(notificationsDelivered) + 1
      ensures soundsPlayed == old(soundsPlayed) + (if soundName.Some? then 1 else 0)
    {
      notificationsDelivered := notificationsDelivered + 1;
      PlayAlarmSound();
    }

    /** Chooses the alarm sound by index and previews it; -1 chooses silence and previews nothing. */
    method PickSound(index: int)
      modifies this`soundName, this`soundsPlayed
      ensures soundName == Sounds.SoundForIndex(index)
      ensures soundsPlayed == old(soundsPlayed) + (if index == -1 then 0 else 1)
    {
      var sound := Sounds.SoundForIndex(index);
      if sound.Some? {
        soundName := sound;
        PlayAlarmSound();
      } else {
        soundName := None;
      }
    }

    /** `setTimerFromLauncher`: a positive number of seconds goes on the clock; anything else is ignored. */
    method SetTimerFromLauncher(seconds: real)
      modifies this`clockSeconds, this`windowIsVisible
      ensures seconds > 0.0 ==> clockSeconds == seconds && windowIsVisible
      ensures seconds <= 0.0 ==> clockSeconds == old(clockSeconds) && windowIsVisible == old(windowIsVisible)
    {
      if !(seconds > 0.0) {
        return;
      }
      windowIsVisible := true;
      clockSeconds := seconds;
    }

    /**
     * `setTimerToTime`: the clock is set to the seconds until the resolved
     * deadline, when there are any. The source repeats `parseTime`'s field
     * check and resolution inline; here they are `ParseTime`, defined once.
     */
    method SetTimerToTime(timeString: string, now: Instant, cal: Calendar)
      modifies this`clockSeconds, this`windowIsVisible
      ensures var r := SecondsUntil(timeString, now, cal);
        && clockSeconds == (if r.Some? then r.value else old(clockSeconds))
        && windowIsVisible == (r.Some? || old(windowIsVisible))
    {
      var finalTarget := ParseTime(timeString, now, cal);
      if finalTarget.Failure? {
        return;
      }
      var secondsUntilTarget := finalTarget.value - now;
      if secondsUntilTarget <= 0 {
        return;
      }
      windowIsVisible := true;
      clockSeconds := secondsUntilTarget as real;
    }

    /**
     * `checkAndApplyLauncherSettingsFromController`: reads the pending command
     * from the store, applies it, and removes the keys of the path taken.
     */
    method CheckAndApplyLauncherSettingsFromController(store: Defaults, now: Instant, cal: Calendar)
      modifies this`clockSeconds, this`windowIsVisible, store`entries
      ensures store.entries == Consumed(old(store.entries))
      ensures var r := SecondsFor(Pending(old(store.entries)), now, cal);
        && clockSeconds == (if r.Some? then r.value else old(clockSeconds))
        && windowIsVisible == (r.Some? || old(windowIsVisible))
    {
      var shouldSetTimer := store.Bool(ShouldSetTimerKey);
      var timeString := store.String(TimeStringKey);
      var seconds := store.Double(SecondsKey);
      if shouldSetTimer {
        if timeString.Some? && timeString.value != [] {
          SetTimerToTime(timeString.value, now, cal);
          store.RemoveObject(ShouldSetTimerKey);
          store.RemoveObject(TimeStringKey);
        } else if seconds > 0.0 {
          SetTimerFromLauncher(seconds);
          store.RemoveObject(ShouldSetTimerKey);
          store.RemoveObject(SecondsKey);
        }
      }
    }

    /** `startTimer`: one click on the clock view, which starts or stops it. */
    method StartTimer()
      modifies this`startRequests
      ensures startRequests == old(startRequests) + 1
    {
      startRequests := startRequests + 1;
    }
  }
}
