/**
 * The launcher (`timer-launch`): it checks that exactly one of a time of day,
 * a duration in minutes or a number of seconds was given, and starts the
 * timer app with that request on its command line. It also has two writers
 * that leave a request in the shared store for the app to pick up; `run`
 * does not call them.
 */
module Launcher {
  import opened Wrappers
  import opened SwiftText
  import opened HandoffStore

  datatype LauncherOptions = LauncherOptions(
    time: Option<string>,
    duration: Option<int>,
    totalSeconds: Option<int>,
    verbose: bool,
    foreground: bool,
    start: bool)

  /** The numeric options hold Swift `Int`s, as the argument parser produces them. */
  predicate OptionsInRange(o: LauncherOptions) {
    && (o.duration.Some? ==> InInt64(o.duration.value))
    && (o.totalSeconds.Some? ==> InInt64(o.totalSeconds.value))
  }

  /** What the app is started with: a time string, or a whole number of seconds. */
  datatype LaunchRequest = TimeRequest(timeString: string) | SecondsRequest(seconds: int)

  datatype LauncherError =
    | NotExactlyOne     // not exactly one of --time, --duration, --seconds
    | NotPositive       // the duration or the seconds are zero or negative
    | DurationOverflow  // `durationMinutes * 60` leaves the 64-bit range, where Swift traps
    | AppNotFound       // no built app at the expected path
    | LaunchFailed      // the workspace reported an error

  /** How many of the three request options were given. */
  function ProvidedCount(o: LauncherOptions): nat {
    (if o.time.Some? then 1 else 0) + (if o.duration.Some? then 1 else 0) + (if o.totalSeconds.Some? then 1 else 0)
  }

  /**
   * The checks at the top of `run`. A time string is passed on as given:
   * `run` does not call `parseTime`.
   */
  function Validate(o: LauncherOptions): (r: Result<LaunchRequest, LauncherError>)
    ensures r == Failure(NotExactlyOne) <==> ProvidedCount(o) != 1
    ensures r.Success? && r.value.TimeRequest? ==> o.time == Some(r.value.timeString)
    ensures r.Success? && r.value.SecondsRequest? ==>
      && r.value.seconds > 0
      && (OptionsInRange(o) ==> InInt64(r.value.seconds))
      && (o.totalSeconds == Some(r.value.seconds) || (o.duration.Some? && r.value.seconds == o.duration.value * 60))
    ensures r == Failure(NotPositive) ==>
      ProvidedCount(o) == 1 && ((o.duration.Some? && o.duration.value <= 0) || (o.totalSeconds.Some? && o.totalSeconds.value <= 0))
  {
    if ProvidedCount(o) != 1 then Failure(NotExactlyOne)
    else if o.time.Some? then Success(TimeRequest(o.time.value))
    else if o.duration.Some? then
      var minutes := o.duration.value;
      if minutes <= 0 then Failure(NotPositive)
      else if !InInt64(minutes * 60) then Failure(DurationOverflow)
      else Success(SecondsRequest(minutes * 60))
    else
      var seconds := o.totalSeconds.value;
      if seconds <= 0 then Failure(NotPositive) else Success(SecondsRequest(seconds))
  }

  /** A time string given alone is passed through unchanged, whatever it holds. */
  lemma TimePassedThrough(o: LauncherOptions, t: string)
    requires o.time == Some(t) && o.duration.None? && o.totalSeconds.None?
    ensures Validate(o) == Success(TimeRequest(t))
  {
  }

  /** A positive duration is sent as that many minutes in seconds. */
  lemma DurationConverted(o: LauncherOptions)
    requires o.time.None? && o.duration.Some? && o.totalSeconds.None?
    requires o.duration.value > 0 && InInt64(o.duration.value * 60)
    ensures Validate(o) == Success(SecondsRequest(o.duration.value * 60))
  {
  }

  /** A positive number of seconds is sent unchanged. */
  lemma SecondsPassedThrough(o: LauncherOptions)
    requires o.time.None? && o.duration.None? && o.totalSeconds.Some? && o.totalSeconds.value > 0
    ensures Validate(o) == Success(SecondsRequest(o.totalSeconds.value))
  {
  }

  /** A duration or a number of seconds that is zero or negative is refused before anything is launched. */
  lemma NonPositiveRejected(o: LauncherOptions)
    requires ProvidedCount(o) == 1
    requires (o.duration.Some? && o.duration.value <= 0) || (o.totalSeconds.Some? && o.totalSeconds.value <= 0)
    ensures Validate(o) == Failure(NotPositive)
  {
  }

  // ---------------------------------------------------------------------------
  // The app's command line
  // ---------------------------------------------------------------------------

  /** The command line the two `launchTimerApp` overloads pass to the app. */
  function ArgumentVector(req: LaunchRequest, start: bool): (args: seq<string>)
    ensures |args| == if start then 3 else 2
    ensures args[0] == (if req.TimeRequest? then "--time" else "--seconds")
    ensures args[1] == (if req.TimeRequest? then req.timeString else DecimalString(req.seconds))
    ensures start ==> args[2] == "--start"
  {
    (match req
     case TimeRequest(t) => ["--time", t]
     case SecondsRequest(n) => ["--seconds", DecimalString(n)])
    + (if start then ["--start"] else [])
  }

  /** Builds the command line as `launchTimerApp` does: the request pair, then `--start` if asked. */
  method BuildArguments(req: LaunchRequest, start: bool) returns (arguments: seq<string>)
    ensures arguments == ArgumentVector(req, start)
  {
    match req {
      case TimeRequest(t) => arguments := ["--time", t];
      case SecondsRequest(n) => arguments := ["--seconds", DecimalString(n)];
    }
    if start {
      arguments := arguments + ["--start"];
    }
  }

  /**
   * `run`: validate, then launch the app with the command line. Whether the
   * app is found and whether the launch succeeds are outside the model.
   */
  method Run(o: LauncherOptions, appFound: bool, launchSucceeds: bool) returns (r: Result<seq<string>, LauncherError>)
    ensures r.Success? <==> Validate(o).Success? && appFound && launchSucceeds
    ensures r.Success? ==> r.value == ArgumentVector(Validate(o).value, o.start)
    ensures Validate(o).Failure? ==> r == Failure(Validate(o).error)
    ensures Validate(o).Success? && !appFound ==> r == Failure(AppNotFound)
    ensures Validate(o).Success? && appFound && !launchSucceeds ==> r == Failure(LaunchFailed)
  {
    var request := Validate(o);
    if request.Failure? {
      return Failure(request.error);
    }
    var arguments := BuildArguments(request.value, o.start);
    if !appFound {
      return Failure(AppNotFound);
    }
    if !launchSucceeds {
      return Failure(LaunchFailed);
    }
    r := Success(arguments);
  }

  // ---------------------------------------------------------------------------
  // The store writers
  // ---------------------------------------------------------------------------

  /** The entries after `setTimerTimeDefaults`: the time string, then the flag. */
  function TimeWritten(m: Entries, timeString: string): Entries {
    m[TimeStringKey := StringValue(timeString)][ShouldSetTimerKey := BoolValue(true)]
  }

  /** The entries after `setTimerDefaults`: the seconds as a double, then the flag. */
  function SecondsWritten(m: Entries, seconds: int): Entries {
    m[SecondsKey := DoubleValue(seconds as real)][ShouldSetTimerKey := BoolValue(true)]
  }

  /** `setTimerTimeDefaults`: the payload is written before the flag that announces it. */
  method SetTimerTimeDefaults(store: Defaults, timeString: string)
    modifies store
    ensures store.entries == TimeWritten(old(store.entries), timeString)
    ensures store.writes == old(store.writes) + [TimeStringKey, ShouldSetTimerKey]
  {
    store.Set(TimeStringKey, StringValue(timeString));
    store.Set(ShouldSetTimerKey, BoolValue(true));
  }

  /** `setTimerDefaults`: the payload is written before the flag that announces it. */
  method SetTimerDefaults(store: Defaults, seconds: int)
    modifies store
    ensures store.entries == SecondsWritten(old(store.entries), seconds)
    ensures store.writes == old(store.writes) + [SecondsKey, ShouldSetTimerKey]
  {
    store.Set(SecondsKey, DoubleValue(seconds as real));
    store.Set(ShouldSetTimerKey, BoolValue(true));
  }

  /**
   * A non-empty time string written by the launcher is what the app applies,
   * and consuming it removes exactly the two keys the writer set.
   */
  lemma TimeWriteThenConsume(m: Entries, t: string)
    requires t != []
    ensures Pending(TimeWritten(m, t)) == ApplyTime(t)
    ensures Consumed(TimeWritten(m, t)) == m - {ShouldSetTimerKey, TimeStringKey}
  {
    TimeStringWins(TimeWritten(m, t), t);
  }

  /**
   * A positive number of seconds written by the launcher is what the app
   * applies, unless a non-empty time string is already waiting, and consuming
   * it removes exactly the two keys the writer set.
   */
  lemma SecondsWriteThenConsume(m: Entries, n: int)
    requires n > 0
    requires StringFor(m, TimeStringKey).None? || StringFor(m, TimeStringKey) == Some([])
    ensures Pending(SecondsWritten(m, n)) == ApplySeconds(n as real)
    ensures Consumed(SecondsWritten(m, n)) == m - {ShouldSetTimerKey, SecondsKey}
  {
    var w := SecondsWritten(m, n);
    assert StringFor(w, TimeStringKey) == StringFor(m, TimeStringKey);
    SecondsPath(w);
  }

  /** A time string left in the store shadows a later seconds write: the old time is applied instead. */
  lemma StaleTimeStringWins(m: Entries, n: int, t: string)
    requires StringFor(m, TimeStringKey) == Some(t) && t != []
    ensures Pending(SecondsWritten(m, n)) == ApplyTime(t)
  {
    var w := SecondsWritten(m, n);
    assert StringFor(w, TimeStringKey) == Some(t);
  }
}
