/**
 * The timer app's delegate: it reads its own command line for a setting
 * passed by the launcher, polls the shared store for one, keeps the list of
 * open timer windows, and shows exactly one of them in the dock.
 */
module AppDelegate {
  import opened Wrappers
  import opened SwiftText
  import opened TimeOfDay
  import opened HandoffStore
  import opened TimerWindow

  // ---------------------------------------------------------------------------
  // Command-line decoding
  // ---------------------------------------------------------------------------

  const StartFlag: string := "--start"
  const TimeFlag: string := "--time"
  const SecondsFlag: string := "--seconds"

  /** What the app finds on its command line: a setting to apply, and whether to start the clock afterwards. */
  datatype LaunchArguments = LaunchArguments(setting: Command, shouldStart: bool)

  /** The `--seconds` search: the token after the first `--seconds`, when there is one and it reads as a number. */
  function SecondsSetting(args: seq<string>): (c: Command)
    ensures !c.ApplyTime?
  {
    var i := FirstIndex(args, SecondsFlag);
    if i.Some? && i.value + 1 < |args| && ParseNumber(args[i.value + 1]).Some? then
      ApplySeconds(ParseNumber(args[i.value + 1]).value)
    else
      NoCommand
  }

  /**
   * The search in `checkAndApplyCommandLineSettings`: `--start` anywhere; the
   * token after the first `--time`, if there is one; otherwise the `--seconds`
   * search.
   */
  function DecodeCommandLine(args: seq<string>): (r: LaunchArguments)
    ensures r.shouldStart <==> StartFlag in args
    ensures r.setting.ApplyTime? <==> |args| > 0 && TimeFlag in args[..|args| - 1]
    ensures !r.setting.ApplyTime? ==> r.setting == SecondsSetting(args)
  {
    var shouldStart := StartFlag in args;
    var timeIndex := FirstIndex(args, TimeFlag);
    FirstIndexBefore(args, TimeFlag, if |args| > 0 then |args| - 1 else 0);
    if timeIndex.Some? && timeIndex.value + 1 < |args| then
      LaunchArguments(ApplyTime(args[timeIndex.value + 1]), shouldStart)
    else
      LaunchArguments(SecondsSetting(args), shouldStart)
  }

  /**
   * When `--time` occurs with an element after it, the element right after its
   * first occurrence is the setting, whatever `--seconds` says.
   */
  lemma TimeTakesPrecedence(args: seq<string>, i: nat)
    requires i + 1 < |args| && args[i] == TimeFlag && TimeFlag !in args[..i]
    ensures DecodeCommandLine(args).setting == ApplyTime(args[i + 1])
  {
    FirstIndexAt(args, TimeFlag, i);
  }

  /** A trailing `--time` with no value is ignored, and decoding falls through to the `--seconds` search. */
  lemma TrailingTimeFallsThrough(args: seq<string>)
    requires |args| > 0 && args[|args| - 1] == TimeFlag && TimeFlag !in args[..|args| - 1]
    ensures DecodeCommandLine(args).setting == SecondsSetting(args)
  {
  }

  /**
   * The `--seconds` value is applied exactly when the token after the first
   * `--seconds` reads as a number, and it is that number.
   */
  lemma SecondsNeedsNumber(args: seq<string>, i: nat)
    requires i + 1 < |args| && args[i] == SecondsFlag && SecondsFlag !in args[..i]
    ensures SecondsSetting(args) ==
      (if ParseNumber(args[i + 1]).Some? then ApplySeconds(ParseNumber(args[i + 1]).value) else NoCommand)
  {
    FirstIndexAt(args, SecondsFlag, i);
  }

  /** Without a `--seconds` followed by another token, the search finds nothing. */
  lemma NoSecondsNoSetting(args: seq<string>)
    requires |args| == 0 || SecondsFlag !in args[..|args| - 1]
    ensures SecondsSetting(args) == NoCommand
  {
    if |args| > 0 {
      FirstIndexBefore(args, SecondsFlag, |args| - 1);
    }
  }

  // ---------------------------------------------------------------------------
  // The delegate
  // ---------------------------------------------------------------------------

  class App {
    var controllers: seq<TimerController>
    var currentlyInDock: TimerController?
    var staysOnTop: bool

    /** No window other than the dock holder is shown in the dock. */
    ghost predicate Valid()
      reads this, controllers
    {
      forall i :: 0 <= i < |controllers| && controllers[i].inDock ==> controllers[i] == currentlyInDock
    }

    constructor ()
      ensures controllers == [] && currentlyInDock == null && !staysOnTop
      ensures Valid()
    {
      controllers := [];
      currentlyInDock := null;
      staysOnTop := false;
    }

    /** The dock holder, as a set that is empty when there is none. */
    function DockHolder(): set<TimerController>
      reads this
    {
      if currentlyInDock == null then {} else {currentlyInDock}
    }

    /** `windowLevel`: floating exactly when the windows stay on top. */
    function WindowLevel(): TimerWindow.WindowLevel
      reads this
    {
      if staysOnTop then Floating else Normal
    }

    /** `removeBadgeFromDock`: the holder, if any, stops showing in the dock; it stays the holder. */
    method RemoveBadgeFromDock()
      requires Valid()
      modifies DockHolder()`inDock
      ensures Valid()
      ensures currentlyInDock != null ==> !currentlyInDock.inDock
    {
      if currentlyInDock != null {
        currentlyInDock.ShowInDock(false);
      }
    }

    /**
     * `addBadgeToDock`: `c` becomes the holder and is shown; a different
     * previous holder stops showing.
     */
    method AddBadgeToDock(c: TimerController)
      requires Valid()
      modifies this`currentlyInDock, c`inDock, DockHolder()`inDock
      ensures Valid()
      ensures currentlyInDock == c && c.inDock
      ensures old(currentlyInDock) != null && old(currentlyInDock) != c ==> !old(currentlyInDock).inDock
    {
      if currentlyInDock != c {
        RemoveBadgeFromDock();
      }
      currentlyInDock := c;
      c.ShowInDock(true);
    }

    /**
     * `handleClose`: a closing timer window leaves the list, unless it is the
     * dock holder; only its first occurrence is removed and the rest keep
     * their order. `closing` is null when the closing window is not a timer window.
     */
    method HandleClose(closing: TimerController?)
      requires Valid()
      modifies this`controllers
      ensures Valid()
      ensures controllers ==
        if closing != null && closing != currentlyInDock && closing in old(controllers)
        then RemoveAt(old(controllers), FirstIndex(old(controllers), closing).value)
        else old(controllers)
    {
      if closing != null && closing != currentlyInDock {
        var index := FirstIndex(controllers, closing);
        if index.Some? {
          controllers := RemoveAt(controllers, index.value);
        }
      }
    }

    /**
     * `newDocument`: a new timer window at the current level joins the list.
     * Like every new window, it then checks the store for a pending command
     * (the check its initializer schedules), which consumes it.
     */
    method NewDocument(initialClockSeconds: real, store: Defaults, now: Instant, cal: Calendar) returns (c: TimerController)
      requires Valid()
      modifies this`controllers, store`entries
      ensures Valid()
      ensures fresh(c) && controllers == old(controllers) + [c]
      ensures (c.level == Floating <==> staysOnTop) && !c.inDock && c.startRequests == 0
      ensures store.entries == Consumed(old(store.entries))
      ensures var r := SecondsFor(Pending(old(store.entries)), now, cal);
        c.clockSeconds == (if r.Some? then r.value else initialClockSeconds)
    {
      c := new TimerController(initialClockSeconds);
      c.level := WindowLevel();
      controllers := controllers + [c];
      c.CheckAndApplyLauncherSettingsFromController(store, now, cal);
    }

    /** Assigning `staysOnTop`: its observer moves every window to the new level. */
    method SetStaysOnTop(value: bool)
      requires Valid()
      modifies this`staysOnTop, controllers`level
      ensures Valid() && staysOnTop == value
      ensures forall c :: c in controllers ==> (c.level == Floating <==> value)
      ensures forall c :: c in controllers ==>
        && c.inDock == old(c.inDock) && c.clockSeconds == old(c.clockSeconds)
        && c.windowIsVisible == old(c.windowIsVisible) && c.startRequests == old(c.startRequests)
    {
      staysOnTop := value;
      var level := WindowLevel();
      var i := 0;
      while i < |controllers|
        invariant 0 <= i <= |controllers| && staysOnTop == value
        invariant forall j :: 0 <= j < i ==> controllers[j].level == level
        invariant forall c :: c in controllers ==>
          && c.inDock == old(c.inDock) && c.clockSeconds == old(c.clockSeconds)
          && c.windowIsVisible == old(c.windowIsVisible) && c.startRequests == old(c.startRequests)
      {
        controllers[i].level := level;
        i := i + 1;
      }
    }

    /**
     * `checkAndApplyCommandLineSettings`: applies the decoded setting. The
     * start it asks for is scheduled 0.5 s later, not made here:
     * `startScheduled` says whether that callback was scheduled, and the
     * caller runs it at its turn.
     */
    method CheckAndApplyCommandLineSettings(args: seq<string>, c: TimerController, now: Instant, cal: Calendar)
      returns (startScheduled: bool)
      modifies c`clockSeconds, c`windowIsVisible
      ensures var d := DecodeCommandLine(args);
        var r := SecondsFor(d.setting, now, cal);
        && c.clockSeconds == (if r.Some? then r.value else old(c.clockSeconds))
        && c.windowIsVisible == (r.Some? || old(c.windowIsVisible))
        && (startScheduled <==> d.shouldStart && !d.setting.NoCommand?)
    {
      var shouldStart := false;
      if StartFlag in args {
        shouldStart := true;
      }
      startScheduled := false;
      var timeIndex := FirstIndex(args, TimeFlag);
      if timeIndex.Some? && timeIndex.value + 1 < |args| {
        c.SetTimerToTime(args[timeIndex.value + 1], now, cal);
        startScheduled := shouldStart;
        return;
      }
      var secondsIndex := FirstIndex(args, SecondsFlag);
      if secondsIndex.Some? && secondsIndex.value + 1 < |args| {
        var seconds := ParseNumber(args[secondsIndex.value + 1]);
        if seconds.Some? {
          c.SetTimerFromLauncher(seconds.value);
          startScheduled := shouldStart;
          return;
        }
      }
    }

    /** `checkAndApplyLauncherSettings`: the delegate's copy of the store consumption, with the same policy. */
    method CheckAndApplyLauncherSettings(c: TimerController, store: Defaults, now: Instant, cal: Calendar)
      modifies c`clockSeconds, c`windowIsVisible, store`entries
      ensures store.entries == Consumed(old(store.entries))
      ensures var r := SecondsFor(Pending(old(store.entries)), now, cal);
        && c.clockSeconds == (if r.Some? then r.value else old(c.clockSeconds))
        && c.windowIsVisible == (r.Some? || old(c.windowIsVisible))
    {
      var shouldSetTimer := store.Bool(ShouldSetTimerKey);
      var timeString := store.String(TimeStringKey);
      var seconds := store.Double(SecondsKey);
      if shouldSetTimer {
        if timeString.Some? && timeString.value != [] {
          c.SetTimerToTime(timeString.value, now, cal);
          store.RemoveObject(ShouldSetTimerKey);
          store.RemoveObject(TimeStringKey);
        } else if seconds > 0.0 {
          c.SetTimerFromLauncher(seconds);
          store.RemoveObject(ShouldSetTimerKey);
          store.RemoveObject(SecondsKey);
        }
      }
    }
  
    /**
     * `applicationDidFinishLaunching`: the first timer window joins the list
     * and is shown in the dock, then `staysOnTop` is read from the user's
     * preferences, which moves every window to the matching level.
     */
    method DidFinishLaunching(initialClockSeconds: real, staysOnTopSetting: bool) returns (c: TimerController)
      requires Valid()
      modifies this`controllers, this`currentlyInDock, this`staysOnTop, DockHolder()`inDock, controllers`level
      ensures Valid()
      ensures fresh(c) && controllers == old(controllers) + [c]
      ensures currentlyInDock == c && c.inDock
      ensures staysOnTop == staysOnTopSetting
      ensures forall d :: d in controllers ==> (d.level == Floating <==> staysOnTopSetting)
      ensures c.clockSeconds == initialClockSeconds && c.startRequests == 0
    {
      c := new TimerController(initialClockSeconds);
      controllers := controllers + [c];
      AddBadgeToDock(c);
      SetStaysOnTop(staysOnTopSetting);
    }

    /** `handleUserDefaultsChange`: `staysOnTop` follows the preference again. */
    method HandleUserDefaultsChange(staysOnTopSetting: bool)
      requires Valid()
      modifies this`staysOnTop, controllers`level
      ensures Valid() && staysOnTop == staysOnTopSetting
      ensures forall d :: d in controllers ==> (d.level == Floating <==> staysOnTopSetting)
    {
      SetStaysOnTop(staysOnTopSetting);
    }

    /**
     * Launch as it unfolds on a fresh delegate: `applicationDidFinishLaunching`,
     * then the callbacks it, the window and the command-line check schedule,
     * in the order they fire: the command line (0.1 s), the window's own store
     * check (0.5 s), the automatic start the command line scheduled (0.6 s),
     * and the delegate's store check on the first window (1.0 s). A command in
     * the store overrides one on the command line, and the second store check
     * finds nothing left to apply.
     */
    method LaunchSequence(args: seq<string>, store: Defaults, now: Instant, cal: Calendar,
                          initialClockSeconds: real, staysOnTopSetting: bool) returns (c: TimerController)
      requires Valid() && controllers == []
      modifies this`controllers, this`currentlyInDock, this`staysOnTop, DockHolder()`inDock, store`entries
      ensures Valid()
      ensures fresh(c) && controllers == [c] && currentlyInDock == c && c.inDock
      ensures staysOnTop == staysOnTopSetting && (c.level == Floating <==> staysOnTopSetting)
      ensures store.entries == Consumed(old(store.entries))
      ensures var d := DecodeCommandLine(args);
        var fromArgs := SecondsFor(d.setting, now, cal);
        var fromStore := SecondsFor(Pending(old(store.entries)), now, cal);
        && c.clockSeconds ==
             (if fromStore.Some? then fromStore.value
              else if fromArgs.Some? then fromArgs.value
              else initialClockSeconds)
        && c.startRequests == (if d.shouldStart && !d.setting.NoCommand? then 1 else 0)
    {
      c := DidFinishLaunching(initialClockSeconds, staysOnTopSetting);
      var startScheduled := CheckAndApplyCommandLineSettings(args, c, now, cal);
      c.CheckAndApplyLauncherSettingsFromController(store, now, cal);
      if startScheduled {
        c.StartTimer();
      }
      ConsumedIsQuiet(old(store.entries));
      CheckAndApplyLauncherSettings(controllers[0], store, now, cal);
    }
  }

  /** At most one window of the list is shown in the dock. */
  lemma AtMostOneInDock(app: App, i: nat, j: nat)
    requires app.Valid()
    requires i < |app.controllers| && j < |app.controllers|
    requires app.controllers[i].inDock && app.controllers[j].inDock
    ensures app.controllers[i] == app.controllers[j]
  {
  }
}
