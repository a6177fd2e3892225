# Timer arming, modelled in Dafny

This project models how the timer app and its two command-line front ends
arm a timer.

- **The `timer` CLI** takes a time of day `"HH:MM"` or a duration in minutes. It turns that into a number of seconds to wait, counts down one second at a time while printing some of the steps, and then raises the alarm.
- **The `timer-launch` launcher** takes exactly one of a time of day, a duration or a number of seconds. It starts the GUI app with that request on the app's command line.
  - It also has two writers that leave a request in the shared preferences store (UserDefaults). `run` does not call them.
- **The GUI app (`Timer`):**
  - It reads its command line for `--time`, `--seconds` and `--start`.
  - Twice after launch, it checks the store for a pending request, applies it and removes it.
  - It keeps the list of timer windows and shows exactly one of them in the dock.

The deadline rule is the same everywhere and is defined once (`TimeOfDay.ParseTime`):
- split on `:` with empty pieces dropped
- exactly two integer fields, the hour in 0..23 and the minute in 0..59
- today at that time, or one calendar day later when that is not after now

The repository writes it three times: TimerLauncher.swift:100-127, TimerCLI.swift:71-98 and MVTimerController.swift:151-194.

Files, one module each:

| file | module | what it holds |
|---|---|---|
| `wrappers.dfy` | `Wrappers` | `Option`, `Result` |
| `swift_text.dfy` | `SwiftText` | Swift's `split`, `Int(_:)`, `Double(_:)` on plain decimals, `"\(n)"`, `firstIndex(of:)`, `remove(at:)` |
| `time_of_day.dfy` | `TimeOfDay` | the field check, the calendar, deadline resolution |
| `handoff_store.dfy` | `HandoffStore` | the three store keys, the typed getters, the consume policy, the store object |
| `sounds.dfy` | `Sounds` | the two sound tables |
| `timer_window.dfy` | `TimerWindow` | one timer window (`MVTimerController`) |
| `app_delegate.dfy` | `AppDelegate` | command-line decoding and the app delegate |
| `timer_cli.dfy` | `TimerCli` | the `timer` command |
| `launcher.dfy` | `Launcher` | the `timer-launch` command |
| `handoff.dfy` | `Handoff` | the launcher's command line read back by the app |

Modelling choices:
- **Time.** Instants are whole seconds. The current time is a parameter, read once per operation; the source reads the clock a second time to get the remaining interval.
- **The calendar.** It is a pair of partial operations:
  - today's date at a given hour and minute (`calendar.date(from:)`)
  - adding one day (`calendar.date(byAdding:)`)

  `TomorrowIsAhead` states what the rollover needs of it. A calendar with a fixed offset and no daylight-saving changes is proved to satisfy it.
- **The store** is one map from keys to typed values. The consume policy is defined once, as `Pending` and `Consumed`. Both copies of the consume in the app (the window's and the delegate's) are methods proved against it.
- **Delayed callbacks.** Calls scheduled with a delay are run in the order their delays give them (`AppDelegate.App.LaunchSequence`). A method that schedules a callback reports it, and the caller runs it at its turn: `CheckAndApplyCommandLineSettings` returns whether it scheduled the automatic start.

The launcher does not check the time string:
- `run` passes it unchecked on the app's command line (TimerLauncher.swift:43-50), so `"25:61"` is launched like any other string.
- The launcher's own `parseTime` and its two store writers are never called from `run`.
- `Launcher.TimePassedThrough` states this. The app's `setTimerToTime` then ignores a malformed string (`TimerWindow.TimerController.SetTimerToTime`).

## Model

| member | source | states |
|---|---|---|
| `SwiftText.Split` | TimerLauncher/Sources/TimerLauncher/TimerLauncher.swift:101 | `split(separator:)`: the pieces are non-empty, contain no separator, and concatenate to the input with the separators removed |
| `SwiftText.SplitAtSeparator` | TimerLauncher/Sources/TimerLauncher/TimerLauncher.swift:101 | splitting at a separator splits the text on each side on its own, so together with `SplitOne` the pieces of every text are fixed: `"12:30"` is exactly `["12", "30"]` |
| `SwiftText.ParseInt` | TimerLauncher/Sources/TimerLauncher/TimerLauncher.swift:103-104 | `Int(_:)`: a result fits in 64 bits; the text is an optional sign followed by one or more digits and nothing else; a leading `-` gives a value ≤ 0, any other start a value ≥ 0 |
| `SwiftText.LeadingZeroIgnored` | TimerLauncher/Sources/TimerLauncher/TimerLauncher.swift:103-104 | a leading zero after the optional sign does not change what `Int(_:)` reads |
| `SwiftText.PlusIgnored` | TimerLauncher/Sources/TimerLauncher/TimerLauncher.swift:103-104 | a leading `+` before digits does not change what `Int(_:)` reads |
| `SwiftText.DecimalString` | TimerLauncher/Sources/TimerLauncher/TimerLauncher.swift:236 | `"\(n)"`: digits without leading zeros, after a `-` exactly when n is negative |
| `SwiftText.ParseNumber` | Timer/AppDelegate.swift:173 | `Double(_:)` on plain decimals: accepted text is made of digits, signs and a point, has a sign only in front, at most one point and at least one digit (so anything else is refused); a leading `-` gives a value ≤ 0, any other start a value ≥ 0 |
| `SwiftText.MalformedNumbersRefused` | Timer/AppDelegate.swift:173 | `"1.2.3"`, `"1-2"`, `"+-1"` and `"-."` are refused |
| `SwiftText.ParseNumberFraction` | Timer/AppDelegate.swift:173 | a decimal `w.f` (either side may be empty, not both) is accepted, and the model reads it as the exact decimal: the digits of `w` and `f` together, divided by 10 to the number of fraction digits |
| `SwiftText.ParseNumberNegate` | Timer/AppDelegate.swift:173 | a `-` before unsigned text reads as the negation of that text, and is refused exactly when the text is |
| `SwiftText.OneAndAHalfExample` | Timer/AppDelegate.swift:173 | `"1.5"` reads as 1.5 |
| `SwiftText.ParseNumberExtendsParseInt` | Timer/AppDelegate.swift:173 | `Double(_:)` reads every text that `Int(_:)` accepts as the same value, for values of magnitude at most 2^53 |
| `SwiftText.ParseNumberDecimal` | TimerLauncher/Sources/TimerLauncher/TimerLauncher.swift:236 | the decimal text `"\(n)"` of an integer of magnitude at most 2^53 reads back through `Double(_:)` as exactly n |
| `SwiftText.FirstIndex` | Timer/AppDelegate.swift:152 | `firstIndex(of:)`: none exactly when the element is absent; otherwise a position holding it with no earlier occurrence |
| `SwiftText.RemoveAt` | Timer/AppDelegate.swift:114 | `remove(at:)`: one element shorter; elements before the index stay, later ones move down one |
| `TimeOfDay.ParseHourMinute` | TimerLauncher/Sources/TimerLauncher/TimerLauncher.swift:101-108 | the field check: whatever it accepts is an hour in 0..23 and a minute in 0..59 |
| `TimeOfDay.ParseFormatRoundTrip` | TimerLauncher/Sources/TimerLauncher/TimerLauncher.swift:63-65 | every valid hour and minute written in the `"HH:mm"` format passes the field check and reads back unchanged |
| `TimeOfDay.FixedOffsetTomorrowIsAhead` | TimerLauncher/Sources/TimerLauncher/TimerLauncher.swift:117-123 | in a zone without daylight-saving changes, today's date at any valid time can be formed, and one day later is after now |
| `TimeOfDay.ResolveTarget` | TimerLauncher/Sources/TimerLauncher/TimerLauncher.swift:110-126 | the date error exactly when today's date at that time cannot be formed; otherwise the deadline is today's candidate, or, when that is not after now, one calendar day later |
| `TimeOfDay.ParseTime` | TimerLauncher/Sources/TimerLauncher/TimerLauncher.swift:100-127 | `parseTime`: the format error exactly when the field check fails; any deadline comes from a string that passes it |
| `TimeOfDay.ResolvedIsFuture` | TimerLauncher/Sources/TimerLauncher/TimerLauncher.swift:110-126 | under a calendar whose next day is ahead, a resolved deadline is strictly after now |
| `TimeOfDay.ParseTimeIsFuture` | TimerCLI/Sources/TimerCLI/TimerCLI.swift:71-98 | the CLI's `parseTime` never yields a deadline at or before now under such a calendar |
| `TimeOfDay.ResolveRollover` | TimerLauncher/Sources/TimerLauncher/TimerLauncher.swift:121-126 | a candidate after now is returned as is; one at or before now is returned one calendar day later |
| `TimeOfDay.ResolveFallbackNotFuture` | TimerLauncher/Sources/TimerLauncher/TimerLauncher.swift:123 | when the calendar cannot add the day, the `?? targetDate` fallback returns the candidate, which is not after now |
| `TimeOfDay.FixedOffsetWithinADay` | TimerCLI/Sources/TimerCLI/TimerCLI.swift:88-97 | in a zone without daylight-saving changes, every valid time resolves to a deadline in (now, now + 86400] |
| `TimeOfDay.FiveAfterMidnightExample` | TimerCLI/Sources/TimerCLI/TimerCLI.swift:92-95 | at 23:50, `"00:05"` resolves to the next day's 00:05, 900 seconds ahead |
| `TimeOfDay.DoubledColonAccepted` | TimerCLI/Sources/TimerCLI/TimerCLI.swift:72-73 | `"12::30"` passes the field check as 12:30, because `split` drops the empty piece |
| `TimeOfDay.SignedFieldsAccepted` | TimerCLI/Sources/TimerCLI/TimerCLI.swift:74-75 | `"+7:-0"` passes the field check as 07:00, because `Int(_:)` takes a sign |
| `TimeOfDay.OutOfRangeRejected` | TimerCLI/Sources/TimerCLI/TimerCLI.swift:76-77 | `"25:61"` fails the field check |
| `HandoffStore.BoolFor` | Timer/MVTimerController.swift:232 | `bool(forKey:)`: an absent key reads as false, a stored flag as itself |
| `HandoffStore.StringFor` | Timer/MVTimerController.swift:233 | `string(forKey:)`: an absent key reads as nil; a string is read exactly when one is stored, and it is that string |
| `HandoffStore.DoubleFor` | Timer/MVTimerController.swift:234 | `double(forKey:)`: an absent key reads as 0, a stored number as itself |
| `HandoffStore.GettersReadBack` | TimerLauncher/Sources/TimerLauncher/TimerLauncher.swift:139-140 | each getter reads back what `set(_:forKey:)` stored under its key, and a write leaves every other key's reading unchanged |
| `HandoffStore.Pending` | Timer/MVTimerController.swift:240-259 | an applied time string is non-empty and applied seconds are positive |
| `HandoffStore.Consumed` | Timer/MVTimerController.swift:248-258 | a consumption only removes keys; every key left keeps its value |
| `HandoffStore.NoFlagNoEffect` | Timer/MVTimerController.swift:263-265 | with the flag absent or false, nothing is applied and nothing is removed |
| `HandoffStore.TimeStringWins` | Timer/MVTimerController.swift:241-249 | with the flag set and a non-empty time string, the time string is applied; exactly the flag and the time string are removed, and stored seconds stay |
| `HandoffStore.SecondsPath` | Timer/MVTimerController.swift:250-258 | with the flag set, no non-empty time string and positive seconds, the seconds are applied and exactly the flag and the seconds are removed |
| `HandoffStore.StuckFlag` | Timer/MVTimerController.swift:240-260 | with the flag set and neither payload usable, nothing is applied, the store is unchanged, and the flag stays set |
| `HandoffStore.ConsumeOnce` | Timer/AppDelegate.swift:207-226 | after a consumption that applied something, the flag is gone and a second consumption applies nothing |
| `HandoffStore.ConsumeIdempotent` | Timer/AppDelegate.swift:215-225 | a second consumption leaves the store exactly as the first left it |
| `HandoffStore.ConsumedIsQuiet` | Timer/AppDelegate.swift:22-29 | after any consumption, nothing is pending for the next one |
| `HandoffStore.NoFlagOrStuck` | Timer/MVTimerController.swift:240-265 | a consumption that applies nothing leaves the store as it was |
| `HandoffStore.Defaults.Set` | TimerLauncher/Sources/TimerLauncher/TimerLauncher.swift:139 | `set(_:forKey:)`: the key maps to the new value, and the key is appended to the write log |
| `HandoffStore.Defaults.RemoveObject` | Timer/MVTimerController.swift:248 | `removeObject(forKey:)`: the key is gone and every other entry is unchanged |
| `Sounds.SoundForIndex` | Timer/MVTimerController.swift:87-104 | `pickSound`'s table: silence exactly for -1, sound 2 exactly for 1, sound 3 exactly for 2, the default sound for every other index |
| `Sounds.CliAlarmSound` | TimerCLI/Sources/TimerCLI/TimerCLI.swift:149-160 | the CLI plays nothing exactly when the sound is -1 |
| `Sounds.CliNotificationSound` | TimerCLI/Sources/TimerCLI/TimerCLI.swift:144 | the CLI's notification has no sound exactly when the CLI plays no alarm, and otherwise the system's default notification sound |
| `Sounds.TablesAgree` | TimerCLI/Sources/TimerCLI/TimerCLI.swift:153-160 | the window's table and the CLI's table choose the same sound for every index |
| `Sounds.SilentTogether` | TimerCLI/Sources/TimerCLI/TimerCLI.swift:144-150 | the CLI's notification is silent exactly for the index at which the timer window picks no sound |
| `TimerWindow.SecondsUntil` | Timer/MVTimerController.swift:151-194 | there are seconds to put on the clock exactly when `parseTime`'s resolution succeeds with a deadline after now, and they are exactly the seconds from now to that deadline |
| `TimerWindow.WellFormedTimeApplies` | Timer/MVTimerController.swift:184-194 | under a calendar whose next day is ahead, every well-formed time whose date can be formed reaches the clock |
| `TimerWindow.FixedOffsetWithinADayOnClock` | Timer/MVTimerController.swift:189-204 | without daylight-saving changes, a well-formed time puts between 1 and 86400 seconds on the clock |
| `TimerWindow.SecondsFor` | Timer/MVTimerController.swift:241-254 | whatever a command puts on the clock is positive; no command puts nothing there |
| `TimerWindow.TimerController.constructor` | Timer/MVTimerController.swift:9-34 | a new window is not in the dock, has the default sound, and has no plays, notifications or start clicks yet |
| `TimerWindow.TimerController.ShowInDock` | Timer/MVTimerController.swift:52-55 | the clock's dock state becomes the given one |
| `TimerWindow.TimerController.WindowVisibilityChanged` | Timer/MVTimerController.swift:57-59 | the clock's visibility becomes the given one |
| `TimerWindow.TimerController.PlayAlarmSound` | Timer/MVTimerController.swift:61-67 | a sound plays exactly when one is chosen |
| `TimerWindow.TimerController.HandleClockTimer` | Timer/MVTimerController.swift:69-78 | the alarm delivers one notification and plays the chosen sound, if any |
| `TimerWindow.TimerController.PickSound` | Timer/MVTimerController.swift:87-113 | the chosen sound becomes the table's entry for the index, and one preview plays unless the index is -1 |
| `TimerWindow.TimerController.SetTimerFromLauncher` | Timer/MVTimerController.swift:116-131 | positive seconds go on the clock exactly and show the clock; zero or negative seconds change nothing |
| `TimerWindow.TimerController.SetTimerToTime` | Timer/MVTimerController.swift:151-204 | the clock is set to the seconds until the resolved deadline when that is positive; a string failing the field check, an unformable date or a deadline not after now changes nothing |
| `TimerWindow.TimerController.CheckAndApplyLauncherSettingsFromController` | Timer/MVTimerController.swift:228-266 | the store ends as the consume policy leaves it, and the clock shows what the pending command puts there, or is unchanged |
| `TimerWindow.TimerController.StartTimer` | Timer/MVTimerController.swift:269-277 | exactly one click reaches the clock |
| `AppDelegate.SecondsSetting` | Timer/AppDelegate.swift:171-187 | the `--seconds` search never yields a time setting |
| `AppDelegate.DecodeCommandLine` | Timer/AppDelegate.swift:137-190 | start exactly when `--start` occurs anywhere; a time setting exactly when `--time` occurs before the last token; otherwise the `--seconds` search decides |
| `AppDelegate.TimeTakesPrecedence` | Timer/AppDelegate.swift:152-168 | the token after the first `--time` is applied, whatever `--seconds` says |
| `AppDelegate.TrailingTimeFallsThrough` | Timer/AppDelegate.swift:152-173 | a `--time` that is only the last token is ignored, and the `--seconds` search decides |
| `AppDelegate.SecondsNeedsNumber` | Timer/AppDelegate.swift:171-177 | after the first `--seconds`, the next token is applied exactly when it reads as a number, and as that number |
| `AppDelegate.NoSecondsNoSetting` | Timer/AppDelegate.swift:171-189 | without a `--seconds` followed by another token, nothing is applied |
| `AppDelegate.App.constructor` | Timer/AppDelegate.swift:5-8 | the delegate starts with no windows, no dock holder, and windows not on top |
| `AppDelegate.App.RemoveBadgeFromDock` | Timer/AppDelegate.swift:97-101 | the holder, if any, is no longer shown; at most one window stays shown |
| `AppDelegate.App.AddBadgeToDock` | Timer/AppDelegate.swift:89-95 | the given window becomes the holder and is shown; a different previous holder is no longer shown; no other window is shown |
| `AppDelegate.App.HandleClose` | Timer/AppDelegate.swift:109-116 | the first occurrence of a closing window leaves the list unless it is the dock holder; the rest keep their order |
| `AppDelegate.App.NewDocument` | Timer/AppDelegate.swift:103-107 | a new window is appended to the list, floating exactly when the windows stay on top; its scheduled store check (MVTimerController.swift:29-33) consumes the store, and its clock shows what the pending command puts there, or the initial time |
| `AppDelegate.App.SetStaysOnTop` | Timer/AppDelegate.swift:8-14 | every window is floating exactly when the new setting is on; only the windows' levels change |
| `AppDelegate.App.CheckAndApplyCommandLineSettings` | Timer/AppDelegate.swift:137-190 | the clock shows what the decoded setting puts there, or is unchanged; the automatic start is scheduled (not made) exactly when `--start` is present and a setting was found |
| `AppDelegate.App.CheckAndApplyLauncherSettings` | Timer/AppDelegate.swift:192-233 | the delegate's consume leaves the store and the clock exactly as the window's consume does |
| `AppDelegate.App.DidFinishLaunching` | Timer/AppDelegate.swift:32-74 | the first window joins the list and holds the dock, and every window is floating exactly when the stored preference is on; of the existing windows only the level and the dock flag change |
| `AppDelegate.App.HandleUserDefaultsChange` | Timer/AppDelegate.swift:125-127 | every window is floating exactly when the preference is on; only the windows' levels change |
| `AppDelegate.App.LaunchSequence` | Timer/AppDelegate.swift:16-74 | after launch, a command from the store overrides one from the command line; the store is consumed exactly once; the scheduled start click is made after the window's store check, exactly when the command line asked for it and had a setting; afterwards the dock invariant holds and the window's level follows the preference |
| `AppDelegate.AtMostOneInDock` | Timer/AppDelegate.swift:89-101 | no two different windows of the list are shown in the dock |
| `TimerCli.WaitTime` | TimerCLI/Sources/TimerCLI/TimerCLI.swift:29-57 | neither option and both options are each refused; a wait is positive, equals the minutes times 60 for a duration, and reaches the parsed deadline from now for a time |
| `TimerCli.DurationAccepted` | TimerCLI/Sources/TimerCLI/TimerCLI.swift:45-46 | a positive duration that fits in 64 bits waits exactly that many minutes |
| `TimerCli.NonPositiveDurationRejected` | TimerCLI/Sources/TimerCLI/TimerCLI.swift:55-57 | a duration of zero or fewer minutes never starts a countdown |
| `TimerCli.WellFormedTimeWaits` | TimerCLI/Sources/TimerCLI/TimerCLI.swift:41-43 | under a calendar whose next day is ahead, a well-formed time whose date can be formed always gives a wait |
| `TimerCli.FixedOffsetWaitWithinADay` | TimerCLI/Sources/TimerCLI/TimerCLI.swift:100-102 | without daylight-saving changes, a well-formed time waits between 1 and 86400 seconds |
| `TimerCli.Countdown` | TimerCLI/Sources/TimerCLI/TimerCLI.swift:105-107 | the loop visits max(total, 0) values, going down one at a time from total |
| `TimerCli.LineFor` | TimerCLI/Sources/TimerCLI/TimerCLI.swift:109-119 | hours × 3600 + minutes × 60 + seconds is the remaining time, with minutes and seconds below 60; the hours form exactly from 3600 up, the minutes form exactly from 60 to 3599, the seconds form below 60 |
| `TimerCli.StartCountdown` | TimerCLI/Sources/TimerCLI/TimerCLI.swift:104-124 | the loop prints exactly the lines of the visited seconds that pass the filter, in order, and sleeps once per visited second |
| `TimerCli.CountdownVisits` | TimerCLI/Sources/TimerCLI/TimerCLI.swift:107 | the seconds visited are exactly 1 through total |
| `TimerCli.LinesMembers` | TimerCLI/Sources/TimerCLI/TimerCLI.swift:108 | every printed line is the line of a visited second that passes the filter, and every such second is printed |
| `TimerCli.Shown` | TimerCLI/Sources/TimerCLI/TimerCLI.swift:108 | the print filter: every second is printed in verbose mode and in the last ten seconds; otherwise exactly the whole minutes |
| `TimerCli.ShownExactly` | TimerCLI/Sources/TimerCLI/TimerCLI.swift:108 | a line for second r is printed exactly when r is in 1..total and verbose, or r is a whole minute, or r ≤ 10 |
| `TimerCli.CountdownLinesDescend` | TimerCLI/Sources/TimerCLI/TimerCLI.swift:107-120 | printed lines come out with strictly decreasing remaining time |
| `TimerCli.VerboseShowsEverySecond` | TimerCLI/Sources/TimerCLI/TimerCLI.swift:108-119 | in verbose mode there is one line per visited second, each the line of that second |
| `TimerCli.Run` | TimerCLI/Sources/TimerCLI/TimerCLI.swift:29-69 | fails exactly when the wait is refused, with that reason; otherwise it counts down the wait and alarms with the message and the sound the tables give |
| `Launcher.Validate` | TimerLauncher/Sources/TimerLauncher/TimerLauncher.swift:31-85 | refused exactly when not exactly one request option is given; a time is passed on as given; seconds sent are positive and are the given seconds or the minutes times 60; the not-positive refusal only for a zero or negative number |
| `Launcher.TimePassedThrough` | TimerLauncher/Sources/TimerLauncher/TimerLauncher.swift:43-50 | a time string given alone is accepted unchanged, whatever it holds |
| `Launcher.DurationConverted` | TimerLauncher/Sources/TimerLauncher/TimerLauncher.swift:57-61 | a positive duration is sent as minutes × 60 seconds |
| `Launcher.SecondsPassedThrough` | TimerLauncher/Sources/TimerLauncher/TimerLauncher.swift:66-70 | a positive number of seconds is sent unchanged |
| `Launcher.NonPositiveRejected` | TimerLauncher/Sources/TimerLauncher/TimerLauncher.swift:57-69 | a zero or negative duration or number of seconds is refused before any launch |
| `Launcher.ArgumentVector` | TimerLauncher/Sources/TimerLauncher/TimerLauncher.swift:209-215 | the app's command line is `--time` with the time string, or `--seconds` with the decimal seconds, followed by `--start` exactly when asked |
| `Launcher.BuildArguments` | TimerLauncher/Sources/TimerLauncher/TimerLauncher.swift:209-215 | the built command line is the request pair followed by `--start` exactly when asked |
| `Launcher.Run` | TimerLauncher/Sources/TimerLauncher/TimerLauncher.swift:31-85 | succeeds exactly when validation passes, the app is found and the launch succeeds, launching with the request's command line; otherwise fails with the first reason in that order |
| `Launcher.SetTimerTimeDefaults` | TimerLauncher/Sources/TimerLauncher/TimerLauncher.swift:133-146 | the time string is stored, then the flag; the write log records them in that order |
| `Launcher.SetTimerDefaults` | TimerLauncher/Sources/TimerLauncher/TimerLauncher.swift:148-172 | the seconds are stored as a double, then the flag; the write log records them in that order |
| `Launcher.TimeWriteThenConsume` | TimerLauncher/Sources/TimerLauncher/TimerLauncher.swift:139-140 | a non-empty written time string is what the app applies, and consuming it removes exactly the two keys written |
| `Launcher.SecondsWriteThenConsume` | TimerLauncher/Sources/TimerLauncher/TimerLauncher.swift:159-160 | positive written seconds are what the app applies unless a time string is waiting, and consuming them removes exactly the two keys written |
| `Launcher.StaleTimeStringWins` | TimerLauncher/Sources/TimerLauncher/TimerLauncher.swift:168-169 | a time string left in the store shadows a later seconds write |
| `Handoff.TimeCommandLineRoundTrip` | TimerLauncher/Sources/TimerLauncher/TimerLauncher.swift:209-215 | the app decodes the launcher's time command line as the same time string; it starts when `--start` was sent or the time string is itself `--start` |
| `Handoff.DecimalIsNoFlag` | TimerLauncher/Sources/TimerLauncher/TimerLauncher.swift:236 | the decimal text of a positive number is none of the app's flags |
| `Handoff.SecondsCommandLineRoundTrip` | TimerLauncher/Sources/TimerLauncher/TimerLauncher.swift:236-242 | for at most 2^53 seconds, the app decodes the launcher's seconds command line as the same number, and starts exactly when `--start` was sent |
| `Handoff.LauncherRequestReachesClock` | Timer/AppDelegate.swift:146-177 | whatever the launcher accepts (seconds up to 2^53) reaches the app's clock as the requested seconds, or the seconds until the requested time; `--start` is never lost |

## Left out

- Output: everything printed, the emoji messages, and the `DateFormatter` descriptions. Only the `"HH:mm"` format appears, in `ParseFormatRoundTrip`.
- Launching the app: `NSWorkspace`, the semaphore wait, and the app-path and bundle-id lookups through `FileManager` and `Bundle`.
  - `make build` and the argument-less `launchTimerApp()` overload, which `run` never reaches, are left out too.
  - Whether the app is found and whether the launch succeeds are parameters of `Launcher.Run`.
- Timing: `asyncAfter` delays and `DispatchQueue.main.async`.
  - Each callback runs at its turn in `AppDelegate.App.LaunchSequence`: the command line, the window's store check, the automatic start, then the delegate's store check. The updates inside `setTimer*` happen at once.
  - The race between the command line and the store, and the `Task.sleep` durations, are not modelled. The sleeps are only counted.
- The clock view (`MVClockView`) is not part of this model. Its ticking and alarm are out, and the start/stop toggle behind `handleClick` is out: `StartTimer` counts clicks.
- Sound and notifications are counted, not performed. This covers `AVAudioPlayer`, `NSSound.beep`, notification delivery, `requestUserAttention`, and the CLI's check for a sound file at a fixed path.
- Window details: frame placement in `newDocument` (random offset, key window), the dock menu item's state, `applicationShouldHandleReopen`, and `keyUp`/`keyDown`.
  - `handleOcclusionChange` finds the window's controller and calls `WindowVisibilityChanged`. Only that call is modelled.
- The calendar is abstract: time zones and daylight-saving rules enter only through `TomorrowIsAhead` and the fixed-offset instance.
- Whole seconds: instants and the CLI's waits are whole seconds. Clock values are reals, so seconds from the launcher or the store (such as 1.5) go on the clock as given.
  - The CLI's `Int(waitTime)` truncation and the second clock read of `timeIntervalSinceNow` are collapsed into one read of `now`.
  - `CGFloat` conversion is exact.
- `Double(_:)` is modelled for plain decimals only: an optional sign, digits, and an optional fraction. Exponents, hexadecimal, `inf`, `nan` and surrounding whitespace are out.
- ParseNumber: the value is the exact decimal, not the nearest binary64 `Double` (so `"0.1"` reads as exactly 0.1). Rounding is not modelled: `"9007199254740993"` reads as 9007199254740992 in Swift, and a long `"0.000…1"` underflows to 0, which `setTimerFromLauncher`'s `seconds > 0` then ignores while the model applies it.
- ParseNumberExtendsParseInt: promised only for values of magnitude at most 2^53; above that Swift's `Double` rounds and the value read differs.
- ParseNumberDecimal: promised only for magnitudes up to 2^53, for the same reason.
- ParseNumberFraction: the value is the exact decimal. Swift reads the nearest binary64 `Double`, so the two differ wherever the decimal has no exact binary form, such as `"0.1"`.
- SetTimerDefaults: stores `seconds` exactly. The source stores `Double(seconds)`, which rounds above 2^53.
- SecondsCommandLineRoundTrip: the launcher accepts any positive 64-bit number of seconds, but an exact read-back is promised only up to 2^53 seconds.
- LauncherRequestReachesClock: for requests above 2^53 seconds the app's clock gets the rounded `Double`; this case is not covered.
- WaitTime: the conversion `TimeInterval(durationMinutes * 60)` and the countdown's `Int(waitTime)` are exact here. In Swift they round above 2^53, and near `Int64.max` the rounded value is 2^63, on which `Int(waitTime)` traps.
- NewDocument: the store check a new window schedules 0.5 s after its creation runs at the end of `newDocument`.
- UserDefaults mechanics: `synchronize`, registered defaults, and cross-type coercion in the typed getters (such as `bool(forKey:)` on a string). A value of another type reads as absent.
  - `setTimerDefaults` may write to a suite store rather than the standard one. Both are the same map here.
  - The text of the `MVUserDefaultsKeys.staysOnTop` key is not part of this model. The preference's value is a parameter.
- `AppDelegate.App.SetStaysOnTop`: the observer walks every window of the application. The model walks the app's list of timer windows.
- Integer traps: where Swift would trap on an overflowing `durationMinutes * 60`, the model returns a `DurationOverflow` error instead.
