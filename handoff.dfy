/**
 * Both ends of the command-line handoff: the launcher's argument vector, read
 * back by the timer app's decoder. `pre` stands for whatever precedes the
 * launcher's arguments on the app's command line (its own path, at least).
 */
module Handoff {
  import opened Wrappers
  import opened SwiftText
  import opened HandoffStore
  import opened TimeOfDay
  import opened TimerWindow
  import Launcher
  import AppDelegate

  /** No token the app's decoder looks for. */
  predicate FlagFree(pre: seq<string>) {
    AppDelegate.TimeFlag !in pre && AppDelegate.SecondsFlag !in pre && AppDelegate.StartFlag !in pre
  }

  /**
   * A time request comes back as the same time string. The app starts the
   * clock when `--start` was sent, and also when the time string is itself
   * `--start`.
   */
  lemma TimeCommandLineRoundTrip(pre: seq<string>, t: string, start: bool)
    requires FlagFree(pre)
    ensures AppDelegate.DecodeCommandLine(pre + Launcher.ArgumentVector(Launcher.TimeRequest(t), start))
      == AppDelegate.LaunchArguments(ApplyTime(t), start || t == AppDelegate.StartFlag)
  {
    var args := pre + Launcher.ArgumentVector(Launcher.TimeRequest(t), start);
    assert args[..|pre|] == pre;
    assert args[|pre|] == AppDelegate.TimeFlag && args[|pre| + 1] == t;
    AppDelegate.TimeTakesPrecedence(args, |pre|);
  }

  /** The decimal text of a positive number is none of the decoder's flags, which all begin with '-'. */
  lemma DecimalIsNoFlag(n: int)
    requires n > 0
    ensures DecimalString(n) != AppDelegate.TimeFlag
    ensures DecimalString(n) != AppDelegate.SecondsFlag
    ensures DecimalString(n) != AppDelegate.StartFlag
  {
    assert IsDigit(DecimalString(n)[0]);
  }

  /**
   * A seconds request of at most 2^53 seconds, which a `Double` holds exactly,
   * comes back as the same number of seconds, and `--start` exactly when it was sent.
   */
  lemma SecondsCommandLineRoundTrip(pre: seq<string>, n: int, start: bool)
    requires n > 0 && ExactInDouble(n)
    requires FlagFree(pre)
    ensures AppDelegate.DecodeCommandLine(pre + Launcher.ArgumentVector(Launcher.SecondsRequest(n), start))
      == AppDelegate.LaunchArguments(ApplySeconds(n as real), start)
  {
    var args := pre + Launcher.ArgumentVector(Launcher.SecondsRequest(n), start);
    DecimalIsNoFlag(n);
    assert AppDelegate.TimeFlag !in args;
    assert args[..|pre|] == pre;
    assert args[|pre|] == AppDelegate.SecondsFlag && args[|pre| + 1] == DecimalString(n);
    AppDelegate.SecondsNeedsNumber(args, |pre|);
    ParseNumberDecimal(n);
  }

  /**
   * Whatever the launcher accepts reaches the app's clock: the seconds
   * requested, or the seconds until the requested time of day. Seconds are
   * read back as a `Double`, so they are bounded by 2^53.
   */
  lemma LauncherRequestReachesClock(o: Launcher.LauncherOptions, pre: seq<string>, now: Instant, cal: Calendar)
    requires Launcher.Validate(o).Success?
    requires Launcher.Validate(o).value.SecondsRequest? ==> ExactInDouble(Launcher.Validate(o).value.seconds)
    requires FlagFree(pre)
    ensures var d := AppDelegate.DecodeCommandLine(pre + Launcher.ArgumentVector(Launcher.Validate(o).value, o.start));
      && (o.start ==> d.shouldStart)
      && SecondsFor(d.setting, now, cal) ==
           match Launcher.Validate(o).value
           case TimeRequest(t) => SecondsUntil(t, now, cal)
           case SecondsRequest(n) => Some(n as real)
  {
    match Launcher.Validate(o).value
    case TimeRequest(t) => TimeCommandLineRoundTrip(pre, t, o.start);
    case SecondsRequest(n) => SecondsCommandLineRoundTrip(pre, n, o.start);
  }
}
