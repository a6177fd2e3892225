/**
 * The two sound tables: the timer window's `pickSound` and the command-line
 * timer's `playAlarmSound` / notification sound. Index -1 means silence.
 */
module Sounds {
  import opened Wrappers

  const AlertSound: string := "alert-sound"
  const AlertSound2: string := "alert-sound-2"
  const AlertSound3: string := "alert-sound-3"

  /** `pickSound`: the sound resource chosen for an index, `nil` for -1. */
  function SoundForIndex(index: int): (r: Option<string>)
    ensures r.None? <==> index == -1
    ensures r == Some(AlertSound2) <==> index == 1
    ensures r == Some(AlertSound3) <==> index == 2
    ensures r == Some(AlertSound) <==> index != -1 && index != 1 && index != 2
  {
    match index
    case -1 => None
    case 0 => Some(AlertSound)
    case 1 => Some(AlertSound2)
    case 2 => Some(AlertSound3)
    case _ => Some(AlertSound)
  }

  /** The command-line timer's `playAlarmSound`: nothing for -1, otherwise the named sound. */
  function CliAlarmSound(sound: int): (r: Option<string>)
    ensures r.None? <==> sound == -1
  {
    if sound == -1 then None
    else if sound == 1 then Some(AlertSound2)
    else if sound == 2 then Some(AlertSound3)
    else Some(AlertSound)
  }

  /** The system's default notification sound (`NSUserNotificationDefaultSoundName`). */
  const DefaultNotificationSound: string := "DefaultNotificationSound"

  /** The sound name the command-line timer gives its notification: none for -1, otherwise the default one. */
  function CliNotificationSound(sound: int): (r: Option<string>)
    ensures r.None? <==> CliAlarmSound(sound).None?
    ensures r.Some? ==> r.value == DefaultNotificationSound
  {
    if sound == -1 then None else Some(DefaultNotificationSound)
  }

  /** The two tables, written differently, agree on every index. */
  lemma TablesAgree(index: int)
    ensures SoundForIndex(index) == CliAlarmSound(index)
  {
  }

  /**
   * The command-line timer's notification is silent exactly for the index at
   * which the timer window picks no sound.
   */
  lemma SilentTogether(sound: int)
    ensures CliNotificationSound(sound).None? <==> SoundForIndex(sound).None?
  {
    TablesAgree(sound);
  }
}
