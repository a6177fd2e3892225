/**
 * The shared key-value store (UserDefaults) through which the launcher hands a
 * pending timer command to the timer app, and the policy by which the app
 * consumes it.
 *
 * Three keys make up a command: a flag saying a command is pending, a time
 * string "HH:MM", and a number of seconds. The typed getters read an absent
 * key as `false`, `nil` and `0` respectively.
 */
module HandoffStore {
  import opened Wrappers

  const ShouldSetTimerKey: string := "LauncherShouldSetTimer"
  const TimeStringKey: string := "LauncherSetTimeString"
  const SecondsKey: string := "LauncherSetSeconds"

  datatype Value = BoolValue(b: bool) | StringValue(s: string) | DoubleValue(d: real)

  type Entries = map<string, Value>

  /** `bool(forKey:)`: the stored flag, `false` when the key is absent. */
  function BoolFor(m: Entries, key: string): (b: bool)
    ensures key !in m ==> !b
    ensures key in m && m[key].BoolValue? ==> b == m[key].b
  {
    key in m && m[key].BoolValue? && m[key].b
  }

  /** `string(forKey:)`: the stored string, `nil` when the key is absent. */
  function StringFor(m: Entries, key: string): (r: Option<string>)
    ensures key !in m ==> r.None?
    ensures r.Some? <==> key in m && m[key].StringValue?
    ensures r.Some? ==> m[key] == StringValue(r.value)
  {
    if key in m && m[key].StringValue? then Some(m[key].s) else None
  }

  /** `double(forKey:)`: the stored number, `0` when the key is absent. */
  function DoubleFor(m: Entries, key: string): (d: real)
    ensures key !in m ==> d == 0.0
    ensures key in m && m[key].DoubleValue? ==> d == m[key].d
  {
    if key in m && m[key].DoubleValue? then m[key].d else 0.0
  }

  /** Each getter reads back what `set(_:forKey:)` stored under its key, and only that key. */
  lemma GettersReadBack(m: Entries, key: string, v: Value, other: string)
    requires other != key
    ensures v.BoolValue? ==> BoolFor(m[key := v], key) == v.b
    ensures v.StringValue? ==> StringFor(m[key := v], key) == Some(v.s)
    ensures v.DoubleValue? ==> DoubleFor(m[key := v], key) == v.d
    ensures BoolFor(m[key := v], other) == BoolFor(m, other)
    ensures StringFor(m[key := v], other) == StringFor(m, other)
    ensures DoubleFor(m[key := v], other) == DoubleFor(m, other)
  {
  }

  /** What one consumption applies to a timer window. */
  datatype Command =
    | ApplyTime(timeString: string)
    | ApplySeconds(seconds: real)
    | NoCommand

  /**
   * The consumer's decision: nothing unless the flag is set; then a non-empty
   * time string wins; failing that, a positive number of seconds.
   */
  function Pending(m: Entries): (c: Command)
    ensures c.ApplyTime? ==> c.timeString != []
    ensures c.ApplySeconds? ==> c.seconds > 0.0
  {
    if !BoolFor(m, ShouldSetTimerKey) then NoCommand
    else
      var time := StringFor(m, TimeStringKey);
      if time.Some? && time.value != [] then ApplyTime(time.value)
      else if DoubleFor(m, SecondsKey) > 0.0 then ApplySeconds(DoubleFor(m, SecondsKey))
      else NoCommand
  }

  /** The keys a consumption removes: the flag and the payload it applied, nothing when it applied nothing. */
  function ConsumedKeys(m: Entries): set<string> {
    match Pending(m)
    case ApplyTime(_) => {ShouldSetTimerKey, TimeStringKey}
    case ApplySeconds(_) => {ShouldSetTimerKey, SecondsKey}
    case NoCommand => {}
  }

  /** The store's entries after one consumption. */
  function Consumed(m: Entries): (m': Entries)
    ensures m'.Keys <= m.Keys
    ensures forall k :: k in m' ==> m'[k] == m[k]
  {
    m - ConsumedKeys(m)
  }

  // ---------------------------------------------------------------------------
  // The consumption policy
  // ---------------------------------------------------------------------------

  /** With the flag absent or false, a consumption applies nothing and removes nothing. */
  lemma NoFlagNoEffect(m: Entries)
    requires !BoolFor(m, ShouldSetTimerKey)
    ensures Pending(m) == NoCommand && Consumed(m) == m
  {
    assert m - {} == m;
  }

  /**
   * With the flag set and a non-empty time string, the time path wins; the
   * flag and the time string are removed and a stored number of seconds stays.
   */
  lemma TimeStringWins(m: Entries, t: string)
    requires BoolFor(m, ShouldSetTimerKey) && StringFor(m, TimeStringKey) == Some(t) && t != []
    ensures Pending(m) == ApplyTime(t)
    ensures Consumed(m) == m - {ShouldSetTimerKey, TimeStringKey}
    ensures SecondsKey in m ==> SecondsKey in Consumed(m) && Consumed(m)[SecondsKey] == m[SecondsKey]
  {
  }

  /**
   * With the flag set, no non-empty time string and a positive number of
   * seconds, the seconds path is applied and the flag and seconds are removed.
   */
  lemma SecondsPath(m: Entries)
    requires BoolFor(m, ShouldSetTimerKey)
    requires StringFor(m, TimeStringKey).None? || StringFor(m, TimeStringKey) == Some([])
    requires DoubleFor(m, SecondsKey) > 0.0
    ensures Pending(m) == ApplySeconds(DoubleFor(m, SecondsKey))
    ensures Consumed(m) == m - {ShouldSetTimerKey, SecondsKey}
  {
  }

  /** With the flag set but neither payload usable, nothing is applied and the flag stays set. */
  lemma StuckFlag(m: Entries)
    requires BoolFor(m, ShouldSetTimerKey)
    requires StringFor(m, TimeStringKey).None? || StringFor(m, TimeStringKey) == Some([])
    requires DoubleFor(m, SecondsKey) <= 0.0
    ensures Pending(m) == NoCommand
    ensures Consumed(m) == m && BoolFor(Consumed(m), ShouldSetTimerKey)
  {
    assert m - {} == m;
  }

  /** A command is applied at most once: consuming again after a consumption that applied one applies nothing. */
  lemma ConsumeOnce(m: Entries)
    requires Pending(m) != NoCommand
    ensures !BoolFor(Consumed(m), ShouldSetTimerKey)
    ensures Pending(Consumed(m)) == NoCommand
  {
    assert ShouldSetTimerKey in ConsumedKeys(m);
  }

  /** Consuming is idempotent on the store: a second consumption leaves the entries as the first did. */
  lemma {:induction false} ConsumeIdempotent(m: Entries)
    ensures Consumed(Consumed(m)) == Consumed(m)
  {
    if Pending(m) != NoCommand {
      ConsumeOnce(m);
    }
    NoFlagOrStuck(Consumed(m));
  }

  /** After any consumption, nothing is pending: the next consumption applies nothing. */
  lemma {:induction false} ConsumedIsQuiet(m: Entries)
    ensures Pending(Consumed(m)) == NoCommand
  {
    if Pending(m) != NoCommand {
      ConsumeOnce(m);
    } else {
      NoFlagOrStuck(m);
    }
  }

  /** Whenever a consumption applies nothing, it also leaves the store as it was. */
  lemma NoFlagOrStuck(m: Entries)
    requires Pending(m) == NoCommand
    ensures Consumed(m) == m
  {
    assert m - {} == m;
  }

  // ---------------------------------------------------------------------------
  // The store as a mutable object
  // ---------------------------------------------------------------------------

  /** One UserDefaults domain. `writes` records, in order, the keys set through `Set`. */
  class Defaults {
    var entries: Entries
    ghost var writes: seq<string>

    constructor (initial: Entries)
      ensures entries == initial && writes == []
    {
      entries := initial;
      writes := [];
    }

    /** `set(_:forKey:)`. */
    method Set(key: string, v: Value)
      modifies this
      ensures entries == old(entries)[key := v]
      ensures writes == old(writes) + [key]
    {
      entries := entries[key := v];
      writes := writes + [key];
    }

    /** `removeObject(forKey:)`. */
    method RemoveObject(key: string)
      modifies this`entries
      ensures entries == old(entries) - {key}
    {
      entries := entries - {key};
    }

    function Bool(key: string): bool
      reads this
    {
      BoolFor(entries, key)
    }

    function String(key: string): Option<string>
      reads this
    {
      StringFor(entries, key)
    }

    function Double(key: string): real
      reads this
    {
      DoubleFor(entries, key)
    }
  }
}
