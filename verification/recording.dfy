/**
 The one piece of pure logic on the recording screen: `formatTime`, which
 shows the playback position (non-negative milliseconds) as `m:ss`.
 */
module Recording {
  import opened Strings
  import Clock

  /**
   `formatTime(ms)`: whole minutes, ':', and two-digit seconds of the position,
   which together give back `floor(ms / 1000)`; the milliseconds below a
   whole second are not shown.
   */
  function FormatTime(ms: nat): (r: string)
    ensures |r| >= 4 && r[|r| - 3] == ':' && Count(r, ':') == 1
    ensures IsDecimal(r[..|r| - 3]) && AllDigits(r[|r| - 2..])
    ensures DigitsValue(r[|r| - 2..]) < 60
    ensures DigitsValue(r[..|r| - 3]) * 60 + DigitsValue(r[|r| - 2..]) == ms / 1000
    ensures r[|r| - 2] == '0' <==> (ms / 1000) % 60 < 10
  {
    Clock.MinutesSeconds(ms / 1000)
  }

  /** Two positions show the same text exactly when they fall in the same whole second. */
  lemma FormatTimeSameSecond(a: nat, b: nat)
    ensures FormatTime(a) == FormatTime(b) <==> a / 1000 == b / 1000
  {
    Clock.MinutesSecondsInjective(a / 1000, b / 1000);
  }

  /** Sub-second precision is discarded: a position shows as its whole second does. */
  lemma FormatTimeWholeSeconds(ms: nat)
    ensures FormatTime(ms) == FormatTime(1000 * (ms / 1000))
  {
    FormatTimeSameSecond(ms, 1000 * (ms / 1000));
  }
}
