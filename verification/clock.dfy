/**
 The `m:ss` clock text both screens build with
 `${minutes}:${seconds < 10 ? '0' : ''}${seconds}`.
 */
module Clock {
  import opened Strings

  /** `${seconds < 10 ? '0' : ''}${seconds}` for a seconds field below 60: always two digits. */
  function PadSeconds(sec: nat): (r: string)
    requires sec < 60
    ensures |r| == 2 && AllDigits(r) && DigitsValue(r) == sec
    ensures r[0] == '0' <==> sec < 10
  {
    var r := (if sec < 10 then "0" else "") + DecimalString(sec);
    if sec < 10 then
      assert r == [DigitChar(0), DigitChar(sec)];
      assert r[..1] == "0";
      r
    else
      var front := DecimalString(sec / 10);
      assert r == front + [DigitChar(sec % 10)];
      assert front == [DigitChar(sec / 10)];
      assert r[..1] == front;
      r
  }

  /**
   `minutes:ss` for a whole number of seconds: an unpadded decimal minute count,
   one ':', and a two-digit seconds field below 60, together worth `total` seconds.
   */
  function MinutesSeconds(total: nat): (r: string)
    ensures |r| >= 4 && r[|r| - 3] == ':'
    ensures IsDecimal(r[..|r| - 3]) && AllDigits(r[|r| - 2..])
    ensures DigitsValue(r[|r| - 2..]) < 60
    ensures DigitsValue(r[..|r| - 3]) * 60 + DigitsValue(r[|r| - 2..]) == total
    ensures r[|r| - 2] == '0' <==> total % 60 < 10
    ensures Count(r, ':') == 1
  {
    var minutes := DecimalString(total / 60);
    var ss := PadSeconds(total % 60);
    var r := minutes + ":" + ss;
    assert r[..|r| - 3] == minutes;
    assert r[|r| - 2..] == ss;
    CountAppend(minutes + ":", ss, ':');
    CountAppend(minutes, ":", ':');
    NoColonInDigits(minutes);
    NoColonInDigits(ss);
    r
  }

  lemma {:induction false} NoColonInDigits(s: string)
    requires AllDigits(s)
    ensures Count(s, ':') == 0
    decreases |s|
  {
    if s != [] {
      assert IsDigit(s[0]);
      NoColonInDigits(s[1..]);
    }
  }

  /** The clock text is read back to the seconds it shows: `MinutesSeconds` is injective. */
  lemma MinutesSecondsInjective(a: nat, b: nat)
    ensures MinutesSeconds(a) == MinutesSeconds(b) <==> a == b
  {
    if MinutesSeconds(a) == MinutesSeconds(b) {
      MinutesSecondsParts(a);
      MinutesSecondsParts(b);
      assert a / 60 == b / 60 && a % 60 == b % 60;
    }
  }

  /** The clock text is the minute numeral, ':', and the padded seconds field. */
  lemma MinutesSecondsParts(total: nat)
    ensures var r := MinutesSeconds(total);
      && r[..|r| - 3] == DecimalString(total / 60)
      && r[|r| - 2..] == PadSeconds(total % 60)
  {
    var minutes := DecimalString(total / 60);
    var r := minutes + ":" + PadSeconds(total % 60);
    assert r[..|r| - 3] == minutes;
    assert r[|r| - 2..] == PadSeconds(total % 60);
  }
}
