/**
 Text helpers shared by the lyric parser, the manual sync screen and the time
 formatters: JavaScript-style whitespace trimming, splitting on one separator
 character, and base-10 digit strings (what `parseInt(_, 10)` reads and what
 template-literal interpolation of a whole number writes).
 */
module Strings {

  /** Whitespace as `String.prototype.trim` and the regex class `\s` see it, restricted to ASCII. */
  predicate IsSpace(c: char) {
    c == ' ' || c == '\t' || c == '\n' || c == '\r' || c as int == 0x0B || c as int == 0x0C
  }

  /** A string whose every character is whitespace (the empty string included). */
  predicate IsBlank(s: string) {
    forall i :: 0 <= i < |s| ==> IsSpace(s[i])
  }

  lemma BlankAppend(a: string, b: string)
    requires IsBlank(a) && IsBlank(b)
    ensures IsBlank(a + b)
  {
    forall i | 0 <= i < |a + b|
      ensures IsSpace((a + b)[i])
    {
      if i < |a| {
        assert (a + b)[i] == a[i];
      } else {
        assert (a + b)[i] == b[i - |a|];
      }
    }
  }

  /** The number of whitespace characters `s` starts with. */
  function LeadingBlanks(s: string): nat
    decreases |s|
  {
    if |s| > 0 && IsSpace(s[0]) then 1 + LeadingBlanks(s[1..]) else 0
  }

  /** The count stops at the first non-whitespace character: everything before it is blank. */
  lemma {:induction false} LeadingBlanksSpec(s: string)
    ensures LeadingBlanks(s) <= |s| && IsBlank(s[..LeadingBlanks(s)])
    ensures LeadingBlanks(s) == |s| || !IsSpace(s[LeadingBlanks(s)])
    decreases |s|
  {
    if |s| > 0 && IsSpace(s[0]) {
      LeadingBlanksSpec(s[1..]);
      var n := LeadingBlanks(s);
      assert s[..n] == [s[0]] + s[1..][..n - 1];
      BlankAppend([s[0]], s[1..][..n - 1]);
    }
  }

  /** Drops leading whitespace, as replacing the pattern `^\s*` by '' does. */
  function TrimStart(s: string): string {
    LeadingBlanksSpec(s);
    s[LeadingBlanks(s)..]
  }

  /** The result is the suffix of `s` left after a blank prefix, and it does not start with whitespace. */
  lemma TrimStartSpec(s: string)
    ensures |TrimStart(s)| <= |s| && TrimStart(s) == s[|s| - |TrimStart(s)|..]
    ensures IsBlank(s[..|s| - |TrimStart(s)|])
    ensures TrimStart(s) == [] || !IsSpace(TrimStart(s)[0])
  {
    LeadingBlanksSpec(s);
  }

  /** Drops trailing whitespace: the result is the prefix of `s` left before a blank suffix. */
  function TrimEnd(s: string): (r: string)
    ensures |r| <= |s| && r == s[..|r|]
    ensures IsBlank(s[|r|..])
    ensures r == [] || !IsSpace(r[|r| - 1])
    decreases |s|
  {
    if |s| > 0 && IsSpace(s[|s| - 1]) then
      var r := TrimEnd(s[..|s| - 1]);
      assert s[|r|..] == s[..|s| - 1][|r|..] + [s[|s| - 1]];
      BlankAppend(s[..|s| - 1][|r|..], [s[|s| - 1]]);
      r
    else
      s
  }

  /** A trimmed string: neither its first nor its last character is whitespace. */
  predicate IsTrimmed(s: string) {
    s == [] || (!IsSpace(s[0]) && !IsSpace(s[|s| - 1]))
  }

  /**
   `String.prototype.trim`: the result is the part of `s` after its leading
   whitespace and before a blank suffix, and it neither starts nor ends with whitespace.
   */
  function Trim(s: string): (r: string)
    ensures IsTrimmed(r)
    ensures r == [] <==> IsBlank(s)
    ensures var i := LeadingBlanks(s);
      i + |r| <= |s| && r == s[i..i + |r|] && IsBlank(s[..i]) && IsBlank(s[i + |r|..])
  {
    var t := TrimStart(s);
    var r := TrimEnd(t);
    LeadingBlanksSpec(s);
    TrimParts(s, LeadingBlanks(s), t, r);
    r
  }

  /** What `Trim` needs from its two passes: `s` = blank + `t`, and `t` = `r` + blank. */
  lemma TrimParts(s: string, i: nat, t: string, r: string)
    requires i <= |s| && t == s[i..] && IsBlank(s[..i]) && (t == [] || !IsSpace(t[0]))
    requires |r| <= |t| && r == t[..|r|] && IsBlank(t[|r|..]) && (r == [] || !IsSpace(r[|r| - 1]))
    ensures IsTrimmed(r)
    ensures r == [] <==> IsBlank(s)
    ensures i + |r| <= |s| && r == s[i..i + |r|] && IsBlank(s[i + |r|..])
  {
    assert s[i + |r|..] == t[|r|..];
    if r == [] {
      assert s == s[..i] + t;
      BlankAppend(s[..i], t);
    } else {
      assert r[0] == t[0] == s[i];
    }
  }

  lemma {:induction false} TrimStartAfterBlank(w: string, x: string)
    requires IsBlank(w) && (x == [] || !IsSpace(x[0]))
    ensures TrimStart(w + x) == x
  {
    LeadingBlanksAfter(w, x);
    assert (w + x)[|w|..] == x;
  }

  lemma {:induction false} LeadingBlanksAfter(w: string, x: string)
    requires IsBlank(w) && (x == [] || !IsSpace(x[0]))
    ensures LeadingBlanks(w + x) == |w|
    decreases |w|
  {
    if w != [] {
      assert (w + x)[1..] == w[1..] + x;
      LeadingBlanksAfter(w[1..], x);
    } else {
      assert w + x == x;
    }
  }

  lemma {:induction false} TrimEndBeforeBlank(x: string, w: string)
    requires IsBlank(w) && (x == [] || !IsSpace(x[|x| - 1]))
    ensures TrimEnd(x + w) == x
    decreases |w|
  {
    if w != [] {
      assert (x + w)[..|x + w| - 1] == x + w[..|w| - 1];
      TrimEndBeforeBlank(x, w[..|w| - 1]);
    } else {
      assert x + w == x;
    }
  }

  /** Trimming is determined by the decomposition: whitespace around a trimmed core trims to that core. */
  lemma {:induction false} TrimAround(w1: string, m: string, w2: string)
    requires IsBlank(w1) && IsBlank(w2) && IsTrimmed(m)
    ensures Trim(w1 + m + w2) == m
  {
    if m == [] {
      BlankAppend(w1, w2);
      assert w1 + m + w2 == w1 + w2;
    } else {
      assert w1 + m + w2 == w1 + (m + w2);
      TrimStartAfterBlank(w1, m + w2);
      TrimEndBeforeBlank(m, w2);
    }
  }

  lemma TrimIdempotent(s: string)
    ensures Trim(Trim(s)) == Trim(s)
  {
    TrimAround([], Trim(s), []);
    assert [] + Trim(s) + [] == Trim(s);
  }

  /**
   `s.split(sep)` for a one-character separator: the pieces between consecutive
   separators, one more piece than there are separators.
   */
  function Split(s: string, sep: char): (r: seq<string>)
    ensures |r| == Count(s, sep) + 1
    ensures forall i :: 0 <= i < |r| ==> sep !in r[i]
    ensures Join(r, sep) == s
    decreases |s|
  {
    if s == [] then
      [[]]
    else
      var rest := Split(s[1..], sep);
      assert s == [s[0]] + s[1..];
      if s[0] == sep then
        [[]] + rest
      else
        [[s[0]] + rest[0]] + rest[1..]
  }

  /** `parts.join(sep)`. */
  function Join(parts: seq<string>, sep: char): string
    requires |parts| >= 1
  {
    if |parts| == 1 then parts[0] else parts[0] + [sep] + Join(parts[1..], sep)
  }

  /** Number of occurrences of `c` in `s`. */
  function Count(s: string, c: char): nat {
    if s == [] then 0 else (if s[0] == c then 1 else 0) + Count(s[1..], c)
  }

  lemma {:induction false} CountAppend(a: string, b: string, c: char)
    ensures Count(a + b, c) == Count(a, c) + Count(b, c)
  {
    if a == [] {
      assert a + b == b;
    } else {
      assert (a + b)[1..] == a[1..] + b;
      CountAppend(a[1..], b, c);
    }
  }

  /** Splitting a join of separator-free pieces gives the pieces back. */
  lemma {:induction false} SplitJoin(parts: seq<string>, sep: char)
    requires |parts| >= 1
    requires forall i :: 0 <= i < |parts| ==> sep !in parts[i]
    ensures Split(Join(parts, sep), sep) == parts
    decreases |parts|, |parts[0]|
  {
    var s := Join(parts, sep);
    if |parts| == 1 {
      SplitNoSep(parts[0], sep);
    } else if parts[0] == [] {
      assert s == [sep] + Join(parts[1..], sep);
      assert s[1..] == Join(parts[1..], sep);
      SplitJoin(parts[1..], sep);
      assert parts == [[]] + parts[1..];
    } else {
      var p0 := parts[0];
      var tail := [p0[1..]] + parts[1..];
      assert tail[1..] == parts[1..];
      assert Join(tail, sep) == p0[1..] + [sep] + Join(parts[1..], sep);
      assert s == [p0[0]] + Join(tail, sep);
      assert s[1..] == Join(tail, sep);
      assert p0[0] in p0;
      forall i | 0 <= i < |tail|
        ensures sep !in tail[i]
      {
        if i == 0 {
          assert forall c :: c in p0[1..] ==> c in p0;
        } else {
          assert tail[i] == parts[i];
        }
      }
      SplitJoin(tail, sep);
      assert [p0[0]] + p0[1..] == p0;
      assert parts == [p0] + parts[1..];
    }
  }

  lemma {:induction false} SplitNoSep(s: string, sep: char)
    requires sep !in s
    ensures Split(s, sep) == [s]
    decreases |s|
  {
    if s != [] {
      assert sep !in s[1..] by {
        assert forall c :: c in s[1..] ==> c in s;
      }
      SplitNoSep(s[1..], sep);
      assert s[0] in s;
      assert [s[0]] + s[1..] == s;
    }
  }

  // ---- base-10 digits ----

  predicate IsDigit(c: char) {
    '0' <= c <= '9'
  }

  predicate AllDigits(s: string) {
    forall i :: 0 <= i < |s| ==> IsDigit(s[i])
  }

  function DigitValue(c: char): (d: nat)
    requires IsDigit(c)
    ensures d < 10
  {
    c as int - '0' as int
  }

  function DigitChar(d: nat): (c: char)
    requires d < 10
    ensures IsDigit(c) && DigitValue(c) == d
  {
    ('0' as int + d) as char
  }

  /** `parseInt(s, 10)` of a string of decimal digits. */
  function DigitsValue(s: string): nat
    requires AllDigits(s)
  {
    if s == [] then 0 else DigitsValue(s[..|s| - 1]) * 10 + DigitValue(s[|s| - 1])
  }

  function Pow10(k: nat): (p: nat)
    ensures p >= 1
  {
    if k == 0 then 1 else 10 * Pow10(k - 1)
  }

  /** A string of `k` digits denotes a number below 10^k. */
  lemma {:induction false} DigitsValueBound(s: string)
    requires AllDigits(s)
    ensures DigitsValue(s) < Pow10(|s|)
    decreases |s|
  {
    if s != [] {
      DigitsValueBound(s[..|s| - 1]);
    }
  }

  /** Appending a zero digit multiplies the value by ten (what `padEnd(3, '0')` does to a two-digit fraction). */
  lemma DigitsValueAppendZero(s: string)
    requires AllDigits(s)
    ensures AllDigits(s + "0") && DigitsValue(s + "0") == DigitsValue(s) * 10
  {
    var t := s + "0";
    assert t[..|t| - 1] == s;
  }

  /** `k` zero digits. */
  function Zeros(k: nat): (z: string)
    ensures |z| == k && forall i :: 0 <= i < k ==> z[i] == '0'
  {
    if k == 0 then "" else Zeros(k - 1) + "0"
  }

  /** A canonical decimal numeral: digits only, non-empty, and no leading zero unless it is "0". */
  predicate IsDecimal(s: string) {
    |s| >= 1 && AllDigits(s) && (|s| > 1 ==> s[0] != '0')
  }

  /** The decimal rendering of a whole number, as `${n}` writes it. */
  function DecimalString(n: nat): (r: string)
    ensures IsDecimal(r)
    ensures DigitsValue(r) == n
    ensures n < 10 <==> |r| == 1
  {
    if n < 10 then
      [DigitChar(n)]
    else
      var front := DecimalString(n / 10);
      var r := front + [DigitChar(n % 10)];
      assert r[..|r| - 1] == front;
      r
  }

  /** Reading a canonical numeral and rendering the number again gives the same numeral. */
  lemma {:induction false} DecimalStringOfValue(s: string)
    requires IsDecimal(s)
    ensures DecimalString(DigitsValue(s)) == s
    decreases |s|
  {
    if |s| > 1 {
      var front := s[..|s| - 1];
      assert IsDecimal(front) by {
        assert front[0] == s[0];
        if |front| > 1 {
          assert front[0] != '0';
        }
      }
      DecimalStringOfValue(front);
      if DigitsValue(front) == 0 {
        ZeroNumeral(front);
        assert false;
      }
      assert DigitsValue(s) >= 10;
      assert DigitsValue(s) / 10 == DigitsValue(front);
      assert DigitChar(DigitsValue(s) % 10) == s[|s| - 1];
      assert front + [s[|s| - 1]] == s;
    }
  }

  lemma {:induction false} ZeroNumeral(s: string)
    requires IsDecimal(s) && DigitsValue(s) == 0
    ensures s == "0"
  {
    if |s| > 1 {
      LeadingDigitPositive(s);
    } else {
      assert DigitValue(s[0]) == 0;
    }
  }

  lemma {:induction false} LeadingDigitPositive(s: string)
    requires AllDigits(s) && |s| >= 1 && s[0] != '0'
    ensures DigitsValue(s) >= 1
    decreases |s|
  {
    if |s| > 1 {
      LeadingDigitPositive(s[..|s| - 1]);
    }
  }
}
