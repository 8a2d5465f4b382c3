/**
 The lyric track shared by the LRC parser and the manual sync screen: a
 sequence of `{ time, text, singer }` records, and the stable ordering by
 `time` that the parser applies with `Array.prototype.sort`.
 */
module Lyrics {

  /** Which performer a line belongs to in duet mode. */
  datatype Singer = A | B | Both

  /** One lyric line: milliseconds from the start of the track, display text, performer. */
  datatype LyricLine = LyricLine(time: nat, text: string, singer: Singer)

  /** Non-decreasing by `time`. */
  predicate SortedByTime(s: seq<LyricLine>) {
    forall i, j :: 0 <= i < j < |s| ==> s[i].time <= s[j].time
  }

  /** The entries of `s` stamped with time `k`, in their order in `s`. */
  function AtTime(s: seq<LyricLine>, k: nat): seq<LyricLine>
    decreases |s|
  {
    if s == [] then [] else (if s[0].time == k then [s[0]] else []) + AtTime(s[1..], k)
  }

  lemma {:induction false} AtTimeMembers(s: seq<LyricLine>, k: nat, x: LyricLine)
    requires x in AtTime(s, k)
    ensures x in s && x.time == k
    decreases |s|
  {
    if !(s[0].time == k && x == s[0]) {
      assert x in AtTime(s[1..], k);
      AtTimeMembers(s[1..], k, x);
    }
  }

  /**
   Places `x` in front of the first entry whose time is at least `x.time`:
   every entry it passes is strictly earlier, so `x` stays ahead of the
   entries that share its time.
   */
  function InsertByTime(x: LyricLine, s: seq<LyricLine>): (r: seq<LyricLine>)
    ensures |r| == |s| + 1
    ensures multiset(r) == multiset(s) + multiset{x}
    decreases |s|
  {
    if s == [] || x.time <= s[0].time then
      [x] + s
    else
      assert s == [s[0]] + s[1..];
      [s[0]] + InsertByTime(x, s[1..])
  }

  lemma {:induction false} InsertSorted(x: LyricLine, s: seq<LyricLine>)
    requires SortedByTime(s)
    ensures SortedByTime(InsertByTime(x, s))
    decreases |s|
  {
    if s != [] && x.time > s[0].time {
      InsertSorted(x, s[1..]);
      var rest := InsertByTime(x, s[1..]);
      var r := [s[0]] + rest;
      InsertLowerBound(x, s[1..], s[0].time);
      assert r[1..] == rest;
    }
  }

  /** Inserting an entry no earlier than `lo` among entries no earlier than `lo` keeps them all so. */
  lemma {:induction false} InsertLowerBound(x: LyricLine, s: seq<LyricLine>, lo: nat)
    requires lo <= x.time && forall i :: 0 <= i < |s| ==> lo <= s[i].time
    ensures forall j :: 0 <= j < |InsertByTime(x, s)| ==> lo <= InsertByTime(x, s)[j].time
    decreases |s|
  {
    if s != [] && x.time > s[0].time {
      InsertLowerBound(x, s[1..], lo);
      var rest := InsertByTime(x, s[1..]);
      assert InsertByTime(x, s) == [s[0]] + rest;
    }
  }

  /** `x` joins the entries of its own time in front of them; no other time is affected. */
  lemma {:induction false} InsertAtTime(x: LyricLine, s: seq<LyricLine>, k: nat)
    ensures AtTime(InsertByTime(x, s), k) == (if x.time == k then [x] else []) + AtTime(s, k)
    decreases |s|
  {
    if s == [] || x.time <= s[0].time {
      assert ([x] + s)[1..] == s;
    } else {
      InsertAtTime(x, s[1..], k);
      var r := [s[0]] + InsertByTime(x, s[1..]);
      assert r[1..] == InsertByTime(x, s[1..]);
    }
  }

  /** A stable sort by `time`: the model of `lyrics.sort((a, b) => a.time - b.time)`. */
  function SortByTime(s: seq<LyricLine>): (r: seq<LyricLine>)
    ensures |r| == |s|
    ensures multiset(r) == multiset(s)
    ensures SortedByTime(r)
    ensures forall k :: AtTime(r, k) == AtTime(s, k)
    decreases |s|
  {
    if s == [] then
      []
    else
      var rest := SortByTime(s[1..]);
      assert s == [s[0]] + s[1..];
      InsertSorted(s[0], rest);
      assert forall k :: AtTime(InsertByTime(s[0], rest), k) == AtTime(s, k) by {
        forall k
          ensures AtTime(InsertByTime(s[0], rest), k) == AtTime(s, k)
        {
          InsertAtTime(s[0], rest, k);
        }
      }
      InsertByTime(s[0], rest)
  }

  /**
   A stable sort is unique: two time-sorted sequences that hold, for every
   time, the same entries in the same order are equal. So `SortByTime` agrees
   with any stable sort, and in particular with the engine's.
   */
  lemma {:induction false} StableSortUnique(a: seq<LyricLine>, b: seq<LyricLine>)
    requires SortedByTime(a) && SortedByTime(b)
    requires forall k :: AtTime(a, k) == AtTime(b, k)
    ensures a == b
    decreases |a|
  {
    if a == [] {
      if b != [] {
        HeadAtTime(b);
        assert false;
      }
    } else if b == [] {
      HeadAtTime(a);
      assert false;
    } else {
      SameFirstTime(a, b);
      SameFirstTime(b, a);
      var m := a[0].time;
      assert AtTime(a, m) == AtTime(b, m);
      assert a[0] == AtTime(a, m)[0] == AtTime(b, m)[0] == b[0];
      SameTails(a, b);
      StableSortUnique(a[1..], b[1..]);
      assert a == [a[0]] + a[1..];
      assert b == [b[0]] + b[1..];
    }
  }

  lemma HeadAtTime(s: seq<LyricLine>)
    requires s != []
    ensures AtTime(s, s[0].time) != []
  {
  }

  /** The earliest time of a sorted track is fixed by its per-time entries. */
  lemma SameFirstTime(a: seq<LyricLine>, b: seq<LyricLine>)
    requires a != [] && b != [] && SortedByTime(a)
    requires forall k :: AtTime(a, k) == AtTime(b, k)
    ensures a[0].time <= b[0].time
  {
    var k := b[0].time;
    assert b[0] in AtTime(b, k);
    var x := AtTime(b, k)[0];
    assert x in AtTime(a, k);
    AtTimeMembers(a, k, x);
    var i :| 0 <= i < |a| && a[i] == x;
    assert a[0].time <= a[i].time;
  }

  lemma SameTails(a: seq<LyricLine>, b: seq<LyricLine>)
    requires a != [] && b != [] && a[0] == b[0]
    requires forall k :: AtTime(a, k) == AtTime(b, k)
    ensures forall k :: AtTime(a[1..], k) == AtTime(b[1..], k)
  {
    forall k
      ensures AtTime(a[1..], k) == AtTime(b[1..], k)
    {
      var h := if a[0].time == k then [a[0]] else [];
      assert AtTime(a, k) == h + AtTime(a[1..], k);
      assert AtTime(b, k) == h + AtTime(b[1..], k);
      assert AtTime(a, k)[|h|..] == AtTime(a[1..], k);
      assert AtTime(b, k)[|h|..] == AtTime(b[1..], k);
    }
  }

  /** Sorting an already sorted track changes nothing. */
  lemma SortSortedIdentity(s: seq<LyricLine>)
    requires SortedByTime(s)
    ensures SortByTime(s) == s
  {
    StableSortUnique(SortByTime(s), s);
  }
}
