/**
 The pure parts of `SongService`: the LRC lyric parser `parseLrc` and the
 row range that `getSongs` asks the catalog for.

 The parser reads one timestamp tag per line, written
 `[` minutes `:` seconds (`.` or `:`) fraction `]` with 1-2 minute digits,
 exactly 2 second digits and 2-3 fraction digits (the de-facto LRC lyric-file
 convention), removes the leftmost such tag, trims the rest and stably sorts
 the kept lines by time.
 */
module SongService {
  import opened Options
  import opened Strings
  import opened Lyrics

  // ---- timestamp tags ----

  /** The captured groups of one tag, and the separator character between seconds and fraction. */
  datatype Tag = Tag(minutes: string, seconds: string, sep: char, fraction: string)

  /** The shape the pattern `\[(\d{1,2}):(\d{2})[.:](\d{2,3})\]` accepts. */
  predicate ValidTag(t: Tag) {
    && 1 <= |t.minutes| <= 2 && AllDigits(t.minutes)
    && |t.seconds| == 2 && AllDigits(t.seconds)
    && (t.sep == '.' || t.sep == ':')
    && 2 <= |t.fraction| <= 3 && AllDigits(t.fraction)
  }

  /** The characters of the tag as they appear in the line. */
  function TagText(t: Tag): string {
    "[" + t.minutes + ":" + t.seconds + [t.sep] + t.fraction + "]"
  }

  /** A well-formed tag is written in `s` starting at position `p`. */
  predicate TagAt(s: string, p: nat, t: Tag) {
    ValidTag(t) && p + |TagText(t)| <= |s| && s[p..p + |TagText(t)|] == TagText(t)
  }

  /** `t` is the leftmost tag of `s`: it starts at `p` and no tag starts earlier. */
  ghost predicate Leftmost(s: string, p: nat, t: Tag) {
    TagAt(s, p, t) && forall q: nat, u :: q < p ==> !TagAt(s, q, u)
  }

  /** Where each group sits inside the written tag. */
  lemma TagTextLayout(t: Tag)
    requires ValidTag(t)
    ensures var w, m, f := TagText(t), |t.minutes|, |t.fraction|;
      && |w| == 6 + m + f
      && w[0] == '[' && w[1..1 + m] == t.minutes && w[1 + m] == ':'
      && w[2 + m..4 + m] == t.seconds && w[4 + m] == t.sep
      && w[5 + m..5 + m + f] == t.fraction && w[5 + m + f] == ']'
      && (forall i :: 0 <= i < m ==> w[1 + i] == t.minutes[i])
      && (forall i :: 0 <= i < f ==> w[5 + m + i] == t.fraction[i])
  {
  }

  lemma SliceOfSlice(s: string, a: nat, b: nat, c: nat, d: nat)
    requires a <= b <= |s| && c <= d <= b - a
    ensures s[a..b][c..d] == s[a + c..a + d]
  {
    forall i | 0 <= i < d - c
      ensures s[a..b][c..d][i] == s[a + c..a + d][i]
    {
      assert s[a..b][c..d][i] == s[a..b][c + i] == s[a + c + i];
    }
  }

  /** The `k`-th character of a tag written at `p`. */
  lemma TagChar(s: string, p: nat, t: Tag, k: nat)
    requires TagAt(s, p, t) && k < |TagText(t)|
    ensures s[p + k] == TagText(t)[k]
  {
    assert s[p..p + |TagText(t)|][k] == s[p + k];
  }

  /** At most one tag starts at any position of a line. */
  lemma TagAtUnique(s: string, p: nat, t1: Tag, t2: Tag)
    requires TagAt(s, p, t1) && TagAt(s, p, t2)
    ensures t1 == t2
  {
    TagTextLayout(t1);
    TagTextLayout(t2);
    var w1, w2 := TagText(t1), TagText(t2);
    var m1, m2 := |t1.minutes|, |t2.minutes|;
    TagChar(s, p, t1, 2);
    TagChar(s, p, t2, 2);
    if m1 != m2 {
      assert false;
    } else {
      var f1, f2 := |t1.fraction|, |t2.fraction|;
      TagChar(s, p, t1, 7 + m1);
      TagChar(s, p, t2, 7 + m1);
      if f1 != f2 {
        assert false;
      } else {
        assert w1 == w2;
        assert t1.minutes == w1[1..1 + m1] == t2.minutes;
        assert t1.seconds == w1[2 + m1..4 + m1] == t2.seconds;
        assert t1.sep == w1[4 + m1] == t2.sep;
        assert t1.fraction == w1[5 + m1..5 + m1 + f1] == t2.fraction;
      }
    }
  }

  /** The groups read off `s` at `p` for `m` minute digits and `f` fraction digits, if the line is long enough. */
  function Candidate(s: string, p: nat, m: nat, f: nat): Option<Tag> {
    if p + 6 + m + f <= |s| then
      Some(Tag(s[p + 1..p + 1 + m], s[p + 2 + m..p + 4 + m], s[p + 4 + m], s[p + 5 + m..p + 5 + m + f]))
    else None
  }

  /** One alternative of the backtracking search: the candidate, kept only if it is a well-formed tag really written there. */
  function TryShape(s: string, p: nat, m: nat, f: nat): (r: Option<Tag>)
    ensures r.Some? ==> TagAt(s, p, r.value)
  {
    var c := Candidate(s, p, m, f);
    if c.Some? && TagAt(s, p, c.value) then c else None
  }

  /**
   The pattern tried at one position, in the order a backtracking matcher
   tries it: the greedy `\d{1,2}` first takes two minute digits, then one;
   for each, the greedy `\d{2,3}` first takes three fraction digits, then two.
   */
  function MatchAt(s: string, p: nat): (r: Option<Tag>)
    ensures r.Some? ==> TagAt(s, p, r.value)
  {
    var a := TryShape(s, p, 2, 3);
    if a.Some? then a else
    var b := TryShape(s, p, 2, 2);
    if b.Some? then b else
    var c := TryShape(s, p, 1, 3);
    if c.Some? then c else
    TryShape(s, p, 1, 2)
  }

  /** Every tag written at `p` is the one `MatchAt` reports. */
  lemma MatchAtComplete(s: string, p: nat, t: Tag)
    requires TagAt(s, p, t)
    ensures MatchAt(s, p) == Some(t)
  {
    ShapeFindsTag(s, p, t);
    var r := MatchAt(s, p);
    assert r.Some?;
    TagAtUnique(s, p, r.value, t);
  }

  /** The alternative with the tag's own digit counts reads that tag. */
  lemma ShapeFindsTag(s: string, p: nat, t: Tag)
    requires TagAt(s, p, t)
    ensures TryShape(s, p, |t.minutes|, |t.fraction|) == Some(t)
  {
    var m, f := |t.minutes|, |t.fraction|;
    TagTextLayout(t);
    var w := TagText(t);
    SliceOfSlice(s, p, p + |w|, 1, 1 + m);
    SliceOfSlice(s, p, p + |w|, 2 + m, 4 + m);
    SliceOfSlice(s, p, p + |w|, 5 + m, 5 + m + f);
    TagChar(s, p, t, 4 + m);
    assert Candidate(s, p, m, f) == Some(t);
  }

  /** The leftmost tag at or after position `i`, as `RegExp.prototype.exec` finds it. */
  function FindTagFrom(s: string, i: nat): (r: Option<(nat, Tag)>)
    requires i <= |s|
    ensures r.Some? ==> i <= r.value.0 && TagAt(s, r.value.0, r.value.1)
                        && forall q: nat, u :: i <= q < r.value.0 ==> !TagAt(s, q, u)
    ensures r.None? ==> forall q: nat, u :: i <= q ==> !TagAt(s, q, u)
    decreases |s| - i
  {
    match MatchAt(s, i)
    case Some(t) => Some((i, t))
    case None =>
      assert forall u :: !TagAt(s, i, u) by {
        forall u | TagAt(s, i, u) ensures false {
          MatchAtComplete(s, i, u);
        }
      }
      if i == |s| then None else FindTagFrom(s, i + 1)
  }

  function FindTag(s: string): (r: Option<(nat, Tag)>)
    ensures r.Some? ==> Leftmost(s, r.value.0, r.value.1)
    ensures r.None? ==> forall q: nat, u :: !TagAt(s, q, u)
  {
    FindTagFrom(s, 0)
  }

  /** Two leftmost tags of one line are the same tag at the same place. */
  lemma LeftmostUnique(s: string, p: nat, t: Tag, p': nat, t': Tag)
    requires Leftmost(s, p, t) && Leftmost(s, p', t')
    ensures p == p' && t == t'
  {
    if p < p' {
      assert false;
    } else if p' < p {
      assert false;
    } else {
      MatchAtComplete(s, p, t);
      MatchAtComplete(s, p, t');
    }
  }

  // ---- time arithmetic ----

  /** The fraction right-padded with '0' to three digits, as `fraction.padEnd(3, '0')`. */
  function PadFraction(fraction: string): (r: string)
    requires |fraction| <= 3
    ensures |r| == 3 && r[..|fraction|] == fraction
    ensures forall i :: |fraction| <= i < 3 ==> r[i] == '0'
  {
    fraction + Zeros(3 - |fraction|)
  }

  /** The largest time a tag can denote: 99 minutes, 99 seconds and 999 ms. */
  const MaxTagTime: nat := 99 * 60000 + 99 * 1000 + 999

  /** Milliseconds of a tag: minutes * 60000 + seconds * 1000 + the padded fraction. */
  function TagTime(t: Tag): (ms: nat)
    requires ValidTag(t)
    ensures ms <= MaxTagTime
    ensures ms == DigitsValue(t.minutes) * 60000 + DigitsValue(t.seconds) * 1000 + FractionMs(t.fraction)
  {
    var padded := PadFraction(t.fraction);
    PaddedFraction(t.fraction);
    TagFieldsBound(t);
    DigitsValue(t.minutes) * 60000 + DigitsValue(t.seconds) * 1000 + DigitsValue(padded)
  }

  /** The milliseconds a fraction field denotes: two digits are hundredths, three are thousandths. */
  function FractionMs(fraction: string): nat
    requires AllDigits(fraction) && 2 <= |fraction| <= 3
  {
    if |fraction| == 2 then DigitsValue(fraction) * 10 else DigitsValue(fraction)
  }

  /** Each field of a well-formed tag is below the next power of ten its digit count allows. */
  lemma TagFieldsBound(t: Tag)
    requires ValidTag(t)
    ensures DigitsValue(t.minutes) < 100 && DigitsValue(t.seconds) < 100 && FractionMs(t.fraction) < 1000
  {
    DigitsValueBound(t.minutes);
    DigitsValueBound(t.seconds);
    DigitsValueBound(t.fraction);
    assert Pow10(1) == 10 && Pow10(2) == 100 && Pow10(3) == 1000;
  }

  /** The padded fraction reads as the fraction's milliseconds. */
  lemma PaddedFraction(fraction: string)
    requires AllDigits(fraction) && 2 <= |fraction| <= 3
    ensures AllDigits(PadFraction(fraction)) && DigitsValue(PadFraction(fraction)) == FractionMs(fraction)
  {
    var padded := PadFraction(fraction);
    if |fraction| == 2 {
      assert padded == fraction + "0";
      DigitsValueAppendZero(fraction);
    } else {
      assert padded == fraction;
    }
  }

  /** Two-digit fractions are hundredths and three-digit fractions are thousandths. */
  lemma FractionScale(t: Tag)
    requires ValidTag(t)
    ensures |t.fraction| == 2 ==> TagTime(t) % 10 == 0
    ensures TagTime(t) % 1000 == FractionMs(t.fraction)
    ensures TagTime(t) / 1000 == DigitsValue(t.minutes) * 60 + DigitsValue(t.seconds)
  {
    DigitsValueBound(t.fraction);
    assert Pow10(2) == 100 && Pow10(3) == 1000;
  }

  // ---- lines ----

  /** The line with the characters of the tag at `p` cut out (the first `replace` of the pattern by ''). */
  function CutTag(s: string, p: nat, t: Tag): string
    requires p + |TagText(t)| <= |s|
  {
    s[..p] + s[p + |TagText(t)|..]
  }

  /** Cutting is undone by writing the tag back at `p`: exactly the tag's characters are removed, and the rest keeps its order. */
  lemma CutTagRestores(s: string, p: nat, t: Tag)
    requires TagAt(s, p, t)
    ensures var r := CutTag(s, p, t);
      && |r| == |s| - |TagText(t)| && p <= |r|
      && r[..p] + TagText(t) + r[p..] == s
  {
    var n := |TagText(t)|;
    var r := CutTag(s, p, t);
    assert r[..p] == s[..p];
    assert r[p..] == s[p + n..];
    assert s == s[..p] + s[p..p + n] + s[p + n..];
  }

  /** One line of the file: `None` when it has no tag or nothing but whitespace once the tag is cut. */
  function ParseLine(line: string): (r: Option<LyricLine>)
    ensures r.Some? ==> r.value.singer == Both && r.value.text != [] && IsTrimmed(r.value.text)
                        && r.value.time <= MaxTagTime
    ensures (forall q: nat, u :: !TagAt(line, q, u)) ==> r.None?
  {
    match FindTag(line)
    case None => None
    case Some((p, t)) =>
      var text := Trim(CutTag(line, p, t));
      if text == [] then None else Some(LyricLine(TagTime(t), text, Both))
  }

  /**
   What a line yields, stated through its leftmost tag alone: the tag's time,
   the rest of the line trimmed, singer `Both`; nothing if that rest is blank.
   */
  lemma ParseLineLeftmost(line: string, p: nat, t: Tag)
    requires Leftmost(line, p, t)
    ensures IsBlank(CutTag(line, p, t)) ==> ParseLine(line).None?
    ensures !IsBlank(CutTag(line, p, t)) ==>
              ParseLine(line) == Some(LyricLine(TagTime(t), Trim(CutTag(line, p, t)), Both))
  {
    var m := FindTag(line);
    assert m.Some?;
    LeftmostUnique(line, p, t, m.value.0, m.value.1);
  }

  /**
   The lines of the file, split as `split(/\r?\n/)` does: at every '\n', with a
   '\r' just before it dropped; a '\r' at the very end of the text stays.
   */
  function LrcLines(content: string): (r: seq<string>)
    ensures |r| == Count(content, '\n') + 1
  {
    var pieces := Split(content, '\n');
    seq(|pieces|, i requires 0 <= i < |pieces| =>
      if i < |pieces| - 1 && |pieces[i]| > 0 && pieces[i][|pieces[i]| - 1] == '\r'
      then pieces[i][..|pieces[i]| - 1] else pieces[i])
  }

  /**
   A file written as lines joined by '\n' is read back line by line, each
   line losing one '\r' at its end unless it is the last line.
   */
  lemma LrcLinesOfJoin(parts: seq<string>)
    requires |parts| >= 1 && forall i :: 0 <= i < |parts| ==> '\n' !in parts[i]
    ensures var r := LrcLines(Join(parts, '\n'));
      && |r| == |parts|
      && forall i :: 0 <= i < |parts| ==>
           r[i] == if i < |parts| - 1 && |parts[i]| > 0 && parts[i][|parts[i]| - 1] == '\r'
                   then parts[i][..|parts[i]| - 1] else parts[i]
  {
    SplitJoin(parts, '\n');
  }

  /** The entries of the lines in file order, before sorting: one for each line that `ParseLine` keeps. */
  function Entries(lines: seq<string>): (r: seq<LyricLine>)
    ensures |r| <= |lines|
    ensures forall e :: e in r ==> e.singer == Both && e.text != [] && IsTrimmed(e.text) && e.time <= MaxTagTime
    decreases |lines|
  {
    if lines == [] then []
    else
      var rest := Entries(lines[1..]);
      match ParseLine(lines[0])
      case None => rest
      case Some(e) => [e] + rest
  }

  lemma {:induction false} EntriesAppend(a: seq<string>, b: seq<string>)
    ensures Entries(a + b) == Entries(a) + Entries(b)
    decreases |a|
  {
    if a == [] {
      assert a + b == b;
    } else {
      assert (a + b)[1..] == a[1..] + b;
      EntriesAppend(a[1..], b);
    }
  }

  /**
   `parseLrc`: nothing for absent or empty content; otherwise the entries of
   the lines, stably sorted by time.
   */
  function ParseLrc(content: Option<string>): (r: seq<LyricLine>)
    ensures content.None? || content == Some("") ==> r == []
    ensures content.Some? ==> |r| <= Count(content.value, '\n') + 1
    ensures SortedByTime(r)
    ensures forall e :: e in r ==> e.singer == Both && e.text != [] && IsTrimmed(e.text) && e.time <= MaxTagTime
    ensures content.Some? ==> multiset(r) == multiset(Entries(LrcLines(content.value)))
    ensures content.Some? ==> forall k :: AtTime(r, k) == AtTime(Entries(LrcLines(content.value)), k)
  {
    if content.None? || content.value == "" then []
    else
      var entries := Entries(LrcLines(content.value));
      var r := SortByTime(entries);
      assert forall e :: e in r ==> e in multiset(entries);
      r
  }

  /** The parser's output is the one stable ordering by time of the per-line entries. */
  lemma ParseLrcIsStableSort(content: string, sorted: seq<LyricLine>)
    requires SortedByTime(sorted)
    requires forall k :: AtTime(sorted, k) == AtTime(Entries(LrcLines(content)), k)
    ensures ParseLrc(Some(content)) == sorted
  {
    StableSortUnique(ParseLrc(Some(content)), sorted);
  }

  // ---- getSongs paging ----

  /** The inclusive row range `[start, end]` handed to the catalog query. */
  datatype Range = Range(start: int, end: int)

  const DefaultPage: int := 1
  const DefaultLimit: int := 20

  /** The range of page `page` (counted from 1) when pages hold `limit` rows. */
  function PageRange(page: int, limit: int): (r: Range)
    ensures r.end - r.start + 1 == limit
    ensures r.start == (page - 1) * limit
  {
    var start := (page - 1) * limit;
    Range(start, start + limit - 1)
  }

  /** Page `p + 1` begins on the row after page `p` ends. */
  lemma PagesAdjacent(page: int, limit: int)
    ensures PageRange(page + 1, limit).start == PageRange(page, limit).end + 1
  {
  }

  /** With a positive page size, every row `n >= 0` lies on exactly one page `p >= 1`, namely `n / limit + 1`. */
  lemma {:induction false} PagesPartitionRows(n: nat, limit: int, page: int)
    requires limit >= 1 && page >= 1
    ensures PageRange(page, limit).start <= n <= PageRange(page, limit).end <==> page == n / limit + 1
  {
    var r := PageRange(page, limit);
    var q := n / limit;
    assert q * limit <= n < (q + 1) * limit;
    if page <= q {
      assert (page - 1) * limit + limit <= q * limit;
    } else if page > q + 1 {
      assert (page - 1) * limit >= (q + 1) * limit;
    }
  }

  lemma DefaultFirstPage()
    ensures PageRange(DefaultPage, DefaultLimit) == Range(0, 19)
  {
  }
}
