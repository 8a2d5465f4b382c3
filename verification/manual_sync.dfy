/**
 The manual lyric sync screen as a state machine. The user starts the music
 and taps once per line; each tap stamps the current line with the elapsed
 playback time (an input here: the screen's wall-clock timer is not part of
 this model) and moves to the next line. The handler also has a branch for a
 tap after the last line, which stops playback and hands the track to the
 upload; the button as written never lets that tap through (`ButtonEnabled`).
 */
module ManualSync {
  import opened Options
  import opened Strings
  import opened Lyrics
  import Clock

  // ---- the working line list ----

  /** The filter's test `l => l.trim() !== ''`: a line is kept unless it is all whitespace. */
  function Kept(l: string): (b: bool)
    ensures b <==> !IsBlank(l)
  {
    Trim(l) != ""
  }

  /** `lines.filter(l => l.trim() !== '')`. */
  function DropBlank(ls: seq<string>): (r: seq<string>)
    ensures |r| <= |ls|
    ensures forall i :: 0 <= i < |r| ==> !IsBlank(r[i])
    decreases |ls|
  {
    if ls == [] then []
    else
      var rest := DropBlank(ls[1..]);
      var keep := Kept(ls[0]);
      if keep then [ls[0]] + rest else rest
  }

  /** The filter keeps exactly the non-blank lines of its input. */
  lemma {:induction false} DropBlankMember(ls: seq<string>, l: string)
    ensures l in DropBlank(ls) <==> l in ls && !IsBlank(l)
    decreases |ls|
  {
    if ls != [] {
      DropBlankMember(ls[1..], l);
      assert ls == [ls[0]] + ls[1..];
    }
  }

  /** Filtering commutes with concatenation, so the kept lines stay in their input order. */
  lemma {:induction false} DropBlankAppend(a: seq<string>, b: seq<string>)
    ensures DropBlank(a + b) == DropBlank(a) + DropBlank(b)
    decreases |a|
  {
    if a == [] {
      assert a + b == b;
    } else {
      assert (a + b)[1..] == a[1..] + b;
      DropBlankAppend(a[1..], b);
    }
  }

  /** A list with no blank line passes through the filter unchanged. */
  lemma {:induction false} DropBlankKeepsLines(ls: seq<string>)
    requires forall i :: 0 <= i < |ls| ==> !IsBlank(ls[i])
    ensures DropBlank(ls) == ls
    decreases |ls|
  {
    if ls != [] {
      DropBlankKeepsLines(ls[1..]);
      assert ls == [ls[0]] + ls[1..];
    }
  }

  lemma DropBlankIdempotent(ls: seq<string>)
    ensures DropBlank(DropBlank(ls)) == DropBlank(ls)
  {
    DropBlankKeepsLines(DropBlank(ls));
  }

  /** `songData.rawLyrics.split('\n').filter(l => l.trim() !== '')`. */
  function WorkingLines(rawLyrics: string): (r: seq<string>)
    ensures forall i :: 0 <= i < |r| ==> !IsBlank(r[i]) && '\n' !in r[i]
    ensures |r| <= Count(rawLyrics, '\n') + 1
  {
    var pieces := Split(rawLyrics, '\n');
    var r := DropBlank(pieces);
    assert forall i :: 0 <= i < |r| ==> !IsBlank(r[i]) && '\n' !in r[i] by {
      forall i | 0 <= i < |r|
        ensures !IsBlank(r[i]) && '\n' !in r[i]
      {
        DropBlankMember(pieces, r[i]);
        var j :| 0 <= j < |pieces| && pieces[j] == r[i];
      }
    }
    r
  }

  /** Raw lyrics written as lines joined by '\n' give back exactly the non-blank lines, in order. */
  lemma WorkingLinesOfJoin(parts: seq<string>)
    requires |parts| >= 1 && forall i :: 0 <= i < |parts| ==> '\n' !in parts[i]
    ensures WorkingLines(Join(parts, '\n')) == DropBlank(parts)
  {
    SplitJoin(parts, '\n');
  }

  // ---- speaker prefixes ----

  /** The recognised prefixes, in the order they are tested, with the singer each one names. */
  const Prefixes: seq<(string, Singer)> :=
    [("[A]", A), ("A:", A), ("[B]", B), ("B:", B), ("[Both]", Both), ("Ambos:", Both)]

  /** The first prefix of the table that `line` starts with, searching from entry `i`. */
  function FirstPrefixFrom(line: string, i: nat): (r: Option<nat>)
    requires i <= |Prefixes|
    ensures r.Some? ==> i <= r.value < |Prefixes| && Prefixes[r.value].0 <= line
                        && forall j :: i <= j < r.value ==> !(Prefixes[j].0 <= line)
    ensures r.None? ==> forall j :: i <= j < |Prefixes| ==> !(Prefixes[j].0 <= line)
    decreases |Prefixes| - i
  {
    if i == |Prefixes| then None
    else if Prefixes[i].0 <= line then Some(i)
    else FirstPrefixFrom(line, i + 1)
  }

  function FirstPrefix(line: string): Option<nat> {
    FirstPrefixFrom(line, 0)
  }

  /** The singer a line is attributed to and its display text. */
  datatype Attributed = Attributed(singer: Singer, text: string)

  /**
   `line` is `pre`, then whitespace, then `text`, and `text` does not start
   with whitespace: what replacing the pattern `^(pre)\s*` by '' leaves of a line that starts with `pre`.
   */
  predicate StripsTo(line: string, pre: string, text: string) {
    && pre <= line
    && |pre| + |text| <= |line|
    && line[|line| - |text|..] == text
    && IsBlank(line[|pre|..|line| - |text|])
    && (text == [] || !IsSpace(text[0]))
  }

  /** Drops `pre` and the whitespace after it. */
  function StripPrefix(line: string, pre: string): string
    requires pre <= line
  {
    TrimStart(line[|pre|..])
  }

  /** The stripped text is what is left of the line after `pre` and the whitespace that follows it. */
  lemma StripPrefixSpec(line: string, pre: string)
    requires pre <= line
    ensures StripsTo(line, pre, StripPrefix(line, pre))
  {
    var rest := line[|pre|..];
    var text := StripPrefix(line, pre);
    TrimStartSpec(rest);
    assert line[|line| - |text|..] == rest[|rest| - |text|..];
    assert line[|pre|..|line| - |text|] == rest[..|rest| - |text|];
  }

  /**
   The prefix test of the tap handler, walking the table from entry `i`: the
   first prefix the line starts with names the singer and is removed together
   with the whitespace after it; a line that matches none is Both and keeps its text.
   */
  function AttributeFrom(line: string, i: nat): Attributed
    requires i <= |Prefixes|
    decreases |Prefixes| - i
  {
    if i == |Prefixes| then Attributed(Both, line)
    else if Prefixes[i].0 <= line then Attributed(Prefixes[i].1, StripPrefix(line, Prefixes[i].0))
    else AttributeFrom(line, i + 1)
  }

  /** The singer and display text the tap handler gives a line. */
  function Attribute(line: string): Attributed {
    AttributeFrom(line, 0)
  }

  /**
   The table walk is the handler's own if/else-if chain: `[A]`/`A:` give A,
   else `[B]`/`B:` give B, else `[Both]`/`Ambos:` give Both, each with the
   prefix and the whitespace after it removed; any other line is Both as it is.
   */
  lemma AttributeIfChain(line: string)
    ensures Attribute(line)
         == if "[A]" <= line then Attributed(A, StripPrefix(line, "[A]"))
            else if "A:" <= line then Attributed(A, StripPrefix(line, "A:"))
            else if "[B]" <= line then Attributed(B, StripPrefix(line, "[B]"))
            else if "B:" <= line then Attributed(B, StripPrefix(line, "B:"))
            else if "[Both]" <= line then Attributed(Both, StripPrefix(line, "[Both]"))
            else if "Ambos:" <= line then Attributed(Both, StripPrefix(line, "Ambos:"))
            else Attributed(Both, line)
  {
    assert Prefixes[0] == ("[A]", A) && Prefixes[1] == ("A:", A);
    assert Prefixes[2] == ("[B]", B) && Prefixes[3] == ("B:", B);
    assert Prefixes[4] == ("[Both]", Both) && Prefixes[5] == ("Ambos:", Both);
    assert AttributeFrom(line, 6) == Attributed(Both, line);
    assert AttributeFrom(line, 5) == if "Ambos:" <= line then Attributed(Both, StripPrefix(line, "Ambos:")) else AttributeFrom(line, 6);
    assert AttributeFrom(line, 4) == if "[Both]" <= line then Attributed(Both, StripPrefix(line, "[Both]")) else AttributeFrom(line, 5);
    assert AttributeFrom(line, 3) == if "B:" <= line then Attributed(B, StripPrefix(line, "B:")) else AttributeFrom(line, 4);
    assert AttributeFrom(line, 2) == if "[B]" <= line then Attributed(B, StripPrefix(line, "[B]")) else AttributeFrom(line, 3);
    assert AttributeFrom(line, 1) == if "A:" <= line then Attributed(A, StripPrefix(line, "A:")) else AttributeFrom(line, 2);
  }

  /** Which singer a line goes to depends only on its prefix, in the handler's order: A first, then B. */
  lemma AttributeSinger(line: string)
    ensures Attribute(line).singer == A <==> "[A]" <= line || "A:" <= line
    ensures Attribute(line).singer == B <==> !("[A]" <= line || "A:" <= line) && ("[B]" <= line || "B:" <= line)
  {
    AttributeIfChain(line);
  }

  /**
   Attribution is by the first table entry the line starts with: that entry
   names the singer, and only that one prefix (with the whitespace after it)
   is removed; a line matching no entry is Both and keeps its text.
   */
  lemma {:induction false} AttributeByTable(line: string, i: nat)
    requires i <= |Prefixes|
    ensures FirstPrefixFrom(line, i).None? ==> AttributeFrom(line, i) == Attributed(Both, line)
    ensures FirstPrefixFrom(line, i).Some? ==>
              var (pre, who) := Prefixes[FirstPrefixFrom(line, i).value];
              AttributeFrom(line, i).singer == who && StripsTo(line, pre, AttributeFrom(line, i).text)
    decreases |Prefixes| - i
  {
    if i < |Prefixes| {
      if Prefixes[i].0 <= line {
        StripPrefixSpec(line, Prefixes[i].0);
      } else {
        AttributeByTable(line, i + 1);
      }
    }
  }

  /** The decomposition fixes the text: it is the rest of the line after `pre` with leading whitespace dropped. */
  lemma StripsToUnique(line: string, pre: string, text: string)
    requires StripsTo(line, pre, text)
    ensures text == TrimStart(line[|pre|..])
  {
    var w := line[|pre|..|line| - |text|];
    assert line[|pre|..] == w + text;
    TrimStartAfterBlank(w, text);
  }

  // ---- the session ----

  /** `lines`, `currentLineIndex`, `syncedLyrics` and `isPlaying` of the screen. */
  datatype SyncState = SyncState(lines: seq<string>, index: nat, synced: seq<LyricLine>, playing: bool)

  /** What a tap did: nothing (music not playing), stamped a line, or finished the session with this track. */
  datatype Outcome = NotPlaying | Stamped | Finished(track: seq<LyricLine>)

  datatype Step = Step(state: SyncState, outcome: Outcome)

  /** The entry a tap at `timer` makes of `line`. */
  function StampLine(line: string, timer: nat): (e: LyricLine)
    ensures e.time == timer && e.singer == Attribute(line).singer && e.text == Attribute(line).text
  {
    var a := Attribute(line);
    LyricLine(timer, a.text, a.singer)
  }

  /**
   A stamp through the prefix table: the first prefix the line starts with
   names the singer and, with the whitespace after it, is cut from the text;
   a line with no prefix is stamped as it is, for Both. The time is the tap's.
   */
  lemma StampLineByTable(line: string, timer: nat)
    ensures FirstPrefix(line).Some? ==>
              var (pre, who) := Prefixes[FirstPrefix(line).value];
              var e := StampLine(line, timer);
              e.time == timer && e.singer == who && StripsTo(line, pre, e.text)
    ensures FirstPrefix(line).None? ==> StampLine(line, timer) == LyricLine(timer, line, Both)
  {
    AttributeByTable(line, 0);
  }

  /** One entry per line already tapped, each the stamp of its own line. */
  predicate Inv(st: SyncState) {
    && |st.synced| == st.index <= |st.lines|
    && forall i :: 0 <= i < st.index ==>
         st.synced[i].singer == Attribute(st.lines[i]).singer && st.synced[i].text == Attribute(st.lines[i]).text
  }

  /** The screen as it opens: working lines from the raw text, nothing tapped, music stopped. */
  function Open(rawLyrics: string): (st: SyncState)
    ensures st.lines == WorkingLines(rawLyrics)
    ensures Inv(st) && st.index == 0 && st.synced == [] && !st.playing
    ensures forall i :: 0 <= i < |st.lines| ==> !IsBlank(st.lines[i])
  {
    SyncState(WorkingLines(rawLyrics), 0, [], false)
  }

  /** The play button's effect on the model state: it flips `isPlaying` and nothing else. */
  function TogglePlay(st: SyncState): (r: SyncState)
    ensures r.playing == !st.playing
    ensures r.lines == st.lines && r.index == st.index && r.synced == st.synced
    ensures Inv(st) ==> Inv(r)
  {
    st.(playing := !st.playing)
  }

  /** `markLine`, with the elapsed playback time `timer` as an input. */
  function MarkLine(st: SyncState, timer: nat): Step {
    if !st.playing then
      Step(st, NotPlaying)
    else if st.index < |st.lines| then
      Step(st.(synced := st.synced + [StampLine(st.lines[st.index], timer)], index := st.index + 1), Stamped)
    else
      Step(st.(playing := false), Finished(st.synced))
  }

  /**
   The three cases of a tap: with the music stopped nothing happens; while
   lines remain, the current line is stamped, earlier entries are kept and the
   index advances; after the last line, the music stops and the track is handed over.
   */
  lemma MarkLineCases(st: SyncState, timer: nat)
    ensures var r := MarkLine(st, timer);
      && (!st.playing ==> r == Step(st, NotPlaying))
      && (st.playing && st.index < |st.lines| ==>
            && r.outcome == Stamped
            && r.state.lines == st.lines && r.state.playing
            && r.state.index == st.index + 1
            && |r.state.synced| == |st.synced| + 1
            && r.state.synced[..|st.synced|] == st.synced
            && r.state.synced[|st.synced|] == StampLine(st.lines[st.index], timer))
      && (st.playing && st.index >= |st.lines| ==>
            r == Step(st.(playing := false), Finished(st.synced)))
  {
    if st.playing && st.index < |st.lines| {
      var synced := st.synced + [StampLine(st.lines[st.index], timer)];
      assert synced[..|st.synced|] == st.synced;
    }
  }

  /** A tap keeps the invariant: every entry is still the stamp of its own line. */
  lemma MarkLineInv(st: SyncState, timer: nat)
    requires Inv(st)
    ensures Inv(MarkLine(st, timer).state)
  {
    var r := MarkLine(st, timer).state;
    if st.playing && st.index < |st.lines| {
      forall i | 0 <= i < r.index
        ensures r.synced[i].singer == Attribute(r.lines[i]).singer && r.synced[i].text == Attribute(r.lines[i]).text
      {
        if i < st.index {
          assert r.synced[i] == r.synced[..|st.synced|][i];
        }
      }
    }
  }

  /** The state after a run of taps at the given times. */
  function Replay(st: SyncState, timers: seq<nat>): SyncState
    decreases |timers|
  {
    if timers == [] then st else Replay(MarkLine(st, timers[0]).state, timers[1..])
  }

  /** The entries taps at `timers` make of `lines`, one per tap, line by line. */
  function Stamps(lines: seq<string>, k: nat, timers: seq<nat>): (r: seq<LyricLine>)
    requires k + |timers| <= |lines|
    ensures |r| == |timers|
    decreases |timers|
  {
    if timers == [] then [] else [StampLine(lines[k], timers[0])] + Stamps(lines, k + 1, timers[1..])
  }

  /** Entry `i` of a run of taps from line `k` is the stamp of line `k + i` at tap `i`'s time. */
  lemma {:induction false} StampsAt(lines: seq<string>, k: nat, timers: seq<nat>, i: nat)
    requires k + |timers| <= |lines| && i < |timers|
    ensures Stamps(lines, k, timers)[i] == StampLine(lines[k + i], timers[i])
    decreases i
  {
    if i > 0 {
      StampsAt(lines, k + 1, timers[1..], i - 1);
    }
  }

  /** Each entry of a run of taps carries its own tap's time. */
  lemma StampsTimes(lines: seq<string>, k: nat, timers: seq<nat>)
    requires k + |timers| <= |lines|
    ensures forall i :: 0 <= i < |timers| ==> Stamps(lines, k, timers)[i].time == timers[i]
  {
    forall i | 0 <= i < |timers|
      ensures Stamps(lines, k, timers)[i].time == timers[i]
    {
      StampsAt(lines, k, timers, i);
    }
  }

  /**
   While lines remain, taps stamp the next lines in order: a run of taps at
   `timers` appends exactly one entry per tap, line by line, each at its tap's time.
   */
  lemma {:induction false} ReplayStamps(st: SyncState, timers: seq<nat>)
    requires st.playing && st.index + |timers| <= |st.lines|
    ensures var r := Replay(st, timers);
      && r.lines == st.lines && r.playing && r.index == st.index + |timers|
      && r.synced == st.synced + Stamps(st.lines, st.index, timers)
    decreases |timers|
  {
    if timers != [] {
      var stamp := StampLine(st.lines[st.index], timers[0]);
      var next := MarkLine(st, timers[0]).state;
      TapStamps(st, timers[0]);
      assert next == SyncState(st.lines, st.index + 1, st.synced + [stamp], true);
      ReplayStamps(next, timers[1..]);
      var rest := Stamps(st.lines, st.index + 1, timers[1..]);
      assert Replay(st, timers) == Replay(next, timers[1..]);
      assert Replay(next, timers[1..]).synced == (st.synced + [stamp]) + rest;
      assert Stamps(st.lines, st.index, timers) == [stamp] + rest;
      assert (st.synced + [stamp]) + rest == st.synced + ([stamp] + rest);
    }
  }

  /** While lines remain, a tap appends the stamp of the current line and moves on. */
  lemma TapStamps(st: SyncState, timer: nat)
    requires st.playing && st.index < |st.lines|
    ensures MarkLine(st, timer).state
         == SyncState(st.lines, st.index + 1, st.synced + [StampLine(st.lines[st.index], timer)], true)
  {
  }

  /**
   A whole session: open the screen, start the music, tap once per line at
   non-decreasing times. Every line is stamped in order, the track is sorted
   by time, and the next call of the handler (at any time; 0 here) stops the
   music and hands over exactly that track. The button as written refuses that
   call (`PressAllNeverSaves`).
   */
  lemma FullSession(rawLyrics: string, timers: seq<nat>)
    requires |timers| == |WorkingLines(rawLyrics)|
    requires forall i, j :: 0 <= i < j < |timers| ==> timers[i] <= timers[j]
    ensures var st := Replay(TogglePlay(Open(rawLyrics)), timers);
      && st.lines == WorkingLines(rawLyrics)
      && st.index == |st.lines| && |st.synced| == |timers| && st.playing
      && (forall i :: 0 <= i < |timers| ==> st.synced[i] == StampLine(st.lines[i], timers[i]))
      && (forall i :: 0 <= i < |timers| ==> st.synced[i].time == timers[i])
      && SortedByTime(st.synced)
      && MarkLine(st, 0) == Step(st.(playing := false), Finished(st.synced))
  {
    TapEveryLine(TogglePlay(Open(rawLyrics)), timers);
  }

  /** From a playing, untapped state, one tap per line stamps every line at its tap's time. */
  lemma {:induction false} TapEveryLine(st0: SyncState, timers: seq<nat>)
    requires st0.playing && st0.index == 0 && st0.synced == [] && |timers| == |st0.lines|
    requires forall i, j :: 0 <= i < j < |timers| ==> timers[i] <= timers[j]
    ensures var st := Replay(st0, timers);
      && st.lines == st0.lines
      && st.index == |st.lines| && |st.synced| == |timers| && st.playing
      && (forall i :: 0 <= i < |timers| ==> st.synced[i] == StampLine(st.lines[i], timers[i]))
      && (forall i :: 0 <= i < |timers| ==> st.synced[i].time == timers[i])
      && SortedByTime(st.synced)
      && MarkLine(st, 0) == Step(st.(playing := false), Finished(st.synced))
  {
    ReplayStamps(st0, timers);
    var st := Replay(st0, timers);
    assert st.synced == Stamps(st0.lines, 0, timers);
    StampsTimes(st0.lines, 0, timers);
    StampsEachLine(st0.lines, timers);
    StampsSorted(st0.lines, timers);
  }

  /** Taps from the first line stamp line i at tap i's time. */
  lemma StampsEachLine(lines: seq<string>, timers: seq<nat>)
    requires |timers| <= |lines|
    ensures forall i :: 0 <= i < |timers| ==> Stamps(lines, 0, timers)[i] == StampLine(lines[i], timers[i])
  {
    forall i | 0 <= i < |timers|
      ensures Stamps(lines, 0, timers)[i] == StampLine(lines[i], timers[i])
    {
      StampsAt(lines, 0, timers, i);
    }
  }

  /** Taps at non-decreasing times give a track sorted by time. */
  lemma StampsSorted(lines: seq<string>, timers: seq<nat>)
    requires |timers| <= |lines|
    requires forall i, j :: 0 <= i < j < |timers| ==> timers[i] <= timers[j]
    ensures SortedByTime(Stamps(lines, 0, timers))
  {
    var r := Stamps(lines, 0, timers);
    StampsTimes(lines, 0, timers);
    forall i, j | 0 <= i < j < |r|
      ensures r[i].time <= r[j].time
    {
      assert timers[i] <= timers[j];
    }
  }

  /** A session never tapped past its end: once finished, further taps change nothing. */
  lemma AfterFinish(st: SyncState, t1: nat, t2: nat)
    requires st.playing && st.index >= |st.lines|
    ensures var s1 := MarkLine(st, t1).state;
      MarkLine(s1, t2) == Step(s1, NotPlaying) && s1.synced == st.synced && !s1.playing
  {
  }

  // ---- the TAP LINE button ----

  /**
   The button's test as written: it is disabled when the music is stopped or
   when every line is already stamped, so `markLine` runs only while a line remains.
   */
  predicate ButtonEnabled(st: SyncState) {
    st.playing && st.index < |st.lines|
  }

  /** The evidently intended test: the button works while the music plays, so a tap after the last line can finish. */
  predicate ButtonEnabledFixed(st: SyncState) {
    st.playing
  }

  /** The state after a run of presses, and whether one of them finished the session (the call of `saveSong`). */
  datatype Presses = Presses(state: SyncState, saved: bool)

  /**
   Presses of the button at `timers`. A press on a disabled button does
   nothing; `fixed` chooses between the written and the intended test.
   */
  function PressAll(st: SyncState, timers: seq<nat>, fixed: bool): Presses
    decreases |timers|
  {
    if timers == [] then Presses(st, false)
    else
      var enabled := if fixed then ButtonEnabledFixed(st) else ButtonEnabled(st);
      if !enabled then PressAll(st, timers[1..], fixed)
      else
        var step := MarkLine(st, timers[0]);
        var rest := PressAll(step.state, timers[1..], fixed);
        Presses(rest.state, rest.saved || step.outcome.Finished?)
  }

  /** As written, every press the button lets through stamps a line. */
  lemma EnabledPressStamps(st: SyncState, timer: nat)
    requires ButtonEnabled(st)
    ensures MarkLine(st, timer).outcome == Stamped
  {
  }

  /** As written, no run of presses ever finishes the session, so the track is never saved. */
  lemma {:induction false} PressAllNeverSaves(st: SyncState, timers: seq<nat>)
    ensures !PressAll(st, timers, false).saved
    decreases |timers|
  {
    if timers != [] {
      if ButtonEnabled(st) {
        EnabledPressStamps(st, timers[0]);
        PressAllNeverSaves(MarkLine(st, timers[0]).state, timers[1..]);
      } else {
        PressAllNeverSaves(st, timers[1..]);
      }
    }
  }

  /** With the intended test, more presses than lines left, while the music plays, finish the session. */
  lemma {:induction false} PressAllFixedSaves(st: SyncState, timers: seq<nat>)
    requires st.playing && |timers| >= 1 && |st.lines| - st.index < |timers|
    ensures PressAll(st, timers, true).saved
    decreases |timers|
  {
    var step := MarkLine(st, timers[0]);
    if st.index < |st.lines| {
      assert step.state.playing && step.state.index == st.index + 1 && step.state.lines == st.lines;
      PressAllFixedSaves(step.state, timers[1..]);
    } else {
      assert step.outcome.Finished?;
    }
  }

  /**
   Open the screen, start the music, press once per line and once more: as
   written the last press is refused and nothing is saved; with the intended
   test that press saves the track.
   */
  lemma SessionSave(rawLyrics: string, timers: seq<nat>)
    requires |timers| == |WorkingLines(rawLyrics)| + 1
    ensures !PressAll(TogglePlay(Open(rawLyrics)), timers, false).saved
    ensures PressAll(TogglePlay(Open(rawLyrics)), timers, true).saved
  {
    PressAllNeverSaves(TogglePlay(Open(rawLyrics)), timers);
    PressAllFixedSaves(TogglePlay(Open(rawLyrics)), timers);
  }

  // ---- the timer display ----

  /**
   `formatTime(ms)` of the sync screen: `m:ss.t`, where `m:ss` is the whole
   seconds of the position and `t` its tenths digit; the text gives back
   `floor(ms / 100)`.
   */
  function FormatTime(ms: nat): (r: string)
    ensures |r| >= 6 && r[|r| - 5] == ':' && r[|r| - 2] == '.'
    ensures IsDecimal(r[..|r| - 5]) && AllDigits(r[|r| - 4..|r| - 2]) && IsDigit(r[|r| - 1])
    ensures DigitsValue(r[|r| - 4..|r| - 2]) < 60
    ensures DigitsValue(r[..|r| - 5]) * 60 + DigitsValue(r[|r| - 4..|r| - 2]) == ms / 1000
    ensures DigitValue(r[|r| - 1]) == (ms % 1000) / 100
    ensures (DigitsValue(r[..|r| - 5]) * 60 + DigitsValue(r[|r| - 4..|r| - 2])) * 10 + DigitValue(r[|r| - 1]) == ms / 100
  {
    var clock := Clock.MinutesSeconds(ms / 1000);
    var tenths := DecimalString((ms % 1000) / 100);
    var r := clock + "." + tenths;
    assert r[..|r| - 2] == clock;
    assert r[..|r| - 5] == clock[..|clock| - 3];
    assert r[|r| - 4..|r| - 2] == clock[|clock| - 2..];
    assert r[|r| - 1] == tenths[0];
    assert DigitsValue(tenths) == DigitsValue(tenths[..0]) * 10 + DigitValue(tenths[0]);
    TenthsSplit(ms);
    r
  }

  lemma TenthsSplit(ms: nat)
    ensures (ms / 1000) * 10 + (ms % 1000) / 100 == ms / 100
  {
    var q, rem := ms / 1000, ms % 1000;
    assert ms == q * 1000 + rem;
    assert ms / 100 == q * 10 + rem / 100;
  }

  /** Two positions show the same text exactly when they fall in the same tenth of a second. */
  lemma FormatTimeSameTenth(a: nat, b: nat)
    ensures FormatTime(a) == FormatTime(b) <==> a / 100 == b / 100
  {
    if a / 100 == b / 100 {
      TenthsOf(a);
      TenthsOf(b);
      assert a / 1000 == b / 1000 && (a % 1000) / 100 == (b % 1000) / 100;
    }
    if FormatTime(a) == FormatTime(b) {
      FormatTimeParts(a);
      FormatTimeParts(b);
      Clock.MinutesSecondsInjective(a / 1000, b / 1000);
      TenthsSplit(a);
      TenthsSplit(b);
    }
  }

  /** The text is the `m:ss` clock of the whole seconds, a '.', and the tenths digit. */
  lemma FormatTimeParts(ms: nat)
    ensures var r := FormatTime(ms);
      && r[..|r| - 2] == Clock.MinutesSeconds(ms / 1000)
      && DigitValue(r[|r| - 1]) == (ms % 1000) / 100
  {
    var clock := Clock.MinutesSeconds(ms / 1000);
    var r := clock + "." + DecimalString((ms % 1000) / 100);
    assert r[..|r| - 2] == clock;
  }

  lemma TenthsOf(ms: nat)
    ensures ms / 1000 == (ms / 100) / 10 && (ms % 1000) / 100 == (ms / 100) % 10
  {
    var q := ms / 100;
    assert ms == q * 100 + ms % 100;
    assert ms / 1000 == q / 10;
    TenthsSplit(ms);
  }
}
