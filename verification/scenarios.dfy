/**
 Worked inputs for the parser, the tap handler and the formatters, each
 proved in the model.
 */
module Scenarios {
  import opened Options
  import opened Strings
  import opened Lyrics
  import opened SongService
  import ManualSync
  import Recording
  import Clock

  /** A tag with a two-digit fraction: 1 min, 2 s and 50 hundredths give 62500 ms. */
  lemma TwoDigitFraction(line: string)
    requires line == "[1:02.50]hola"
    ensures ParseLine(line) == Some(LyricLine(62500, "hola", Both))
  {
    var t := Tag("1", "02", '.', "50");
    TimeOf1m02s50(t);
    HolaLine(line, t);
  }

  lemma HolaLine(line: string, t: Tag)
    requires line == "[1:02.50]hola" && t == Tag("1", "02", '.', "50")
    ensures ParseLine(line) == Some(LyricLine(TagTime(t), "hola", Both))
  {
    assert TagText(t) == "[1:02.50]";
    assert line[0..9] == TagText(t);
    assert Leftmost(line, 0, t);
    assert CutTag(line, 0, t) == [] + "hola" + [];
    TrimAround([], "hola", []);
    ParseLineLeftmost(line, 0, t);
    assert !IsBlank(CutTag(line, 0, t));
  }

  lemma TimeOf1m02s50(t: Tag)
    requires t == Tag("1", "02", '.', "50")
    ensures ValidTag(t) && TagTime(t) == 62500
  {
    assert DigitsValue(t.minutes) == 1;
    assert DigitsValue(t.seconds) == 2 by {
      assert t.seconds[..1] == "0";
    }
    assert DigitsValue(t.fraction) == 50 by {
      assert t.fraction[..1] == "5";
    }
  }

  /** A one-digit fraction is not a tag at all, so the line yields nothing. */
  lemma OneDigitFractionIgnored(line: string)
    requires line == "[1:02.5]hola"
    ensures ParseLine(line) == None
  {
    forall q: nat, u
      ensures !TagAt(line, q, u)
    {
      NoTagAt(line, q, u);
    }
  }

  /** Only position 0 holds a '[', and the fraction there has one digit. */
  lemma NoTagAt(line: string, q: nat, u: Tag)
    requires line == "[1:02.5]hola"
    ensures !TagAt(line, q, u)
  {
    if TagAt(line, q, u) {
      TagTextLayout(u);
      assert false;
    }
  }

  /** Only the leftmost tag is removed; a second tag stays in the text. */
  lemma OnlyFirstTagRemoved(line: string)
    requires line == "[00:01.00][00:02.00]x"
    ensures ParseLine(line) == Some(LyricLine(1000, "[00:02.00]x", Both))
  {
    var t := Tag("00", "01", '.', "00");
    TimeOf00m01s00(t);
    TwoTagLine(line, t);
  }

  lemma TwoTagLine(line: string, t: Tag)
    requires line == "[00:01.00][00:02.00]x" && t == Tag("00", "01", '.', "00")
    ensures ParseLine(line) == Some(LyricLine(TagTime(t), "[00:02.00]x", Both))
  {
    assert TagText(t) == "[00:01.00]";
    assert line[0..10] == TagText(t);
    assert Leftmost(line, 0, t);
    assert CutTag(line, 0, t) == [] + "[00:02.00]x" + [];
    TrimAround([], "[00:02.00]x", []);
    ParseLineLeftmost(line, 0, t);
    assert !IsBlank(CutTag(line, 0, t));
  }

  lemma TimeOf00m01s00(t: Tag)
    requires t == Tag("00", "01", '.', "00")
    ensures ValidTag(t) && TagTime(t) == 1000
  {
    assert DigitsValue(t.minutes) == 0 by {
      assert t.minutes[..1] == "0";
    }
    assert DigitsValue(t.seconds) == 1 by {
      assert t.seconds[..1] == "0";
    }
    assert DigitsValue(t.fraction) == 0 by {
      assert t.fraction[..1] == "0";
    }
  }

  /** A tag followed only by whitespace is dropped. */
  lemma BareTagDropped(line: string)
    requires line == "[0:01.00]   "
    ensures ParseLine(line) == None
  {
    var t := Tag("0", "01", '.', "00");
    assert TagText(t) == "[0:01.00]";
    assert line[0..9] == TagText(t);
    assert Leftmost(line, 0, t);
    assert IsBlank(CutTag(line, 0, t));
    ParseLineLeftmost(line, 0, t);
  }

  /** Only one leading speaker prefix is recognised, and the A test comes first. */
  lemma FirstPrefixOnly(line: string)
    requires line == "[A][B] x"
    ensures ManualSync.Attribute(line) == ManualSync.Attributed(A, "[B] x")
  {
    AfterPrefixA(line, "[B] x", []);
  }

  lemma PrefixWithSpace(line: string)
    requires line == "[A] Hola mundo"
    ensures ManualSync.Attribute(line) == ManualSync.Attributed(A, "Hola mundo")
  {
    AfterPrefixA(line, "Hola mundo", " ");
  }

  /** A line `[A]` + blanks + `rest` is sung by A and shows `rest`. */
  lemma AfterPrefixA(line: string, rest: string, w: string)
    requires IsBlank(w) && (rest == [] || !IsSpace(rest[0]))
    requires line == "[A]" + w + rest
    ensures ManualSync.Attribute(line) == ManualSync.Attributed(A, rest)
  {
    assert "[A]" <= line;
    assert line[3..] == w + rest;
    TrimStartAfterBlank(w, rest);
    assert ManualSync.StripPrefix(line, "[A]") == rest;
  }

  /** A prefix followed by nothing leaves an empty text, which the tap handler keeps. */
  lemma PrefixOnlyLine(line: string)
    requires line == "[A]"
    ensures ManualSync.Attribute(line) == ManualSync.Attributed(A, "")
  {
    assert "[A]" <= line;
    var r := ManualSync.Attribute(line);
    assert r.text == ManualSync.StripPrefix(line, "[A]");
    ManualSync.StripsToUnique(line, "[A]", r.text);
  }

  lemma NoPrefix(line: string)
    requires line == "Sin prefijo"
    ensures ManualSync.Attribute(line) == ManualSync.Attributed(Both, line)
  {
    assert line[0] == 'S';
    assert !("[A]" <= line) && !("[B]" <= line) && !("[Both]" <= line) by {
      assert "[A]"[0] != line[0] && "[B]"[0] != line[0] && "[Both]"[0] != line[0];
    }
    assert !("A:" <= line) && !("B:" <= line) && !("Ambos:" <= line) by {
      assert "A:"[0] != line[0] && "B:"[0] != line[0] && "Ambos:"[0] != line[0];
    }
  }

  /** 62.5 s shows as `1:02` on the recording screen and `1:02.5` on the sync screen. */
  lemma ClockTexts(ms: nat)
    requires ms == 62500
    ensures Recording.FormatTime(ms) == "1:02"
    ensures ManualSync.FormatTime(ms) == "1:02.5"
  {
    RecordingClock(ms);
    SyncClock(ms);
  }

  lemma RecordingClock(ms: nat)
    requires ms == 62500
    ensures Recording.FormatTime(ms) == "1:02"
  {
    assert Clock.PadSeconds(2) == "02";
    assert DecimalString(1) == "1";
  }

  lemma SyncClock(ms: nat)
    requires ms == 62500
    ensures ManualSync.FormatTime(ms) == "1:02.5"
  {
    RecordingClock(ms);
    assert Clock.MinutesSeconds(ms / 1000) == "1:02";
    assert DecimalString(5) == "5";
  }
}
