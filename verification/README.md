# SingSoulStar lyric core

A Dafny model of the small pure part of the SingSoulStar karaoke client.
The model covers three pieces:

- The LRC lyric parser `SongService.parseLrc`. It splits a lyric file into
  lines, reads the leftmost `[m:ss.xx]` timestamp tag of each line, turns the
  tag into milliseconds, cuts the tag out, trims the text, and stable-sorts the
  kept lines by time.
- The row range that `SongService.getSongs` asks the catalog for, given a page
  number and a page size.
- The manual sync screen as a state machine. The model covers:
  - the working line list, which is the raw lyrics without blank lines;
  - the `markLine` tap handler, which stamps the current line with the
    playback time and detects a speaker prefix (`[A]`/`A:`, `[B]`/`B:`,
    `[Both]`/`Ambos:`);
  - the end of the session, and the TAP LINE button that guards the handler;
  - the `m:ss.t` timer display.

It also covers the `m:ss` position display of the recording screen.

Modules:

- `Options`: `Option`.
- `Strings`: JavaScript whitespace, `trim`, `split` on one character, and decimal digit strings.
- `Lyrics`: the lyric entry `{ time, text, singer }` and the stable sort by time.
- `SongService`: tag matching, tag time, the per-line parse, `parseLrc`, and the `getSongs` range.
- `ManualSync`: the line filter, speaker attribution, the tap state machine, and `formatTime` (`m:ss.t`).
- `Clock`: the `m:ss` text that both screens build.
- `Recording`: `formatTime` (`m:ss`).
- `Scenarios`: worked inputs, each proved in the model.

The playback timer is an input to the tap handler. The screen's clock
(`Date.now`, `setInterval`) is not part of this model.

Two behaviours of the code are worth stating up front:

- A one-digit fraction such as `[0:00.5]` is not a tag, because the pattern at
  src/services/SongService.js:126 needs two or three fraction digits. So its
  line yields nothing (`Scenarios.OneDigitFractionIgnored`).
- The tap handler stamps a line that is only a prefix, such as `[A]`, with
  empty text (`Scenarios.PrefixOnlyLine`).

The JavaScript sort `lyrics.sort((a, b) => a.time - b.time)` is stable.
Stable sorting has been required by the language standard since ECMAScript
2019. The model sorts by insertion. `Lyrics.StableSortUnique` proves that any
two time-sorted sequences with the same entries per time, in the same order,
are equal. So the parser's output is the one any stable sort produces.

## Model

| member | source | states |
|---|---|---|
| SongService.ParseLrc | src/services/SongService.js:121-145 | Absent or empty content gives no entries. Otherwise there is at most one entry per `\r?\n` line. The output is sorted by time. Every entry is sung by Both, has non-empty trimmed text, and has a time of at most 99*60000+99*1000+999. The output holds exactly the per-line entries, and entries of equal time keep their file order. |
| SongService.ParseLrcIsStableSort | src/services/SongService.js:144 | Any time-sorted sequence that holds, for every time, the per-line entries in file order equals the parser's output: the parser is the stable sort. |
| SongService.LrcLines | src/services/SongService.js:123 | The file splits into one more line than it has '\n' characters. |
| SongService.LrcLinesOfJoin | src/services/SongService.js:123 | Lines joined by '\n' are read back as the same lines, except that a '\r' ending any line but the last is dropped: `split(/\r?\n/)`. |
| SongService.TryShape | src/services/SongService.js:126 | A candidate reading is reported only when it is a well-formed tag written at that position. |
| SongService.MatchAt | src/services/SongService.js:126 | Whatever the matcher reports at a position is a well-formed tag written there. |
| SongService.MatchAtComplete | src/services/SongService.js:126 | Every well-formed tag written at a position is the one the matcher reports there, so the matcher misses nothing. |
| SongService.ShapeFindsTag | src/services/SongService.js:126 | The alternative with a tag's own digit counts reads exactly that tag. |
| SongService.TagAtUnique | src/services/SongService.js:126 | At most one well-formed tag starts at any position. |
| SongService.FindTagFrom | src/services/SongService.js:129 | The search from position i returns the first position at or after i holding a tag, and that tag. It returns nothing only if no tag starts at or after i. |
| SongService.FindTag | src/services/SongService.js:129 | `exec` finds the leftmost tag of the line, or reports none only when the line holds no tag. |
| SongService.LeftmostUnique | src/services/SongService.js:129 | A line has one leftmost tag: same position, same groups. |
| SongService.PadFraction | src/services/SongService.js:133 | `padEnd(3, '0')`: three characters, the fraction first, then '0's. |
| SongService.TagTime | src/services/SongService.js:131-134 | A tag's time is minutes*60000 + seconds*1000 + the fraction in ms, with a two-digit fraction scaled by ten. The time is at most 99*60000+99*1000+999. |
| SongService.PaddedFraction | src/services/SongService.js:133 | `parseInt(fraction.padEnd(3, '0'), 10)` is the fraction's milliseconds: ten times a two-digit fraction, a three-digit fraction as it is. |
| SongService.TagFieldsBound | src/services/SongService.js:131-133 | Minutes and seconds are below 100 and the fraction's milliseconds below 1000. |
| SongService.FractionScale | src/services/SongService.js:133-134 | The ms field of the time is the fraction's ms (a two-digit fraction gives a multiple of 10). The whole seconds are minutes*60 + seconds. |
| SongService.CutTag | src/services/SongService.js:135 | `line.replace(timeRegex, '')`: removes the characters of the leftmost tag. It has no contract of its own; `SongService.CutTagRestores` states it. |
| SongService.CutTagRestores | src/services/SongService.js:135 | Writing the tag back where it was cut gives the line back, so exactly the tag's characters are removed and the rest keeps its order. |
| SongService.ParseLine | src/services/SongService.js:129-140 | A kept line gives singer Both, non-empty trimmed text and a bounded time. A line with no tag gives nothing. |
| SongService.ParseLineLeftmost | src/services/SongService.js:129-139 | A line's result is decided by its leftmost tag alone: nothing if the rest of the line is blank, otherwise the tag's time and the trimmed rest. Later tags stay in the text. |
| SongService.Entries | src/services/SongService.js:128-141 | At most one entry per line, each sung by Both with non-empty trimmed text. |
| SongService.EntriesAppend | src/services/SongService.js:128-141 | The entries of two runs of lines are those of the first run followed by those of the second, so entries keep file order. |
| SongService.PageRange | src/services/SongService.js:6-7 | The range holds exactly `limit` rows and starts at row (page-1)*limit. |
| SongService.PagesAdjacent | src/services/SongService.js:6-7 | Page p+1 starts on the row after page p ends. |
| SongService.PagesPartitionRows | src/services/SongService.js:6-7 | With limit >= 1, row n >= 0 lies on page p >= 1 exactly when p == n / limit + 1. |
| SongService.DefaultFirstPage | src/services/SongService.js:4-7 | The default call (page 1, limit 20) asks for rows 0 through 19. |
| Lyrics.InsertByTime | src/services/SongService.js:144 | Insertion adds exactly one entry: one more element, and the same multiset plus the new entry. |
| Lyrics.InsertSorted | src/services/SongService.js:144 | Insertion into a time-sorted sequence keeps it sorted. |
| Lyrics.InsertLowerBound | src/services/SongService.js:144 | Inserting an entry no earlier than a bound among entries no earlier than it keeps every entry no earlier than it. |
| Lyrics.InsertAtTime | src/services/SongService.js:144 | The inserted entry goes in front of the entries of its own time, and every other time's entries are unchanged. |
| Lyrics.SortByTime | src/services/SongService.js:144 | The result is sorted by time, a permutation of the input, and keeps the input order within each time. |
| Lyrics.StableSortUnique | src/services/SongService.js:144 | Two sorted sequences with the same entries in the same order at every time are equal. |
| Lyrics.SortSortedIdentity | src/services/SongService.js:144 | Sorting an already sorted track changes nothing. |
| Lyrics.AtTimeMembers | src/services/SongService.js:144 | The entries of one time are entries of the track carrying that time. |
| Strings.Trim | src/services/SongService.js:135 | `trim` returns the part of the line after its leading whitespace and before a blank suffix. That part neither starts nor ends with whitespace, and it is empty exactly when the line is blank. |
| Strings.TrimAround | src/services/SongService.js:135 | Trimming whitespace + m + whitespace gives m whenever m has no whitespace at either end. |
| Strings.TrimIdempotent | src/services/SongService.js:135 | Trimming twice is trimming once. |
| Strings.TrimEnd | src/services/SongService.js:135 | The result is a prefix of the input before a blank suffix, and it does not end with whitespace. |
| Strings.TrimStart | src/screens/ManualSyncScreen.js:48 | The `\s*` removal after a speaker prefix. It has no contract of its own; `Strings.TrimStartSpec` and `Strings.TrimStartAfterBlank` state it. |
| Strings.TrimStartSpec | src/screens/ManualSyncScreen.js:48 | `\s*` removal leaves the suffix after a blank prefix, and that suffix does not start with whitespace. |
| Strings.TrimStartAfterBlank | src/screens/ManualSyncScreen.js:48 | Removing leading whitespace from w + x gives x when w is blank and x does not start with whitespace. |
| Strings.Split | src/screens/ManualSyncScreen.js:12 | `split('\n')` gives one more piece than there are separators. No piece holds the separator, and joining the pieces gives the input back. |
| Strings.SplitJoin | src/screens/ManualSyncScreen.js:12 | Splitting a join of separator-free pieces gives the pieces back. |
| Strings.CountAppend | src/screens/RecordingScreen.js:114 | A character's count in a concatenation is the sum of its counts in the parts. |
| Strings.DigitsValueBound | src/services/SongService.js:131-133 | `parseInt` of k digits is below 10^k. |
| Strings.DigitsValueAppendZero | src/services/SongService.js:133 | Appending a '0' digit multiplies the value by ten. |
| Strings.DecimalString | src/screens/RecordingScreen.js:114 | `${n}` writes a canonical numeral worth n, one character long exactly when n < 10. |
| Strings.DecimalStringOfValue | src/screens/RecordingScreen.js:114 | Writing the value of a canonical numeral gives the numeral back. |
| Clock.PadSeconds | src/screens/RecordingScreen.js:114 | The seconds field is two digits worth `seconds`, with a leading '0' exactly when seconds < 10. |
| Clock.MinutesSeconds | src/screens/RecordingScreen.js:111-114 | The text is an unpadded minute numeral, one ':', and a two-digit seconds field below 60, together worth `totalSeconds`. |
| Clock.MinutesSecondsInjective | src/screens/RecordingScreen.js:111-114 | Two second counts give the same text exactly when they are equal. |
| Clock.NoColonInDigits | src/screens/RecordingScreen.js:114 | A digit string holds no ':'. |
| Recording.FormatTime | src/screens/RecordingScreen.js:110-115 | The display shows minutes*60 + seconds == floor(ms/1000), with seconds below 60 in two digits (leading '0' exactly below 10) and exactly one ':'. |
| Recording.FormatTimeSameSecond | src/screens/RecordingScreen.js:110-115 | Two positions show the same text exactly when they fall in the same whole second. |
| Recording.FormatTimeWholeSeconds | src/screens/RecordingScreen.js:111 | Sub-second precision is discarded: formatTime(ms) == formatTime(1000*floor(ms/1000)). |
| ManualSync.Kept | src/screens/ManualSyncScreen.js:12 | The filter's test `l.trim() !== ''` keeps a line exactly when it is not all whitespace. |
| ManualSync.DropBlank | src/screens/ManualSyncScreen.js:12 | The filter keeps no blank line and never lengthens the list. |
| ManualSync.DropBlankMember | src/screens/ManualSyncScreen.js:12 | A line survives the filter exactly when it is in the input and is not blank. |
| ManualSync.DropBlankAppend | src/screens/ManualSyncScreen.js:12 | Filtering distributes over concatenation, so surviving lines keep their input order. |
| ManualSync.DropBlankKeepsLines | src/screens/ManualSyncScreen.js:12 | A list without blank lines passes the filter unchanged. |
| ManualSync.DropBlankIdempotent | src/screens/ManualSyncScreen.js:12 | Filtering twice is filtering once. |
| ManualSync.WorkingLines | src/screens/ManualSyncScreen.js:12 | The working lines are non-blank, hold no '\n', and number at most one more than the '\n' count. |
| ManualSync.WorkingLinesOfJoin | src/screens/ManualSyncScreen.js:12 | Raw lyrics written as lines joined by '\n' give back exactly the non-blank lines, in order. |
| ManualSync.FirstPrefixFrom | src/screens/ManualSyncScreen.js:46-55 | The prefix found is the first one in test order that the line starts with; nothing is found only if the line starts with none. |
| ManualSync.StripPrefix | src/screens/ManualSyncScreen.js:48 | `replace(/^(pre)\s*/, '')` for a line that starts with `pre`. It has no contract of its own; `ManualSync.StripPrefixSpec` and `ManualSync.StripsToUnique` state it. |
| ManualSync.StripPrefixSpec | src/screens/ManualSyncScreen.js:48 | `replace(/^(pre)\s*/, '')` leaves the rest of the line after the prefix and the whitespace following it. The text left does not start with whitespace. |
| ManualSync.StripsToUnique | src/screens/ManualSyncScreen.js:48 | That decomposition fixes the text: it is the rest after the prefix with leading whitespace removed. |
| ManualSync.AttributeFrom | src/screens/ManualSyncScreen.js:43-55 | The prefix test as a walk over the prefix table. It has no contract of its own; `ManualSync.AttributeByTable` states it. |
| ManualSync.Attribute | src/screens/ManualSyncScreen.js:43-55 | The singer and text the handler gives a line. It has no contract of its own; `ManualSync.AttributeIfChain`, `ManualSync.AttributeSinger` and `ManualSync.StampLineByTable` state it. |
| ManualSync.AttributeIfChain | src/screens/ManualSyncScreen.js:43-55 | Attribution is the handler's if/else-if chain: `[A]`/`A:` give A, else `[B]`/`B:` give B, else `[Both]`/`Ambos:` give Both, each with the prefix stripped. Any other line is Both with its text unchanged. |
| ManualSync.AttributeSinger | src/screens/ManualSyncScreen.js:46-52 | Singer A exactly when the line starts with `[A]` or `A:`. Singer B exactly when it starts with neither but with `[B]` or `B:`. |
| ManualSync.AttributeByTable | src/screens/ManualSyncScreen.js:45-55 | The first matching prefix names the singer, and only that one prefix (with its following whitespace) is removed. A line with no prefix is Both and unchanged. |
| ManualSync.StampLineByTable | src/screens/ManualSyncScreen.js:43-61 | A stamp carries the tap's time. If the line starts with a prefix of the table, the first such prefix names the singer, and the text is the rest of the line after that prefix and the whitespace following it. A line with no prefix is stamped unchanged, for Both. |
| ManualSync.Open | src/screens/ManualSyncScreen.js:12-15 | The screen opens with exactly the working lines of the raw lyrics (`split('\n')` then the blank filter), none of them blank, with no entries, index 0 and the music stopped. |
| ManualSync.TogglePlay | src/screens/ManualSyncScreen.js:21-33 | The play button flips `isPlaying` and changes nothing else in the model state. |
| ManualSync.MarkLine | src/screens/ManualSyncScreen.js:35-70 | `markLine` with the elapsed time as input. It has no contract of its own; `ManualSync.MarkLineCases` and `ManualSync.MarkLineInv` state it. |
| ManualSync.MarkLineCases | src/screens/ManualSyncScreen.js:35-70 | Not playing: nothing changes. Lines left: one stamp of the current line at `timer` is appended, earlier entries are kept, and the index grows by one. Past the last line: the music stops and the track is handed over unchanged. |
| ManualSync.MarkLineInv | src/screens/ManualSyncScreen.js:41-63 | A tap keeps `|syncedLyrics| == currentLineIndex <= |lines|`, with every entry the stamp of its own line. |
| ManualSync.Stamps | src/screens/ManualSyncScreen.js:57-63 | A run of taps makes one entry per tap. |
| ManualSync.StampsAt | src/screens/ManualSyncScreen.js:57-63 | Entry i of a run of taps is the stamp of the i-th next line at the i-th tap's time. |
| ManualSync.StampsTimes | src/screens/ManualSyncScreen.js:57-58 | Each entry of a run of taps carries its own tap's time. |
| ManualSync.ReplayStamps | src/screens/ManualSyncScreen.js:41-63 | While lines remain, a run of taps appends exactly the stamps of the next lines, in order, and keeps playing. |
| ManualSync.TapEveryLine | src/screens/ManualSyncScreen.js:35-70 | From a playing, untapped state, one tap per line leaves the lines unchanged and makes entry i the stamp of line i at tap i's time. The track is sorted when the tap times do not decrease, and the next call of the handler finishes with that track (a call the button as written refuses; see Findings). |
| ManualSync.StampsEachLine | src/screens/ManualSyncScreen.js:41-63 | Taps from the first line make entry i the stamp of line i at tap i's time. |
| ManualSync.StampsSorted | src/screens/ManualSyncScreen.js:57-62 | Taps at non-decreasing times give a track sorted by time. |
| ManualSync.FullSession | src/screens/ManualSyncScreen.js:12-70 | Open, play, then tap once per line at non-decreasing times: the lines are the working lines of the raw lyrics, entry i is the stamp of line i at tap i's time, and the track is sorted by time. A further call of the handler stops and hands over exactly that track; the button as written does not allow that call (see Findings). |
| ManualSync.AfterFinish | src/screens/ManualSyncScreen.js:64-67 | After a call of the handler's finishing branch, the music is stopped, the track is kept, and a further tap does nothing. |
| ManualSync.ButtonEnabled | src/screens/ManualSyncScreen.js:137 | The TAP LINE button accepts a press only while the music plays and a line remains. |
| ManualSync.EnabledPressStamps | src/screens/ManualSyncScreen.js:134-137 | Every press the button lets through stamps a line; none reaches the finishing branch. |
| ManualSync.PressAllNeverSaves | src/screens/ManualSyncScreen.js:64-68 | As written, no run of presses ever reaches the finishing branch, so `saveSong` is never called. |
| ManualSync.PressAllFixedSaves | src/screens/ManualSyncScreen.js:64-68 | If the button works whenever the music plays, more presses than lines left finish the session. |
| ManualSync.SessionSave | src/screens/ManualSyncScreen.js:64-68 | Open, play, press once per line and once more: as written nothing is saved; with the intended button test the track is saved. |
| ManualSync.FormatTime | src/screens/ManualSyncScreen.js:152-158 | `m:ss.t`: minutes*60 + seconds == floor(ms/1000), seconds below 60 in two digits, and the tenths digit == floor((ms % 1000)/100). Together they give floor(ms/100). |
| ManualSync.FormatTimeSameTenth | src/screens/ManualSyncScreen.js:152-158 | Two positions show the same text exactly when they fall in the same tenth of a second. |
| ManualSync.TenthsSplit | src/screens/ManualSyncScreen.js:153-156 | Whole seconds * 10 + the tenths digit == floor(ms/100). |
| ManualSync.TenthsOf | src/screens/ManualSyncScreen.js:153-156 | Whole seconds and the tenths digit are read off floor(ms/100). |
| Scenarios.TwoDigitFraction | src/services/SongService.js:126-138 | `[1:02.50]hola` gives one entry at 62500 ms with text `hola`, sung by Both. |
| Scenarios.OneDigitFractionIgnored | src/services/SongService.js:126 | `[1:02.5]hola` holds no tag, so it gives nothing. |
| Scenarios.OnlyFirstTagRemoved | src/services/SongService.js:135 | `[00:01.00][00:02.00]x` gives time 1000 and text `[00:02.00]x`. |
| Scenarios.BareTagDropped | src/services/SongService.js:135-137 | The line `[0:01.00]` followed by three spaces gives nothing. The general fact is `SongService.ParseLineLeftmost`. |
| Scenarios.FirstPrefixOnly | src/screens/ManualSyncScreen.js:46-48 | `[A][B] x` is sung by A with text `[B] x`. |
| Scenarios.PrefixWithSpace | src/screens/ManualSyncScreen.js:46-48 | `[A] Hola mundo` is sung by A with text `Hola mundo`. |
| Scenarios.AfterPrefixA | src/screens/ManualSyncScreen.js:46-48 | `[A]` + whitespace + text not starting with whitespace is sung by A and shows that text. |
| Scenarios.PrefixOnlyLine | src/screens/ManualSyncScreen.js:48 | `[A]` alone is sung by A with empty text. |
| Scenarios.NoPrefix | src/screens/ManualSyncScreen.js:46-55 | The line `Sin prefijo` is Both with its text unchanged. The general fact is `ManualSync.AttributeByTable`. |
| Scenarios.RecordingClock | src/screens/RecordingScreen.js:110-115 | 62500 ms shows as `1:02`. |
| Scenarios.SyncClock | src/screens/ManualSyncScreen.js:152-158 | 62500 ms shows as `1:02.5`. |
| Scenarios.ClockTexts | src/screens/RecordingScreen.js:110-115 | 62500 ms shows as `1:02` on the recording screen and `1:02.5` on the sync screen. |

## Left out

- Supabase I/O is not modelled: the catalog query in `getSongs` and its error fallback, `searchSongs`, `uploadSong` and its storage calls, and `saveSong`. These are network calls into a client library outside this model. src/lib/supabase.js is not part of this model.
- The screen's wall clock (`Date.now`, `setInterval`, `clearInterval` in `togglePlay`) is not modelled. The elapsed time reaches `markLine` as its `timer` input.
- The finishing tap calls `saveSong`. The model stops at the `Finished` outcome, which carries the track that would be saved.
- Taps are modelled as strictly one after another, each seeing the state the previous one left. Two taps before React re-renders would both read the same stale `syncedLyrics` and `currentLineIndex`, and only one stamp would survive. That interleaving is not modelled.
- The screen's instruction text and line highlighting are not modelled.
- `Alert.alert` is not modelled. The model's `NotPlaying` outcome stands for the alert.
- Audio, camera and permissions on the recording screen, `handlePublish`, React rendering, navigation, styles and the registration form are not modelled. They are UI or foreign calls with no logic of their own to state.
- Strings.IsSpace: covers the ASCII whitespace of `trim` and `\s` (space, tab, line feed, carriage return, vertical tab, form feed). It leaves out the Unicode spaces (no-break space, line and paragraph separators, byte-order mark and the other space separators), because Dafny strings here carry no Unicode classes.
- SongService.PageRange: takes whole-number `page` and `limit`. The JavaScript arithmetic on non-integer or non-numeric arguments, which would be floating point, is not modelled.
- Recording.FormatTime and ManualSync.FormatTime: take a non-negative whole number of milliseconds, which is what the player position and the sync timer supply. Negative or fractional inputs are not modelled.
- `parseInt` and the time arithmetic are modelled on unbounded integers. A tag denotes at most 6,039,999 ms, far inside the exact range of a JavaScript number, so nothing is lost.

## Findings

| source | as written | input that shows it | evidently intended | confidence | as-written member | corrected member |
|---|---|---|---|---|---|---|
| src/screens/ManualSyncScreen.js:137 | The TAP LINE button is disabled once `currentLineIndex >= lines.length`, and `markLine` is its only `onPress`. So the finishing branch of `markLine` (:64-68), the only call of `saveSong`, can never run, and the synced track is never uploaded. The screen then shows "All lines synced! Saving..." (:126) forever. | Any lyrics: open the screen, press play, press TAP LINE once per line and once more. The last press is refused. | The button stays enabled while the music plays, so the tap after the last line saves the track. | medium, not executed | ManualSync.PressAllNeverSaves | ManualSync.PressAllFixedSaves |
