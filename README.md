# EDL change list, modelled in Dafny

This project models `changelist.py`, a generator of change lists for video
editing. It reads two CMX 3600 Edit Decision Lists (EDLs), an old one and a
new one. It pairs their events by position and classifies each position as
unchanged, changed (trimmed), new or deleted. It then writes one
tab-separated line per added or changed event. The model covers four parts
of the program.

- **Timecodes** (`Timecode.dfy`, with `Text.dfy` for `int()`, `str()`,
  `%02d` and `split`). `HH:MM:SS:FF` text is converted to a frame count and
  back at a frame rate `fps`. Both round trips are proved.
- **Parser** (`Edl.dfy`). `EDLParser.parse` is a class with a `while` loop
  over the lines of a file. It is proved equal to a specification function,
  `ParseLines`. Lemmas about that function give:
  - one edit per event line, in order;
  - the fields the parser reads;
  - where a clip name comes from;
  - that the look-ahead consumes no line.
  `EdlLines.dfy` writes edits back out as CMX 3600 lines, and parsing those
  lines gives the edits back.
- **Comparator** (`Compare.dfy`). `compare_edls` is a `for` loop and
  `compute_trim_details` fills its record step by step. Both are proved
  equal to specification functions. The precedence of the cases, the trim
  figures and the head/tail rules are stated on those functions. Lemmas give
  the mirror image under swapping the two lists, and the behaviour of slips
  and of nested ranges.
- **Renderer** (`Render.dfy`). `frames_to_description` is proved to read back
  as whole seconds and remaining frames. The line-building loop of
  `output_change_list` is proved equal to `RenderSpec`, one optional line per
  change record. `ChangeList.dfy` states what the comparison and the renderer
  produce together. `Examples.dfy` works one trim example at 24 fps.

The details dictionary of a change record is the datatype `Compare.Details`.
The trim figures are a `TrimDetails` value whose head and tail changes are
`Option` fields. `ChangeType` is a datatype. `Edit.key()` is `Edl.Edit.Key`.
It has no contract of its own: `Compare.Classify` states that a position is
unchanged exactly when the two keys are equal.

Two points of the program that a reader may not expect:
- Event lines need at least three leading digits (`^\d{3,}`,
  changelist.py:75). A line starting with one or two digits is not an event.
- The time difference is the change in record length, new minus old
  (changelist.py:143-147). When only a source point moves and the record
  range stays put, it is 0, whatever the source points did.
  `Examples.PureTrimExample` works a two-second head trim of this kind.

## Model

| member | source | states |
|---|---|---|
| `Timecode.TcToFrames` | changelist.py:47-49 | `((h*60+m)*60+s)*fps+f` of the four numerals; never negative at a non-negative rate |
| `Timecode.ParseTc` | changelist.py:42-45 | the fixed-24 reading agrees with `tc_to_frames` at 24 fps on every four-field timecode |
| `Timecode.FramesToTc` | changelist.py:51-58 | the text is four `:`-separated numerals, with minutes and seconds below 60 and frames below `fps` |
| `Timecode.SubtractTc` | changelist.py:60-61 | the result is a timecode whose frame count is out minus in |
| `Timecode.FramesRoundTrip` | changelist.py:47-58 | reading back a written non-negative frame count gives the count |
| `Timecode.TimecodeRoundTrip` | changelist.py:47-58 | writing a read canonical timecode (two-digit fields, m, s < 60, f < fps) gives the same text |
| `Text.Split` | changelist.py:48 | `split(':')` never returns an empty list, no field holds the separator, and joining the fields gives the text back |
| `Text.SplitJoin` | changelist.py:48 | splitting undoes joining when no part contains the separator |
| `Text.NatToString` | changelist.py:58 | `str(n)` is a canonical numeral whose value is `n` |
| `Text.Pad2Value` | changelist.py:58 | `%02d` output is a numeral that `int()` reads back as the same value |
| `Text.IntToStringRoundTrip` | changelist.py:186-190 | `str(n)` of any integer is read back as `n`, and holds only digits and a minus sign |
| `Edl.Edit.DurationTc` | changelist.py:39-40 | the duration is a timecode whose frame count is source out minus source in at 24 fps |
| `Edl.Strip` | changelist.py:74 | definition of `str.strip()`; its properties are in the `Edl.StripSpec`, `Edl.TrimStartSpec` and `Edl.TrimEndSpec` rows |
| `Edl.StripSpec` | changelist.py:74 | `strip()` keeps a slice of the line with only whitespace before and after it, and the slice neither starts nor ends with whitespace |
| `Edl.TrimStartSpec` | changelist.py:74 | `strip()` drops exactly the leading run of whitespace |
| `Edl.TrimEndSpec` | changelist.py:74 | `strip()` drops exactly the trailing run of whitespace |
| `Edl.Words` | changelist.py:76 | definition of `str.split()`; its properties are in the `Edl.WordsAreWords` row |
| `Edl.WordsAreWords` | changelist.py:76 | `split()` gives every maximal run of non-space characters, in order: each field is a non-empty run of non-space characters, the fields joined are exactly the non-space characters of the line, there is one field per position where a word starts, and field `k` is the whole run that starts at the `k`-th such position and ends at whitespace or the end of the line |
| `Edl.FindClipNameSpec` | changelist.py:91-93 | a clip name is found iff the marker followed by a non-newline occurs; it is the non-empty text after the leftmost such marker, up to the line's end |
| `Edl.ReadEvent` | changelist.py:74-95 | one loop iteration yields exactly the edit (or nothing) that the line contributes to `ParseLines` |
| `Edl.EdlParser.constructor` | changelist.py:63-65 | the parser keeps the frame rate it is given |
| `Edl.EdlParser.Parse` | changelist.py:67-97 | the loop returns `ParseLines(lines)` |
| `Edl.ParseLinesOnePerEventLine` | changelist.py:72-97 | exactly one edit per event line (3+ leading digits, 8+ fields), in line order, each built from its own line and the next |
| `Edl.EditFields` | changelist.py:76-93 | the edit depends only on fields 0, 1, 4, 5, 6 and 7 and the clip name of the next line; fields 2, 3 and those past 7 are ignored |
| `Edl.ClipNameFromNextLine` | changelist.py:86-93 | the clip name is non-empty iff the immediately following line carries the marker with text after it, and it is that text |
| `Edl.LookaheadDoesNotConsume` | changelist.py:86-96 | two consecutive event lines give two consecutive edits: the look-ahead does not skip the next line |
| `EdlLines.EventLineIsEvent` | changelist.py:74-84 | a written event line is recognised as one and names no clip |
| `EdlLines.ClipLineReadBack` | changelist.py:86-93 | a written clip-name line is not an event line and yields its clip name |
| `EdlLines.ParseWritten` | changelist.py:67-97 | parsing the written lines of writable edits gives the same edits back, in order |
| `Compare.TrimDetailsOf` | changelist.py:130-181 | lengths are record out minus in, time difference is new minus old length, the source timecodes are copied, and a head or tail change is present iff that end moved in frames, with its direction from the sign |
| `Compare.ComputeTrimDetails` | changelist.py:130-181 | filling the details step by step gives `TrimDetailsOf` |
| `Compare.TrimDetailsSwap` | changelist.py:159-179 | exchanging old and new negates the time difference, exchanges the lengths and from/to, and turns every extension into a trim and back |
| `Compare.SlipMovesBothEnds` | changelist.py:159-179 | a slip of the source range reports both ends, one extended and one trimmed |
| `Compare.NestedRanges` | changelist.py:159-179 | a new range containing the old one reports only extensions; one inside it reports only trims |
| `Compare.Classify` | changelist.py:109-125 | record kinds in order of precedence (missing old, missing new, other reel, equal key, otherwise changed), with both edits kept as given and the details of each kind |
| `Compare.At` | changelist.py:106-107 | the edit at a position exactly when the position is inside the list |
| `Compare.CompareSpec` | changelist.py:103-107 | `max(len(old), len(new))` records, record `i` classifying `old[i]` against `new[i]` |
| `Compare.CompareEdls` | changelist.py:99-127 | the loop returns `CompareSpec` |
| `Compare.SelfCompareUnchanged` | changelist.py:118-120 | a list compared with itself is unchanged everywhere |
| `Compare.CompareSwap` | changelist.py:109-125 | swapping the lists keeps unchanged, changed and different-reel positions, turns end deletions into additions without an old edit, and mirrors trim details |
| `Render.FramesToDescription` | changelist.py:184-190 | definition of `frames_to_description`; its properties are in the `Render.DescriptionRead`, `Render.DescriptionRoundTrip` and `Render.DescriptionExamples` rows |
| `Render.DescriptionRead` | changelist.py:184-190 | the description reads back as exactly `frames // fps` whole seconds and `frames % fps` remaining frames |
| `Render.DescriptionRoundTrip` | changelist.py:184-190 | the description reads back as seconds and frames that make up the count with frames in `[0, fps)`; seconds are omitted iff `0 <= n < fps`; units are singular iff the count is 1 |
| `Render.DescriptionExamples` | changelist.py:184-190 | 24, 1, 0 and 62 frames at 24 fps read "1 second 0 frames", "1 frame", "0 frames", "2 seconds 14 frames" |
| `Render.DescriptionText` | changelist.py:218-241 | joined, the parts are the time-difference sentence, then the head sentence only if the head moved, the tail sentence only if the tail moved, and the length sentence only if the time difference is not 0 |
| `Render.EndChangeSentence` | changelist.py:228-235 | the sentence for a moved end is `EndPart` of that end: " HEAD" or " TAIL", "extended" or "trimmed" by its direction, and its from and to timecodes |
| `Render.BuildChangedDescription` | changelist.py:214-243 | the parts appended and joined give `ChangedDescription` |
| `Render.TimeDiffSentence` | changelist.py:221-241 | the description starts with "No time difference. Shifted within itself. " iff the time difference is 0, and the length sentence is present iff it is not |
| `Render.LineOf` | changelist.py:196-244 | no line for unchanged or deleted records; a magenta "New" line or a yellow "Changed" line at the record in of the new edit if present, else the old one |
| `Render.ReportedLine` | changelist.py:202-243 | the line written for one new or changed record is the line `LineOf` gives for it |
| `Render.ReportLineFields` | changelist.py:210 | a line is six tab-separated fields ending in `1`, then a newline |
| `Render.OutputChangeList` | changelist.py:192-244 | the writes of the loop are `RenderSpec` |
| `Render.OneLinePerReport` | changelist.py:195-244 | one line per new or changed record, in record order |
| `ChangeList.ComparedRenderable` | changelist.py:202-205 | every record the comparison produces can be rendered |
| `ChangeList.SameListWritesNothing` | changelist.py:118-120 | comparing a list with itself writes nothing |
| `ChangeList.TrailingDeletionsUnreported` | changelist.py:112-114 | edits removed from the end of the list produce no line |
| `ChangeList.AppendedEditsReported` | changelist.py:109-111 | edits appended to the end give one "New" line each, in order |
| `ChangeList.ReelSwapReported` | changelist.py:115-117 | an edit from another reel is reported as a "New" line for the new edit |
| `ChangeList.TrimReported` | changelist.py:122-125 | a same-reel edit with other source timecodes gives one "Changed" line described by its trim details |
| `Examples.PureTrimExample` | changelist.py:142-168 | moving the source in point two seconds later with the record range unchanged gives time difference 0 and a trimmed head |
| `Examples.PureTrimDescription` | changelist.py:221-243 | that change is described as no time difference followed by the head sentence |

## Left out

- File I/O. `parse` takes the file's lines as a sequence of strings, one per
  line, as `readlines` gives them. `output_change_list` returns the strings
  it would write, in order, instead of writing a file.
- The command-line entry point (argument handling, printing, exit codes).
- The regular-expression engine. `^\d{3,}` and
  `\* FROM CLIP NAME: (.+)` are explicit predicates with the same leftmost,
  up-to-newline behaviour.
- Non-ASCII whitespace and digits. `strip`, `split` and `\d` see only ASCII:
  the whitespace is characters 9-13, 28-31 and the space.
- `int()` leniency and failures. A timecode field is a non-empty run of
  ASCII digits. Signs, surrounding blanks and underscores are not modelled.
  Malformed timecodes are excluded by preconditions instead of raising:
  four fields for `tc_to_frames`, at least four for `parse_tc`.
- `Compare.CompareEdls`: requires readable timecodes only at the positions
  where the program computes trim details, that is, same reel and differing
  source text. Elsewhere the program reads no timecode.
- `Timecode.FramesToTc`: requires a non-negative frame count and a positive
  rate. `%02d` of a negative value is not modelled.
- `Timecode.SubtractTc`: requires the in point not to be after the out
  point, since the result goes through `Timecode.FramesToTc`. The program
  writes a negative duration with negative hours instead.
- `Edl.Edit.DurationTc`: requires the source in point not to be after the
  source out point, for the same reason.
- `Render.FramesToDescription`: requires a positive rate. A zero rate raises
  in the program, and a negative one uses Python's flooring for a negative
  divisor, which Dafny's `/` does not follow.
- `Render.OutputChangeList`: requires that every new or changed record has
  an edit. The program fails on such a record with neither edit, and the
  comparison never produces one.
- The `fps` kept by `EDLParser` is not used by parsing, in the program or in
  the model.
