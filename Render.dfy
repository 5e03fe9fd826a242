/**
 * The change list as text: the human-readable length of a frame count, and
 * one tab-separated line per added or changed edit.
 */
module Render {
  import opened Wrappers
  import opened Text
  import opened Collect
  import opened Edl
  import opened Compare
  import Timecode

  // ---------------------------------------------------------------------------
  // Lengths in words

  /** The plural suffix: "s" for every count but one. */
  function Plural(k: int): string
  {
    if k != 1 then "s" else ""
  }

  /** A count with its unit, such as "1 frame" or "14 frames". */
  function Count(k: int, unit: string): string
  {
    IntToString(k) + " " + unit + Plural(k)
  }

  /**
   * `frames_to_description`: whole seconds and remaining frames, with floor
   * division, the seconds left out when there are none.
   */
  function FramesToDescription(frames: int, fps: int): string
    requires fps > 0
  {
    var seconds, remaining := frames / fps, frames % fps;
    if seconds == 0 then Count(remaining, "frame")
    else Count(seconds, "second") + " " + Count(remaining, "frame")
  }

  predicate IsUnit(w: string, unit: string)
  {
    w == unit || w == unit + "s"
  }

  /** Reading a description back: the seconds (0 when left out) and the frames. */
  function ReadDescription(desc: string): Option<(int, int)>
  {
    var w := Split(desc, ' ');
    if |w| == 2 && IsIntText(w[0]) && IsUnit(w[1], "frame") then
      Some((0, ReadInt(w[0])))
    else if |w| == 4 && IsIntText(w[0]) && IsUnit(w[1], "second") && IsIntText(w[2]) && IsUnit(w[3], "frame") then
      Some((ReadInt(w[0]), ReadInt(w[2])))
    else
      None
  }

  lemma NoSpaceInNumber(k: int)
    ensures ' ' !in IntToString(k) && '\t' !in IntToString(k) && '\n' !in IntToString(k)
    ensures IsIntText(IntToString(k)) && ReadInt(IntToString(k)) == k
  {
    IntToStringRoundTrip(k);
  }

  lemma CountWords(k: int, unit: string)
    ensures Count(k, unit) == Join([IntToString(k), unit + Plural(k)], ' ')
  {
  }

  /** `split(' ')` of a count gives the number and the unit. */
  lemma CountSplit(k: int, unit: string)
    requires ' ' !in unit
    ensures Split(Count(k, unit), ' ') == [IntToString(k), unit + Plural(k)]
  {
    NoSpaceInNumber(k);
    CountWords(k, unit);
    SplitJoin([IntToString(k), unit + Plural(k)], ' ');
  }

  /** `split(' ')` of two counts joined by a space gives both numbers and units. */
  lemma CountsSplit(j: int, u1: string, k: int, u2: string)
    requires ' ' !in u1 && ' ' !in u2
    ensures Split(Count(j, u1) + " " + Count(k, u2), ' ')
      == [IntToString(j), u1 + Plural(j), IntToString(k), u2 + Plural(k)]
  {
    NoSpaceInNumber(j);
    NoSpaceInNumber(k);
    var a, u, b, v := IntToString(j), u1 + Plural(j), IntToString(k), u2 + Plural(k);
    var parts := [a, u, b, v];
    assert Count(j, u1) + " " + Count(k, u2) == Join(parts, ' ') by {
      CountWords(j, u1);
      CountWords(k, u2);
      assert Join(parts, ' ') == a + [' '] + (u + [' '] + (b + [' '] + v));
    }
    SplitJoin(parts, ' ');
  }

  /** The words of a description: the seconds and their unit unless there are none, then the frames and theirs. */
  lemma DescriptionWords(frames: int, fps: int)
    requires fps > 0
    ensures var seconds, remaining := frames / fps, frames % fps;
      Split(FramesToDescription(frames, fps), ' ')
      == (if seconds == 0 then [] else [IntToString(seconds), "second" + Plural(seconds)])
        + [IntToString(remaining), "frame" + Plural(remaining)]
  {
    var seconds, remaining := frames / fps, frames % fps;
    if seconds == 0 {
      CountSplit(remaining, "frame");
    } else {
      CountsSplit(seconds, "second", remaining, "frame");
    }
  }

  /** A description reads back as its whole seconds and remaining frames. */
  lemma DescriptionRead(frames: int, fps: int)
    requires fps > 0
    ensures ReadDescription(FramesToDescription(frames, fps)) == Some((frames / fps, frames % fps))
  {
    var seconds, remaining := frames / fps, frames % fps;
    NoSpaceInNumber(seconds);
    NoSpaceInNumber(remaining);
    DescriptionWords(frames, fps);
    var w := Split(FramesToDescription(frames, fps), ' ');
    if seconds == 0 {
      assert |w| == 2 && IsUnit(w[1], "frame");
    } else {
      assert |w| == 4 && IsUnit(w[1], "second") && IsUnit(w[3], "frame");
    }
  }

  /**
   * A description reads back as seconds and frames that make up the count,
   * with the frames below one second's worth; the seconds are left out
   * exactly when the count is less than a second and not negative, and each
   * unit is singular exactly when its count is one.
   */
  lemma DescriptionRoundTrip(frames: int, fps: int)
    requires fps > 0
    ensures var r := ReadDescription(FramesToDescription(frames, fps));
      && r.Some? && r.value.0 * fps + r.value.1 == frames && 0 <= r.value.1 < fps
    ensures var w := Split(FramesToDescription(frames, fps), ' ');
      && (|w| == 2 <==> 0 <= frames < fps)
      && (w[|w| - 1] == "frame" <==> frames % fps == 1)
      && (|w| == 4 ==> (w[1] == "second" <==> frames / fps == 1))
  {
    Timecode.Euclid(frames, fps);
    if 0 <= frames < fps {
      Timecode.DivModUnique(frames, fps, 0, frames);
    }
    DescriptionRead(frames, fps);
    DescriptionWords(frames, fps);
    var w := Split(FramesToDescription(frames, fps), ' ');
    assert w[|w| - 1] == "frame" + Plural(frames % fps);
    assert (|w| == 2 <==> frames / fps == 0) && (|w| == 4 ==> w[1] == "second" + Plural(frames / fps));
  }

  lemma OneSecondExample()
    ensures FramesToDescription(24, 24) == "1 second 0 frames"
  {
    assert NatToString(1) == "1" && NatToString(0) == "0";
    assert Count(1, "second") == "1 second" && Count(0, "frame") == "0 frames";
  }

  lemma OneFrameExample()
    ensures FramesToDescription(1, 24) == "1 frame"
  {
    assert NatToString(1) == "1";
  }

  lemma NoFramesExample()
    ensures FramesToDescription(0, 24) == "0 frames"
  {
    assert NatToString(0) == "0";
  }

  lemma SecondsAndFramesExample()
    ensures FramesToDescription(62, 24) == "2 seconds 14 frames"
  {
    assert 62 / 24 == 2 && 62 % 24 == 14;
    assert FramesToDescription(62, 24) == Count(2, "second") + " " + Count(14, "frame");
    assert IntToString(2) == "2";
    assert IntToString(14) == "14" by {
      assert NatToString(14) == NatToString(1) + [DigitChar(4)];
    }
  }

  /** Whole seconds, a single frame, no frames at all, and seconds with frames, at 24 fps. */
  lemma DescriptionExamples()
    ensures FramesToDescription(24, 24) == "1 second 0 frames"
    ensures FramesToDescription(1, 24) == "1 frame"
    ensures FramesToDescription(0, 24) == "0 frames"
    ensures FramesToDescription(62, 24) == "2 seconds 14 frames"
  {
    OneSecondExample();
    OneFrameExample();
    NoFramesExample();
    SecondsAndFramesExample();
  }

  // ---------------------------------------------------------------------------
  // The description of a changed edit

  const NO_TIME_DIFFERENCE: string := "No time difference. Shifted within itself. "

  /** The opening sentence: the record length change, or the note that there is none. */
  function TimeDiffPart(td: int): string
  {
    if td == 0 then NO_TIME_DIFFERENCE else TimeDifferenceSentence(td)
  }

  function TimeDifferenceSentence(td: int): string
  {
    "Time difference " + IntToString(td) + " frames  [" + IntToString(td) + " frames]."
  }

  function DirectionWord(d: Direction): string
  {
    if d == Extended then "extended" else "trimmed"
  }

  function EndSentence(tag: string, action: string, fromTc: string, toTc: string): string
  {
    " " + tag + " " + action + " from " + fromTc + " to " + toTc + "."
  }

  /** The sentence for a moved end, or nothing when that end did not move. */
  function EndPart(tag: string, c: Option<EndChange>): string
  {
    match c
    case None => ""
    case Some(ch) => EndSentence(tag, DirectionWord(ch.direction), ch.fromTc, ch.toTc)
  }

  function LengthSentence(oldLenStr: string, oldLength: int, newLenStr: string, newLength: int): string
  {
    " Old length: " + oldLenStr + " [" + IntToString(oldLength) + " frames]"
    + " - New length: " + newLenStr + " [" + IntToString(newLength) + " frames]"
  }

  /** The old and new record lengths, given only when the length changed. */
  function LengthPart(t: TrimDetails, fps: int): string
    requires t.timeDiffFrames != 0 ==> fps > 0
  {
    if t.timeDiffFrames == 0 then ""
    else LengthSentence(FramesToDescription(t.oldLengthFrames, fps), t.oldLengthFrames,
      FramesToDescription(t.newLengthFrames, fps), t.newLengthFrames)
  }

  /**
   * The parts of a changed edit's description, in order: the time-difference
   * sentence, a sentence for each moved end, and the lengths when the length
   * changed.
   */
  function DescriptionParts(t: TrimDetails, fps: int): seq<string>
    requires t.timeDiffFrames != 0 ==> fps > 0
  {
    [TimeDiffPart(t.timeDiffFrames)]
    + (if t.head.Some? then [EndPart("HEAD", t.head)] else [])
    + (if t.tail.Some? then [EndPart("TAIL", t.tail)] else [])
    + (if t.timeDiffFrames != 0 then [LengthPart(t, fps)] else [])
  }

  /** The description of a changed edit: the joined parts, then the clip name in parentheses. */
  function ChangedDescription(t: TrimDetails, clipName: string, fps: int): string
    requires t.timeDiffFrames != 0 ==> fps > 0
  {
    Concat(DescriptionParts(t, fps)) + " (" + clipName + ")"
  }

  /** Joined, the parts are the four sentences in order, an absent one contributing nothing. */
  lemma DescriptionText(t: TrimDetails, fps: int)
    requires t.timeDiffFrames != 0 ==> fps > 0
    ensures Concat(DescriptionParts(t, fps))
      == TimeDiffPart(t.timeDiffFrames) + EndPart("HEAD", t.head) + EndPart("TAIL", t.tail) + LengthPart(t, fps)
  {
    ConcatOptional(TimeDiffPart(t.timeDiffFrames), EndPart("HEAD", t.head), EndPart("TAIL", t.tail), LengthPart(t, fps),
      t.head.Some?, t.tail.Some?, t.timeDiffFrames != 0);
  }

  /** A first part followed by three optional ones joins to all four, an absent one being empty. */
  lemma ConcatOptional(a: string, b: string, c: string, d: string, hasB: bool, hasC: bool, hasD: bool)
    requires (!hasB ==> b == "") && (!hasC ==> c == "") && (!hasD ==> d == "")
    ensures Concat([a] + (if hasB then [b] else []) + (if hasC then [c] else []) + (if hasD then [d] else []))
      == a + b + c + d
  {
    var p0 := [a];
    ConcatAppend([], a);
    assert [] + [a] == p0;
    var p1 := p0 + (if hasB then [b] else []);
    if hasB {
      ConcatAppend(p0, b);
    } else {
      assert p1 == p0 && a + b == a;
    }
    assert Concat(p1) == a + b;
    var p2 := p1 + (if hasC then [c] else []);
    if hasC {
      ConcatAppend(p1, c);
    } else {
      assert p2 == p1 && a + b + c == a + b;
    }
    assert Concat(p2) == a + b + c;
    var p3 := p2 + (if hasD then [d] else []);
    if hasD {
      ConcatAppend(p2, d);
    } else {
      assert p3 == p2 && a + b + c + d == a + b + c;
    }
  }

  /** The sentence for one moved end: whether it was extended or trimmed, and from where to where. */
  method EndChangeSentence(tag: string, c: EndChange) returns (sentence: string)
    ensures sentence == EndPart(tag, Some(c))
  {
    var action := if c.direction == Extended then "extended" else "trimmed";
    sentence := EndSentence(tag, action, c.fromTc, c.toTc);
  }

  /** The description of a changed edit, built part by part. */
  method BuildChangedDescription(t: TrimDetails, clipName: string, fps: int) returns (description: string)
    requires t.timeDiffFrames != 0 ==> fps > 0
    ensures description == ChangedDescription(t, clipName, fps)
  {
    var descParts: seq<string> := [];
    var timeDiff := t.timeDiffFrames;
    if timeDiff == 0 {
      descParts := descParts + [NO_TIME_DIFFERENCE];
    } else {
      descParts := descParts + [TimeDifferenceSentence(timeDiff)];
    }
    ghost var expected := [TimeDiffPart(timeDiff)];
    assert descParts == expected;
    if t.head.Some? {
      var sentence := EndChangeSentence("HEAD", t.head.value);
      descParts := descParts + [sentence];
    }
    expected := expected + (if t.head.Some? then [EndPart("HEAD", t.head)] else []);
    assert descParts == expected;
    if t.tail.Some? {
      var sentence := EndChangeSentence("TAIL", t.tail.value);
      descParts := descParts + [sentence];
    }
    expected := expected + (if t.tail.Some? then [EndPart("TAIL", t.tail)] else []);
    assert descParts == expected;
    if timeDiff != 0 {
      var oldLenStr := FramesToDescription(t.oldLengthFrames, fps);
      var newLenStr := FramesToDescription(t.newLengthFrames, fps);
      var sentence := LengthSentence(oldLenStr, t.oldLengthFrames, newLenStr, t.newLengthFrames);
      descParts := descParts + [sentence];
    }
    expected := expected + (if timeDiff != 0 then [LengthPart(t, fps)] else []);
    assert descParts == DescriptionParts(t, fps);
    description := Concat(descParts) + " (" + clipName + ")";
  }

  /**
   * The opening sentence of a changed edit's description says there is no
   * time difference exactly when the record length is unchanged, and the
   * old and new lengths are given exactly when it changed.
   */
  lemma TimeDiffSentence(t: TrimDetails, clipName: string, fps: int)
    requires t.timeDiffFrames != 0 ==> fps > 0
    ensures var desc := ChangedDescription(t, clipName, fps);
      && (t.timeDiffFrames == 0 <==> |desc| >= |NO_TIME_DIFFERENCE| && desc[..|NO_TIME_DIFFERENCE|] == NO_TIME_DIFFERENCE)
      && (t.timeDiffFrames != 0 <==> |LengthPart(t, fps)| > 0)
  {
    DescriptionText(t, fps);
    var first := TimeDiffPart(t.timeDiffFrames);
    PrefixOfSeven(first, EndPart("HEAD", t.head), EndPart("TAIL", t.tail), LengthPart(t, fps), " (", clipName, ")");
    var desc := ChangedDescription(t, clipName, fps);
    if t.timeDiffFrames != 0 {
      assert first[0] == 'T' && NO_TIME_DIFFERENCE[0] == 'N';
      assert desc[0] == first[0];
    }
  }

  /** Text built by appending six strings to `a` starts with `a`. */
  lemma PrefixOfSeven(a: string, b: string, c: string, d: string, e: string, f: string, g: string)
    ensures |a + b + c + d + e + f + g| >= |a| && (a + b + c + d + e + f + g)[..|a|] == a
  {
    KeepsPrefix(a, b, a);
    KeepsPrefix(a + b, c, a);
    KeepsPrefix(a + b + c, d, a);
    KeepsPrefix(a + b + c + d, e, a);
    KeepsPrefix(a + b + c + d + e, f, a);
    KeepsPrefix(a + b + c + d + e + f, g, a);
  }

  /** Appending to text that starts with `p` keeps it starting with `p`. */
  lemma KeepsPrefix(a: string, b: string, p: string)
    requires |a| >= |p| && a[..|p|] == p
    ensures |a + b| >= |p| && (a + b)[..|p|] == p
  {
    assert (a + b)[..|p|] == a[..|p|];
  }

  // ---------------------------------------------------------------------------
  // Output lines

  /** One output line: the type, the record timecode, "TC", the colour, the description and "1", tab-separated, then a newline. */
  function ReportLine(tag: string, recordTc: string, color: string, description: string): string
  {
    Join([tag, recordTc, "TC", color, description, "1"], '\t') + "\n"
  }

  /** The trim figures of a record, with the defaults a lookup falls back to when they are absent. */
  function TrimOrDefault(d: Details): TrimDetails
  {
    match d
    case Trim(t) => t
    case _ => TrimDetails(0, 0, 0, "", "", "", "", None, None)
  }

  /** The edit whose position and clip a line reports: the new edit when present, else the old one. */
  function DisplayEdit(c: Change): Option<Edit>
  {
    if c.newEdit.Some? then c.newEdit else c.oldEdit
  }

  /** A record the renderer can write: a reported record has an edit, and a length change needs a positive rate. */
  predicate Reportable(c: Change, fps: int)
  {
    && (c.kind == New || c.kind == Changed ==> DisplayEdit(c).Some?)
    && (c.kind == Changed && TrimOrDefault(c.details).timeDiffFrames != 0 ==> fps > 0)
  }

  predicate Renderable(changes: seq<Change>, fps: int)
  {
    forall i :: 0 <= i < |changes| ==> Reportable(changes[i], fps)
  }

  function NewLine(e: Edit): string
  {
    ReportLine("New", e.recordIn, "magenta", "Clip added (" + e.clipName + ")")
  }

  /**
   * The line written for one change record: none for an unchanged or a
   * deleted edit, a magenta "New" line for an addition, and a yellow
   * "Changed" line with the trim description for a change.
   */
  function LineOf(c: Change, fps: int): (line: Option<string>)
    requires Reportable(c, fps)
    ensures line.Some? <==> c.kind == New || c.kind == Changed
    ensures c.kind == New ==> line == Some(NewLine(DisplayEdit(c).value))
    ensures c.kind == Changed ==> line == Some(ReportLine("Changed", DisplayEdit(c).value.recordIn, "yellow",
      ChangedDescription(TrimOrDefault(c.details), DisplayEdit(c).value.clipName, fps)))
  {
    match c.kind
    case Unchanged => None
    case Deleted => None
    case New => Some(NewLine(DisplayEdit(c).value))
    case Changed =>
      var e := DisplayEdit(c).value;
      Some(ReportLine("Changed", e.recordIn, "yellow", ChangedDescription(TrimOrDefault(c.details), e.clipName, fps)))
  }

  /** The line of every record, record by record. */
  function Lines(changes: seq<Change>, fps: int): (lines: seq<Option<string>>)
    requires Renderable(changes, fps)
    ensures |lines| == |changes|
    ensures forall i :: 0 <= i < |changes| ==> lines[i] == LineOf(changes[i], fps)
  {
    seq(|changes|, i requires 0 <= i < |changes| => LineOf(changes[i], fps))
  }

  /** The text written to the change list, one string per write, in order. */
  function RenderSpec(changes: seq<Change>, fps: int): seq<string>
    requires Renderable(changes, fps)
  {
    Somes(Lines(changes, fps), 0)
  }

  /** The line written for one added or changed record, from its new edit, else its old one. */
  method ReportedLine(c: Change, fps: int) returns (line: string)
    requires Reportable(c, fps) && (c.kind == New || c.kind == Changed)
    ensures LineOf(c, fps) == Some(line)
  {
    var edit := if c.newEdit.Some? then c.newEdit.value else c.oldEdit.value;
    var recordTc := edit.recordIn;
    var clipName := edit.clipName;
    if c.kind == New {
      var description := "Clip added (" + clipName + ")";
      line := ReportLine("New", recordTc, "magenta", description);
    } else {
      var details := TrimOrDefault(c.details);
      var description := BuildChangedDescription(details, clipName, fps);
      line := ReportLine("Changed", recordTc, "yellow", description);
    }
  }

  /** `output_change_list`, with the writes to the file returned in order. */
  method OutputChangeList(changes: seq<Change>, fps: int) returns (written: seq<string>)
    requires Renderable(changes, fps)
    ensures written == RenderSpec(changes, fps)
  {
    ghost var lines := Lines(changes, fps);
    written := [];
    for i := 0 to |changes|
      invariant written + Somes(lines, i) == Somes(lines, 0)
    {
      var c := changes[i];
      assert Reportable(c, fps);
      if c.kind == Unchanged || c.kind == Deleted {
        assert lines[i] == None;
        SomesSkipNones(lines, i, i + 1);
        continue;
      }
      var line := ReportedLine(c, fps);
      SomesFirst(lines, i, line);
      assert written + [line] + Somes(lines, i + 1) == written + ([line] + Somes(lines, i + 1));
      written := written + [line];
    }
  }

  // ---------------------------------------------------------------------------
  // Properties of the output

  /**
   * A line splits on tabs into its six fields, when none of them holds a tab,
   * and ends with a newline.
   */
  lemma ReportLineFields(tag: string, recordTc: string, color: string, description: string)
    requires '\t' !in tag && '\t' !in recordTc && '\t' !in color && '\t' !in description
    ensures var line := ReportLine(tag, recordTc, color, description);
      && line[|line| - 1] == '\n'
      && Split(line[..|line| - 1], '\t') == [tag, recordTc, "TC", color, description, "1"]
  {
    var parts := [tag, recordTc, "TC", color, description, "1"];
    var line := ReportLine(tag, recordTc, color, description);
    assert line[..|line| - 1] == Join(parts, '\t');
    SplitJoin(parts, '\t');
  }

  /**
   * One line per added or changed record, in the records' order: the `k`-th
   * line is the line of the `k`-th reported record, and a record is reported
   * exactly when it is an addition or a change.
   */
  lemma OneLinePerReport(changes: seq<Change>, fps: int)
    requires Renderable(changes, fps)
    ensures var idx := SomeIndices(Lines(changes, fps), 0);
      && |RenderSpec(changes, fps)| == |idx|
      && (forall k :: 0 <= k < |idx| ==> idx[k] < |changes| && (changes[idx[k]].kind == New || changes[idx[k]].kind == Changed))
      && (forall i :: 0 <= i < |changes| && (changes[i].kind == New || changes[i].kind == Changed) ==> i in idx)
      && (forall k, k' :: 0 <= k < k' < |idx| ==> idx[k] < idx[k'])
      && (forall k :: 0 <= k < |idx| ==> RenderSpec(changes, fps)[k] == LineOf(changes[idx[k]], fps).value)
  {
    SomeIndicesInRange(Lines(changes, fps), 0);
    SomeIndicesIncreasing(Lines(changes, fps), 0);
    SomeIndicesComplete(Lines(changes, fps), 0);
    SomesAtIndices(Lines(changes, fps), 0);
  }
}
