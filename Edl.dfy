/**
 * The EDL record and the CMX 3600 line parser: event lines become `Edit`
 * records, and a "FROM CLIP NAME" comment on the very next line supplies the
 * clip name. The file is given as its sequence of lines.
 */
module Edl {
  import opened Wrappers
  import opened Text
  import opened Collect
  import Timecode

  /** One timeline event: an event line plus the clip name that may follow it. */
  datatype Edit = Edit(
    eventNum: string,
    reel: string,
    sourceIn: string,
    sourceOut: string,
    recordIn: string,
    recordOut: string,
    clipName: string)
  {
    /** The identity triple (reel, source in, source out). */
    function Key(): (string, string, string)
    {
      (reel, sourceIn, sourceOut)
    }

    /** `duration_tc`: source out minus source in, at the default 24 fps. */
    function DurationTc(): (d: string)
      requires Timecode.WellFormed(sourceIn) && Timecode.WellFormed(sourceOut)
      requires Timecode.TcToFrames(sourceIn, 24) <= Timecode.TcToFrames(sourceOut, 24)
      ensures Timecode.WellFormed(d)
      ensures Timecode.TcToFrames(d, 24) == Timecode.TcToFrames(sourceOut, 24) - Timecode.TcToFrames(sourceIn, 24)
    {
      Timecode.SubtractTc(sourceOut, sourceIn, 24)
    }
  }

  // ---------------------------------------------------------------------------
  // Whitespace: `str.strip()` and `str.split()`

  /** Python's whitespace among ASCII characters: 9-13, 28-31 and the space. */
  predicate IsSpace(c: char)
  {
    c == ' ' || (9 <= c as int <= 13) || (28 <= c as int <= 31)
  }

  /** A non-empty run of non-space characters, as `split()` returns them. */
  predicate IsWord(w: string)
  {
    |w| > 0 && forall i :: 0 <= i < |w| ==> !IsSpace(w[i])
  }

  /** `s` without its leading whitespace. */
  function TrimStart(s: string): string
  {
    if |s| > 0 && IsSpace(s[0]) then TrimStart(s[1..]) else s
  }

  /** `s` without its trailing whitespace. */
  function TrimEnd(s: string): string
  {
    if |s| > 0 && IsSpace(s[|s| - 1]) then TrimEnd(s[..|s| - 1]) else s
  }

  /** `str.strip()`. */
  function Strip(s: string): string
  {
    TrimEnd(TrimStart(s))
  }

  /** `TrimStart` drops exactly the leading run of whitespace. */
  lemma {:induction false} TrimStartSpec(s: string)
    ensures var r := TrimStart(s);
      && |r| <= |s| && r == s[|s| - |r|..]
      && (|r| > 0 ==> !IsSpace(r[0]))
      && forall i :: 0 <= i < |s| - |r| ==> IsSpace(s[i])
    decreases |s|
  {
    if |s| > 0 && IsSpace(s[0]) {
      TrimStartSpec(s[1..]);
    }
  }

  /** `TrimEnd` drops exactly the trailing run of whitespace. */
  lemma {:induction false} TrimEndSpec(s: string)
    ensures var r := TrimEnd(s);
      && |r| <= |s| && r == s[..|r|]
      && (|r| > 0 ==> !IsSpace(r[|r| - 1]))
      && forall i :: |r| <= i < |s| ==> IsSpace(s[i])
    decreases |s|
  {
    if |s| > 0 && IsSpace(s[|s| - 1]) {
      TrimEndSpec(s[..|s| - 1]);
    }
  }

  /** `r` is the slice of `s` at `a`, with only whitespace before and after it. */
  predicate KeptBetweenSpaces(s: string, r: string, a: int)
  {
    && 0 <= a <= |s| - |r| && r == s[a..a + |r|]
    && (forall i :: 0 <= i < a ==> IsSpace(s[i]))
    && (forall i :: a + |r| <= i < |s| ==> IsSpace(s[i]))
  }

  /**
   * `strip()` keeps the part of `s` between its leading and its trailing
   * run of whitespace: what it drops is whitespace, and what it keeps
   * neither starts nor ends with whitespace.
   */
  lemma StripSpec(s: string)
    ensures var r := Strip(s);
      && (|r| > 0 ==> !IsSpace(r[0]) && !IsSpace(r[|r| - 1]))
      && exists a :: KeptBetweenSpaces(s, r, a)
  {
    var t := TrimStart(s);
    TrimStartSpec(s);
    var r := TrimEnd(t);
    TrimEndSpec(t);
    KeptSlice(s, t, r);
    assert |r| > 0 ==> r[0] == t[0];
  }

  /** Dropping whitespace from the front of `s` and then from the back keeps a slice between whitespace. */
  lemma KeptSlice(s: string, t: string, r: string)
    requires |t| <= |s| && t == s[|s| - |t|..] && forall i :: 0 <= i < |s| - |t| ==> IsSpace(s[i])
    requires |r| <= |t| && r == t[..|r|] && forall i :: |r| <= i < |t| ==> IsSpace(t[i])
    ensures KeptBetweenSpaces(s, r, |s| - |t|)
  {
    var a := |s| - |t|;
    assert forall i :: a <= i < |s| ==> s[i] == t[i - a];
    assert r == s[a..a + |r|];
  }

  /** The length of the leading run of non-space characters. */
  function WordLength(s: string): (n: nat)
    ensures n <= |s|
    ensures |s| > 0 && !IsSpace(s[0]) ==> n > 0
  {
    if |s| == 0 || IsSpace(s[0]) then 0 else 1 + WordLength(s[1..])
  }

  /** `str.split()` with no separator: the maximal runs of non-space characters. */
  function Words(s: string): seq<string>
    decreases |s|
  {
    if |s| == 0 then []
    else if IsSpace(s[0]) then Words(s[1..])
    else
      var n := WordLength(s);
      [s[..n]] + Words(s[n..])
  }

  /** The leading word stops at the first whitespace. */
  lemma {:induction false} WordLengthSpec(s: string)
    ensures var n := WordLength(s);
      && (forall i :: 0 <= i < n ==> !IsSpace(s[i]))
      && (n < |s| ==> IsSpace(s[n]))
    decreases |s|
  {
    if |s| > 0 && !IsSpace(s[0]) {
      WordLengthSpec(s[1..]);
    }
  }

  /** The non-space characters of `s`, in order. */
  function NonSpace(s: string): string
  {
    if |s| == 0 then "" else if IsSpace(s[0]) then NonSpace(s[1..]) else [s[0]] + NonSpace(s[1..])
  }

  /** A word starts at `i`: a non-space character at the start of `s` or after whitespace. */
  predicate WordStartAt(s: string, i: nat)
    requires i < |s|
  {
    !IsSpace(s[i]) && (i == 0 || IsSpace(s[i - 1]))
  }

  /** The number of positions from `i` on where a word starts. */
  function WordStarts(s: string, i: nat): nat
    decreases |s| - i
  {
    if i >= |s| then 0 else (if WordStartAt(s, i) then 1 else 0) + WordStarts(s, i + 1)
  }

  /**
   * `split()` returns every maximal run of non-space characters, in order:
   * each field is such a run, joined they are all the non-space characters
   * of `s`, there is one field per position where a word starts, and field
   * `k` is the run at the `k`-th of those positions.
   */
  lemma {:induction false} WordsAreWords(s: string)
    ensures forall k :: 0 <= k < |Words(s)| ==> IsWord(Words(s)[k])
    ensures Concat(Words(s)) == NonSpace(s)
    ensures |Words(s)| == WordStarts(s, 0)
    ensures forall k :: 0 <= k < |Words(s)| ==> KthRun(s, 0, k, Words(s)[k])
    decreases |s|
  {
    WordsConcat(s);
    WordsCountFrom(s, 0);
    WordsAtStarts(s, 0);
    assert s[0..] == s;
    assert CountsFrom(s, 0) && RunsFrom(s, 0);
    if |s| > 0 {
      if IsSpace(s[0]) {
        WordsAreWords(s[1..]);
      } else {
        WordLengthSpec(s);
        WordsAreWords(s[WordLength(s)..]);
      }
    }
  }

  /** Dropping a leading run of non-space characters drops them from `NonSpace` too. */
  lemma {:induction false} NonSpaceOfRun(s: string, n: nat)
    requires n <= |s| && forall i :: 0 <= i < n ==> !IsSpace(s[i])
    ensures NonSpace(s) == s[..n] + NonSpace(s[n..])
    decreases n
  {
    if n == 0 {
      assert s[..0] == "" && s[0..] == s;
    } else {
      var t := s[1..];
      assert forall i :: 0 <= i < n - 1 ==> t[i] == s[i + 1];
      NonSpaceOfRun(t, n - 1);
      var rest := NonSpace(s[n..]);
      assert t[n - 1..] == s[n..];
      assert NonSpace(s) == [s[0]] + (t[..n - 1] + rest);
      assert [s[0]] + (t[..n - 1] + rest) == ([s[0]] + t[..n - 1]) + rest;
      assert [s[0]] + t[..n - 1] == s[..n];
    }
  }

  /** Joined, the fields of `split()` are the non-space characters, in order. */
  lemma {:induction false} WordsConcat(s: string)
    ensures Concat(Words(s)) == NonSpace(s)
    decreases |s|
  {
    if |s| > 0 {
      if IsSpace(s[0]) {
        WordsConcat(s[1..]);
      } else {
        var n := WordLength(s);
        WordLengthSpec(s);
        WordsConcat(s[n..]);
        ConcatPrepend(s[..n], Words(s[n..]));
        NonSpaceOfRun(s, n);
      }
    }
  }

  /** Positions `a` up to `b` each follow a non-space character, so no word starts there. */
  lemma {:induction false} NoStartsInRun(s: string, a: nat, b: nat)
    requires 0 < a <= b <= |s| && forall k :: a - 1 <= k < b - 1 ==> !IsSpace(s[k])
    ensures WordStarts(s, a) == WordStarts(s, b)
    decreases b - a
  {
    if a < b {
      NoStartsInRun(s, a + 1, b);
    }
  }

  /**
   * A word starting at `i` is one word start, and no other word starts
   * before its end; after it comes the end of `s` or whitespace.
   */
  lemma WordAt(s: string, i: nat)
    requires i < |s| && !IsSpace(s[i]) && (i == 0 || IsSpace(s[i - 1]))
    ensures var n := WordLength(s[i..]);
      && 0 < n && i + n <= |s| && (i + n == |s| || IsSpace(s[i + n]))
      && WordStarts(s, i) == 1 + WordStarts(s, i + n)
  {
    var t := s[i..];
    var n := WordLength(t);
    WordLengthSpec(t);
    assert forall k :: i <= k < i + n ==> !IsSpace(s[k]) by {
      assert forall k :: i <= k < i + n ==> s[k] == t[k - i];
    }
    NoStartsInRun(s, i + 1, i + n);
    assert i + n < |s| ==> s[i + n] == t[n];
  }

  /** `split()` of the text from `i` on has one field per word start from `i` on. */
  predicate CountsFrom(s: string, i: nat)
    requires i <= |s|
  {
    |Words(s[i..])| == WordStarts(s, i)
  }

  /** Whitespace at `i` adds neither a field nor a word start. */
  lemma CountSpaceStep(s: string, i: nat)
    requires i < |s| && IsSpace(s[i]) && CountsFrom(s, i + 1)
    ensures CountsFrom(s, i)
  {
    assert s[i..][1..] == s[i + 1..];
  }

  /** A word from `i` to `m` adds one field and one word start. */
  lemma CountWordStep(s: string, i: nat, m: nat)
    requires i <= m <= |s| && WordStarts(s, i) == 1 + WordStarts(s, m)
    requires Words(s[i..]) == [s[i..m]] + Words(s[m..]) && CountsFrom(s, m)
    ensures CountsFrom(s, i)
  {
  }

  /**
   * From a position where no word is cut in two, `split()` of the rest has
   * one field per word start.
   */
  lemma {:induction false} WordsCountFrom(s: string, i: nat)
    requires i <= |s| && (i == 0 || i == |s| || IsSpace(s[i - 1]) || IsSpace(s[i]))
    ensures CountsFrom(s, i)
    decreases |s| - i
  {
    if i == |s| {
      assert Words(s[i..]) == [];
    } else if IsSpace(s[i]) {
      WordsCountFrom(s, i + 1);
      CountSpaceStep(s, i);
    } else {
      WordAt(s, i);
      var m := i + WordLength(s[i..]);
      FirstField(s, i, m);
      WordsCountFrom(s, m);
      CountWordStep(s, i, m);
    }
  }

  /**
   * `w` is the maximal run of non-space characters that starts at `p`: a word
   * starts there, `w` is the text from `p` on, and whitespace or the end of
   * `s` follows it.
   */
  predicate MaximalRunAt(s: string, p: nat, w: string)
  {
    && p < |s| && WordStartAt(s, p) && IsWord(w)
    && p + |w| <= |s| && s[p..p + |w|] == w
    && (p + |w| == |s| || IsSpace(s[p + |w|]))
  }

  /** `w` is the maximal run at the word start numbered `k` from position `i` on, counting from 0. */
  ghost predicate KthRun(s: string, i: nat, k: nat, w: string)
  {
    exists p: nat :: i <= p && WordStarts(s, i) == k + WordStarts(s, p) && MaximalRunAt(s, p, w)
  }

  /** The first field of `split()` at a word start, ending at `m`, is the text up to `m`. */
  lemma FirstField(s: string, i: nat, m: nat)
    requires i < |s| && !IsSpace(s[i])
    requires m == i + WordLength(s[i..])
    ensures m <= |s| && Words(s[i..]) == [s[i..m]] + Words(s[m..])
  {
    var t := s[i..];
    var n := WordLength(t);
    assert t[..n] == s[i..m] && t[n..] == s[m..];
  }

  /** The text from a word start up to the end of the word is the maximal run there. */
  lemma FirstRun(s: string, i: nat, m: nat)
    requires i < |s| && !IsSpace(s[i]) && (i == 0 || IsSpace(s[i - 1]))
    requires m == i + WordLength(s[i..])
    ensures m <= |s| && MaximalRunAt(s, i, s[i..m])
  {
    var t := s[i..];
    var n := WordLength(t);
    WordLengthSpec(t);
    assert m < |s| ==> s[m] == t[n];
    assert forall k :: 0 <= k < n ==> s[i..m][k] == t[k];
  }

  /** Every field of `split()` of the text from `i` on is the run at its word start. */
  ghost predicate RunsFrom(s: string, i: nat)
    requires i <= |s|
  {
    forall k :: 0 <= k < |Words(s[i..])| ==> KthRun(s, i, k, Words(s[i..])[k])
  }

  /** Whitespace at `i` adds no field: the runs from `i + 1` on are the runs from `i` on. */
  lemma SpaceStep(s: string, i: nat)
    requires i < |s| && IsSpace(s[i]) && RunsFrom(s, i + 1)
    ensures RunsFrom(s, i)
  {
    var rest := Words(s[i + 1..]);
    assert s[i..][1..] == s[i + 1..];
    assert Words(s[i..]) == rest;
    assert WordStarts(s, i) == WordStarts(s, i + 1);
    forall k | 0 <= k < |rest|
      ensures KthRun(s, i, k, rest[k])
    {
      assert KthRun(s, i + 1, k, rest[k]);
      var p: nat :| i + 1 <= p && WordStarts(s, i + 1) == k + WordStarts(s, p) && MaximalRunAt(s, p, rest[k]);
      assert i <= p && WordStarts(s, i) == k + WordStarts(s, p);
    }
  }

  /** A word at `i`, ending at `m`, is field 0; the fields after it are the runs numbered from `m` on. */
  lemma WordStep(s: string, i: nat, m: nat)
    requires i <= m <= |s| && WordStarts(s, i) == 1 + WordStarts(s, m)
    requires Words(s[i..]) == [s[i..m]] + Words(s[m..]) && MaximalRunAt(s, i, s[i..m])
    requires RunsFrom(s, m)
    ensures RunsFrom(s, i)
  {
    var rest := Words(s[m..]);
    var all := [s[i..m]] + rest;
    assert forall j :: 0 <= j < |rest| ==> KthRun(s, m, j, rest[j]);
    forall k | 0 <= k < |all|
      ensures KthRun(s, i, k, all[k])
    {
      if k == 0 {
        assert WordStarts(s, i) == 0 + WordStarts(s, i) && MaximalRunAt(s, i, all[0]);
      } else {
        StepRun(s, i, m, k, rest[k - 1]);
      }
    }
  }

  /** The run numbered `k - 1` from `m` on is numbered `k` from `i` on, when one word start lies in between. */
  lemma StepRun(s: string, i: nat, m: nat, k: nat, w: string)
    requires i <= m && 0 < k && WordStarts(s, i) == 1 + WordStarts(s, m) && KthRun(s, m, k - 1, w)
    ensures KthRun(s, i, k, w)
  {
    var p: nat :| m <= p && WordStarts(s, m) == k - 1 + WordStarts(s, p) && MaximalRunAt(s, p, w);
    assert i <= p && WordStarts(s, i) == k + WordStarts(s, p);
  }

  /**
   * From a position where no word is cut in two, field `k` of `split()` of
   * the rest is the maximal run at the `k`-th word start.
   */
  lemma {:induction false} WordsAtStarts(s: string, i: nat)
    requires i <= |s| && (i == 0 || i == |s| || IsSpace(s[i - 1]) || IsSpace(s[i]))
    ensures RunsFrom(s, i)
    decreases |s| - i
  {
    if i == |s| {
      assert Words(s[i..]) == [];
    } else if IsSpace(s[i]) {
      WordsAtStarts(s, i + 1);
      SpaceStep(s, i);
    } else {
      WordAt(s, i);
      var m := i + WordLength(s[i..]);
      FirstField(s, i, m);
      FirstRun(s, i, m);
      WordsAtStarts(s, m);
      WordStep(s, i, m);
    }
  }

  // ---------------------------------------------------------------------------
  // Recognising lines

  /** The event-number test `^\d{3,}`: three ASCII digits at the start. */
  predicate StartsWithThreeDigits(line: string)
  {
    |line| >= 3 && IsDigit(line[0]) && IsDigit(line[1]) && IsDigit(line[2])
  }

  /** A raw line the parser turns into an `Edit`. */
  predicate IsEventLine(raw: string)
  {
    var line := Strip(raw);
    StartsWithThreeDigits(line) && |Words(line)| >= 8
  }

  const CLIP_MARKER: string := "* FROM CLIP NAME: "

  /** `\* FROM CLIP NAME: (.+)` can match at `p`: the marker, then a character other than a newline. */
  predicate MarkerAt(line: string, p: nat)
  {
    && p + |CLIP_MARKER| < |line|
    && line[p..p + |CLIP_MARKER|] == CLIP_MARKER
    && line[p + |CLIP_MARKER|] != '\n'
  }

  /** Where `.+` stops: the first newline at or after `i`, or the end. */
  function LineEnd(line: string, i: nat): (j: nat)
    requires i <= |line|
    ensures i <= j <= |line|
    decreases |line| - i
  {
    if i == |line| || line[i] == '\n' then i else LineEnd(line, i + 1)
  }

  /** `re.search(r'\* FROM CLIP NAME: (.+)', line)` from position `q`: group 1 of the leftmost match. */
  function FindClipName(line: string, q: nat): Option<string>
    decreases |line| - q
  {
    if q + |CLIP_MARKER| >= |line| then None
    else if MarkerAt(line, q) then
      var start := q + |CLIP_MARKER|;
      Some(line[start..LineEnd(line, start)])
    else
      FindClipName(line, q + 1)
  }

  /** `LineEnd` stops at the first newline. */
  lemma {:induction false} LineEndSpec(line: string, i: nat)
    requires i <= |line|
    ensures forall k :: i <= k < LineEnd(line, i) ==> line[k] != '\n'
    ensures LineEnd(line, i) < |line| ==> line[LineEnd(line, i)] == '\n'
    decreases |line| - i
  {
    if i < |line| && line[i] != '\n' {
      LineEndSpec(line, i + 1);
    }
  }

  /**
   * The search finds a clip name exactly when the marker followed by a
   * character other than a newline occurs from `q` on; the name is then the
   * text after the leftmost such marker, up to the end of the line or the
   * first newline, and it is never empty.
   */
  lemma {:induction false} FindClipNameSpec(line: string, q: nat)
    ensures FindClipName(line, q).Some? <==> exists p :: q <= p && MarkerAt(line, p)
    ensures FindClipName(line, q).Some? ==>
      exists p :: q <= p && MarkerAt(line, p)
        && (forall p' :: q <= p' < p ==> !MarkerAt(line, p'))
        && FindClipName(line, q).value == line[p + |CLIP_MARKER|..LineEnd(line, p + |CLIP_MARKER|)]
    ensures FindClipName(line, q).Some? ==>
      |FindClipName(line, q).value| > 0 && '\n' !in FindClipName(line, q).value
    decreases |line| - q
  {
    if q + |CLIP_MARKER| >= |line| {
      assert forall p :: q <= p ==> !MarkerAt(line, p);
    } else if MarkerAt(line, q) {
      var start := q + |CLIP_MARKER|;
      LineEndSpec(line, start);
      var name := line[start..LineEnd(line, start)];
      assert forall k :: 0 <= k < |name| ==> name[k] == line[start + k];
      assert name[0] == line[start];
    } else {
      FindClipNameSpec(line, q + 1);
      assert forall p :: q <= p && MarkerAt(line, p) ==> q + 1 <= p;
    }
  }

  /** The clip name a following line supplies: the captured text, or "". */
  function ClipName(next: string): string
  {
    match FindClipName(Strip(next), 0)
    case Some(name) => name
    case None => ""
  }

  // ---------------------------------------------------------------------------
  // The parse, as a function of the lines

  /** The `Edit` built from event line `i`: fields 0, 1, 4, 5, 6, 7 and the next line's clip name. */
  function EditAt(lines: seq<string>, i: nat): Edit
    requires i < |lines| && IsEventLine(lines[i])
  {
    var fields := Words(Strip(lines[i]));
    var clipName := if i + 1 < |lines| then ClipName(lines[i + 1]) else "";
    Edit(fields[0], fields[1], fields[4], fields[5], fields[6], fields[7], clipName)
  }

  /** What line `i` contributes to the parse: an edit if it is an event line. */
  function EventAt(lines: seq<string>, i: nat): Option<Edit>
    requires i < |lines|
  {
    if IsEventLine(lines[i]) then Some(EditAt(lines, i)) else None
  }

  /** What every line contributes, line by line. */
  function Events(lines: seq<string>): (events: seq<Option<Edit>>)
    ensures |events| == |lines|
    ensures forall i :: 0 <= i < |lines| ==> events[i] == EventAt(lines, i)
  {
    seq(|lines|, i requires 0 <= i < |lines| => EventAt(lines, i))
  }

  /** The result of the parse: the edits of the event lines, in file order. */
  function ParseLines(lines: seq<string>): seq<Edit>
  {
    Somes(Events(lines), 0)
  }

  /** The indices of the event lines, in increasing order. */
  function EventLineIndices(lines: seq<string>): (idx: seq<nat>)
    ensures forall k :: 0 <= k < |idx| ==> idx[k] < |lines| && IsEventLine(lines[idx[k]])
    ensures forall k, k' :: 0 <= k < k' < |idx| ==> idx[k] < idx[k']
    ensures forall j :: 0 <= j < |lines| && IsEventLine(lines[j]) ==> j in idx
  {
    SomeIndicesInRange(Events(lines), 0);
    SomeIndicesIncreasing(Events(lines), 0);
    SomeIndicesComplete(Events(lines), 0);
    SomeIndices(Events(lines), 0)
  }

  /**
   * The parse yields exactly one edit per event line, in file order, each
   * built from its own line and the line after it.
   */
  lemma ParseLinesOnePerEventLine(lines: seq<string>)
    ensures |ParseLines(lines)| == |EventLineIndices(lines)|
    ensures forall k :: 0 <= k < |ParseLines(lines)| ==>
      ParseLines(lines)[k] == EditAt(lines, EventLineIndices(lines)[k])
  {
    SomesAtIndices(Events(lines), 0);
  }

  /**
   * Looking ahead for a clip name does not consume the next line: two
   * consecutive event lines give two consecutive edits.
   */
  lemma LookaheadDoesNotConsume(lines: seq<string>, i: nat)
    requires i + 1 < |lines| && IsEventLine(lines[i]) && IsEventLine(lines[i + 1])
    ensures exists k :: (0 <= k && k + 1 < |ParseLines(lines)|
      && ParseLines(lines)[k] == EditAt(lines, i)
      && ParseLines(lines)[k + 1] == EditAt(lines, i + 1))
  {
    var events := Events(lines);
    assert events[i] == Some(EditAt(lines, i)) && events[i + 1] == Some(EditAt(lines, i + 1));
    AdjacentSomes(events, 0, i);
    var parsed := Somes(events, 0);
    var k :| 0 <= k && k + 1 < |parsed| && parsed[k] == events[i].value && parsed[k + 1] == events[i + 1].value;
    assert ParseLines(lines) == parsed;
  }

  /** The line carries the clip-name marker with some text after it on the same line. */
  ghost predicate HasClipMarker(line: string)
  {
    exists p: nat :: MarkerAt(line, p)
  }

  /**
   * An edit's clip name is non-empty exactly when the very next line, once
   * stripped, carries the marker followed by some character other than a
   * newline; it is then the text after the leftmost such marker.
   */
  lemma ClipNameFromNextLine(lines: seq<string>, i: nat)
    requires i < |lines| && IsEventLine(lines[i])
    ensures EditAt(lines, i).clipName != "" <==>
      i + 1 < |lines| && HasClipMarker(Strip(lines[i + 1]))
    ensures EditAt(lines, i).clipName != "" ==>
      var next := Strip(lines[i + 1]);
      exists p: nat :: MarkerAt(next, p) && (forall p': nat :: p' < p ==> !MarkerAt(next, p'))
        && EditAt(lines, i).clipName == next[p + |CLIP_MARKER|..LineEnd(next, p + |CLIP_MARKER|)]
  {
    if i + 1 < |lines| {
      FindClipNameSpec(Strip(lines[i + 1]), 0);
    }
  }

  /**
   * The fields an event line contributes: 0, 1, 4, 5, 6 and 7, with the
   * clip name of the next line; fields 2, 3 and any past 7 are not read.
   */
  lemma EditFields(lines: seq<string>, i: nat, lines': seq<string>, i': nat)
    requires i < |lines| && IsEventLine(lines[i]) && i' < |lines'| && IsEventLine(lines'[i'])
    requires var f, f' := Words(Strip(lines[i])), Words(Strip(lines'[i']));
      f[0] == f'[0] && f[1] == f'[1] && f[4..8] == f'[4..8]
    requires (if i + 1 < |lines| then ClipName(lines[i + 1]) else "") == (if i' + 1 < |lines'| then ClipName(lines'[i' + 1]) else "")
    ensures EditAt(lines, i) == EditAt(lines', i')
  {
    var f, f' := Words(Strip(lines[i])), Words(Strip(lines'[i']));
    assert f[4] == f[4..8][0] && f[5] == f[4..8][1] && f[6] == f[4..8][2] && f[7] == f[4..8][3];
    assert f'[4] == f'[4..8][0] && f'[5] == f'[4..8][1] && f'[6] == f'[4..8][2] && f'[7] == f'[4..8][3];
  }

  // ---------------------------------------------------------------------------
  // The parser object

  /**
   * One iteration of the parse loop: the edit line `i` yields, if it is an
   * event line, with the clip name looked up on line `i + 1`.
   */
  method ReadEvent(lines: seq<string>, i: nat) returns (found: Option<Edit>)
    requires i < |lines|
    ensures found == EventAt(lines, i)
  {
    found := None;
    var line := Strip(lines[i]);
    if StartsWithThreeDigits(line) {
      var parts := Words(line);
      if |parts| >= 8 {
        var clipName := "";
        if i + 1 < |lines| {
          var nextLine := Strip(lines[i + 1]);
          var clipMatch := FindClipName(nextLine, 0);
          if clipMatch.Some? {
            clipName := clipMatch.value;
          }
        }
        found := Some(Edit(parts[0], parts[1], parts[4], parts[5], parts[6], parts[7], clipName));
      }
    }
  }

  /** `EDLParser`: holds the frame rate; parsing itself does not read it. */
  class EdlParser {
    const fps: int

    constructor (fps: int)
      ensures this.fps == fps
    {
      this.fps := fps;
    }

    /** `EDLParser.parse` over the lines of a file. */
    method Parse(lines: seq<string>) returns (edits: seq<Edit>)
      ensures edits == ParseLines(lines)
    {
      ghost var events := Events(lines);
      edits := [];
      var i := 0;
      while i < |lines|
        invariant 0 <= i <= |lines|
        invariant edits + Somes(events, i) == Somes(events, 0)
      {
        var found := ReadEvent(lines, i);
        assert found == events[i];
        if found.Some? {
          assert edits + [found.value] + Somes(events, i + 1) == edits + Somes(events, i);
          edits := edits + [found.value];
        } else {
          assert Somes(events, i) == Somes(events, i + 1);
        }
        i := i + 1;
      }
    }
  }
}
