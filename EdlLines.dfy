/**
 * Writing edits back as CMX 3600 lines, the inverse the parser is checked
 * against: an event line `NUM REEL V C SRC_IN SRC_OUT REC_IN REC_OUT`,
 * followed by a `* FROM CLIP NAME: ` comment when the edit has a clip name.
 * Parsing the written lines gives back the edits.
 */
module EdlLines {
  import opened Wrappers
  import opened Text
  import opened Collect
  import opened Edl

  /** The event line of an edit, with track `V` and edit type `C`. */
  function EventLine(e: Edit): string
  {
    Join(EventFields(e), ' ')
  }

  function EventFields(e: Edit): seq<string>
  {
    [e.eventNum, e.reel, "V", "C", e.sourceIn, e.sourceOut, e.recordIn, e.recordOut]
  }

  /** The comment line that carries a clip name. */
  function ClipLine(name: string): string
  {
    CLIP_MARKER + name
  }

  /** The lines of one edit: its event line, then its clip-name line if it has a name. */
  function EditLines(e: Edit): seq<string>
  {
    [EventLine(e)] + (if e.clipName == "" then [] else [ClipLine(e.clipName)])
  }

  /** The lines of a list of edits, in order. */
  function ToLines(es: seq<Edit>): seq<string>
  {
    if |es| == 0 then [] else EditLines(es[0]) + ToLines(es[1..])
  }

  /** A word that cannot start a clip-name marker. */
  predicate PlainWord(w: string)
  {
    IsWord(w) && '*' !in w
  }

  /**
   * An edit the written form represents faithfully: its six fields are plain
   * words, its event number starts with three digits, and its clip name is
   * empty or a one-line text with no trailing whitespace (which `strip()`
   * would remove).
   */
  predicate Writable(e: Edit)
  {
    && PlainWord(e.eventNum) && StartsWithThreeDigits(e.eventNum)
    && PlainWord(e.reel)
    && PlainWord(e.sourceIn) && PlainWord(e.sourceOut)
    && PlainWord(e.recordIn) && PlainWord(e.recordOut)
    && (e.clipName != "" ==> '\n' !in e.clipName && !IsSpace(e.clipName[|e.clipName| - 1]))
  }

  // ---------------------------------------------------------------------------
  // Facts about joined words

  lemma {:induction false} WordLengthOfWord(w: string, t: string)
    requires IsWord(w) && (|t| == 0 || IsSpace(t[0]))
    ensures WordLength(w + t) == |w|
    decreases |w|
  {
    var s := w + t;
    if |w| > 1 {
      assert s[1..] == w[1..] + t;
      WordLengthOfWord(w[1..], t);
    } else {
      assert s[1..] == t;
    }
  }

  /** `split()` of words joined by single spaces gives the words back. */
  lemma {:induction false} WordsOfJoin(parts: seq<string>)
    requires |parts| >= 1
    requires forall k :: 0 <= k < |parts| ==> IsWord(parts[k])
    ensures Words(Join(parts, ' ')) == parts
    decreases |parts|
  {
    var w := parts[0];
    if |parts| == 1 {
      WordLengthOfWord(w, "");
      assert w + "" == w;
      assert w[|w|..] == "";
    } else {
      var tail := Join(parts[1..], ' ');
      var s := w + ([' '] + tail);
      assert Join(parts, ' ') == s;
      WordLengthOfWord(w, [' '] + tail);
      assert s[..|w|] == w;
      assert s[|w|..] == [' '] + tail;
      assert ([' '] + tail)[1..] == tail;
      WordsOfJoin(parts[1..]);
      assert [w] + parts[1..] == parts;
    }
  }

  /** Joined text holds no character that none of its parts holds, other than the separator. */
  lemma {:induction false} JoinAvoids(parts: seq<string>, sep: char, c: char)
    requires |parts| >= 1 && c != sep
    requires forall k :: 0 <= k < |parts| ==> c !in parts[k]
    ensures c !in Join(parts, sep)
    decreases |parts|
  {
    if |parts| > 1 {
      JoinAvoids(parts[1..], sep, c);
    }
  }

  /** Joined text begins with its first part and ends with its last. */
  lemma {:induction false} JoinEnds(parts: seq<string>, sep: char)
    requires |parts| >= 1 && forall k :: 0 <= k < |parts| ==> |parts[k]| > 0
    ensures var s := Join(parts, sep);
      && |s| >= |parts[0]| && s[..|parts[0]|] == parts[0]
      && s[|s| - 1] == parts[|parts| - 1][|parts[|parts| - 1]| - 1]
    decreases |parts|
  {
    if |parts| > 1 {
      JoinEnds(parts[1..], sep);
    }
  }

  /** Text without whitespace at either end is its own `strip()`. */
  lemma StripUntrimmed(s: string)
    requires |s| > 0 && !IsSpace(s[0]) && !IsSpace(s[|s| - 1])
    ensures Strip(s) == s
  {
  }

  // ---------------------------------------------------------------------------
  // How the parser reads each written line

  lemma EventLineReadBack(e: Edit)
    requires Writable(e)
    ensures Strip(EventLine(e)) == EventLine(e)
    ensures Words(EventLine(e)) == EventFields(e)
    ensures StartsWithThreeDigits(EventLine(e))
    ensures '*' !in EventLine(e)
  {
    var parts := EventFields(e);
    assert forall k :: 0 <= k < |parts| ==> PlainWord(parts[k]);
    JoinEnds(parts, ' ');
    var s := EventLine(e);
    assert s[0] == e.eventNum[0] && s[1] == e.eventNum[1] && s[2] == e.eventNum[2] by {
      assert s[..|e.eventNum|] == e.eventNum;
    }
    StripUntrimmed(s);
    WordsOfJoin(parts);
    JoinAvoids(parts, ' ', '*');
  }

  /** A written event line is an event line, and names no clip. */
  lemma EventLineIsEvent(e: Edit)
    requires Writable(e)
    ensures IsEventLine(EventLine(e))
    ensures ClipName(EventLine(e)) == ""
  {
    EventLineReadBack(e);
    NoClipNameWithoutStar(EventLine(e));
  }

  /** A line without `*` names no clip. */
  lemma NoClipNameWithoutStar(line: string)
    requires '*' !in line
    ensures ClipName(line) == ""
  {
    var s := Strip(line);
    TrimStartSpec(line);
    TrimEndSpec(TrimStart(line));
    assert '*' !in s;
    NoMarkerWithoutStar(s);
    FindClipNameSpec(s, 0);
  }

  lemma NoMarkerWithoutStar(line: string)
    requires '*' !in line
    ensures forall p: nat :: !MarkerAt(line, p)
  {
    forall p: nat
      ensures !MarkerAt(line, p)
    {
      if p + |CLIP_MARKER| < |line| {
        assert line[p..p + |CLIP_MARKER|][0] == line[p];
      }
    }
  }

  /** A clip-name line is not an event line, and it names its clip. */
  lemma ClipLineReadBack(name: string)
    requires name != "" && '\n' !in name && !IsSpace(name[|name| - 1])
    ensures !IsEventLine(ClipLine(name))
    ensures ClipName(ClipLine(name)) == name
  {
    var s := ClipLine(name);
    var m := |CLIP_MARKER|;
    assert s[0] == '*' && s[|s| - 1] == name[|name| - 1];
    StripUntrimmed(s);
    assert s[..m] == CLIP_MARKER && s[m] == name[0];
    assert MarkerAt(s, 0);
    LineEndSpec(s, m);
    assert s[m..] == name;
  }

  // ---------------------------------------------------------------------------
  // The round trip

  /** Where the written lines of `es` start at line `j`: which lines the first edit and the rest occupy. */
  lemma WrittenLayout(lines: seq<string>, j: nat, es: seq<Edit>)
    requires j <= |lines| && lines[j..] == ToLines(es) && |es| > 0
    ensures j + |EditLines(es[0])| <= |lines|
    ensures lines[j + |EditLines(es[0])|..] == ToLines(es[1..])
    ensures lines[j] == EventLine(es[0])
    ensures es[0].clipName != "" ==> j + 1 < |lines| && lines[j + 1] == ClipLine(es[0].clipName)
    ensures es[0].clipName == "" && j + 1 < |lines| ==> |es| > 1 && lines[j + 1] == EventLine(es[1])
  {
    var e := es[0];
    var rest := ToLines(es[1..]);
    var next := j + |EditLines(e)|;
    assert lines[j..] == EditLines(e) + rest;
    assert lines[next..] == rest by {
      assert lines[next..] == lines[j..][|EditLines(e)|..];
    }
    if e.clipName == "" && j + 1 < |lines| {
      assert lines[j + 1] == rest[0];
    }
  }

  /** The written event line of `e`, followed by the clip name of `e`, is parsed as `e`. */
  lemma EventOfWritten(lines: seq<string>, j: nat, e: Edit)
    requires j < |lines| && lines[j] == EventLine(e)
    requires IsEventLine(EventLine(e)) && Words(Strip(EventLine(e))) == EventFields(e)
    requires (if j + 1 < |lines| then ClipName(lines[j + 1]) else "") == e.clipName
    ensures Events(lines)[j] == Some(e)
  {
    assert EditAt(lines, j) == e;
  }

  /** The event line written for the `k`-th of writable edits is read back as that edit's fields. */
  lemma WrittenEventLine(es: seq<Edit>, k: nat)
    requires k < |es| && forall i :: 0 <= i < |es| ==> Writable(es[i])
    ensures IsEventLine(EventLine(es[k])) && ClipName(EventLine(es[k])) == ""
    ensures Words(Strip(EventLine(es[k]))) == EventFields(es[k])
  {
    EventLineIsEvent(es[k]);
    EventLineReadBack(es[k]);
  }

  /** The clip-name line written for the first of writable edits names its clip. */
  lemma WrittenClipLine(es: seq<Edit>)
    requires |es| > 0 && es[0].clipName != "" && forall i :: 0 <= i < |es| ==> Writable(es[i])
    ensures !IsEventLine(ClipLine(es[0].clipName)) && ClipName(ClipLine(es[0].clipName)) == es[0].clipName
  {
    ClipLineReadBack(es[0].clipName);
  }

  /**
   * Where the written lines of `es` start at line `j`, the first edit is
   * parsed from its own lines and the rest start right after them.
   */
  lemma FirstWrittenEdit(lines: seq<string>, j: nat, es: seq<Edit>)
    requires j <= |lines| && lines[j..] == ToLines(es) && |es| > 0
    requires forall k :: 0 <= k < |es| ==> Writable(es[k])
    ensures j + |EditLines(es[0])| <= |lines|
    ensures lines[j + |EditLines(es[0])|..] == ToLines(es[1..])
    ensures Somes(Events(lines), j + |EditLines(es[0])|) == es[1..] ==> Somes(Events(lines), j) == es
  {
    var e := es[0];
    assert [e] + es[1..] == es;
    WrittenLayout(lines, j, es);
    WrittenEventLine(es, 0);
    if e.clipName == "" {
      if j + 1 < |lines| {
        WrittenEventLine(es, 1);
      }
      EventOfWritten(lines, j, e);
      SomesFirst(Events(lines), j, e);
    } else {
      WrittenClipLine(es);
      EventOfWritten(lines, j, e);
      SomesFirst(Events(lines), j, e);
      assert Events(lines)[j + 1] == None;
      SomesSkipNones(Events(lines), j + 1, j + 2);
    }
  }

  /** Parsing from line `j` on, where the written lines of `es` start, gives `es`. */
  lemma {:induction false} ParseSuffix(lines: seq<string>, j: nat, es: seq<Edit>)
    requires j <= |lines| && lines[j..] == ToLines(es)
    requires forall k :: 0 <= k < |es| ==> Writable(es[k])
    ensures Somes(Events(lines), j) == es
    decreases |es|
  {
    if |es| == 0 {
      assert j == |lines|;
    } else {
      var next := j + |EditLines(es[0])|;
      FirstWrittenEdit(lines, j, es);
      ParseSuffix(lines, next, es[1..]);
    }
  }

  /** Parsing written edits gives the same edits back, in order (changelist.py:72-97). */
  lemma ParseWritten(es: seq<Edit>)
    requires forall k :: 0 <= k < |es| ==> Writable(es[k])
    ensures ParseLines(ToLines(es)) == es
  {
    var lines := ToLines(es);
    assert lines[0..] == lines;
    ParseSuffix(lines, 0, es);
  }
}
