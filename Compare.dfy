/**
 * Comparing an old and a new list of edits position by position, and the
 * trim figures reported for an edit whose source range changed.
 */
module Compare {
  import opened Wrappers
  import opened Edl
  import Timecode

  /** How the edit at one position differs between the two lists. */
  datatype ChangeType = Unchanged | Changed | New | Deleted

  /** Which way one end of the source range moved. */
  datatype Direction = Extended | Trimmed

  /** A moved end of the source range: the direction, and the old and new timecodes. */
  datatype EndChange = EndChange(direction: Direction, fromTc: string, toTc: string)

  /**
   * The details of a changed edit: record lengths and their difference in
   * frames, the four source timecodes, and the head and tail changes, each
   * absent when that end did not move.
   */
  datatype TrimDetails = TrimDetails(
    timeDiffFrames: int,
    oldLengthFrames: int,
    newLengthFrames: int,
    oldSourceIn: string,
    newSourceIn: string,
    oldSourceOut: string,
    newSourceOut: string,
    head: Option<EndChange>,
    tail: Option<EndChange>)

  /** The details dictionary of a change record: empty, a description, or trim figures. */
  datatype Details = NoDetails | Description(text: string) | Trim(trim: TrimDetails)

  /** One change record: its type, the old and new edits at the position, and the details. */
  datatype Change = Change(kind: ChangeType, oldEdit: Option<Edit>, newEdit: Option<Edit>, details: Details)

  const CLIP_ADDED: string := "Clip added"

  /** All four timecodes of the edit can be read by `tc_to_frames`. */
  predicate Timed(e: Edit)
  {
    && Timecode.WellFormed(e.sourceIn) && Timecode.WellFormed(e.sourceOut)
    && Timecode.WellFormed(e.recordIn) && Timecode.WellFormed(e.recordOut)
  }

  /** The record-side length of an edit in frames. */
  function RecordLength(e: Edit, fps: int): int
    requires Timed(e)
  {
    Timecode.TcToFrames(e.recordOut, fps) - Timecode.TcToFrames(e.recordIn, fps)
  }

  function InFrames(e: Edit, fps: int): int
    requires Timed(e)
  {
    Timecode.TcToFrames(e.sourceIn, fps)
  }

  function OutFrames(e: Edit, fps: int): int
    requires Timed(e)
  {
    Timecode.TcToFrames(e.sourceOut, fps)
  }

  // ---------------------------------------------------------------------------
  // Trim details

  /**
   * The trim details of a changed edit. The head moved when the source in
   * points differ in frames, and it was extended when the new edit starts
   * earlier; the tail moved when the source out points differ, and it was
   * extended when the new edit ends later.
   */
  function TrimDetailsOf(o: Edit, n: Edit, fps: int): (d: TrimDetails)
    requires Timed(o) && Timed(n)
    ensures d.oldLengthFrames == RecordLength(o, fps) && d.newLengthFrames == RecordLength(n, fps)
    ensures d.timeDiffFrames == d.newLengthFrames - d.oldLengthFrames
    ensures d.oldSourceIn == o.sourceIn && d.newSourceIn == n.sourceIn
    ensures d.oldSourceOut == o.sourceOut && d.newSourceOut == n.sourceOut
    ensures d.head.Some? <==> InFrames(n, fps) != InFrames(o, fps)
    ensures d.head.Some? ==> d.head.value == EndChange(
      if InFrames(n, fps) < InFrames(o, fps) then Extended else Trimmed, o.sourceIn, n.sourceIn)
    ensures d.tail.Some? <==> OutFrames(n, fps) != OutFrames(o, fps)
    ensures d.tail.Some? ==> d.tail.value == EndChange(
      if OutFrames(n, fps) > OutFrames(o, fps) then Extended else Trimmed, o.sourceOut, n.sourceOut)
  {
    var headDiff := InFrames(n, fps) - InFrames(o, fps);
    var tailDiff := OutFrames(n, fps) - OutFrames(o, fps);
    TrimDetails(
      RecordLength(n, fps) - RecordLength(o, fps),
      RecordLength(o, fps),
      RecordLength(n, fps),
      o.sourceIn, n.sourceIn, o.sourceOut, n.sourceOut,
      if headDiff < 0 then Some(EndChange(Extended, o.sourceIn, n.sourceIn))
      else if headDiff > 0 then Some(EndChange(Trimmed, o.sourceIn, n.sourceIn))
      else None,
      if tailDiff > 0 then Some(EndChange(Extended, o.sourceOut, n.sourceOut))
      else if tailDiff < 0 then Some(EndChange(Trimmed, o.sourceOut, n.sourceOut))
      else None)
  }

  /** `compute_trim_details`: the dictionary filled entry by entry. */
  method ComputeTrimDetails(o: Edit, n: Edit, fps: int) returns (details: TrimDetails)
    requires Timed(o) && Timed(n)
    ensures details == TrimDetailsOf(o, n, fps)
  {
    var oldSrcIn := Timecode.TcToFrames(o.sourceIn, fps);
    var oldSrcOut := Timecode.TcToFrames(o.sourceOut, fps);
    var newSrcIn := Timecode.TcToFrames(n.sourceIn, fps);
    var newSrcOut := Timecode.TcToFrames(n.sourceOut, fps);

    var oldRecIn := Timecode.TcToFrames(o.recordIn, fps);
    var oldRecOut := Timecode.TcToFrames(o.recordOut, fps);
    var newRecIn := Timecode.TcToFrames(n.recordIn, fps);
    var newRecOut := Timecode.TcToFrames(n.recordOut, fps);

    var oldLength := oldRecOut - oldRecIn;
    var newLength := newRecOut - newRecIn;
    var timeDiff := newLength - oldLength;

    details := TrimDetails(timeDiff, oldLength, newLength,
      o.sourceIn, n.sourceIn, o.sourceOut, n.sourceOut, None, None);

    var headDiff := newSrcIn - oldSrcIn;
    if headDiff < 0 {
      details := details.(head := Some(EndChange(Extended, o.sourceIn, n.sourceIn)));
    } else if headDiff > 0 {
      details := details.(head := Some(EndChange(Trimmed, o.sourceIn, n.sourceIn)));
    }

    var tailDiff := newSrcOut - oldSrcOut;
    if tailDiff > 0 {
      details := details.(tail := Some(EndChange(Extended, o.sourceOut, n.sourceOut)));
    } else if tailDiff < 0 {
      details := details.(tail := Some(EndChange(Trimmed, o.sourceOut, n.sourceOut)));
    }
  }

  function Flip(d: Direction): Direction
  {
    if d == Extended then Trimmed else Extended
  }

  /** An end change seen from the other side: the opposite direction, from and to exchanged. */
  function MirrorEnd(c: Option<EndChange>): Option<EndChange>
  {
    match c
    case None => None
    case Some(EndChange(dir, a, b)) => Some(EndChange(Flip(dir), b, a))
  }

  /** Trim details seen from the other side. */
  function Mirror(d: TrimDetails): TrimDetails
  {
    TrimDetails(-d.timeDiffFrames, d.newLengthFrames, d.oldLengthFrames,
      d.newSourceIn, d.oldSourceIn, d.newSourceOut, d.oldSourceOut,
      MirrorEnd(d.head), MirrorEnd(d.tail))
  }

  /**
   * Comparing the new edit against the old one reports the same figures
   * mirrored: the time difference negated, the lengths exchanged, and every
   * extension a trim and every trim an extension.
   */
  lemma TrimDetailsSwap(o: Edit, n: Edit, fps: int)
    requires Timed(o) && Timed(n)
    ensures TrimDetailsOf(n, o, fps) == Mirror(TrimDetailsOf(o, n, fps))
  {
  }

  /**
   * A slip, which moves the source range without changing its length, moves
   * both ends the same way: the head and the tail are both reported, one
   * extended and the other trimmed.
   */
  lemma SlipMovesBothEnds(o: Edit, n: Edit, fps: int)
    requires Timed(o) && Timed(n)
    requires OutFrames(n, fps) - InFrames(n, fps) == OutFrames(o, fps) - InFrames(o, fps)
    requires InFrames(n, fps) != InFrames(o, fps)
    ensures var d := TrimDetailsOf(o, n, fps);
      d.head.Some? && d.tail.Some? && d.head.value.direction != d.tail.value.direction
  {
  }

  /**
   * When the new source range contains the old one, no end is reported as
   * trimmed; when it lies inside the old one, no end is reported as extended.
   */
  lemma NestedRanges(o: Edit, n: Edit, fps: int)
    requires Timed(o) && Timed(n)
    ensures var d := TrimDetailsOf(o, n, fps);
      InFrames(n, fps) <= InFrames(o, fps) && OutFrames(o, fps) <= OutFrames(n, fps) ==>
        (d.head.Some? ==> d.head.value.direction == Extended) && (d.tail.Some? ==> d.tail.value.direction == Extended)
    ensures var d := TrimDetailsOf(o, n, fps);
      InFrames(o, fps) <= InFrames(n, fps) && OutFrames(n, fps) <= OutFrames(o, fps) ==>
        (d.head.Some? ==> d.head.value.direction == Trimmed) && (d.tail.Some? ==> d.tail.value.direction == Trimmed)
  {
  }

  // ---------------------------------------------------------------------------
  // Classifying one position

  /** The positions where the comparison computes trim details: same reel, different source timecodes. */
  predicate NeedsTrim(o: Edit, n: Edit)
  {
    o.reel == n.reel && !(o.sourceIn == n.sourceIn && o.sourceOut == n.sourceOut)
  }

  /** What the comparison needs of a pair: readable timecodes where trim details are computed. */
  predicate Comparable(o: Option<Edit>, n: Option<Edit>)
  {
    o.Some? && n.Some? && NeedsTrim(o.value, n.value) ==> Timed(o.value) && Timed(n.value)
  }

  /**
   * The change record for one position. A missing old edit makes the new one
   * an addition; a missing new edit makes the old one a deletion; a different
   * reel is reported as an addition carrying both edits; equal identity
   * triples mean unchanged; otherwise the edit changed and carries trim details.
   */
  function Classify(o: Option<Edit>, n: Option<Edit>, fps: int): (c: Change)
    requires o.Some? || n.Some?
    requires Comparable(o, n)
    ensures c.oldEdit == o && c.newEdit == n
    ensures c.kind == Deleted <==> n.None?
    ensures c.kind == New <==> o.None? || (n.Some? && o.value.reel != n.value.reel)
    ensures c.kind == Unchanged <==> o.Some? && n.Some? && o.value.Key() == n.value.Key()
    ensures c.kind == Changed <==> o.Some? && n.Some? && NeedsTrim(o.value, n.value)
    ensures c.kind in {Unchanged, Deleted} ==> c.details == NoDetails
    ensures c.kind == New ==> c.details == Description(CLIP_ADDED)
    ensures c.kind == Changed ==> c.details == Trim(TrimDetailsOf(o.value, n.value, fps))
  {
    if o.None? && n.Some? then
      Change(New, None, n, Description(CLIP_ADDED))
    else if o.Some? && n.None? then
      Change(Deleted, o, None, NoDetails)
    else if o.value.reel != n.value.reel then
      Change(New, o, n, Description(CLIP_ADDED))
    else if o.value.sourceIn == n.value.sourceIn && o.value.sourceOut == n.value.sourceOut then
      Change(Unchanged, o, n, NoDetails)
    else
      Change(Changed, o, n, Trim(TrimDetailsOf(o.value, n.value, fps)))
  }

  // ---------------------------------------------------------------------------
  // Comparing the lists

  /** The edit at position `i`, or nothing past the end. */
  function At(es: seq<Edit>, i: nat): (e: Option<Edit>)
    ensures e.Some? <==> i < |es|
    ensures e.Some? ==> e.value == es[i]
  {
    if i < |es| then Some(es[i]) else None
  }

  function Max(a: nat, b: nat): nat
  {
    if a < b then b else a
  }

  /** The two lists can be compared: every pair the comparison computes trim details for has readable timecodes. */
  predicate CompareReady(olds: seq<Edit>, news: seq<Edit>)
  {
    forall i :: 0 <= i < |olds| && i < |news| ==> Comparable(At(olds, i), At(news, i))
  }

  /** The change records of the comparison, one per position up to the longer list's length. */
  function CompareSpec(olds: seq<Edit>, news: seq<Edit>, fps: int): (changes: seq<Change>)
    requires CompareReady(olds, news)
    ensures |changes| == Max(|olds|, |news|)
    ensures forall i :: 0 <= i < |changes| ==> changes[i] == Classify(At(olds, i), At(news, i), fps)
  {
    seq(Max(|olds|, |news|), i requires 0 <= i < Max(|olds|, |news|) => Classify(At(olds, i), At(news, i), fps))
  }

  /** `compare_edls`. */
  method CompareEdls(olds: seq<Edit>, news: seq<Edit>, fps: int) returns (changes: seq<Change>)
    requires CompareReady(olds, news)
    ensures changes == CompareSpec(olds, news, fps)
  {
    changes := [];
    var maxLen := if |olds| < |news| then |news| else |olds|;
    for i := 0 to maxLen
      invariant |changes| == i
      invariant forall k :: 0 <= k < i ==> changes[k] == Classify(At(olds, k), At(news, k), fps)
    {
      var oldEdit := if i < |olds| then Some(olds[i]) else None;
      var newEdit := if i < |news| then Some(news[i]) else None;
      var change;
      if oldEdit.None? && newEdit.Some? {
        change := Change(New, None, newEdit, Description(CLIP_ADDED));
      } else if oldEdit.Some? && newEdit.None? {
        change := Change(Deleted, oldEdit, None, NoDetails);
      } else if oldEdit.value.reel != newEdit.value.reel {
        change := Change(New, oldEdit, newEdit, Description(CLIP_ADDED));
      } else if oldEdit.value.sourceIn == newEdit.value.sourceIn && oldEdit.value.sourceOut == newEdit.value.sourceOut {
        change := Change(Unchanged, oldEdit, newEdit, NoDetails);
      } else {
        assert Comparable(At(olds, i), At(news, i));
        var details := ComputeTrimDetails(oldEdit.value, newEdit.value, fps);
        change := Change(Changed, oldEdit, newEdit, Trim(details));
      }
      changes := changes + [change];
    }
  }

  // ---------------------------------------------------------------------------
  // Properties of the whole comparison

  /** A list compared with itself is unchanged at every position. */
  lemma SelfCompareUnchanged(es: seq<Edit>, fps: int)
    ensures CompareReady(es, es)
    ensures forall i :: 0 <= i < |CompareSpec(es, es, fps)| ==> CompareSpec(es, es, fps)[i].kind == Unchanged
  {
  }

  /**
   * Swapping the two lists swaps additions at the end with deletions,
   * keeps unchanged and different-reel positions, and mirrors the trim details.
   */
  lemma CompareSwap(olds: seq<Edit>, news: seq<Edit>, fps: int, i: nat)
    requires CompareReady(olds, news) && i < Max(|olds|, |news|)
    ensures CompareReady(news, olds)
    ensures var c, c' := CompareSpec(olds, news, fps)[i], CompareSpec(news, olds, fps)[i];
      && (c.kind == Unchanged <==> c'.kind == Unchanged)
      && (c.kind == Deleted <==> c'.kind == New && c'.oldEdit.None?)
      && ((c.kind == New && c.oldEdit.Some?) <==> (c'.kind == New && c'.oldEdit.Some?))
      && (c.kind == Changed <==> c'.kind == Changed)
      && (c.kind == Changed ==> c'.details == Trim(Mirror(c.details.trim)))
  {
    var o, n := At(olds, i), At(news, i);
    if o.Some? && n.Some? && NeedsTrim(o.value, n.value) {
      TrimDetailsSwap(o.value, n.value, fps);
    }
  }
}
