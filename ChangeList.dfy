/**
 * The comparison and the renderer together: what change list two edit lists
 * produce.
 */
module ChangeList {
  import opened Wrappers
  import opened Collect
  import opened Edl
  import opened Compare
  import opened Render

  /** Every record the comparison produces can be written, at a positive frame rate. */
  lemma ComparedRenderable(olds: seq<Edit>, news: seq<Edit>, fps: int)
    requires CompareReady(olds, news) && fps > 0
    ensures Renderable(CompareSpec(olds, news, fps), fps)
  {
  }

  /** Comparing a list with itself writes nothing. */
  lemma {:induction false} SameListWritesNothing(es: seq<Edit>, fps: int)
    ensures CompareReady(es, es)
    ensures RenderSpec(CompareSpec(es, es, fps), fps) == []
  {
    SelfCompareUnchanged(es, fps);
    var changes := CompareSpec(es, es, fps);
    SomesOfNones(Lines(changes, fps), 0);
  }

  /** Edits removed from the end of the list are not reported. */
  lemma {:induction false} TrailingDeletionsUnreported(es: seq<Edit>, removed: seq<Edit>, fps: int)
    ensures CompareReady(es + removed, es)
    ensures RenderSpec(CompareSpec(es + removed, es, fps), fps) == []
  {
    var olds := es + removed;
    assert forall i :: 0 <= i < |es| ==> At(olds, i) == At(es, i);
    var changes := CompareSpec(olds, es, fps);
    assert forall i :: 0 <= i < |changes| ==> changes[i].kind == Unchanged || changes[i].kind == Deleted;
    SomesOfNones(Lines(changes, fps), 0);
  }

  /**
   * Edits appended to the end of the list are reported as one "New" line
   * each, in order, with the edit's record in point and clip name.
   */
  lemma {:induction false} AppendedEditsReported(es: seq<Edit>, added: seq<Edit>, fps: int)
    requires fps > 0
    ensures CompareReady(es, es + added)
    ensures var written := RenderSpec(CompareSpec(es, es + added, fps), fps);
      && |written| == |added|
      && forall k :: 0 <= k < |added| ==> written[k] == NewLine(added[k])
  {
    var news := es + added;
    assert forall i :: 0 <= i < |es| ==> At(news, i) == At(es, i);
    var changes := CompareSpec(es, news, fps);
    var lines := Lines(changes, fps);
    assert forall i :: 0 <= i < |es| ==> changes[i].kind == Unchanged;
    SomesSkipNones(lines, 0, |es|);
    forall i | |es| <= i < |changes|
      ensures lines[i] == Some(NewLine(added[i - |es|]))
    {
      assert changes[i].kind == New && changes[i].newEdit == Some(added[i - |es|]);
    }
    SomesOfAllSome(lines, |es|);
    var written := RenderSpec(changes, fps);
    forall k | 0 <= k < |added|
      ensures written[k] == NewLine(added[k])
    {
      assert written[k] == lines[|es| + k].value;
      assert |es| + k - |es| == k;
    }
  }

  /**
   * An edit from another reel at a position is reported as one "New" line
   * with the new edit's record in point and clip name.
   */
  lemma ReelSwapReported(o: Edit, n: Edit, fps: int)
    requires o.reel != n.reel
    ensures Comparable(Some(o), Some(n))
    ensures LineOf(Classify(Some(o), Some(n), fps), fps) == Some(NewLine(n))
  {
  }

  /**
   * An edit of the same reel with other source timecodes is reported as one
   * yellow "Changed" line at the new edit's record in point, described by
   * its trim details and the new edit's clip name.
   */
  lemma TrimReported(o: Edit, n: Edit, fps: int)
    requires NeedsTrim(o, n) && Timed(o) && Timed(n) && fps > 0
    ensures LineOf(Classify(Some(o), Some(n), fps), fps)
      == Some(ReportLine("Changed", n.recordIn, "yellow", ChangedDescription(TrimDetailsOf(o, n, fps), n.clipName, fps)))
  {
  }
}
