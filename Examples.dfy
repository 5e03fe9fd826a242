/**
 * A worked example at 24 fps: an edit whose source in point moves two seconds
 * later while its record range stays put.
 */
module Examples {
  import opened Wrappers
  import opened Text
  import opened Edl
  import opened Compare
  import opened Render
  import Timecode

  lemma TcLiteral(tc: string, h: nat, m: nat, s: nat, f: nat)
    requires tc == Timecode.Format(h, m, s, f)
    ensures Timecode.WellFormed(tc)
    ensures Timecode.TcToFrames(tc, 24) == ((h * 60 + m) * 60 + s) * 24 + f
  {
    Timecode.FormatFields(h, m, s, f);
  }

  lemma Pad2Literals()
    ensures Pad2(0) == "00" && Pad2(1) == "01" && Pad2(2) == "02" && Pad2(10) == "10"
  {
    assert NatToString(10) == NatToString(1) + "0";
  }

  lemma JoinFour(a: string, b: string, c: string, d: string)
    ensures Join([a, b, c, d], ':') == a + ":" + b + ":" + c + ":" + d
  {
    assert [a, b, c, d][1..] == [b, c, d];
    assert [b, c, d][1..] == [c, d];
    assert [c, d][1..] == [d];
    assert Join([c, d], ':') == c + ":" + d;
    assert Join([b, c, d], ':') == b + ":" + (c + ":" + d);
    assert Join([a, b, c, d], ':') == a + ":" + (b + ":" + (c + ":" + d));
  }

  lemma FormatLiterals()
    ensures Timecode.Format(1, 0, 0, 0) == "01:00:00:00"
    ensures Timecode.Format(1, 0, 10, 0) == "01:00:10:00"
    ensures Timecode.Format(1, 0, 2, 0) == "01:00:02:00"
  {
    Pad2Literals();
    JoinFour("01", "00", "00", "00");
    JoinFour("01", "00", "10", "00");
    JoinFour("01", "00", "02", "00");
  }

  /**
   * Trimming the head of the source range without touching the record range
   * changes no record length: the time difference is zero, the head is
   * trimmed, and the tail is unchanged.
   */
  lemma PureTrimExample()
    ensures var o := Edit("001", "A001", "01:00:00:00", "01:00:10:00", "01:00:00:00", "01:00:10:00", "");
      var n := o.(sourceIn := "01:00:02:00");
      && Timed(o) && Timed(n)
      && TrimDetailsOf(o, n, 24).timeDiffFrames == 0
      && TrimDetailsOf(o, n, 24).head == Some(EndChange(Trimmed, "01:00:00:00", "01:00:02:00"))
      && TrimDetailsOf(o, n, 24).tail == None
  {
    FormatLiterals();
    TcLiteral("01:00:00:00", 1, 0, 0, 0);
    TcLiteral("01:00:10:00", 1, 0, 10, 0);
    TcLiteral("01:00:02:00", 1, 0, 2, 0);
  }

  lemma EmptyClipSuffix(p: string)
    ensures p + "" + "" + " (" + "" + ")" == p + " ()"
  {
  }

  /** The description of that change: the no-time-difference sentence, then the head sentence. */
  lemma PureTrimDescription(o: Edit, n: Edit)
    requires o == Edit("001", "A001", "01:00:00:00", "01:00:10:00", "01:00:00:00", "01:00:10:00", "")
    requires n == o.(sourceIn := "01:00:02:00")
    ensures Timed(o) && Timed(n)
    ensures ChangedDescription(TrimDetailsOf(o, n, 24), "", 24)
      == NO_TIME_DIFFERENCE + EndSentence("HEAD", "trimmed", "01:00:00:00", "01:00:02:00") + " ()"
  {
    PureTrimExample();
    var d := TrimDetailsOf(o, n, 24);
    DescriptionText(d, 24);
    var head := EndSentence("HEAD", "trimmed", "01:00:00:00", "01:00:02:00");
    assert EndPart("HEAD", d.head) == head && EndPart("TAIL", d.tail) == "" && LengthPart(d, 24) == "";
    EmptyClipSuffix(NO_TIME_DIFFERENCE + head);
  }
}
