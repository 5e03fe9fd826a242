/**
 * The timecode codec: `HH:MM:SS:FF` text against a frame count at a frame
 * rate `fps`, with Python's integer arithmetic (floor division and a
 * non-negative remainder, which is what Dafny's `/` and `%` give for the
 * positive divisors used here).
 */
module Timecode {
  import opened Text

  /** A timecode `tc_to_frames` can read: split on ':' it gives exactly four numerals. */
  predicate WellFormed(tc: string)
  {
    var parts := Split(tc, ':');
    |parts| == 4 && IsNumeral(parts[0]) && IsNumeral(parts[1]) && IsNumeral(parts[2]) && IsNumeral(parts[3])
  }

  /** The value of component `k` (0 hours, 1 minutes, 2 seconds, 3 frames). */
  function Field(tc: string, k: nat): nat
    requires WellFormed(tc) && k < 4
  {
    DigitsValue(Split(tc, ':')[k])
  }

  /** A timecode as `"%02d:%02d:%02d:%02d"` writes it, with minutes, seconds and frames in range. */
  predicate Canonical(tc: string, fps: int)
  {
    && WellFormed(tc)
    && (forall k :: 0 <= k < 4 ==> |Split(tc, ':')[k]| == 2)
    && Field(tc, 1) < 60 && Field(tc, 2) < 60 && Field(tc, 3) < fps
  }

  /** `tc_to_frames`: ((h*60 + m)*60 + s)*fps + f. */
  function TcToFrames(tc: string, fps: int): (frames: int)
    requires WellFormed(tc)
    ensures fps >= 0 ==> frames >= 0
  {
    var seconds := (Field(tc, 0) * 60 + Field(tc, 1)) * 60 + Field(tc, 2);
    MulNonNegative(seconds, fps);
    seconds * fps + Field(tc, 3)
  }

  /**
   * What `parse_tc` accepts: at least four numerals separated by ':'. It
   * indexes the first four, so further numerals are read and ignored.
   */
  predicate ParsableAt24(tc: string)
  {
    var parts := Split(tc, ':');
    |parts| >= 4 && forall k :: 0 <= k < |parts| ==> IsNumeral(parts[k])
  }

  /** `parse_tc`: the fixed 24 fps reading, which agrees with `tc_to_frames` on its own domain. */
  function ParseTc(tc: string): (frames: int)
    requires ParsableAt24(tc)
    ensures WellFormed(tc) ==> frames == TcToFrames(tc, 24)
  {
    var p := Split(tc, ':');
    ((DigitsValue(p[0]) * 60 + DigitsValue(p[1])) * 60 + DigitsValue(p[2])) * 24 + DigitsValue(p[3])
  }

  /** The four fields written with `%02d` and joined by ':'. */
  function Format(h: nat, m: nat, s: nat, f: nat): string
  {
    Join([Pad2(h), Pad2(m), Pad2(s), Pad2(f)], ':')
  }

  lemma FormatFields(h: nat, m: nat, s: nat, f: nat)
    ensures WellFormed(Format(h, m, s, f))
    ensures Split(Format(h, m, s, f), ':') == [Pad2(h), Pad2(m), Pad2(s), Pad2(f)]
    ensures Field(Format(h, m, s, f), 0) == h && Field(Format(h, m, s, f), 1) == m
    ensures Field(Format(h, m, s, f), 2) == s && Field(Format(h, m, s, f), 3) == f
  {
    var parts := [Pad2(h), Pad2(m), Pad2(s), Pad2(f)];
    Pad2Value(h);
    Pad2Value(m);
    Pad2Value(s);
    Pad2Value(f);
    forall k | 0 <= k < 4
      ensures ':' !in parts[k]
    {
      assert IsNumeral(parts[k]);
    }
    SplitJoin(parts, ':');
  }

  /**
   * The arithmetic of `frames_to_tc`: hours, then minutes, seconds and frames
   * taken from the successive remainders.
   */
  function Components(frames: int, fps: int): (c: (nat, nat, nat, nat))
    requires frames >= 0 && fps > 0
    ensures c.1 < 60 && c.2 < 60 && c.3 < fps
  {
    var hour, minute := 60 * 60 * fps, 60 * fps;
    NonNegativeDivision(frames, hour);
    var h, rest := frames / hour, frames % hour;
    QuotientBelow(rest, 60, minute);
    var m, rest' := rest / minute, rest % minute;
    QuotientBelow(rest', 60, fps);
    (h, m, rest' / fps, rest' % fps)
  }

  /** `frames_to_tc` for a non-negative frame count. */
  function FramesToTc(frames: int, fps: int): (tc: string)
    requires frames >= 0 && fps > 0
    ensures WellFormed(tc)
    ensures Field(tc, 1) < 60 && Field(tc, 2) < 60 && Field(tc, 3) < fps
  {
    var c := Components(frames, fps);
    FormatFields(c.0, c.1, c.2, c.3);
    Format(c.0, c.1, c.2, c.3)
  }

  /** `subtract_tc`: the duration from `inTc` to `outTc`, as a timecode. */
  function SubtractTc(outTc: string, inTc: string, fps: int): (tc: string)
    requires WellFormed(outTc) && WellFormed(inTc) && fps > 0
    requires TcToFrames(inTc, fps) <= TcToFrames(outTc, fps)
    ensures WellFormed(tc)
    ensures TcToFrames(tc, fps) == TcToFrames(outTc, fps) - TcToFrames(inTc, fps)
  {
    var d := TcToFrames(outTc, fps) - TcToFrames(inTc, fps);
    FramesRoundTrip(d, fps);
    FramesToTc(d, fps)
  }

  lemma Euclid(n: int, d: int)
    requires d > 0
    ensures n == (n / d) * d + n % d && 0 <= n % d < d
  {
  }

  lemma Recompose(n: int, fps: int)
    requires n >= 0 && fps > 0
    ensures var c := Components(n, fps); ((c.0 * 60 + c.1) * 60 + c.2) * fps + c.3 == n
  {
    var hour, minute := 60 * 60 * fps, 60 * fps;
    var h, rest := n / hour, n % hour;
    var m, rest' := rest / minute, rest % minute;
    var s, f := rest' / fps, rest' % fps;
    assert Components(n, fps) == (h, m, s, f);
    Euclid(n, hour);
    Euclid(rest, minute);
    Euclid(rest', fps);
    Expand(h, m, s, f, fps);
  }

  lemma DivModUnique(n: int, d: int, q: int, r: int)
    requires d > 0 && 0 <= r < d && n == q * d + r
    ensures n / d == q && n % d == r
  {
    var q', r' := n / d, n % d;
    Euclid(n, d);
    assert (q - q') * d == r' - r;
    if q' < q {
      MulAtLeastOnce(q - q', d);
    } else if q < q' {
      MulAtLeastOnce(q' - q, d);
    }
  }

  lemma MulAtLeastOnce(k: int, d: int)
    requires k >= 1 && d > 0
    ensures k * d >= d
  {
  }

  lemma QuotientBelow(a: int, q: int, d: int)
    requires 0 <= a < q * d && d > 0
    ensures 0 <= a / d < q && 0 <= a % d < d
  {
  }

  lemma NonNegativeDivision(a: int, d: int)
    requires a >= 0 && d > 0
    ensures a / d >= 0 && 0 <= a % d < d
  {
  }
  lemma Unfold(h: nat, m: nat, s: nat, f: nat, fps: int)
    requires fps > 0 && m < 60 && s < 60 && f < fps
    ensures Components(((h * 60 + m) * 60 + s) * fps + f, fps) == (h, m, s, f)
  {
    var hour, minute := 60 * 60 * fps, 60 * fps;
    var secPart := s * fps + f;
    var minPart := m * minute + secPart;
    assert secPart < minute by {
      MulLe(s, 59, fps);
    }
    assert minPart < hour by {
      MulLe(m, 59, minute);
    }
    var n := ((h * 60 + m) * 60 + s) * fps + f;
    Expand(h, m, s, f, fps);
    DivModUnique(n, hour, h, minPart);
    DivModUnique(minPart, minute, m, secPart);
    DivModUnique(secPart, fps, s, f);
  }

  /** The frame count of four fields, regrouped by the sizes of an hour, a minute and a second. */
  lemma Expand(h: int, m: int, s: int, f: int, fps: int)
    ensures ((h * 60 + m) * 60 + s) * fps + f == h * (60 * 60 * fps) + (m * (60 * fps) + (s * fps + f))
  {
    var hm := h * 60 + m;
    Distribute(hm * 60, s, fps);
    Associate(hm, 60, fps);
    Distribute(h * 60, m, 60 * fps);
    Associate(h, 60, 60 * fps);
    Associate(60, 60, fps);
  }

  lemma Distribute(a: int, b: int, c: int)
    ensures (a + b) * c == a * c + b * c
  {
  }

  lemma Associate(a: int, b: int, c: int)
    ensures a * b * c == a * (b * c)
  {
  }

  lemma MulNonNegative(a: int, b: int)
    ensures a >= 0 && b >= 0 ==> a * b >= 0
  {
  }

  lemma MulLe(a: int, b: int, c: int)
    requires 0 <= a <= b && c >= 0
    ensures a * c <= b * c
  {
  }

  /** Reading back a written frame count gives the count (changelist.py:47-58). */
  lemma FramesRoundTrip(n: int, fps: int)
    requires n >= 0 && fps > 0
    ensures TcToFrames(FramesToTc(n, fps), fps) == n
  {
    var c := Components(n, fps);
    FormatFields(c.0, c.1, c.2, c.3);
    Recompose(n, fps);
  }

  /** Writing the fields of a canonical timecode with `%02d` gives back its text. */
  lemma FormatOfCanonical(tc: string, fps: int)
    requires Canonical(tc, fps)
    ensures Format(Field(tc, 0), Field(tc, 1), Field(tc, 2), Field(tc, 3)) == tc
  {
    var parts := Split(tc, ':');
    Pad2OfTwoDigits(parts[0]);
    Pad2OfTwoDigits(parts[1]);
    Pad2OfTwoDigits(parts[2]);
    Pad2OfTwoDigits(parts[3]);
    assert [Pad2(Field(tc, 0)), Pad2(Field(tc, 1)), Pad2(Field(tc, 2)), Pad2(Field(tc, 3))] == parts;
  }

  /** Writing a read canonical timecode gives the same text back (changelist.py:47-58). */
  lemma TimecodeRoundTrip(tc: string, fps: int)
    requires fps > 0 && Canonical(tc, fps)
    ensures FramesToTc(TcToFrames(tc, fps), fps) == tc
  {
    var h, m, s, f := Field(tc, 0), Field(tc, 1), Field(tc, 2), Field(tc, 3);
    var n := TcToFrames(tc, fps);
    assert n == ((h * 60 + m) * 60 + s) * fps + f;
    Unfold(h, m, s, f, fps);
    assert Components(n, fps) == (h, m, s, f);
    FormatOfCanonical(tc, fps);
    assert FramesToTc(n, fps) == Format(h, m, s, f);
  }
}
