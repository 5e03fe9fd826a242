/**
 * The small pieces of Python string handling the change-list tool relies on:
 * `int()` of an ASCII digit string, `f"{n}"` and `"%02d"` of an integer,
 * and `str.split(sep)` with an explicit one-character separator.
 */
module Text {

  predicate IsDigit(c: char) { '0' <= c <= '9' }

  predicate AllDigits(s: string) { forall i :: 0 <= i < |s| ==> IsDigit(s[i]) }

  /** A non-empty run of ASCII digits: what `int()` accepts in this model. */
  predicate IsNumeral(s: string) { |s| > 0 && AllDigits(s) }

  /** A numeral without a superfluous leading zero, as `str(n)` writes one. */
  predicate IsCanonicalNumeral(s: string) { IsNumeral(s) && (|s| > 1 ==> s[0] != '0') }

  function DigitValue(c: char): (d: nat)
    requires IsDigit(c)
    ensures d < 10
  {
    c as int - '0' as int
  }

  function DigitChar(d: nat): (c: char)
    requires d < 10
    ensures IsDigit(c) && DigitValue(c) == d
  {
    ('0' as int + d) as char
  }

  lemma DigitCharOfValue(c: char)
    requires IsDigit(c)
    ensures DigitChar(DigitValue(c)) == c
  {
  }

  /** `int(s)` for a string of ASCII digits, read most significant digit first. */
  function DigitsValue(s: string): nat
    requires AllDigits(s)
  {
    if |s| == 0 then 0 else DigitsValue(s[..|s| - 1]) * 10 + DigitValue(s[|s| - 1])
  }

  /** `str(n)` for a non-negative integer. */
  function NatToString(n: nat): (s: string)
    ensures IsCanonicalNumeral(s)
    ensures DigitsValue(s) == n
    decreases n
  {
    if n < 10 then [DigitChar(n)]
    else
      var prefix := NatToString(n / 10);
      assert (prefix + [DigitChar(n % 10)])[..|prefix|] == prefix;
      prefix + [DigitChar(n % 10)]
  }

  /** `str(n)` for any integer: a minus sign, then the digits of the magnitude. */
  function IntToString(n: int): string
  {
    if n < 0 then "-" + NatToString(-n) else NatToString(n)
  }

  /** What `int()` reads back from `str(n)`: an optional minus sign, then a numeral. */
  predicate IsIntText(s: string)
  {
    IsNumeral(s) || (|s| > 1 && s[0] == '-' && IsNumeral(s[1..]))
  }

  /** `int(s)` for text of that shape. */
  function ReadInt(s: string): int
    requires IsIntText(s)
  {
    if s[0] == '-' then 0 - DigitsValue(s[1..]) else DigitsValue(s) as int
  }

  /** `str(n)` is read back as `n`, and it holds nothing but digits and a minus sign. */
  lemma IntToStringRoundTrip(n: int)
    ensures IsIntText(IntToString(n)) && ReadInt(IntToString(n)) == n
    ensures forall k :: 0 <= k < |IntToString(n)| ==> IsDigit(IntToString(n)[k]) || IntToString(n)[k] == '-'
  {
    if n < 0 {
      var s := IntToString(n);
      assert s[1..] == NatToString(-n);
    }
  }

  /** `"%02d" % n` for a non-negative integer: at least two digits, zero-padded. */
  function Pad2(n: nat): string
  {
    if n < 10 then "0" + NatToString(n) else NatToString(n)
  }

  /** Writing a canonical numeral's value gives back the numeral. */
  lemma {:induction false} NatToStringOfNumeral(s: string)
    requires IsCanonicalNumeral(s)
    ensures NatToString(DigitsValue(s)) == s
    decreases |s|
  {
    var last := s[|s| - 1];
    DigitCharOfValue(last);
    if |s| > 1 {
      var prefix := s[..|s| - 1];
      assert prefix[0] == s[0];
      NatToStringOfNumeral(prefix);
      assert prefix + [last] == s;
    }
  }

  /** `"%02d"` output is a numeral that `int()` reads back as the same value. */
  lemma Pad2Value(n: nat)
    ensures IsNumeral(Pad2(n)) && DigitsValue(Pad2(n)) == n
  {
    if n < 10 {
      var s := Pad2(n);
      assert s[..1] == "0";
    }
  }

  /** `"%02d"` gives back any two-digit numeral. */
  lemma Pad2OfTwoDigits(s: string)
    requires |s| == 2 && AllDigits(s)
    ensures Pad2(DigitsValue(s)) == s
  {
    var hi, lo := DigitValue(s[0]), DigitValue(s[1]);
    assert s[..1][..0] == [] && s[..1][0] == s[0];
    assert DigitsValue(s[..1]) == hi;
    assert DigitsValue(s) == hi * 10 + lo;
    DigitCharOfValue(s[0]);
    DigitCharOfValue(s[1]);
    if hi == 0 {
      assert s == "0" + [DigitChar(lo)];
    } else {
      NatToStringOfNumeral(s);
    }
  }

  /** Python's `s.split(sep)`: the text between separators, empty fields included. */
  function Split(s: string, sep: char): (parts: seq<string>)
    ensures |parts| >= 1
    ensures forall k :: 0 <= k < |parts| ==> sep !in parts[k]
    ensures Join(parts, sep) == s
  {
    if |s| == 0 then [""]
    else
      var rest := Split(s[1..], sep);
      if s[0] == sep then [""] + rest
      else
        assert s == [s[0]] + s[1..];
        [[s[0]] + rest[0]] + rest[1..]
  }

  /** `sep.join(parts)`. */
  function Join(parts: seq<string>, sep: char): string
    requires |parts| >= 1
  {
    if |parts| == 1 then parts[0] else parts[0] + [sep] + Join(parts[1..], sep)
  }

  lemma {:induction false} SplitPrefix(a: string, t: string, sep: char)
    requires sep !in a
    ensures Split(a + t, sep) == [a + Split(t, sep)[0]] + Split(t, sep)[1..]
    decreases |a|
  {
    if |a| > 0 {
      var r := Split(t, sep);
      assert (a + t)[1..] == a[1..] + t;
      assert a[0] in a;
      SplitPrefix(a[1..], t, sep);
      var rest := Split(a[1..] + t, sep);
      assert rest[0] == a[1..] + r[0] && rest[1..] == r[1..];
      assert [a[0]] + (a[1..] + r[0]) == a + r[0];
    } else {
      var r := Split(t, sep);
      assert a + t == t && a + r[0] == r[0];
      assert [r[0]] + r[1..] == r;
    }
  }

  /** Splitting undoes joining when no part contains the separator. */
  lemma {:induction false} SplitJoin(parts: seq<string>, sep: char)
    requires |parts| >= 1
    requires forall k :: 0 <= k < |parts| ==> sep !in parts[k]
    ensures Split(Join(parts, sep), sep) == parts
    decreases |parts|
  {
    if |parts| == 1 {
      SplitPrefix(parts[0], "", sep);
      assert parts[0] + "" == parts[0];
    } else {
      var head, rest := parts[0], parts[1..];
      var tail := Join(rest, sep);
      assert Join(parts, sep) == head + ([sep] + tail);
      SplitJoin(rest, sep);
      assert Split([sep] + tail, sep) == [""] + rest by {
        assert ([sep] + tail)[1..] == tail;
      }
      SplitPrefix(head, [sep] + tail, sep);
      assert [head + ""] + ([""] + rest)[1..] == parts by {
        assert head + "" == head;
        assert ([""] + rest)[1..] == rest;
      }
    }
  }

  /** `"".join(parts)`. */
  function Concat(parts: seq<string>): string
  {
    if |parts| == 0 then "" else Concat(parts[..|parts| - 1]) + parts[|parts| - 1]
  }

  lemma ConcatAppend(parts: seq<string>, p: string)
    ensures Concat(parts + [p]) == Concat(parts) + p
  {
    assert (parts + [p])[..|parts|] == parts;
  }

  /** Joining a part in front of others puts its text in front of theirs. */
  lemma {:induction false} ConcatPrepend(p: string, parts: seq<string>)
    ensures Concat([p] + parts) == p + Concat(parts)
    decreases |parts|
  {
    var q := [p] + parts;
    if |parts| == 0 {
      assert q[..0] == [];
    } else {
      var init, last := parts[..|parts| - 1], parts[|parts| - 1];
      assert q[..|q| - 1] == [p] + init;
      assert q[|q| - 1] == last;
      ConcatPrepend(p, init);
      assert Concat(q) == (p + Concat(init)) + last;
      assert Concat(parts) == Concat(init) + last;
    }
  }
}
