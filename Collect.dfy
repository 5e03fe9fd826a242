/**
 * Keeping the present entries of a sequence of optional values, in order.
 * Both the parser (one optional edit per line) and the renderer (one
 * optional output line per change record) have this shape.
 */
module Collect {
  import opened Wrappers

  /** The values of the `Some` entries of `xs` from index `i` on, in order. */
  function Somes<T>(xs: seq<Option<T>>, i: nat): seq<T>
    requires i <= |xs|
    decreases |xs| - i
  {
    if i == |xs| then []
    else (if xs[i].Some? then [xs[i].value] else []) + Somes(xs, i + 1)
  }

  /** The indices `j >= i` of the `Some` entries of `xs`, in increasing order. */
  function SomeIndices<T>(xs: seq<Option<T>>, i: nat): seq<nat>
    requires i <= |xs|
    decreases |xs| - i
  {
    if i == |xs| then []
    else (if xs[i].Some? then [i] else []) + SomeIndices(xs, i + 1)
  }

  /** `SomeIndices` lists only indices of `Some` entries at or after `i`. */
  lemma {:induction false} SomeIndicesInRange<T>(xs: seq<Option<T>>, i: nat)
    requires i <= |xs|
    ensures forall k :: 0 <= k < |SomeIndices(xs, i)| ==>
      i <= SomeIndices(xs, i)[k] < |xs| && xs[SomeIndices(xs, i)[k]].Some?
    decreases |xs| - i
  {
    if i < |xs| {
      SomeIndicesInRange(xs, i + 1);
      var rest := SomeIndices(xs, i + 1);
      if xs[i].Some? {
        var idx := SomeIndices(xs, i);
        assert idx == [i] + rest;
        forall k | 0 < k < |idx|
          ensures i <= idx[k] < |xs| && xs[idx[k]].Some?
        {
          assert idx[k] == rest[k - 1];
        }
      } else {
        assert SomeIndices(xs, i) == rest;
      }
    }
  }

  /** `SomeIndices` lists its indices in increasing order. */
  lemma {:induction false} SomeIndicesIncreasing<T>(xs: seq<Option<T>>, i: nat)
    requires i <= |xs|
    ensures forall k, k' :: 0 <= k < k' < |SomeIndices(xs, i)| ==> SomeIndices(xs, i)[k] < SomeIndices(xs, i)[k']
    decreases |xs| - i
  {
    if i < |xs| {
      SomeIndicesIncreasing(xs, i + 1);
      var rest := SomeIndices(xs, i + 1);
      if xs[i].Some? {
        SomeIndicesInRange(xs, i + 1);
        var idx := SomeIndices(xs, i);
        assert idx == [i] + rest;
        forall k, k' | 0 <= k < k' < |idx|
          ensures idx[k] < idx[k']
        {
          assert idx[k'] == rest[k' - 1];
          if k > 0 {
            assert idx[k] == rest[k - 1];
          }
        }
      } else {
        assert SomeIndices(xs, i) == rest;
      }
    }
  }

  /** `SomeIndices` lists every index of a `Some` entry at or after `i`. */
  lemma {:induction false} SomeIndicesComplete<T>(xs: seq<Option<T>>, i: nat)
    requires i <= |xs|
    ensures forall j :: i <= j < |xs| && xs[j].Some? ==> j in SomeIndices(xs, i)
    decreases |xs| - i
  {
    if i < |xs| {
      SomeIndicesComplete(xs, i + 1);
      var rest := SomeIndices(xs, i + 1);
      if xs[i].Some? {
        assert SomeIndices(xs, i) == [i] + rest;
      } else {
        assert SomeIndices(xs, i) == rest;
      }
    }
  }

  /** The `k`-th kept value is the entry at the `k`-th `Some` index. */
  lemma {:induction false} SomesAtIndices<T>(xs: seq<Option<T>>, i: nat)
    requires i <= |xs|
    ensures |Somes(xs, i)| == |SomeIndices(xs, i)|
    ensures forall k :: 0 <= k < |Somes(xs, i)| ==>
      SomeIndices(xs, i)[k] < |xs| && xs[SomeIndices(xs, i)[k]] == Some(Somes(xs, i)[k])
    decreases |xs| - i
  {
    if i < |xs| {
      SomesAtIndices(xs, i + 1);
      var rest, restIdx := Somes(xs, i + 1), SomeIndices(xs, i + 1);
      if xs[i].Some? {
        assert Somes(xs, i) == [xs[i].value] + rest;
        assert SomeIndices(xs, i) == [i] + restIdx;
        forall k | 0 < k < |Somes(xs, i)|
          ensures SomeIndices(xs, i)[k] < |xs| && xs[SomeIndices(xs, i)[k]] == Some(Somes(xs, i)[k])
        {
          assert Somes(xs, i)[k] == rest[k - 1];
          assert SomeIndices(xs, i)[k] == restIdx[k - 1];
        }
      } else {
        assert Somes(xs, i) == rest;
        assert SomeIndices(xs, i) == restIdx;
      }
    }
  }

  /** A `Some` entry at `i` is kept first. */
  lemma SomesFirst<T>(xs: seq<Option<T>>, i: nat, v: T)
    requires i < |xs| && xs[i] == Some(v)
    ensures Somes(xs, i) == [v] + Somes(xs, i + 1)
  {
  }

  /** With no `Some` entry from `i` on, nothing is kept. */
  lemma {:induction false} SomesOfNones<T>(xs: seq<Option<T>>, i: nat)
    requires i <= |xs|
    requires forall j :: i <= j < |xs| ==> xs[j].None?
    ensures Somes(xs, i) == []
    decreases |xs| - i
  {
    if i < |xs| {
      SomesOfNones(xs, i + 1);
    }
  }

  /** Two adjacent `Some` entries are kept as two adjacent values. */
  lemma {:induction false} AdjacentSomes<T>(xs: seq<Option<T>>, j: nat, i: nat)
    requires j <= i && i + 1 < |xs| && xs[i].Some? && xs[i + 1].Some?
    ensures exists k :: (0 <= k && k + 1 < |Somes(xs, j)|
      && Somes(xs, j)[k] == xs[i].value && Somes(xs, j)[k + 1] == xs[i + 1].value)
    decreases i - j
  {
    if j == i {
      var rest := Somes(xs, i + 2);
      assert Somes(xs, i + 1) == [xs[i + 1].value] + rest;
      assert Somes(xs, i) == [xs[i].value] + ([xs[i + 1].value] + rest);
      assert Somes(xs, j)[0] == xs[i].value && Somes(xs, j)[1] == xs[i + 1].value;
    } else {
      AdjacentSomes(xs, j + 1, i);
      var tail := Somes(xs, j + 1);
      var k :| 0 <= k && k + 1 < |tail| && tail[k] == xs[i].value && tail[k + 1] == xs[i + 1].value;
      var head: seq<T> := if xs[j].Some? then [xs[j].value] else [];
      assert Somes(xs, j) == head + tail;
      assert Somes(xs, j)[|head| + k] == xs[i].value && Somes(xs, j)[|head| + k + 1] == xs[i + 1].value;
    }
  }

  /** `None` entries before index `j` contribute nothing. */
  lemma {:induction false} SomesSkipNones<T>(xs: seq<Option<T>>, i: nat, j: nat)
    requires i <= j <= |xs|
    requires forall k :: i <= k < j ==> xs[k].None?
    ensures Somes(xs, i) == Somes(xs, j)
    decreases j - i
  {
    if i < j {
      SomesSkipNones(xs, i + 1, j);
    }
  }

  /** When every entry from `i` on is present, every value is kept. */
  lemma {:induction false} SomesOfAllSome<T>(xs: seq<Option<T>>, i: nat)
    requires i <= |xs|
    requires forall k :: i <= k < |xs| ==> xs[k].Some?
    ensures |Somes(xs, i)| == |xs| - i
    ensures forall k :: 0 <= k < |xs| - i ==> Somes(xs, i)[k] == xs[i + k].value
    decreases |xs| - i
  {
    if i < |xs| {
      SomesOfAllSome(xs, i + 1);
      var rest := Somes(xs, i + 1);
      assert Somes(xs, i) == [xs[i].value] + rest;
      forall k | 0 < k < |xs| - i
        ensures Somes(xs, i)[k] == xs[i + k].value
      {
        assert Somes(xs, i)[k] == rest[k - 1];
        assert i + k == (i + 1) + (k - 1);
      }
    }
  }
}
