// Sequences of array values seen through ranges of absolute positions, as
// the segment trees of projects/05-segmentTreeRangeUpdates use them: the
// element s[k] of a sequence that starts at position base sits at position
// base + k.
module Ranges {

  /** Integer.MIN_VALUE, the value queryMax gives a disjoint node. */
  const MinValue: int := -0x8000_0000

  function Max(a: int, b: int): int
  {
    if a >= b then a else b
  }

  /** The position nearest to i in [lo, hi]: where a point operation that
      walks down by comparing i with the left child's end arrives. */
  function Clamp(i: int, lo: int, hi: int): (c: int)
    requires lo <= hi
    ensures lo <= c <= hi
    ensures lo <= i <= hi ==> c == i
  {
    if i < lo then lo else if i > hi then hi else i
  }

  /** A slice split after position mid. */
  lemma SliceSplit(s: seq<int>, l: int, mid: int, r: int)
    requires 0 <= l <= mid <= r < |s|
    ensures s[l..mid + 1] + s[mid + 1..r + 1] == s[l..r + 1]
  {
  }

  /** An element of the left part of a concatenation. */
  lemma PickLeft(s: seq<int>, a: seq<int>, b: seq<int>, k: int, x: int)
    requires s == a + b && 0 <= k < |a| && x == a[k]
    ensures x == s[k]
  {
  }

  /** An element of the right part of a concatenation. */
  lemma PickRight(s: seq<int>, a: seq<int>, b: seq<int>, k: int, j: int, x: int)
    requires s == a + b && 0 <= j < |b| && k == |a| + j && x == b[j]
    ensures x == s[k]
  {
  }

  // ---------------------------------------------------------------------
  // Restriction to a range

  /** The elements at positions l..r, in order. */
  function Within(s: seq<int>, base: int, l: int, r: int): (w: seq<int>)
    ensures |w| <= |s|
    decreases |s|
  {
    if |s| == 0 then []
    else (if l <= base <= r then [s[0]] else []) + Within(s[1..], base + 1, l, r)
  }

  /** The restriction of a + b, where b starts at position mid. */
  lemma {:induction false} WithinConcat(a: seq<int>, b: seq<int>, base: int, mid: int, l: int, r: int)
    requires mid == base + |a|
    ensures Within(a + b, base, l, r) == Within(a, base, l, r) + Within(b, mid, l, r)
    decreases |a|
  {
    if |a| > 0 {
      assert (a + b)[0] == a[0];
      assert (a + b)[1..] == a[1..] + b;
      WithinConcat(a[1..], b, base + 1, mid, l, r);
    } else {
      assert a + b == b;
    }
  }

  /** A sequence lying inside [l, r] is kept whole. */
  lemma {:induction false} WithinAll(s: seq<int>, base: int, l: int, r: int)
    requires l <= base && base + |s| - 1 <= r
    ensures Within(s, base, l, r) == s
    decreases |s|
  {
    if |s| > 0 {
      WithinAll(s[1..], base + 1, l, r);
      assert s == [s[0]] + s[1..];
    }
  }

  /** A sequence lying outside [l, r] contributes nothing. */
  lemma {:induction false} WithinNone(s: seq<int>, base: int, l: int, r: int)
    requires base + |s| <= l || r < base
    ensures Within(s, base, l, r) == []
    decreases |s|
  {
    if |s| > 0 {
      WithinNone(s[1..], base + 1, l, r);
    }
  }

  /** For a range inside the sequence, the restriction is the slice. */
  lemma WithinSlice(s: seq<int>, l: int, r: int)
    requires 0 <= l <= r < |s|
    ensures Within(s, 0, l, r) == s[l..r + 1]
  {
    var a, b, c := s[..l], s[l..r + 1], s[r + 1..];
    assert s == a + b + c;
    WithinConcat(a + b, c, 0, r + 1, l, r);
    WithinConcat(a, b, 0, l, l, r);
    WithinNone(a, 0, l, r);
    WithinAll(b, l, l, r);
    WithinNone(c, r + 1, l, r);
  }

  /** An empty range selects nothing. */
  lemma WithinEmptyRange(s: seq<int>, base: int, l: int, r: int)
    requires l > r
    ensures Within(s, base, l, r) == []
  {
    if |s| > 0 {
      WithinEmptyRange(s[1..], base + 1, l, r);
    }
  }

  /** Moving the left end of the range within the part before the
      sequence does not change the restriction. */
  lemma {:induction false} WithinClipLeft(s: seq<int>, base: int, l: int, r: int, l1: int)
    requires l1 == l || (l <= base && l1 <= base)
    ensures Within(s, base, l, r) == Within(s, base, l1, r)
    decreases |s|
  {
    if |s| > 0 {
      WithinClipLeft(s[1..], base + 1, l, r, l1);
    }
  }

  /** Moving the right end of the range within the part after the
      sequence, whose last position is last, does not change the
      restriction. */
  lemma {:induction false} WithinClipRight(s: seq<int>, base: int, last: int, l: int, r: int, r1: int)
    requires last == base + |s| - 1
    requires r1 == r || (r >= last && r1 >= last)
    ensures Within(s, base, l, r) == Within(s, base, l, r1)
    decreases |s|
  {
    if |s| > 0 {
      WithinClipRight(s[1..], base + 1, last, l, r, r1);
    }
  }

  /** Changing an element outside [l, r] does not change the
      restriction. */
  lemma {:induction false} WithinUpdate(s: seq<int>, base: int, k: int, v: int, l: int, r: int)
    requires 0 <= k < |s| && !(l <= base + k <= r)
    ensures Within(s[k := v], base, l, r) == Within(s, base, l, r)
    decreases |s|
  {
    if k == 0 {
      assert s[k := v][1..] == s[1..];
    } else {
      assert s[k := v][1..] == s[1..][k - 1 := v];
      WithinUpdate(s[1..], base + 1, k - 1, v, l, r);
    }
  }

  // ---------------------------------------------------------------------
  // Sums and maxima

  function Sum(s: seq<int>): int
  {
    if |s| == 0 then 0 else s[0] + Sum(s[1..])
  }

  lemma {:induction false} SumConcat(a: seq<int>, b: seq<int>)
    ensures Sum(a + b) == Sum(a) + Sum(b)
    decreases |a|
  {
    if |a| > 0 {
      assert (a + b)[1..] == a[1..] + b;
      SumConcat(a[1..], b);
    } else {
      assert a + b == b;
    }
  }

  /** The largest element of a non-empty sequence. */
  function MaxOf(s: seq<int>): int
    requires |s| > 0
  {
    if |s| == 1 then s[0] else Max(s[0], MaxOf(s[1..]))
  }

  /** MaxOf is an element and bounds every element. */
  lemma {:induction false} MaxOfIsMax(s: seq<int>)
    requires |s| > 0
    ensures MaxOf(s) in s
    ensures forall i :: 0 <= i < |s| ==> s[i] <= MaxOf(s)
  {
    if |s| > 1 {
      MaxOfIsMax(s[1..]);
      forall i | 1 <= i < |s|
        ensures s[i] <= MaxOf(s)
      {
        assert s[i] == s[1..][i - 1];
      }
    }
  }

  lemma {:induction false} MaxOfConcat(a: seq<int>, b: seq<int>)
    requires |a| > 0 && |b| > 0
    ensures MaxOf(a + b) == Max(MaxOf(a), MaxOf(b))
    decreases |a|
  {
    assert (a + b)[1..] == a[1..] + b;
    if |a| > 1 {
      MaxOfConcat(a[1..], b);
    }
  }

  /** The maximum of a possibly empty sequence, with Integer.MIN_VALUE for
      the empty one. */
  function MaxOr(s: seq<int>): int
  {
    if |s| == 0 then MinValue else MaxOf(s)
  }

  /** Every element is at least m. */
  predicate AtLeast(s: seq<int>, m: int)
    decreases |s|
  {
    |s| == 0 || (m <= s[0] && AtLeast(s[1..], m))
  }

  lemma {:induction false} WithinAtLeast(s: seq<int>, base: int, l: int, r: int, m: int)
    requires AtLeast(s, m)
    ensures AtLeast(Within(s, base, l, r), m)
    decreases |s|
  {
    if |s| > 0 {
      WithinAtLeast(s[1..], base + 1, l, r, m);
      var w := Within(s[1..], base + 1, l, r);
      if l <= base <= r {
        assert ([s[0]] + w)[1..] == w;
      } else {
        assert [] + w == w;
      }
    }
  }

  /** The bound holds for a concatenation exactly when it holds for both
      parts. */
  lemma {:induction false} AtLeastConcat(a: seq<int>, b: seq<int>, m: int)
    ensures AtLeast(a + b, m) <==> AtLeast(a, m) && AtLeast(b, m)
    decreases |a|
  {
    if |a| == 0 {
      assert a + b == b;
    } else {
      assert (a + b)[1..] == a[1..] + b;
      AtLeastConcat(a[1..], b, m);
    }
  }

  /** The maximum of values no smaller than m is no smaller than m. */
  lemma {:induction false} MaxOfAtLeast(s: seq<int>, m: int)
    requires |s| > 0 && AtLeast(s, m)
    ensures MaxOf(s) >= m
    decreases |s|
  {
    if |s| > 1 {
      MaxOfAtLeast(s[1..], m);
    }
  }

  /** Over values no smaller than Integer.MIN_VALUE, MaxOr of a
      concatenation is the larger of the parts' MaxOr. */
  lemma MaxOrConcat(a: seq<int>, b: seq<int>)
    requires AtLeast(a, MinValue) && AtLeast(b, MinValue)
    ensures MaxOr(a + b) == Max(MaxOr(a), MaxOr(b))
  {
    if |a| == 0 {
      assert a + b == b;
      if |b| > 0 {
        MaxOfAtLeast(b, MinValue);
      }
    } else if |b| == 0 {
      assert a + b == a;
      MaxOfAtLeast(a, MinValue);
    } else {
      MaxOfConcat(a, b);
    }
  }

  /** The maximum over a range of s = a + b from the maxima over the range
      in a and in b, where b starts at position mid. */
  lemma MaxOrSplit(s: seq<int>, a: seq<int>, b: seq<int>, base: int, mid: int, l: int, r: int, x: int, y: int)
    requires s == a + b && mid == base + |a| && AtLeast(a, MinValue) && AtLeast(b, MinValue)
    requires x == MaxOr(Within(a, base, l, r)) && y == MaxOr(Within(b, mid, l, r))
    ensures Max(x, y) == MaxOr(Within(s, base, l, r))
  {
    WithinConcat(a, b, base, mid, l, r);
    WithinAtLeast(a, base, l, r, MinValue);
    WithinAtLeast(b, mid, l, r, MinValue);
    MaxOrConcat(Within(a, base, l, r), Within(b, mid, l, r));
  }

  // ---------------------------------------------------------------------
  // Range additions and assignments

  /** Every element increased by x. */
  function AddAll(s: seq<int>, x: int): (t: seq<int>)
    ensures |t| == |s|
  {
    seq(|s|, k requires 0 <= k < |s| => s[k] + x)
  }

  lemma AddAllAt(s: seq<int>, x: int, k: int)
    requires 0 <= k < |s|
    ensures AddAll(s, x)[k] == s[k] + x
  {
  }

  lemma AddAllConcat(a: seq<int>, b: seq<int>, x: int)
    ensures AddAll(a + b, x) == AddAll(a, x) + AddAll(b, x)
  {
  }

  lemma AddAllZero(s: seq<int>)
    ensures AddAll(s, 0) == s
  {
  }

  lemma AddAllTwice(s: seq<int>, x: int, y: int)
    ensures AddAll(AddAll(s, x), y) == AddAll(s, x + y)
  {
  }

  lemma MaxOfAddAll(s: seq<int>, x: int)
    requires |s| > 0
    ensures MaxOf(AddAll(s, x)) == MaxOf(s) + x
  {
    if |s| > 1 {
      assert AddAll(s, x)[1..] == AddAll(s[1..], x);
      MaxOfAddAll(s[1..], x);
    }
  }

  /** The elements at positions l..r increased by x. */
  function AddRange(s: seq<int>, base: int, l: int, r: int, x: int): (t: seq<int>)
    ensures |t| == |s|
  {
    seq(|s|, k requires 0 <= k < |s| => if l <= base + k <= r then s[k] + x else s[k])
  }

  lemma AddRangeAt(s: seq<int>, base: int, l: int, r: int, x: int, k: int)
    requires 0 <= k < |s|
    ensures AddRange(s, base, l, r, x)[k] == s[k] + (if l <= base + k <= r then x else 0)
  {
  }

  lemma AddRangeConcat(a: seq<int>, b: seq<int>, base: int, l: int, r: int, x: int)
    ensures AddRange(a + b, base, l, r, x) == AddRange(a, base, l, r, x) + AddRange(b, base + |a|, l, r, x)
  {
  }

  /** Cutting the end of a range back to the last position of s changes
      nothing. */
  lemma AddRangeClipRight(s: seq<int>, base: int, last: int, l: int, r: int, r1: int, x: int)
    requires last == base + |s| - 1 && r1 == (if r < last then r else last)
    ensures AddRange(s, base, l, r1, x) == AddRange(s, base, l, r, x)
  {
  }

  /** Moving the start of a range up to the first position of s changes
      nothing. */
  lemma AddRangeClipLeft(s: seq<int>, base: int, l: int, r: int, l1: int, x: int)
    requires l1 == (if l > base then l else base)
    ensures AddRange(s, base, l1, r, x) == AddRange(s, base, l, r, x)
  {
  }

  /** A range covering s adds to every element. */
  lemma AddRangeAll(s: seq<int>, base: int, l: int, r: int, x: int)
    requires l <= base && base + |s| - 1 <= r
    ensures AddRange(s, base, l, r, x) == AddAll(s, x)
  {
  }

  /** A range missing s adds nothing. */
  lemma AddRangeNone(s: seq<int>, base: int, l: int, r: int, x: int)
    requires l > r || base + |s| <= l || r < base
    ensures AddRange(s, base, l, r, x) == s
  {
  }

  /** Adding to all elements commutes with adding to a range. */
  lemma AddAllAddRange(s: seq<int>, base: int, l: int, r: int, x: int, y: int)
    ensures AddAll(AddRange(s, base, l, r, x), y) == AddRange(AddAll(s, y), base, l, r, x)
  {
  }

  /** A range addition below an addition of v to everything, done on the
      two halves separately, each with the range cut to its half: a covers
      positions base..last and b starts at mid. */
  lemma AddRangeStep(a: seq<int>, b: seq<int>, a': seq<int>, b': seq<int>, base: int, last: int, mid: int,
                     l: int, r: int, r1: int, l2: int, x: int, v: int)
    requires last == base + |a| - 1 && mid == last + 1
    requires r1 == (if r < last then r else last) && l2 == (if l > mid then l else mid)
    requires a' == AddRange(a, base, l, r1, x) && b' == AddRange(b, mid, l2, r, x)
    ensures AddAll(a' + b', v) == AddRange(AddAll(a + b, v), base, l, r, x)
  {
    AddRangeClipRight(a, base, last, l, r, r1, x);
    AddRangeClipLeft(b, mid, l, r, l2, x);
    AddRangeConcat(a, b, base, l, r, x);
    AddAllAddRange(a + b, base, l, r, x, v);
  }

  /** The elements at positions l..r replaced by v. */
  function AssignRange(s: seq<int>, base: int, l: int, r: int, v: int): (t: seq<int>)
    ensures |t| == |s|
  {
    seq(|s|, k requires 0 <= k < |s| => if l <= base + k <= r then v else s[k])
  }

  /** An assignment to a range of s = a + b, where b starts at position
      mid, is the assignment to the range in a and in b. */
  lemma AssignRangeSplit(s: seq<int>, a: seq<int>, b: seq<int>, base: int, mid: int, l: int, r: int, v: int)
    requires s == a + b && mid == base + |a|
    ensures AssignRange(s, base, l, r, v) == AssignRange(a, base, l, r, v) + AssignRange(b, mid, l, r, v)
  {
  }

  /** A range covering s assigns every element. */
  lemma AssignRangeAll(s: seq<int>, base: int, l: int, r: int, v: int)
    requires l <= base && base + |s| - 1 <= r
    ensures AssignRange(s, base, l, r, v) == Fill(v, |s|)
  {
  }

  /** A range missing s changes nothing. */
  lemma AssignRangeNone(s: seq<int>, base: int, l: int, r: int, v: int)
    requires base + |s| <= l || r < base
    ensures AssignRange(s, base, l, r, v) == s
  {
  }

  /** n copies of v. */
  function Fill(v: int, n: nat): (t: seq<int>)
    ensures |t| == n
  {
    seq(n, _ => v)
  }
}
