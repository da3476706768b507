// The DNA helix challenge of
// projects/04-ManachersAlgorithm/programmingChallenge/solutions/HelixSolution.java:
// Manacher's sweep where the two sides of a centre must be complementary
// bases (A-T, C-G) instead of equal, so a radius can be reused from the
// mirror only up to the centre of the enclosing helix, unless the
// character mirrored opposite that centre complements it too.
module Helix {
  import opened Arith
  import opened Manacher

  /** matches: the complementary pairs A-T, C-G and the mark with itself. */
  predicate Matches(a: char, b: char)
  {
    match a
    case 'A' => b == 'T'
    case 'T' => b == 'A'
    case 'C' => b == 'G'
    case 'G' => b == 'C'
    case '#' => b == '#'
    case _ => false
  }

  /** Matches is symmetric and holds for exactly five pairs. */
  lemma MatchesPairs(a: char, b: char)
    ensures Matches(a, b) <==> Matches(b, a)
    ensures Matches(a, b) <==> (a, b) in {('A', 'T'), ('T', 'A'), ('C', 'G'), ('G', 'C'), ('#', '#')}
  {
  }

  lemma MatchesSymmetric(a: char, b: char)
    requires Matches(a, b)
    ensures Matches(b, a)
  {
  }

  /** Each character has at most one partner. */
  lemma MatchesUnique(a: char, b: char, c: char)
    requires Matches(a, c) && Matches(b, c)
    ensures a == b
  {
  }

  /** postprocess: drops every mark. */
  function Postprocess(s: string): (r: string)
    ensures Mark !in r && |r| <= |s|
  {
    if s == [] then [] else (if s[0] == Mark then [] else [s[0]]) + Postprocess(s[1..])
  }

  lemma {:induction false} PostprocessAppend(x: string, y: string)
    ensures Postprocess(x + y) == Postprocess(x) + Postprocess(y)
  {
    if x == [] {
      assert x + y == y;
    } else {
      assert (x + y)[0] == x[0] && (x + y)[1..] == x[1..] + y;
      PostprocessAppend(x[1..], y);
    }
  }

  /** Postprocess keeps a string without marks as it is. */
  lemma {:induction false} PostprocessNoMarks(x: string)
    requires Mark !in x
    ensures Postprocess(x) == x
  {
    if x != [] {
      assert x[0] in x;
      assert forall c :: c in x[1..] ==> c in x;
      PostprocessNoMarks(x[1..]);
    }
  }

  /** Removing the marks of an interleaving leaves the marks-free input. */
  lemma {:induction false} PostprocessInterleaved(x: string)
    ensures Postprocess(Interleaved(x)) == Postprocess(x)
    decreases |x|
  {
    if x != [] {
      var y := x[..|x| - 1];
      var c := x[|x| - 1];
      assert x == y + [c];
      InterleavedSnoc(y, c);
      PostprocessInterleaved(y);
      PostprocessAppend(Interleaved(y), [c, Mark]);
      PostprocessAppend(y, [c]);
      assert Postprocess([c, Mark]) == Postprocess([c]) by {
        assert [c, Mark][1..] == [Mark];
        assert [Mark][1..] == [];
        assert [c][1..] == [];
      }
    }
  }

  /** postprocess(preprocess(x)) == x for a string without marks. */
  lemma RoundTrip(x: string)
    requires Mark !in x
    ensures Postprocess(Interleaved(x)) == x
  {
    PostprocessInterleaved(x);
    PostprocessNoMarks(x);
  }

  /** The slice of an interleaving between two marks interleaves a slice. */
  lemma InterleavedSlice(x: string, a: int, b: int)
    requires 0 <= a <= b <= |x|
    ensures Interleaved(x)[2 * a..2 * b + 1] == Interleaved(x[a..b])
  {
    var t := Interleaved(x)[2 * a..2 * b + 1];
    var t' := Interleaved(x[a..b]);
    forall j | 0 <= j < |t'|
      ensures t[j] == t'[j]
    {
      assert t[j] == Interleaved(x)[2 * a + j];
      if j % 2 == 1 {
        assert (2 * a + j) / 2 == a + j / 2;
      }
    }
  }

  /** The characters k steps after and before i exist and complement each other. */
  ghost predicate Pair(s: string, i: int, k: int)
  {
    0 <= k <= i && i + k < |s| && Matches(s[i + k], s[i - k])
  }

  /** s is complementary for r steps either side of i. */
  ghost predicate HelixAt(s: string, i: int, r: int)
  {
    0 <= r <= i && i + r < |s| && forall k :: 1 <= k <= r ==> Pair(s, i, k)
  }

  /** r is where the expansion around i stops. */
  ghost predicate HelixRadius(s: string, i: int, r: int)
  {
    HelixAt(s, i, r) && !(i + r + 1 < |s| && i - (r + 1) >= 0 && Matches(s[i + r + 1], s[i - (r + 1)]))
  }

  lemma HelixRadiusIsLongest(s: string, i: int, r: int, r': int)
    requires HelixRadius(s, i, r) && HelixAt(s, i, r')
    ensures r' <= r
  {
    assert r' > r ==> Pair(s, i, r + 1);
  }

  /** Inside the helix around c reaching right, the radius at the mirror
      2c - i carries over to i up to any bound that stays short of c, or
      any bound at all once s[2i - c] complements s[c]. */
  lemma HelixMirror(s: string, c: int, right: int, i: int, rm: int, bound: int)
    requires HelixAt(s, c, right - c) && c < i < right && HelixAt(s, 2 * c - i, rm)
    requires 0 <= bound <= right - i && bound <= rm
    requires bound < i - c || (2 * i - c < |s| && Matches(s[2 * i - c], s[c]))
    ensures HelixAt(s, i, bound)
  {
    var m := 2 * c - i;
    forall k | 1 <= k <= bound
      ensures Pair(s, i, k)
    {
      if k != i - c {
        assert Pair(s, c, i + k - c);
        assert Pair(s, m, k);
        MatchesUnique(s[i + k], s[m + k], s[m - k]);
        if i - k > c {
          assert Pair(s, c, i - k - c);
          MatchesSymmetric(s[i - k], s[m + k]);
        } else {
          assert Pair(s, c, c - i + k);
        }
      }
    }
  }

  /** The expansion loop of helix, from the radius r0. */
  method Expand(s: string, i: int, r0: int) returns (r: int)
    requires HelixAt(s, i, r0)
    ensures HelixRadius(s, i, r) && r >= r0
  {
    r := r0;
    while i + r + 1 < |s| && i - (r + 1) >= 0 && Matches(s[i + r + 1], s[i - (r + 1)])
      invariant HelixAt(s, i, r) && r >= r0
      decreases |s| - r
    {
      r := r + 1;
    }
  }

  /** The state before centre i: earlier centres hold their radius, later
      ones are untouched, and right is the reach of the helix at center. */
  ghost predicate Sweep(s: string, p: seq<int>, i: int, center: int, right: int)
  {
    |p| == |s| && 1 <= i <= |s| &&
    (forall k :: 0 <= k < i ==> HelixRadius(s, k, p[k])) &&
    (forall k :: i <= k < |s| ==> p[k] == 0) &&
    0 <= center < i && right == center + p[center]
  }

  lemma SweepStep(s: string, p: seq<int>, i: int, center: int, right: int, v: int, center': int, right': int)
    requires Sweep(s, p, i, center, right) && i < |s| && HelixRadius(s, i, v)
    requires center' == (if i + v > right then i else center)
    requires right' == (if i + v > right then i + v else right)
    ensures Sweep(s, p[i := v], i + 1, center', right')
  {
    var p' := p[i := v];
    forall k | 0 <= k < i + 1
      ensures HelixRadius(s, k, p'[k])
    {
      if k < i {
        assert p'[k] == p[k];
      }
    }
  }

  /** The sweep of helix over the centres 1..|s|-2; the two end centres
      keep radius 0, which is also where their expansion stops. */
  method Radii(s: string) returns (p: array<int>)
    requires |s| >= 1
    ensures p.Length == |s| && forall k :: 0 <= k < |s| ==> HelixRadius(s, k, p[k])
  {
    var n := |s|;
    p := new int[n](_ => 0);
    var center, right := 0, 0;
    assert HelixRadius(s, 0, p[0]);
    var i := 1;
    while i < n - 1
      invariant Sweep(s, p[..], i, center, right)
    {
      ghost var before := p[..];
      var mirroredPos := 2 * center - i;
      var start := p[i];
      if i < right {
        var distFromCenter := i - center;
        var centerMirror := i + distFromCenter;
        if centerMirror < n && Matches(s[centerMirror], s[center]) {
          start := Min(right - i, p[mirroredPos]);
        } else {
          start := Min(Min(right - i, distFromCenter - 1), p[mirroredPos]);
        }
        HelixMirror(s, center, right, i, p[mirroredPos], start);
      }
      var v := Expand(s, i, start);
      p[i] := v;
      assert p[..] == before[i := v];
      var center', right' := center, right;
      if i + v > right {
        center', right' := i, i + v;
      }
      SweepStep(s, before, i, center, right, v, center', right');
      center, right := center', right';
      i := i + 1;
    }
    assert HelixRadius(s, n - 1, p[n - 1]);
  }

  /** The first maximum of the radii, starting from 0 at index 0. */
  method FirstMax(a: array<int>) returns (maxRadius: int, maxCenter: int)
    requires a.Length >= 1 && a[0] >= 0
    ensures 0 <= maxCenter < a.Length && maxRadius == a[maxCenter]
    ensures 0 <= maxRadius && forall k :: 0 <= k < a.Length ==> a[k] <= maxRadius
    ensures forall k :: 0 <= k < maxCenter ==> a[k] < maxRadius
  {
    maxRadius, maxCenter := 0, 0;
    var i := 0;
    while i < a.Length
      invariant 0 <= i <= a.Length
      invariant 0 <= maxCenter < a.Length && (maxRadius == a[maxCenter] || i == 0)
      invariant 0 <= maxRadius && forall k :: 0 <= k < i ==> a[k] <= maxRadius
      invariant forall k :: 0 <= k < maxCenter ==> a[k] < maxRadius
      invariant maxCenter <= i && (i == 0 ==> maxCenter == 0 && maxRadius == 0)
    {
      if a[i] > maxRadius {
        maxRadius := a[i];
        maxCenter := i;
      }
      i := i + 1;
    }
  }

  /** In y, each character complements its mirror, save the middle one of
      an odd length. */
  ghost predicate IsHelix(y: string)
  {
    forall q :: 0 <= q < |y| && 2 * q + 1 != |y| ==> Matches(y[q], y[|y| - 1 - q])
  }

  /** input[a..b] is a helix and no helix substring of input is longer. */
  ghost predicate LongestHelix(input: string, a: int, b: int)
  {
    0 <= a <= b <= |input| && IsHelix(input[a..b]) &&
    forall a', b' :: 0 <= a' <= b' <= |input| && IsHelix(input[a'..b']) ==> b' - a' <= b - a
  }

  /** A stopped radius ends on marks: its left end is even. */
  lemma HelixRadiusEven(x: string, s: string, i: int, r: int)
    requires s == Interleaved(x) && HelixRadius(s, i, r)
    ensures (i - r) % 2 == 0
  {
    if (i - r) % 2 == 1 {
      var y := (i - r - 1) / 2;
      MarkAt(x, i - r - 1, y);
      MarkAt(x, i + r + 1, y + r + 1);
    }
  }

  lemma HelixSliceAt(x: string, s: string, a: int, r: int, q: int)
    requires s == Interleaved(x) && 0 <= a && HelixAt(s, 2 * a + r, r) && 0 <= q < r && 2 * q + 1 != r
    ensures a + r <= |x| && Matches(x[a + q], x[a + r - 1 - q])
  {
    var i := 2 * a + r;
    var k := r - 2 * q - 1;
    CharAt(x, i - k, a + q);
    CharAt(x, i + k, a + r - 1 - q);
    if k > 0 {
      assert Pair(s, i, k);
      assert Matches(x[a + r - 1 - q], x[a + q]);
      MatchesSymmetric(x[a + r - 1 - q], x[a + q]);
    } else {
      assert Pair(s, i, -k);
    }
  }

  /** A helix of s around 2a + r gives the helix x[a..a+r]. */
  lemma HelixSlice(x: string, s: string, a: int, r: int)
    requires s == Interleaved(x) && 0 <= a && HelixAt(s, 2 * a + r, r)
    ensures a + r <= |x| && IsHelix(x[a..a + r])
  {
    var y := x[a..a + r];
    forall q | 0 <= q < r && 2 * q + 1 != r
      ensures Matches(y[q], y[r - 1 - q])
    {
      HelixSliceAt(x, s, a, r, q);
    }
  }

  lemma HelixCenterAt(x: string, s: string, a: int, b: int, k: int)
    requires s == Interleaved(x) && 0 <= a <= b <= |x| && IsHelix(x[a..b]) && 1 <= k <= b - a
    ensures Pair(s, a + b, k)
  {
    var y := x[a..b];
    var lo := (a + b - k) / 2;
    if (a + b - k) % 2 == 1 {
      assert a + b - k == 2 * lo + 1 && a + b + k == 2 * (lo + k) + 1;
      assert a <= lo && lo + k < b;
      CharAt(x, a + b - k, lo);
      CharAt(x, a + b + k, lo + k);
      assert y[lo - a] == x[lo] && y[|y| - 1 - (lo - a)] == x[lo + k];
      assert 2 * (lo - a) + 1 != |y|;
      assert Matches(x[lo], x[lo + k]);
      MatchesSymmetric(x[lo], x[lo + k]);
    } else {
      assert a + b - k == 2 * lo && a + b + k == 2 * (lo + k);
      MarkAt(x, a + b - k, lo);
      MarkAt(x, a + b + k, lo + k);
    }
  }

  /** A helix x[a..b] is a helix of s around a + b of radius b - a. */
  lemma HelixCenter(x: string, s: string, a: int, b: int)
    requires s == Interleaved(x) && 0 <= a <= b <= |x| && IsHelix(x[a..b])
    ensures HelixAt(s, a + b, b - a)
  {
    var c := a + b;
    forall k | 1 <= k <= b - a
      ensures Pair(s, c, k)
    {
      HelixCenterAt(x, s, a, b, k);
    }
  }

  lemma HelixBound(x: string, s: string, p: seq<int>, maxRadius: int, a: int, b: int)
    requires s == Interleaved(x) && |p| == |s|
    requires forall k :: 0 <= k < |s| ==> HelixRadius(s, k, p[k]) && p[k] <= maxRadius
    requires 0 <= maxRadius && 0 <= a <= b <= |x| && IsHelix(x[a..b])
    ensures b - a <= maxRadius
  {
    HelixCenter(x, s, a, b);
    assert HelixRadius(s, a + b, p[a + b]);
    HelixRadiusIsLongest(s, a + b, p[a + b], b - a);
  }

  /** The widest radius of the sweep marks a longest helix x[a..a+maxRadius],
      whose interleaving lies between the marks around that radius. */
  lemma Conclude(x: string, s: string, p: seq<int>, maxRadius: int, maxCenter: int) returns (a: int)
    requires s == Interleaved(x) && |p| == |s| && 0 <= maxCenter < |s| && maxRadius == p[maxCenter]
    requires forall k :: 0 <= k < |s| ==> HelixRadius(s, k, p[k]) && p[k] <= maxRadius
    ensures 0 <= maxCenter - maxRadius <= maxCenter + maxRadius + 1 <= |s|
    ensures 0 <= a <= a + maxRadius <= |x| && LongestHelix(x, a, a + maxRadius)
    ensures s[maxCenter - maxRadius..maxCenter + maxRadius + 1] == Interleaved(x[a..a + maxRadius])
  {
    assert HelixRadius(s, maxCenter, p[maxCenter]);
    HelixRadiusEven(x, s, maxCenter, maxRadius);
    a := (maxCenter - maxRadius) / 2;
    HelixSlice(x, s, a, maxRadius);
    NoLongerHelix(x, s, p, maxRadius);
    InterleavedSlice(x, a, a + maxRadius);
  }

  /** No helix substring of x is longer than the widest radius. */
  lemma NoLongerHelix(x: string, s: string, p: seq<int>, maxRadius: int)
    requires s == Interleaved(x) && |p| == |s| && 0 <= maxRadius
    requires forall k :: 0 <= k < |s| ==> HelixRadius(s, k, p[k]) && p[k] <= maxRadius
    ensures forall a, b :: 0 <= a <= b <= |x| && IsHelix(x[a..b]) ==> b - a <= maxRadius
  {
    forall a, b | 0 <= a <= b <= |x| && IsHelix(x[a..b])
      ensures b - a <= maxRadius
    {
      HelixBound(x, s, p, maxRadius, a, b);
    }
  }

  /** out is the marks-free text of a longest helix substring of x. */
  ghost predicate LongestHelixText(x: string, out: string)
  {
    exists a, b :: LongestHelix(x, a, b) && out == Postprocess(x[a..b])
  }

  /** out is a longest helix substring of x. */
  ghost predicate LongestHelixOf(x: string, out: string)
  {
    exists a, b :: LongestHelix(x, a, b) && out == x[a..b]
  }

  /** Dropping the marks from the interleaving of a longest helix gives its
      marks-free text, which is the helix itself when x has no marks. */
  lemma Answer(x: string, a: int, r: int, candidate: string)
    requires 0 <= a && a + r <= |x| && LongestHelix(x, a, a + r) && candidate == Interleaved(x[a..a + r])
    ensures LongestHelixText(x, Postprocess(candidate))
    ensures Mark !in x ==> LongestHelixOf(x, Postprocess(candidate))
  {
    var y := x[a..a + r];
    PostprocessInterleaved(y);
    if Mark !in x {
      assert forall c :: c in y ==> c in x;
      PostprocessNoMarks(y);
    }
  }

  /** helix: the marks-free text of a longest helix substring of the input;
      for an input without marks, that substring itself. */
  method LongestHelixSubstring(input: string) returns (out: string)
    ensures LongestHelixText(input, out)
    ensures Mark !in input ==> LongestHelixOf(input, out)
  {
    var s := Preprocess(input);
    var radius := Radii(s);
    var maxRadius, maxCenter := FirstMax(radius);
    ghost var a := Conclude(input, s, radius[..], maxRadius, maxCenter);
    var start := maxCenter - maxRadius;
    var end := maxCenter + maxRadius + 1;
    var candidate := s[start..end];
    Answer(input, a, maxRadius, candidate);
    out := Postprocess(candidate);
  }
}
