// Manacher's longest palindromic substring, after
// projects/04-ManachersAlgorithm/implementation/manachersAlgorithm.java.
// The string is interleaved with marks so that every palindrome has a
// centre, and the radius at each centre starts from the radius at its
// mirror inside the rightmost palindrome found so far.
module Manacher {
  import opened Arith
  import opened PolyHash

  const Mark: char := '#'

  /** s with a mark before, between and after its characters. */
  function Interleaved(s: string): (t: string)
    ensures |t| == 2 * |s| + 1
  {
    seq(2 * |s| + 1, j requires 0 <= j < 2 * |s| + 1 => if j % 2 == 0 then Mark else s[j / 2])
  }

  /** Even positions of the interleaving hold marks. */
  lemma MarkAt(s: string, j: int, x: int)
    requires 0 <= x <= |s| && j == 2 * x
    ensures Interleaved(s)[j] == Mark
  {
  }

  /** Odd position 2x+1 of the interleaving holds s[x]. */
  lemma CharAt(s: string, j: int, x: int)
    requires 0 <= x < |s| && j == 2 * x + 1
    ensures Interleaved(s)[j] == s[x]
  {
  }

  /** The StringBuilder loop: a mark, then each character followed by a mark. */
  method Preprocess(s: string) returns (t: string)
    ensures t == Interleaved(s)
  {
    t := [Mark];
    var k := 0;
    while k < |s|
      invariant 0 <= k <= |s|
      invariant t == Interleaved(s[..k])
    {
      assert s[..k + 1] == s[..k] + [s[k]];
      InterleavedSnoc(s[..k], s[k]);
      t := t + [s[k], Mark];
      k := k + 1;
    }
    assert s[..|s|] == s;
  }

  /** The characters k steps either side of i exist and are equal. */
  ghost predicate Agree(t: string, i: int, k: int)
  {
    0 <= k <= i && i + k < |t| && t[i - k] == t[i + k]
  }

  /** One more character extends the interleaving by itself and a mark. */
  lemma InterleavedSnoc(x: string, c: char)
    ensures Interleaved(x + [c]) == Interleaved(x) + [c, Mark]
  {
    var t := Interleaved(x);
    var t' := Interleaved(x + [c]);
    forall j | 0 <= j < |t'|
      ensures (t + [c, Mark])[j] == t'[j]
    {
      if j < |t| && j % 2 == 1 {
        assert (x + [c])[j / 2] == x[j / 2];
      }
    }
  }

  /** t reads the same for r steps either side of i. */
  ghost predicate PalAt(t: string, i: int, r: int)
  {
    0 <= r <= i && i + r < |t| && forall k :: 1 <= k <= r ==> Agree(t, i, k)
  }

  /** r is where the expansion around i stops: the next pair lies out of
      bounds or differs. */
  ghost predicate Radius(t: string, i: int, r: int)
  {
    PalAt(t, i, r) && !(i + r + 1 < |t| && i - r - 1 >= 0 && t[i + r + 1] == t[i - r - 1])
  }

  /** The radius where expansion stops is the largest palindromic radius. */
  lemma RadiusIsLongest(t: string, i: int, r: int, r': int)
    requires Radius(t, i, r) && PalAt(t, i, r')
    ensures r' <= r
  {
    assert r' > r ==> Agree(t, i, r + 1);
  }

  /** Inside the palindrome around c reaching right, the radius at the
      mirror 2c - i carries over to i, capped at right - i. */
  lemma MirrorRadius(t: string, c: int, right: int, i: int, rm: int)
    requires PalAt(t, c, right - c) && c < i < right && PalAt(t, 2 * c - i, rm)
    ensures PalAt(t, i, Min(right - i, rm))
  {
    var m := Min(right - i, rm);
    var mirror := 2 * c - i;
    forall k | 1 <= k <= m
      ensures Agree(t, i, k)
    {
      assert Agree(t, c, i + k - c);
      assert Agree(t, mirror, k);
      if mirror + k > c {
        assert Agree(t, c, mirror + k - c);
      } else if mirror + k < c {
        assert Agree(t, c, c - mirror - k);
      }
    }
  }

  /** Expands the radius around i from r0 while the next pair agrees. */
  method Expand(t: string, i: int, r0: int) returns (r: int)
    requires PalAt(t, i, r0)
    ensures Radius(t, i, r) && r >= r0
  {
    r := r0;
    while i + (1 + r) < |t| && i - (1 + r) >= 0 && t[i + (1 + r)] == t[i - (1 + r)]
      invariant PalAt(t, i, r) && r >= r0
      decreases |t| - r
    {
      r := r + 1;
    }
  }

  /** The state of the sweep before centre i: every earlier centre holds its
      radius, later ones are untouched, right is the reach of the palindrome
      at center, and maxLen the largest radius, found at centerIndex. */
  ghost predicate Sweep(t: string, p: seq<int>, i: int, center: int, right: int, maxLen: int, centerIndex: int)
  {
    |p| == |t| && 1 <= i <= |t| &&
    (forall k :: 0 <= k < i ==> Radius(t, k, p[k])) &&
    (forall k :: i <= k < |t| ==> p[k] == 0) &&
    0 <= center < i && right == center + p[center] &&
    0 <= centerIndex < i && maxLen == p[centerIndex] &&
    forall k :: 0 <= k < i ==> p[k] <= maxLen
  }

  lemma SweepStart(t: string, p: seq<int>)
    requires |p| == |t| >= 1 && forall k :: 0 <= k < |t| ==> p[k] == 0
    ensures Sweep(t, p, 1, 0, 0, 0, 0)
  {
    assert Radius(t, 0, p[0]);
  }

  /** Recording the radius v at i, then moving center/right and
      maxLen/centerIndex as the source does, keeps the sweep invariant. */
  lemma SweepStep(t: string, p: seq<int>, i: int, center: int, right: int, maxLen: int, centerIndex: int,
                  v: int, center': int, right': int, maxLen': int, centerIndex': int)
    requires Sweep(t, p, i, center, right, maxLen, centerIndex) && i < |t| && Radius(t, i, v)
    requires center' == (if i + v > right then i else center)
    requires right' == (if i + v > right then i + v else right)
    requires maxLen' == (if v > maxLen then v else maxLen)
    requires centerIndex' == (if v > maxLen then i else centerIndex)
    ensures Sweep(t, p[i := v], i + 1, center', right', maxLen', centerIndex')
  {
    var p' := p[i := v];
    forall k | 0 <= k < i + 1
      ensures Radius(t, k, p'[k]) && p'[k] <= maxLen'
    {
      if k < i {
        assert p'[k] == p[k];
      }
    }
  }

  /** A maximal radius ends on marks: its left end is even. */
  lemma RadiusEven(s: string, t: string, i: int, r: int)
    requires t == Interleaved(s) && Radius(t, i, r)
    ensures (i - r) % 2 == 0
  {
    if (i - r) % 2 == 1 {
      var x := (i - r - 1) / 2;
      MarkAt(s, i - r - 1, x);
      MarkAt(s, i + r + 1, x + r + 1);
    }
  }

  /** A palindrome of t around 2a + r is the palindrome s[a..a+r]. */
  lemma PalSlice(s: string, t: string, a: int, r: int)
    requires t == Interleaved(s) && 0 <= a && PalAt(t, 2 * a + r, r)
    ensures a + r <= |s| && IsPalindrome(s[a..a + r])
  {
    var x := s[a..a + r];
    forall q | 0 <= q < r
      ensures x[q] == x[r - 1 - q]
    {
      PalSliceAt(s, t, a, r, q);
    }
    PalindromeByMirror(x);
  }

  lemma PalSliceAt(s: string, t: string, a: int, r: int, q: int)
    requires t == Interleaved(s) && 0 <= a && PalAt(t, 2 * a + r, r) && 0 <= q < r
    ensures a + r <= |s| && s[a + q] == s[a + r - 1 - q]
  {
    var i := 2 * a + r;
    var k := r - 2 * q - 1;
    CharAt(s, i - k, a + q);
    CharAt(s, i + k, a + r - 1 - q);
    if k > 0 {
      assert Agree(t, i, k);
    } else if k < 0 {
      assert Agree(t, i, -k);
    }
  }

  /** A palindrome s[a..b] is a palindrome of t around a + b of radius b - a. */
  lemma PalCenter(s: string, t: string, a: int, b: int)
    requires t == Interleaved(s) && 0 <= a <= b <= |s| && IsPalindrome(s[a..b])
    ensures PalAt(t, a + b, b - a)
  {
    var x := s[a..b];
    var c := a + b;
    forall k | 1 <= k <= b - a
      ensures Agree(t, c, k)
    {
      PalCenterAt(s, t, a, b, k);
    }
  }

  lemma PalCenterAt(s: string, t: string, a: int, b: int, k: int)
    requires t == Interleaved(s) && 0 <= a <= b <= |s| && IsPalindrome(s[a..b]) && 1 <= k <= b - a
    ensures Agree(t, a + b, k)
  {
    var lo := (a + b - k) / 2;
    if (a + b - k) % 2 == 1 {
      assert a + b - k == 2 * lo + 1 && a + b + k == 2 * (lo + k) + 1;
      assert a <= lo && lo + k < b;
      CharAt(s, a + b - k, lo);
      CharAt(s, a + b + k, lo + k);
      MirrorOfPalindrome(s[a..b], lo - a);
    } else {
      assert a + b - k == 2 * lo && a + b + k == 2 * (lo + k);
      MarkAt(s, a + b - k, lo);
      MarkAt(s, a + b + k, lo + k);
    }
  }

  /** The source's substring lies inside s. */
  ghost predicate Occurs(r: string, s: string)
  {
    exists a, b :: 0 <= a <= b <= |s| && s[a..b] == r
  }

  /** manacher: a longest palindromic substring of s (the leftmost centre
      among the longest). */
  method LongestPalindrome(s: string) returns (r: string)
    ensures Occurs(r, s) && IsPalindrome(r)
    ensures forall a, b :: 0 <= a <= b <= |s| && IsPalindrome(s[a..b]) ==> b - a <= |r|
  {
    var t := Preprocess(s);
    var p, maxLen, centerIndex := Radii(t);
    Conclude(s, t, p[..], maxLen, centerIndex);
    var start := (centerIndex - maxLen) / 2;
    r := s[start..start + maxLen];
  }

  /** The sweep over the centres 1..|t|-2 of manacher: the radius array,
      the largest radius and its (first) centre. */
  method Radii(t: string) returns (p: array<int>, maxLen: int, centerIndex: int)
    requires |t| >= 1
    ensures p.Length == |t| && 0 <= centerIndex < |t| && Radius(t, centerIndex, maxLen)
    ensures forall k :: 0 <= k < |t| - 1 ==> Radius(t, k, p[k]) && p[k] <= maxLen
  {
    var n := |t|;
    p := new int[n](_ => 0);
    var center, right := 0, 0;
    maxLen, centerIndex := 0, 0;
    SweepStart(t, p[..]);
    var i := 1;
    while i < n - 1
      invariant Sweep(t, p[..], i, center, right, maxLen, centerIndex)
    {
      ghost var before := p[..];
      var mirror := 2 * center - i;
      var start := p[i];
      if i < right {
        MirrorRadius(t, center, right, i, p[mirror]);
        start := Min(right - i, p[mirror]);
      }
      var v := Expand(t, i, start);
      p[i] := v;
      assert p[..] == before[i := v];
      var center', right', maxLen', centerIndex' := center, right, maxLen, centerIndex;
      if i + v > right {
        center', right' := i, i + v;
      }
      if v > maxLen {
        maxLen', centerIndex' := v, i;
      }
      SweepStep(t, before, i, center, right, maxLen, centerIndex, v, center', right', maxLen', centerIndex');
      center, right, maxLen, centerIndex := center', right', maxLen', centerIndex';
      i := i + 1;
    }
  }

  /** After the sweep, the widest radius gives a palindromic slice of s no
      shorter than any palindrome of s. */
  lemma Conclude(s: string, t: string, p: seq<int>, maxLen: int, centerIndex: int)
    requires t == Interleaved(s) && |p| == |t| && 0 <= centerIndex < |t| && Radius(t, centerIndex, maxLen)
    requires forall k :: 0 <= k < |t| - 1 ==> Radius(t, k, p[k]) && p[k] <= maxLen
    ensures (centerIndex - maxLen) % 2 == 0 && 0 <= (centerIndex - maxLen) / 2
    ensures (centerIndex - maxLen) / 2 + maxLen <= |s|
    ensures IsPalindrome(s[(centerIndex - maxLen) / 2..(centerIndex - maxLen) / 2 + maxLen])
    ensures forall a, b :: 0 <= a <= b <= |s| && IsPalindrome(s[a..b]) ==> b - a <= maxLen
  {
    RadiusEven(s, t, centerIndex, maxLen);
    var a := (centerIndex - maxLen) / 2;
    PalSlice(s, t, a, maxLen);
    forall a, b | 0 <= a <= b <= |s| && IsPalindrome(s[a..b])
      ensures b - a <= maxLen
    {
      PalBound(s, t, p, maxLen, a, b);
    }
  }

  /** A palindrome s[a..b] is no longer than the radius at centre a + b. */
  lemma PalBound(s: string, t: string, p: seq<int>, maxLen: int, a: int, b: int)
    requires t == Interleaved(s) && |p| == |t|
    requires forall k :: 0 <= k < |t| - 1 ==> Radius(t, k, p[k]) && p[k] <= maxLen
    requires 0 <= maxLen && 0 <= a <= b <= |s| && IsPalindrome(s[a..b])
    ensures b - a <= maxLen
  {
    if a < b {
      PalCenter(s, t, a, b);
      assert 0 <= a + b < |t| - 1;
      assert Radius(t, a + b, p[a + b]);
      RadiusIsLongest(t, a + b, p[a + b], b - a);
    }
  }
}
