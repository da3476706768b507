// The Burrows-Wheeler transform as a function of its input: the rotations
// of a string, their sorted order, the column of last characters, and the
// last-to-first mapping through which that column is inverted.
module BwtTheory {
  import opened Lexicographic

  /** The end marker appended to the input before the transform. */
  const Dollar: char := '$'

  /** Rotation i of t: t[i..] followed by t[..i]. */
  function Rotation(t: string, i: int): (r: string)
    requires 0 <= i <= |t|
    ensures |r| == |t|
  {
    t[i..] + t[..i]
  }

  /** All rotations of t, by starting index. */
  function RotationsOf(t: string): (rs: seq<string>)
    ensures |rs| == |t|
  {
    seq(|t|, i requires 0 <= i < |t| => Rotation(t, i))
  }

  /** The rotations in increasing order. */
  function SortedRotationsOf(t: string): seq<string>
  {
    Sort(RotationsOf(t))
  }

  /** The last character of x (the marker for the empty string, which no
      rotation of a non-empty string is). */
  function LastChar(x: string): char
  {
    if |x| == 0 then Dollar else x[|x| - 1]
  }

  /** x with its last character moved to the front. */
  function Shift(x: string): (y: string)
    ensures |y| == |x|
  {
    if |x| == 0 then x else [x[|x| - 1]] + x[..|x| - 1]
  }

  /** The transform of t: the last character of every sorted rotation. */
  function BwtOf(t: string): (b: string)
    ensures |b| == |t|
  {
    var s := SortedRotationsOf(t);
    seq(|t|, r requires 0 <= r < |t| => LastChar(s[r]))
  }

  /** The number of positions of s holding a character below c. */
  function CountBelow(s: string, c: char): nat
  {
    if |s| == 0 then 0
    else CountBelow(s[..|s| - 1], c) + (if s[|s| - 1] < c then 1 else 0)
  }

  /** The last-to-first mapping: the row of the sorted rotations that
      begins with bw[r], counting the occurrences of bw[r] before r. */
  function Lf(bw: string, r: int): int
    requires 0 <= r < |bw|
  {
    CountBelow(bw, bw[r]) + multiset(bw[..r])[bw[r]]
  }

  // ---------------------------------------------------------------------
  // Sequences mapped element by element

  function MapSeq<A, B>(f: A -> B, s: seq<A>): seq<B>
  {
    seq(|s|, i requires 0 <= i < |s| => f(s[i]))
  }

  /** Mapping two permutations of each other gives permutations of each
      other. */
  lemma {:induction false} MapMultiset<A, B>(f: A -> B, a: seq<A>, b: seq<A>)
    requires multiset(a) == multiset(b)
    ensures multiset(MapSeq(f, a)) == multiset(MapSeq(f, b))
    decreases |a|
  {
    if |a| == 0 {
      assert |b| == |multiset(b)| == 0;
    } else {
      var x := a[|a| - 1];
      var a' := a[..|a| - 1];
      assert a == a' + [x];
      assert x in multiset(b);
      var k :| 0 <= k < |b| && b[k] == x;
      var b1, b2 := b[..k], b[k + 1..];
      var b' := b1 + b2;
      RemoveOne(a', x, b, k);
      MapMultiset(f, a', b');
      MapConcat(f, a', [x]);
      MapConcat(f, b1, [x] + b2);
      MapConcat(f, [x], b2);
      MapConcat(f, b1, b2);
      assert b == b1 + ([x] + b2);
    }
  }

  /** Removing the same element from two permutations of each other. */
  lemma RemoveOne<A>(a': seq<A>, x: A, b: seq<A>, k: int)
    requires 0 <= k < |b| && b[k] == x && multiset(a' + [x]) == multiset(b)
    ensures multiset(a') == multiset(b[..k] + b[k + 1..])
  {
    assert b == b[..k] + [x] + b[k + 1..];
    assert multiset(b) == multiset(b[..k]) + multiset{x} + multiset(b[k + 1..]);
    assert multiset(a' + [x]) == multiset(a') + multiset{x};
    assert multiset(b[..k] + b[k + 1..]) == multiset(b[..k]) + multiset(b[k + 1..]);
    assert multiset(a') == multiset(b) - multiset{x};
  }

  lemma MapConcat<A, B>(f: A -> B, a: seq<A>, b: seq<A>)
    ensures MapSeq(f, a + b) == MapSeq(f, a) + MapSeq(f, b)
  {
  }

  // ---------------------------------------------------------------------
  // Rotations

  lemma RotationLast(t: string, j: int)
    requires 0 <= j < |t|
    ensures LastChar(Rotation(t, j)) == if j == 0 then t[|t| - 1] else t[j - 1]
  {
  }

  /** Moving the last character of rotation j to the front gives the
      rotation one step earlier. */
  lemma ShiftRotation(t: string, j: int)
    requires 0 <= j < |t|
    ensures Shift(Rotation(t, j)) == Rotation(t, if j == 0 then |t| - 1 else j - 1)
  {
    if j == 0 {
      ShiftWhole(t);
    } else {
      ShiftInner(t, j);
    }
  }

  lemma ShiftWhole(t: string)
    requires |t| > 0
    ensures Shift(Rotation(t, 0)) == Rotation(t, |t| - 1)
  {
    assert Rotation(t, 0) == t;
    assert Rotation(t, |t| - 1) == [t[|t| - 1]] + t[..|t| - 1];
  }

  lemma ShiftInner(t: string, j: int)
    requires 0 < j < |t|
    ensures Shift(Rotation(t, j)) == Rotation(t, j - 1)
  {
    var x := Rotation(t, j);
    var y := Rotation(t, j - 1);
    forall m | 0 <= m < |t|
      ensures Shift(x)[m] == y[m]
    {
      RotationAt(t, j - 1, m);
      if m > 0 {
        RotationAt(t, j, m - 1);
      } else {
        RotationAt(t, j, |t| - 1);
      }
    }
  }

  /** Position m of rotation i, read cyclically from t. */
  lemma RotationAt(t: string, i: int, m: int)
    requires 0 <= i <= |t| && 0 <= m < |t|
    ensures Rotation(t, i)[m] == if i + m < |t| then t[i + m] else t[i + m - |t|]
  {
  }

  ghost predicate IsRotation(t: string, x: string)
  {
    exists j :: 0 <= j < |t| && x == Rotation(t, j)
  }

  /** Every sorted row is a rotation. */
  lemma SortedRow(t: string, r: int)
    requires 0 <= r < |t|
    ensures IsRotation(t, SortedRotationsOf(t)[r])
  {
    var s := SortedRotationsOf(t);
    assert s[r] in multiset(RotationsOf(t));
    var j :| 0 <= j < |t| && RotationsOf(t)[j] == s[r];
  }

  /** The transform rearranges the characters of its input. */
  lemma BwtPermutation(t: string)
    ensures multiset(BwtOf(t)) == multiset(t)
  {
    var n := |t|;
    if n > 0 {
      var rots := RotationsOf(t);
      var s := SortedRotationsOf(t);
      MapMultiset(LastChar, s, rots);
      assert BwtOf(t) == MapSeq(LastChar, s);
      LastsOfRotations(t);
      MultisetLastFirst(t);
    }
  }

  lemma MultisetLastFirst(t: string)
    requires |t| > 0
    ensures multiset([t[|t| - 1]] + t[..|t| - 1]) == multiset(t)
  {
    assert t == t[..|t| - 1] + [t[|t| - 1]];
  }

  /** The last characters of the rotations, by starting index, are t moved
      one place to the right. */
  lemma LastsOfRotations(t: string)
    requires |t| > 0
    ensures MapSeq(LastChar, RotationsOf(t)) == [t[|t| - 1]] + t[..|t| - 1]
  {
    var lasts := [t[|t| - 1]] + t[..|t| - 1];
    forall j | 0 <= j < |t|
      ensures MapSeq(LastChar, RotationsOf(t))[j] == lasts[j]
    {
      RotationLast(t, j);
    }
  }

  // ---------------------------------------------------------------------
  // One end marker makes the rotations distinct

  /** In rotation i of u + "$", the marker sits exactly at position |u| - i
      (read cyclically, where the rotation's own index i plus k is |u|). */
  lemma DollarPosition(u: string, i: int, k: int)
    requires Dollar !in u
    requires 0 <= i <= |u| && 0 <= k <= |u|
    ensures Rotation(u + [Dollar], i)[k] == Dollar <==> i + k == |u|
  {
    var t := u + [Dollar];
    if k < |t| - i {
      assert Rotation(t, i)[k] == t[i + k];
    } else {
      assert Rotation(t, i)[k] == t[k - (|t| - i)];
    }
  }

  lemma RotationsDistinct(u: string)
    requires Dollar !in u
    ensures Distinct(RotationsOf(u + [Dollar]))
  {
    var t := u + [Dollar];
    forall i, j | 0 <= i < j < |t|
      ensures RotationsOf(t)[i] != RotationsOf(t)[j]
    {
      DollarPosition(u, i, |u| - i);
      DollarPosition(u, j, |u| - i);
    }
  }

  // ---------------------------------------------------------------------
  // Counting rows below a string

  /** Which rows of s lie below x. */
  function Flags(s: seq<string>, x: string): seq<bool>
  {
    seq(|s|, i requires 0 <= i < |s| => Less(s[i], x))
  }

  /** The number of elements of s below x. */
  function Rank(s: seq<string>, x: string): nat
  {
    multiset(Flags(s, x))[true]
  }

  lemma RankPermutation(a: seq<string>, b: seq<string>, x: string)
    requires multiset(a) == multiset(b)
    ensures Rank(a, x) == Rank(b, x)
  {
    var f := (y: string) => Less(y, x);
    MapMultiset(f, a, b);
    assert Flags(a, x) == MapSeq(f, a);
    assert Flags(b, x) == MapSeq(f, b);
  }

  /** seq(n, i => i < q) holds q trues. */
  lemma {:induction false} CountTrueBelow(n: nat, q: nat)
    requires q <= n
    ensures multiset(seq(n, i => i < q))[true] == q
  {
    if n > q {
      CountTrueBelow(n - 1, q);
      assert seq(n, i => i < q) == seq(n - 1, i => i < q) + [false];
    } else if n > 0 {
      assert seq(n, i => i < q) == seq(n, i => true);
      CountTrue(n);
    }
  }

  lemma {:induction false} CountTrue(n: nat)
    ensures multiset(seq(n, i => true))[true] == n
  {
    if n > 0 {
      CountTrue(n - 1);
      assert seq(n, i => true) == seq(n - 1, i => true) + [true];
    }
  }

  /** In an increasing sequence, the element at q has exactly q elements
      below it. */
  lemma RankOfIncreasing(s: seq<string>, q: int)
    requires Increasing(s) && 0 <= q < |s|
    ensures Rank(s, s[q]) == q
  {
    forall i | 0 <= i < |s|
      ensures Flags(s, s[q])[i] == (i < q)
    {
      if i < q {
      } else if i == q {
        LessIrreflexive(s[q]);
      } else {
        LessAsymmetric(s[q], s[i]);
      }
    }
    assert Flags(s, s[q]) == seq(|s|, i => i < q);
    CountTrueBelow(|s|, q);
  }

  /** The rows that the stable order on (character, position) puts before
      row r, among the first k rows. */
  function StableFlags(bw: string, r: int, k: int): seq<bool>
    requires 0 <= r < |bw| && 0 <= k <= |bw|
  {
    seq(k, s requires 0 <= s < k => bw[s] < bw[r] || (bw[s] == bw[r] && s < r))
  }

  lemma {:induction false} StableCount(bw: string, r: int, k: int)
    requires 0 <= r < |bw| && 0 <= k <= |bw|
    ensures multiset(StableFlags(bw, r, k))[true]
         == CountBelow(bw[..k], bw[r]) + multiset(bw[..if k < r then k else r])[bw[r]]
  {
    if k > 0 {
      var c := bw[r];
      var b := bw[k - 1] < c || (bw[k - 1] == c && k - 1 < r);
      StableCount(bw, r, k - 1);
      StableFlagsSnoc(bw, r, k);
      TrueSnoc(StableFlags(bw, r, k - 1), b);
      CountBelowPrefix(bw, k, c);
      var before := multiset(StableFlags(bw, r, k - 1))[true];
      var below := CountBelow(bw[..k - 1], c);
      if k - 1 < r {
        OccurrencesPrefix(bw, k, c);
        assert before == below + multiset(bw[..k - 1])[c];
      } else {
        assert before == below + multiset(bw[..r])[c];
      }
    }
  }

  lemma TrueSnoc(f: seq<bool>, b: bool)
    ensures multiset(f + [b])[true] == multiset(f)[true] + (if b then 1 else 0)
  {
  }

  lemma OccurrencesPrefix(s: string, k: int, c: char)
    requires 0 < k <= |s|
    ensures multiset(s[..k])[c] == multiset(s[..k - 1])[c] + (if s[k - 1] == c then 1 else 0)
  {
    assert s[..k] == s[..k - 1] + [s[k - 1]];
  }

  lemma CountBelowPrefix(s: string, k: int, c: char)
    requires 0 < k <= |s|
    ensures CountBelow(s[..k], c) == CountBelow(s[..k - 1], c) + (if s[k - 1] < c then 1 else 0)
  {
    assert s[..k][..k - 1] == s[..k - 1];
  }

  lemma StableFlagsSnoc(bw: string, r: int, k: int)
    requires 0 <= r < |bw| && 0 < k <= |bw|
    ensures StableFlags(bw, r, k)
         == StableFlags(bw, r, k - 1) + [bw[k - 1] < bw[r] || (bw[k - 1] == bw[r] && k - 1 < r)]
  {
  }

  // ---------------------------------------------------------------------
  // The last-to-first mapping

  /** With one end marker, the sorted rotations are strictly increasing and
      each is a rotation of full length. */
  lemma SortedRotationsIncreasing(u: string)
    requires Dollar !in u
    ensures Increasing(SortedRotationsOf(u + [Dollar]))
  {
    RotationsDistinct(u);
    SortIncreasing(RotationsOf(u + [Dollar]));
  }

  /** The rows shifted by one character are again the sorted rows, in
      another order. */
  lemma ShiftedRows(t: string)
    requires |t| > 0
    ensures multiset(MapSeq(Shift, SortedRotationsOf(t))) == multiset(SortedRotationsOf(t))
  {
    var n := |t|;
    var rots := RotationsOf(t);
    MapMultiset(Shift, SortedRotationsOf(t), rots);
    ShiftedRotations(t);
    assert rots == rots[..n - 1] + [rots[n - 1]];
    assert multiset([rots[n - 1]] + rots[..n - 1]) == multiset(rots[..n - 1] + [rots[n - 1]]);
  }

  /** Shifting every rotation moves the last rotation to the front. */
  lemma ShiftedRotations(t: string)
    requires |t| > 0
    ensures MapSeq(Shift, RotationsOf(t)) == [RotationsOf(t)[|t| - 1]] + RotationsOf(t)[..|t| - 1]
  {
    var rots := RotationsOf(t);
    var moved := [rots[|t| - 1]] + rots[..|t| - 1];
    forall j | 0 <= j < |t|
      ensures MapSeq(Shift, rots)[j] == moved[j]
    {
      ShiftRotation(t, j);
    }
  }

  /** Comparing two shifted rows compares their last characters first and
      then the rows themselves. */
  lemma ShiftedOrder(u: string, r1: int, r2: int)
    requires Dollar !in u
    requires 0 <= r1 < |u| + 1 && 0 <= r2 < |u| + 1
    ensures var s := SortedRotationsOf(u + [Dollar]);
      var bw := BwtOf(u + [Dollar]);
      Less(Shift(s[r1]), Shift(s[r2])) <==> bw[r1] < bw[r2] || (bw[r1] == bw[r2] && r1 < r2)
  {
    var t := u + [Dollar];
    var n := |t|;
    var s := SortedRotationsOf(t);
    var bw := BwtOf(t);
    SortedRow(t, r1);
    SortedRow(t, r2);
    var x, y := s[r1], s[r2];
    assert Shift(x)[1..] == x[..n - 1] && Shift(y)[1..] == y[..n - 1];
    if bw[r1] == bw[r2] {
      assert x == x[..n - 1] + [bw[r1]] && y == y[..n - 1] + [bw[r1]];
      LessSnoc(x[..n - 1], y[..n - 1], bw[r1]);
      SortedRotationsIncreasing(u);
      if r1 > r2 {
        LessAsymmetric(y, x);
      } else if r1 == r2 {
        LessIrreflexive(x);
      }
    }
  }

  /** The heart of the inversion: row Lf(bw, r) holds row r with its last
      character moved to the front. */
  lemma LfShift(u: string, r: int)
    requires Dollar !in u && 0 <= r < |u| + 1
    ensures var bw := BwtOf(u + [Dollar]);
      0 <= Lf(bw, r) < |u| + 1 &&
      SortedRotationsOf(u + [Dollar])[Lf(bw, r)] == Shift(SortedRotationsOf(u + [Dollar])[r])
  {
    var t := u + [Dollar];
    var n := |t|;
    var s := SortedRotationsOf(t);
    var bw := BwtOf(t);
    var sh := MapSeq(Shift, s);
    SortedRotationsIncreasing(u);
    ShiftedRank(u, r);
    ShiftedRows(t);
    RankPermutation(sh, s, sh[r]);
    assert sh[r] in multiset(s);
    var q :| 0 <= q < n && s[q] == sh[r];
    RankOfIncreasing(s, q);
  }

  /** Shifting row r leaves exactly Lf(bw, r) shifted rows below it. */
  lemma ShiftedRank(u: string, r: int)
    requires Dollar !in u && 0 <= r < |u| + 1
    ensures var s := SortedRotationsOf(u + [Dollar]);
      var sh := MapSeq(Shift, s);
      Rank(sh, sh[r]) == Lf(BwtOf(u + [Dollar]), r)
  {
    var t := u + [Dollar];
    var n := |t|;
    var s := SortedRotationsOf(t);
    var bw := BwtOf(t);
    var sh := MapSeq(Shift, s);
    forall i | 0 <= i < n
      ensures Flags(sh, sh[r])[i] == StableFlags(bw, r, n)[i]
    {
      ShiftedOrder(u, i, r);
    }
    assert Flags(sh, sh[r]) == StableFlags(bw, r, n);
    StableCount(bw, r, n);
    assert bw[..n] == bw;
  }
}
