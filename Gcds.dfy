// Greatest common divisors for the range-GCD challenge of
// projects/05-segmentTreeRangeUpdates/programmingChallenge/solutions/Solution.java:
// the mathematical gcd, the source's gcdHelper (which may return a negative
// value), the gcd of a sequence, and the difference array with its update
// rule for range additions.
module Gcds {
  import opened Arith
  import opened Ranges

  // ---------------------------------------------------------------------
  // Divisibility by a positive divisor

  /** d divides a (every integer divides 0; only 0 is divisible by 0). */
  predicate Divides(d: int, a: int)
  {
    if d == 0 then a == 0 else a % d == 0
  }

  lemma DividesProduct(d: int, k: int)
    requires d > 0
    ensures Divides(d, d * k)
  {
    ModUnique(d * k, k, 0, d);
  }

  lemma DividesQuotient(d: int, a: int)
    requires d > 0 && Divides(d, a)
    ensures a == d * (a / d)
  {
  }

  lemma DividesSum(d: int, a: int, b: int)
    requires d > 0 && Divides(d, a) && Divides(d, b)
    ensures Divides(d, a + b) && Divides(d, a - b)
  {
    var p, q := a / d, b / d;
    DividesQuotient(d, a);
    DividesQuotient(d, b);
    assert a + b == d * (p + q);
    assert a - b == d * (p - q);
    DividesProduct(d, p + q);
    DividesProduct(d, p - q);
  }

  lemma DividesNeg(d: int, a: int)
    requires d > 0
    ensures Divides(d, a) <==> Divides(d, -a)
  {
    if Divides(d, a) {
      DividesQuotient(d, a);
      assert -a == d * -(a / d);
      DividesProduct(d, -(a / d));
    }
    if Divides(d, -a) {
      DividesQuotient(d, -a);
      assert a == d * -(-a / d);
      DividesProduct(d, -(-a / d));
    }
  }

  lemma DividesAbs(d: int, a: int)
    requires d > 0
    ensures Divides(d, Abs(a)) <==> Divides(d, a)
  {
    DividesNeg(d, a);
  }

  lemma DividesMultiple(d: int, b: int, k: int)
    requires d > 0 && Divides(d, b)
    ensures Divides(d, k * b)
  {
    DividesQuotient(d, b);
    assert k * b == d * (k * (b / d)) by {
      MulAssoc(k, d, b / d);
      MulComm(k, d);
      MulAssoc(d, k, b / d);
    }
    DividesProduct(d, k * (b / d));
  }

  /** A common divisor of a and b is one of a % b and b. */
  lemma DividesMod(d: int, a: int, b: int)
    requires d > 0 && b > 0 && Divides(d, b)
    ensures Divides(d, a) <==> Divides(d, a % b)
  {
    var q := a / b;
    assert a == q * b + a % b;
    DividesMultiple(d, b, q);
    if Divides(d, a) {
      DividesSum(d, a, q * b);
      assert a - q * b == a % b;
    }
    if Divides(d, a % b) {
      DividesSum(d, a % b, q * b);
      assert a % b + q * b == a;
    }
  }

  /** A positive divisor of a positive number is at most that number. */
  lemma DividesLe(d: int, a: int)
    requires d > 0 && a > 0 && Divides(d, a)
    ensures d <= a
  {
    DividesQuotient(d, a);
    var k := a / d;
    assert k >= 1;
    MulMono(k, 1, d);
  }

  /** Two naturals with the same positive divisors are equal. */
  lemma SameDivisors(g1: nat, g2: nat)
    requires forall d :: d > 0 ==> (Divides(d, g1) <==> Divides(d, g2))
    ensures g1 == g2
  {
    if g1 == 0 {
      assert Divides(g2 + 1, g1);
      ModUnique(g2, 0, g2, g2 + 1);
    } else if g2 == 0 {
      assert Divides(g1 + 1, g2);
      ModUnique(g1, 0, g1, g1 + 1);
    } else {
      assert Divides(g1, g1) && Divides(g2, g2) by {
        ModUnique(g1, 1, 0, g1);
        ModUnique(g2, 1, 0, g2);
      }
      DividesLe(g1, g2);
      DividesLe(g2, g1);
    }
  }

  // ---------------------------------------------------------------------
  // The greatest common divisor

  /** The Euclidean gcd on absolute values; Gcd(0, 0) == 0. */
  function Gcd(a: int, b: int): (g: nat)
    decreases Abs(b)
  {
    if b == 0 then Abs(a) else Gcd(b, Abs(a) % Abs(b))
  }

  /** The divisors of Gcd(a, b) are exactly the common divisors of a and
      b: Gcd(a, b) is their greatest common divisor. */
  lemma {:induction false} GcdDivisors(a: int, b: int, d: int)
    requires d > 0
    ensures Divides(d, Gcd(a, b)) <==> Divides(d, a) && Divides(d, b)
    decreases Abs(b)
  {
    DividesAbs(d, a);
    if b != 0 {
      GcdDivisors(b, Abs(a) % Abs(b), d);
      DividesAbs(d, b);
      if Divides(d, Abs(b)) {
        DividesMod(d, Abs(a), Abs(b));
      }
    }
  }

  /** gcd ignores signs and order. */
  lemma GcdSymmetric(a: int, b: int)
    ensures Gcd(a, b) == Gcd(b, a) == Gcd(Abs(a), Abs(b))
  {
    forall d | d > 0
      ensures Divides(d, Gcd(a, b)) <==> Divides(d, Gcd(b, a))
      ensures Divides(d, Gcd(a, b)) <==> Divides(d, Gcd(Abs(a), Abs(b)))
    {
      GcdDivisors(a, b, d);
      GcdDivisors(b, a, d);
      GcdDivisors(Abs(a), Abs(b), d);
      DividesAbs(d, a);
      DividesAbs(d, b);
    }
    SameDivisors(Gcd(a, b), Gcd(b, a));
    SameDivisors(Gcd(a, b), Gcd(Abs(a), Abs(b)));
  }

  /** A nonzero gcd divides both operands. */
  lemma GcdDividesBoth(a: int, b: int)
    requires Gcd(a, b) > 0
    ensures Divides(Gcd(a, b), a) && Divides(Gcd(a, b), b)
  {
    var g := Gcd(a, b);
    ModUnique(g, 1, 0, g);
    GcdDivisors(a, b, g);
  }

  // ---------------------------------------------------------------------
  // gcdHelper

  /** gcdHelper (Solution.java): returns the other operand when one is 0,
      and otherwise runs Euclid's algorithm on the absolute values. */
  function GcdHelper(a: int, b: int): int
    decreases Abs(a) + Abs(b), if Abs(a) > Abs(b) then 1 else 0
  {
    if a == 0 then b
    else if b == 0 then a
    else
      var a', b' := Abs(a), Abs(b);
      if a' > b' then GcdHelper(b', a') else GcdHelper(b' % a', a')
  }

  /** gcdHelper has the same divisors as its two operands together. */
  lemma {:induction false} GcdHelperDivisors(a: int, b: int, d: int)
    requires d > 0
    ensures Divides(d, GcdHelper(a, b)) <==> Divides(d, a) && Divides(d, b)
    decreases Abs(a) + Abs(b), if Abs(a) > Abs(b) then 1 else 0
  {
    if a != 0 && b != 0 {
      var a', b' := Abs(a), Abs(b);
      DividesAbs(d, a);
      DividesAbs(d, b);
      if a' > b' {
        GcdHelperDivisors(b', a', d);
      } else {
        GcdHelperDivisors(b' % a', a', d);
        if Divides(d, a') {
          DividesMod(d, b', a');
        }
      }
    }
  }

  /** gcdHelper(a, 0) is a, gcdHelper(0, b) is b, and in general the
      absolute value of gcdHelper is the gcd. */
  lemma GcdHelperIsGcd(a: int, b: int)
    ensures b == 0 ==> GcdHelper(a, b) == a
    ensures a == 0 ==> GcdHelper(a, b) == b
    ensures Abs(GcdHelper(a, b)) == Gcd(a, b)
  {
    forall d | d > 0
      ensures Divides(d, Abs(GcdHelper(a, b))) <==> Divides(d, Gcd(a, b))
    {
      GcdHelperDivisors(a, b, d);
      GcdDivisors(a, b, d);
      DividesAbs(d, GcdHelper(a, b));
    }
    SameDivisors(Abs(GcdHelper(a, b)), Gcd(a, b));
  }

  /** For nonzero operands gcdHelper is positive and divides both. */
  lemma {:induction false} GcdHelperPositive(a: int, b: int)
    requires a != 0 && b != 0
    ensures GcdHelper(a, b) > 0
    ensures Divides(GcdHelper(a, b), a) && Divides(GcdHelper(a, b), b)
    decreases Abs(a) + Abs(b), if Abs(a) > Abs(b) then 1 else 0
  {
    var a', b' := Abs(a), Abs(b);
    if a' > b' {
      GcdHelperPositive(b', a');
    } else if b' % a' != 0 {
      GcdHelperPositive(b' % a', a');
    }
    var g := GcdHelper(a, b);
    ModUnique(g, 1, 0, g);
    GcdHelperDivisors(a, b, g);
  }

  // ---------------------------------------------------------------------
  // The gcd of a sequence

  /** The gcd of all elements; 0 for the empty sequence. */
  function GcdOf(s: seq<int>): nat
  {
    if |s| == 0 then 0 else Gcd(s[0], GcdOf(s[1..]))
  }

  /** The divisors of GcdOf(s) are the common divisors of the elements. */
  lemma {:induction false} GcdOfDivisors(s: seq<int>, d: int)
    requires d > 0
    ensures Divides(d, GcdOf(s)) <==> forall i :: 0 <= i < |s| ==> Divides(d, s[i])
  {
    if |s| == 0 {
      assert Divides(d, 0);
    } else {
      GcdOfDivisors(s[1..], d);
      GcdDivisors(s[0], GcdOf(s[1..]), d);
      if forall i :: 0 <= i < |s[1..]| ==> Divides(d, s[1..][i]) {
        forall i | 0 <= i < |s| && Divides(d, s[0])
          ensures Divides(d, s[i])
        {
          if i > 0 {
            assert s[i] == s[1..][i - 1];
          }
        }
      } else {
        var i :| 0 <= i < |s[1..]| && !Divides(d, s[1..][i]);
        assert s[1..][i] == s[i + 1];
      }
    }
  }

  /** The gcd of a concatenation is the gcd of the two parts' gcds. */
  lemma GcdOfConcat(s: seq<int>, t: seq<int>)
    ensures GcdOf(s + t) == Gcd(GcdOf(s), GcdOf(t))
  {
    forall d | d > 0
      ensures Divides(d, GcdOf(s + t)) <==> Divides(d, Gcd(GcdOf(s), GcdOf(t)))
    {
      GcdOfDivisors(s + t, d);
      GcdOfDivisors(s, d);
      GcdOfDivisors(t, d);
      GcdDivisors(GcdOf(s), GcdOf(t), d);
      if forall i :: 0 <= i < |s| ==> Divides(d, s[i]) {
        if forall i :: 0 <= i < |t| ==> Divides(d, t[i]) {
          forall i | 0 <= i < |s + t|
            ensures Divides(d, (s + t)[i])
          {
            if i >= |s| {
              assert (s + t)[i] == t[i - |s|];
            }
          }
        } else {
          var i :| 0 <= i < |t| && !Divides(d, t[i]);
          assert (s + t)[|s| + i] == t[i];
        }
      } else {
        var i :| 0 <= i < |s| && !Divides(d, s[i]);
        assert (s + t)[i] == s[i];
      }
    }
    SameDivisors(GcdOf(s + t), Gcd(GcdOf(s), GcdOf(t)));
  }

  lemma GcdOfSingleton(x: int)
    ensures GcdOf([x]) == Abs(x)
  {
    assert [x][1..] == [];
  }

  // ---------------------------------------------------------------------
  // The difference array

  /** diffA: the differences of adjacent elements, diffs[i] = a[i+1] - a[i];
      the source allocates an array of length N - 1, so N >= 1. */
  function Diffs(a: seq<int>): (d: seq<int>)
    requires |a| > 0
    ensures |d| == |a| - 1
    ensures forall i :: 0 <= i < |d| ==> d[i] == a[i + 1] - a[i]
  {
    seq(|a| - 1, i requires 0 <= i < |a| - 1 => a[i + 1] - a[i])
  }

  /** SegTreeGCD.update: x added at position pos, nothing when pos is out
      of range. */
  function AddAt(s: seq<int>, pos: int, x: int): (t: seq<int>)
    ensures |t| == |s|
  {
    if 0 <= pos < |s| then s[pos := s[pos] + x] else s
  }

  /** The boundary updates of an ADD query: adding x to a[l..r] changes the
      differences only at l - 1 (by x) and at r (by -x). */
  lemma DiffsAfterAdd(a: seq<int>, l: int, r: int, x: int)
    requires 0 <= l <= r < |a|
    ensures Diffs(AddRange(a, 0, l, r, x)) == AddAt(AddAt(Diffs(a), l - 1, x), r, -x)
  {
    var d, e := Diffs(AddRange(a, 0, l, r, x)), AddAt(AddAt(Diffs(a), l - 1, x), r, -x);
    assert |d| == |e|;
    forall i | 0 <= i < |d|
      ensures d[i] == e[i]
    {
    }
  }

  /** A divisor of a[l] and of every difference in a[l..k] divides every
      element of a[l..k]. */
  lemma {:induction false} DividesChain(a: seq<int>, l: int, k: int, d: int)
    requires d > 0 && 0 <= l <= k < |a|
    requires Divides(d, a[l])
    requires forall i :: l <= i < k ==> Divides(d, Diffs(a)[i])
    ensures Divides(d, a[k])
  {
    if k > l {
      DividesChain(a, l, k - 1, d);
      DividesSum(d, a[k - 1], Diffs(a)[k - 1]);
      assert a[k - 1] + Diffs(a)[k - 1] == a[k];
    }
  }

  /** A common divisor of a[l..r] divides every difference in
      diffs[l..r-1]. */
  lemma DiffsDivided(a: seq<int>, l: int, r: int, d: int)
    requires d > 0 && 0 <= l <= r < |a|
    requires forall i :: l <= i <= r ==> Divides(d, a[i])
    ensures forall i :: l <= i < r ==> Divides(d, Diffs(a)[i])
  {
    forall i | l <= i < r
      ensures Divides(d, Diffs(a)[i])
    {
      DividesSum(d, a[i + 1], a[i]);
    }
  }

  /** A divisor of a[l] and of diffs[l..r-1] divides every element of
      a[l..r]. */
  lemma ElementsDivided(a: seq<int>, l: int, r: int, d: int)
    requires d > 0 && 0 <= l <= r < |a|
    requires Divides(d, a[l]) && forall i :: l <= i < r ==> Divides(d, Diffs(a)[i])
    ensures forall i :: l <= i <= r ==> Divides(d, a[i])
  {
    forall k | l <= k <= r
      ensures Divides(d, a[k])
    {
      DividesChain(a, l, k, d);
    }
  }

  /** The identity main relies on: the gcd of a[l..r] is the gcd of a[l]
      and of the differences diffs[l..r-1]. */
  lemma DiffGcd(a: seq<int>, l: int, r: int)
    requires 0 <= l <= r < |a|
    ensures GcdOf(a[l..r + 1]) == Gcd(a[l], GcdOf(Diffs(a)[l..r]))
  {
    var s, t := a[l..r + 1], Diffs(a)[l..r];
    forall d | d > 0
      ensures Divides(d, GcdOf(s)) <==> Divides(d, Gcd(a[l], GcdOf(t)))
    {
      GcdOfDivisors(s, d);
      GcdOfDivisors(t, d);
      GcdDivisors(a[l], GcdOf(t), d);
      assert (forall i :: 0 <= i < |s| ==> Divides(d, s[i])) <==> (forall i :: l <= i <= r ==> Divides(d, a[i])) by {
        assert forall i :: l <= i <= r ==> s[i - l] == a[i];
      }
      assert (forall i :: 0 <= i < |t| ==> Divides(d, t[i])) <==> (forall i :: l <= i < r ==> Divides(d, Diffs(a)[i])) by {
        assert forall i :: l <= i < r ==> t[i - l] == Diffs(a)[i];
      }
      if forall i :: l <= i <= r ==> Divides(d, a[i]) {
        DiffsDivided(a, l, r, d);
      }
      if Divides(d, a[l]) && forall i :: l <= i < r ==> Divides(d, Diffs(a)[i]) {
        ElementsDivided(a, l, r, d);
      }
    }
    SameDivisors(GcdOf(s), Gcd(a[l], GcdOf(t)));
  }
}
