// Exact values of base-phi digit strings. The ring Z[phi] holds every such
// value: a number a + b*phi with integers a and b, where phi*phi = phi + 1.
// The power phi^k is Fib(k-1) + Fib(k)*phi for every integer k, once the
// Fibonacci numbers are extended to negative indices, so a digit string's
// value is a pair of Fibonacci-weighted digit sums.
module GoldenRatio {

  /** The number a + b*phi. */
  datatype ZPhi = ZPhi(a: int, b: int)

  const Zero := ZPhi(0, 0)

  function Plus(x: ZPhi, y: ZPhi): ZPhi
  {
    ZPhi(x.a + y.a, x.b + y.b)
  }

  function Neg(x: ZPhi): ZPhi
  {
    ZPhi(-x.a, -x.b)
  }

  function Minus(x: ZPhi, y: ZPhi): ZPhi
  {
    Plus(x, Neg(y))
  }

  function Scale(k: int, x: ZPhi): ZPhi
  {
    ZPhi(k * x.a, k * x.b)
  }

  /** The product in Z[phi], reducing phi*phi to phi + 1. */
  function Times(x: ZPhi, y: ZPhi): ZPhi
  {
    ZPhi(x.a * y.a + x.b * y.b, x.a * y.b + x.b * y.a + x.b * y.b)
  }

  /** Fibonacci numbers on all integers: Fib(k) = Fib(k+2) - Fib(k+1) below 0. */
  function Fib(k: int): int
    decreases if k < 0 then 1 else 0, if k < 0 then -k else k
  {
    if k == 0 then 0
    else if k == 1 then 1
    else if k > 1 then Fib(k - 1) + Fib(k - 2)
    else Fib(k + 2) - Fib(k + 1)
  }

  lemma FibRec(k: int)
    ensures Fib(k + 2) == Fib(k + 1) + Fib(k)
  {
  }

  /** phi raised to the integer power k. */
  function PhiPow(k: int): ZPhi
  {
    ZPhi(Fib(k - 1), Fib(k))
  }

  /** Multiplying by phi raises the power by one, downwards as well as upwards. */
  lemma PhiPowStep(k: int)
    ensures Times(PhiPow(k), ZPhi(0, 1)) == PhiPow(k + 1)
  {
    FibRec(k - 1);
  }

  lemma MulAdd(a: int, b: int, c: int)
    ensures a * (b + c) == a * b + a * c
  {
  }

  lemma MulSub(a: int, b: int, c: int)
    ensures a * (b - c) == a * b - a * c
  {
  }

  /** The algebra of one induction step of FibAdd. */
  lemma FibAddStep(x: int, y: int, f2: int, f1: int, f0: int, fm: int)
    requires f2 == f1 + f0 && f1 == f0 + fm
    ensures (x * f1 + y * f0) + (x * f0 + y * fm) == x * f2 + y * f1
  {
    MulAdd(x, f1, f0);
    MulAdd(y, f0, fm);
  }

  /** Addition of exponents: Fib(t+k) = Fib(t)Fib(k+1) + Fib(t-1)Fib(k). */
  lemma {:induction false} FibAdd(t: int, k: int)
    ensures Fib(t + k) == Fib(t) * Fib(k + 1) + Fib(t - 1) * Fib(k)
    decreases if k < 0 then 1 else 0, if k < 0 then -k else k
  {
    if k == 0 {
      assert Fib(1) == 1 && Fib(0) == 0;
    } else if k == 1 {
      FibRec(t - 1);
      assert Fib(2) == 1 && Fib(1) == 1;
    } else if k > 1 {
      FibAdd(t, k - 1);
      FibAdd(t, k - 2);
      FibRec(t + k - 2);
      FibRec(k - 1);
      FibRec(k - 2);
      FibAddStep(Fib(t), Fib(t - 1), Fib(k + 1), Fib(k), Fib(k - 1), Fib(k - 2));
    } else {
      FibAdd(t, k + 1);
      FibAdd(t, k + 2);
      FibRec(t + k);
      FibRec(k + 1);
      FibRec(k);
      FibAddStep(Fib(t), Fib(t - 1), Fib(k + 3), Fib(k + 2), Fib(k + 1), Fib(k));
    }
  }

  /** The sum of d[i] * Fib(t - i): digit i sits at the place t - i. */
  function Weighted(d: seq<int>, t: int): int
    decreases |d|
  {
    if |d| == 0 then 0 else d[0] * Fib(t) + Weighted(d[1..], t - 1)
  }

  /** The value of digit string d whose first digit sits at the place top. */
  function DigitsValue(d: seq<int>, top: int): ZPhi
  {
    ZPhi(Weighted(d, top - 1), Weighted(d, top))
  }

  /** Two digit strings of the same value when their first digits share a place. */
  predicate Equivalent(x: seq<int>, y: seq<int>)
  {
    DigitsValue(x, 0) == DigitsValue(y, 0)
  }

  function Zeros(n: nat): (z: seq<int>)
    ensures |z| == n
    ensures forall i :: 0 <= i < n ==> z[i] == 0
  {
    seq(n, _ => 0)
  }

  lemma {:induction false} WeightedConcat(x: seq<int>, y: seq<int>, t: int)
    ensures Weighted(x + y, t) == Weighted(x, t) + Weighted(y, t - |x|)
    decreases |x|
  {
    if |x| > 0 {
      assert (x + y)[1..] == x[1..] + y;
      WeightedConcat(x[1..], y, t - 1);
    } else {
      assert x + y == y;
    }
  }

  /** Digits that are all zero weigh nothing. */
  lemma {:induction false} WeightedAllZero(d: seq<int>, t: int)
    requires forall i :: 0 <= i < |d| ==> d[i] == 0
    ensures Weighted(d, t) == 0
    decreases |d|
  {
    if |d| > 0 {
      WeightedAllZero(d[1..], t - 1);
    }
  }

  /** Padding a digit string with zeros on both ends keeps its value. */
  lemma Padded(d: seq<int>, left: nat, right: nat, t: int)
    ensures Weighted(Zeros(left) + d + Zeros(right), t + left) == Weighted(d, t)
  {
    WeightedConcat(Zeros(left) + d, Zeros(right), t + left);
    WeightedConcat(Zeros(left), d, t + left);
    WeightedAllZero(Zeros(left), t + left);
    WeightedAllZero(Zeros(right), t - |d|);
  }

  /** Raising one digit by c adds c times the weight of its place. */
  lemma {:induction false} WeightedUpdate(d: seq<int>, i: int, c: int, t: int)
    requires 0 <= i < |d|
    ensures Weighted(d[i := d[i] + c], t) == Weighted(d, t) + c * Fib(t - i)
    decreases i
  {
    if i == 0 {
      assert d[i := d[i] + c][1..] == d[1..];
    } else {
      assert d[i := d[i] + c][1..] == d[1..][i - 1 := d[i] + c];
      WeightedUpdate(d[1..], i - 1, c, t - 1);
    }
  }

  /**
   * The rewrite used by every carry and borrow: raising digit j by c and
   * lowering digits j+1 and j+2 by c keeps the value, since
   * phi^(m+2) = phi^(m+1) + phi^m.
   */
  lemma Move(d: seq<int>, j: int, c: int)
    requires 0 <= j && j + 2 < |d|
    ensures Equivalent(d[j := d[j] + c][j + 1 := d[j + 1] - c][j + 2 := d[j + 2] - c], d)
  {
    MoveAt(d, j, c, 0);
    MoveAt(d, j, c, -1);
  }

  lemma MoveAt(d: seq<int>, j: int, c: int, t: int)
    requires 0 <= j && j + 2 < |d|
    ensures Weighted(d[j := d[j] + c][j + 1 := d[j + 1] - c][j + 2 := d[j + 2] - c], t) == Weighted(d, t)
  {
    var d1 := d[j := d[j] + c];
    var d2 := d1[j + 1 := d1[j + 1] + -c];
    var d3 := d2[j + 2 := d2[j + 2] + -c];
    assert d3 == d[j := d[j] + c][j + 1 := d[j + 1] - c][j + 2 := d[j + 2] - c];
    WeightedUpdate(d, j, c, t);
    WeightedUpdate(d1, j + 1, -c, t);
    WeightedUpdate(d2, j + 2, -c, t);
    FibRec(t - j - 2);
    MulAdd(c, Fib(t - j - 1), Fib(t - j - 2));
    MulNeg(c, Fib(t - j - 1));
    MulNeg(c, Fib(t - j - 2));
  }

  lemma MulNeg(a: int, b: int)
    ensures -a * b == -(a * b)
  {
  }

  lemma AddMul(a: int, b: int, c: int)
    ensures (a + b) * c == a * c + b * c
  {
  }

  lemma MulAssoc(a: int, b: int, c: int)
    ensures a * (b * c) == (a * b) * c
  {
  }

  /** Digit-wise sums and differences add and subtract values. */
  lemma {:induction false} WeightedLinear(x: seq<int>, y: seq<int>, s: seq<int>, sign: int, t: int)
    requires |x| == |y| == |s|
    requires forall i :: 0 <= i < |s| ==> s[i] == x[i] + sign * y[i]
    ensures Weighted(s, t) == Weighted(x, t) + sign * Weighted(y, t)
    decreases |s|
  {
    if |s| > 0 {
      WeightedLinear(x[1..], y[1..], s[1..], sign, t - 1);
      AddMul(x[0], sign * y[0], Fib(t));
      MulAssoc(sign, y[0], Fib(t));
      MulAdd(sign, y[0] * Fib(t), Weighted(y[1..], t - 1));
    }
  }

  /** Moving every place up by k multiplies the weighted sums by phi^k. */
  lemma {:induction false} WeightedShift(d: seq<int>, t: int, k: int)
    ensures Weighted(d, t + k) == Weighted(d, t) * Fib(k + 1) + Weighted(d, t - 1) * Fib(k)
    decreases |d|
  {
    if |d| > 0 {
      WeightedShift(d[1..], t - 1, k);
      FibAdd(t, k);
      var x, y, u, v := Fib(t), Fib(t - 1), Weighted(d[1..], t - 1), Weighted(d[1..], t - 2);
      var f, g := Fib(k + 1), Fib(k);
      assert Weighted(d[1..], t - 1 + k) == u * f + v * g;
      MulAdd(d[0], x * f, y * g);
      MulAssoc(d[0], x, f);
      MulAssoc(d[0], y, g);
      AddMul(d[0] * x, u, f);
      AddMul(d[0] * y, v, g);
      assert Weighted(d, t - 1) == d[0] * y + v;
    }
  }

  /** The value of a digit string placed k higher is its value times phi^k. */
  lemma DigitsShift(d: seq<int>, top: int, k: int)
    ensures DigitsValue(d, top + k) == Times(DigitsValue(d, top), PhiPow(k))
  {
    WeightedShift(d, top, k);
    WeightedShift(d, top, k - 1);
    FibRec(k - 1);
    var x := DigitsValue(d, top);
    MulAdd(x.b, Fib(k - 1), Fib(k));
    assert top + k - 1 == top + (k - 1);
  }

  /** Equivalent strings agree at every placement. */
  lemma {:induction false} EquivalentAt(x: seq<int>, y: seq<int>, top: int)
    requires Equivalent(x, y)
    ensures DigitsValue(x, top) == DigitsValue(y, top)
  {
    WeightedShift(x, 0, top);
    WeightedShift(y, 0, top);
    WeightedShift(x, 0, top - 1);
    WeightedShift(y, 0, top - 1);
  }

  lemma TimesPlus(x: ZPhi, y: ZPhi, z: ZPhi)
    ensures Times(x, Plus(y, z)) == Plus(Times(x, y), Times(x, z))
  {
    MulAdd(x.a, y.a, z.a);
    MulAdd(x.b, y.b, z.b);
    MulAdd(x.a, y.b, z.b);
    MulAdd(x.b, y.a, z.a);
  }

  lemma Rearrange4(s1: int, s2: int, u: int, v: int)
    ensures (s1 * s2 * u) * v == (s1 * u) * (s2 * v)
  {
    MulAssoc(s1, s2, u);
  }

  lemma TimesScale(s1: int, x: ZPhi, s2: int, y: ZPhi)
    ensures Times(Scale(s1 * s2, x), y) == Times(Scale(s1, x), Scale(s2, y))
  {
    Rearrange4(s1, s2, x.a, y.a);
    Rearrange4(s1, s2, x.b, y.b);
    Rearrange4(s1, s2, x.a, y.b);
    Rearrange4(s1, s2, x.b, y.a);
  }

  lemma TimesZero(x: ZPhi)
    ensures Times(x, Zero) == Zero
  {
  }

  lemma ScalePlus(k: int, x: ZPhi, y: ZPhi)
    ensures Scale(k, Plus(x, y)) == Plus(Scale(k, x), Scale(k, y))
  {
    MulAdd(k, x.a, y.a);
    MulAdd(k, x.b, y.b);
  }

  lemma ScaleSum(j: int, k: int, x: ZPhi)
    ensures Plus(Scale(j, x), Scale(k, x)) == Scale(j + k, x)
  {
    AddMul(j, k, x.a);
    AddMul(j, k, x.b);
  }

  lemma ScaleNeg(k: int, x: ZPhi)
    ensures Scale(-k, x) == Neg(Scale(k, x))
  {
    MulNeg(k, x.a);
    MulNeg(k, x.b);
  }

  lemma ScaleTimes(k: int, x: ZPhi, y: ZPhi)
    ensures Scale(k, Times(x, y)) == Times(Scale(k, x), y)
  {
    MulAssoc(k, x.a, y.a);
    MulAssoc(k, x.b, y.b);
    MulAssoc(k, x.a, y.b);
    MulAssoc(k, x.b, y.a);
    MulAdd(k, x.a * y.a, x.b * y.b);
    MulAdd(k, x.a * y.b + x.b * y.a, x.b * y.b);
    MulAdd(k, x.a * y.b, x.b * y.a);
  }

  /** Appending a digit adds its weight at the place after the last one. */
  lemma DigitsSnoc(d: seq<int>, x: int, top: int)
    ensures DigitsValue(d + [x], top) == Plus(DigitsValue(d, top), Scale(x, PhiPow(top - |d|)))
  {
    WeightedConcat(d, [x], top);
    WeightedConcat(d, [x], top - 1);
    assert Weighted([x], top - |d|) == x * Fib(top - |d|);
    assert Weighted([x], top - 1 - |d|) == x * Fib(top - |d| - 1);
  }

  lemma ScaleOne(x: ZPhi)
    ensures Scale(1, x) == x
  {
  }

  lemma ScaleZero(x: ZPhi)
    ensures Scale(0, x) == Zero
  {
  }

  lemma PlusComm(x: ZPhi, y: ZPhi)
    ensures Plus(x, y) == Plus(y, x)
  {
  }

  lemma PlusNeg(x: ZPhi)
    ensures Plus(x, Neg(x)) == Zero
  {
  }

  lemma PlusZero(x: ZPhi)
    ensures Plus(x, Zero) == x
  {
  }
}
