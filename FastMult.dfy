// Toom-3 multiplication of machine integers, after
// projects/18-fastMultiplication/implementation/FastMultiplication.java:
// an operand is split into three base-`base` digits with Java's truncating
// % and /, the product polynomial is evaluated at 0, 1, -1, 2 and infinity
// by five recursive multiplications, its coefficients are interpolated,
// and the coefficients are combined back into a number.
module ToomCook {
  import opened Arith

  /** The operands for which multiply recurses instead of multiplying directly. */
  predicate Recurses(a: int, b: int)
  {
    a != 0 && b != 0 && Abs(a) > 10 && Abs(b) > 10
  }

  /** What calculateBase guarantees, read with exact arithmetic: whenever
      multiply recurses, the base is at least 3 and at most the larger
      operand (10^ceil(d/3) for an operand of d digits). */
  ghost predicate ValidBase(baseOf: (int, int) -> int)
  {
    forall a, b :: Recurses(a, b) ==>
      3 <= baseOf(a, b) && (baseOf(a, b) <= Abs(a) || baseOf(a, b) <= Abs(b))
  }

  // ---------------------------------------------------------------------
  // Splitting and combining

  /** Java's truncating % and / commute with negation. */
  lemma JavaNegate(x: int, m: int)
    requires m > 0
    ensures JavaRem(-x, m) == -JavaRem(x, m) && JavaDiv(-x, m) == -JavaDiv(x, m)
  {
  }

  /** The three parts of `number`: the lowest digit, the next digit, and
      what remains above them. */
  function Split(number: int, base: int): (parts: seq<int>)
    requires base >= 2
    ensures |parts| == 3
    ensures Abs(parts[0]) < base && Abs(parts[1]) < base
    ensures number >= 0 ==> parts[0] >= 0 && parts[1] >= 0 && parts[2] >= 0
    ensures number <= 0 ==> parts[0] <= 0 && parts[1] <= 0 && parts[2] <= 0
  {
    SplitSound(number, base);
    var rest := JavaDiv(number, base);
    [JavaRem(number, base), JavaRem(rest, base), JavaDiv(rest, base)]
  }

  lemma SplitSound(number: int, base: int)
    requires base >= 2
    ensures var rest := JavaDiv(number, base);
      var p0, p1, p2 := JavaRem(number, base), JavaRem(rest, base), JavaDiv(rest, base);
      number == p0 + p1 * base + p2 * (base * base) &&
      Abs(p0) < base && Abs(p1) < base &&
      (number >= 0 ==> p0 >= 0 && p1 >= 0 && p2 >= 0) &&
      (number <= 0 ==> p0 <= 0 && p1 <= 0 && p2 <= 0)
  {
    if number >= 0 {
      DigitsOf(number, base);
    } else {
      DigitsOf(-number, base);
      JavaNegate(number, base);
      JavaNegate(JavaDiv(number, base), base);
    }
  }

  lemma DigitsOf(n: nat, base: int)
    requires base >= 2
    ensures var rest := n / base;
      n == n % base + (rest % base) * base + (rest / base) * (base * base) &&
      rest >= 0 && rest / base >= 0
  {
    var rest := n / base;
    assert n == rest * base + n % base;
    assert rest == (rest / base) * base + rest % base;
    calc {
      rest * base;
      ((rest / base) * base + rest % base) * base;
      { Distrib((rest / base) * base, rest % base, base); }
      (rest / base) * base * base + (rest % base) * base;
      { MulAssoc(rest / base, base, base); }
      (rest / base) * (base * base) + (rest % base) * base;
    }
  }

  /** Σ parts[i] * base^i, the number a coefficient list stands for. */
  function Eval(parts: seq<int>, base: int): int
  {
    if |parts| == 0 then 0
    else Eval(parts[..|parts| - 1], base) + parts[|parts| - 1] * Pow(base, |parts| - 1)
  }

  /** combine: the running total of parts[i] * base^i. */
  method Combine(parts: array<int>, base: int) returns (result: int)
    ensures result == Eval(parts[..], base)
  {
    result := 0;
    var i := 0;
    while i < parts.Length
      invariant 0 <= i <= parts.Length
      invariant result == Eval(parts[..i], base)
    {
      assert parts[..i + 1][..i] == parts[..i];
      var num := parts[i] * Pow(base, i);
      result := result + num;
      i := i + 1;
    }
    assert parts[..i] == parts[..];
  }

  /** The value of a three-part list, written out. */
  lemma EvalThree(p: seq<int>, base: int)
    requires |p| == 3
    ensures Eval(p, base) == p[0] + p[1] * base + p[2] * (base * base)
  {
    assert p[..2][..1] == p[..1];
    assert p[..1][..0] == [];
    assert Eval(p[..1], base) == p[0] * Pow(base, 0);
    assert Eval(p[..2], base) == Eval(p[..1], base) + p[1] * Pow(base, 1);
    assert Pow(base, 1) == base;
    assert Pow(base, 2) == base * base;
  }

  /** Combining the parts of a split gives back the number. */
  lemma CombineSplit(number: int, base: int)
    requires base >= 2
    ensures Eval(Split(number, base), base) == number
  {
    SplitSound(number, base);
    EvalThree(Split(number, base), base);
  }

  /** The value of a five-coefficient list, written with powers b2 = base^2. */
  lemma EvalFive(c: seq<int>, base: int)
    requires |c| == 5
    ensures var b2 := base * base;
      Eval(c, base) == c[0] + c[1] * base + c[2] * b2 + c[3] * (base * b2) + c[4] * (b2 * b2)
  {
    var b2 := base * base;
    assert c[..4][..3] == c[..3];
    EvalThree(c[..3], base);
    assert Pow(base, 3) == base * b2;
    assert Pow(base, 4) == base * (base * b2);
    MulAssoc(base, base, b2);
  }

  // ---------------------------------------------------------------------
  // The recursion shrinks

  /** Every operand of a recursive call on the parts of x is no larger
      than x, and strictly smaller once x has more than one digit. */
  lemma SplitShrinks(x: int, base: int)
    requires base >= 3
    ensures var e := Points(Split(x, base));
      forall i :: 0 <= i < 5 ==> Abs(e[i]) <= Abs(x) && (Abs(x) >= base ==> Abs(e[i]) < Abs(x))
  {
    var p := Split(x, base);
    SplitMagnitude(x, base);
    PointsBound(p);
    Weight(Abs(p[0]), Abs(p[1]), Abs(p[2]), base);
  }

  /** Because the parts share the sign of x, their magnitudes are its digits. */
  lemma SplitMagnitude(x: int, base: int)
    requires base >= 2
    ensures var p := Split(x, base);
      Abs(x) == Abs(p[0]) + Abs(p[1]) * base + Abs(p[2]) * (base * base)
  {
    var p := Split(x, base);
    SplitSound(x, base);
    if x < 0 {
      assert -x == (-p[0]) + (-p[1]) * base + (-p[2]) * (base * base);
    }
  }

  /** Each evaluation point is bounded by the weighted magnitudes 1, 2, 4. */
  lemma PointsBound(p: seq<int>)
    requires |p| == 3
    requires (p[0] >= 0 && p[1] >= 0 && p[2] >= 0) || (p[0] <= 0 && p[1] <= 0 && p[2] <= 0)
    ensures forall i :: 0 <= i < 5 ==> Abs(Points(p)[i]) <= Abs(p[0]) + 2 * Abs(p[1]) + 4 * Abs(p[2])
    ensures Abs(Points(p)[0]) == Abs(p[0]) && Abs(Points(p)[4]) == Abs(p[2])
  {
  }

  /** With a base of at least 3, the weights 1, 2, 4 undercut 1, base, base^2. */
  lemma Weight(u0: nat, u1: nat, u2: nat, base: int)
    requires base >= 3
    ensures u0 + 2 * u1 + 4 * u2 <= u0 + u1 * base + u2 * (base * base)
    ensures u2 <= u2 * (base * base)
    ensures (u1 > 0 || u2 > 0) ==> u0 + 2 * u1 + 4 * u2 < u0 + u1 * base + u2 * (base * base)
    ensures u0 < base ==> (u0 + u1 * base + u2 * (base * base) >= base ==> u1 > 0 || u2 > 0)
  {
    MulMono(base, 2, u1);
    MulMono(base * base, 4, u2);
    MulMono(base * base, 1, u2);
  }

  // ---------------------------------------------------------------------
  // Interpolation

  /** The exact quotient of a multiple of m, computed with Java's division. */
  lemma ExactDiv(k: int, m: int)
    requires m > 0
    ensures JavaDiv(k * m, m) == k
  {
    if k >= 0 {
      ModUnique(k * m, k, 0, m);
    } else {
      assert -(k * m) == (-k) * m;
      ModUnique((-k) * m, -k, 0, m);
    }
  }

  /** The coefficients of the product polynomial (a0 + a1 x + a2 x^2)(b0 + b1 x + b2 x^2). */
  function Coefficients(a: seq<int>, b: seq<int>): (c: seq<int>)
    requires |a| == 3 && |b| == 3
    ensures |c| == 5
  {
    [a[0] * b[0],
     a[1] * b[0] + a[0] * b[1],
     a[2] * b[0] + a[1] * b[1] + a[0] * b[2],
     a[2] * b[1] + a[1] * b[2],
     a[2] * b[2]]
  }

  /** The polynomial p0 + p1 x + p2 x^2 at the points 0, 1, -1, 2 and
      infinity (where it is its leading coefficient). */
  function Points(p: seq<int>): (e: seq<int>)
    requires |p| == 3
    ensures |e| == 5
  {
    [p[0], p[0] + p[1] + p[2], p[0] - p[1] + p[2], p[0] + 2 * p[1] + 4 * p[2], p[2]]
  }

  /** The products of the five evaluations: C(0), C(1), C(-1), C(2) and C(infinity). */
  function Evaluations(a: seq<int>, b: seq<int>): (x: seq<int>)
    requires |a| == 3 && |b| == 3
    ensures |x| == 5
  {
    var pa, pb := Points(a), Points(b);
    [pa[0] * pb[0], pa[1] * pb[1], pa[2] * pb[2], pa[3] * pb[3], pa[4] * pb[4]]
  }

  /** The interpolation step of multiply, Java's truncating divisions included. */
  function Interpolated(x0: int, x1: int, x2: int, x3: int, x4: int): (c: seq<int>)
    ensures |c| == 5
  {
    var c2 := JavaDiv(x1 + x2, 2) - x0 - x4;
    var c3 := JavaDiv(x3 - 2 * x1 + x0 - 2 * c2 - 14 * x4, 6);
    [x0, x1 - x0 - c2 - c3 - x4, c2, c3, x4]
  }

  /** Both divisions of the interpolation are exact: the dividends are
      2(c0 + c2 + c4) and 6 c3. */
  lemma DivisionsExact(a: seq<int>, b: seq<int>)
    requires |a| == 3 && |b| == 3
    ensures var x, c := Evaluations(a, b), Coefficients(a, b);
      x[1] + x[2] == 2 * (c[0] + c[2] + c[4]) &&
      x[3] - 2 * x[1] + c[0] - 2 * c[2] - 14 * c[4] == 6 * c[3] &&
      x[1] == c[0] + c[1] + c[2] + c[3] + c[4]
  {
    var a0, a1, a2, b0, b1, b2 := a[0], a[1], a[2], b[0], b[1], b[2];
    var s, t := b0 + b2, a0 + a2;
    assert (t + a1) * (s + b1) == t * s + t * b1 + a1 * s + a1 * b1;
    assert (t - a1) * (s - b1) == t * s - t * b1 - a1 * s + a1 * b1;
    assert t * s == a2 * b0 + a0 * b2 + a0 * b0 + a2 * b2;
    var u, v := a0 + 4 * a2, b0 + 4 * b2;
    assert (u + 2 * a1) * (v + 2 * b1) == u * v + 2 * (u * b1) + 2 * (a1 * v) + 4 * (a1 * b1);
    assert u * v == a0 * b0 + 4 * (a2 * b0) + 4 * (a0 * b2) + 16 * (a2 * b2);
    assert u * b1 == a0 * b1 + 4 * (a2 * b1);
    assert a1 * v == a1 * b0 + 4 * (a1 * b2);
    assert t * b1 == a0 * b1 + a2 * b1;
    assert a1 * s == a1 * b0 + a1 * b2;
  }

  lemma Rearrange(x: int, u: int, y: int, v: int)
    ensures (x * u) * (y * v) == (x * y) * (u * v)
  {
    MulAssoc(x, u, y * v);
    MulAssoc(u, y, v);
    MulComm(u, y);
    MulAssoc(y, u, v);
    MulAssoc(x, y, u * v);
  }

  /** The product polynomial evaluated at the base is the product of the operands. */
  lemma CoefficientsEval(a: seq<int>, b: seq<int>, base: int)
    requires |a| == 3 && |b| == 3
    ensures Eval(Coefficients(a, b), base) == Eval(a, base) * Eval(b, base)
  {
    var c := Coefficients(a, b);
    var b2 := base * base;
    EvalFive(c, base);
    EvalThree(a, base);
    EvalThree(b, base);
    var a0, a1, a2, b0, b1, b2' := a[0], a[1], a[2], b[0], b[1], b[2];
    var p, q := a1 * base, a2 * b2;
    var r, s := b1 * base, b2' * b2;
    calc {
      Eval(a, base) * Eval(b, base);
      (a0 + p + q) * (b0 + r + s);
      a0 * b0 + a0 * r + a0 * s + p * b0 + p * r + p * s + q * b0 + q * r + q * s;
      { Rearrange(a0, 1, b1, base); Rearrange(a1, base, b0, 1);
        Rearrange(a0, 1, b2', b2); Rearrange(a1, base, b1, base);
        Rearrange(a2, b2, b0, 1); Rearrange(a1, base, b2', b2);
        Rearrange(a2, b2, b1, base); Rearrange(a2, b2, b2', b2); }
      a0 * b0 + (a1 * b0 + a0 * b1) * base + (a2 * b0 + a1 * b1 + a0 * b2') * b2
        + (a2 * b1 + a1 * b2') * (base * b2) + (a2 * b2') * (b2 * b2);
    }
  }

  // ---------------------------------------------------------------------
  // multiply

  /** Interpolating the five exact evaluations recovers the coefficients. */
  lemma InterpolateExact(a: seq<int>, b: seq<int>)
    requires |a| == 3 && |b| == 3
    ensures var x := Evaluations(a, b);
      Interpolated(x[0], x[1], x[2], x[3], x[4]) == Coefficients(a, b)
  {
    var x, c := Evaluations(a, b), Coefficients(a, b);
    DivisionsExact(a, b);
    var c2 := JavaDiv(x[1] + x[2], 2) - x[0] - x[4];
    ExactDiv(c[0] + c[2] + c[4], 2);
    assert c2 == c[2];
    var c3 := JavaDiv(x[3] - 2 * x[1] + x[0] - 2 * c2 - 14 * x[4], 6);
    ExactDiv(c[3], 6);
    assert c3 == c[3];
    assert x[1] - x[0] - c2 - c3 - x[4] == c[1];
  }

  /** The products of the five evaluations of the parts of a and b,
      interpolated and combined as multiply does, give a * b. */
  lemma ToomStep(a: int, b: int, base: int, p: seq<int>, q: seq<int>,
                 x0: int, x1: int, x2: int, x3: int, x4: int)
    requires base >= 2 && p == Split(a, base) && q == Split(b, base)
    requires x0 == Points(p)[0] * Points(q)[0] && x1 == Points(p)[1] * Points(q)[1]
    requires x2 == Points(p)[2] * Points(q)[2] && x3 == Points(p)[3] * Points(q)[3]
    requires x4 == Points(p)[4] * Points(q)[4]
    ensures Eval(Interpolated(x0, x1, x2, x3, x4), base) == a * b
  {
    InterpolateExact(p, q);
    CoefficientsEval(p, q, base);
    CombineSplit(a, base);
    CombineSplit(b, base);
  }

  /** Each recursive call of multiply is on a smaller pair of magnitudes. */
  lemma CallsShrink(a: int, b: int, base: int)
    requires 3 <= base && (base <= Abs(a) || base <= Abs(b))
    ensures var pa, pb := Points(Split(a, base)), Points(Split(b, base));
      forall i :: 0 <= i < 5 ==> Abs(pa[i]) + Abs(pb[i]) < Abs(a) + Abs(b)
  {
    SplitShrinks(a, base);
    SplitShrinks(b, base);
  }

  /** The coefficient array of multiply, filled in the order the source fills it. */
  method Interpolate(x0: int, x1: int, x2: int, x3: int, x4: int) returns (products: array<int>)
    ensures fresh(products) && products[..] == Interpolated(x0, x1, x2, x3, x4)
  {
    products := new int[5];
    products[0] := x0;
    products[4] := x4;
    products[2] := JavaDiv(x1 + x2, 2) - products[0] - products[4];
    products[3] := JavaDiv(x3 - 2 * x1 + products[0] - 2 * products[2] - 14 * products[4], 6);
    products[1] := x1 - products[0] - products[2] - products[3] - products[4];
  }

  /** multiply(a, b) == a * b, for any base rule meeting ValidBase. */
  method Multiply(a: int, b: int, baseOf: (int, int) -> int) returns (r: int)
    requires ValidBase(baseOf)
    ensures r == a * b
    decreases Abs(a) + Abs(b)
  {
    if a == 0 || b == 0 {
      return 0;
    }
    if Abs(a) <= 10 || Abs(b) <= 10 {
      return a * b;
    }
    assert Recurses(a, b);
    var base := baseOf(a, b);
    var aParts := Split(a, base);
    var bParts := Split(b, base);
    CallsShrink(a, b, base);
    var pa, pb := Points(aParts), Points(bParts);
    var x0 := Multiply(pa[0], pb[0], baseOf);
    var x1 := Multiply(pa[1], pb[1], baseOf);
    var x2 := Multiply(pa[2], pb[2], baseOf);
    var x3 := Multiply(pa[3], pb[3], baseOf);
    var x4 := Multiply(pa[4], pb[4], baseOf);
    var products := Interpolate(x0, x1, x2, x3, x4);
    r := Combine(products, base);
    ToomStep(a, b, base, aParts, bParts, x0, x1, x2, x3, x4);
  }
}
