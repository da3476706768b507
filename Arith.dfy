// Integer facts shared by the number-theoretic and hashing modules:
// exponentiation, modular reduction, and greatest common divisors.
module Arith {

  /** b raised to the natural power e. */
  function Pow(b: int, e: nat): int
    decreases e
  {
    if e == 0 then 1 else b * Pow(b, e - 1)
  }

  /** 2 raised to the power s, as a positive natural. */
  function Pow2(s: nat): (r: nat)
    ensures r >= 1
  {
    if s == 0 then 1 else 2 * Pow2(s - 1)
  }

  lemma {:induction false} Pow2IsPow(s: nat)
    ensures Pow2(s) == Pow(2, s)
  {
    if s > 0 { Pow2IsPow(s - 1); }
  }

  lemma {:induction false} PowNonNegative(b: int, e: nat)
    requires b >= 0
    ensures Pow(b, e) >= 0
  {
    if e > 0 {
      PowNonNegative(b, e - 1);
      MulNonNegative(b, Pow(b, e - 1));
    }
  }

  lemma {:induction false} PowPositive(b: int, e: nat)
    requires b > 0
    ensures Pow(b, e) > 0
  {
    if e > 0 {
      PowPositive(b, e - 1);
      MulPositive(b, Pow(b, e - 1));
    }
  }

  lemma MulNonNegative(a: int, b: int)
    requires a >= 0 && b >= 0
    ensures a * b >= 0
  {
  }

  lemma MulPositive(a: int, b: int)
    requires a > 0 && b > 0
    ensures a * b > 0
  {
  }

  lemma {:induction false} PowAdd(b: int, e1: nat, e2: nat)
    ensures Pow(b, e1 + e2) == Pow(b, e1) * Pow(b, e2)
    decreases e1
  {
    if e1 > 0 {
      PowAdd(b, e1 - 1, e2);
      calc {
        Pow(b, e1 + e2);
        b * Pow(b, e1 - 1 + e2);
        b * (Pow(b, e1 - 1) * Pow(b, e2));
        { MulAssoc(b, Pow(b, e1 - 1), Pow(b, e2)); }
        (b * Pow(b, e1 - 1)) * Pow(b, e2);
      }
    }
  }

  lemma MulAssoc(a: int, b: int, c: int)
    ensures a * (b * c) == (a * b) * c
  {
  }

  /** (b*b)^k == b^(2k): squaring the base halves the exponent. */
  lemma {:induction false} PowSquare(b: int, k: nat)
    ensures Pow(b * b, k) == Pow(b, 2 * k)
    decreases k
  {
    if k > 0 {
      PowSquare(b, k - 1);
      PowAdd(b, 2, 2 * (k - 1));
      assert Pow(b, 2) == b * b;
    }
  }

  lemma {:induction false} PowMul(b: int, e1: nat, e2: nat)
    ensures e1 * e2 >= 0
    ensures Pow(b, e1 * e2) == Pow(Pow(b, e1), e2)
    decreases e2
  {
    MulNonNegative(e1, e2);
    if e2 > 0 {
      PowMul(b, e1, e2 - 1);
      MulNonNegative(e1, e2 - 1);
      assert e1 * e2 == e1 + e1 * (e2 - 1);
      PowAdd(b, e1, e1 * (e2 - 1));
    }
  }

  lemma {:induction false} PowOne(e: nat)
    ensures Pow(1, e) == 1
  {
    if e > 0 { PowOne(e - 1); }
  }

  lemma {:induction false} PowZeroBase(e: nat)
    requires e > 0
    ensures Pow(0, e) == 0
  {
  }

  // ---------------------------------------------------------------------
  // Modular reduction (Euclidean: the remainder is never negative)

  lemma ModOfMod(a: int, m: int)
    requires m > 0
    ensures (a % m) % m == a % m
  {
  }

  lemma {:induction false} MulModLeft(a: int, b: int, m: int)
    requires m > 0
    ensures ((a % m) * b) % m == (a * b) % m
  {
    var q := a / m;
    assert a == q * m + a % m;
    calc {
      a * b;
      (q * m + a % m) * b;
      { Distrib(q * m, a % m, b); }
      q * m * b + (a % m) * b;
      { MulAssoc(q, m, b); MulComm(m, b); MulAssoc(q, b, m); }
      (q * b) * m + (a % m) * b;
    }
    AddMultipleMod((a % m) * b, q * b, m);
  }

  lemma MulModRight(a: int, b: int, m: int)
    requires m > 0
    ensures (a * (b % m)) % m == (a * b) % m
  {
    MulComm(a, b % m);
    MulComm(a, b);
    MulModLeft(b, a, m);
  }

  lemma MulModBoth(a: int, b: int, m: int)
    requires m > 0
    ensures ((a % m) * (b % m)) % m == (a * b) % m
  {
    MulModLeft(a, b % m, m);
    MulModRight(a, b, m);
  }

  lemma Distrib(a: int, b: int, c: int)
    ensures (a + b) * c == a * c + b * c
  {
  }

  lemma MulComm(a: int, b: int)
    ensures a * b == b * a
  {
  }

  /** Adding a multiple of m does not change the remainder. */
  lemma {:induction false} AddMultipleMod(x: int, k: int, m: int)
    requires m > 0
    ensures (x + k * m) % m == x % m
  {
    var q := x / m;
    var r := x % m;
    assert x == q * m + r;
    assert x + k * m == (q + k) * m + r by { Distrib(q, k, m); }
    ModUnique(x + k * m, q + k, r, m);
  }

  /** The remainder is the unique r in [0, m) with x == q*m + r. */
  lemma ModUnique(x: int, q: int, r: int, m: int)
    requires m > 0 && 0 <= r < m && x == q * m + r
    ensures x % m == r && x / m == q
  {
    var q0, r0 := x / m, x % m;
    assert (q0 - q) * m == r - r0 by { Distrib(q0, -q, m); }
    MulLtCancel(q0 - q, 1, m);
    MulLtCancel(-1, q0 - q, m);
  }

  /** x and y congruent modulo q stay congruent after adding c. */
  lemma AddModLeft(x: int, y: int, c: int, q: int)
    requires q > 0 && x % q == y % q
    ensures (x + c) % q == (y + c) % q
  {
    ModEqMultiple(x, y, q);
    AddMultipleMod(y + c, x / q - y / q, q);
  }

  /** Congruent numbers differ by a multiple of the modulus. */
  lemma ModEqMultiple(x: int, y: int, q: int)
    requires q > 0 && x % q == y % q
    ensures x == y + (x / q - y / q) * q
  {
    Distrib(x / q, -(y / q), q);
  }

  lemma MulLtCancel(a: int, b: int, m: int)
    requires m > 0 && a * m < b * m
    ensures a < b
  {
    if a >= b {
      MulMono(a, b, m);
    }
  }

  lemma MulMono(a: int, b: int, m: int)
    requires a >= b && m >= 0
    ensures a * m >= b * m
  {
    assert a * m - b * m == (a - b) * m by { Distrib(a, -b, m); }
    MulNonNegative(a - b, m);
  }

  lemma {:induction false} PowMod(b: int, e: nat, m: int)
    requires m > 0
    ensures Pow(b % m, e) % m == Pow(b, e) % m
    decreases e
  {
    if e > 0 {
      calc {
        Pow(b % m, e) % m;
        ((b % m) * Pow(b % m, e - 1)) % m;
        { MulModRight(b % m, Pow(b % m, e - 1), m); }
        ((b % m) * (Pow(b % m, e - 1) % m)) % m;
        { PowMod(b, e - 1, m); }
        ((b % m) * (Pow(b, e - 1) % m)) % m;
        { MulModBoth(b, Pow(b, e - 1), m); }
        (b * Pow(b, e - 1)) % m;
      }
    }
  }

  /** One round of square-and-multiply keeps result * base^exp (mod m). */
  lemma SquareMultiplyStep(result: int, base: int, exp: int, mod: int)
    requires mod > 0 && exp > 0
    ensures var r := if exp % 2 == 1 then (result * base) % mod else result;
      (result * Pow(base, exp)) % mod == (r * Pow((base * base) % mod, exp / 2)) % mod
  {
    var k := exp / 2;
    var p := Pow(base * base, k);
    PowSquare(base, k);
    if exp % 2 == 1 {
      assert Pow(base, exp) == base * Pow(base, 2 * k);
      calc {
        (result * Pow(base, exp)) % mod;
        { MulAssoc(result, base, p); }
        ((result * base) * p) % mod;
        { MulModLeft(result * base, p, mod); }
        (((result * base) % mod) * p) % mod;
        { MulModRight((result * base) % mod, p, mod);
          PowMod(base * base, k, mod);
          MulModRight((result * base) % mod, Pow((base * base) % mod, k), mod); }
        (((result * base) % mod) * Pow((base * base) % mod, k)) % mod;
      }
    } else {
      calc {
        (result * Pow(base, exp)) % mod;
        (result * p) % mod;
        { MulModRight(result, p, mod);
          PowMod(base * base, k, mod);
          MulModRight(result, Pow((base * base) % mod, k), mod); }
        (result * Pow((base * base) % mod, k)) % mod;
      }
    }
  }

  /** Java's remainder, which truncates toward zero: the result takes the
      sign of the dividend. */
  function JavaRem(x: int, m: int): int
    requires m > 0
  {
    if x >= 0 then x % m else -((-x) % m)
  }

  /** Java's integer division, which truncates toward zero. */
  function JavaDiv(x: int, m: int): (q: int)
    requires m > 0
    ensures x >= 0 ==> q == x / m
    ensures x < 0 ==> q == -((-x) / m)
  {
    if x >= 0 then x / m else -((-x) / m)
  }

  /** The source's "rem, then add m if negative" is the Euclidean remainder. */
  lemma FixedRemIsMod(x: int, m: int)
    requires m > 0
    ensures (if JavaRem(x, m) < 0 then JavaRem(x, m) + m else JavaRem(x, m)) == x % m
  {
    if x < 0 {
      var q := (-x) / m;
      var p := (-x) % m;
      assert -x == q * m + p;
      if p == 0 {
        assert x == (-q) * m;
        ModUnique(x, -q, 0, m);
      } else {
        assert x == (-q - 1) * m + (m - p) by { Distrib(-q, -1, m); }
        ModUnique(x, -q - 1, m - p, m);
      }
    }
  }

  function Abs(x: int): (r: nat)
    ensures r == x || r == -x
  {
    if x < 0 then -x else x
  }

  function Min(a: int, b: int): int
  {
    if a < b then a else b
  }
}
