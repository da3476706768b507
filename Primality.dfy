// Primality tests of projects/01-primalityTests/implementation/primalityTests.java:
// trial division, fast modular exponentiation and the deterministic
// Miller-Rabin test with the first twelve primes as witnesses.
module Primality {
  import opened Arith

  /** n is prime: at least 2 and without a divisor strictly between 1 and n. */
  ghost predicate IsPrime(n: int)
  {
    n >= 2 && forall d :: 2 <= d < n ==> n % d != 0
  }

  /** Trial division by every candidate in [2, n). */
  method Naive(n: int) returns (r: bool)
    ensures r <==> IsPrime(n)
  {
    if n < 2 {
      return false;
    }
    var i := 2;
    while i < n
      invariant 2 <= i <= n
      invariant forall d :: 2 <= d < i ==> n % d != 0
    {
      if n % i == 0 {
        return false;
      }
      i := i + 1;
    }
    return true;
  }

  /** Trial division by 2 and by the odd candidates i with i*i <= n. */
  method NaiveOptimized(n: int) returns (r: bool)
    ensures r <==> IsPrime(n)
  {
    if n < 4 {
      return n == 2 || n == 3;
    }
    if n % 2 == 0 {
      assert n % 2 == 0;
      return false;
    }
    var i := 3;
    while i * i <= n
      invariant 3 <= i && i % 2 == 1
      invariant forall d :: 2 <= d < i ==> n % d != 0
    {
      if n % i == 0 {
        return false;
      }
      EvenCandidateNotDivisor(n, i + 1);
      i := i + 2;
    }
    forall d | i <= d < n
      ensures n % d != 0
    {
      LargeDivisorHasSmallCofactor(n, i, d);
    }
    return true;
  }

  /** An even d never divides an odd n. */
  lemma EvenCandidateNotDivisor(n: int, d: int)
    requires n % 2 == 1 && d >= 2 && d % 2 == 0
    ensures n % d != 0
  {
    if n % d == 0 {
      var q := n / d;
      var h := d / 2;
      assert n == q * d;
      assert n == (q * h) * 2 by { MulAssoc(q, h, 2); }
      ModUnique(n, q * h, 0, 2);
    }
  }

  /** A divisor d >= i of n with i*i > n has a cofactor in [2, i). */
  lemma LargeDivisorHasSmallCofactor(n: int, i: int, d: int)
    requires i >= 2 && i * i > n && i <= d < n
    requires forall e :: 2 <= e < i ==> n % e != 0
    ensures n % d != 0
  {
    if n % d == 0 {
      var e := n / d;
      assert n == e * d;
      MulLtCancel(1, e, d);
      // e * d == n < i * i <= i * d, so e < i
      MulMono(d, i, i);
      MulLtCancel(e, i, d);
      assert n == d * e by { MulComm(e, d); }
      ModUnique(n, d, 0, e);
    }
  }

  /** The modular power computed by square-and-multiply; 1 when exp <= 0,
      even for mod == 1, since the loop never runs. */
  function PowerSpec(base: int, exp: int, mod: int): int
    requires base >= 0 && mod > 0
  {
    if exp <= 0 then 1 else Pow(base, exp) % mod
  }

  /** Square-and-multiply exponentiation: result accumulates the odd bits. */
  method BinaryPower(base0: int, exp0: int, mod: int) returns (result: int)
    requires base0 >= 0 && mod > 0
    ensures result == PowerSpec(base0, exp0, mod)
    ensures 0 <= result && (exp0 > 0 ==> result < mod)
  {
    result := 1;
    var base := base0 % mod;
    var exp := exp0;
    PowMod(base0, if exp0 > 0 then exp0 else 0, mod);
    while exp > 0
      invariant 0 <= base < mod && 0 <= result
      invariant exp > 0 || result < mod || exp0 <= 0
      invariant exp0 > 0 ==> exp >= 0 && (result * Pow(base, exp)) % mod == Pow(base0, exp0) % mod
      invariant exp0 <= 0 ==> exp == exp0 && result == 1
    {
      SquareMultiplyStep(result, base, exp, mod);
      if exp % 2 == 1 {
        result := (result * base) % mod;
      }
      exp := exp / 2;
      MulNonNegative(base, base);
      base := (base * base) % mod;
    }
    if exp0 > 0 {
      ModUnique(result, 0, result, mod);
    }
  }

  /** a is a Miller-Rabin witness to the compositeness of n, with n - 1 == d * 2^s:
      a^d is neither 1 nor n-1, and no a^(d*2^r) with 0 < r < s is n-1. */
  ghost predicate IsWitness(n: int, a: int, d: nat, s: int)
    requires n > 0 && a >= 0
  {
    var x := Pow(a, d) % n;
    x != 1 && x != n - 1 &&
    forall r: nat :: 0 < r < s ==> Pow(a, d * Pow2(r)) % n != n - 1
  }

  /** Repeated squaring walks a^d, a^(2d), a^(4d), ... modulo n. */
  method CheckComposite(n: int, a: int, d: int, s: int) returns (composite: bool)
    requires n > 1 && a >= 0 && d > 0
    ensures composite <==> IsWitness(n, a, d, s)
  {
    var x := BinaryPower(a, d, n);
    if x == 1 || x == n - 1 {
      return false;
    }
    var j := 1;
    while j < s
      invariant 1 <= j && (j <= s || s < 1)
      invariant x == Pow(a, d * Pow2(j - 1)) % n
      invariant forall r: nat :: 0 < r < j ==> Pow(a, d * Pow2(r)) % n != n - 1
    {
      x := BinaryPower(x, 2, n);
      SquareStep(a, d, j, n);
      if x == n - 1 {
        return false;
      }
      j := j + 1;
    }
    assert Pow2(0) == 1;
    return true;
  }

  /** Squaring a^(d*2^(j-1)) mod n gives a^(d*2^j) mod n. */
  lemma SquareStep(a: int, d: int, j: nat, n: int)
    requires n > 1 && a >= 0 && d > 0 && j >= 1
    ensures d * Pow2(j - 1) >= 0 && d * Pow2(j) >= 0
    ensures Pow(Pow(a, d * Pow2(j - 1)) % n, 2) % n == Pow(a, d * Pow2(j)) % n
  {
    var e := d * Pow2(j - 1);
    MulNonNegative(d, Pow2(j - 1));
    assert d * Pow2(j) == 2 * e by { MulAssoc(d, 2, Pow2(j - 1)); }
    PowMod(Pow(a, e), 2, n);
    PowMul(a, e, 2);
    MulComm(e, 2);
  }

  /** The odd part of a positive m, and the exponent of 2 in m. */
  function OddPart(m: int): nat
    requires m > 0
    decreases m
  {
    if m % 2 == 0 then OddPart(m / 2) else m
  }

  function TwoExp(m: int): nat
    requires m > 0
    decreases m
  {
    if m % 2 == 0 then 1 + TwoExp(m / 2) else 0
  }

  lemma {:induction false} OddPartSplits(m: int)
    requires m > 0
    ensures OddPart(m) > 0 && OddPart(m) % 2 == 1
    ensures m == OddPart(m) * Pow2(TwoExp(m))
    decreases m
  {
    if m % 2 == 0 {
      var h := m / 2;
      OddPartSplits(h);
      assert m == 2 * h;
      assert Pow2(TwoExp(m)) == 2 * Pow2(TwoExp(h));
      MulAssoc(OddPart(h), 2, Pow2(TwoExp(h)));
      MulComm(OddPart(h), 2);
      MulAssoc(2, OddPart(h), Pow2(TwoExp(h)));
    }
  }

  /** Splits n - 1 into d * 2^s with d odd, halving while even. */
  method Decompose(n: int) returns (d: int, s: nat)
    requires n >= 4
    ensures d > 0 && d % 2 == 1
    ensures n - 1 == d * Pow2(s)
    ensures d == OddPart(n - 1) && s == TwoExp(n - 1)
  {
    s := 0;
    d := n - 1;
    while d % 2 == 0
      invariant d > 0
      invariant n - 1 == d * Pow2(s)
      invariant OddPart(d) == OddPart(n - 1) && s + TwoExp(d) == TwoExp(n - 1)
      decreases d
    {
      MulAssoc(d / 2, 2, Pow2(s));
      d := d / 2;
      s := s + 1;
    }
  }

  /** The fixed witness list of the deterministic test. */
  const Witnesses: seq<int> := [2, 3, 5, 7, 11, 13, 17, 19, 23, 29, 31, 37]

  /** Witness i is tried and proves n composite: it lies within the first
      min(iters, 12), no witness up to it equals n, and it is a witness. */
  ghost predicate Rejects(n: int, iters: int, i: int)
    requires n >= 4
  {
    0 <= i < |Witnesses| && i < iters &&
    (forall k :: 0 <= k <= i ==> Witnesses[k] != n) &&
    IsWitness(n, Witnesses[i], OddPart(n - 1), TwoExp(n - 1))
  }

  /** Deterministic Miller-Rabin over the first min(iters, 12) witnesses:
      stops with "prime" once a witness equals n, and with "composite" at the
      first witness that proves it. */
  method MillerRabinDeterministic(n: int, iters: int) returns (probablePrime: bool)
    ensures n < 4 ==> (probablePrime <==> n == 2 || n == 3)
    ensures n >= 4 ==> (!probablePrime <==> exists i :: Rejects(n, iters, i))
  {
    if n < 4 {
      return n == 2 || n == 3;
    }
    var d, s := Decompose(n);
    var bound := if iters < |Witnesses| then iters else |Witnesses|;
    var i := 0;
    while i < bound
      invariant 0 <= i <= |Witnesses| && (bound > 0 ==> i <= bound)
      invariant forall k :: 0 <= k < i ==> Witnesses[k] != n
      invariant forall k :: 0 <= k < i ==> !Rejects(n, iters, k)
    {
      if Witnesses[i] == n {
        return true;
      }
      var c := CheckComposite(n, Witnesses[i], d, s);
      if c {
        assert Rejects(n, iters, i);
        return false;
      }
      i := i + 1;
    }
    return true;
  }
}
