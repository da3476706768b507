// Rabin-Karp search of projects/03-rabinKarp/implementation/rabinKarp.java:
// a rolling base-256 hash modulo a prime, confirmed by comparing substrings.
module RabinKarp {
  import opened Arith
  import opened PolyHash
  import opened Outcomes
  import opened Matching

  /** The only failure: the first window reads past the end of a text shorter
      than the pattern (Java's StringIndexOutOfBoundsException). */
  datatype Failure = StringIndexOutOfBounds

  const Radix := 256

  /** The hash of a window, reduced modulo the prime. */
  function WindowHash(w: string, prime: int): int
    requires prime > 0
  {
    Horner(w, Radix, 0) % prime
  }

  /** h = 256^(m-1) mod prime, by m-1 multiplications (h stays 1 for m <= 1). */
  method HashFactor(m: int, prime: int) returns (h: int)
    requires prime > 0
    ensures 0 <= h && (m >= 1 ==> h % prime == Pow(Radix, m - 1) % prime)
  {
    h := 1;
    var i := 0;
    while i < m - 1
      invariant 0 <= i && (m >= 1 ==> i <= m - 1)
      invariant 0 <= h && h % prime == Pow(Radix, i) % prime
    {
      FactorStep(h, i, prime);
      h := (h * Radix) % prime;
      i := i + 1;
    }
  }

  /** Hashes the pattern and the text's first window together; fails when
      the text is the shorter. */
  method FirstHashes(text: string, pattern: string, prime: int) returns (r: Result<(int, int), Failure>)
    requires prime > 0
    ensures r.Err? <==> |pattern| > |text|
    ensures r.Ok? ==> r.value.0 == WindowHash(pattern, prime)
    ensures r.Ok? ==> r.value.1 == WindowHash(text[..|pattern|], prime)
  {
    var p, t := 0, 0;
    var i := 0;
    while i < |pattern|
      invariant 0 <= i <= |pattern| && i <= |text|
      invariant p == WindowHash(pattern[..i], prime)
      invariant t == WindowHash(text[..i], prime)
    {
      if i >= |text| {
        return Err(StringIndexOutOfBounds);
      }
      HornerStep(pattern[..i], pattern[i], prime);
      HornerStep(text[..i], text[i], prime);
      assert pattern[..i + 1] == pattern[..i] + [pattern[i]];
      assert text[..i + 1] == text[..i] + [text[i]];
      p := (Radix * p + pattern[i] as int) % prime;
      t := (Radix * t + text[i] as int) % prime;
      i := i + 1;
    }
    assert pattern[..i] == pattern;
    return Ok((p, t));
  }

  /** Reports the start of every window whose hash equals the pattern's and
      whose text equals the pattern. For a non-empty pattern that is every
      occurrence; for an empty one the rolling update does not keep the hash
      of the (empty) window, so only soundness is promised. */
  method Search(text: string, pattern: string, prime: int) returns (r: Result<seq<int>, Failure>)
    requires prime > 0
    ensures r.Err? <==> |pattern| > |text|
    ensures r.Ok? ==> StrictlyIncreasing(r.value)
    ensures r.Ok? ==> forall k :: 0 <= k < |r.value| ==> MatchAt(text, pattern, r.value[k])
    ensures r.Ok? && |pattern| > 0 ==> forall i :: MatchAt(text, pattern, i) ==> i in r.value
  {
    var n := |text|;
    var m := |pattern|;
    var h := HashFactor(m, prime);
    var first := FirstHashes(text, pattern, prime);
    if first.Err? {
      return Err(first.error);
    }
    var (p, t) := first.value;
    var result: seq<int> := [];
    assert text[0..m] == text[..m];

    var i := 0;
    while i <= n - m
      invariant 0 <= i <= n - m + 1
      invariant 0 <= t < prime
      invariant m >= 1 && i <= n - m ==> t == WindowHash(text[i..i + m], prime)
      invariant StrictlyIncreasing(result)
      invariant forall k :: 0 <= k < |result| ==> result[k] < i && MatchAt(text, pattern, result[k])
      invariant m >= 1 ==> forall k :: 0 <= k < i && MatchAt(text, pattern, k) ==> k in result
    {
      if p == t {
        if text[i..i + m] == pattern {
          result := result + [i];
        }
      }
      if i < n - m {
        if m >= 1 {
          NextWindow(text, i, m, t, h, prime);
        }
        t := Rehash(t, text[i] as int, h, text[i + m] as int, prime);
      }
      i := i + 1;
    }
    return Ok(result);
  }

  /** One more factor of 256 in h = 256^i mod q. */
  lemma FactorStep(h: int, i: nat, q: int)
    requires q > 0 && h % q == Pow(Radix, i) % q
    ensures ((h * Radix) % q) % q == Pow(Radix, i + 1) % q
  {
    MulModLeft(Pow(Radix, i), Radix, q);
    MulModLeft(h, Radix, q);
    MulComm(Radix, Pow(Radix, i));
    ModOfMod(h * Radix, q);
  }

  /** Appending a character to a window: (b * (H mod q) + c) mod q. */
  lemma HornerStep(s: string, c: char, prime: int)
    requires prime > 0
    ensures (Radix * (Horner(s, Radix, 0) % prime) + c as int) % prime == Horner(s + [c], Radix, 0) % prime
  {
    var x := Horner(s, Radix, 0);
    HornerSnoc(s, c, Radix, 0);
    MulComm(Radix, x % prime);
    MulComm(Radix, x);
    MulModLeft(x, Radix, prime);
    AddModLeft(Radix * (x % prime), Radix * x, c as int, prime);
  }

  lemma RollAlgebra(H: int, P: int, c0: int, c1: int, k1: int, k2: int, q: int)
    ensures Radix * ((H + k1 * q) - c0 * (P + k2 * q)) + c1
         == (H - c0 * P) * Radix + c1 + (Radix * (k1 - c0 * k2)) * q
  {
  }

  /** Lines 36-37: drop the leading digit c0 (weight h), shift, append c1,
      take Java's remainder and lift a negative one into [0, q). */
  function Roll(t: int, c0: int, h: int, c1: int, q: int): int
    requires q > 0
  {
    var x := JavaRem(Radix * (t - c0 * h) + c1, q);
    if x < 0 then x + q else x
  }

  /** Lines 36-37 as the program computes them, with Java's remainder. */
  method Rehash(t: int, c0: int, h: int, c1: int, q: int) returns (t': int)
    requires q > 0
    ensures t' == Roll(t, c0, h, c1, q)
  {
    t' := JavaRem(Radix * (t - c0 * h) + c1, q);
    if t' < 0 {
      t' := t' + q;
    }
  }

  /** The rolled hash of window i is the hash of window i + 1. */
  lemma NextWindow(text: string, i: int, m: int, t: int, h: int, q: int)
    requires m >= 1 && 0 <= i && i + m < |text| && q > 0
    requires t == WindowHash(text[i..i + m], q) && h % q == Pow(Radix, m - 1) % q
    ensures Roll(t, text[i] as int, h, text[i + m] as int, q) == WindowHash(text[i + 1..i + 1 + m], q)
  {
    SlideWindow(text, i, m);
    RollArith(t, Horner(text[i..i + m], Radix, 0), h, Pow(Radix, m - 1), text[i] as int, text[i + m] as int, q);
  }

  /** Sliding the window one step: drop text[i], append text[i+m]. */
  lemma SlideWindow(text: string, i: int, m: int)
    requires m >= 1 && 0 <= i && i + m < |text|
    ensures Horner(text[i + 1..i + 1 + m], Radix, 0)
         == (Horner(text[i..i + m], Radix, 0) - text[i] as int * Pow(Radix, m - 1)) * Radix + text[i + m] as int
  {
    var mid := text[i + 1..i + m];
    assert text[i..i + m] == [text[i]] + mid;
    assert text[i + 1..i + 1 + m] == mid + [text[i + m]];
    HornerCons(text[i], mid, Radix, 0);
    HornerSnoc(mid, text[i + m], Radix, 0);
  }

  /** The arithmetic of one slide, on congruences modulo q. */
  lemma RollArith(t: int, H: int, h: int, P: int, c0: int, c1: int, q: int)
    requires q > 0 && t == H % q && h % q == P % q
    ensures Roll(t, c0, h, c1, q) == ((H - c0 * P) * Radix + c1) % q
  {
    FixedRemIsMod(Radix * (t - c0 * h) + c1, q);
    RollCongruence(t, H, h, P, c0, c1, q);
  }

  lemma RollCongruence(t: int, H: int, h: int, P: int, c0: int, c1: int, q: int)
    requires q > 0 && t == H % q && h % q == P % q
    ensures (Radix * (t - c0 * h) + c1) % q == ((H - c0 * P) * Radix + c1) % q
  {
    ModOfMod(H, q);
    ModEqMultiple(t, H, q);
    ModEqMultiple(h, P, q);
    var k1, k2 := t / q - H / q, h / q - P / q;
    RollAlgebra(H, P, c0, c1, k1, k2, q);
    AddMultipleMod((H - c0 * P) * Radix + c1, Radix * (k1 - c0 * k2), q);
  }
}
