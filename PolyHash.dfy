// Polynomial string hashes shared by the two Rabin-Karp programs: a string
// read as a number in a given base, most significant character first.
module PolyHash {
  import opened Arith

  /** The digit of a character: its code plus a fixed shift. */
  function Digit(c: char, shift: int): int
  {
    c as int + shift
  }

  /** The string s read as a base-b numeral, first character most significant. */
  function Horner(s: seq<char>, b: int, shift: int): int
  {
    if s == [] then 0 else Horner(s[..|s| - 1], b, shift) * b + Digit(s[|s| - 1], shift)
  }

  /** The leading character weighs b^(|s|-1). */
  lemma {:induction false} HornerCons(c: char, s: seq<char>, b: int, shift: int)
    ensures Horner([c] + s, b, shift) == Digit(c, shift) * Pow(b, |s|) + Horner(s, b, shift)
    decreases |s|
  {
    if s != [] {
      var init := s[..|s| - 1];
      assert ([c] + s)[..|s|] == [c] + init;
      HornerCons(c, init, b, shift);
      calc {
        Horner([c] + s, b, shift);
        Horner([c] + init, b, shift) * b + Digit(s[|s| - 1], shift);
        (Digit(c, shift) * Pow(b, |init|) + Horner(init, b, shift)) * b + Digit(s[|s| - 1], shift);
        { Distrib(Digit(c, shift) * Pow(b, |init|), Horner(init, b, shift), b);
          MulAssoc(Digit(c, shift), Pow(b, |init|), b);
          MulComm(Pow(b, |init|), b); }
        Digit(c, shift) * Pow(b, |s|) + Horner(s, b, shift);
      }
    } else {
      assert [c] + s == [c];
    }
  }

  lemma HornerSnoc(s: seq<char>, c: char, b: int, shift: int)
    ensures Horner(s + [c], b, shift) == Horner(s, b, shift) * b + Digit(c, shift)
  {
    assert (s + [c])[..|s|] == s;
  }

  /** Non-negative digits and base give a non-negative hash. */
  lemma {:induction false} HornerNonNegative(s: seq<char>, b: int, shift: int)
    requires b >= 0 && shift >= 0
    ensures Horner(s, b, shift) >= 0
  {
    if s != [] {
      HornerNonNegative(s[..|s| - 1], b, shift);
      MulNonNegative(Horner(s[..|s| - 1], b, shift), b);
    }
  }

  function Reverse<T>(s: seq<T>): (r: seq<T>)
    ensures |r| == |s|
  {
    if s == [] then [] else Reverse(s[1..]) + [s[0]]
  }

  /** The k-th character of the reverse is the k-th from the end. */
  lemma {:induction false} ReverseAt<T>(s: seq<T>, k: int)
    requires 0 <= k < |s|
    ensures Reverse(s)[k] == s[|s| - 1 - k]
  {
    if k < |s| - 1 {
      ReverseAt(s[1..], k);
    }
  }

  lemma {:induction false} ReverseSnoc<T>(t: seq<T>, x: T)
    ensures Reverse(t + [x]) == [x] + Reverse(t)
  {
    if t != [] {
      assert (t + [x])[1..] == t[1..] + [x];
      ReverseSnoc(t[1..], x);
    }
  }

  /** A character appended to t is the leading digit of the reverse. */
  lemma HornerReverseSnoc(t: seq<char>, x: char, b: int, shift: int)
    ensures Horner(Reverse(t + [x]), b, shift) == Digit(x, shift) * Pow(b, |t|) + Horner(Reverse(t), b, shift)
  {
    ReverseSnoc(t, x);
    HornerCons(x, Reverse(t), b, shift);
  }

  /** s reads the same backwards. */
  predicate IsPalindrome<T(==)>(s: seq<T>)
  {
    s == Reverse(s)
  }

  /** Each character of a palindrome equals its mirror. */
  lemma MirrorOfPalindrome<T>(s: seq<T>, q: int)
    requires IsPalindrome(s) && 0 <= q < |s|
    ensures s[q] == s[|s| - 1 - q]
  {
    ReverseAt(s, q);
  }

  /** A sequence whose every character equals its mirror is a palindrome. */
  lemma PalindromeByMirror<T>(s: seq<T>)
    requires forall q :: 0 <= q < |s| ==> s[q] == s[|s| - 1 - q]
    ensures IsPalindrome(s)
  {
    forall q | 0 <= q < |s|
      ensures Reverse(s)[q] == s[q]
    {
      ReverseAt(s, q);
    }
  }
}
