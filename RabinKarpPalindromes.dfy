// Palindromic-substring counting of
// projects/03-rabinKarp/programmingChallenge/solutions/pcSol_java.java: for each
// start i, the hashes of s[i..j] and of its reverse are grown one character
// at a time, and equal hashes are confirmed by comparing the strings.
module RabinKarpPalindromes {
  import opened Arith
  import opened PolyHash

  const Base := 26
  const Modulus := 1000000007

  /** Number of j in [i, jEnd) with s[i..j] (inclusive) a palindrome. */
  ghost function PalindromesFrom(s: string, i: int, jEnd: int): nat
    requires 0 <= i <= jEnd <= |s|
    decreases jEnd - i
  {
    if jEnd == i then 0
    else PalindromesFrom(s, i, jEnd - 1) + (if IsPalindrome(s[i..jEnd]) then 1 else 0)
  }

  /** Number of palindromic substrings s[i..j] with i < iEnd. */
  ghost function PalindromesBefore(s: string, iEnd: int): nat
    requires 0 <= iEnd <= |s|
  {
    if iEnd == 0 then 0 else PalindromesBefore(s, iEnd - 1) + PalindromesFrom(s, iEnd - 1, |s|)
  }

  /** The number of (i, j) with i <= j whose substring s[i..j] reads the same
      backwards. */
  ghost function PalindromicSubstrings(s: string): nat
  {
    PalindromesBefore(s, |s|)
  }

  /** Square-and-multiply, squaring the base before halving the exponent. */
  method ModPow(base0: int, exp0: int, mod: int) returns (result: int)
    requires base0 >= 0 && mod > 0
    ensures exp0 <= 0 ==> result == 1
    ensures exp0 > 0 ==> result == Pow(base0, exp0) % mod
  {
    result := 1;
    var base := base0 % mod;
    var exp := exp0;
    PowMod(base0, if exp0 > 0 then exp0 else 0, mod);
    while exp > 0
      invariant 0 <= base < mod && 0 <= result
      invariant exp > 0 || result < mod || exp0 <= 0
      invariant exp0 > 0 ==> exp >= 0 && (result * Pow(base, exp)) % mod == Pow(base0, exp0) % mod
      invariant exp0 <= 0 ==> exp == exp0 && result == 1
    {
      SquareMultiplyStep(result, base, exp, mod);
      if exp % 2 == 1 {
        result := (result * base) % mod;
      }
      MulNonNegative(base, base);
      base := (base * base) % mod;
      exp := exp / 2;
    }
    if exp0 > 0 {
      ModUnique(result, 0, result, mod);
    }
  }

  /** Counts palindromic substrings; the hash test only filters, the string
      comparison decides. */
  method CountPalindromicSubstrings(s: string) returns (ans: int)
    ensures ans == PalindromicSubstrings(s)
  {
    var r := Reverse(s);
    ans := 0;
    var i := 0;
    while i < |s|
      invariant 0 <= i <= |s|
      invariant ans == PalindromesBefore(s, i)
    {
      ans := CountFrom(s, r, i, ans);
      i := i + 1;
    }
  }

  /** The inner loop for start i: grows the two hashes of s[i..j] and of its
      reverse, and adds one to ans for each palindrome confirmed. */
  method CountFrom(s: string, r: string, i: int, ans0: int) returns (ans: int)
    requires r == Reverse(s) && 0 <= i < |s|
    ensures ans == ans0 + PalindromesFrom(s, i, |s|)
  {
    var n := |s|;
    var originalHash := 0;
    var reversedHash := 0;
    ans := ans0;
    var j := i;
    assert s[i..j] == [] && Reverse(s[i..j]) == [];
    while j < n
      invariant i <= j <= n
      invariant originalHash == Horner(s[i..j], Base, 1) % Modulus
      invariant reversedHash == Horner(Reverse(s[i..j]), Base, 1) % Modulus
      invariant ans == ans0 + PalindromesFrom(s, i, j)
    {
      originalHash, reversedHash := GrowHashes(s, r, i, j, originalHash, reversedHash);
      var sub := s[i..j + 1];
      PalindromeHashesAgree(sub, originalHash, reversedHash);
      FromStep(s, i, j);
      if originalHash == reversedHash {
        if sub == Reverse(sub) {
          ans := ans + 1;
        }
      }
      j := j + 1;
    }
  }

  /** One step of the inner loop: s[j] enters the forward hash as the last
      digit and, read from the reversed string, the hash of the reverse as
      the leading one, of weight 26^(j-i). */
  method GrowHashes(s: string, r: string, i: int, j: int, originalHash: int, reversedHash: int)
    returns (originalHash': int, reversedHash': int)
    requires r == Reverse(s) && 0 <= i <= j < |s|
    requires originalHash == Horner(s[i..j], Base, 1) % Modulus
    requires reversedHash == Horner(Reverse(s[i..j]), Base, 1) % Modulus
    ensures originalHash' == Horner(s[i..j + 1], Base, 1) % Modulus
    ensures reversedHash' == Horner(Reverse(s[i..j + 1]), Base, 1) % Modulus
  {
    var currentCharValue := s[j] as int + 1;
    GrowForward(s, i, j, originalHash, currentCharValue);
    originalHash' := (originalHash * Base + currentCharValue) % Modulus;
    var reverseCharIndex := |r| - j - 1;
    var reverseCharValue := r[reverseCharIndex] as int + 1;
    ReverseAt(s, reverseCharIndex);
    var power := ModPow(Base, j - i, Modulus);
    if j == i {
      assert Pow(Base, j - i) == 1;
    }
    GrowBackward(s, i, j, reversedHash, reverseCharValue, power);
    reversedHash' := (reversedHash + reverseCharValue * power) % Modulus;
  }

  lemma FromStep(s: string, i: int, j: int)
    requires 0 <= i <= j < |s|
    ensures PalindromesFrom(s, i, j + 1) == PalindromesFrom(s, i, j) + (if IsPalindrome(s[i..j + 1]) then 1 else 0)
  {
  }

  /** Appending s[j] to the forward hash. */
  lemma GrowForward(s: string, i: int, j: int, oh: int, c: int)
    requires 0 <= i <= j < |s| && c == s[j] as int + 1
    requires oh == Horner(s[i..j], Base, 1) % Modulus
    ensures (oh * Base + c) % Modulus == Horner(s[i..j + 1], Base, 1) % Modulus
  {
    var x := Horner(s[i..j], Base, 1);
    assert Horner(s[i..j + 1], Base, 1) == x * Base + (s[j] as int + 1) by {
      assert s[i..j + 1] == s[i..j] + [s[j]];
      HornerSnoc(s[i..j], s[j], Base, 1);
    }
    MulModLeft(x, Base, Modulus);
    AddModLeft((x % Modulus) * Base, x * Base, s[j] as int + 1, Modulus);
  }

  /** Prepending s[j] (weight 26^(j-i)) to the hash of the reversed substring. */
  lemma GrowBackward(s: string, i: int, j: int, rh: int, c: int, power: int)
    requires 0 <= i <= j < |s| && c == s[j] as int + 1 && power == Pow(Base, j - i) % Modulus
    requires rh == Horner(Reverse(s[i..j]), Base, 1) % Modulus
    ensures (rh + c * power) % Modulus == Horner(Reverse(s[i..j + 1]), Base, 1) % Modulus
  {
    ReversedStep(s, i, j, Base);
    LeadingDigit(rh, Horner(Reverse(s[i..j]), Base, 1), s[j] as int + 1, Pow(Base, j - i), Modulus);
  }

  /** s[j] is the leading digit of the reverse of s[i..j+1]. */
  lemma ReversedStep(s: string, i: int, j: int, b: int)
    requires 0 <= i <= j < |s|
    ensures Horner(Reverse(s[i..j + 1]), b, 1) == (s[j] as int + 1) * Pow(b, j - i) + Horner(Reverse(s[i..j]), b, 1)
  {
    assert s[i..j + 1] == s[i..j] + [s[j]];
    HornerReverseSnoc(s[i..j], s[j], b, 1);
  }

  /** Adding the leading digit c of weight P to a reduced hash. */
  lemma LeadingDigit(rh: int, big: int, c: int, P: int, q: int)
    requires q > 0 && rh == big % q
    ensures (rh + c * (P % q)) % q == (c * P + big) % q
  {
    ModOfMod(big, q);
    MulModRight(c, P, q);
    AddBoth(rh, big, c * (P % q), c * P, q);
  }

  /** A palindrome's forward and backward hashes coincide, so the hash test
      never discards one. */
  lemma PalindromeHashesAgree(t: string, oh: int, rh: int)
    requires oh == Horner(t, Base, 1) % Modulus
    requires rh == Horner(Reverse(t), Base, 1) % Modulus
    ensures oh != rh ==> !IsPalindrome(t)
  {
  }

  lemma AddBoth(a: int, a': int, b: int, b': int, q: int)
    requires q > 0 && a % q == a' % q && b % q == b' % q
    ensures (a + b) % q == (a' + b') % q
  {
    AddModLeft(a, a', b, q);
    AddModLeft(b, b', a', q);
  }
}
