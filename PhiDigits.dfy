// Numbers written in base phi: a sign, a list of digits (most significant
// first) and the place value of the last digit. The module holds the digit
// predicates of the canonical form, zero trimming, and the in-place rewrite
// of adjacent 1s (projects/18-fastMultiplication/programmingChallenge/
// solutions/pcsol_java.java).
module PhiDigits {
  import opened GoldenRatio

  /** sign * (digits read in base phi), the last digit at place offset. */
  datatype PhiNum = PhiNum(sign: int, digits: seq<int>, offset: int)

  /** The place value of the first digit. */
  function Top(p: PhiNum): int
  {
    p.offset + |p.digits| - 1
  }

  /** The exact value of p in Z[phi]. */
  function Value(p: PhiNum): ZPhi
  {
    Scale(p.sign, DigitsValue(p.digits, Top(p)))
  }

  predicate Binary(d: seq<int>)
  {
    forall i :: 0 <= i < |d| ==> d[i] == 0 || d[i] == 1
  }

  predicate NoAdjacentOnes(d: seq<int>)
  {
    forall i :: 0 <= i < |d| - 1 ==> !(d[i] == 1 && d[i + 1] == 1)
  }

  /** Digits 0 and 1 only, and no two 1s next to each other. */
  predicate CanonicalDigits(d: seq<int>)
  {
    Binary(d) && NoAdjacentOnes(d)
  }

  predicate Canonical(p: PhiNum)
  {
    (p.sign == 1 || p.sign == -1) && CanonicalDigits(p.digits)
  }

  /** No zero at either end. */
  predicate Stripped(d: seq<int>)
  {
    |d| == 0 || (d[0] != 0 && d[|d| - 1] != 0)
  }

  /** The digit sum of two canonical strings: digits 0..2, neighbours adding to at most 2. */
  ghost predicate SumDigits(d: seq<int>)
  {
    (forall i :: 0 <= i < |d| ==> 0 <= d[i] <= 2) &&
    (forall i, j :: 0 <= i < j < |d| && j == i + 1 ==> d[i] + d[j] <= 2)
  }

  /** How many zeros d starts with. */
  function LeadingZeros(d: seq<int>): (n: nat)
    ensures n <= |d|
    ensures forall i :: 0 <= i < n ==> d[i] == 0
    ensures n < |d| ==> d[n] != 0
  {
    if |d| == 0 || d[0] != 0 then 0 else 1 + LeadingZeros(d[1..])
  }

  /** How many zeros d ends with. */
  function TrailingZeros(d: seq<int>): (n: nat)
    ensures n <= |d|
    ensures forall i :: |d| - n <= i < |d| ==> d[i] == 0
    ensures n < |d| ==> d[|d| - 1 - n] != 0
  {
    if |d| == 0 || d[|d| - 1] != 0 then 0 else 1 + TrailingZeros(d[..|d| - 1])
  }

  /** The digits of d from its first to its last nonzero digit. */
  function Core(d: seq<int>): (c: seq<int>)
    ensures Stripped(c)
    ensures c == [] <==> forall i :: 0 <= i < |d| ==> d[i] == 0
  {
    if LeadingZeros(d) == |d| then []
    else d[LeadingZeros(d)..|d| - TrailingZeros(d)]
  }

  /** The scan results of trimZeros delimit the core. */
  lemma CoreBounds(d: seq<int>, first: int, last: int)
    requires 0 <= first <= |d| && -1 <= last < |d|
    requires forall i :: 0 <= i < first ==> d[i] == 0
    requires first < |d| ==> d[first] != 0
    requires forall i :: last < i < |d| ==> d[i] == 0
    requires last >= 0 ==> d[last] != 0
    ensures first > last ==> first == |d| && Core(d) == []
    ensures first <= last ==> Core(d) == d[first..last + 1]
  {
    assert first == LeadingZeros(d);
    assert last == |d| - 1 - TrailingZeros(d);
  }

  /** Cutting out the core and padding it with zeros keeps each digit form. */
  lemma CorePadded(d: seq<int>, left: nat, right: nat)
    ensures SumDigits(d) ==> SumDigits(Zeros(left) + Core(d) + Zeros(right))
    ensures CanonicalDigits(d) ==> CanonicalDigits(Zeros(left) + Core(d) + Zeros(right))
    ensures Binary(d) ==> Binary(Zeros(left) + Core(d) + Zeros(right))
  {
    var c := Core(d);
    if c != [] {
      var i, j := LeadingZeros(d), |d| - TrailingZeros(d);
      assert c == d[i..j];
      SliceKeeps(d, i, j);
    }
    PadKeeps(c, left, right);
  }

  lemma SliceKeeps(d: seq<int>, i: int, j: int)
    requires 0 <= i <= j <= |d|
    ensures SumDigits(d) ==> SumDigits(d[i..j])
    ensures CanonicalDigits(d) ==> CanonicalDigits(d[i..j])
    ensures Binary(d) ==> Binary(d[i..j])
  {
    if SumDigits(d) {
      var c := d[i..j];
      assert forall k :: 0 <= k < |c| - 1 ==> c[k] + c[k + 1] == d[i + k] + d[i + k + 1];
    }
  }

  lemma PadKeeps(c: seq<int>, left: nat, right: nat)
    ensures SumDigits(c) ==> SumDigits(Zeros(left) + c + Zeros(right))
    ensures CanonicalDigits(c) ==> CanonicalDigits(Zeros(left) + c + Zeros(right))
    ensures Binary(c) ==> Binary(Zeros(left) + c + Zeros(right))
  {
    var e := Zeros(left) + c + Zeros(right);
    assert forall k :: 0 <= k < |e| ==> e[k] == (if left <= k < left + |c| then c[k - left] else 0);
  }

  lemma TrimmedWeights(d: seq<int>, first: int, last: int, left: nat, right: nat, t: int)
    requires 0 <= first <= last < |d|
    requires forall i :: 0 <= i < first ==> d[i] == 0
    requires forall i :: last < i < |d| ==> d[i] == 0
    ensures Weighted(Zeros(left) + d[first..last + 1] + Zeros(right), t - first + left) == Weighted(d, t)
  {
    assert d == Zeros(first) + d[first..last + 1] + Zeros(|d| - 1 - last);
    Padded(d[first..last + 1], first, |d| - 1 - last, t - first);
    Padded(d[first..last + 1], left, right, t - first);
  }

  /** Cutting the zeros outside first..last and padding keeps the value. */
  lemma TrimmedValue(sign: int, d: seq<int>, offset: int, first: int, last: int, left: nat, right: nat)
    requires 0 <= first <= last < |d|
    requires forall i :: 0 <= i < first ==> d[i] == 0
    requires forall i :: last < i < |d| ==> d[i] == 0
    ensures Value(PhiNum(sign, Zeros(left) + d[first..last + 1] + Zeros(right), offset + (|d| - 1 - last) - right))
         == Value(PhiNum(sign, d, offset))
  {
    var q := PhiNum(sign, Zeros(left) + d[first..last + 1] + Zeros(right), offset + (|d| - 1 - last) - right);
    assert Top(q) == offset + |d| - 1 - first + left;
    TrimmedWeights(d, first, last, left, right, offset + |d| - 2);
    TrimmedWeights(d, first, last, left, right, offset + |d| - 1);
    SameWeightsValue(q, PhiNum(sign, d, offset));
  }

  /** Equal weighted sums at the two top places mean equal values. */
  lemma SameWeightsValue(p: PhiNum, q: PhiNum)
    requires p.sign == q.sign
    requires Weighted(p.digits, Top(p) - 1) == Weighted(q.digits, Top(q) - 1)
    requires Weighted(p.digits, Top(p)) == Weighted(q.digits, Top(q))
    ensures Value(p) == Value(q)
  {
  }

  /** A number whose digits are all zero is worth zero. */
  lemma ZeroValue(p: PhiNum)
    requires forall i :: 0 <= i < |p.digits| ==> p.digits[i] == 0
    ensures Value(p) == Zero
  {
    WeightedAllZero(p.digits, Top(p) - 1);
    WeightedAllZero(p.digits, Top(p));
  }

  /**
   * trimZeros: drop the zeros at both ends, then put back left zeros in front
   * and right zeros behind; the value does not change, and a zero number
   * comes back with sign 1.
   */
  method TrimZeros(sign: int, d: seq<int>, offset: int, left: nat, right: nat) returns (r: PhiNum)
    ensures Value(r) == Value(PhiNum(sign, d, offset))
    ensures r.digits == Zeros(left) + Core(d) + Zeros(right)
    ensures r.sign == if Core(d) == [] then 1 else sign
  {
    var first := 0;
    while first < |d| && d[first] == 0
      invariant 0 <= first <= |d|
      invariant forall i :: 0 <= i < first ==> d[i] == 0
    {
      first := first + 1;
    }
    var last := |d| - 1;
    var off := offset;
    while last >= 0 && d[last] == 0
      invariant -1 <= last < |d|
      invariant off == offset + (|d| - 1 - last)
      invariant forall i :: last < i < |d| ==> d[i] == 0
    {
      last := last - 1;
      off := off + 1;
    }
    CoreBounds(d, first, last);
    if first > last {
      ZeroValue(PhiNum(sign, d, offset));
      ZeroValue(PhiNum(1, Zeros(left + right), off - |d|));
      assert Zeros(left) + [] + Zeros(right) == Zeros(left + right);
      return PhiNum(1, Zeros(left + right), off - |d|);
    }
    var trimmed := d[first..last + 1];
    var padded := [];
    var i := 0;
    while i < left
      invariant 0 <= i <= left && padded == Zeros(i)
    {
      padded := padded + [0];
      i := i + 1;
    }
    i := 0;
    while i < |trimmed|
      invariant 0 <= i <= |trimmed| && padded == Zeros(left) + trimmed[..i]
    {
      padded := padded + [trimmed[i]];
      i := i + 1;
    }
    i := 0;
    while i < right
      invariant 0 <= i <= right && padded == Zeros(left) + trimmed + Zeros(i)
    {
      padded := padded + [0];
      i := i + 1;
    }
    off := off - right;
    r := PhiNum(sign, padded, off);
    TrimmedValue(sign, d, offset, first, last, left, right);
  }

  /**
   * The state of canonicalize_inplace's sweep: digits stay 0 and 1, the
   * digits after ptr up to maxPtr are zeros, no two adjacent 1s before ptr,
   * and once the first digit is 1 the zeros at z and z+1 stop every carry
   * chain short of the start.
   */
  ghost predicate CarryState(s: seq<int>, ptr: int, maxPtr: int, z: int)
  {
    0 <= ptr <= maxPtr && (ptr < maxPtr ==> maxPtr < |s|) && Binary(s) &&
    (forall k :: ptr < k <= maxPtr && k < |s| ==> s[k] == 0) &&
    (forall k :: 0 <= k && k + 1 < ptr && k + 1 < |s| ==> !(s[k] == 1 && s[k + 1] == 1)) &&
    (|s| > 0 && s[0] == 1 ==>
      1 <= z && z + 1 < |s| && s[z] == 0 && s[z + 1] == 0 &&
      (z + 1 < ptr || ((ptr == 0 || s[ptr - 1] == 0) && z + 1 <= maxPtr)))
  }

  /** Where the stopping pair of zeros is after a rewrite at ptr. */
  ghost function NextStop(s: seq<int>, ptr: int, z: int): int
    requires 0 <= ptr - 2 < |s|
  {
    if ptr == 2 then 1 else if s[0] == 1 && ptr - 2 == z + 1 then ptr - 1 else z
  }

  /** A rewrite of 011 into 100 at ptr-2..ptr keeps the sweep's state. */
  lemma CarryStep(s: seq<int>, ptr: int, maxPtr: int, z: int)
    requires CarryState(s, ptr, maxPtr, z)
    requires 1 <= ptr < |s| && s[ptr] + s[ptr - 1] == 2
    ensures ptr >= 2
    ensures CarryState(s[ptr - 2 := s[ptr - 2] + 1][ptr - 1 := s[ptr - 1] - 1][ptr := s[ptr] - 1],
                       ptr - 2, maxPtr, NextStop(s, ptr, z))
  {
  }

  /** Moving on past ptr keeps the sweep's state. */
  lemma SkipStep(s: seq<int>, ptr: int, maxPtr: int, z: int)
    requires CarryState(s, ptr, maxPtr, z)
    requires ptr < |s| && !(ptr >= 1 && s[ptr] + s[ptr - 1] == 2)
    ensures CarryState(s, maxPtr + 1, maxPtr + 1, z)
  {
  }

  /**
   * canonicalize_inplace: sweep left to right and rewrite every 011 as 100,
   * stepping back two places after each rewrite to catch the carries it
   * causes. Needs digits 0 and 1 and a leading 0; it never indexes before
   * the start, and it leaves a canonical string of the same value.
   */
  method CanonicalizeInPlace(d: array<int>)
    requires Binary(d[..])
    requires d.Length > 0 ==> d[0] == 0
    modifies d
    ensures CanonicalDigits(d[..])
    ensures Equivalent(d[..], old(d[..]))
  {
    ghost var d0 := d[..];
    ghost var z := 0;
    var ptr := 1;
    var maxPtr := 1;
    while ptr < d.Length
      invariant CarryState(d[..], ptr, maxPtr, z)
      invariant Equivalent(d[..], d0)
      decreases d.Length - maxPtr, ptr
    {
      ghost var before := d[..];
      if ptr >= 1 && d[ptr] + d[ptr - 1] == 2 {
        CarryStep(before, ptr, maxPtr, z);
        ghost var after := before[ptr - 2 := before[ptr - 2] + 1][ptr - 1 := before[ptr - 1] - 1][ptr := before[ptr] - 1];
        Move(before, ptr - 2, 1);
        z := NextStop(before, ptr, z);
        d[ptr] := d[ptr] - 1;
        d[ptr - 1] := d[ptr - 1] - 1;
        d[ptr - 2] := d[ptr - 2] + 1;
        assert d[..] == after;
        ptr := ptr - 2;
      } else {
        SkipStep(before, ptr, maxPtr, z);
        maxPtr := maxPtr + 1;
        ptr := maxPtr;
      }
    }
  }
}
