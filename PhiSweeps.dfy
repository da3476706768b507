// The two digit sweeps of pcsol_java.java that bring a digitwise sum or
// difference of canonical base-phi numbers back to canonical form:
// reduceSumTo01 (lines 132-168) rewrites 2s and 3s left to right, and
// reduceDiffTo01 (lines 178-224) removes -1s, leaving a string that
// reduceSumTo01 accepts.
module PhiSweeps {
  import opened GoldenRatio
  import opened PhiDigits

  // ---------------------------------------------------------------------
  // reduceSumTo01's sweep (lines 141-166).

  /** The input of the sweep: a digit sum with two zeros at either end. */
  ghost predicate SumInput(o: seq<int>)
  {
    |o| >= 4 && SumDigits(o) && o[0] == 0 && o[1] == 0 && o[|o| - 2] == 0 && o[|o| - 1] == 0
  }

  /**
   * The digits around ptr: with A = s[ptr-2], B = s[ptr-1] (0 before the
   * start) the digit at ptr is off its input value by at most one, the one
   * after it by a carry of at most one, and each deviation comes with the
   * neighbours that the rule which made it leaves behind.
   */
  ghost predicate SumWindow(o: seq<int>, s: seq<int>, ptr: int)
    requires |s| == |o| && 0 <= ptr < |s|
  {
    var d0 := s[ptr] - o[ptr];
    var a := if ptr >= 2 then s[ptr - 2] else 0;
    var b := if ptr >= 1 then s[ptr - 1] else 0;
    -1 <= d0 <= 1 &&
    (d0 == 1 ==> b == 0) &&
    (d0 == -1 ==> a == 1 && b == 1 && o[ptr] == 1) &&
    (ptr + 1 < |s| ==>
      0 <= s[ptr + 1] - o[ptr + 1] <= 1 &&
      (s[ptr + 1] - o[ptr + 1] == 1 ==> a == 1 && d0 == 0 && o[ptr] == 0)) &&
    (a == 1 && b == 1 && d0 == 0 ==> o[ptr] != 2)
  }

  /**
   * The state of the sweep before position ptr: the digits passed are 0s
   * and 1s, those two or more places ahead are untouched, the first two
   * digits stay 0 until the sweep is past them, and the window holds.
   */
  ghost predicate SumState(o: seq<int>, s: seq<int>, ptr: int)
  {
    SumInput(o) && |s| == |o| && 0 <= ptr <= |s| &&
    (forall k :: 0 <= k < ptr ==> 0 <= s[k] <= 1) &&
    (forall k {:trigger s[k]} :: ptr + 2 <= k < |s| ==> s[k] == o[k]) &&
    s[0] == 0 && (ptr <= 2 ==> s[1] == 0) &&
    (ptr < |s| ==> SumWindow(o, s, ptr))
  }

  /** A digit of 2 or more lies at least two places from either end. */
  lemma SumInside(o: seq<int>, s: seq<int>, ptr: int)
    requires SumState(o, s, ptr) && ptr < |s| && s[ptr] >= 2
    ensures 2 <= ptr && ptr + 2 < |s|
  {
  }

  lemma SumSkip(o: seq<int>, s: seq<int>, ptr: int)
    requires SumState(o, s, ptr) && ptr < |s| && s[ptr] < 2
    ensures SumState(o, s, ptr + 1)
  {
  }

  /** The ..21.. rule (lines 146-148): 011 = 100, applied one place to the left of ptr. */
  function RightCarry(s: seq<int>, ptr: int): (r: seq<int>)
    requires 1 <= ptr && ptr + 1 < |s|
    ensures |r| == |s|
  {
    s[ptr - 1 := s[ptr - 1] + 1][ptr := s[ptr] - 1][ptr + 1 := s[ptr + 1] - 1]
  }

  /** The ..12.. rule (lines 151-153): 011 = 100, applied two places to the left of ptr. */
  function LeftCarry(s: seq<int>, ptr: int): (r: seq<int>)
    requires 2 <= ptr < |s|
    ensures |r| == |s|
  {
    s[ptr - 2 := s[ptr - 2] + 1][ptr - 1 := s[ptr - 1] - 1][ptr := s[ptr] - 1]
  }

  /** The ..020.. rule (lines 157-159): 0200 = 1001. */
  function SpreadAt(s: seq<int>, ptr: int): (r: seq<int>)
    requires 1 <= ptr && ptr + 2 < |s|
    ensures |r| == |s|
  {
    s[ptr := s[ptr] - 2][ptr - 1 := s[ptr - 1] + 1][ptr + 2 := s[ptr + 2] + 1]
  }

  lemma SumRight(o: seq<int>, s: seq<int>, ptr: int)
    requires SumState(o, s, ptr) && 2 <= ptr && ptr + 2 < |s| && s[ptr] >= 2 && s[ptr + 1] >= 1
    ensures SumState(o, RightCarry(s, ptr), ptr + 1)
  {
  }

  lemma SumLeft(o: seq<int>, s: seq<int>, ptr: int)
    requires SumState(o, s, ptr) && 2 <= ptr && ptr + 2 < |s| && s[ptr] >= 2 && s[ptr + 1] < 1 && s[ptr - 1] >= 1
    ensures SumState(o, LeftCarry(s, ptr), ptr + 1)
  {
  }

  lemma SumSpread(o: seq<int>, s: seq<int>, ptr: int)
    requires SumState(o, s, ptr) && 2 <= ptr && ptr + 2 < |s| && s[ptr] >= 2 && s[ptr + 1] < 1 && s[ptr - 1] < 1
    ensures SumState(o, SpreadAt(s, ptr), ptr + 1)
  {
  }

  lemma RightEquivalent(s: seq<int>, ptr: int)
    requires 1 <= ptr && ptr + 1 < |s|
    ensures Equivalent(RightCarry(s, ptr), s)
  {
    Move(s, ptr - 1, 1);
  }

  lemma LeftEquivalent(s: seq<int>, ptr: int)
    requires 2 <= ptr < |s|
    ensures Equivalent(LeftCarry(s, ptr), s)
  {
    Move(s, ptr - 2, 1);
  }

  /** The values of 0200 and 1001 agree: two moves of the identity 100 = 011. */
  lemma SpreadEquivalent(s: seq<int>, ptr: int)
    requires 1 <= ptr && ptr + 2 < |s|
    ensures Equivalent(SpreadAt(s, ptr), s)
  {
    var m := RightCarry(s, ptr);
    Move(s, ptr - 1, 1);
    Move(m, ptr, -1);
    assert m[ptr := m[ptr] + -1][ptr + 1 := m[ptr + 1] - -1][ptr + 2 := m[ptr + 2] - -1] == SpreadAt(s, ptr);
  }

  /**
   * The sweep of reduceSumTo01 over res: afterwards every digit is 0 or 1,
   * the first is still 0, the value is unchanged, and no rule ever reads
   * or writes past either end.
   */
  method CarrySweep(res: array<int>)
    requires SumInput(res[..])
    modifies res
    ensures Binary(res[..]) && res[0] == 0
    ensures Equivalent(res[..], old(res[..]))
  {
    ghost var o := res[..];
    var ptr := 0;
    while ptr < res.Length
      invariant SumState(o, res[..], ptr)
      invariant Equivalent(res[..], o)
    {
      ghost var before := res[..];
      if res[ptr] >= 2 {
        SumInside(o, before, ptr);
        if res[ptr + 1] >= 1 {
          SumRight(o, before, ptr);
          RightEquivalent(before, ptr);
          CarryRight(res, ptr);
        } else if res[ptr - 1] >= 1 {
          SumLeft(o, before, ptr);
          LeftEquivalent(before, ptr);
          CarryLeft(res, ptr);
        } else {
          SumSpread(o, before, ptr);
          SpreadEquivalent(before, ptr);
          Spread(res, ptr);
        }
      } else {
        SumSkip(o, before, ptr);
      }
      ptr := ptr + 1;
    }
  }

  /** The writes of the ..21.. rule. */
  method CarryRight(res: array<int>, ptr: int)
    requires 1 <= ptr && ptr + 1 < res.Length
    modifies res
    ensures res[..] == RightCarry(old(res[..]), ptr)
  {
    res[ptr + 1] := res[ptr + 1] - 1;
    res[ptr] := res[ptr] - 1;
    res[ptr - 1] := res[ptr - 1] + 1;
  }

  /** The writes of the ..12.. rule. */
  method CarryLeft(res: array<int>, ptr: int)
    requires 2 <= ptr < res.Length
    modifies res
    ensures res[..] == LeftCarry(old(res[..]), ptr)
  {
    res[ptr - 1] := res[ptr - 1] - 1;
    res[ptr] := res[ptr] - 1;
    res[ptr - 2] := res[ptr - 2] + 1;
  }

  /** The writes of the ..020.. rule. */
  method Spread(res: array<int>, ptr: int)
    requires 1 <= ptr && ptr + 2 < res.Length
    modifies res
    ensures res[..] == SpreadAt(old(res[..]), ptr)
  {
    res[ptr] := res[ptr] - 2;
    res[ptr - 1] := res[ptr - 1] + 1;
    res[ptr + 2] := res[ptr + 2] + 1;
  }

  /** Copies the digits into an array, as the ArrayList the source mutates. */
  method ToArray(s: seq<int>) returns (a: array<int>)
    ensures fresh(a) && a[..] == s
  {
    a := new int[|s|](i requires 0 <= i < |s| => s[i]);
  }

  /** Reading the same digits at the same last place gives the same value. */
  lemma SameDigitsValue(p: PhiNum, sign: int, x: seq<int>)
    requires Equivalent(x, p.digits) && |x| == |p.digits|
    ensures Value(PhiNum(sign, x, p.offset)) == Scale(sign, DigitsValue(p.digits, Top(p)))
  {
    EquivalentAt(x, p.digits, Top(p));
  }

  /**
   * reduceSumTo01 (lines 132-168): the digitwise sum of two canonical
   * strings becomes a canonical string of the same value; the sign stays,
   * except that zero comes back with sign 1.
   */
  method ReduceSumTo01(sign: int, d: seq<int>, offset: int) returns (r: PhiNum)
    requires SumDigits(d)
    ensures CanonicalDigits(r.digits)
    ensures Value(r) == Value(PhiNum(sign, d, offset))
    ensures r.sign == if Core(d) == [] then 1 else sign
  {
    var trimmed := TrimZeros(sign, d, offset, 2, 2);
    CorePadded(d, 2, 2);
    var res := ToArray(trimmed.digits);
    assert res[..] == Zeros(2) + Core(d) + Zeros(2);
    assert res[0] == 0 && res[1] == 0 && res[res.Length - 2] == 0 && res[res.Length - 1] == 0;
    CarrySweep(res);
    CanonicalizeInPlace(res);
    r := PhiNum(trimmed.sign, res[..], trimmed.offset);
    SameDigitsValue(trimmed, trimmed.sign, res[..]);
  }

  /**
   * canonicalize (lines 234-240): digits 0 and 1 become a canonical string
   * of the same value, with one zero put in front for the carries.
   */
  method Canonicalize(sign: int, d: seq<int>, offset: int) returns (r: PhiNum)
    requires Binary(d)
    ensures CanonicalDigits(r.digits)
    ensures Value(r) == Value(PhiNum(sign, d, offset))
    ensures r.sign == if Core(d) == [] then 1 else sign
  {
    var trimmed := TrimZeros(sign, d, offset, 1, 0);
    CorePadded(d, 1, 0);
    var res := ToArray(trimmed.digits);
    assert res[..] == Zeros(1) + Core(d) + Zeros(0);
    assert res[0] == 0;
    CanonicalizeInPlace(res);
    r := PhiNum(trimmed.sign, res[..], trimmed.offset);
    SameDigitsValue(trimmed, trimmed.sign, res[..]);
  }

  // ---------------------------------------------------------------------
  // reduceDiffTo01's sweep (lines 187-218).

  /**
   * The digitwise difference of two canonical strings: digits -1, 0 and 1,
   * and no two equal nonzero digits side by side.
   */
  ghost predicate DiffDigits(t: seq<int>)
  {
    (forall k :: 0 <= k < |t| ==> -1 <= t[k] <= 1) &&
    (forall k :: 0 <= k < |t| - 1 ==> t[k] == 0 || t[k] != t[k + 1])
  }

  /** The input of the sweep: a difference led by a 1 and ending in three zeros. */
  ghost predicate DiffInput(o: seq<int>)
  {
    |o| >= 4 && DiffDigits(o) && o[0] == 1 && o[|o| - 3] == 0 && o[|o| - 2] == 0 && o[|o| - 1] == 0
  }

  /** The first n digits form a digit sum. */
  ghost predicate SumPrefix(s: seq<int>, n: int)
  {
    0 <= n <= |s| &&
    (forall k :: 0 <= k < n ==> 0 <= s[k] <= 2) &&
    (forall k :: 0 <= k && k + 1 < n ==> s[k] + s[k + 1] <= 2)
  }

  /**
   * Moving forward (ptr == max_ptr): the digits from ptr on are untouched
   * except for a carry of one into ptr, a 2 just before ptr is followed by
   * no 1, and the positive digit w lies before ptr unless the carry made
   * the digit at ptr positive.
   */
  ghost predicate Forward(o: seq<int>, s: seq<int>, ptr: int, w: int)
    requires |s| == |o| && 1 <= ptr <= |s|
  {
    (forall k {:trigger s[k]} :: ptr < k < |s| ==> s[k] == o[k]) &&
    (ptr < |s| ==>
      (s[ptr] == o[ptr] || (s[ptr] == o[ptr] + 1 && o[ptr] >= 0 && s[ptr - 1] == 0)) &&
      (s[ptr - 1] == 2 ==> o[ptr] <= 0 && s[ptr] == o[ptr]) &&
      (s[ptr] > o[ptr] || (0 <= w < ptr && s[w] >= 1))) &&
    (ptr == |s| ==> 0 <= w < ptr && s[w] >= 1)
  }

  /**
   * Borrowing backward (ptr < max_ptr): between ptr and max_ptr the digits
   * read 1 0 1 ... 1, the digit at max_ptr is 0 and those after it are
   * untouched, the digit at ptr has lost one, and while it is -1 the
   * positive digit w lies before it.
   */
  ghost predicate Backward(o: seq<int>, s: seq<int>, ptr: int, maxPtr: int, w: int)
    requires |s| == |o| && 0 <= ptr < maxPtr <= |s|
  {
    maxPtr < |s| && (maxPtr - ptr) % 2 == 0 &&
    (forall k {:trigger s[k]} :: maxPtr < k < |s| ==> s[k] == o[k]) && s[maxPtr] == 0 &&
    (forall k :: ptr < k < maxPtr ==> s[k] == (k - ptr) % 2) &&
    -1 <= s[ptr] <= 1 && (ptr >= 1 ==> s[ptr - 1] + s[ptr] <= 1) &&
    (s[ptr] >= 0 || (0 <= w < ptr && s[w] >= 1))
  }

  /** The state of the sweep at the head of its loop. */
  ghost predicate BorrowState(o: seq<int>, s: seq<int>, ptr: int, maxPtr: int, w: int)
  {
    DiffInput(o) && |s| == |o| && 1 <= maxPtr <= |s| && 0 <= ptr <= maxPtr && SumPrefix(s, ptr) &&
    (ptr == maxPtr ==> Forward(o, s, ptr, w)) &&
    (ptr < maxPtr ==> Backward(o, s, ptr, maxPtr, w))
  }

  /** The 0(-1) rule (lines 198-200): 100 = 011, borrowing from ptr-2. */
  function BorrowLeft(s: seq<int>, ptr: int): (r: seq<int>)
    requires 2 <= ptr < |s|
    ensures |r| == |s|
  {
    s[ptr - 2 := s[ptr - 2] - 1][ptr - 1 := s[ptr - 1] + 1][ptr := s[ptr] + 1]
  }

  /** The 1(-1) and 2(-1) rule (lines 208-210): 100 = 011, borrowing from ptr-1. */
  function BorrowRight(s: seq<int>, ptr: int): (r: seq<int>)
    requires 1 <= ptr && ptr + 1 < |s|
    ensures |r| == |s|
  {
    s[ptr - 1 := s[ptr - 1] - 1][ptr := s[ptr] + 1][ptr + 1 := s[ptr + 1] + 1]
  }

  /** A -1 never sits at either end, so both rules stay inside the digits. */
  lemma BorrowInside(o: seq<int>, s: seq<int>, ptr: int, maxPtr: int, w: int)
    requires BorrowState(o, s, ptr, maxPtr, w) && ptr < |s| && s[ptr] < 0
    ensures 1 <= ptr && ptr + 1 < |s|
  {
  }

  lemma ForwardLeft(o: seq<int>, s: seq<int>, ptr: int, w: int)
    requires BorrowState(o, s, ptr, ptr, w) && ptr < |s| && s[ptr] < 0 && s[ptr - 1] == 0
    ensures 2 <= ptr && BorrowState(o, BorrowLeft(s, ptr), ptr - 2, ptr, w)
  {
  }

  lemma BackwardLeft(o: seq<int>, s: seq<int>, ptr: int, maxPtr: int, w: int)
    requires BorrowState(o, s, ptr, maxPtr, w) && ptr < maxPtr && 1 <= ptr && s[ptr] < 0 && s[ptr - 1] == 0
    ensures 2 <= ptr && BorrowState(o, BorrowLeft(s, ptr), ptr - 2, maxPtr, w)
  {
    var s' := BorrowLeft(s, ptr);
    assert forall k :: ptr - 2 < k < maxPtr ==> s'[k] == (k - (ptr - 2)) % 2 by {
      forall k | ptr - 2 < k < maxPtr
        ensures s'[k] == (k - (ptr - 2)) % 2
      {
        if k > ptr {
          assert s'[k] == s[k] == (k - ptr) % 2;
        }
      }
    }
  }

  /** The 0(-1) rule sends the sweep two places back. */
  lemma BorrowLeftStep(o: seq<int>, s: seq<int>, ptr: int, maxPtr: int, w: int)
    requires BorrowState(o, s, ptr, maxPtr, w) && ptr < |s| && 1 <= ptr && s[ptr] < 0 && s[ptr - 1] == 0
    ensures 2 <= ptr && BorrowState(o, BorrowLeft(s, ptr), ptr - 2, maxPtr, w)
  {
    if ptr == maxPtr {
      ForwardLeft(o, s, ptr, w);
    } else {
      BackwardLeft(o, s, ptr, maxPtr, w);
    }
  }

  lemma ForwardRight(o: seq<int>, s: seq<int>, ptr: int, w: int)
    requires BorrowState(o, s, ptr, ptr, w) && 1 <= ptr && ptr + 1 < |s| && s[ptr] < 0 && s[ptr - 1] != 0
    ensures BorrowState(o, BorrowRight(s, ptr), ptr + 1, ptr + 1, ptr + 1)
  {
  }

  lemma BackwardRight(o: seq<int>, s: seq<int>, ptr: int, maxPtr: int, w: int)
    requires BorrowState(o, s, ptr, maxPtr, w) && ptr < maxPtr && 1 <= ptr && s[ptr] < 0 && s[ptr - 1] != 0
    ensures BorrowState(o, BorrowRight(s, ptr), maxPtr + 1, maxPtr + 1, ptr + 1)
  {
  }

  /** The 1(-1) rule ends a borrow and moves on past max_ptr. */
  lemma BorrowRightStep(o: seq<int>, s: seq<int>, ptr: int, maxPtr: int, w: int)
    requires BorrowState(o, s, ptr, maxPtr, w) && 1 <= ptr && ptr + 1 < |s| && s[ptr] < 0 && s[ptr - 1] != 0
    ensures BorrowState(o, BorrowRight(s, ptr), maxPtr + 1, maxPtr + 1, ptr + 1)
  {
    if ptr == maxPtr {
      ForwardRight(o, s, ptr, w);
    } else {
      BackwardRight(o, s, ptr, maxPtr, w);
    }
  }

  /** Where the positive digit is after the sweep moves on without a rewrite. */
  ghost function SkipWitness(s: seq<int>, ptr: int, maxPtr: int, w: int): int
    requires 0 <= ptr < |s|
  {
    if ptr < maxPtr then ptr + 1 else if s[ptr] >= 1 then ptr else w
  }

  lemma ForwardSkip(o: seq<int>, s: seq<int>, ptr: int, w: int)
    requires BorrowState(o, s, ptr, ptr, w) && ptr < |s| && s[ptr] >= 0
    ensures BorrowState(o, s, ptr + 1, ptr + 1, SkipWitness(s, ptr, ptr, w))
  {
  }

  lemma BackwardSkip(o: seq<int>, s: seq<int>, ptr: int, maxPtr: int, w: int)
    requires BorrowState(o, s, ptr, maxPtr, w) && ptr < maxPtr && s[ptr] >= 0
    ensures BorrowState(o, s, maxPtr + 1, maxPtr + 1, SkipWitness(s, ptr, maxPtr, w))
  {
  }

  /** A digit that is not negative lets the sweep move on past max_ptr. */
  lemma BorrowSkipStep(o: seq<int>, s: seq<int>, ptr: int, maxPtr: int, w: int)
    requires BorrowState(o, s, ptr, maxPtr, w) && ptr < |s| && s[ptr] >= 0
    ensures BorrowState(o, s, maxPtr + 1, maxPtr + 1, SkipWitness(s, ptr, maxPtr, w))
  {
    if ptr == maxPtr {
      ForwardSkip(o, s, ptr, w);
    } else {
      BackwardSkip(o, s, ptr, maxPtr, w);
    }
  }

  /** At the end the whole string is a digit sum. */
  lemma BorrowDone(o: seq<int>, s: seq<int>, ptr: int, maxPtr: int, w: int)
    requires BorrowState(o, s, ptr, maxPtr, w) && ptr >= |s|
    ensures SumDigits(s)
    ensures 0 <= w < |s| && s[w] >= 1
  {
    assert ptr == |s|;
    assert forall i, j :: 0 <= i < j < |s| && j == i + 1 ==> s[i] + s[j] <= 2;
  }

  lemma BorrowLeftEquivalent(s: seq<int>, ptr: int)
    requires 2 <= ptr < |s|
    ensures Equivalent(BorrowLeft(s, ptr), s)
  {
    Move(s, ptr - 2, -1);
    assert s[ptr - 2 := s[ptr - 2] + -1][ptr - 1 := s[ptr - 1] - -1][ptr := s[ptr] - -1] == BorrowLeft(s, ptr);
  }

  lemma BorrowRightEquivalent(s: seq<int>, ptr: int)
    requires 1 <= ptr && ptr + 1 < |s|
    ensures Equivalent(BorrowRight(s, ptr), s)
  {
    Move(s, ptr - 1, -1);
    assert s[ptr - 1 := s[ptr - 1] + -1][ptr := s[ptr] - -1][ptr + 1 := s[ptr + 1] - -1] == BorrowRight(s, ptr);
  }

  /**
   * The sweep of reduceDiffTo01 over res: every -1 is paid for by borrowing
   * from the nearest positive digit on its left, which the leading 1 makes
   * sure exists; no rule reads or writes past either end, and afterwards
   * the string is a digit sum of the same value.
   */
  method BorrowSweep(res: array<int>)
    requires DiffInput(res[..])
    modifies res
    ensures SumDigits(res[..])
    ensures exists k :: 0 <= k < res.Length && res[k] >= 1
    ensures Equivalent(res[..], old(res[..]))
  {
    ghost var o := res[..];
    ghost var w := 0;
    var ptr := 1;
    var maxPtr := 1;
    while ptr < res.Length
      invariant BorrowState(o, res[..], ptr, maxPtr, w)
      invariant Equivalent(res[..], o)
      decreases res.Length - maxPtr, ptr
    {
      ghost var ptr0, maxPtr0 := ptr, maxPtr;
      ptr, maxPtr, w := BorrowStep(res, ptr, maxPtr, o, w);
      assert ScanProgress(maxPtr0, ptr0, maxPtr, ptr);
    }
    BorrowDone(o, res[..], ptr, maxPtr, w);
  }

  /** One pass of the loop body of lines 195-218. */
  method BorrowStep(res: array<int>, ptr: int, maxPtr: int, ghost o: seq<int>, ghost w: int)
    returns (ptr': int, maxPtr': int, ghost w': int)
    requires BorrowState(o, res[..], ptr, maxPtr, w) && ptr < res.Length
    modifies res
    ensures BorrowState(o, res[..], ptr', maxPtr', w')
    ensures Equivalent(res[..], old(res[..]))
    ensures ScanProgress(maxPtr, ptr, maxPtr', ptr')
  {
    ghost var before := res[..];
    if res[ptr] < 0 {
      BorrowInside(o, before, ptr, maxPtr, w);
      if res[ptr - 1] == 0 {
        BorrowLeftStep(o, before, ptr, maxPtr, w);
        BorrowLeftEquivalent(before, ptr);
        WriteBorrowLeft(res, ptr);
        ptr', maxPtr', w' := ptr - 2, maxPtr, w;
      } else {
        BorrowRightStep(o, before, ptr, maxPtr, w);
        BorrowRightEquivalent(before, ptr);
        WriteBorrowRight(res, ptr);
        ptr', maxPtr', w' := maxPtr + 1, maxPtr + 1, ptr + 1;
      }
    } else {
      BorrowSkipStep(o, before, ptr, maxPtr, w);
      ptr', maxPtr', w' := maxPtr + 1, maxPtr + 1, SkipWitness(before, ptr, maxPtr, w);
    }
  }

  /** Either max_ptr grows, or it stays and ptr moves back. */
  predicate ScanProgress(maxPtr: int, ptr: int, maxPtr': int, ptr': int)
  {
    maxPtr' > maxPtr || (maxPtr' == maxPtr && 0 <= ptr' < ptr)
  }

  /** The writes of the 0(-1) rule. */
  method WriteBorrowLeft(res: array<int>, ptr: int)
    requires 2 <= ptr < res.Length
    modifies res
    ensures res[..] == BorrowLeft(old(res[..]), ptr)
  {
    res[ptr - 2] := res[ptr - 2] - 1;
    res[ptr - 1] := res[ptr - 1] + 1;
    res[ptr] := res[ptr] + 1;
  }

  /** The writes of the 1(-1) rule. */
  method WriteBorrowRight(res: array<int>, ptr: int)
    requires 1 <= ptr && ptr + 1 < res.Length
    modifies res
    ensures res[..] == BorrowRight(old(res[..]), ptr)
  {
    res[ptr - 1] := res[ptr - 1] - 1;
    res[ptr] := res[ptr] + 1;
    res[ptr + 1] := res[ptr + 1] + 1;
  }

  /** Cutting out the core and padding it with zeros keeps a difference a difference. */
  lemma DiffPadded(d: seq<int>, left: nat, right: nat)
    requires DiffDigits(d)
    ensures DiffDigits(Zeros(left) + Core(d) + Zeros(right))
  {
    var c := Core(d);
    if c != [] {
      var i, j := LeadingZeros(d), |d| - TrailingZeros(d);
      assert c == d[i..j];
      DiffSlice(d, i, j);
    }
    DiffPad(c, left, right);
  }

  lemma DiffSlice(d: seq<int>, i: int, j: int)
    requires 0 <= i <= j <= |d| && DiffDigits(d)
    ensures DiffDigits(d[i..j])
  {
    var c := d[i..j];
    assert forall k :: 0 <= k < |c| ==> c[k] == d[i + k];
  }

  lemma DiffPad(c: seq<int>, left: nat, right: nat)
    requires DiffDigits(c)
    ensures DiffDigits(Zeros(left) + c + Zeros(right))
  {
    var e := Zeros(left) + c + Zeros(right);
    assert forall k :: 0 <= k < |e| ==> e[k] == (if left <= k < left + |c| then c[k - left] else 0);
  }

  /**
   * reduceDiffTo01 (lines 178-224): the digitwise difference of two
   * canonical strings, the larger first, becomes a canonical string of the
   * same value and the same sign.
   */
  method ReduceDiffTo01(sign: int, d: seq<int>, offset: int) returns (r: PhiNum)
    requires DiffDigits(d)
    requires LeadingZeros(d) < |d| && d[LeadingZeros(d)] == 1
    ensures CanonicalDigits(r.digits)
    ensures Value(r) == Value(PhiNum(sign, d, offset))
    ensures r.sign == sign
  {
    var trimmed := TrimZeros(sign, d, offset, 0, 3);
    DiffPadded(d, 0, 3);
    var res := ToArray(trimmed.digits);
    assert res[..] == Zeros(0) + Core(d) + Zeros(3);
    assert res[0] == d[LeadingZeros(d)];
    BorrowSweep(res);
    var k :| 0 <= k < res.Length && res[k] >= 1;
    assert res[..][k] != 0;
    SameDigitsValue(trimmed, trimmed.sign, res[..]);
    r := ReduceSumTo01(trimmed.sign, res[..], trimmed.offset);
  }
}
