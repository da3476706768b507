// Arithmetic on canonical base-phi numbers (projects/18-fastMultiplication/
// programmingChallenge/solutions/pcsol_java.java, lines 246-436): sums and
// differences through the two digit sweeps, products by shifted sums, small
// integer multiples, and the constant-time shift and negation.
module PhiArith {
  import opened GoldenRatio
  import opened PhiDigits
  import opened PhiSweeps
  import Arith
  import Ranges

  /** Puts start zeros in front of d and end zeros behind it (lines 266-287). */
  method Pad(d: seq<int>, start: nat, end: nat) returns (p: seq<int>)
    ensures p == Zeros(start) + d + Zeros(end)
  {
    p := [];
    var i := 0;
    while i < start
      invariant 0 <= i <= start && p == Zeros(i)
    {
      p := p + [0];
      i := i + 1;
    }
    i := 0;
    while i < |d|
      invariant 0 <= i <= |d| && p == Zeros(start) + d[..i]
    {
      p := p + [d[i]];
      i := i + 1;
    }
    assert d[..|d|] == d;
    i := 0;
    while i < end
      invariant 0 <= i <= end && p == Zeros(start) + d + Zeros(i)
    {
      p := p + [0];
      i := i + 1;
    }
  }

  /** Zeros in front, and zeros behind with the offset lowered to match, keep the value. */
  lemma PaddedValue(sign: int, d: seq<int>, offset: int, start: nat, end: nat)
    ensures Value(PhiNum(sign, Zeros(start) + d + Zeros(end), offset - end)) == Value(PhiNum(sign, d, offset))
  {
    var t := offset + |d| - 1;
    Padded(d, start, end, t);
    Padded(d, start, end, t - 1);
  }

  /** The digitwise combination x + c*y of two aligned strings (lines 297-299, 316-318, 323-325). */
  method Digitwise(x: seq<int>, y: seq<int>, c: int) returns (s: seq<int>)
    requires |x| == |y|
    ensures |s| == |x|
    ensures forall i :: 0 <= i < |s| ==> s[i] == x[i] + c * y[i]
  {
    s := [];
    var i := 0;
    while i < |x|
      invariant 0 <= i <= |x| && |s| == i
      invariant forall j :: 0 <= j < i ==> s[j] == x[j] + c * y[j]
    {
      s := s + [x[i] + c * y[i]];
      i := i + 1;
    }
  }

  /** The sum of two canonical strings is a digit sum. */
  lemma SumOfCanonical(x: seq<int>, y: seq<int>, s: seq<int>)
    requires |x| == |y| == |s| && CanonicalDigits(x) && CanonicalDigits(y)
    requires forall i :: 0 <= i < |s| ==> s[i] == x[i] + 1 * y[i]
    ensures SumDigits(s)
  {
    assert forall i, j :: 0 <= i < j < |s| && j == i + 1 ==> s[i] + s[j] == (x[i] + x[i + 1]) + (y[i] + y[i + 1]);
  }

  /** The difference of two canonical strings is a digit difference. */
  lemma DiffOfCanonical(x: seq<int>, y: seq<int>, s: seq<int>)
    requires |x| == |y| == |s| && CanonicalDigits(x) && CanonicalDigits(y)
    requires forall i :: 0 <= i < |s| ==> s[i] == x[i] + -1 * y[i]
    ensures DiffDigits(s)
  {
  }

  /** The first nonzero digit is where the leading zeros end. */
  lemma LeadingZerosAt(d: seq<int>, i: int)
    requires 0 <= i < |d| && d[i] != 0
    requires forall j :: 0 <= j < i ==> d[j] == 0
    ensures LeadingZeros(d) == i
  {
  }

  /** A digitwise combination of two strings placed alike combines their values. */
  lemma LinearValue(sign: int, x: seq<int>, y: seq<int>, s: seq<int>, c: int, offset: int)
    requires |x| == |y| == |s|
    requires forall i :: 0 <= i < |s| ==> s[i] == x[i] + c * y[i]
    ensures Value(PhiNum(sign, s, offset)) == Plus(Value(PhiNum(sign, x, offset)), Value(PhiNum(c * sign, y, offset)))
  {
    var t := offset + |s| - 1;
    WeightedLinear(x, y, s, c, t);
    WeightedLinear(x, y, s, c, t - 1);
    var X, Y := DigitsValue(x, t), DigitsValue(y, t);
    assert DigitsValue(s, t) == Plus(X, Scale(c, Y));
    ScalePlus(sign, X, Scale(c, Y));
    MulAssoc(sign, c, Y.a);
    MulAssoc(sign, c, Y.b);
    MulAssoc(c, sign, Y.a);
    MulAssoc(c, sign, Y.b);
  }

  /** The offsets of both operands after the alignment loops (lines 250-259). */
  method AlignOffsets(offset1: int, offset2: int) returns (endAlign1: nat, endAlign2: nat, offset: int)
    ensures offset == offset1 - endAlign1 == offset2 - endAlign2
    ensures endAlign1 == 0 || endAlign2 == 0
  {
    var o1, o2 := offset1, offset2;
    endAlign1, endAlign2 := 0, 0;
    while o1 > o2
      invariant o1 == offset1 - endAlign1 && o2 == offset2 && endAlign2 == 0
      invariant endAlign1 > 0 ==> o1 >= o2
      decreases o1 - o2
    {
      endAlign1 := endAlign1 + 1;
      o1 := o1 - 1;
    }
    while o2 > o1
      invariant o1 == offset1 - endAlign1 && o2 == offset2 - endAlign2 && o1 <= o2
      invariant endAlign1 > 0 ==> o1 == o2 && endAlign2 == 0
      decreases o2 - o1
    {
      endAlign2 := endAlign2 + 1;
      o2 := o2 - 1;
    }
    offset := o1;
  }

  /**
   * The comparison loop of lines 306-312: the difference of the first
   * digits that differ, or 0 when none do.
   */
  method Compare(x: seq<int>, y: seq<int>) returns (compare: int, i: int)
    requires |x| == |y|
    ensures 0 <= i <= |x|
    ensures forall j :: 0 <= j < i ==> x[j] == y[j]
    ensures compare == 0 ==> i == |x|
    ensures compare != 0 ==> i < |x| && compare == x[i] - y[i]
  {
    compare := 0;
    i := 0;
    while i < |x|
      invariant 0 <= i <= |x| && compare == 0
      invariant forall j :: 0 <= j < i ==> x[j] == y[j]
    {
      compare := x[i] - y[i];
      if compare != 0 {
        return;
      }
      i := i + 1;
    }
  }

  /**
   * addHelper (lines 246-332): align the two canonical strings, add them
   * digitwise when the signs agree, otherwise subtract the smaller from the
   * larger (canonical strings compare lexicographically), and bring the
   * result back to canonical form.
   */
  method AddHelper(sign1: int, arr1: seq<int>, offset1: int, sign2: int, arr2: seq<int>, offset2: int)
    returns (r: PhiNum)
    requires Canonical(PhiNum(sign1, arr1, offset1)) && Canonical(PhiNum(sign2, arr2, offset2))
    ensures Canonical(r)
    ensures Value(r) == Plus(Value(PhiNum(sign1, arr1, offset1)), Value(PhiNum(sign2, arr2, offset2)))
  {
    var endAlign1, endAlign2, offset := AlignOffsets(offset1, offset2);
    var startAlign1 := Ranges.Max(0, |arr2| + endAlign2 - |arr1| - endAlign1);
    var startAlign2 := Ranges.Max(0, |arr1| + endAlign1 - |arr2| - endAlign2);
    var padded1 := Pad(arr1, startAlign1, endAlign1);
    var padded2 := Pad(arr2, startAlign2, endAlign2);
    PaddedValue(sign1, arr1, offset1, startAlign1, endAlign1);
    PaddedValue(sign2, arr2, offset2, startAlign2, endAlign2);
    PadKeeps(arr1, startAlign1, endAlign1);
    PadKeeps(arr2, startAlign2, endAlign2);
    r := AddAligned(sign1, padded1, sign2, padded2, offset);
  }

  /** The sign test and the digitwise sum or difference of lines 291-331. */
  method AddAligned(sign1: int, padded1: seq<int>, sign2: int, padded2: seq<int>, offset: int)
    returns (r: PhiNum)
    requires |padded1| == |padded2|
    requires Canonical(PhiNum(sign1, padded1, offset)) && Canonical(PhiNum(sign2, padded2, offset))
    ensures Canonical(r)
    ensures Value(r) == Plus(Value(PhiNum(sign1, padded1, offset)), Value(PhiNum(sign2, padded2, offset)))
  {
    if sign1 == sign2 {
      var summed := Digitwise(padded1, padded2, 1);
      SumOfCanonical(padded1, padded2, summed);
      LinearValue(sign1, padded1, padded2, summed, 1, offset);
      r := ReduceSumTo01(sign1, summed, offset);
      return;
    }
    var compare, i := Compare(padded1, padded2);
    if compare == 1 {
      var subtracted := Digitwise(padded1, padded2, -1);
      DiffOfCanonical(padded1, padded2, subtracted);
      LeadingZerosAt(subtracted, i);
      LinearValue(sign1, padded1, padded2, subtracted, -1, offset);
      r := ReduceDiffTo01(sign1, subtracted, offset);
    } else if compare == -1 {
      var subtracted := Digitwise(padded2, padded1, -1);
      DiffOfCanonical(padded2, padded1, subtracted);
      LeadingZerosAt(subtracted, i);
      LinearValue(sign2, padded2, padded1, subtracted, -1, offset);
      r := ReduceDiffTo01(sign2, subtracted, offset);
      PlusComm(Value(PhiNum(sign2, padded2, offset)), Value(PhiNum(sign1, padded1, offset)));
    } else {
      assert padded1 == padded2;
      ScaleNeg(sign1, DigitsValue(padded1, Top(PhiNum(sign1, padded1, offset))));
      PlusNeg(Value(PhiNum(sign1, padded1, offset)));
      r := PhiNum(1, Zeros(1), offset);
      ZeroValue(r);
    }
  }

  /** A trim without padding leaves a canonical number with no zero at either end. */
  method TrimAll(p: PhiNum) returns (r: PhiNum)
    requires Canonical(p)
    ensures Canonical(r) && Stripped(r.digits)
    ensures Value(r) == Value(p)
  {
    r := TrimZeros(p.sign, p.digits, p.offset, 0, 0);
    CorePadded(p.digits, 0, 0);
    assert r.digits == Core(p.digits);
  }

  /** add (lines 339-342): the canonical, trimmed sum. */
  method Add(p1: PhiNum, p2: PhiNum) returns (r: PhiNum)
    requires Canonical(p1) && Canonical(p2)
    ensures Canonical(r) && Stripped(r.digits)
    ensures Value(r) == Plus(Value(p1), Value(p2))
  {
    var sum := AddHelper(p1.sign, p1.digits, p1.offset, p2.sign, p2.digits, p2.offset);
    r := TrimAll(sum);
  }

  /** subtract (lines 349-352): the canonical, trimmed difference. */
  method Subtract(p1: PhiNum, p2: PhiNum) returns (r: PhiNum)
    requires Canonical(p1) && Canonical(p2)
    ensures Canonical(r) && Stripped(r.digits)
    ensures Value(r) == Minus(Value(p1), Value(p2))
  {
    ScaleNeg(p2.sign, DigitsValue(p2.digits, Top(p2)));
    var diff := AddHelper(p1.sign, p1.digits, p1.offset, -p2.sign, p2.digits, p2.offset);
    r := TrimAll(diff);
  }

  /** A product sign of two signs is a sign. */
  lemma SignProduct(s1: int, s2: int)
    requires (s1 == 1 || s1 == -1) && (s2 == 1 || s2 == -1)
    ensures s1 * s2 == 1 || s1 * s2 == -1
  {
  }

  /** Adding the next shifted copy of p1 extends the partial product by one digit of q. */
  lemma ProductStep(sign: int, x: ZPhi, q: seq<int>, top: int, idx: int, part: ZPhi, term: ZPhi)
    requires 0 <= idx < |q|
    requires part == Scale(sign, Times(x, DigitsValue(q[..idx], top)))
    requires term == (if q[idx] == 1 then Scale(sign, Times(x, PhiPow(top - idx))) else Zero)
    requires q[idx] == 0 || q[idx] == 1
    ensures Plus(part, term) == Scale(sign, Times(x, DigitsValue(q[..idx + 1], top)))
  {
    assert q[..idx + 1] == q[..idx] + [q[idx]];
    DigitsSnoc(q[..idx], q[idx], top);
    var pw := PhiPow(top - idx);
    var y := DigitsValue(q[..idx], top);
    var whole := DigitsValue(q[..idx + 1], top);
    assert whole == Plus(y, Scale(q[idx], pw));
    if q[idx] == 0 {
      ScaleZero(pw);
      PlusZero(y);
      assert whole == y;
      PlusZero(part);
    } else {
      ScaleOne(pw);
      assert whole == Plus(y, pw);
      TimesPlus(x, y, pw);
      ScalePlus(sign, Times(x, y), Times(x, pw));
    }
  }

  /** The value of the product of the first idx digits of q with sign * x. */
  ghost function PartialProduct(sign: int, x: ZPhi, q: seq<int>, top: int, idx: int): ZPhi
    requires 0 <= idx <= |q|
  {
    Scale(sign, Times(x, DigitsValue(q[..idx], top)))
  }

  /**
   * multiply (lines 359-377): for every 1 in the second number, add a copy
   * of the first shifted to that digit's place; the canonical, trimmed
   * result is the product.
   */
  method Multiply(p1: PhiNum, p2: PhiNum) returns (r: PhiNum)
    requires Canonical(p1) && Canonical(p2)
    ensures Canonical(r) && Stripped(r.digits)
    ensures Value(r) == Times(Value(p1), Value(p2))
  {
    var sign := p1.sign * p2.sign;
    SignProduct(p1.sign, p2.sign);
    var res := PhiNum(sign, Zeros(1), p1.offset);
    ghost var x := DigitsValue(p1.digits, Top(p1));
    ProductStart(sign, x, p2.digits, Top(p2), res);
    var digitIdx := 0;
    while digitIdx < |p2.digits|
      invariant 0 <= digitIdx <= |p2.digits| && Canonical(res)
      invariant Value(res) == PartialProduct(sign, x, p2.digits, Top(p2), digitIdx)
    {
      res := MultiplyDigit(p1, p2, sign, res, digitIdx);
      digitIdx := digitIdx + 1;
    }
    ProductEnd(p1, p2, sign, Value(res));
    r := TrimAll(res);
  }

  /** The loop body of lines 366-374 for the digit at digitIdx. */
  method MultiplyDigit(p1: PhiNum, p2: PhiNum, sign: int, res: PhiNum, digitIdx: int) returns (res': PhiNum)
    requires Canonical(p1) && Canonical(p2) && (sign == 1 || sign == -1) && Canonical(res)
    requires 0 <= digitIdx < |p2.digits|
    requires Value(res) == PartialProduct(sign, DigitsValue(p1.digits, Top(p1)), p2.digits, Top(p2), digitIdx)
    ensures Canonical(res')
    ensures Value(res') == PartialProduct(sign, DigitsValue(p1.digits, Top(p1)), p2.digits, Top(p2), digitIdx + 1)
  {
    ghost var x := DigitsValue(p1.digits, Top(p1));
    var digit := p2.digits[digitIdx];
    if digit == 1 {
      var placeValue := p2.offset + |p2.digits| - 1 - digitIdx;
      var shifted := PhiNum(sign, p1.digits, p1.offset + placeValue);
      ShiftValue(PhiNum(sign, p1.digits, p1.offset), placeValue);
      ScaleTimes(sign, x, PhiPow(placeValue));
      res' := Add(res, shifted);
      ProductStep(sign, x, p2.digits, Top(p2), digitIdx, Value(res), Value(shifted));
    } else {
      res' := res;
      ProductStep(sign, x, p2.digits, Top(p2), digitIdx, Value(res), Zero);
      PlusZero(Value(res));
    }
  }

  /** The running product starts at zero. */
  lemma ProductStart(sign: int, x: ZPhi, q: seq<int>, top: int, res: PhiNum)
    requires res == PhiNum(sign, Zeros(1), res.offset) && (sign == 1 || sign == -1)
    ensures Canonical(res) && Value(res) == PartialProduct(sign, x, q, top, 0)
  {
    TimesZero(x);
    ZeroValue(res);
  }

  /** After the last digit, the running product is the product of the two values. */
  lemma ProductEnd(p1: PhiNum, p2: PhiNum, sign: int, v: ZPhi)
    requires sign == p1.sign * p2.sign
    requires v == PartialProduct(sign, DigitsValue(p1.digits, Top(p1)), p2.digits, Top(p2), |p2.digits|)
    ensures v == Times(Value(p1), Value(p2))
  {
    var x, y := DigitsValue(p1.digits, Top(p1)), DigitsValue(p2.digits, Top(p2));
    assert p2.digits[..|p2.digits|] == p2.digits;
    ScaleTimes(sign, x, y);
    TimesScale(p1.sign, x, p2.sign, y);
  }

  /** The canonical zero that intmul returns for k = 0. */
  lemma ZeroIsCanonical()
    ensures Canonical(PhiNum(1, Zeros(1), 0)) && Value(PhiNum(1, Zeros(1), 0)) == Zero
  {
    ZeroValue(PhiNum(1, Zeros(1), 0));
  }

  /**
   * intmul (lines 386-403): k times p by halving k. Java's % and / truncate,
   * so a negative k never takes the odd branch and is halved towards 0:
   * every negative k gives zero.
   */
  method IntMul(p: PhiNum, k: int) returns (r: PhiNum)
    requires Canonical(p)
    ensures Canonical(r)
    ensures Value(r) == if k >= 0 then Scale(k, Value(p)) else Zero
    decreases Arith.Abs(k)
  {
    if k == 0 {
      ZeroIsCanonical();
      ScaleZero(Value(p));
      return PhiNum(1, Zeros(1), 0);
    }
    if k == 1 {
      ScaleOne(Value(p));
      return p;
    }
    if Arith.JavaRem(k, 2) == 1 {
      var rest := IntMul(p, k - 1);
      r := Add(p, rest);
      ScaleSum(1, k - 1, Value(p));
      ScaleOne(Value(p));
      return r;
    }
    var h := Arith.JavaDiv(k, 2);
    var half := IntMul(p, h);
    r := Add(half, half);
    if k >= 0 {
      assert h + h == k;
      ScaleSum(h, h, Value(p));
    } else {
      if h == 0 {
        ScaleZero(Value(p));
      }
      DoubleZero(Value(half), Value(r));
    }
  }

  lemma DoubleZero(v: ZPhi, w: ZPhi)
    requires v == Zero && w == Plus(v, v)
    ensures w == Zero
  {
  }

  /** The number 1 (offset 0) or phi (offset 1) with the given sign. */
  lemma UnitValue(sign: int, offset: int)
    requires offset == 0 || offset == 1
    ensures Value(PhiNum(sign, [1], offset)) == Scale(sign, if offset == 0 then ZPhi(1, 0) else ZPhi(0, 1))
  {
    assert Fib(1) == 1 && Fib(0) == 0 && Fib(-1) == 1;
  }

  /** make_PhiNum (lines 407-420): the canonical form of a + b*phi. */
  method MakePhiNum(a: int, b: int) returns (r: PhiNum)
    ensures Canonical(r) && Stripped(r.digits)
    ensures Value(r) == ZPhi(a, b)
  {
    var aSign := if a >= 0 then 1 else -1;
    var bSign := if b >= 0 then 1 else -1;
    var singleOne := [1];
    UnitValue(aSign, 0);
    UnitValue(bSign, 1);
    var aCanonical := IntMul(PhiNum(aSign, singleOne, 0), Arith.Abs(a));
    var bCanonical := IntMul(PhiNum(bSign, singleOne, 1), Arith.Abs(b));
    assert Scale(Arith.Abs(a), Scale(aSign, ZPhi(1, 0))) == ZPhi(a, 0);
    assert Scale(Arith.Abs(b), Scale(bSign, ZPhi(0, 1))) == ZPhi(0, b);
    r := Add(aCanonical, bCanonical);
  }

  /** shift (lines 425-427): a copy of p placed amount places higher. */
  function Shift(p: PhiNum, amount: int): (r: PhiNum)
    ensures r.sign == p.sign && r.digits == p.digits
  {
    PhiNum(p.sign, p.digits, p.offset + amount)
  }

  /** negate_PhiNum (lines 432-436): a copy of p with the opposite sign. */
  function Negate(p: PhiNum): (r: PhiNum)
    ensures r.digits == p.digits && r.offset == p.offset
  {
    PhiNum(-p.sign, p.digits, p.offset)
  }

  /** Shifting multiplies the value by phi^amount and keeps the form. */
  lemma ShiftValue(p: PhiNum, amount: int)
    ensures Value(Shift(p, amount)) == Times(Value(p), PhiPow(amount))
    ensures Canonical(p) ==> Canonical(Shift(p, amount))
  {
    DigitsShift(p.digits, Top(p), amount);
    ScaleTimes(p.sign, DigitsValue(p.digits, Top(p)), PhiPow(amount));
  }

  /** Negating negates the value and keeps the form. */
  lemma NegateValue(p: PhiNum)
    ensures Value(Negate(p)) == Neg(Value(p))
    ensures Canonical(p) ==> Canonical(Negate(p))
  {
    ScaleNeg(p.sign, DigitsValue(p.digits, Top(p)));
  }
}
