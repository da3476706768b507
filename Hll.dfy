// The register logic of the HyperLogLog sketch of
// projects/09-hyperLogLog/implementation/hyperLogLog.cpp: a 64-bit hash
// picks a register with its top p bits and offers the position of the first
// one bit in the rest; merging takes the larger register everywhere.
module Hll {
  import opened Arith
  import opened Outcomes

  /** The number of significant bits of w. */
  function BitLength(w: nat): nat
  {
    if w == 0 then 0 else 1 + BitLength(w / 2)
  }

  /** A word below 2^b has at most b significant bits, and a non-zero one
      has at least one. */
  lemma {:induction false} BitLengthBound(w: nat, b: nat)
    requires w < Pow2(b)
    ensures BitLength(w) <= b
    ensures w > 0 ==> BitLength(w) >= 1
  {
    if w > 0 && b > 0 {
      BitLengthBound(w / 2, b - 1);
    }
  }

  /** __builtin_clzll: the leading zero bits of a non-zero 64-bit word
      (undefined on zero). */
  function Clz64(w: nat): int
    requires 0 < w
  {
    64 - BitLength(w)
  }

  /** h >> s: division by two, s times. */
  function ShiftRight(h: nat, s: nat): nat
  {
    if s == 0 then h else ShiftRight(h / 2, s - 1)
  }

  /** h & ((1 << s) - 1): the low s bits of h. */
  function LowBits(h: nat, s: nat): nat
  {
    if s == 0 then 0 else h % 2 + 2 * LowBits(h / 2, s - 1)
  }

  /** Shifting an n-bit word right by s leaves n - s bits. */
  lemma {:induction false} ShiftRightBound(h: nat, n: nat, s: nat)
    requires s <= n && h < Pow2(n)
    ensures ShiftRight(h, s) < Pow2(n - s)
  {
    if s > 0 {
      ShiftRightBound(h / 2, n - 1, s - 1);
    }
  }

  /** The mask keeps fewer than 2^s values. */
  lemma {:induction false} LowBitsBound(h: nat, s: nat)
    ensures LowBits(h, s) < Pow2(s)
  {
    if s > 0 {
      LowBitsBound(h / 2, s - 1);
    }
  }

  /** The shifted-out bits and the masked bits together give back the word:
      h == (h >> s) * 2^s + (h & (2^s - 1)). */
  lemma {:induction false} ShiftSplit(h: nat, s: nat)
    ensures h == ShiftRight(h, s) * Pow2(s) + LowBits(h, s)
  {
    if s > 0 {
      var q, l := ShiftRight(h / 2, s - 1), LowBits(h / 2, s - 1);
      ShiftSplit(h / 2, s - 1);
      calc {
        ShiftRight(h, s) * Pow2(s) + LowBits(h, s);
        q * (2 * Pow2(s - 1)) + h % 2 + 2 * l;
        { MulAssoc(q, 2, Pow2(s - 1)); MulComm(q, 2); MulAssoc(2, q, Pow2(s - 1)); }
        2 * (q * Pow2(s - 1) + l) + h % 2;
        2 * (h / 2) + h % 2;
        h;
      }
    }
  }

  /** The register index: the top p bits of the hash. */
  function Bucket(h: nat, p: nat): nat
    requires p <= 64
  {
    ShiftRight(h, 64 - p)
  }

  /** The bits of the hash below the top p. */
  function Rest(h: nat, p: nat): nat
    requires p <= 64
  {
    LowBits(h, 64 - p)
  }

  /** The value offered to the register: one more than the leading zeros
      of the rest, counted within its 64 - p bits. */
  function Rho(h: nat, p: nat): int
    requires 1 <= p <= 63
  {
    var w := Rest(h, p);
    if w == 0 then 64 - p + 1 else Clz64(w) - p + 1
  }

  lemma {:induction false} Pow2Mono(a: nat, b: nat)
    requires a <= b
    ensures Pow2(a) <= Pow2(b)
  {
    if a < b {
      Pow2Mono(a, b - 1);
    }
  }

  /** A 64-bit hash. */
  ghost predicate IsHash(h: nat)
  {
    h < Pow2(64)
  }

  /** processHash picks a register below m = 2^p. */
  lemma BucketBound(h: nat, p: nat)
    requires 1 <= p <= 63 && IsHash(h)
    ensures Bucket(h, p) < Pow2(p)
  {
    ShiftRightBound(h, 64, 64 - p);
  }

  /** The offered value lies in [1, 64 - p + 1]; the largest value comes
      only from an all-zero rest. */
  lemma RhoRange(h: nat, p: nat)
    requires 1 <= p <= 63
    ensures 1 <= Rho(h, p) <= 64 - p + 1
    ensures Rho(h, p) == 64 - p + 1 <==> Rest(h, p) == 0
  {
    LowBitsBound(h, 64 - p);
    BitLengthBound(Rest(h, p), 64 - p);
  }

  /** The larger of two registers. */
  function Max(a: int, b: int): int
  {
    if a < b then b else a
  }

  /** Register-wise maximum: the least sequence that dominates both. */
  function MaxRegs(a: seq<int>, b: seq<int>): (r: seq<int>)
    requires |a| == |b|
    ensures |r| == |a|
    ensures forall i :: 0 <= i < |a| ==> a[i] <= r[i] && b[i] <= r[i] && (r[i] == a[i] || r[i] == b[i])
  {
    seq(|a|, i requires 0 <= i < |a| => Max(a[i], b[i]))
  }

  lemma MaxRegsCommutes(a: seq<int>, b: seq<int>)
    requires |a| == |b|
    ensures MaxRegs(a, b) == MaxRegs(b, a)
  {
  }

  lemma MaxRegsIdempotent(a: seq<int>)
    ensures MaxRegs(a, a) == a
  {
  }

  lemma MaxRegsAssociates(a: seq<int>, b: seq<int>, c: seq<int>)
    requires |a| == |b| == |c|
    ensures MaxRegs(MaxRegs(a, b), c) == MaxRegs(a, MaxRegs(b, c))
  {
  }

  /** The registers after processHash(h): register Bucket(h, p) keeps the
      larger of its value and Rho(h, p). */
  function Offer(regs: seq<int>, p: nat, h: nat): (r: seq<int>)
    requires 1 <= p <= 63 && IsHash(h) && |regs| == Pow2(p)
    ensures |r| == |regs|
  {
    BucketBound(h, p);
    regs[Bucket(h, p) := Max(regs[Bucket(h, p)], Rho(h, p))]
  }

  /** The registers after processing the hashes hs in order, from regs. */
  function Sketch(regs: seq<int>, p: nat, hs: seq<nat>): (r: seq<int>)
    requires 1 <= p <= 63 && |regs| == Pow2(p)
    requires forall i :: 0 <= i < |hs| ==> IsHash(hs[i])
    ensures |r| == |regs|
  {
    if |hs| == 0 then regs
    else Offer(Sketch(regs, p, hs[..|hs| - 1]), p, hs[|hs| - 1])
  }

  /** Processing never lowers a register. */
  lemma {:induction false} SketchDominates(regs: seq<int>, p: nat, hs: seq<nat>)
    requires 1 <= p <= 63 && |regs| == Pow2(p)
    requires forall i :: 0 <= i < |hs| ==> IsHash(hs[i])
    ensures forall i :: 0 <= i < |regs| ==> regs[i] <= Sketch(regs, p, hs)[i]
  {
    if |hs| > 0 {
      SketchDominates(regs, p, hs[..|hs| - 1]);
    }
  }

  /** Offering a hash to one side of a merge is offering it to the merge. */
  lemma MergeOffer(a: seq<int>, b: seq<int>, p: nat, h: nat)
    requires 1 <= p <= 63 && IsHash(h) && |a| == |b| == Pow2(p)
    ensures MaxRegs(a, Offer(b, p, h)) == Offer(MaxRegs(a, b), p, h)
  {
    BucketBound(h, p);
    var x, y := MaxRegs(a, Offer(b, p, h)), Offer(MaxRegs(a, b), p, h);
    forall i | 0 <= i < |a|
      ensures x[i] == y[i]
    {
    }
  }

  /** Merging the sketches of two streams started from the same registers
      gives the sketch of the two streams together: the union property
      that makes merge meaningful. */
  lemma {:induction false} MergeIsUnion(z: seq<int>, p: nat, xs: seq<nat>, ys: seq<nat>)
    requires 1 <= p <= 63 && |z| == Pow2(p)
    requires forall i :: 0 <= i < |xs| ==> IsHash(xs[i])
    requires forall i :: 0 <= i < |ys| ==> IsHash(ys[i])
    ensures MaxRegs(Sketch(z, p, xs), Sketch(z, p, ys)) == Sketch(z, p, xs + ys)
  {
    if |ys| == 0 {
      SketchDominates(z, p, xs);
      assert xs + ys == xs;
      var s := Sketch(z, p, xs);
      forall i | 0 <= i < |s|
        ensures MaxRegs(s, z)[i] == s[i]
      {
      }
    } else {
      var init, y := ys[..|ys| - 1], ys[|ys| - 1];
      MergeIsUnion(z, p, xs, init);
      assert (xs + ys)[..|xs + ys| - 1] == xs + init;
      MergeOffer(Sketch(z, p, xs), Sketch(z, p, init), p, y);
    }
  }

  class HyperLogLog {
    const p: nat
    const m: nat
    var registers: array<int>

    ghost predicate Valid()
      reads this
    {
      1 <= p <= 63 && m == Pow2(p) && registers.Length == m
    }

    /** A sketch of precision p with m = 2^p registers, all zero. Shifts
        by 64 or more are undefined in C++, so 1 <= p <= 63. */
    constructor (precision: nat)
      requires 1 <= precision <= 63
      ensures Valid() && p == precision && fresh(registers)
      ensures forall i :: 0 <= i < m ==> registers[i] == 0
    {
      p := precision;
      m := Pow2(precision);
      registers := new int[Pow2(precision)](_ => 0);
    }

    /** processHash: the register picked by the top p bits keeps the
        larger of its value and rho; all others are unchanged. */
    method ProcessHash(h: nat)
      requires Valid() && IsHash(h)
      modifies registers
      ensures Bucket(h, p) < m
      ensures registers[..] == Offer(old(registers[..]), p, h)
      ensures forall i :: 0 <= i < m ==> old(registers[i]) <= registers[i]
    {
      BucketBound(h, p);
      var idx := ShiftRight(h, 64 - p);
      var w := LowBits(h, 64 - p);
      var rho := if w == 0 then 64 - p + 1 else Clz64(w) - p + 1;
      assert idx == Bucket(h, p) && rho == Rho(h, p);
      ghost var before := registers[..];
      registers[idx] := Max(registers[idx], rho);
      assert registers[..] == before[idx := Max(before[idx], rho)];
    }

    /** merge: a new sketch of the same precision whose registers are the
        register-wise maximum; sketches of different precision are
        refused. */
    method Merge(other: HyperLogLog) returns (r: Result<HyperLogLog, string>)
      requires Valid() && other.Valid()
      ensures r.Err? <==> p != other.p
      ensures r.Ok? ==> fresh(r.value) && fresh(r.value.registers) && r.value.Valid() && r.value.p == p
      ensures r.Ok? ==> r.value.registers[..] == MaxRegs(registers[..], other.registers[..])
    {
      if p != other.p {
        return Err("Cannot merge HLLs with different precision");
      }
      var result := new HyperLogLog(p);
      for i := 0 to m
        invariant fresh(result.registers) && result.Valid() && result.p == p
        invariant forall q :: 0 <= q < i ==> result.registers[q] == Max(registers[q], other.registers[q])
      {
        result.registers[i] := Max(registers[i], other.registers[i]);
      }
      return Ok(result);
    }
  }
}
