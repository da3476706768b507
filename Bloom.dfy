// The Bloom filter of
// projects/08-bloomFilter/programmingChallenge/solutions/pcSol_java.java: an
// array of bits and an array of collision flags, probed at one position per
// seed. The hash (Murmur3 in the source) and the random seeds are parameters
// of the filter.
module Bloom {

  /** bits with every position in idxs set. */
  function SetBits(bits: seq<bool>, idxs: seq<int>): (r: seq<bool>)
    requires forall i :: 0 <= i < |idxs| ==> 0 <= idxs[i] < |bits|
    ensures |r| == |bits|
  {
    if |idxs| == 0 then bits
    else SetBits(bits, idxs[..|idxs| - 1])[idxs[|idxs| - 1] := true]
  }

  /** The state after addCollision probes the positions idxs in order: a
      position already set gets its collision flag, any other gets set. */
  function MarkBits(bits: seq<bool>, cols: seq<bool>, idxs: seq<int>): (bc: (seq<bool>, seq<bool>))
    requires |cols| == |bits|
    requires forall i :: 0 <= i < |idxs| ==> 0 <= idxs[i] < |bits|
    ensures |bc.0| == |bits| && |bc.1| == |bits|
  {
    if |idxs| == 0 then (bits, cols)
    else
      var prev := MarkBits(bits, cols, idxs[..|idxs| - 1]);
      var x := idxs[|idxs| - 1];
      if prev.0[x] then (prev.0, prev.1[x := true]) else (prev.0[x := true], prev.1)
  }

  /** The bits after del probes the positions idxs: a probed bit is
      cleared unless its collision flag is set. */
  function ClearBits(bits: seq<bool>, cols: seq<bool>, idxs: seq<int>): (r: seq<bool>)
    requires |cols| == |bits|
    requires forall i :: 0 <= i < |idxs| ==> 0 <= idxs[i] < |bits|
    ensures |r| == |bits|
  {
    if |idxs| == 0 then bits
    else
      var x := idxs[|idxs| - 1];
      var prev := ClearBits(bits, cols, idxs[..|idxs| - 1]);
      if !cols[x] then prev[x := false] else prev
  }

  /** Adding sets exactly the probed bits and keeps every other bit. */
  lemma {:induction false} SetBitsAt(bits: seq<bool>, idxs: seq<int>, j: int)
    requires forall i :: 0 <= i < |idxs| ==> 0 <= idxs[i] < |bits|
    requires 0 <= j < |bits|
    ensures SetBits(bits, idxs)[j] == (bits[j] || j in idxs)
  {
    if |idxs| > 0 {
      var init := idxs[..|idxs| - 1];
      SetBitsAt(bits, init, j);
      assert idxs == init + [idxs[|idxs| - 1]];
    }
  }

  /** After addCollision a bit is set when it was set or is probed, and a
      collision flag is set when it was, or when its position is probed
      while its bit is already set: the bit was set before, or an earlier
      probe hit the same position. */
  lemma {:induction false} MarkBitsAt(bits: seq<bool>, cols: seq<bool>, idxs: seq<int>, j: int)
    requires |cols| == |bits|
    requires forall i :: 0 <= i < |idxs| ==> 0 <= idxs[i] < |bits|
    requires 0 <= j < |bits|
    ensures MarkBits(bits, cols, idxs).0[j] == (bits[j] || j in idxs)
    ensures MarkBits(bits, cols, idxs).1[j] == (cols[j] || (j in idxs && (bits[j] || multiset(idxs)[j] >= 2)))
  {
    if |idxs| > 0 {
      var init := idxs[..|idxs| - 1];
      var x := idxs[|idxs| - 1];
      MarkBitsAt(bits, cols, init, j);
      assert idxs == init + [x];
      assert multiset(idxs) == multiset(init) + multiset{x};
      if x == j && !bits[j] && j in init {
        assert multiset(init)[j] >= 1;
      }
    }
  }

  /** del clears a bit exactly when it is probed and has no collision
      flag. */
  lemma {:induction false} ClearBitsAt(bits: seq<bool>, cols: seq<bool>, idxs: seq<int>, j: int)
    requires |cols| == |bits|
    requires forall i :: 0 <= i < |idxs| ==> 0 <= idxs[i] < |bits|
    requires 0 <= j < |bits|
    ensures ClearBits(bits, cols, idxs)[j] == (bits[j] && (j !in idxs || cols[j]))
  {
    if |idxs| > 0 {
      var init := idxs[..|idxs| - 1];
      ClearBitsAt(bits, cols, init, j);
      assert idxs == init + [idxs[|idxs| - 1]];
    }
  }

  class BloomFilter {
    var bit: array<bool>
    var collisions: array<bool>
    /** The size of the bit array. */
    const m: nat
    /** The number of hash functions, one per seed. */
    const k: nat
    const seeds: seq<int>
    /** The hash of a key under a seed; Murmur3 masks it to 32 bits, so it
        is never negative. */
    const hash: (string, int) -> nat

    ghost predicate Valid()
      reads this
    {
      m > 0 && |seeds| == k && bit.Length == m && collisions.Length == m && bit != collisions
    }

    /** The positions probed for key s, one per seed: hash(s, seed) mod m. */
    function Probes(s: string): (idxs: seq<int>)
      requires m > 0 && |seeds| == k
      ensures |idxs| == k && forall i :: 0 <= i < k ==> 0 <= idxs[i] < m
    {
      seq(k, i requires 0 <= i < k => hash(s, seeds[i]) % m)
    }

    /** The constructor that also allocates the collision flags; the
        sizing of m and k from a false-positive rate is not modelled, so
        both are given. */
    constructor (m: nat, k: nat, seeds: seq<int>, hash: (string, int) -> nat)
      requires m > 0 && |seeds| == k
      ensures Valid() && fresh(bit) && fresh(collisions)
      ensures this.m == m && this.k == k && this.seeds == seeds && this.hash == hash
      ensures forall j :: 0 <= j < m ==> !bit[j] && !collisions[j]
    {
      this.m := m;
      this.k := k;
      this.seeds := seeds;
      this.hash := hash;
      bit := new bool[m](_ => false);
      collisions := new bool[m](_ => false);
    }

    /** add: sets the bit at every probe, clearing none. */
    method Add(s: string)
      requires Valid()
      modifies bit
      ensures bit[..] == SetBits(old(bit[..]), Probes(s))
      ensures forall j :: 0 <= j < m ==> bit[j] == (old(bit[j]) || j in Probes(s))
    {
      ghost var idxs := Probes(s);
      for i := 0 to k
        invariant bit[..] == SetBits(old(bit[..]), idxs[..i])
      {
        var h := hash(s, seeds[i]);
        bit[h % m] := true;
        assert idxs[..i + 1][..i] == idxs[..i];
      }
      assert idxs[..k] == idxs;
      forall j | 0 <= j < m
        ensures bit[j] == (old(bit[j]) || j in idxs)
      {
        SetBitsAt(old(bit[..]), idxs, j);
      }
    }

    /** addCollision: a probe that finds its bit set marks a collision
        there, any other sets its bit. */
    method AddCollision(s: string)
      requires Valid()
      modifies bit, collisions
      ensures (bit[..], collisions[..]) == MarkBits(old(bit[..]), old(collisions[..]), Probes(s))
      ensures forall j :: 0 <= j < m ==> bit[j] == (old(bit[j]) || j in Probes(s))
    {
      ghost var idxs := Probes(s);
      for i := 0 to k
        invariant (bit[..], collisions[..]) == MarkBits(old(bit[..]), old(collisions[..]), idxs[..i])
      {
        var index := hash(s, seeds[i]) % m;
        if bit[index] {
          collisions[index] := true;
        } else {
          bit[index] := true;
        }
        assert idxs[..i + 1][..i] == idxs[..i];
      }
      assert idxs[..k] == idxs;
      forall j | 0 <= j < m
        ensures bit[j] == (old(bit[j]) || j in idxs)
      {
        MarkBitsAt(old(bit[..]), old(collisions[..]), idxs, j);
      }
    }

    /** del: clears the bit at every probe that has no collision flag. */
    method Del(s: string)
      requires Valid()
      modifies bit
      ensures bit[..] == ClearBits(old(bit[..]), collisions[..], Probes(s))
      ensures forall j :: 0 <= j < m ==> bit[j] == (old(bit[j]) && (j !in Probes(s) || collisions[j]))
    {
      ghost var idxs := Probes(s);
      for i := 0 to k
        invariant bit[..] == ClearBits(old(bit[..]), collisions[..], idxs[..i])
      {
        var h := hash(s, seeds[i]);
        if collisions[h % m] == false {
          bit[h % m] := false;
        }
        assert idxs[..i + 1][..i] == idxs[..i];
      }
      assert idxs[..k] == idxs;
      forall j | 0 <= j < m
        ensures bit[j] == (old(bit[j]) && (j !in idxs || collisions[j]))
      {
        ClearBitsAt(old(bit[..]), collisions[..], idxs, j);
      }
    }

    /** contains: false at the first probe whose bit is clear, true when
        every probed bit is set. */
    method Contains(s: string) returns (b: bool)
      requires Valid()
      ensures b == forall i :: 0 <= i < k ==> bit[Probes(s)[i]]
    {
      ghost var idxs := Probes(s);
      for i := 0 to k
        invariant forall q :: 0 <= q < i ==> bit[idxs[q]]
      {
        var h := hash(s, seeds[i]);
        if bit[h % m] == false {
          assert idxs[i] == h % m;
          return false;
        }
      }
      return true;
    }
  }

  /** After add(s), contains(s) holds: every probe of s finds its bit. */
  lemma AddThenContains(bits: seq<bool>, idxs: seq<int>)
    requires forall i :: 0 <= i < |idxs| ==> 0 <= idxs[i] < |bits|
    ensures forall i :: 0 <= i < |idxs| ==> SetBits(bits, idxs)[idxs[i]]
  {
    forall i | 0 <= i < |idxs|
      ensures SetBits(bits, idxs)[idxs[i]]
    {
      SetBitsAt(bits, idxs, idxs[i]);
    }
  }

  /** After addCollision(s), contains(s) holds as well. */
  lemma AddCollisionThenContains(bits: seq<bool>, cols: seq<bool>, idxs: seq<int>)
    requires |cols| == |bits|
    requires forall i :: 0 <= i < |idxs| ==> 0 <= idxs[i] < |bits|
    ensures forall i :: 0 <= i < |idxs| ==> MarkBits(bits, cols, idxs).0[idxs[i]]
  {
    forall i | 0 <= i < |idxs|
      ensures MarkBits(bits, cols, idxs).0[idxs[i]]
    {
      MarkBitsAt(bits, cols, idxs, idxs[i]);
    }
  }

  /** Deleting never clears a bit that carries a collision flag, so a key
      whose every probe collided is still contained after any del. */
  lemma DelKeepsCollided(bits: seq<bool>, cols: seq<bool>, idxs: seq<int>, other: seq<int>)
    requires |cols| == |bits|
    requires forall i :: 0 <= i < |idxs| ==> 0 <= idxs[i] < |bits|
    requires forall i :: 0 <= i < |other| ==> 0 <= other[i] < |bits| && bits[other[i]] && cols[other[i]]
    ensures forall i :: 0 <= i < |other| ==> ClearBits(bits, cols, idxs)[other[i]]
  {
    forall i | 0 <= i < |other|
      ensures ClearBits(bits, cols, idxs)[other[i]]
    {
      ClearBitsAt(bits, cols, idxs, other[i]);
    }
  }
}
