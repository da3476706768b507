// Tallies of a sequence: the rank and count tables that inverting a
// Burrows-Wheeler transform reads, and sums of counts over sets of keys.
// Used for the character transform and for the integer one alike.
module Tally {

  /** tots maps exactly the values of s to their number of occurrences. */
  ghost predicate IsTally<T(!new)>(tots: map<T, int>, s: seq<T>)
  {
    (forall c :: c in tots <==> c in s) &&
    forall c :: c in tots ==> tots[c] == multiset(s)[c]
  }

  /** ranks[i] is the number of occurrences of bw[i] before position i. */
  ghost predicate IsRanks<T(!new)>(ranks: seq<int>, bw: seq<T>)
  {
    |ranks| == |bw| && forall i :: 0 <= i < |bw| ==> ranks[i] == multiset(bw[..i])[bw[i]]
  }

  method RankBwt<T(==,!new)>(bw: seq<T>) returns (ranks: seq<int>, tots: map<T, int>)
    ensures IsRanks(ranks, bw) && IsTally(tots, bw)
  {
    tots := map[];
    ranks := [];
    for i := 0 to |bw|
      invariant IsRanks(ranks, bw[..i]) && IsTally(tots, bw[..i])
    {
      assert bw[..i + 1] == bw[..i] + [bw[i]];
      ranks, tots := RankOne(bw[..i], bw[i], ranks, tots);
    }
    assert bw[..|bw|] == bw;
  }

  /** The loop body of rankBwt: records the rank of c and counts it. */
  method RankOne<T(==,!new)>(s: seq<T>, c: T, ranks0: seq<int>, tots0: map<T, int>)
    returns (ranks: seq<int>, tots: map<T, int>)
    requires IsRanks(ranks0, s) && IsTally(tots0, s)
    ensures IsRanks(ranks, s + [c]) && IsTally(tots, s + [c])
  {
    ranks, tots := ranks0, tots0;
    if c !in tots {
      tots := tots[c := 0];
    }
    var totsC := tots[c];
    ranks := ranks + [totsC];
    tots := tots[c := totsC + 1];
    RankStep(ranks0, tots0, s, c, totsC, ranks, tots);
  }

  /** Reading one more value c: its rank is its count so far, and its
      count grows by one. */
  lemma RankStep<T(!new)>(ranks: seq<int>, tots: map<T, int>, s: seq<T>, c: T,
                 v: int, ranks': seq<int>, tots': map<T, int>)
    requires IsRanks(ranks, s) && IsTally(tots, s)
    requires v == (if c in tots then tots[c] else 0)
    requires ranks' == ranks + [v] && tots' == tots[c := v + 1]
    ensures IsRanks(ranks', s + [c]) && IsTally(tots', s + [c])
  {
    assert multiset(s + [c]) == multiset(s) + multiset{c};
    forall k | 0 <= k < |s|
      ensures (s + [c])[..k] == s[..k]
    {
    }
    assert (s + [c])[..|s|] == s;
  }

  /** The values of s, as a set. */
  function Elems<T(==,!new)>(s: seq<T>): set<T>
  {
    set d | d in s
  }

  /** The sum of tots over a set of its keys. */
  ghost function SumSet<T(!new)>(tots: map<T, int>, ks: set<T>): int
    requires ks <= tots.Keys
    decreases ks
  {
    if ks == {} then 0
    else
      var d :| d in ks;
      tots[d] + SumSet(tots, ks - {d})
  }

  lemma {:induction false} SumSetRemove<T(!new)>(tots: map<T, int>, ks: set<T>, x: T)
    requires ks <= tots.Keys && x in ks
    ensures SumSet(tots, ks) == tots[x] + SumSet(tots, ks - {x})
    decreases ks
  {
    var d :| d in ks && SumSet(tots, ks) == tots[d] + SumSet(tots, ks - {d});
    if d != x {
      SumSetRemove(tots, ks - {d}, x);
      SumSetRemove(tots, ks - {x}, d);
      assert ks - {d} - {x} == ks - {x} - {d};
    }
  }

  /** The number of positions of s holding a value of ks. */
  function CountIn<T(==,!new)>(s: seq<T>, ks: set<T>): nat
  {
    if |s| == 0 then 0
    else CountIn(s[..|s| - 1], ks) + (if s[|s| - 1] in ks then 1 else 0)
  }

  lemma {:induction false} CountInEmpty<T(!new)>(s: seq<T>)
    ensures CountIn(s, {}) == 0
  {
    if |s| > 0 {
      CountInEmpty(s[..|s| - 1]);
    }
  }

  lemma {:induction false} CountInSplit<T(!new)>(s: seq<T>, ks: set<T>, d: T)
    requires d in ks
    ensures CountIn(s, ks) == CountIn(s, ks - {d}) + multiset(s)[d]
  {
    if |s| > 0 {
      CountInSplit(s[..|s| - 1], ks, d);
      assert s == s[..|s| - 1] + [s[|s| - 1]];
    }
  }

  /** Summing a tally of s over some of its keys counts the positions of s
      holding those keys. */
  lemma {:induction false} TallySum<T(!new)>(tots: map<T, int>, s: seq<T>, ks: set<T>)
    requires IsTally(tots, s) && ks <= tots.Keys
    ensures SumSet(tots, ks) == CountIn(s, ks)
    decreases ks
  {
    if ks == {} {
      CountInEmpty(s);
    } else {
      var d :| d in ks;
      SumSetRemove(tots, ks, d);
      TallySum(tots, s, ks - {d});
      CountInSplit(s, ks, d);
    }
  }
}
