// The product automaton of the Hopcroft challenge (projects/13-Hopcroft/
// programmingChallenge/solutions/Solution.java, lines 25-77): the pairs of
// states two runs of one automaton, started at s1 and s2, can reach
// together, the number of final components of each pair, and the product
// transitions with their inverse. States are indices; delta[p] holds the
// successors of p on 'a' (symbol 0) and 'b' (symbol 1).
module ProductPairs {
  import Suffixes

  /** Every state has a successor on both symbols, and every successor is a state. */
  predicate ValidDelta(delta: seq<seq<int>>)
  {
    forall p :: 0 <= p < |delta| ==> |delta[p]| == 2 && 0 <= delta[p][0] < |delta| && 0 <= delta[p][1] < |delta|
  }

  /** Every symbol of w is 0 or 1. */
  ghost predicate Bits(w: seq<int>)
  {
    forall i :: 0 <= i < |w| ==> 0 <= w[i] < 2
  }

  /** The state the word w leads to from s. */
  ghost function Run(delta: seq<seq<int>>, s: int, w: seq<int>): (r: int)
    requires ValidDelta(delta) && 0 <= s < |delta| && Bits(w)
    ensures 0 <= r < |delta|
    decreases |w|
  {
    if w == [] then s
    else
      assert Bits(w[..|w| - 1]);
      delta[Run(delta, s, w[..|w| - 1])][w[|w| - 1]]
  }

  /** Reading c first, then w, from s. */
  lemma {:induction false} RunCons(delta: seq<seq<int>>, s: int, c: int, w: seq<int>)
    requires ValidDelta(delta) && 0 <= s < |delta| && 0 <= c < 2 && Bits(w)
    ensures Bits([c] + w) && Run(delta, s, [c] + w) == Run(delta, delta[s][c], w)
    decreases |w|
  {
    assert Bits([c] + w);
    if w == [] {
      assert ([c] + w)[..0] == [];
    } else {
      var n := |w| - 1;
      assert ([c] + w)[..|w|] == [c] + w[..n];
      assert Bits(w[..n]);
      RunCons(delta, s, c, w[..n]);
    }
  }

  /** One more symbol at the end of a word. */
  lemma RunSnoc(delta: seq<seq<int>>, s: int, w: seq<int>, c: int)
    requires ValidDelta(delta) && 0 <= s < |delta| && Bits(w) && 0 <= c < 2
    ensures Bits(w + [c]) && Run(delta, s, w + [c]) == delta[Run(delta, s, w)][c]
  {
    assert (w + [c])[..|w|] == w;
  }

  type Pair = (int, int)

  /** Both components are states. */
  predicate InRange(n: int, pr: Pair)
  {
    0 <= pr.0 < n && 0 <= pr.1 < n
  }

  /** The successor pair of pr on symbol c (lines 37-38 and 61-62). */
  function Step(delta: seq<seq<int>>, pr: Pair, c: int): (r: Pair)
    requires ValidDelta(delta) && InRange(|delta|, pr) && 0 <= c < 2
    ensures InRange(|delta|, r)
  {
    (delta[pr.0][c], delta[pr.1][c])
  }

  /** Some word over {a, b} leads the runs from s1 and from s2 to pr together. */
  ghost predicate PairReaches(delta: seq<seq<int>>, s1: int, s2: int, pr: Pair)
  {
    ValidDelta(delta) && 0 <= s1 < |delta| && 0 <= s2 < |delta| &&
    exists w :: Bits(w) && pr == (Run(delta, s1, w), Run(delta, s2, w))
  }

  /** The long key of lines 29, 39 and 63: the first state shifted into the
      high 32 bits, the low 32 bits of the second below it. */
  function PairKey(pr: Pair): int
  {
    pr.0 * 0x1_0000_0000 + pr.1 % 0x1_0000_0000
  }

  /** On states of a Java array (below 2^31) the key identifies the pair. */
  lemma PairKeyInjective(a: Pair, b: Pair)
    requires 0 <= a.0 < 0x8000_0000 && 0 <= a.1 < 0x8000_0000
    requires 0 <= b.0 < 0x8000_0000 && 0 <= b.1 < 0x8000_0000
    ensures PairKey(a) == PairKey(b) <==> a == b
  {
    if PairKey(a) == PairKey(b) {
      assert a.1 % 0x1_0000_0000 == a.1 && b.1 % 0x1_0000_0000 == b.1;
    }
  }

  /** The listed pairs are pairs of states, and pairIndex maps the key of
      each to its position and nothing else. */
  ghost predicate Indexed(n: int, pairs: seq<Pair>, pairIndex: map<int, int>)
  {
    (forall i :: 0 <= i < |pairs| ==> InRange(n, pairs[i])) &&
    (forall i :: 0 <= i < |pairs| ==> PairKey(pairs[i]) in pairIndex && pairIndex[PairKey(pairs[i])] == i) &&
    (forall k :: k in pairIndex ==> 0 <= pairIndex[k] < |pairs| && PairKey(pairs[pairIndex[k]]) == k)
  }

  /** Looking a pair of states up by its key finds it exactly when it is listed. */
  lemma Lookup(n: int, pairs: seq<Pair>, pairIndex: map<int, int>, pr: Pair)
    requires n <= 0x8000_0000 && Indexed(n, pairs, pairIndex) && InRange(n, pr)
    ensures PairKey(pr) in pairIndex <==> pr in pairs
    ensures PairKey(pr) in pairIndex ==> pairs[pairIndex[PairKey(pr)]] == pr
  {
    if PairKey(pr) in pairIndex {
      var i := pairIndex[PairKey(pr)];
      PairKeyInjective(pairs[i], pr);
    }
  }

  /** Every key of a pair of states lies below this bound. */
  const KeyBound := 0x8000_0000 * 0x1_0000_0000

  /** What the search has built: the pairs listed from the start pair on,
      indexed by key, each with a word leading both runs to it. */
  ghost predicate Listing(delta: seq<seq<int>>, s1: int, s2: int, pairs: seq<Pair>, pairIndex: map<int, int>,
                          paths: seq<seq<int>>)
  {
    ValidDelta(delta) && 0 <= s1 < |delta| && 0 <= s2 < |delta| &&
    |pairs| > 0 && pairs[0] == (s1, s2) && Indexed(|delta|, pairs, pairIndex) &&
    |paths| == |pairs| &&
    forall i :: 0 <= i < |pairs| ==> Bits(paths[i]) && pairs[i] == (Run(delta, s1, paths[i]), Run(delta, s2, paths[i]))
  }

  /** The successors of every pair before position head are listed. */
  ghost predicate ClosedBelow(delta: seq<seq<int>>, pairs: seq<Pair>, head: int)
    requires ValidDelta(delta) && forall i :: 0 <= i < |pairs| ==> InRange(|delta|, pairs[i])
  {
    forall i, c :: 0 <= i < head && i < |pairs| && 0 <= c < 2 ==> Step(delta, pairs[i], c) in pairs
  }

  /** The keys of a listing stay below KeyBound, so there are at most KeyBound of them. */
  lemma KeysBounded(n: int, pairs: seq<Pair>, pairIndex: map<int, int>)
    requires n <= 0x8000_0000 && Indexed(n, pairs, pairIndex)
    ensures |pairIndex.Keys| <= KeyBound
  {
    forall k | k in pairIndex.Keys
      ensures 0 <= k < KeyBound
    {
      var pr := pairs[pairIndex[k]];
      assert InRange(n, pr);
    }
    Suffixes.CardBound(pairIndex.Keys, KeyBound);
  }

  /** Lines 39-44: the pair pr, reached by w, is listed and queued when its
      key is new. */
  method Offer(delta: seq<seq<int>>, ghost s1: int, ghost s2: int, pairs: seq<Pair>, pairIndex: map<int, int>,
               queue: seq<Pair>, ghost paths: seq<seq<int>>, ghost head: int, ghost closed: int,
               pr: Pair, ghost w: seq<int>)
    returns (pairs': seq<Pair>, pairIndex': map<int, int>, queue': seq<Pair>, ghost paths': seq<seq<int>>)
    requires |delta| <= 0x8000_0000 && Listing(delta, s1, s2, pairs, pairIndex, paths)
    requires InRange(|delta|, pr) && Bits(w) && pr == (Run(delta, s1, w), Run(delta, s2, w))
    requires 0 <= closed <= head <= |pairs| && queue == pairs[head..] && ClosedBelow(delta, pairs, closed)
    ensures Listing(delta, s1, s2, pairs', pairIndex', paths')
    ensures pr in pairs'
    ensures head <= |pairs'| && queue' == pairs'[head..] && ClosedBelow(delta, pairs', closed)
    ensures |pairs'| >= |pairs| && forall k :: 0 <= k < |pairs| ==> pairs'[k] == pairs[k]
    ensures pairIndex'.Keys == pairIndex.Keys || |pairIndex'.Keys| == |pairIndex.Keys| + 1
    ensures pairIndex'.Keys == pairIndex.Keys ==> queue' == queue
  {
    Lookup(|delta|, pairs, pairIndex, pr);
    var key := PairKey(pr);
    if key !in pairIndex {
      pairIndex' := pairIndex[key := |pairs|];
      pairs' := pairs + [pr];
      queue' := queue + [pr];
      paths' := paths + [w];
      assert pairIndex'.Keys == pairIndex.Keys + {key};
      forall k | k in pairIndex'
        ensures 0 <= pairIndex'[k] < |pairs'| && PairKey(pairs'[pairIndex'[k]]) == k
      {
        if k != key {
          assert pairIndex'[k] == pairIndex[k];
        }
      }
      forall i | 0 <= i < |pairs'|
        ensures PairKey(pairs'[i]) in pairIndex' && pairIndex'[PairKey(pairs'[i])] == i
      {
        if i < |pairs| {
          assert PairKey(pairs[i]) != key;
        }
      }
      forall i, c | 0 <= i < closed && i < |pairs'| && 0 <= c < 2
        ensures Step(delta, pairs'[i], c) in pairs'
      {
        assert pairs'[i] == pairs[i];
        assert Step(delta, pairs[i], c) in pairs;
      }
      assert queue' == pairs'[head..];
    } else {
      pairs', pairIndex', queue', paths' := pairs, pairIndex, queue, paths;
    }
  }

  /** One poll of the queue (lines 34-45): both successors of its head are offered. */
  method Visit(delta: seq<seq<int>>, ghost s1: int, ghost s2: int, pairs: seq<Pair>, pairIndex: map<int, int>,
               queue: seq<Pair>, ghost paths: seq<seq<int>>)
    returns (pairs': seq<Pair>, pairIndex': map<int, int>, queue': seq<Pair>, ghost paths': seq<seq<int>>)
    requires |delta| <= 0x8000_0000 && Listing(delta, s1, s2, pairs, pairIndex, paths)
    requires queue != [] && |queue| <= |pairs| && queue == pairs[|pairs| - |queue|..]
    requires ClosedBelow(delta, pairs, |pairs| - |queue|)
    ensures Listing(delta, s1, s2, pairs', pairIndex', paths')
    ensures |queue'| <= |pairs'| && queue' == pairs'[|pairs'| - |queue'|..]
    ensures ClosedBelow(delta, pairs', |pairs'| - |queue'|)
    ensures |pairIndex'.Keys| > |pairIndex.Keys| || (pairIndex'.Keys == pairIndex.Keys && |queue'| < |queue|)
  {
    ghost var head := |pairs| - |queue|;
    var cur := queue[0];
    ghost var w := paths[head];
    assert cur == pairs[head];
    pairs', pairIndex', queue', paths' := pairs, pairIndex, queue[1..], paths;
    for c := 0 to 2
      invariant Listing(delta, s1, s2, pairs', pairIndex', paths')
      invariant head < |pairs'| && pairs'[head] == cur && queue' == pairs'[head + 1..]
      invariant ClosedBelow(delta, pairs', head)
      invariant forall d :: 0 <= d < c ==> Step(delta, cur, d) in pairs'
      invariant |pairIndex'.Keys| >= |pairIndex.Keys|
      invariant pairIndex'.Keys == pairIndex.Keys || |pairIndex'.Keys| > |pairIndex.Keys|
      invariant pairIndex'.Keys == pairIndex.Keys ==> queue' == queue[1..]
    {
      var np := delta[cur.0][c];
      var nq := delta[cur.1][c];
      RunSnoc(delta, s1, w, c);
      RunSnoc(delta, s2, w, c);
      ghost var before := pairs';
      pairs', pairIndex', queue', paths' := Offer(delta, s1, s2, pairs', pairIndex', queue', paths',
                                                  head + 1, head, (np, nq), w + [c]);
      assert pairs'[head] == before[head];
      forall d | 0 <= d < c
        ensures Step(delta, cur, d) in pairs'
      {
        var k :| 0 <= k < |before| && before[k] == Step(delta, cur, d);
        assert pairs'[k] == before[k];
      }
    }
    ClosedBelowNext(delta, pairs', head);
  }

  /** Closure below head holds below head + 1 once the pair at head has its
      successors listed. */
  lemma ClosedBelowNext(delta: seq<seq<int>>, pairs: seq<Pair>, head: int)
    requires ValidDelta(delta) && forall i :: 0 <= i < |pairs| ==> InRange(|delta|, pairs[i])
    requires 0 <= head < |pairs| && ClosedBelow(delta, pairs, head)
    requires Step(delta, pairs[head], 0) in pairs && Step(delta, pairs[head], 1) in pairs
    ensures ClosedBelow(delta, pairs, head + 1)
  {
  }

  /** The breadth-first search of lines 25-46: pair 0 is (s1, s2), every pair
      of states the two runs reach together is listed exactly once, nothing
      else is listed, pairIndex finds each listed pair's position by its key,
      and the successors of every listed pair are listed. */
  method ReachablePairs(delta: seq<seq<int>>, s1: int, s2: int) returns (pairs: seq<Pair>, pairIndex: map<int, int>)
    requires ValidDelta(delta) && |delta| <= 0x8000_0000 && 0 <= s1 < |delta| && 0 <= s2 < |delta|
    ensures |pairs| > 0 && pairs[0] == (s1, s2)
    ensures Indexed(|delta|, pairs, pairIndex)
    ensures forall i, j :: 0 <= i < j < |pairs| ==> pairs[i] != pairs[j]
    ensures forall pr :: pr in pairs <==> PairReaches(delta, s1, s2, pr)
    ensures forall i, c :: 0 <= i < |pairs| && 0 <= c < 2 ==> Step(delta, pairs[i], c) in pairs
  {
    pairs := [(s1, s2)];
    pairIndex := map[PairKey((s1, s2)) := 0];
    var queue := [(s1, s2)];
    ghost var paths: seq<seq<int>> := [[]];
    assert Bits([]);
    while queue != []
      invariant Listing(delta, s1, s2, pairs, pairIndex, paths)
      invariant |queue| <= |pairs| && queue == pairs[|pairs| - |queue|..]
      invariant ClosedBelow(delta, pairs, |pairs| - |queue|)
      invariant |pairIndex.Keys| <= KeyBound
      decreases KeyBound - |pairIndex.Keys|, |queue|
    {
      pairs, pairIndex, queue, paths := Visit(delta, s1, s2, pairs, pairIndex, queue, paths);
      KeysBounded(|delta|, pairs, pairIndex);
    }
    forall i, j | 0 <= i < j < |pairs|
      ensures pairs[i] != pairs[j]
    {
      assert pairIndex[PairKey(pairs[i])] != pairIndex[PairKey(pairs[j])];
    }
    forall pr
      ensures pr in pairs <==> PairReaches(delta, s1, s2, pr)
    {
      if pr in pairs {
        var i :| 0 <= i < |pairs| && pairs[i] == pr;
        assert Bits(paths[i]) && pr == (Run(delta, s1, paths[i]), Run(delta, s2, paths[i]));
      }
      if PairReaches(delta, s1, s2, pr) {
        var w :| Bits(w) && pr == (Run(delta, s1, w), Run(delta, s2, w));
        ClosedHoldsRuns(delta, s1, s2, pairs, w);
      }
    }
  }

  /** A list of pairs holding the start pair and closed under both symbols
      holds every pair a word leads to. */
  lemma {:induction false} ClosedHoldsRuns(delta: seq<seq<int>>, s1: int, s2: int, pairs: seq<Pair>, w: seq<int>)
    requires ValidDelta(delta) && 0 <= s1 < |delta| && 0 <= s2 < |delta| && Bits(w)
    requires (s1, s2) in pairs && forall i :: 0 <= i < |pairs| ==> InRange(|delta|, pairs[i])
    requires forall i, c :: 0 <= i < |pairs| && 0 <= c < 2 ==> Step(delta, pairs[i], c) in pairs
    ensures (Run(delta, s1, w), Run(delta, s2, w)) in pairs
    decreases |w|
  {
    if w != [] {
      var n := |w| - 1;
      assert Bits(w[..n]);
      ClosedHoldsRuns(delta, s1, s2, pairs, w[..n]);
      var i :| 0 <= i < |pairs| && pairs[i] == (Run(delta, s1, w[..n]), Run(delta, s2, w[..n]));
      assert Step(delta, pairs[i], w[n]) in pairs;
      assert w == w[..n] + [w[n]];
      RunSnoc(delta, s1, w[..n], w[n]);
      RunSnoc(delta, s2, w[..n], w[n]);
    }
  }

  /** How many of the two components of pr are final. */
  function FinalCount(isFinal: seq<bool>, pr: Pair): int
    requires InRange(|isFinal|, pr)
  {
    (if isFinal[pr.0] then 1 else 0) + (if isFinal[pr.1] then 1 else 0)
  }

  /** The classification of lines 48-55: cls[i] is the number of final
      components of pair i, 0 (reject), 1 (half) or 2 (accept). */
  method Classify(pairs: seq<Pair>, isFinal: seq<bool>) returns (cls: array<int>)
    requires forall i :: 0 <= i < |pairs| ==> InRange(|isFinal|, pairs[i])
    ensures fresh(cls) && cls.Length == |pairs|
    ensures forall i :: 0 <= i < |pairs| ==> cls[i] == FinalCount(isFinal, pairs[i])
  {
    cls := new int[|pairs|];
    for i := 0 to |pairs|
      invariant forall k :: 0 <= k < i ==> cls[k] == FinalCount(isFinal, pairs[k])
    {
      var pr := pairs[i];
      var f1 := isFinal[pr.0];
      var f2 := isFinal[pr.1];
      cls[i] := if f1 then (if f2 then 2 else 1) else (if f2 then 1 else 0);
    }
  }

  /** A class is at most 2, and it is 0 or 2 exactly when both runs agree on
      acceptance. */
  lemma FinalCountRange(isFinal: seq<bool>, pr: Pair)
    requires InRange(|isFinal|, pr)
    ensures 0 <= FinalCount(isFinal, pr) <= 2
    ensures FinalCount(isFinal, pr) == 0 <==> !isFinal[pr.0] && !isFinal[pr.1]
    ensures FinalCount(isFinal, pr) == 2 <==> isFinal[pr.0] && isFinal[pr.1]
    ensures FinalCount(isFinal, pr) == 1 <==> isFinal[pr.0] != isFinal[pr.1]
  {
  }

  /** prodDelta[i, c] are the product transitions as an index table. */
  ghost predicate Tabulates(prodDelta: array2<int>, D: seq<seq<int>>)
    reads prodDelta
  {
    prodDelta.Length0 == |D| && prodDelta.Length1 == 2 &&
    forall i, c :: 0 <= i < |D| && 0 <= c < 2 ==> |D[i]| == 2 && prodDelta[i, c] == D[i][c]
  }

  /** The rows of a table with two columns. */
  ghost function Table(prodDelta: array2<int>): (D: seq<seq<int>>)
    reads prodDelta
    requires prodDelta.Length1 == 2
    ensures Tabulates(prodDelta, D)
  {
    seq(prodDelta.Length0, i reads prodDelta requires 0 <= i < prodDelta.Length0 => [prodDelta[i, 0], prodDelta[i, 1]])
  }

  /** The transition table of lines 56-66: prodDelta[i, c] is the position
      of the successor of pair i on c. */
  method ProductDelta(delta: seq<seq<int>>, pairs: seq<Pair>, pairIndex: map<int, int>) returns (prodDelta: array2<int>)
    requires ValidDelta(delta) && |delta| <= 0x8000_0000 && Indexed(|delta|, pairs, pairIndex)
    requires forall i, c :: 0 <= i < |pairs| && 0 <= c < 2 ==> Step(delta, pairs[i], c) in pairs
    ensures fresh(prodDelta) && prodDelta.Length0 == |pairs| && prodDelta.Length1 == 2
    ensures forall i, c :: 0 <= i < |pairs| && 0 <= c < 2 ==>
      0 <= prodDelta[i, c] < |pairs| && pairs[prodDelta[i, c]] == Step(delta, pairs[i], c)
  {
    prodDelta := new int[|pairs|, 2];
    for i := 0 to |pairs|
      invariant forall k, c :: 0 <= k < i && 0 <= c < 2 ==>
        0 <= prodDelta[k, c] < |pairs| && pairs[prodDelta[k, c]] == Step(delta, pairs[k], c)
    {
      var pr := pairs[i];
      for c := 0 to 2
        invariant forall k, d :: 0 <= k < i && 0 <= d < 2 ==>
          0 <= prodDelta[k, d] < |pairs| && pairs[prodDelta[k, d]] == Step(delta, pairs[k], d)
        invariant forall d :: 0 <= d < c ==> 0 <= prodDelta[i, d] < |pairs| && pairs[prodDelta[i, d]] == Step(delta, pr, d)
      {
        var np := delta[pr.0][c];
        var nq := delta[pr.1][c];
        assert Step(delta, pairs[i], c) == (np, nq);
        Lookup(|delta|, pairs, pairIndex, (np, nq));
        prodDelta[i, c] := pairIndex[PairKey((np, nq))];
      }
    }
  }

  /** The states below i whose transition on c enters j. */
  ghost function Preds(D: seq<seq<int>>, c: int, j: int, i: int): (r: set<int>)
    requires 0 <= i <= |D| && forall x :: 0 <= x < |D| ==> |D[x]| == 2
    requires 0 <= c < 2
    ensures forall x :: x in r <==> 0 <= x < i && D[x][c] == j
  {
    set x | 0 <= x < i && D[x][c] == j
  }

  /** inv[c, j] holds exactly the states whose transition on c enters j. */
  ghost predicate Inverse(inv: array2<set<int>>, D: seq<seq<int>>)
    reads inv
    requires forall i :: 0 <= i < |D| ==> |D[i]| == 2
  {
    inv.Length0 == 2 && inv.Length1 == |D| &&
    forall c, j :: 0 <= c < 2 && 0 <= j < |D| ==> inv[c, j] == Preds(D, c, j, |D|)
  }

  /** The predecessor sets of lines 67-77. */
  method Predecessors(prodDelta: array2<int>, ghost D: seq<seq<int>>) returns (inv: array2<set<int>>)
    requires ValidDelta(D) && Tabulates(prodDelta, D)
    ensures fresh(inv) && Inverse(inv, D)
  {
    var m := prodDelta.Length0;
    inv := new set<int>[2, m]((c, j) => {});
    for i := 0 to m
      invariant inv.Length0 == 2 && inv.Length1 == m
      invariant forall c, j :: 0 <= c < 2 && 0 <= j < m ==> inv[c, j] == Preds(D, c, j, i)
    {
      for c := 0 to 2
        invariant inv.Length0 == 2 && inv.Length1 == m
        invariant forall d, j :: 0 <= d < 2 && 0 <= j < m ==>
          inv[d, j] == Preds(D, d, j, i) + (if d < c && D[i][d] == j then {i} else {})
      {
        var t := prodDelta[i, c];
        inv[c, t] := inv[c, t] + {i};
      }
      forall d, j | 0 <= d < 2 && 0 <= j < m
        ensures inv[d, j] == Preds(D, d, j, i + 1)
      {
        assert Preds(D, d, j, i + 1) == Preds(D, d, j, i) + (if D[i][d] == j then {i} else {});
      }
    }
  }

  /** Runs of the product follow the two runs: the pair at the end of w from
      pair i is the pair of the two runs' ends. */
  lemma {:induction false} ProductRun(delta: seq<seq<int>>, pairs: seq<Pair>, D: seq<seq<int>>, i: int, w: seq<int>)
    requires ValidDelta(delta) && ValidDelta(D) && |D| == |pairs|
    requires forall k :: 0 <= k < |pairs| ==> InRange(|delta|, pairs[k])
    requires forall k, c :: 0 <= k < |pairs| && 0 <= c < 2 ==> pairs[D[k][c]] == Step(delta, pairs[k], c)
    requires 0 <= i < |pairs| && InRange(|delta|, pairs[i]) && Bits(w)
    ensures pairs[Run(D, i, w)] == (Run(delta, pairs[i].0, w), Run(delta, pairs[i].1, w))
    decreases |w|
  {
    if w != [] {
      var n := |w| - 1;
      assert Bits(w[..n]);
      ProductRun(delta, pairs, D, i, w[..n]);
      assert w == w[..n] + [w[n]];
      RunSnoc(D, i, w[..n], w[n]);
      RunSnoc(delta, pairs[i].0, w[..n], w[n]);
      RunSnoc(delta, pairs[i].1, w[..n], w[n]);
    }
  }
}
