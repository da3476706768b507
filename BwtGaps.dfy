// The programming challenge of
// projects/11-burrowsWheelerTransform/programmingChallenge/solutions/pcSol_java.java:
// an integer array is a Burrows-Wheeler transform ended by the sentinel -1,
// with one entry unknown (written 0). Inverting the array walks the
// last-to-first mapping from row 0 until it meets the sentinel; a candidate
// value is accepted when that walk passes through every row.
module BwtGaps {
  import opened Tally
  import opened PolyHash

  /** The end marker of the transformed array. */
  const Sentinel: int := -1

  /** The sentinel occurs once and no entry is below it. */
  ghost predicate OneSentinel(bw: seq<int>)
  {
    multiset(bw)[Sentinel] == 1 && forall i :: 0 <= i < |bw| ==> Sentinel <= bw[i]
  }

  // ---------------------------------------------------------------------
  // Counting and the last-to-first mapping

  /** The number of entries of s below v. */
  function CountLess(s: seq<int>, v: int): nat
  {
    if |s| == 0 then 0
    else CountLess(s[..|s| - 1], v) + (if s[|s| - 1] < v then 1 else 0)
  }

  lemma {:induction false} CountLessBound(s: seq<int>, v: int)
    ensures CountLess(s, v) + multiset(s)[v] <= |s|
  {
    if |s| > 0 {
      CountLessBound(s[..|s| - 1], v);
      assert s == s[..|s| - 1] + [s[|s| - 1]];
    }
  }

  /** All entries up to v come before the entries below a larger w. */
  lemma {:induction false} CountLessAtMost(s: seq<int>, v: int, w: int)
    requires v < w
    ensures CountLess(s, v) + multiset(s)[v] <= CountLess(s, w)
  {
    if |s| > 0 {
      CountLessAtMost(s[..|s| - 1], v, w);
      assert s == s[..|s| - 1] + [s[|s| - 1]];
    }
  }

  lemma {:induction false} CountLessNone(s: seq<int>, v: int)
    requires forall i :: 0 <= i < |s| ==> v <= s[i]
    ensures CountLess(s, v) == 0
  {
    if |s| > 0 {
      CountLessNone(s[..|s| - 1], v);
    }
  }

  /** The occurrences of s[r] before r are fewer than all of them. */
  lemma OccBefore(s: seq<int>, r: int)
    requires 0 <= r < |s|
    ensures multiset(s[..r])[s[r]] < multiset(s)[s[r]]
  {
    assert s == s[..r] + s[r..];
    assert s[r] in multiset(s[r..]);
  }

  /** A later occurrence of the same value has a larger rank. */
  lemma OccGrows(s: seq<int>, r1: int, r2: int)
    requires 0 <= r1 < r2 <= |s|
    ensures multiset(s[..r1])[s[r1]] < multiset(s[..r2])[s[r1]]
  {
    assert s[..r2] == s[..r1] + s[r1..r2];
    assert s[r1..r2][0] == s[r1];
  }

  /** The last-to-first mapping of row r: the entries below bw[r], plus the
      occurrences of bw[r] before r. */
  function Lf(bw: seq<int>, r: int): int
    requires 0 <= r < |bw|
  {
    CountLess(bw, bw[r]) + multiset(bw[..r])[bw[r]]
  }

  lemma LfRange(bw: seq<int>, r: int)
    requires 0 <= r < |bw|
    ensures 0 <= Lf(bw, r) < |bw|
  {
    OccBefore(bw, r);
    CountLessBound(bw, bw[r]);
  }

  /** Distinct rows map to distinct rows. */
  lemma LfInjective(bw: seq<int>, r1: int, r2: int)
    requires 0 <= r1 < |bw| && 0 <= r2 < |bw| && r1 != r2
    ensures Lf(bw, r1) != Lf(bw, r2)
  {
    if r1 < r2 {
      LfOrdered(bw, r1, r2);
    } else {
      LfOrdered(bw, r2, r1);
    }
  }

  lemma LfOrdered(bw: seq<int>, r1: int, r2: int)
    requires 0 <= r1 < r2 < |bw|
    ensures Lf(bw, r1) != Lf(bw, r2)
  {
    if bw[r1] == bw[r2] {
      OccGrows(bw, r1, r2);
    } else if bw[r1] < bw[r2] {
      OccBefore(bw, r1);
      CountLessAtMost(bw, bw[r1], bw[r2]);
    } else {
      OccBefore(bw, r2);
      CountLessAtMost(bw, bw[r2], bw[r1]);
    }
  }

  /** The row ending in the sentinel maps to row 0. */
  lemma SentinelRow(bw: seq<int>) returns (q: int)
    requires OneSentinel(bw)
    ensures 0 <= q < |bw| && bw[q] == Sentinel && Lf(bw, q) == 0
  {
    assert Sentinel in multiset(bw);
    q :| 0 <= q < |bw| && bw[q] == Sentinel;
    CountLessNone(bw, Sentinel);
    OccBefore(bw, q);
  }

  // ---------------------------------------------------------------------
  // Counting distinct rows

  /** The rows 0 .. n-1, in order. */
  function Rows(n: nat): (rows: seq<int>)
    ensures |rows| == n
  {
    seq(n, i requires 0 <= i < n => i)
  }

  lemma InRows(n: nat, x: int)
    ensures x in Elems(Rows(n)) <==> 0 <= x < n
  {
    if 0 <= x < n {
      assert Rows(n)[x] == x;
    }
  }

  /** There are n rows. */
  lemma RowsCard(n: nat)
    ensures |Elems(Rows(n))| == n
  {
    DistinctCard(Rows(n));
  }

  predicate DistinctInts(xs: seq<int>)
  {
    forall i, j :: 0 <= i < j < |xs| ==> xs[i] != xs[j]
  }

  lemma {:induction false} DistinctCard(xs: seq<int>)
    requires DistinctInts(xs)
    ensures |Elems(xs)| == |xs|
  {
    if |xs| > 0 {
      var ys := xs[..|xs| - 1];
      var x := xs[|xs| - 1];
      DistinctCard(ys);
      assert xs == ys + [x];
      assert Elems(xs) == Elems(ys) + {x};
      assert x !in Elems(ys);
    }
  }

  lemma SubsetCard(a: set<int>, b: set<int>)
    requires a <= b
    ensures |a| <= |b| && (|a| == |b| ==> a == b)
  {
    assert b == a + (b - a);
    if a != b {
      assert b - a != {};
    }
  }

  /** Every row is the image of some row. */
  lemma LfOnto(bw: seq<int>, p: int) returns (r: int)
    requires 0 <= p < |bw|
    ensures 0 <= r < |bw| && Lf(bw, r) == p
  {
    var n := |bw|;
    var xs := seq(n, i requires 0 <= i < n => Lf(bw, i));
    forall i, j | 0 <= i < j < n
      ensures xs[i] != xs[j]
    {
      LfInjective(bw, i, j);
    }
    forall i | 0 <= i < n
      ensures xs[i] in Elems(Rows(n))
    {
      LfRange(bw, i);
      InRows(n, xs[i]);
    }
    DistinctCard(xs);
    RowsCard(n);
    SubsetCard(Elems(xs), Elems(Rows(n)));
    InRows(n, p);
    assert p in Elems(xs);
    r :| 0 <= r < n && xs[r] == p;
  }

  // ---------------------------------------------------------------------
  // The walk from row 0

  /** The row reached from row 0 after k steps of the mapping. */
  function LfIter(bw: seq<int>, k: nat): (r: int)
    requires |bw| > 0
    ensures 0 <= r < |bw|
  {
    if k == 0 then 0
    else
      var p := LfIter(bw, k - 1);
      LfRange(bw, p);
      Lf(bw, p)
  }

  /** None of the first k rows of the walk ends in the sentinel. */
  ghost predicate Avoids(bw: seq<int>, k: nat)
    requires |bw| > 0
  {
    forall m :: 0 <= m < k ==> bw[LfIter(bw, m)] != Sentinel
  }

  /** Before it meets the sentinel, the walk never revisits a row: row 0
      is entered only from the sentinel row, and any other repeat would
      have a repeated predecessor. */
  lemma {:induction false} OrbitNoRepeat(bw: seq<int>, i: nat, j: nat)
    requires OneSentinel(bw) && |bw| > 0
    requires i < j && Avoids(bw, j)
    ensures LfIter(bw, i) != LfIter(bw, j)
    decreases i
  {
    var p := LfIter(bw, j - 1);
    assert bw[p] != Sentinel;
    if i == 0 {
      var q := SentinelRow(bw);
      LfInjective(bw, p, q);
    } else {
      assert Avoids(bw, j - 1);
      OrbitNoRepeat(bw, i - 1, j - 1);
      LfInjective(bw, LfIter(bw, i - 1), p);
    }
  }

  /** The walk meets the sentinel within |bw| - 1 steps. */
  lemma OrbitBound(bw: seq<int>, k: nat)
    requires OneSentinel(bw) && |bw| > 0 && Avoids(bw, k)
    ensures k < |bw|
  {
    var n := |bw|;
    var q := SentinelRow(bw);
    var xs := seq(k, m requires 0 <= m < k => LfIter(bw, m));
    forall i, j | 0 <= i < j < k
      ensures xs[i] != xs[j]
    {
      assert Avoids(bw, j);
      OrbitNoRepeat(bw, i, j);
    }
    forall m | 0 <= m < k
      ensures xs[m] in Elems(Rows(n)) - {q}
    {
      assert bw[LfIter(bw, m)] != Sentinel;
      InRows(n, xs[m]);
    }
    DistinctCard(xs);
    RowsCard(n);
    InRows(n, q);
    SubsetCard(Elems(xs), Elems(Rows(n)) - {q});
  }

  /** The walk from row 0 passes through every row before the sentinel's. */
  ghost predicate Complete(bw: seq<int>)
  {
    |bw| > 0 && Avoids(bw, |bw| - 1)
  }

  // ---------------------------------------------------------------------
  // The first column: the range of rows that begin with each value

  /** The keys of tots below v. */
  function KeysBelow(tots: map<int, int>, v: int): set<int>
  {
    set d | d in tots && d < v
  }

  lemma {:induction false} MinExists(s: set<int>)
    requires s != {}
    ensures exists m :: m in s && forall d :: d in s ==> m <= d
    decreases s
  {
    var x := Pick(s);
    if s - {x} != {} {
      MinExists(s - {x});
      var m :| m in s - {x} && forall d :: d in s - {x} ==> m <= d;
      var least := if x < m then x else m;
      forall d | d in s
        ensures least <= d
      {
        if d != x {
          assert d in s - {x};
        }
      }
    } else {
      forall d | d in s
        ensures x <= d
      {
        assert d !in s - {x};
      }
    }
  }

  lemma Pick<T>(s: set<T>) returns (x: T)
    requires s != {}
    ensures x in s
  {
    x :| x in s;
  }

  /** The keys in increasing order, as a TreeSet iterates them. */
  method SortedKeys(ks: set<int>) returns (order: seq<int>)
    ensures forall v :: v in order <==> v in ks
    ensures forall i, j :: 0 <= i < j < |order| ==> order[i] < order[j]
  {
    order := [];
    var rest := ks;
    while rest != {}
      invariant rest <= ks
      invariant forall v :: v in order <==> v in ks && v !in rest
      invariant forall i, j :: 0 <= i < j < |order| ==> order[i] < order[j]
      invariant forall i, d :: 0 <= i < |order| && d in rest ==> order[i] < d
      decreases |rest|
    {
      MinExists(rest);
      var m :| m in rest && forall d :: d in rest ==> m <= d;
      order := order + [m];
      rest := rest - {m};
    }
  }

  /** first[v] is the half-open range of rows that begin with v: it starts
      at the total count of the keys below v and holds tots[v] rows. */
  method FirstCol(tots: map<int, int>) returns (first: map<int, (int, int)>)
    ensures first.Keys == tots.Keys
    ensures forall v :: v in first ==> IsSpan(tots, v, first[v])
  {
    first := map[];
    var totc := 0;
    var order := SortedKeys(tots.Keys);
    for k := 0 to |order|
      invariant FirstInv(tots, order, k, first, totc)
    {
      first, totc := FirstOne(tots, order, k, first, totc);
    }
    assert order[..|order|] == order;
    forall v ensures v in Elems(order) <==> v in tots {
    }
  }

  /** The loop body of firstCol: enters the range of the k-th key and adds
      its count to the running total. */
  method FirstOne(tots: map<int, int>, order: seq<int>, k: int,
                  first0: map<int, (int, int)>, totc0: int)
    returns (first: map<int, (int, int)>, totc: int)
    requires FirstInv(tots, order, k, first0, totc0) && k < |order|
    ensures FirstInv(tots, order, k + 1, first, totc)
  {
    var v := order[k];
    assert v in order;
    var count := tots[v];
    first := first0[v := (totc0, totc0 + count)];
    totc := totc0 + count;
    FirstStep(tots, order, k, first0, totc0, first, totc);
  }

  /** span is the range of rows for key v of tots. */
  ghost predicate IsSpan(tots: map<int, int>, v: int, span: (int, int))
  {
    v in tots && span.0 == SumSet(tots, KeysBelow(tots, v)) && span.1 == span.0 + tots[v]
  }

  /** After k keys of the increasing key list: first holds exactly those
      keys, each mapped to its range, and totc is their total count. */
  ghost predicate FirstInv(tots: map<int, int>, order: seq<int>, k: int,
                           first: map<int, (int, int)>, totc: int)
  {
    (forall v :: v in order <==> v in tots) &&
    (forall i, j :: 0 <= i < j < |order| ==> order[i] < order[j]) &&
    0 <= k <= |order| &&
    first.Keys == Elems(order[..k]) &&
    (forall v :: v in first ==> IsSpan(tots, v, first[v])) &&
    totc == SumSet(tots, Elems(order[..k]))
  }

  lemma FirstStep(tots: map<int, int>, order: seq<int>, k: int,
                  first: map<int, (int, int)>, totc: int,
                  first': map<int, (int, int)>, totc': int)
    requires FirstInv(tots, order, k, first, totc) && k < |order| && order[k] in tots
    requires first' == first[order[k] := (totc, totc + tots[order[k]])]
    requires totc' == totc + tots[order[k]]
    ensures FirstInv(tots, order, k + 1, first', totc')
  {
    FirstStepKeys(tots, order, k, first.Keys, totc, first'.Keys, totc');
    PrefixIsBelow(tots, order, k);
    assert IsSpan(tots, order[k], (totc, totc + tots[order[k]]));
    FirstStepMap(tots, first, first', order[k], (totc, totc + tots[order[k]]));
  }

  /** The keys entered so far and their total grow by the k-th key. */
  lemma FirstStepKeys(tots: map<int, int>, order: seq<int>, k: int,
                      keys: set<int>, totc: int, keys': set<int>, totc': int)
    requires forall v :: v in order <==> v in tots
    requires forall i, j :: 0 <= i < j < |order| ==> order[i] < order[j]
    requires 0 <= k < |order| && order[k] in tots
    requires keys == Elems(order[..k]) && totc == SumSet(tots, Elems(order[..k]))
    requires keys' == keys + {order[k]} && totc' == totc + tots[order[k]]
    ensures keys' == Elems(order[..k + 1]) && totc' == SumSet(tots, Elems(order[..k + 1]))
  {
    ElemsSnoc(order, k);
    TotalSnoc(tots, order, k);
  }

  /** Entering the range of v keeps every entry the range of its key. */
  lemma FirstStepMap(tots: map<int, int>, first: map<int, (int, int)>,
                     first': map<int, (int, int)>, v: int, span: (int, int))
    requires IsSpan(tots, v, span)
    requires forall d :: d in first ==> IsSpan(tots, d, first[d])
    requires first' == first[v := span]
    ensures forall d :: d in first' ==> IsSpan(tots, d, first'[d])
  {
    forall d | d in first'
      ensures IsSpan(tots, d, first'[d])
    {
      if d != v {
        assert first'[d] == first[d];
      }
    }
  }

  lemma ElemsSnoc(order: seq<int>, k: int)
    requires 0 <= k < |order|
    ensures Elems(order[..k + 1]) == Elems(order[..k]) + {order[k]}
  {
    assert order[..k + 1] == order[..k] + [order[k]];
  }

  /** Adding the k-th key to the keys before it adds its count. */
  lemma TotalSnoc(tots: map<int, int>, order: seq<int>, k: int)
    requires forall v :: v in order <==> v in tots
    requires forall i, j :: 0 <= i < j < |order| ==> order[i] < order[j]
    requires 0 <= k < |order|
    ensures Elems(order[..k + 1]) <= tots.Keys
    ensures SumSet(tots, Elems(order[..k + 1])) == SumSet(tots, Elems(order[..k])) + tots[order[k]]
  {
    var v := order[k];
    ElemsSnoc(order, k);
    assert v !in Elems(order[..k]);
    assert Elems(order[..k + 1]) - {v} == Elems(order[..k]);
    SumSetRemove(tots, Elems(order[..k + 1]), v);
  }

  /** In the increasing list of all keys, the keys before position k are
      the keys below the k-th. */
  lemma PrefixIsBelow(tots: map<int, int>, order: seq<int>, k: int)
    requires forall v :: v in order <==> v in tots
    requires forall i, j :: 0 <= i < j < |order| ==> order[i] < order[j]
    requires 0 <= k < |order|
    ensures KeysBelow(tots, order[k]) == Elems(order[..k])
  {
    forall d | d in tots && d < order[k]
      ensures d in order[..k]
    {
      var i :| 0 <= i < |order| && order[i] == d;
      assert order[..k][i] == d;
    }
  }

  lemma {:induction false} CountInBelow(s: seq<int>, ks: set<int>, v: int)
    requires forall i :: 0 <= i < |s| ==> (s[i] in ks <==> s[i] < v)
    ensures CountIn(s, ks) == CountLess(s, v)
  {
    if |s| > 0 {
      CountInBelow(s[..|s| - 1], ks, v);
    }
  }

  /** For the tally of bw, the range of v starts at the number of entries
      of bw below v and holds the occurrences of v. */
  lemma SpanOfTally(tots: map<int, int>, bw: seq<int>, v: int, span: (int, int))
    requires IsTally(tots, bw) && IsSpan(tots, v, span)
    ensures span == (CountLess(bw, v), CountLess(bw, v) + multiset(bw)[v])
  {
    TallySum(tots, bw, KeysBelow(tots, v));
    CountInBelow(bw, KeysBelow(tots, v), v);
  }

  /** first maps every value of bw to the rows that begin with it. */
  ghost predicate IsFirst(first: map<int, (int, int)>, bw: seq<int>)
  {
    (forall v :: v in first <==> v in bw) &&
    forall v :: v in first ==> first[v] == (CountLess(bw, v), CountLess(bw, v) + multiset(bw)[v])
  }

  /** The ranges are non-empty, lie within the rows, and come in the order
      of their keys without overlapping. */
  lemma FirstRangesOrdered(first: map<int, (int, int)>, bw: seq<int>, v: int, w: int)
    requires IsFirst(first, bw) && v in first && w in first
    ensures 0 <= first[v].0 < first[v].1 <= |bw|
    ensures v < w ==> first[v].1 <= first[w].0
  {
    CountLessBound(bw, v);
    assert v in multiset(bw);
    if v < w {
      CountLessAtMost(bw, v, w);
    }
  }

  /** Every row lies in the range of some key. */
  lemma FirstRangesCover(first: map<int, (int, int)>, bw: seq<int>, p: int)
    requires IsFirst(first, bw) && 0 <= p < |bw|
    ensures exists v :: v in first && first[v].0 <= p < first[v].1
  {
    var r := LfOnto(bw, p);
    OccBefore(bw, r);
    assert bw[r] in first;
  }

  // ---------------------------------------------------------------------
  // Inverting the array

  /** The tables reverseBwt reads: the ranks and the row ranges. */
  method Tables(bw: seq<int>) returns (ranks: seq<int>, first: map<int, (int, int)>)
    ensures IsRanks(ranks, bw) && IsFirst(first, bw)
  {
    var tots;
    ranks, tots := RankBwt(bw);
    first := FirstCol(tots);
    forall v | v in first
      ensures first[v] == (CountLess(bw, v), CountLess(bw, v) + multiset(bw)[v])
    {
      SpanOfTally(tots, bw, v, first[v]);
    }
  }

  /** The walk's next row is the last-to-first mapping of the current one. */
  lemma NextRow(bw: seq<int>, ranks: seq<int>, first: map<int, (int, int)>, r: int)
    requires IsRanks(ranks, bw) && IsFirst(first, bw) && 0 <= r < |bw|
    ensures bw[r] in first && first[bw[r]].0 + ranks[r] == Lf(bw, r)
  {
    assert bw[r] in bw;
    assert first[bw[r]].0 == CountLess(bw, bw[r]);
    assert ranks[r] == multiset(bw[..r])[bw[r]];
  }

  /** rev holds the sentinel, then the entries of the first k rows the walk
      visited, none of which is the sentinel. */
  ghost predicate Trail(bw: seq<int>, rev: seq<int>, k: nat)
    requires |bw| > 0
  {
    |rev| == k + 1 && rev[0] == Sentinel && Avoids(bw, k) &&
    forall m :: 0 <= m < k ==> rev[m + 1] == bw[LfIter(bw, m)]
  }

  lemma TrailStep(bw: seq<int>, rev: seq<int>, k: nat)
    requires |bw| > 0 && Trail(bw, rev, k) && bw[LfIter(bw, k)] != Sentinel
    ensures Trail(bw, rev + [bw[LfIter(bw, k)]], k + 1)
  {
  }

  /** reverseBwt: from row 0, record each row's entry and move to the row
      given by the mapping, until the row of the sentinel; the record,
      reversed, ends in the sentinel. The walk ends within |bw| steps, and
      the result has length |bw| exactly when it visited every row. */
  method ReverseBwt(bw: seq<int>) returns (t: seq<int>)
    requires OneSentinel(bw)
    ensures 1 <= |t| <= |bw| && t[|t| - 1] == Sentinel
    ensures forall j :: 0 <= j < |t| - 1 ==> t[j] == bw[LfIter(bw, |t| - 2 - j)] && t[j] != Sentinel
    ensures bw[LfIter(bw, |t| - 1)] == Sentinel
    ensures |t| == |bw| <==> Complete(bw)
    ensures |t| == |bw| ==> multiset(t) == multiset(bw)
  {
    var ranks, first := Tables(bw);
    var rev, k := Walk(bw, ranks, first);
    t := Reverse(rev);
    ReversedTrail(bw, rev, k, t);
  }

  /** The loop of reverseBwt: the record of the walk up to the row of the
      sentinel, and (as a ghost) the number of steps it took. */
  method Walk(bw: seq<int>, ranks: seq<int>, first: map<int, (int, int)>)
    returns (rev: seq<int>, ghost k: nat)
    requires OneSentinel(bw) && IsRanks(ranks, bw) && IsFirst(first, bw)
    ensures k < |bw| && Trail(bw, rev, k) && bw[LfIter(bw, k)] == Sentinel
  {
    var rowi := 0;
    rev := [Sentinel];
    k := 0;
    while bw[rowi] != Sentinel
      invariant AtStep(bw, rowi, rev, k)
      decreases |bw| - k
    {
      rowi, rev := WalkOne(bw, ranks, first, rowi, rev, k);
      k := k + 1;
    }
  }

  /** After k steps the walk is on row rowi, with record rev. */
  ghost predicate AtStep(bw: seq<int>, rowi: int, rev: seq<int>, k: nat)
  {
    k < |bw| && rowi == LfIter(bw, k) && Trail(bw, rev, k)
  }

  /** The loop body of reverseBwt: record the entry of the current row and
      move to the row the mapping gives. */
  method WalkOne(bw: seq<int>, ranks: seq<int>, first: map<int, (int, int)>,
                 rowi: int, rev: seq<int>, ghost k: nat)
    returns (rowi': int, rev': seq<int>)
    requires OneSentinel(bw) && IsRanks(ranks, bw) && IsFirst(first, bw)
    requires AtStep(bw, rowi, rev, k) && bw[rowi] != Sentinel
    ensures AtStep(bw, rowi', rev', k + 1) && k + 1 < |bw|
  {
    var c := bw[rowi];
    TrailStep(bw, rev, k);
    rev' := rev + [c];
    OrbitBound(bw, k + 1);
    NextRow(bw, ranks, first, rowi);
    rowi' := first[c].0 + ranks[rowi];
  }

  /** The reversed record lists the visited entries from the last to the
      first, then the sentinel. */
  lemma ReversedTrail(bw: seq<int>, rev: seq<int>, k: nat, t: seq<int>)
    requires OneSentinel(bw) && |bw| > 0 && k < |bw| && Trail(bw, rev, k)
    requires bw[LfIter(bw, k)] == Sentinel && t == Reverse(rev)
    ensures 1 <= |t| <= |bw| && t[|t| - 1] == Sentinel
    ensures forall j :: 0 <= j < |t| - 1 ==> t[j] == bw[LfIter(bw, |t| - 2 - j)] && t[j] != Sentinel
    ensures bw[LfIter(bw, |t| - 1)] == Sentinel
    ensures |t| == |bw| <==> Complete(bw)
    ensures |t| == |bw| ==> multiset(t) == multiset(bw)
  {
    ReverseAt(rev, k);
    forall j | 0 <= j < |t| - 1
      ensures t[j] == bw[LfIter(bw, |t| - 2 - j)] && t[j] != Sentinel
    {
      ReverseAt(rev, j);
    }
    if k < |bw| - 1 {
      assert bw[LfIter(bw, k)] == Sentinel;
    } else {
      CompleteReading(bw, t);
    }
  }

  // ---------------------------------------------------------------------
  // A complete walk reads every entry once

  /** r lists the entries of s at the positions idx, in that order. */
  ghost predicate IsReading(r: seq<int>, s: seq<int>, idx: seq<int>)
  {
    |r| == |idx| && forall j :: 0 <= j < |idx| ==> 0 <= idx[j] < |s| && r[j] == s[idx[j]]
  }

  /** Reading every position of s once, in any order, gives a permutation
      of s. */
  lemma {:induction false} ReadingPermutes(r: seq<int>, s: seq<int>, idx: seq<int>)
    requires |idx| == |s| && DistinctInts(idx) && IsReading(r, s, idx)
    ensures multiset(r) == multiset(s)
  {
    var n := |s|;
    if n > 0 {
      var p := LastPosition(idx);
      var idx' := idx[..p] + idx[p + 1..];
      var r' := r[..p] + r[p + 1..];
      var s' := s[..n - 1];
      DropPosition(r, s, idx, p);
      ReadingPermutes(r', s', idx');
      assert r == r[..p] + [r[p]] + r[p + 1..];
      assert s == s' + [s[n - 1]];
    }
  }

  /** Dropping the position of the last entry from idx and from the
      reading leaves a reading of the other entries. */
  lemma DropPosition(r: seq<int>, s: seq<int>, idx: seq<int>, p: int)
    requires |idx| == |s| && DistinctInts(idx) && IsReading(r, s, idx)
    requires 0 <= p < |idx| && idx[p] == |s| - 1
    ensures DistinctInts(idx[..p] + idx[p + 1..])
    ensures IsReading(r[..p] + r[p + 1..], s[..|s| - 1], idx[..p] + idx[p + 1..])
  {
    var idx' := idx[..p] + idx[p + 1..];
    var r' := r[..p] + r[p + 1..];
    forall j | 0 <= j < |idx'|
      ensures idx'[j] == (if j < p then idx[j] else idx[j + 1])
      ensures r'[j] == (if j < p then r[j] else r[j + 1])
    {
    }
    forall j | 0 <= j < |idx'|
      ensures 0 <= idx'[j] < |s| - 1 && r'[j] == s[..|s| - 1][idx'[j]]
    {
      assert idx'[j] != |s| - 1;
    }
  }

  /** The position that idx, a listing of all positions 0 .. |idx|-1,
      gives to the last position. */
  lemma LastPosition(idx: seq<int>) returns (p: int)
    requires |idx| > 0 && DistinctInts(idx)
    requires forall j :: 0 <= j < |idx| ==> 0 <= idx[j] < |idx|
    ensures 0 <= p < |idx| && idx[p] == |idx| - 1
  {
    var n := |idx|;
    forall j | 0 <= j < n
      ensures idx[j] in Elems(Rows(n))
    {
      InRows(n, idx[j]);
    }
    DistinctCard(idx);
    RowsCard(n);
    SubsetCard(Elems(idx), Elems(Rows(n)));
    InRows(n, n - 1);
    p :| 0 <= p < n && idx[p] == n - 1;
  }

  /** Entry j of the reversed record comes from step StepOf(n, j) of the
      walk: the last entry, the sentinel, from step n - 1, the others from
      the steps before in reverse order. */
  function StepOf(n: nat, j: nat): (m: nat)
    requires j < n
    ensures m < n
  {
    if j < n - 1 then n - 2 - j else n - 1
  }

  /** For a complete walk, the rows behind the reversed record. */
  function Visited(bw: seq<int>): (idx: seq<int>)
    requires |bw| > 0
    ensures |idx| == |bw|
    ensures forall j :: 0 <= j < |bw| ==> idx[j] == LfIter(bw, StepOf(|bw|, j)) && 0 <= idx[j] < |bw|
  {
    seq(|bw|, j requires 0 <= j < |bw| => LfIter(bw, StepOf(|bw|, j)))
  }

  /** A complete walk visits no row twice. */
  lemma WalkRowsDistinct(bw: seq<int>, a: nat, b: nat)
    requires OneSentinel(bw) && Complete(bw) && a < b < |bw|
    ensures LfIter(bw, a) != LfIter(bw, b)
  {
    assert Avoids(bw, b);
    OrbitNoRepeat(bw, a, b);
  }

  lemma VisitedDistinct(bw: seq<int>)
    requires OneSentinel(bw) && Complete(bw)
    ensures DistinctInts(Visited(bw))
  {
    var n := |bw|;
    var idx := Visited(bw);
    forall i, j | 0 <= i < j < n
      ensures idx[i] != idx[j]
    {
      StepsDistinct(bw, i, j);
    }
  }

  lemma StepsDistinct(bw: seq<int>, i: nat, j: nat)
    requires OneSentinel(bw) && Complete(bw) && i < j < |bw|
    ensures LfIter(bw, StepOf(|bw|, i)) != LfIter(bw, StepOf(|bw|, j))
  {
    var a, b := StepOf(|bw|, i), StepOf(|bw|, j);
    if b < a {
      WalkRowsDistinct(bw, b, a);
    } else {
      WalkRowsDistinct(bw, a, b);
    }
  }


  /** When the walk is complete it visits every row once, so the reversed
      record holds each entry of bw once: the inverted array is a
      rearrangement of bw. */
  lemma CompleteReading(bw: seq<int>, t: seq<int>)
    requires OneSentinel(bw) && Complete(bw) && |t| == |bw|
    requires forall j :: 0 <= j < |t| - 1 ==> t[j] == bw[LfIter(bw, |t| - 2 - j)]
    requires t[|t| - 1] == bw[LfIter(bw, |t| - 1)]
    ensures multiset(t) == multiset(bw)
  {
    var idx := Visited(bw);
    VisitedDistinct(bw);
    ReadingPermutes(t, bw, idx);
  }

  // ---------------------------------------------------------------------
  // Sorting the entries (Collections.sort)

  predicate SortedInts(s: seq<int>)
  {
    forall i, j :: 0 <= i < j < |s| ==> s[i] <= s[j]
  }

  /** Inserts x before the first entry that is not below it. */
  function InsertInt(x: int, s: seq<int>): (r: seq<int>)
    ensures multiset(r) == multiset(s) + multiset{x}
  {
    if |s| == 0 then [x]
    else if s[0] < x then
      assert s == [s[0]] + s[1..];
      [s[0]] + InsertInt(x, s[1..])
    else [x] + s
  }

  /** The entries in non-decreasing order. */
  function SortInts(s: seq<int>): (r: seq<int>)
    ensures multiset(r) == multiset(s)
  {
    if |s| == 0 then []
    else
      assert s == [s[0]] + s[1..];
      InsertInt(s[0], SortInts(s[1..]))
  }

  lemma {:induction false} InsertIntSorted(x: int, s: seq<int>)
    requires SortedInts(s)
    ensures SortedInts(InsertInt(x, s))
  {
    if |s| > 0 && s[0] < x {
      InsertIntSorted(x, s[1..]);
      var tail := InsertInt(x, s[1..]);
      forall m | 0 <= m < |tail|
        ensures s[0] <= tail[m]
      {
        assert tail[m] in multiset(tail);
        if tail[m] != x {
          assert tail[m] in s[1..];
        }
      }
    }
  }

  /** The result of SortInts is sorted (and, by its contract, a
      permutation of its input). */
  lemma {:induction false} SortIntsSorted(s: seq<int>)
    ensures SortedInts(SortInts(s))
  {
    if |s| > 0 {
      SortIntsSorted(s[1..]);
      InsertIntSorted(s[0], SortInts(s[1..]));
    }
  }

  // ---------------------------------------------------------------------
  // Candidate values for the unknown entry

  /** No value of the range g is an entry of e. */
  ghost predicate Absent(e: seq<int>, g: (int, int))
  {
    forall v :: g.0 <= v <= g.1 ==> v !in e
  }

  /** Some range of gaps holds v. */
  ghost predicate Covered(gaps: seq<(int, int)>, v: int)
  {
    exists j :: 0 <= j < |gaps| && gaps[j].0 <= v <= gaps[j].1
  }

  /** No value lies in two of the ranges. */
  ghost predicate Disjoint(gaps: seq<(int, int)>)
  {
    forall i, j :: 0 <= i < j < |gaps| ==> gaps[i].1 < gaps[j].0 || gaps[j].1 < gaps[i].0
  }

  /** The values that can stand for the unknown entry, given the sorted
      entries e and the bound k: those above the second entry up to k or
      up to the largest entry. */
  ghost predicate Candidate(e: seq<int>, k: int, v: int)
    requires |e| >= 2
  {
    e[1] < v && (v <= k || v <= e[|e| - 1])
  }

  /** A well-formed range: non-empty, of candidates only, and either a
      single entry of e or a run of values that are not entries. */
  ghost predicate GapOk(e: seq<int>, k: int, g: (int, int))
    requires |e| >= 2
  {
    Candidate(e, k, g.0) && g.0 <= g.1 && Candidate(e, k, g.1) &&
    ((g.0 == g.1 && g.0 in e) || Absent(e, g))
  }

  /** The main program's ranges: from the sorted entries e, the values
      strictly between each two consecutive entries from the second on,
      the values above the largest entry up to k, and every distinct entry
      past the second as a range of its own. Every candidate lies in
      exactly one range. */
  method Gaps(e: seq<int>, k: int) returns (gaps: seq<(int, int)>)
    requires |e| >= 2 && SortedInts(e)
    ensures forall j :: 0 <= j < |gaps| ==> GapOk(e, k, gaps[j])
    ensures Disjoint(gaps)
    ensures forall v :: Candidate(e, k, v) ==> Covered(gaps, v)
  {
    gaps := [];
    for i := 1 to |e| - 1
      invariant Runs(e, k, i, gaps)
    {
      var f := e[i] + 1;
      var s := e[i + 1] - 1;
      ghost var gaps0 := gaps;
      if f <= s {
        gaps := gaps + [(f, s)];
      }
      RunStep(e, k, i, gaps0, gaps);
    }
    ghost var gaps1 := gaps;
    if k > e[|e| - 1] {
      gaps := gaps + [(e[|e| - 1] + 1, k)];
    }
    TopStep(e, k, gaps1, gaps);
    for i := 2 to |e|
      invariant Singles(e, k, i, gaps)
    {
      ghost var gaps0 := gaps;
      if e[i] != e[i - 1] {
        gaps := gaps + [(e[i], e[i])];
      }
      SingleStep(e, k, i, gaps0, gaps);
    }
    assert e[..|e|] == e;
  }

  /** After the runs between consecutive entries up to the i-th: every
      range is a run of non-entries below e[i], and every non-entry
      between the second entry and e[i] is covered. */
  ghost predicate Runs(e: seq<int>, k: int, i: int, gaps: seq<(int, int)>)
  {
    |e| >= 2 && SortedInts(e) && 1 <= i < |e| &&
    (forall j :: 0 <= j < |gaps| ==> GapOk(e, k, gaps[j]) && Absent(e, gaps[j]) && gaps[j].1 < e[i]) &&
    Disjoint(gaps) &&
    forall v :: e[1] < v < e[i] && v !in e ==> Covered(gaps, v)
  }

  /** After the single entries before position i: every range is a run of
      non-entries or ends at most at e[i-1], and every candidate that is
      not an entry, or is one before position i, is covered. */
  ghost predicate Singles(e: seq<int>, k: int, i: int, gaps: seq<(int, int)>)
  {
    |e| >= 2 && SortedInts(e) && 2 <= i <= |e| &&
    (forall j :: 0 <= j < |gaps| ==> GapOk(e, k, gaps[j]) && (Absent(e, gaps[j]) || gaps[j].1 <= e[i - 1])) &&
    Disjoint(gaps) &&
    forall v :: Candidate(e, k, v) && (v !in e || v in e[..i]) ==> Covered(gaps, v)
  }

  lemma CoveredSnoc(gaps: seq<(int, int)>, g: (int, int), v: int)
    requires Covered(gaps, v)
    ensures Covered(gaps + [g], v)
  {
    var j :| 0 <= j < |gaps| && gaps[j].0 <= v <= gaps[j].1;
    assert (gaps + [g])[j] == gaps[j];
  }

  lemma CoveredLast(gaps: seq<(int, int)>, g: (int, int), v: int)
    requires g.0 <= v <= g.1
    ensures Covered(gaps + [g], v)
  {
    assert (gaps + [g])[|gaps|] == g;
  }

  /** Appending a range that lies after all others keeps them disjoint. */
  lemma DisjointSnoc(gaps: seq<(int, int)>, g: (int, int))
    requires Disjoint(gaps)
    requires forall j :: 0 <= j < |gaps| ==> gaps[j].1 < g.0 || g.1 < gaps[j].0
    ensures Disjoint(gaps + [g])
  {
  }

  /** The entries of a sorted sequence between two consecutive entries. */
  lemma BetweenAbsent(e: seq<int>, i: int, v: int)
    requires SortedInts(e) && 0 <= i < |e| - 1 && e[i] < v < e[i + 1]
    ensures v !in e
  {
    forall j | 0 <= j < |e|
      ensures e[j] != v
    {
      if j <= i {
        assert e[j] <= e[i];
      } else {
        assert e[i + 1] <= e[j];
      }
    }
  }

  lemma RunStep(e: seq<int>, k: int, i: int, gaps: seq<(int, int)>, gaps': seq<(int, int)>)
    requires Runs(e, k, i, gaps) && i < |e| - 1
    requires gaps' == if e[i] + 1 <= e[i + 1] - 1 then gaps + [(e[i] + 1, e[i + 1] - 1)] else gaps
    ensures Runs(e, k, i + 1, gaps')
  {
    RunRanges(e, k, i, gaps, gaps');
    RunCovered(e, k, i, gaps, gaps');
  }

  lemma RunRanges(e: seq<int>, k: int, i: int, gaps: seq<(int, int)>, gaps': seq<(int, int)>)
    requires Runs(e, k, i, gaps) && i < |e| - 1
    requires gaps' == if e[i] + 1 <= e[i + 1] - 1 then gaps + [(e[i] + 1, e[i + 1] - 1)] else gaps
    ensures forall j :: 0 <= j < |gaps'| ==> GapOk(e, k, gaps'[j]) && Absent(e, gaps'[j]) && gaps'[j].1 < e[i + 1]
    ensures Disjoint(gaps')
  {
    if gaps' != gaps {
      var g := (e[i] + 1, e[i + 1] - 1);
      assert e[i] <= e[i + 1] <= e[|e| - 1];
      assert e[1] <= e[i];
      forall v | g.0 <= v <= g.1
        ensures v !in e
      {
        BetweenAbsent(e, i, v);
      }
      DisjointSnoc(gaps, g);
    }
  }

  lemma RunCovered(e: seq<int>, k: int, i: int, gaps: seq<(int, int)>, gaps': seq<(int, int)>)
    requires Runs(e, k, i, gaps) && i < |e| - 1
    requires gaps' == if e[i] + 1 <= e[i + 1] - 1 then gaps + [(e[i] + 1, e[i + 1] - 1)] else gaps
    ensures forall v :: e[1] < v < e[i + 1] && v !in e ==> Covered(gaps', v)
  {
    var g := (e[i] + 1, e[i + 1] - 1);
    forall v | e[1] < v < e[i + 1] && v !in e
      ensures Covered(gaps', v)
    {
      if v < e[i] {
        if gaps' != gaps {
          CoveredSnoc(gaps, g, v);
        }
      } else if v != e[i] {
        CoveredLast(gaps, g, v);
      }
    }
  }

  /** Past the runs, the values above the largest entry up to k. */
  lemma TopStep(e: seq<int>, k: int, gaps: seq<(int, int)>, gaps': seq<(int, int)>)
    requires Runs(e, k, |e| - 1, gaps)
    requires gaps' == if k > e[|e| - 1] then gaps + [(e[|e| - 1] + 1, k)] else gaps
    ensures Singles(e, k, 2, gaps')
  {
    TopRanges(e, k, gaps, gaps');
    TopCovered(e, k, gaps, gaps');
  }

  lemma TopRanges(e: seq<int>, k: int, gaps: seq<(int, int)>, gaps': seq<(int, int)>)
    requires Runs(e, k, |e| - 1, gaps)
    requires gaps' == if k > e[|e| - 1] then gaps + [(e[|e| - 1] + 1, k)] else gaps
    ensures forall j :: 0 <= j < |gaps'| ==> GapOk(e, k, gaps'[j]) && Absent(e, gaps'[j])
    ensures Disjoint(gaps')
  {
    var top := e[|e| - 1];
    if gaps' != gaps {
      var g := (top + 1, k);
      assert e[1] <= top;
      forall v | top < v
        ensures v !in e
      {
        AboveLast(e, v);
      }
      DisjointSnoc(gaps, g);
    }
  }

  lemma TopCovered(e: seq<int>, k: int, gaps: seq<(int, int)>, gaps': seq<(int, int)>)
    requires Runs(e, k, |e| - 1, gaps)
    requires gaps' == if k > e[|e| - 1] then gaps + [(e[|e| - 1] + 1, k)] else gaps
    ensures forall v :: Candidate(e, k, v) && (v !in e || v in e[..2]) ==> Covered(gaps', v)
  {
    var top := e[|e| - 1];
    var g := (top + 1, k);
    forall v | v in e[..2]
      ensures v <= e[1]
    {
    }
    forall v | Candidate(e, k, v) && v !in e
      ensures Covered(gaps', v)
    {
      if v < top {
        if gaps' != gaps {
          CoveredSnoc(gaps, g, v);
        }
      } else {
        CoveredLast(gaps, g, v);
      }
    }
  }

  /** A value above the last entry of a sorted sequence is not an entry. */
  lemma AboveLast(e: seq<int>, v: int)
    requires SortedInts(e) && |e| > 0 && e[|e| - 1] < v
    ensures v !in e
  {
    forall j | 0 <= j < |e|
      ensures e[j] != v
    {
      assert e[j] <= e[|e| - 1];
    }
  }

  /** The entry at position i, unless it repeats the one before. */
  lemma SingleStep(e: seq<int>, k: int, i: int, gaps: seq<(int, int)>, gaps': seq<(int, int)>)
    requires Singles(e, k, i, gaps) && i < |e|
    requires gaps' == if e[i] != e[i - 1] then gaps + [(e[i], e[i])] else gaps
    ensures Singles(e, k, i + 1, gaps')
  {
    SingleRanges(e, k, i, gaps, gaps');
    SingleCovered(e, k, i, gaps, gaps');
  }

  lemma SingleRanges(e: seq<int>, k: int, i: int, gaps: seq<(int, int)>, gaps': seq<(int, int)>)
    requires Singles(e, k, i, gaps) && i < |e|
    requires gaps' == if e[i] != e[i - 1] then gaps + [(e[i], e[i])] else gaps
    ensures forall j :: 0 <= j < |gaps'| ==> GapOk(e, k, gaps'[j]) && (Absent(e, gaps'[j]) || gaps'[j].1 <= e[i])
    ensures Disjoint(gaps')
  {
    assert e[i] in e && e[i - 1] <= e[i] <= e[|e| - 1] && e[1] <= e[i - 1];
    if gaps' != gaps {
      DisjointSnoc(gaps, (e[i], e[i]));
    }
  }

  lemma SingleCovered(e: seq<int>, k: int, i: int, gaps: seq<(int, int)>, gaps': seq<(int, int)>)
    requires Singles(e, k, i, gaps) && i < |e|
    requires gaps' == if e[i] != e[i - 1] then gaps + [(e[i], e[i])] else gaps
    ensures forall v :: Candidate(e, k, v) && (v !in e || v in e[..i + 1]) ==> Covered(gaps', v)
  {
    assert e[..i + 1] == e[..i] + [e[i]];
    if e[i] == e[i - 1] {
      assert e[..i][i - 1] == e[i];
    } else {
      var g := (e[i], e[i]);
      forall v | Candidate(e, k, v) && (v !in e || v in e[..i + 1])
        ensures Covered(gaps', v)
      {
        if v !in e || v in e[..i] {
          CoveredSnoc(gaps, g, v);
        } else {
          CoveredLast(gaps, g, v);
        }
      }
    }
  }

  // ---------------------------------------------------------------------
  // The main program

  /** arr.indexOf(v): the first position holding v, or -1 when there is
      none. */
  method IndexOf(arr: seq<int>, v: int) returns (p: int)
    ensures -1 <= p < |arr|
    ensures p >= 0 ==> arr[p] == v && v !in arr[..p]
    ensures p < 0 ==> v !in arr
  {
    p := 0;
    while p < |arr| && arr[p] != v
      invariant 0 <= p <= |arr| && v !in arr[..p]
    {
      assert arr[..p + 1] == arr[..p] + [arr[p]];
      p := p + 1;
    }
    if p == |arr| {
      assert arr[..p] == arr;
      p := -1;
    }
  }

  /** What a range contributes to the answer: its size when its first
      value, put in place of the unknown entry, makes a complete walk. */
  ghost function Score(arr: seq<int>, zero: int, g: (int, int)): int
    requires 0 <= zero < |arr|
  {
    if Complete(arr[zero := g.0]) then g.1 - g.0 + 1 else 0
  }

  /** The total contribution of the ranges. */
  ghost function Accepted(arr: seq<int>, zero: int, gaps: seq<(int, int)>): int
    requires 0 <= zero < |arr|
  {
    if |gaps| == 0 then 0
    else Accepted(arr, zero, gaps[..|gaps| - 1]) + Score(arr, zero, gaps[|gaps| - 1])
  }

  /** Putting a value above the sentinel in place of an entry that is not
      the sentinel keeps a single, least sentinel. */
  lemma SetKeepsOneSentinel(arr: seq<int>, zero: int, x: int)
    requires OneSentinel(arr) && 0 <= zero < |arr| && arr[zero] != Sentinel && x > Sentinel
    ensures OneSentinel(arr[zero := x])
  {
    assert multiset(arr[zero := x]) == multiset(arr) - multiset{arr[zero]} + multiset{x};
  }

  /** The loop over the ranges: each range's first value replaces the
      unknown entry, and the range counts in full when the inverted array
      has every entry. */
  method CountValid(arr: seq<int>, zero: int, gaps: seq<(int, int)>) returns (ans: int)
    requires OneSentinel(arr) && 0 <= zero < |arr| && arr[zero] != Sentinel
    requires forall j :: 0 <= j < |gaps| ==> gaps[j].0 > Sentinel
    ensures ans == Accepted(arr, zero, gaps)
  {
    ans := 0;
    for j := 0 to |gaps|
      invariant ans == Accepted(arr, zero, gaps[..j])
    {
      var item := gaps[j];
      var bw := arr[zero := item.0];
      SetKeepsOneSentinel(arr, zero, item.0);
      var original := ReverseBwt(bw);
      if |original| == |bw| {
        ans := ans + (item.1 - item.0 + 1);
      }
      assert gaps[..j + 1][..j] == gaps[..j];
    }
    assert gaps[..|gaps|] == gaps;
  }

  /** In the sorted entries of an array with a single, least sentinel, the
      second entry is above the sentinel. */
  lemma SecondAboveSentinel(arr: seq<int>, e: seq<int>)
    requires OneSentinel(arr) && multiset(e) == multiset(arr) && SortedInts(e) && |e| >= 2
    ensures e[1] > Sentinel
  {
    assert e[0] in multiset(arr) && e[1] in multiset(arr);
    assert e == [e[0], e[1]] + e[2..];
    assert multiset(e) == multiset{e[0], e[1]} + multiset(e[2..]);
  }

  // ---------------------------------------------------------------------
  // Why a range counts by its first value

  /** b1 and b2 order their positions alike and hold the sentinel at the
      same positions. */
  ghost predicate SameOrder(b1: seq<int>, b2: seq<int>)
  {
    |b1| == |b2| &&
    (forall i, j :: 0 <= i < |b1| && 0 <= j < |b1| ==> (b1[i] < b1[j] <==> b2[i] < b2[j])) &&
    forall i :: 0 <= i < |b1| ==> (b1[i] == Sentinel <==> b2[i] == Sentinel)
  }

  lemma {:induction false} CountLessSame(b1: seq<int>, b2: seq<int>, n: nat, r: int)
    requires SameOrder(b1, b2) && n <= |b1| && 0 <= r < |b1|
    ensures CountLess(b1[..n], b1[r]) == CountLess(b2[..n], b2[r])
  {
    if n > 0 {
      CountLessSame(b1, b2, n - 1, r);
      assert b1[..n][..n - 1] == b1[..n - 1];
      assert b2[..n][..n - 1] == b2[..n - 1];
    }
  }

  lemma {:induction false} OccSame(b1: seq<int>, b2: seq<int>, n: nat, r: int)
    requires SameOrder(b1, b2) && n <= |b1| && 0 <= r < |b1|
    ensures multiset(b1[..n])[b1[r]] == multiset(b2[..n])[b2[r]]
  {
    if n > 0 {
      OccSame(b1, b2, n - 1, r);
      assert b1[..n] == b1[..n - 1] + [b1[n - 1]];
      assert b2[..n] == b2[..n - 1] + [b2[n - 1]];
      assert b1[n - 1] == b1[r] <==> b2[n - 1] == b2[r];
    }
  }

  /** Arrays ordered alike have the same last-to-first mapping. */
  lemma LfSame(b1: seq<int>, b2: seq<int>, r: int)
    requires SameOrder(b1, b2) && 0 <= r < |b1|
    ensures Lf(b1, r) == Lf(b2, r)
  {
    CountLessSame(b1, b2, |b1|, r);
    OccSame(b1, b2, r, r);
    assert b1[..|b1|] == b1 && b2[..|b2|] == b2;
  }

  lemma {:induction false} LfIterSame(b1: seq<int>, b2: seq<int>, k: nat)
    requires |b1| == |b2| > 0
    requires forall r :: 0 <= r < |b1| ==> Lf(b1, r) == Lf(b2, r)
    ensures LfIter(b1, k) == LfIter(b2, k)
  {
    if k > 0 {
      LfIterSame(b1, b2, k - 1);
    }
  }

  /** Arrays ordered alike walk the same rows, so both or neither invert
      completely. */
  lemma CompleteSame(b1: seq<int>, b2: seq<int>)
    requires SameOrder(b1, b2)
    ensures Complete(b1) <==> Complete(b2)
  {
    if |b1| > 0 {
      forall r | 0 <= r < |b1|
        ensures Lf(b1, r) == Lf(b2, r)
      {
        LfSame(b1, b2, r);
      }
      forall m | 0 <= m < |b1| - 1
        ensures b1[LfIter(b1, m)] == Sentinel <==> b2[LfIter(b2, m)] == Sentinel
      {
        LfIterSame(b1, b2, m);
      }
    }
  }

  /** With the sentinel once and least and the unknown entry 0, the second
      sorted entry is 0: every candidate is positive. */
  lemma SecondIsZero(arr: seq<int>, e: seq<int>)
    requires OneSentinel(arr) && 0 in arr && multiset(e) == multiset(arr) && SortedInts(e) && |e| >= 2
    ensures e[1] == 0
  {
    SecondAboveSentinel(arr, e);
    assert 0 in multiset(e);
    var i :| 0 <= i < |e| && e[i] == 0;
    assert Sentinel in multiset(e);
    var q :| 0 <= q < |e| && e[q] == Sentinel;
  }

  /** Putting v in place of the unknown entry makes the array invert
      completely. */
  ghost predicate Inverts(arr: seq<int>, zero: int, v: int)
    requires 0 <= zero < |arr|
  {
    Complete(arr[zero := v])
  }

  /** The source's reason for counting a range whole: every value of a
      range inverts exactly when its first value does. A single-entry range
      has one value; a run of non-entries holds no value of the other
      entries, so any value of it orders the array the same way. */
  lemma GapUniform(arr: seq<int>, e: seq<int>, k: int, zero: int, g: (int, int), v: int)
    requires OneSentinel(arr) && multiset(e) == multiset(arr) && SortedInts(e) && |e| >= 2
    requires 0 <= zero < |arr| && arr[zero] in e
    requires GapOk(e, k, g) && g.0 <= v <= g.1
    ensures Inverts(arr, zero, v) <==> Inverts(arr, zero, g.0)
  {
    if v != g.0 {
      SecondAboveSentinel(arr, e);
      var b1, b2 := arr[zero := v], arr[zero := g.0];
      forall j | 0 <= j < |arr|
        ensures arr[j] < g.0 || g.1 < arr[j]
      {
        assert arr[j] in multiset(arr);
        assert arr[j] in e;
      }
      assert SameOrder(b1, b2);
      CompleteSame(b1, b2);
    }
  }

  /** The integers from a to b. */
  function Interval(a: int, b: int): (r: set<int>)
    ensures forall x :: x in r <==> a <= x <= b
    ensures a <= b + 1 ==> |r| == b - a + 1
    decreases b - a
  {
    if a > b then {} else Interval(a, b - 1) + {b}
  }

  /** The values of range g that invert completely. */
  ghost function Hits(arr: seq<int>, zero: int, g: (int, int)): set<int>
    requires 0 <= zero < |arr|
  {
    set v | v in Interval(g.0, g.1) && Inverts(arr, zero, v)
  }

  /** The values of all ranges that invert completely. */
  ghost function AllHits(arr: seq<int>, zero: int, gaps: seq<(int, int)>): set<int>
    requires 0 <= zero < |arr|
  {
    if |gaps| == 0 then {}
    else AllHits(arr, zero, gaps[..|gaps| - 1]) + Hits(arr, zero, gaps[|gaps| - 1])
  }

  /** A well-formed range scores exactly its values that invert. */
  lemma ScoreIsHits(arr: seq<int>, e: seq<int>, k: int, zero: int, g: (int, int))
    requires OneSentinel(arr) && multiset(e) == multiset(arr) && SortedInts(e) && |e| >= 2
    requires 0 <= zero < |arr| && arr[zero] in e && GapOk(e, k, g)
    ensures |Hits(arr, zero, g)| == Score(arr, zero, g)
  {
    forall v | g.0 <= v <= g.1
      ensures Inverts(arr, zero, v) <==> Inverts(arr, zero, g.0)
    {
      GapUniform(arr, e, k, zero, g, v);
    }
    if Inverts(arr, zero, g.0) {
      assert Hits(arr, zero, g) == Interval(g.0, g.1);
    } else {
      assert Hits(arr, zero, g) == {};
    }
  }

  /** Every value of AllHits lies in one of the ranges. */
  lemma {:induction false} AllHitsCovered(arr: seq<int>, zero: int, gaps: seq<(int, int)>, v: int)
    requires 0 <= zero < |arr|
    ensures v in AllHits(arr, zero, gaps) <==> Covered(gaps, v) && Inverts(arr, zero, v)
  {
    if |gaps| > 0 {
      var init, g := gaps[..|gaps| - 1], gaps[|gaps| - 1];
      AllHitsCovered(arr, zero, init, v);
      assert init + [g] == gaps;
      if Covered(gaps, v) && !(g.0 <= v <= g.1) {
        var j :| 0 <= j < |gaps| && gaps[j].0 <= v <= gaps[j].1;
        assert init[j] == gaps[j];
      }
      if Covered(init, v) {
        CoveredSnoc(init, g, v);
      }
      if g.0 <= v <= g.1 {
        CoveredLast(init, g, v);
      }
    }
  }

  /** The last range shares no value with the earlier ones. */
  lemma HitsApart(arr: seq<int>, zero: int, gaps: seq<(int, int)>)
    requires 0 <= zero < |arr| && |gaps| > 0 && Disjoint(gaps)
    ensures AllHits(arr, zero, gaps[..|gaps| - 1]) * Hits(arr, zero, gaps[|gaps| - 1]) == {}
  {
    var init, g := gaps[..|gaps| - 1], gaps[|gaps| - 1];
    forall v | v in AllHits(arr, zero, init)
      ensures v !in Hits(arr, zero, g)
    {
      AllHitsCovered(arr, zero, init, v);
      var j :| 0 <= j < |init| && init[j].0 <= v <= init[j].1;
      assert init[j] == gaps[j];
      assert gaps[j].1 < g.0 || g.1 < gaps[j].0;
    }
  }

  /** The answer of the ranges is the number of values in them that
      invert, since no value lies in two ranges. */
  lemma {:induction false} AcceptedIsHits(arr: seq<int>, e: seq<int>, k: int, zero: int, gaps: seq<(int, int)>)
    requires OneSentinel(arr) && multiset(e) == multiset(arr) && SortedInts(e) && |e| >= 2
    requires 0 <= zero < |arr| && arr[zero] in e
    requires forall j :: 0 <= j < |gaps| ==> GapOk(e, k, gaps[j])
    requires Disjoint(gaps)
    ensures Accepted(arr, zero, gaps) == |AllHits(arr, zero, gaps)|
  {
    if |gaps| > 0 {
      var init, g := gaps[..|gaps| - 1], gaps[|gaps| - 1];
      assert forall j :: 0 <= j < |init| ==> init[j] == gaps[j];
      assert Disjoint(init);
      AcceptedIsHits(arr, e, k, zero, init);
      ScoreIsHits(arr, e, k, zero, g);
      HitsApart(arr, zero, gaps);
    }
  }

  /** The largest candidate: k, or the largest entry when that is above k. */
  function Top(e: seq<int>, k: int): int
    requires |e| > 0
  {
    if k > e[|e| - 1] then k else e[|e| - 1]
  }

  /** The ranges hold exactly the positive values up to Top. The coverage
      fact is instantiated only on the range membership asked about. */
  lemma CoveredIsCandidate(e: seq<int>, k: int, gaps: seq<(int, int)>, v: int)
    requires |e| >= 2 && e[1] == 0
    requires forall j :: 0 <= j < |gaps| ==> GapOk(e, k, gaps[j])
    requires forall x {:trigger Covered(gaps, x)} :: Candidate(e, k, x) ==> Covered(gaps, x)
    ensures Covered(gaps, v) <==> 0 < v <= Top(e, k)
  {
    if Covered(gaps, v) {
      var j :| 0 <= j < |gaps| && gaps[j].0 <= v <= gaps[j].1;
      assert GapOk(e, k, gaps[j]);
    }
  }

  /** The ranges' values that invert are the candidates that invert. */
  lemma HitsAreCandidates(arr: seq<int>, e: seq<int>, k: int, zero: int, gaps: seq<(int, int)>)
    requires OneSentinel(arr) && 0 in arr && multiset(e) == multiset(arr) && SortedInts(e) && |e| >= 2
    requires 0 <= zero < |arr| && arr[zero] == 0
    requires forall j :: 0 <= j < |gaps| ==> GapOk(e, k, gaps[j])
    requires Disjoint(gaps)
    requires forall x {:trigger Covered(gaps, x)} :: Candidate(e, k, x) ==> Covered(gaps, x)
    ensures Accepted(arr, zero, gaps) == |set v | 0 < v <= Top(e, k) && Inverts(arr, zero, v)|
  {
    SecondIsZero(arr, e);
    assert arr[zero] in multiset(arr);
    AcceptedIsHits(arr, e, k, zero, gaps);
    var accepted := set v | 0 < v <= Top(e, k) && Inverts(arr, zero, v);
    forall v
      ensures v in AllHits(arr, zero, gaps) <==> v in accepted
    {
      AllHitsCovered(arr, zero, gaps, v);
      CoveredIsCandidate(e, k, gaps, v);
    }
    assert AllHits(arr, zero, gaps) == accepted;
  }

  /** The position indexOf(0) finds: the first entry 0. */
  function FirstZero(arr: seq<int>): (z: int)
    requires 0 in arr
    ensures 0 <= z < |arr| && arr[z] == 0 && 0 !in arr[..z]
  {
    if arr[0] == 0 then 0
    else
      var z := 1 + FirstZero(arr[1..]);
      assert arr[..z] == [arr[0]] + arr[1..][..z - 1];
      z
  }

  /** The largest entry. */
  function Largest(arr: seq<int>): (m: int)
    requires |arr| > 0
    ensures m in arr && forall i :: 0 <= i < |arr| ==> arr[i] <= m
  {
    if |arr| == 1 then arr[0]
    else
      var m := Largest(arr[1..]);
      assert forall i :: 1 <= i < |arr| ==> arr[i] == arr[1..][i - 1];
      if arr[0] > m then arr[0] else m
  }

  /** The last of a sorted permutation of arr is arr's largest entry, and
      indexOf finds the only first 0. */
  lemma TopIsLargest(arr: seq<int>, e: seq<int>, k: int, zero: int)
    requires 0 in arr && multiset(e) == multiset(arr) && SortedInts(e) && |e| > 0
    requires 0 <= zero < |arr| && arr[zero] == 0 && 0 !in arr[..zero]
    ensures Top(e, k) == (if k > Largest(arr) then k else Largest(arr))
    ensures zero == FirstZero(arr)
  {
    var m := Largest(arr);
    assert e[|e| - 1] in multiset(arr);
    assert m in multiset(e);
    FirstZeroOnly(arr, zero);
  }

  lemma FirstZeroOnly(arr: seq<int>, zero: int)
    requires 0 <= zero < |arr| && arr[zero] == 0 && 0 !in arr[..zero]
    ensures zero == FirstZero(arr)
  {
    var z := FirstZero(arr);
    assert forall i :: 0 <= i < z ==> arr[i] == arr[..z][i];
    assert forall i :: 0 <= i < zero ==> arr[i] == arr[..zero][i];
  }

  /** The main program without its input and output: sort the entries,
      list the candidate ranges, find the unknown entry, and total the
      ranges that invert completely. */
  method Solve(arr: seq<int>, k: int) returns (ans: int, ghost e: seq<int>, ghost gaps: seq<(int, int)>, ghost zero: int)
    requires OneSentinel(arr) && 0 in arr
    ensures multiset(e) == multiset(arr) && SortedInts(e) && |e| >= 2
    ensures forall j :: 0 <= j < |gaps| ==> GapOk(e, k, gaps[j])
    ensures Disjoint(gaps)
    ensures forall v :: Candidate(e, k, v) ==> Covered(gaps, v)
    ensures 0 <= zero < |arr| && arr[zero] == 0 && 0 !in arr[..zero]
    ensures ans == Accepted(arr, zero, gaps)
    ensures ans == |set v | 0 < v <= Top(e, k) && Inverts(arr, zero, v)|
    ensures ans == |set v | 0 < v <= (if k > Largest(arr) then k else Largest(arr)) && Inverts(arr, FirstZero(arr), v)|
  {
    var elements := SortInts(arr);
    SortIntsSorted(arr);
    e := elements;
    var z := IndexOf(arr, 0);
    zero := z;
    var q := SentinelRow(arr);
    assert |arr| >= 2 by {
      assert q != z;
    }
    assert |elements| == |arr| by {
      assert |multiset(elements)| == |multiset(arr)|;
    }
    var candidates := Gaps(elements, k);
    gaps := candidates;
    SecondAboveSentinel(arr, elements);
    ans := CountValid(arr, z, candidates);
    HitsAreCandidates(arr, e, k, zero, gaps);
    TopIsLargest(arr, e, k, zero);
  }
}
