// The range-GCD challenge of
// projects/05-segmentTreeRangeUpdates/programmingChallenge/solutions/Solution.java:
// an array under range additions and range-GCD queries, kept as a
// SegTreeAdditionAndGet over the array and a SegTreeGCD over its difference
// array. The GCD tree's nodes are SegTrees.Node values whose mark and
// pending addition stay unused.
module RangeGcd {
  import opened Outcomes
  import opened Ranges
  import opened Arith
  import opened Gcds
  import opened SegTrees

  // =====================================================================
  // SegTreeGCD

  /** Every inner node holds gcdHelper of its children's values. */
  predicate GcdValid(n: Node)
  {
    match n
    case Leaf(_, _, _, _, _) => true
    case Inner(_, _, val, _, _, lc, rc) => val == GcdHelper(lc.val, rc.val) && GcdValid(lc) && GcdValid(rc)
  }

  /** A node's value is, up to its sign, the gcd of its range. */
  lemma {:induction false} GcdValidIsGcd(n: Node)
    requires Shaped(n) && GcdValid(n)
    ensures Abs(n.val) == GcdOf(Elements(n))
  {
    match n
    case Leaf(_, _, val, _, _) =>
      GcdOfSingleton(val);
    case Inner(_, _, _, _, _, lc, rc) =>
      GcdValidIsGcd(lc);
      GcdValidIsGcd(rc);
      GcdHelperIsGcd(lc.val, rc.val);
      GcdSymmetric(lc.val, rc.val);
      GcdOfConcat(Elements(lc), Elements(rc));
  }

  /** build (SegTreeGCD): the tree over a[l..r]. */
  function BuildGcd(a: seq<int>, l: int, r: int): (n: Node)
    requires 0 <= l <= r < |a|
    ensures n.l == l && n.r == r && Shaped(n) && GcdValid(n)
    ensures Elements(n) == a[l..r + 1]
    decreases r - l
  {
    if l == r then Leaf(l, r, a[l], false, 0)
    else
      var mid := (l + r) / 2;
      var lc := BuildGcd(a, l, mid);
      var rc := BuildGcd(a, mid + 1, r);
      SliceSplit(a, l, mid, r);
      Inner(l, r, GcdHelper(lc.val, rc.val), false, 0, lc, rc)
  }

  /** query (SegTreeGCD): 0 for an empty range, the node's value for its
      exact range, and otherwise gcdHelper of the children's answers for
      the range clipped to each child. The range must lie in the node's. */
  function QueryGcd(n: Node, l: int, r: int): int
    requires Shaped(n) && (l > r || n.l <= l <= r <= n.r)
    decreases n
  {
    if l > r then 0
    else if n.l == l && n.r == r then n.val
    else
      var lc, rc := n.lChild, n.rChild;
      GcdHelper(QueryGcd(lc, l, if r < lc.r then r else lc.r), QueryGcd(rc, if l > rc.l then l else rc.l, r))
  }

  /** query answers, up to its sign, the gcd of the values at positions
      l..r (0 for an empty range). */
  lemma {:induction false} QueryGcdIsGcd(n: Node, l: int, r: int)
    requires Shaped(n) && GcdValid(n) && (l > r || n.l <= l <= r <= n.r)
    ensures Abs(QueryGcd(n, l, r)) == GcdOf(Within(Elements(n), n.l, l, r))
    decreases n
  {
    if l > r {
      WithinEmptyRange(Elements(n), n.l, l, r);
    } else if n.l == l && n.r == r {
      WithinAll(Elements(n), n.l, l, r);
      GcdValidIsGcd(n);
    } else {
      var lc, rc := n.lChild, n.rChild;
      var a, b := Elements(lc), Elements(rc);
      var r1 := if r < lc.r then r else lc.r;
      var l2 := if l > rc.l then l else rc.l;
      var x, y := QueryGcd(lc, l, r1), QueryGcd(rc, l2, r);
      assert QueryGcd(n, l, r) == GcdHelper(x, y);
      assert Elements(n) == a + b;
      GcdHelperIsGcd(x, y);
      GcdSymmetric(x, y);
      WithinConcat(a, b, n.l, rc.l, l, r);
      GcdOfConcat(Within(a, n.l, l, r), Within(b, rc.l, l, r));
      WithinClipRight(a, lc.l, lc.r, l, r, r1);
      WithinClipLeft(b, rc.l, l, r, l2);
      QueryGcdIsGcd(lc, l, r1);
      QueryGcdIsGcd(rc, l2, r);
    }
  }

  /** update (SegTreeGCD): nothing for a position outside 0..length - 1;
      otherwise the leaf reached by walking towards pos gets add added and
      the values on its path are recomputed. */
  function UpdateGcd(n: Node, length: int, pos: int, add: int): (m: Node)
    requires Shaped(n)
    ensures m.l == n.l && m.r == n.r && Shaped(m)
    ensures GcdValid(n) ==> GcdValid(m)
  {
    if pos < 0 || pos >= length then n
    else if n.l == n.r then Leaf(n.l, n.r, n.val + add, n.marked, n.lazy)
    else
      var lc, rc := n.lChild, n.rChild;
      if pos <= lc.r then
        var lc' := UpdateGcd(lc, length, pos, add);
        WithChildren(n, GcdHelper(lc'.val, rc.val), lc', rc)
      else
        var rc' := UpdateGcd(rc, length, pos, add);
        WithChildren(n, GcdHelper(lc.val, rc'.val), lc, rc')
  }

  /** One step of update at an inner node, seen through the elements. */
  lemma UpdateGcdStep(n: Node, length: int, pos: int, add: int)
    requires Shaped(n) && n.Inner? && 0 <= pos < length
    ensures Elements(UpdateGcd(n, length, pos, add)) ==
      if pos <= n.lChild.r then Elements(UpdateGcd(n.lChild, length, pos, add)) + Elements(n.rChild)
      else Elements(n.lChild) + Elements(UpdateGcd(n.rChild, length, pos, add))
  {
  }

  /** For a position in 0..length - 1, update adds add to the value at the
      position nearest to pos, and changes no other. */
  lemma UpdateGcdElements(n: Node, length: int, pos: int, add: int)
    requires Shaped(n) && 0 <= pos < length
    ensures
      var e, k := Elements(n), Clamp(pos, n.l, n.r) - n.l;
      Elements(UpdateGcd(n, length, pos, add)) == e[k := e[k] + add]
  {
    var e, k := Elements(n), Clamp(pos, n.l, n.r) - n.l;
    UpdateGcdSets(n, length, pos, add, k, e[k] + add);
  }

  /** The leaf update seen from the node: position k gets v. */
  lemma {:induction false} UpdateGcdSets(n: Node, length: int, pos: int, add: int, k: int, v: int)
    requires Shaped(n) && 0 <= pos < length
    requires k == Clamp(pos, n.l, n.r) - n.l && v == Elements(n)[k] + add
    ensures Elements(UpdateGcd(n, length, pos, add)) == Elements(n)[k := v]
  {
    if n.Inner? {
      var lc, rc := n.lChild, n.rChild;
      var a, b := Elements(lc), Elements(rc);
      var e := Elements(n);
      assert e == a + b;
      if pos <= lc.r {
        assert k == Clamp(pos, lc.l, lc.r) - lc.l && v == a[k] + add by {
          ChildPosition(n, pos);
          assert a[k] == e[k];
        }
        UpdateGcdSets(lc, length, pos, add, k, v);
        UpdateGcdStep(n, length, pos, add);
        UpdateLeft(e, a, b, Elements(UpdateGcd(lc, length, pos, add)), k, v);
      } else {
        var j := Clamp(pos, rc.l, rc.r) - rc.l;
        assert k == |a| + j && v == b[j] + add by {
          ChildPosition(n, pos);
          assert b[j] == e[|a| + j];
        }
        UpdateGcdSets(rc, length, pos, add, j, v);
        UpdateGcdStep(n, length, pos, add);
        UpdateRight(e, a, b, Elements(UpdateGcd(rc, length, pos, add)), |a|, j, k, v);
      }
    }
  }

  class SegTreeGCD {
    /** None for an empty array, where the source leaves root null. */
    var root: Option<Node>
    var length: int

    ghost predicate Valid()
      reads this
    {
      match root
      case None => length == 0
      case Some(n) => Shaped(n) && GcdValid(n) && n.l == 0 && n.r == length - 1
    }

    ghost function Contents(): (c: seq<int>)
      reads this
      ensures Valid() ==> |c| == length
    {
      match root
      case None => []
      case Some(n) => Elements(n)
    }

    /** The tree over a; an empty array gives no root and length 0. */
    constructor (a: seq<int>)
      ensures Valid() && Contents() == a
    {
      if |a| == 0 {
        root := None;
        length := 0;
      } else {
        root := Some(BuildGcd(a, 0, |a| - 1));
        length := |a|;
      }
    }

    /** query(l, r): up to its sign, the gcd of the values at positions
        l..r, 0 for an empty range; a non-empty range must lie in the
        array. */
    method Query(l: int, r: int) returns (g: int)
      requires Valid() && (l > r || 0 <= l <= r < length)
      ensures Abs(g) == GcdOf(Within(Contents(), 0, l, r))
    {
      match root
      case None =>
        WithinEmptyRange(Contents(), 0, l, r);
        g := 0;
      case Some(n) =>
        QueryGcdIsGcd(n, l, r);
        g := QueryGcd(n, l, r);
    }

    /** update(pos, add): add is added to the value at pos; a position
        outside the array changes nothing. */
    method Update(pos: int, add: int)
      requires Valid()
      modifies this
      ensures Valid() && length == old(length)
      ensures Contents() == AddAt(old(Contents()), pos, add)
    {
      match root
      case None =>
      case Some(n) =>
        if 0 <= pos < length {
          UpdateGcdElements(n, length, pos, add);
        }
        root := Some(UpdateGcd(n, length, pos, add));
    }
  }

  // =====================================================================
  // The queries of a test case

  /** A line of a test case: GCD l r, or ADD l r x. */
  datatype Op = GcdQuery(l: int, r: int) | AddQuery(l: int, r: int, x: int)

  /** The queries of the generated test cases stay inside the array. */
  predicate InRange(op: Op, n: int)
  {
    0 <= op.l <= op.r < n
  }

  /** What the queries from position i on ask for: for each GCD query in
      turn, the gcd of the values at positions l..r after the additions
      before it. */
  function Answers(a: seq<int>, ops: seq<Op>, i: nat): seq<nat>
    requires forall k :: 0 <= k < |ops| ==> InRange(ops[k], |a|)
    decreases |ops| - i
  {
    if i >= |ops| then []
    else
      assert InRange(ops[i], |a|);
      match ops[i]
      case GcdQuery(l, r) => [GcdOf(a[l..r + 1])] + Answers(a, ops, i + 1)
      case AddQuery(l, r, x) => Answers(AddRange(a, 0, l, r, x), ops, i + 1)
  }

  function Magnitudes(s: seq<int>): (m: seq<nat>)
    ensures |m| == |s| && forall i :: 0 <= i < |s| ==> m[i] == Abs(s[i])
  {
    seq(|s|, i requires 0 <= i < |s| => Abs(s[i]))
  }

  /** One step of Answers at a GCD query. */
  lemma AnswersAtGcd(a: seq<int>, ops: seq<Op>, i: nat)
    requires forall k :: 0 <= k < |ops| ==> InRange(ops[k], |a|)
    requires i < |ops| && ops[i].GcdQuery?
    ensures Answers(a, ops, i) == [GcdOf(a[ops[i].l..ops[i].r + 1])] + Answers(a, ops, i + 1)
  {
  }

  /** One step of Answers at an ADD query. */
  lemma AnswersAtAdd(a: seq<int>, ops: seq<Op>, i: nat)
    requires forall k :: 0 <= k < |ops| ==> InRange(ops[k], |a|)
    requires i < |ops| && ops[i].AddQuery?
    ensures Answers(a, ops, i) == Answers(AddRange(a, 0, ops[i].l, ops[i].r, ops[i].x), ops, i + 1)
  {
  }

  /** Answering the GCD query at i moves its answer from what is still
      asked for to what has been answered. */
  lemma GcdAnswered(a: seq<int>, ops: seq<Op>, i: nat, cur: seq<int>, results: seq<int>, res: int)
    requires forall k :: 0 <= k < |ops| ==> InRange(ops[k], |a|)
    requires |cur| == |a| && i < |ops| && ops[i].GcdQuery?
    requires Answers(a, ops, 0) == Magnitudes(results) + Answers(cur, ops, i)
    requires Abs(res) == GcdOf(cur[ops[i].l..ops[i].r + 1])
    ensures Answers(a, ops, 0) == Magnitudes(results + [res]) + Answers(cur, ops, i + 1)
  {
    MagnitudesSnoc(results, res);
    AnswersAtGcd(cur, ops, i);
    Regroup(Answers(a, ops, 0), Magnitudes(results), Abs(res), Answers(cur, ops, i + 1), Magnitudes(results + [res]));
  }

  lemma Regroup(whole: seq<nat>, m: seq<nat>, g: nat, rest: seq<nat>, m2: seq<nat>)
    requires whole == m + ([g] + rest) && m2 == m + [g]
    ensures whole == m2 + rest
  {
  }

  lemma MagnitudesSnoc(s: seq<int>, v: int)
    ensures Magnitudes(s + [v]) == Magnitudes(s) + [Abs(v)]
  {
  }

  /** The loop building diffA from a. */
  method DifferenceArray(a: seq<int>) returns (d: array<int>)
    requires |a| > 0
    ensures fresh(d) && d[..] == Diffs(a)
  {
    d := new int[|a| - 1];
    for i := 1 to |a|
      invariant forall k :: 0 <= k < i - 1 ==> d[k] == a[k + 1] - a[k]
    {
      d[i - 1] := a[i] - a[i - 1];
    }
  }

  /** A GCD query answered from the two trees: gcdHelper of the value at l
      and of the gcd of the differences at l..r - 1 is, up to its sign, the
      gcd of the values at l..r. */
  lemma GcdFromDifferences(a: seq<int>, l: int, r: int, v: int, q: int)
    requires 0 <= l <= r < |a|
    requires v == a[l] && Abs(q) == GcdOf(Within(Diffs(a), 0, l, r - 1))
    ensures Abs(GcdHelper(v, q)) == GcdOf(a[l..r + 1])
  {
    var d := Diffs(a);
    if l <= r - 1 {
      WithinSlice(d, l, r - 1);
    } else {
      WithinEmptyRange(d, 0, l, r - 1);
      assert d[l..r] == [];
    }
    GcdHelperIsGcd(v, q);
    GcdSymmetric(v, q);
    GcdSymmetric(v, Abs(q));
    DiffGcd(a, l, r);
  }

  /** A GCD query: gcdHelper of the value at l and of the gcd of the
      differences at l..r - 1. */
  method GcdStep(addSegTree: SegTreeAdditionAndGet, gcdSegTree: SegTreeGCD, ghost cur: seq<int>, l: int, r: int)
    returns (res: int)
    requires 0 <= l <= r < |cur|
    requires addSegTree.Valid() && addSegTree.Contents() == cur
    requires gcdSegTree.Valid() && gcdSegTree.Contents() == Diffs(cur)
    ensures Abs(res) == GcdOf(cur[l..r + 1])
  {
    var v := addSegTree.Get(l);
    var q := gcdSegTree.Query(l, r - 1);
    res := GcdHelper(v, q);
    GcdFromDifferences(cur, l, r, v, q);
  }

  /** The difference tree's part of an ADD query: x at l - 1 unless l is
      the first position and -x at r unless r is the last. */
  method BoundaryUpdates(gcdSegTree: SegTreeGCD, ghost cur: seq<int>, n: int, l: int, r: int, x: int)
    requires n == |cur| && 0 <= l <= r < n
    requires gcdSegTree.Valid() && gcdSegTree.Contents() == Diffs(cur)
    modifies gcdSegTree
    ensures gcdSegTree.Valid() && gcdSegTree.Contents() == Diffs(AddRange(cur, 0, l, r, x))
  {
    ghost var d1 := AddAt(Diffs(cur), l - 1, x);
    if l > 0 {
      gcdSegTree.Update(l - 1, x);
    }
    assert gcdSegTree.Valid() && gcdSegTree.Contents() == d1;
    ghost var d2 := AddAt(d1, r, -x);
    if r < n - 1 {
      gcdSegTree.Update(r, -x);
    } else {
      assert |d1| == r;
    }
    assert gcdSegTree.Contents() == d2;
    DiffsAfterAdd(cur, l, r, x);
  }

  /** An ADD query: the addition tree gets x on l..r and the difference
      tree its two boundary updates. */
  method AddStep(addSegTree: SegTreeAdditionAndGet, gcdSegTree: SegTreeGCD, ghost cur: seq<int>, n: int, l: int, r: int, x: int)
    requires n == |cur| && 0 <= l <= r < n
    requires addSegTree.Valid() && addSegTree.Contents() == cur
    requires gcdSegTree.Valid() && gcdSegTree.Contents() == Diffs(cur)
    modifies addSegTree, gcdSegTree
    ensures addSegTree.Valid() && addSegTree.Contents() == AddRange(cur, 0, l, r, x)
    ensures gcdSegTree.Valid() && gcdSegTree.Contents() == Diffs(AddRange(cur, 0, l, r, x))
  {
    addSegTree.Update(l, r, x);
    BoundaryUpdates(gcdSegTree, cur, n, l, r, x);
  }

  /** The body of the loop over the queries: a GCD query appends its
      answer, an ADD query changes the array the trees stand for. */
  method RunQuery(addSegTree: SegTreeAdditionAndGet, gcdSegTree: SegTreeGCD, ghost a: seq<int>, n: int, ops: seq<Op>, i: nat,
                  ghost cur: seq<int>, results: seq<int>)
    returns (ghost cur': seq<int>, results': seq<int>)
    requires forall k :: 0 <= k < |ops| ==> InRange(ops[k], |a|)
    requires i < |ops| && |cur| == |a| == n
    requires addSegTree.Valid() && addSegTree.Contents() == cur
    requires gcdSegTree.Valid() && gcdSegTree.Contents() == Diffs(cur)
    requires Answers(a, ops, 0) == Magnitudes(results) + Answers(cur, ops, i)
    modifies addSegTree, gcdSegTree
    ensures |cur'| == |a|
    ensures addSegTree.Valid() && addSegTree.Contents() == cur'
    ensures gcdSegTree.Valid() && gcdSegTree.Contents() == Diffs(cur')
    ensures Answers(a, ops, 0) == Magnitudes(results') + Answers(cur', ops, i + 1)
  {
    match ops[i]
    case GcdQuery(l, r) =>
      var res := GcdStep(addSegTree, gcdSegTree, cur, l, r);
      GcdAnswered(a, ops, i, cur, results, res);
      cur', results' := cur, results + [res];
    case AddQuery(l, r, x) =>
      AddStep(addSegTree, gcdSegTree, cur, n, l, r, x);
      AnswersAtAdd(cur, ops, i);
      cur', results' := AddRange(cur, 0, l, r, x), results;
  }

  /** The loop over the queries of one test case: each GCD query's answer
      is, up to its sign, what Answers asks for. Reading the input and
      comparing with the expected output are left to the caller. */
  method RunTestCase(a: seq<int>, ops: seq<Op>) returns (results: seq<int>)
    requires |a| > 0
    requires forall i :: 0 <= i < |ops| ==> InRange(ops[i], |a|)
    ensures Magnitudes(results) == Answers(a, ops, 0)
  {
    var diffA := DifferenceArray(a);
    var addSegTree := new SegTreeAdditionAndGet(a);
    var gcdSegTree := new SegTreeGCD(diffA[..]);
    ghost var cur := a;
    results := [];
    for i := 0 to |ops|
      invariant |cur| == |a|
      invariant addSegTree.Valid() && addSegTree.Contents() == cur
      invariant gcdSegTree.Valid() && gcdSegTree.Contents() == Diffs(cur)
      invariant Answers(a, ops, 0) == Magnitudes(results) + Answers(cur, ops, i)
    {
      cur, results := RunQuery(addSegTree, gcdSegTree, a, |a|, ops, i, cur, results);
    }
  }
}
