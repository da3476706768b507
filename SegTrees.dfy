// The four segment trees of
// projects/05-segmentTreeRangeUpdates/implementation/SegTreeRangeUpdates.java:
// range sums with point updates (SegTreeStandard), range additions with
// point queries (SegTreeAdditionAndGet), range assignments with point
// queries (SegTreeAssignAndGet) and range additions with range maxima
// (SegTreeAdditionAndMax). A Node value stands for a Java Node and its
// subtree; the recursive Java methods that change nodes become functions
// from the old subtree to the new one, and each tree is a class whose root
// field they reassign.
module SegTrees {
  import opened Ranges

  /** A node covering positions l..r, with the value the tree keeps there,
      the assignment mark and the pending addition. */
  datatype Node =
    | Leaf(l: int, r: int, val: int, marked: bool, lazy: int)
    | Inner(l: int, r: int, val: int, marked: bool, lazy: int, lChild: Node, rChild: Node)

  /** The shape build gives a node: a leaf covers one position, an inner
      node splits l..r after mid = (l + r) / 2, that is, after the mid with
      2 * mid <= l + r <= 2 * mid + 1. */
  predicate Shaped(n: Node)
  {
    0 <= n.l <= n.r &&
    match n
    case Leaf(l, r, _, _, _) => l == r
    case Inner(l, r, _, _, _, lc, rc) =>
      l < r && lc.l == l && 2 * lc.r <= l + r <= 2 * lc.r + 1 && rc.l == lc.r + 1 && rc.r == r
      && Shaped(lc) && Shaped(rc)
  }

  /** An inner node p with a new value and new children covering the same
      ranges. */
  function WithChildren(p: Node, v: int, lc: Node, rc: Node): (m: Node)
    requires Shaped(p) && p.Inner?
    requires Shaped(lc) && lc.l == p.lChild.l && lc.r == p.lChild.r
    requires Shaped(rc) && rc.l == p.rChild.l && rc.r == p.rChild.r
    ensures Shaped(m) && m.Inner? && m.l == p.l && m.r == p.r && m.lChild == lc && m.rChild == rc
    ensures m.val == v && m.marked == p.marked && m.lazy == p.lazy
  {
    Inner(p.l, p.r, v, p.marked, p.lazy, lc, rc)
  }

  /** Walking towards index from an inner node: the position reached in
      the node's range, seen from the child the walk enters. */
  lemma ChildPosition(n: Node, index: int)
    requires Shaped(n) && n.Inner?
    ensures index <= n.lChild.r ==>
      Clamp(index, n.l, n.r) - n.l == Clamp(index, n.lChild.l, n.lChild.r) - n.lChild.l
    ensures index > n.lChild.r ==>
      Clamp(index, n.l, n.r) - n.l == (n.lChild.r - n.lChild.l + 1) + (Clamp(index, n.rChild.l, n.rChild.r) - n.rChild.l)
  {
  }

  // =====================================================================
  // SegTreeStandard: the values are the leaves' values; every inner node
  // holds the sum of its children.

  /** The array values a node stands for: its leaves, left to right. */
  function Elements(n: Node): (e: seq<int>)
    ensures Shaped(n) ==> |e| == n.r - n.l + 1
  {
    match n
    case Leaf(_, _, val, _, _) => [val]
    case Inner(_, _, _, _, _, lc, rc) => Elements(lc) + Elements(rc)
  }

  predicate SumValid(n: Node)
  {
    match n
    case Leaf(_, _, _, _, _) => true
    case Inner(_, _, val, _, _, lc, rc) => val == lc.val + rc.val && SumValid(lc) && SumValid(rc)
  }

  /** Each node's value is the sum of the values of its range. */
  lemma {:induction false} SumValidIsSum(n: Node)
    requires Shaped(n) && SumValid(n)
    ensures n.val == Sum(Elements(n))
  {
    match n
    case Leaf(_, _, val, _, _) =>
      assert Sum([val]) == val + Sum([]);
    case Inner(_, _, _, _, _, lc, rc) =>
      SumValidIsSum(lc);
      SumValidIsSum(rc);
      SumConcat(Elements(lc), Elements(rc));
  }

  /** build (SegTreeStandard): the tree over nums[l..r], each node holding
      the sum of its range. */
  function BuildSum(nums: seq<int>, l: int, r: int): (n: Node)
    requires 0 <= l <= r < |nums|
    ensures n.l == l && n.r == r && Shaped(n) && SumValid(n)
    ensures Elements(n) == nums[l..r + 1]
    decreases r - l
  {
    if l == r then Leaf(l, r, nums[l], false, 0)
    else
      var mid := (l + r) / 2;
      var lc := BuildSum(nums, l, mid);
      var rc := BuildSum(nums, mid + 1, r);
      SliceSplit(nums, l, mid, r);
      Inner(l, r, lc.val + rc.val, false, 0, lc, rc)
  }

  /** query (SegTreeStandard): the sum of the values at positions l..r of
      the node's range; a node outside the range gives 0, a node inside it
      its own value. */
  function QuerySum(n: Node, l: int, r: int): (s: int)
    requires Shaped(n) && SumValid(n)
    ensures s == Sum(Within(Elements(n), n.l, l, r))
  {
    if n.r < l || n.l > r then
      WithinNone(Elements(n), n.l, l, r);
      0
    else if l <= n.l && n.r <= r then
      WithinAll(Elements(n), n.l, l, r);
      SumValidIsSum(n);
      n.val
    else
      var a := QuerySum(n.lChild, l, r);
      var b := QuerySum(n.rChild, l, r);
      WithinConcat(Elements(n.lChild), Elements(n.rChild), n.l, n.rChild.l, l, r);
      SumConcat(Within(Elements(n.lChild), n.l, l, r), Within(Elements(n.rChild), n.rChild.l, l, r));
      a + b
  }

  /** update (SegTreeStandard): the leaf reached by walking towards index
      gets newVal and the sums on its path are recomputed. */
  function UpdateSum(n: Node, index: int, newVal: int): (m: Node)
    requires Shaped(n)
    ensures m.l == n.l && m.r == n.r && Shaped(m)
    ensures SumValid(n) ==> SumValid(m)
  {
    if n.l == n.r then Leaf(n.l, n.r, newVal, n.marked, n.lazy)
    else
      var lc, rc := n.lChild, n.rChild;
      if index <= lc.r then
        var lc' := UpdateSum(lc, index, newVal);
        WithChildren(n, lc'.val + rc.val, lc', rc)
      else
        var rc' := UpdateSum(rc, index, newVal);
        WithChildren(n, lc.val + rc'.val, lc, rc')
  }

  /** update changes the value at the position nearest to index, and no
      other. */
  lemma {:induction false} UpdateSumElements(n: Node, index: int, newVal: int)
    requires Shaped(n)
    ensures Elements(UpdateSum(n, index, newVal)) == Elements(n)[Clamp(index, n.l, n.r) - n.l := newVal]
  {
    if n.Inner? {
      var lc, rc := n.lChild, n.rChild;
      var a, b := Elements(lc), Elements(rc);
      assert Elements(n) == a + b;
      if index <= lc.r {
        var lc' := UpdateSum(lc, index, newVal);
        var m := WithChildren(n, lc'.val + rc.val, lc', rc);
        assert UpdateSum(n, index, newVal) == m;
        assert Elements(m) == Elements(lc') + b;
        var k := Clamp(index, n.l, n.r) - n.l;
        assert Elements(lc') == a[k := newVal] by {
          ChildPosition(n, index);
          UpdateSumElements(lc, index, newVal);
        }
        UpdateLeft(a + b, a, b, Elements(lc'), k, newVal);
      } else {
        var rc' := UpdateSum(rc, index, newVal);
        var m := WithChildren(n, lc.val + rc'.val, lc, rc');
        assert UpdateSum(n, index, newVal) == m;
        assert Elements(m) == a + Elements(rc');
        var k := Clamp(index, n.l, n.r) - n.l;
        var j := Clamp(index, rc.l, rc.r) - rc.l;
        assert Elements(rc') == b[j := newVal] && k == |a| + j by {
          ChildPosition(n, index);
          UpdateSumElements(rc, index, newVal);
        }
        UpdateRight(a + b, a, b, Elements(rc'), |a|, j, k, newVal);
      }
    }
  }

  /** Changing an element of the left part of a concatenation. */
  lemma UpdateLeft(s: seq<int>, a: seq<int>, b: seq<int>, a': seq<int>, k: int, v: int)
    requires s == a + b && 0 <= k < |a| && a' == a[k := v]
    ensures a' + b == s[k := v]
  {
  }

  /** Changing an element of the right part of a concatenation, whose left
      part has mid elements. */
  lemma UpdateRight(s: seq<int>, a: seq<int>, b: seq<int>, b': seq<int>, mid: int, j: int, k: int, v: int)
    requires s == a + b && mid == |a| && 0 <= j < |b| && k == mid + j && b' == b[j := v]
    ensures a + b' == s[k := v]
  {
  }

  class SegTreeStandard {
    var root: Node

    ghost predicate Valid()
      reads this
    {
      Shaped(root) && root.l == 0 && SumValid(root)
    }

    /** The array the tree stands for. */
    ghost function Contents(): seq<int>
      reads this
    {
      Elements(root)
    }

    /** The source fails on an empty array (build reads nums[0] for the
        range 0..-1), so nums is non-empty. */
    constructor (nums: seq<int>)
      requires |nums| > 0
      ensures Valid() && Contents() == nums
    {
      root := BuildSum(nums, 0, |nums| - 1);
    }

    /** query(l, r): the sum of the values at positions l..r that exist; in
        particular 0 for l > r. */
    method Query(l: int, r: int) returns (s: int)
      requires Valid()
      ensures s == Sum(Within(Contents(), 0, l, r))
    {
      s := QuerySum(root, l, r);
    }

    /** update(index, newVal): the value at index becomes newVal, and every
        other value stays (an index outside the array changes the end it is
        nearest to). */
    method Update(index: int, newVal: int)
      requires Valid()
      modifies this
      ensures Valid() && |Contents()| == |old(Contents())|
      ensures Contents() == old(Contents())[Clamp(index, 0, |old(Contents())| - 1) := newVal]
    {
      UpdateSumElements(root, index, newVal);
      root := UpdateSum(root, index, newVal);
    }
  }

  /** query over positions inside the array is the sum of the slice. */
  lemma QuerySumSlice(n: Node, l: int, r: int)
    requires Shaped(n) && SumValid(n) && n.l == 0 && 0 <= l <= r <= n.r
    ensures QuerySum(n, l, r) == Sum(Elements(n)[l..r + 1])
  {
    WithinSlice(Elements(n), l, r);
  }

  /** After update(i, v) inside the array, query(i, i) gives v, and a
      query that leaves out i gives what it gave before. */
  lemma UpdateThenQuery(n: Node, i: int, v: int, l: int, r: int)
    requires Shaped(n) && SumValid(n) && n.l == 0 && 0 <= i <= n.r
    ensures QuerySum(UpdateSum(n, i, v), i, i) == v
    ensures (i < l || r < i) ==> QuerySum(UpdateSum(n, i, v), l, r) == QuerySum(n, l, r)
  {
    var e := Elements(n);
    UpdateSumElements(n, i, v);
    WithinSlice(e[i := v], i, i);
    assert e[i := v][i..i + 1] == [v];
    assert Sum([v]) == v + Sum([]);
    if i < l || r < i {
      WithinUpdate(e, 0, i, v, l, r);
    }
  }

  // =====================================================================
  // SegTreeAdditionAndGet: the value at a position is the sum of the
  // values on the path from the root to its leaf.

  /** The array values a node stands for, counting the node's own value
      and its descendants' but not its ancestors'. */
  function PathSums(n: Node): (e: seq<int>)
    ensures Shaped(n) ==> |e| == n.r - n.l + 1
  {
    match n
    case Leaf(_, _, val, _, _) => [val]
    case Inner(_, _, val, _, _, lc, rc) => AddAll(PathSums(lc) + PathSums(rc), val)
  }

  /** build (SegTreeAdditionAndGet): leaves hold the array, inner nodes 0. */
  function BuildAdd(a: seq<int>, l: int, r: int): (n: Node)
    requires 0 <= l <= r < |a|
    ensures n.l == l && n.r == r && Shaped(n)
    ensures PathSums(n) == a[l..r + 1]
    decreases r - l
  {
    if l == r then Leaf(l, r, a[l], false, 0)
    else
      var mid := (l + r) / 2;
      var lc := BuildAdd(a, l, mid);
      var rc := BuildAdd(a, mid + 1, r);
      SliceSplit(a, l, mid, r);
      AddAllZero(a[l..r + 1]);
      Inner(l, r, 0, false, 0, lc, rc)
  }

  /** get (SegTreeAdditionAndGet): the sum of the values on the path to the
      leaf reached by walking towards pos. */
  function GetAdd(n: Node, pos: int): int
    requires Shaped(n)
  {
    if n.l == n.r then n.val
    else if pos <= n.lChild.r then n.val + GetAdd(n.lChild, pos)
    else n.val + GetAdd(n.rChild, pos)
  }

  /** get gives the value at the position nearest to pos. */
  lemma {:induction false} GetAddIsPathSum(n: Node, pos: int)
    requires Shaped(n)
    ensures GetAdd(n, pos) == PathSums(n)[Clamp(pos, n.l, n.r) - n.l]
  {
    if n.Inner? {
      var lc, rc := n.lChild, n.rChild;
      var a, b := PathSums(lc), PathSums(rc);
      var k := Clamp(pos, n.l, n.r) - n.l;
      ChildPosition(n, pos);
      if pos <= lc.r {
        GetAddIsPathSum(lc, pos);
        PickLeft(a + b, a, b, k, GetAdd(lc, pos));
      } else {
        GetAddIsPathSum(rc, pos);
        PickRight(a + b, a, b, k, Clamp(pos, rc.l, rc.r) - rc.l, GetAdd(rc, pos));
      }
      AddAllAt(a + b, n.val, k);
    }
  }

  /** update (SegTreeAdditionAndGet): add is stored at the highest nodes
      whose ranges exactly tile l..r. The source reaches a missing child
      when l..r is non-empty and not inside the node's range. */
  function UpdateAdd(n: Node, l: int, r: int, add: int): (m: Node)
    requires Shaped(n) && (l > r || n.l <= l <= r <= n.r)
    ensures m.l == n.l && m.r == n.r && Shaped(m)
  {
    if l > r then
      n
    else if n.l == l && n.r == r then
      match n
      case Leaf(nl, nr, val, mark, lazy) => Leaf(nl, nr, val + add, mark, lazy)
      case Inner(nl, nr, val, mark, lazy, lc, rc) => Inner(nl, nr, val + add, mark, lazy, lc, rc)
    else
      var lc, rc := n.lChild, n.rChild;
      var lc' := UpdateAdd(lc, l, if r < lc.r then r else lc.r, add);
      var rc' := UpdateAdd(rc, if l > rc.l then l else rc.l, r, add);
      WithChildren(n, n.val, lc', rc')
  }

  /** update(l, r, add) adds add to the values at positions l..r and to no
      others. */
  lemma {:induction false} UpdateAddIsAddRange(n: Node, l: int, r: int, add: int)
    requires Shaped(n) && (l > r || n.l <= l <= r <= n.r)
    ensures PathSums(UpdateAdd(n, l, r, add)) == AddRange(PathSums(n), n.l, l, r, add)
  {
    if l > r {
      AddRangeNone(PathSums(n), n.l, l, r, add);
    } else if n.l == l && n.r == r {
      AddRangeAll(PathSums(n), n.l, l, r, add);
      if n.Inner? {
        AddAllTwice(PathSums(n.lChild) + PathSums(n.rChild), n.val, add);
      }
    } else {
      var lc, rc := n.lChild, n.rChild;
      var r1 := if r < lc.r then r else lc.r;
      var l2 := if l > rc.l then l else rc.l;
      var lc', rc' := UpdateAdd(lc, l, r1, add), UpdateAdd(rc, l2, r, add);
      var m := WithChildren(n, n.val, lc', rc');
      assert UpdateAdd(n, l, r, add) == m;
      assert PathSums(m) == AddAll(PathSums(lc') + PathSums(rc'), n.val);
      UpdateAddIsAddRange(lc, l, r1, add);
      UpdateAddIsAddRange(rc, l2, r, add);
      AddRangeStep(PathSums(lc), PathSums(rc), PathSums(lc'), PathSums(rc'), lc.l, lc.r, rc.l, l, r, r1, l2, add, n.val);
    }
  }

  class SegTreeAdditionAndGet {
    var root: Node

    ghost predicate Valid()
      reads this
    {
      Shaped(root) && root.l == 0
    }

    ghost function Contents(): seq<int>
      reads this
    {
      PathSums(root)
    }

    /** The source fails on an empty array, so a is non-empty. */
    constructor (a: seq<int>)
      requires |a| > 0
      ensures Valid() && Contents() == a
    {
      root := BuildAdd(a, 0, |a| - 1);
    }

    /** get(pos): the current value at pos (at the nearest end for a pos
        outside the array). */
    method Get(pos: int) returns (v: int)
      requires Valid()
      ensures v == Contents()[Clamp(pos, 0, |Contents()| - 1)]
    {
      GetAddIsPathSum(root, pos);
      v := GetAdd(root, pos);
    }

    /** update(l, r, add): add is added to the values at positions l..r;
        an empty range changes nothing. */
    method Update(l: int, r: int, add: int)
      requires Valid() && (l > r || 0 <= l <= r < |Contents()|)
      modifies this
      ensures Valid() && Contents() == AddRange(old(Contents()), 0, l, r, add)
    {
      UpdateAddIsAddRange(root, l, r, add);
      root := UpdateAdd(root, l, r, add);
    }
  }

  /** A range addition (l, r, add). */
  datatype Add = Add(l: int, r: int, add: int)

  /** The tree after a series of updates. */
  function ApplyAdds(n: Node, ops: seq<Add>): (m: Node)
    requires Shaped(n)
    requires forall k :: 0 <= k < |ops| ==> n.l <= ops[k].l <= ops[k].r <= n.r
    ensures Shaped(m) && m.l == n.l && m.r == n.r
    decreases |ops|
  {
    if |ops| == 0 then n
    else ApplyAdds(UpdateAdd(n, ops[0].l, ops[0].r, ops[0].add), ops[1..])
  }

  /** The sum of the additions whose range covers pos. */
  function Covering(ops: seq<Add>, pos: int): int
  {
    if |ops| == 0 then 0
    else (if ops[0].l <= pos <= ops[0].r then ops[0].add else 0) + Covering(ops[1..], pos)
  }

  /** get at a position inside the node's range. */
  lemma GetAddAt(n: Node, pos: int)
    requires Shaped(n) && n.l <= pos <= n.r
    ensures GetAdd(n, pos) == PathSums(n)[pos - n.l]
  {
    GetAddIsPathSum(n, pos);
  }

  /** get(pos) after one update gains add exactly when l..r covers pos. */
  lemma GetAfterAdd(n: Node, l: int, r: int, add: int, pos: int)
    requires Shaped(n) && n.l <= pos <= n.r && (l > r || n.l <= l <= r <= n.r)
    ensures GetAdd(UpdateAdd(n, l, r, add), pos) == GetAdd(n, pos) + (if l <= pos <= r then add else 0)
  {
    var m := UpdateAdd(n, l, r, add);
    var k := pos - n.l;
    var a, b := PathSums(n), PathSums(m);
    GetAddAt(m, pos);
    GetAddAt(n, pos);
    assert b == AddRange(a, n.l, l, r, add) by {
      UpdateAddIsAddRange(n, l, r, add);
    }
    AddRangeAt(a, n.l, l, r, add, k);
  }

  /** get(pos) after a series of updates is the original value at pos plus
      every addition whose range covers pos. */
  lemma {:induction false} GetAfterAdds(n: Node, ops: seq<Add>, pos: int)
    requires Shaped(n) && n.l <= pos <= n.r
    requires forall k :: 0 <= k < |ops| ==> n.l <= ops[k].l <= ops[k].r <= n.r
    ensures GetAdd(ApplyAdds(n, ops), pos) == GetAdd(n, pos) + Covering(ops, pos)
    decreases |ops|
  {
    if |ops| > 0 {
      var n' := UpdateAdd(n, ops[0].l, ops[0].r, ops[0].add);
      assert ApplyAdds(n, ops) == ApplyAdds(n', ops[1..]);
      GetAfterAdds(n', ops[1..], pos);
      GetAfterAdd(n, ops[0].l, ops[0].r, ops[0].add, pos);
    }
  }

  /** In particular, on a freshly built tree. */
  lemma GetAfterBuildAndAdds(a: seq<int>, ops: seq<Add>, pos: int)
    requires 0 <= pos < |a|
    requires forall k :: 0 <= k < |ops| ==> 0 <= ops[k].l <= ops[k].r < |a|
    ensures GetAdd(ApplyAdds(BuildAdd(a, 0, |a| - 1), ops), pos) == a[pos] + Covering(ops, pos)
  {
    var n := BuildAdd(a, 0, |a| - 1);
    GetAfterAdds(n, ops, pos);
    GetAddAt(n, pos);
  }

  // =====================================================================
  // SegTreeAssignAndGet: a marked node assigns its value to its whole
  // range, and the highest mark on a path decides.

  /** The array values a node stands for: a leaf or a marked node gives its
      value to every position of its range. */
  function Assigned(n: Node): (e: seq<int>)
    requires Shaped(n)
    ensures |e| == n.r - n.l + 1
  {
    if n.Leaf? || n.marked then Fill(n.val, n.r - n.l + 1)
    else Assigned(n.lChild) + Assigned(n.rChild)
  }

  /** build (SegTreeAssignAndGet): marked leaves hold the array; inner
      nodes are unmarked. */
  function BuildAssign(arr: seq<int>, l: int, r: int): (n: Node)
    requires 0 <= l <= r < |arr|
    ensures n.l == l && n.r == r && Shaped(n)
    ensures Assigned(n) == arr[l..r + 1]
    decreases r - l
  {
    if l == r then Leaf(l, r, arr[l], true, 0)
    else
      var mid := (l + r) / 2;
      var lc := BuildAssign(arr, l, mid);
      var rc := BuildAssign(arr, mid + 1, r);
      SliceSplit(arr, l, mid, r);
      Inner(l, r, 0, false, 0, lc, rc)
  }

  /** A node with a new value and mark, same range and children. */
  function Relabel(c: Node, v: int, mark: bool): (d: Node)
    requires Shaped(c)
    ensures d.l == c.l && d.r == c.r && Shaped(d) && d.Inner? == c.Inner?
    ensures d.val == v && d.marked == mark && d.lazy == c.lazy
    ensures c.Inner? ==> d.lChild == c.lChild && d.rChild == c.rChild
  {
    match c
    case Leaf(l, r, _, _, lazy) => Leaf(l, r, v, mark, lazy)
    case Inner(l, r, _, _, lazy, lc, rc) => Inner(l, r, v, mark, lazy, lc, rc)
  }

  /** push: a marked inner node hands its value and mark to both children
      and loses its mark; the values the node stands for do not change. */
  function Push(n: Node): (m: Node)
    requires Shaped(n)
    ensures m.l == n.l && m.r == n.r && Shaped(m) && m.Inner? == n.Inner?
    ensures Assigned(m) == Assigned(n)
    ensures n.Inner? && n.marked ==>
      (!m.marked && m.lChild.marked && m.lChild.val == n.val && m.rChild.marked && m.rChild.val == n.val)
    ensures !(n.Inner? && n.marked) ==> m == n
    ensures forall i :: AssignedAt(m, i) == AssignedAt(n, i)
  {
    if n.marked && n.Inner? then
      var m := Inner(n.l, n.r, n.val, false, n.lazy, Relabel(n.lChild, n.val, true), Relabel(n.rChild, n.val, true));
      assert Assigned(m) == Fill(n.val, n.lChild.r - n.l + 1) + Fill(n.val, n.r - n.rChild.l + 1);
      m
    else n
  }

  /** Below an unmarked inner node, the children stand for the node's
      values side by side. */
  lemma AssignedSplit(n: Node)
    requires Shaped(n) && n.Inner? && !n.marked
    ensures Assigned(n) == Assigned(n.lChild) + Assigned(n.rChild)
  {
  }

  /** update (SegTreeAssignAndGet): v is assigned to positions l..r: nodes
      inside the range are marked with v, partly covered ones pushed first. */
  function UpdateAssign(n: Node, l: int, r: int, v: int): (m: Node)
    requires Shaped(n)
    ensures m.l == n.l && m.r == n.r && Shaped(m)
    ensures Assigned(m) == AssignRange(Assigned(n), n.l, l, r, v)
    decreases n.r - n.l
  {
    if r < n.l || l > n.r then
      AssignRangeNone(Assigned(n), n.l, l, r, v);
      n
    else if l <= n.l && n.r <= r then
      AssignRangeAll(Assigned(n), n.l, l, r, v);
      Relabel(n, v, true)
    else
      var p := Push(n);
      AssignedSplit(p);
      var lc := UpdateAssign(p.lChild, l, r, v);
      var rc := UpdateAssign(p.rChild, l, r, v);
      var m := WithChildren(p, p.val, lc, rc);
      AssignedSplit(m);
      AssignRangeSplit(Assigned(n), Assigned(p.lChild), Assigned(p.rChild), n.l, p.rChild.l, l, r, v);
      m
  }

  /** The value at the position nearest to i: the value of the highest
      leaf or marked node on the way to it. */
  function AssignedAt(n: Node, i: int): int
  {
    if n.Leaf? || n.marked then n.val
    else if i <= n.lChild.r then AssignedAt(n.lChild, i)
    else AssignedAt(n.rChild, i)
  }

  /** AssignedAt reads the values a node stands for, at the position
      nearest to i. */
  lemma {:induction false} AssignedAtIsAssigned(n: Node, i: int)
    requires Shaped(n)
    ensures AssignedAt(n, i) == Assigned(n)[Clamp(i, n.l, n.r) - n.l]
    decreases n.r - n.l
  {
    if n.Inner? && !n.marked {
      AssignedAtIsAssigned(n.lChild, i);
      AssignedAtIsAssigned(n.rChild, i);
      AssignedSplit(n);
      ChildPosition(n, i);
    }
  }

  /** get (SegTreeAssignAndGet): the value at the position reached by
      walking towards index, pushing marks on the way; the new tree stands
      for the same values. */
  function GetAssign(n: Node, index: int): (res: (int, Node))
    requires Shaped(n)
    ensures res.0 == Assigned(n)[Clamp(index, n.l, n.r) - n.l]
    ensures res.1.l == n.l && res.1.r == n.r && Shaped(res.1) && Assigned(res.1) == Assigned(n)
  {
    AssignedAtIsAssigned(n, index);
    GetAssignWalk(n, index)
  }

  /** The walk of get, reading AssignedAt. */
  function GetAssignWalk(n: Node, index: int): (res: (int, Node))
    requires Shaped(n)
    ensures res.0 == AssignedAt(n, index)
    ensures res.1.l == n.l && res.1.r == n.r && Shaped(res.1) && Assigned(res.1) == Assigned(n)
    decreases n.r - n.l
  {
    if n.l == n.r then (n.val, n)
    else
      var p := Push(n);
      AssignedSplit(p);
      if index <= p.lChild.r then
        var (x, c) := GetAssignWalk(p.lChild, index);
        var m := WithChildren(p, p.val, c, p.rChild);
        AssignedSplit(m);
        (x, m)
      else
        var (x, c) := GetAssignWalk(p.rChild, index);
        var m := WithChildren(p, p.val, p.lChild, c);
        AssignedSplit(m);
        (x, m)
  }

  class SegTreeAssignAndGet {
    var root: Node

    ghost predicate Valid()
      reads this
    {
      Shaped(root) && root.l == 0
    }

    ghost function Contents(): seq<int>
      reads this
      requires Valid()
    {
      Assigned(root)
    }

    /** The source fails on an empty array, so arr is non-empty. */
    constructor (arr: seq<int>)
      requires |arr| > 0
      ensures Valid() && Contents() == arr
    {
      root := BuildAssign(arr, 0, |arr| - 1);
    }

    /** update(l, r, val): the values at positions l..r become val, all
        others stay. */
    method Update(l: int, r: int, val: int)
      requires Valid()
      modifies this
      ensures Valid() && Contents() == AssignRange(old(Contents()), 0, l, r, val)
    {
      root := UpdateAssign(root, l, r, val);
    }

    /** get(index): the current value at index (at the nearest end for an
        index outside the array); pushing marks changes no value. */
    method Get(index: int) returns (v: int)
      requires Valid()
      modifies this
      ensures Valid() && Contents() == old(Contents())
      ensures v == Contents()[Clamp(index, 0, |Contents()| - 1)]
    {
      var res := GetAssign(root, index);
      v, root := res.0, res.1;
    }
  }

  /** After an assignment of v to l..r, get(i) is v inside the range and
      what it was before outside it. */
  lemma AssignThenGet(n: Node, l: int, r: int, v: int, i: int)
    requires Shaped(n) && n.l <= i <= n.r
    ensures GetAssign(UpdateAssign(n, l, r, v), i).0 == if l <= i <= r then v else GetAssign(n, i).0
  {
  }

  // =====================================================================
  // SegTreeAdditionAndMax: a node's value is the maximum over its range
  // including its own pending addition but not its ancestors'.

  /** The array values a node stands for: its leaves' values, each plus the
      pending additions of the inner nodes above it, up to this node. */
  function Actual(n: Node): (e: seq<int>)
    ensures Shaped(n) ==> |e| == n.r - n.l + 1
  {
    match n
    case Leaf(_, _, val, _, _) => [val]
    case Inner(_, _, _, _, lazy, lc, rc) => AddAll(Actual(lc) + Actual(rc), lazy)
  }

  predicate MaxValid(n: Node)
  {
    match n
    case Leaf(_, _, _, _, _) => true
    case Inner(_, _, val, _, lazy, lc, rc) =>
      val == Max(lc.val, rc.val) + lazy && MaxValid(lc) && MaxValid(rc)
  }

  /** Each node's value is the maximum of what it stands for. */
  lemma {:induction false} MaxValidIsMax(n: Node)
    requires Shaped(n) && MaxValid(n)
    ensures n.val == MaxOf(Actual(n))
  {
    match n
    case Leaf(_, _, _, _, _) =>
    case Inner(_, _, _, _, lazy, lc, rc) =>
      MaxValidIsMax(lc);
      MaxValidIsMax(rc);
      MaxOfConcat(Actual(lc), Actual(rc));
      MaxOfAddAll(Actual(lc) + Actual(rc), lazy);
  }

  /** build (SegTreeAdditionAndMax): leaves hold the array, inner nodes the
      maximum of their children, nothing pending. */
  function BuildMax(arr: seq<int>, l: int, r: int): (n: Node)
    requires 0 <= l <= r < |arr|
    ensures n.l == l && n.r == r && Shaped(n) && MaxValid(n)
    ensures Actual(n) == arr[l..r + 1]
    decreases r - l
  {
    if l == r then Leaf(l, r, arr[l], false, 0)
    else
      var mid := (l + r) / 2;
      var lc := BuildMax(arr, l, mid);
      var rc := BuildMax(arr, mid + 1, r);
      SliceSplit(arr, l, mid, r);
      var n := Inner(l, r, Max(lc.val, rc.val), false, 0, lc, rc);
      ActualSplit(n);
      n
  }

  /** A child receiving x: its pending addition and its value grow by x. */
  function Shift(c: Node, x: int): (d: Node)
    requires Shaped(c)
    ensures d.l == c.l && d.r == c.r && Shaped(d)
    ensures Actual(d) == AddAll(Actual(c), x)
    ensures MaxValid(c) ==> MaxValid(d)
  {
    var d := c.(lazy := c.lazy + x, val := c.val + x);
    if c.Inner? then
      AddAllTwice(Actual(c.lChild) + Actual(c.rChild), c.lazy, x);
      d
    else d
  }

  /** pushDown: a pending addition moves to both children (a leaf simply
      drops it); the values the node stands for do not change. */
  function PushDown(n: Node): (m: Node)
    requires Shaped(n)
    ensures m.l == n.l && m.r == n.r && Shaped(m) && m.Inner? == n.Inner? && m.val == n.val
    ensures m.lazy == 0 && Actual(m) == Actual(n)
    ensures MaxValid(n) ==> MaxValid(m)
    ensures forall i :: ActualAt(m, i) == ActualAt(n, i)
  {
    if n.lazy != 0 then
      if n.Inner? then
        var m := n.(lChild := Shift(n.lChild, n.lazy), rChild := Shift(n.rChild, n.lazy), lazy := 0);
        AddAllConcat(Actual(n.lChild), Actual(n.rChild), n.lazy);
        AddAllZero(Actual(m.lChild) + Actual(m.rChild));
        m
      else Leaf(n.l, n.r, n.val, n.marked, 0)
    else n
  }

  /** Below a node with nothing pending, the children stand for the node's
      values side by side. */
  lemma ActualSplit(n: Node)
    requires Shaped(n) && n.Inner? && n.lazy == 0
    ensures Actual(n) == Actual(n.lChild) + Actual(n.rChild)
  {
    AddAllZero(Actual(n.lChild) + Actual(n.rChild));
  }

  /** update (SegTreeAdditionAndMax): add is added to positions l..r, the
      maxima on the way recomputed. */
  function UpdateMax(n: Node, l: int, r: int, add: int): (m: Node)
    requires Shaped(n)
    ensures m.l == n.l && m.r == n.r && Shaped(m)
    ensures Actual(m) == AddRange(Actual(n), n.l, l, r, add)
    ensures MaxValid(n) ==> MaxValid(m)
    decreases n.r - n.l
  {
    if r < n.l || l > n.r then
      n
    else if l <= n.l && n.r <= r then
      AddCovering(n, l, r, add)
    else
      var p := PushDown(n);
      var lc := UpdateMax(p.lChild, l, r, add);
      var rc := UpdateMax(p.rChild, l, r, add);
      var m := WithChildren(p, Max(lc.val, rc.val), lc, rc);
      UpdateMaxStep(n, p, l, r, add, m);
      m
  }

  /** The covered case of update: value and pending addition grow by add. */
  function AddCovering(n: Node, l: int, r: int, add: int): (m: Node)
    requires Shaped(n) && l <= n.l && n.r <= r
    ensures m.l == n.l && m.r == n.r && Shaped(m)
    ensures Actual(m) == AddRange(Actual(n), n.l, l, r, add)
    ensures MaxValid(n) ==> MaxValid(m)
  {
    AddRangeAll(Actual(n), n.l, l, r, add);
    match n
    case Leaf(nl, nr, val, mark, lazy) =>
      Leaf(nl, nr, val + add, mark, lazy + add)
    case Inner(nl, nr, val, mark, lazy, lc, rc) =>
      AddAllTwice(Actual(lc) + Actual(rc), lazy, add);
      Inner(nl, nr, val + add, mark, lazy + add, lc, rc)
  }

  /** The partial case of update: after pushDown the children stand for
      the node's values side by side, so updating both updates the node. */
  lemma UpdateMaxStep(n: Node, p: Node, l: int, r: int, add: int, m: Node)
    requires Shaped(n) && Shaped(p) && p.Inner? && p.lazy == 0 && p.l == n.l && p.r == n.r
    requires Actual(p) == Actual(n) && (MaxValid(n) ==> MaxValid(p))
    requires Shaped(m) && m.Inner? && m.l == p.l && m.r == p.r && m.lazy == 0
    requires m.lChild.l == p.lChild.l && m.lChild.r == p.lChild.r && m.rChild.l == p.rChild.l
    requires Actual(m.lChild) == AddRange(Actual(p.lChild), p.lChild.l, l, r, add)
    requires Actual(m.rChild) == AddRange(Actual(p.rChild), p.rChild.l, l, r, add)
    requires MaxValid(p.lChild) ==> MaxValid(m.lChild)
    requires MaxValid(p.rChild) ==> MaxValid(m.rChild)
    requires m.val == Max(m.lChild.val, m.rChild.val)
    ensures Actual(m) == AddRange(Actual(n), n.l, l, r, add)
    ensures MaxValid(n) ==> MaxValid(m)
  {
    ActualSplit(p);
    ActualSplit(m);
    AddRangeConcat(Actual(p.lChild), Actual(p.rChild), n.l, l, r, add);
  }

  /** get (SegTreeAdditionAndMax): the value at the position reached by
      walking towards index, pushing additions on the way. */
  /** The value at the position nearest to i: the leaf's value plus the
      pending additions on the way to it. */
  function ActualAt(n: Node, i: int): int
  {
    match n
    case Leaf(_, _, val, _, _) => val
    case Inner(_, _, _, _, lazy, lc, rc) =>
      lazy + (if i <= lc.r then ActualAt(lc, i) else ActualAt(rc, i))
  }

  /** ActualAt reads the values a node stands for, at the position nearest
      to i. */
  lemma {:induction false} ActualAtIsActual(n: Node, i: int)
    requires Shaped(n)
    ensures ActualAt(n, i) == Actual(n)[Clamp(i, n.l, n.r) - n.l]
  {
    match n
    case Leaf(_, _, _, _, _) =>
    case Inner(_, _, _, _, lazy, lc, rc) =>
      ActualAtIsActual(lc, i);
      ActualAtIsActual(rc, i);
      ChildPosition(n, i);
  }

  /** get (SegTreeAdditionAndMax): the value at the position reached by
      walking towards index, pushing additions on the way. */
  function GetMax(n: Node, index: int): (res: (int, Node))
    requires Shaped(n)
    ensures res.0 == Actual(n)[Clamp(index, n.l, n.r) - n.l]
    ensures res.1.l == n.l && res.1.r == n.r && Shaped(res.1) && Actual(res.1) == Actual(n)
    ensures res.1.val == n.val && (MaxValid(n) ==> MaxValid(res.1))
  {
    ActualAtIsActual(n, index);
    GetMaxWalk(n, index)
  }

  /** The walk of get, reading ActualAt. */
  function GetMaxWalk(n: Node, index: int): (res: (int, Node))
    requires Shaped(n)
    ensures res.0 == ActualAt(n, index)
    ensures res.1.l == n.l && res.1.r == n.r && Shaped(res.1) && Actual(res.1) == Actual(n)
    ensures res.1.val == n.val && (MaxValid(n) ==> MaxValid(res.1))
    decreases n.r - n.l
  {
    if n.l == n.r then (n.val, n)
    else
      var p := PushDown(n);
      ActualSplit(p);
      if index <= p.lChild.r then
        var (x, c) := GetMaxWalk(p.lChild, index);
        var m := WithChildren(p, p.val, c, p.rChild);
        ActualSplit(m);
        (x, m)
      else
        var (x, c) := GetMaxWalk(p.rChild, index);
        var m := WithChildren(p, p.val, p.lChild, c);
        ActualSplit(m);
        (x, m)
  }


  /** queryMax (SegTreeAdditionAndMax): the larger of the children's
      answers for a partly covered node, MIN_VALUE for a node outside l..r
      and the node's value for one inside it; the new tree has the pending
      additions pushed on the way. */
  function RangeMax(n: Node, l: int, r: int): (res: (int, Node))
    requires Shaped(n)
    ensures res.1.l == n.l && res.1.r == n.r && Shaped(res.1) && res.1.val == n.val
    decreases n.r - n.l
  {
    if r < n.l || l > n.r then
      (MinValue, n)
    else if l <= n.l && n.r <= r then
      (n.val, n)
    else
      var p := PushDown(n);
      var (a, lc) := RangeMax(p.lChild, l, r);
      var (b, rc) := RangeMax(p.rChild, l, r);
      (Max(a, b), WithChildren(p, p.val, lc, rc))
  }

  /** queryMax gives the largest value at positions l..r, MIN_VALUE when
      there is none; pushing additions changes no value. Values are Java
      ints, so none is below MIN_VALUE. */
  lemma {:induction false} RangeMaxIsMax(n: Node, l: int, r: int)
    requires Shaped(n) && MaxValid(n) && AtLeast(Actual(n), MinValue)
    ensures RangeMax(n, l, r).0 == MaxOr(Within(Actual(n), n.l, l, r))
    ensures Actual(RangeMax(n, l, r).1) == Actual(n) && MaxValid(RangeMax(n, l, r).1)
    decreases n.r - n.l
  {
    if r < n.l || l > n.r {
      WithinNone(Actual(n), n.l, l, r);
    } else if l <= n.l && n.r <= r {
      WithinAll(Actual(n), n.l, l, r);
      MaxValidIsMax(n);
    } else {
      var p := PushDown(n);
      var (a, lc) := RangeMax(p.lChild, l, r);
      var (b, rc) := RangeMax(p.rChild, l, r);
      var m := WithChildren(p, p.val, lc, rc);
      assert RangeMax(n, l, r) == (Max(a, b), m);
      var sa, sb := Actual(p.lChild), Actual(p.rChild);
      assert Actual(n) == sa + sb by {
        ActualSplit(p);
      }
      assert AtLeast(sa, MinValue) && AtLeast(sb, MinValue) by {
        AtLeastConcat(sa, sb, MinValue);
      }
      RangeMaxIsMax(p.lChild, l, r);
      RangeMaxIsMax(p.rChild, l, r);
      assert Actual(m) == sa + sb by {
        ActualSplit(m);
      }
      MaxOrSplit(Actual(n), sa, sb, n.l, p.rChild.l, l, r, a, b);
    }
  }

  class SegTreeAdditionAndMax {
    var root: Node

    ghost predicate Valid()
      reads this
    {
      Shaped(root) && root.l == 0 && MaxValid(root)
    }

    ghost function Contents(): seq<int>
      reads this
    {
      Actual(root)
    }

    /** The source fails on an empty array, so arr is non-empty. */
    constructor (arr: seq<int>)
      requires |arr| > 0
      ensures Valid() && Contents() == arr
    {
      root := BuildMax(arr, 0, |arr| - 1);
    }

    /** update(l, r, add): add is added to the values at positions l..r. */
    method Update(l: int, r: int, add: int)
      requires Valid()
      modifies this
      ensures Valid() && Contents() == AddRange(old(Contents()), 0, l, r, add)
    {
      root := UpdateMax(root, l, r, add);
    }

    /** get(index): the current value at index (at the nearest end for an
        index outside the array). */
    method Get(index: int) returns (v: int)
      requires Valid()
      modifies this
      ensures Valid() && Contents() == old(Contents())
      ensures v == Contents()[Clamp(index, 0, |Contents()| - 1)]
    {
      var res := GetMax(root, index);
      v, root := res.0, res.1;
    }

    /** queryMax(l, r): the largest value at positions l..r, or
        Integer.MIN_VALUE when the range holds none. */
    method QueryMax(l: int, r: int) returns (v: int)
      requires Valid() && AtLeast(Contents(), MinValue)
      modifies this
      ensures Valid() && Contents() == old(Contents())
      ensures v == MaxOr(Within(Contents(), 0, l, r))
    {
      RangeMaxIsMax(root, l, r);
      var res := RangeMax(root, l, r);
      v, root := res.0, res.1;
    }
  }
}
