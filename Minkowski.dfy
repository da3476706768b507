// The Minkowski sum of two convex polygons given counter-clockwise, from
// projects/19-MinkowskiSum/implementation/minkowskiSum.java: both polygons
// are rotated to start at their lowest vertex, extended by their first two
// vertices, and merged edge by edge by comparing edge directions with the
// cross product.
module Minkowski {
  import opened Outcomes

  /** A point with integer coordinates (the source's longs, unbounded here). */
  datatype Pt = Pt(x: int, y: int)

  function Add(a: Pt, b: Pt): Pt
  {
    Pt(a.x + b.x, a.y + b.y)
  }

  function Sub(a: Pt, b: Pt): Pt
  {
    Pt(a.x - b.x, a.y - b.y)
  }

  /** The z component of the cross product: positive when b turns
      counter-clockwise from a. */
  function Cross(a: Pt, b: Pt): int
  {
    a.x * b.y - a.y * b.x
  }

  /** Subtraction undoes addition. */
  lemma SubUndoesAdd(a: Pt, b: Pt)
    ensures Sub(Add(a, b), b) == a && Add(Sub(a, b), b) == a
  {
  }

  lemma AddCommutes(a: Pt, b: Pt)
    ensures Add(a, b) == Add(b, a)
  {
  }

  /** Swapping the operands of the cross product negates it, so a vector
      has cross product zero with itself. */
  lemma CrossAntisymmetric(a: Pt, b: Pt)
    ensures Cross(a, b) == -Cross(b, a)
    ensures Cross(a, a) == 0
  {
  }

  /** The cross product is linear in its first operand. */
  lemma CrossLinear(a: Pt, b: Pt, c: Pt)
    ensures Cross(Add(a, b), c) == Cross(a, c) + Cross(b, c)
  {
  }

  /** reorderPolygon's order: lower y first, then lower x. */
  predicate Lower(a: Pt, b: Pt)
  {
    a.y < b.y || (a.y == b.y && a.x < b.x)
  }

  /** pos is the first position of a lowest vertex: no vertex is lower,
      and every earlier vertex is strictly higher. */
  ghost predicate IsFirstLowest(s: seq<Pt>, pos: int)
  {
    0 <= pos < |s|
    && (forall q :: 0 <= q < |s| ==> !Lower(s[q], s[pos]))
    && (forall q :: 0 <= q < pos ==> Lower(s[pos], s[q]))
  }

  /** The first lowest vertex is unique. */
  lemma FirstLowestUnique(s: seq<Pt>, a: int, b: int)
    requires IsFirstLowest(s, a) && IsFirstLowest(s, b)
    ensures a == b
  {
    assert !Lower(s[b], s[a]) && !Lower(s[a], s[b]);
  }

  /** The scan of reorderPolygon: the first position of a lowest vertex,
      or 0 for an empty polygon. */
  method LowestIndex(s: seq<Pt>) returns (pos: int)
    ensures |s| > 0 ==> IsFirstLowest(s, pos)
    ensures |s| == 0 ==> pos == 0
  {
    pos := 0;
    var i := 1;
    while i < |s|
      invariant |s| > 0 ==> 1 <= i <= |s|
      invariant |s| > 0 ==> 0 <= pos < i
      invariant |s| == 0 ==> pos == 0
      invariant forall q :: 0 <= q < i && q < |s| ==> !Lower(s[q], s[pos])
      invariant forall q :: 0 <= q < pos ==> Lower(s[pos], s[q])
    {
      if s[i].y < s[pos].y || (s[i].y == s[pos].y && s[i].x < s[pos].x) {
        pos := i;
      }
      i := i + 1;
    }
  }

  /** Collections.rotate(s, -k): the element at k moves to the front. */
  function RotateLeft<T>(s: seq<T>, k: int): (r: seq<T>)
    requires 0 <= k <= |s|
    ensures |r| == |s|
  {
    s[k..] + s[..k]
  }

  /** A rotation moves every element k places towards the front, the first
      k wrapping round to the back, and keeps the same elements. */
  lemma RotateLeftAt<T>(s: seq<T>, k: int)
    requires 0 <= k <= |s|
    ensures forall i :: 0 <= i < |s| - k ==> RotateLeft(s, k)[i] == s[i + k]
    ensures forall i :: |s| - k <= i < |s| ==> RotateLeft(s, k)[i] == s[i + k - |s|]
    ensures multiset(RotateLeft(s, k)) == multiset(s)
  {
    assert s == s[..k] + s[k..];
  }

  /** A java.util.List of points that the algorithm changes in place. */
  class PointList {
    var elems: seq<Pt>

    constructor (init: seq<Pt>)
      ensures elems == init
    {
      elems := init;
    }

    /** List.add: appends one point. */
    method Append(p: Pt)
      modifies this
      ensures elems == old(elems) + [p]
    {
      elems := elems + [p];
    }
  }

  /** reorderPolygon: rotates the list so that its first lowest vertex comes
      first. */
  method ReorderPolygon(P: PointList) returns (ghost pos: int)
    modifies P
    ensures 0 <= pos <= |old(P.elems)|
    ensures P.elems == RotateLeft(old(P.elems), pos)
    ensures |old(P.elems)| > 0 ==> IsFirstLowest(old(P.elems), pos) && P.elems[0] == old(P.elems)[pos]
    ensures |old(P.elems)| == 0 ==> pos == 0
  {
    var k := LowestIndex(P.elems);
    P.elems := RotateLeft(P.elems, k);
    pos := k;
  }

  /** One step of the merge: from vertex pair (i, j) to (i2, j2), advancing
      by at most one in each polygon, and by at least one in total. */
  predicate Step(i: int, j: int, i2: int, j2: int)
  {
    (i2 == i || i2 == i + 1) && (j2 == j || j2 == j + 1) && (i2, j2) != (i, j)
  }

  /** The vertex pairs (ps[k], qs[k]) visited by the merge: a monotone path
      from (0, 0) whose every step is a Step, after which (n, m) follows. */
  ghost predicate MergePath(ps: seq<int>, qs: seq<int>, n: int, m: int)
  {
    |ps| == |qs| && |ps| > 0 && ps[0] == 0 && qs[0] == 0
    && (forall k :: 0 <= k < |ps| - 1 ==> Step(ps[k], qs[k], ps[k + 1], qs[k + 1]))
    && Step(ps[|ps| - 1], qs[|qs| - 1], n, m)
  }

  /** A monotone path stays inside the grid [0,n] x [0,m]. */
  lemma {:induction false} MergePathBounds(ps: seq<int>, qs: seq<int>, n: int, m: int, k: int)
    requires |ps| == |qs| && |ps| > 0 && ps[0] == 0 && qs[0] == 0
    requires forall t :: 0 <= t < |ps| - 1 ==> Step(ps[t], qs[t], ps[t + 1], qs[t + 1])
    requires 0 <= k < |ps|
    ensures 0 <= ps[k] <= k && 0 <= qs[k] <= k && ps[k] + qs[k] >= k
  {
    if k > 0 {
      MergePathBounds(ps, qs, n, m, k - 1);
    }
  }

  /** Appending the current pair and stepping on keeps a merge path. */
  lemma MergePathSnoc(ps: seq<int>, qs: seq<int>, i: int, j: int, i2: int, j2: int)
    requires |ps| == |qs|
    requires |ps| == 0 ==> i == 0 && j == 0
    requires |ps| > 0 ==> MergePath(ps, qs, i, j)
    requires Step(i, j, i2, j2)
    ensures MergePath(ps + [i], qs + [j], i2, j2)
  {
  }

  /** The outcome of the merge loop: the sum polygon, or the report that the
      indices stopped advancing, after which the source repeats the same
      iteration forever. */
  datatype Failure = NoProgress

  /** The merge loop of minkowski over the extended vertex lists PP and QQ
      (each polygon followed by its first two vertices). Every point of the
      result is a vertex of P plus a vertex of Q along a monotone merge path
      that starts at the two first vertices and ends after going once around
      both polygons, so the result has between max(n, m) and n + m points.
      When an iteration advances neither index, the source repeats it
      forever; that is reported as NoProgress. */
  method Merge(PP: seq<Pt>, QQ: seq<Pt>) returns (r: Result<seq<Pt>, Failure>, ghost ps: seq<int>, ghost qs: seq<int>)
    requires |PP| >= 3 && |QQ| >= 3
    ensures r.Ok? ==> MergePath(ps, qs, |PP| - 2, |QQ| - 2) && |r.value| == |ps|
    ensures r.Ok? ==> forall k :: 0 <= k < |r.value| ==>
      0 <= ps[k] <= |PP| - 2 && 0 <= qs[k] <= |QQ| - 2 && r.value[k] == Add(PP[ps[k]], QQ[qs[k]])
    ensures r.Ok? ==> |PP| - 2 <= |r.value| <= |PP| - 2 + |QQ| - 2 && |QQ| - 2 <= |r.value|
  {
    var n, m := |PP| - 2, |QQ| - 2;
    var result := [];
    ps, qs := [], [];
    var i, j := 0, 0;
    while i < |PP| - 2 || j < |QQ| - 2
      invariant 0 <= i <= n && 0 <= j <= m
      invariant |result| == |ps| == |qs|
      invariant |ps| == 0 ==> i == 0 && j == 0
      invariant |ps| > 0 ==> MergePath(ps, qs, i, j)
      invariant forall k :: 0 <= k < |result| ==>
        0 <= ps[k] <= n && 0 <= qs[k] <= m && result[k] == Add(PP[ps[k]], QQ[qs[k]])
      decreases n - i + m - j
    {
      result := result + [Add(PP[i], QQ[j])];
      var cross := Cross(Sub(PP[i + 1], PP[i]), Sub(QQ[j + 1], QQ[j]));
      var i2, j2 := i, j;
      if cross >= 0 && i < |PP| - 2 {
        i2 := i + 1;
      }
      if cross <= 0 && j < |QQ| - 2 {
        j2 := j + 1;
      }
      if i2 == i && j2 == j {
        return Err(NoProgress), ps + [i], qs + [j];
      }
      MergePathSnoc(ps, qs, i, j, i2, j2);
      ps, qs := ps + [i], qs + [j];
      i, j := i2, j2;
    }
    MergePathBounds(ps, qs, n, m, |ps| - 1);
    r := Ok(result);
  }

  /** minkowski: the sum of the polygons P and Q, given counter-clockwise
      with at least two vertices each. Both lists are rotated to start at
      their first lowest vertex and extended by their first two vertices in
      place, as in the source; the result is the merge of the two. */
  method Minkowski(P: PointList, Q: PointList) returns (r: Result<seq<Pt>, Failure>, ghost a: int, ghost b: int, ghost ps: seq<int>, ghost qs: seq<int>)
    requires P != Q
    requires |P.elems| >= 2 && |Q.elems| >= 2
    modifies P, Q
    ensures |P.elems| == |old(P.elems)| + 2 && |Q.elems| == |old(Q.elems)| + 2
    ensures IsFirstLowest(old(P.elems), a) && P.elems == RotateLeft(old(P.elems), a) + P.elems[..2]
    ensures IsFirstLowest(old(Q.elems), b) && Q.elems == RotateLeft(old(Q.elems), b) + Q.elems[..2]
    ensures r.Ok? ==> MergePath(ps, qs, |old(P.elems)|, |old(Q.elems)|) && |r.value| == |ps|
    ensures r.Ok? ==> forall k :: 0 <= k < |r.value| ==>
      0 <= ps[k] <= |old(P.elems)| && 0 <= qs[k] <= |old(Q.elems)| &&
      r.value[k] == Add(P.elems[ps[k]], Q.elems[qs[k]])
    ensures r.Ok? ==> |old(P.elems)| <= |r.value| <= |old(P.elems)| + |old(Q.elems)| && |old(Q.elems)| <= |r.value|
  {
    a := ReorderPolygon(P);
    b := ReorderPolygon(Q);
    ghost var P0, Q0 := P.elems, Q.elems;
    P.Append(P.elems[0]);
    P.Append(P.elems[1]);
    Q.Append(Q.elems[0]);
    Q.Append(Q.elems[1]);
    assert P.elems == P0 + P.elems[..2];
    assert Q.elems == Q0 + Q.elems[..2];
    r, ps, qs := Merge(P.elems, Q.elems);
  }
}
