// Partitions of a finite set into blocks, and their refinement by a
// splitter set: the vocabulary of both Hopcroft minimizers.
module Partitions {

  /** The union of the blocks of P. */
  function Union<T>(P: seq<set<T>>): set<T>
  {
    if P == [] then {} else Union(P[..|P| - 1]) + P[|P| - 1]
  }

  lemma UnionOne<T>(a: set<T>)
    ensures Union([a]) == a
  {
    assert [a][..0] == [];
  }

  lemma UnionTwo<T>(a: set<T>, b: set<T>)
    ensures Union([a, b]) == a + b
  {
    assert [a, b][..1] == [a];
    UnionOne(a);
  }

  /** No two blocks of P share an element. */
  ghost predicate Disjoint<T>(P: seq<set<T>>)
  {
    forall i, j :: 0 <= i < j < |P| ==> P[i] !! P[j]
  }

  /** P's blocks are non-empty, pairwise disjoint and cover exactly U. */
  ghost predicate Partition<T>(P: seq<set<T>>, U: set<T>)
  {
    (forall i :: 0 <= i < |P| ==> P[i] != {}) && Disjoint(P) && Union(P) == U
  }

  /** No block of P mixes elements of S with elements outside S. */
  ghost predicate Respects<T>(P: seq<set<T>>, S: set<T>)
  {
    forall i :: 0 <= i < |P| ==> P[i] <= S || P[i] !! S
  }

  /** A block Y split by X: its parts inside and outside X, in that order,
      when both are non-empty; Y itself otherwise. */
  function Split<T>(Y: set<T>, X: set<T>): seq<set<T>>
  {
    if Y * X != {} && Y - X != {} then [Y * X, Y - X] else [Y]
  }

  /** Every block of P split by X, in the order of P. */
  function Refine<T>(P: seq<set<T>>, X: set<T>): seq<set<T>>
  {
    if P == [] then [] else Refine(P[..|P| - 1], X) + Split(P[|P| - 1], X)
  }

  lemma {:induction false} InUnion<T>(P: seq<set<T>>, x: T)
    ensures x in Union(P) <==> exists i :: 0 <= i < |P| && x in P[i]
  {
    if P != [] {
      var n := |P| - 1;
      InUnion(P[..n], x);
      if x in Union(P[..n]) {
        var i :| 0 <= i < n && x in P[..n][i];
        assert x in P[i];
      }
    }
  }

  lemma {:induction false} BlockInUnion<T>(P: seq<set<T>>, i: int)
    requires 0 <= i < |P|
    ensures P[i] <= Union(P)
  {
    forall x | x in P[i]
      ensures x in Union(P)
    {
      InUnion(P, x);
    }
  }

  /** The element x lies in exactly one block of the partition P. */
  lemma BlockOf<T>(P: seq<set<T>>, U: set<T>, x: T) returns (i: int)
    requires Partition(P, U) && x in U
    ensures 0 <= i < |P| && x in P[i]
    ensures forall j :: 0 <= j < |P| && x in P[j] ==> j == i
  {
    InUnion(P, x);
    i :| 0 <= i < |P| && x in P[i];
  }

  /** A set meeting no block of P misses their union. */
  lemma {:induction false} UnionMissed<T>(P: seq<set<T>>, Y: set<T>)
    requires forall i :: 0 <= i < |P| ==> P[i] !! Y
    ensures Union(P) !! Y
  {
    if P != [] {
      var n := |P| - 1;
      UnionMissed(P[..n], Y);
    }
  }

  /** Refinement keeps the union, and keeps the blocks disjoint and non-empty. */
  lemma {:induction false} RefineUnion<T>(P: seq<set<T>>, X: set<T>)
    ensures Union(Refine(P, X)) == Union(P)
    decreases |P|
  {
    if P != [] {
      var n := |P| - 1;
      RefineUnion(P[..n], X);
      var Y := P[n];
      var R := Refine(P[..n], X);
      if Y * X != {} && Y - X != {} {
        assert R + [Y * X, Y - X] == (R + [Y * X]) + [Y - X];
        UnionSnoc(R + [Y * X], Y - X);
        UnionSnoc(R, Y * X);
        assert Union(R + [Y * X, Y - X]) == Union(R) + Y;
      } else {
        UnionSnoc(R, Y);
      }
    }
  }

  lemma UnionSnoc<T>(P: seq<set<T>>, a: set<T>)
    ensures Union(P + [a]) == Union(P) + a
  {
    assert (P + [a])[..|P|] == P;
  }

  /** Each block of Refine(P, X) lies inside a block of P, inside or outside X. */
  lemma {:induction false} RefineBlocks<T>(P: seq<set<T>>, X: set<T>, k: int)
    requires 0 <= k < |Refine(P, X)|
    ensures exists i :: 0 <= i < |P| && Refine(P, X)[k] <= P[i]
    ensures Refine(P, X)[k] <= X || Refine(P, X)[k] !! X
    ensures (forall i :: 0 <= i < |P| ==> P[i] != {}) ==> Refine(P, X)[k] != {}
    decreases |P|
  {
    var n := |P| - 1;
    var R := Refine(P[..n], X);
    if k < |R| {
      RefineBlocks(P[..n], X, k);
      var i :| 0 <= i < n && R[k] <= P[..n][i];
      assert R[k] <= P[i];
    } else {
      var Y := P[n];
      assert Refine(P, X) == R + Split(Y, X);
      if Y * X != {} && Y - X != {} {
        assert Refine(P, X)[k] == Y * X || Refine(P, X)[k] == Y - X;
      } else {
        assert Refine(P, X)[k] == Y;
        if Y - X == {} {
          forall x | x in Y
            ensures x in X
          {
            assert x !in Y - X;
          }
        } else {
          forall x | x in Y
            ensures x !in X
          {
            assert x !in Y * X;
          }
        }
      }
    }
  }

  lemma {:induction false} RefinePartition<T>(P: seq<set<T>>, X: set<T>, U: set<T>)
    requires Partition(P, U)
    ensures Partition(Refine(P, X), U)
    decreases |P|
  {
    RefineUnion(P, X);
    var R := Refine(P, X);
    forall k | 0 <= k < |R|
      ensures R[k] != {}
    {
      RefineBlocks(P, X, k);
    }
    DisjointRefine(P, X);
  }

  lemma {:induction false} DisjointRefine<T>(P: seq<set<T>>, X: set<T>)
    requires Disjoint(P)
    ensures Disjoint(Refine(P, X))
    decreases |P|
  {
    if P != [] {
      var n := |P| - 1;
      var Y := P[n];
      assert Disjoint(P[..n]);
      DisjointRefine(P[..n], X);
      var R := Refine(P[..n], X);
      RefineUnion(P[..n], X);
      UnionMissed(P[..n], Y);
      forall k | 0 <= k < |R|
        ensures R[k] !! Y
      {
        BlockInUnion(R, k);
      }
    }
  }

  /** Refinement keeps every set the blocks respected. */
  lemma {:induction false} RefineRespects<T>(P: seq<set<T>>, X: set<T>, S: set<T>)
    requires Respects(P, S)
    ensures Respects(Refine(P, X), S)
  {
    var R := Refine(P, X);
    forall k | 0 <= k < |R|
      ensures R[k] <= S || R[k] !! S
    {
      RefineBlocks(P, X, k);
    }
  }

  /** Refinement never loses a block, and when it adds none it changes nothing. */
  lemma {:induction false} RefineGrows<T>(P: seq<set<T>>, X: set<T>)
    ensures |Refine(P, X)| >= |P|
    ensures |Refine(P, X)| == |P| ==> Refine(P, X) == P
    decreases |P|
  {
    if P != [] {
      var n := |P| - 1;
      RefineGrows(P[..n], X);
      if |Refine(P, X)| == |P| {
        assert P == P[..n] + [P[n]];
      }
    }
  }

  /** A partition of U has at most |U| blocks. */
  lemma {:induction false} BlockCount<T>(P: seq<set<T>>, U: set<T>)
    requires Partition(P, U)
    ensures |P| <= |U|
    decreases |P|
  {
    if P != [] {
      var n := |P| - 1;
      var Q := P[..n];
      assert Disjoint(Q);
      BlockCount(Q, Union(Q));
      UnionMissed(Q, P[n]);
      assert |Union(Q) + P[n]| == |Union(Q)| + |P[n]|;
      assert P[n] != {};
    }
  }

  /** Each block of Refine(P, X) is a block of P, or its part inside or outside X. */
  lemma {:induction false} RefinePieces<T>(P: seq<set<T>>, X: set<T>, k: int)
    requires 0 <= k < |Refine(P, X)|
    ensures exists i :: 0 <= i < |P| && (Refine(P, X)[k] == P[i] || Refine(P, X)[k] == P[i] * X || Refine(P, X)[k] == P[i] - X)
    decreases |P|
  {
    var n := |P| - 1;
    var R := Refine(P[..n], X);
    if k < |R| {
      RefinePieces(P[..n], X, k);
      var i :| 0 <= i < n && (R[k] == P[..n][i] || R[k] == P[..n][i] * X || R[k] == P[..n][i] - X);
      assert P[..n][i] == P[i];
    } else {
      assert Refine(P, X)[k] in Split(P[n], X);
    }
  }

  /** Two equal entries of a sequence count twice in its multiset. */
  lemma TwiceCounted<T>(Q: seq<T>, i: int, j: int)
    requires 0 <= i < j < |Q| && Q[i] == Q[j]
    ensures multiset(Q)[Q[i]] >= 2
  {
    assert Q == Q[..j] + [Q[j]] + Q[j + 1..];
    assert Q[i] in multiset(Q[..j]) by {
      assert Q[..j][i] == Q[i];
    }
  }

  /** The blocks of a partition in any other order form the same partition. */
  lemma PermutedPartition<T>(P: seq<set<T>>, Q: seq<set<T>>, U: set<T>)
    requires Partition(P, U) && multiset(Q) == multiset(P)
    ensures Partition(Q, U)
  {
    forall i | 0 <= i < |Q|
      ensures Q[i] != {} && exists a :: 0 <= a < |P| && P[a] == Q[i]
    {
      assert Q[i] in multiset(P);
    }
    forall i, j | 0 <= i < j < |Q|
      ensures Q[i] !! Q[j]
    {
      var a :| 0 <= a < |P| && P[a] == Q[i];
      var b :| 0 <= b < |P| && P[b] == Q[j];
      if Q[i] == Q[j] {
        TwiceCounted(Q, i, j);
        if a == b {
          assert multiset(P)[P[a]] >= 2;
          var b' := SecondIndex(P, a);
        }
        assert false;
      }
    }
    var UQ, UP := Union(Q), Union(P);
    forall x
      ensures x in UQ <==> x in UP
    {
      InUnion(Q, x);
      InUnion(P, x);
      if x in Union(P) {
        var a :| 0 <= a < |P| && x in P[a];
        assert P[a] in multiset(Q);
      }
      if x in Union(Q) {
        var i :| 0 <= i < |Q| && x in Q[i];
        var a :| 0 <= a < |P| && P[a] == Q[i];
        assert x in P[a];
      }
    }
    SameElements(UQ, UP);
  }

  /** Sets with the same elements are equal. */
  lemma SameElements<T>(A: set<T>, B: set<T>)
    requires forall x :: x in A <==> x in B
    ensures A == B
  {
  }

  /** An entry counted twice occurs at a second index. */
  lemma SecondIndex<T>(P: seq<T>, a: int) returns (b: int)
    requires 0 <= a < |P| && multiset(P)[P[a]] >= 2
    ensures 0 <= b < |P| && b != a && P[b] == P[a]
  {
    var rest := P[..a] + P[a + 1..];
    assert P == P[..a] + [P[a]] + P[a + 1..];
    assert multiset(rest)[P[a]] >= 1;
    assert P[a] in rest;
    var k :| 0 <= k < |rest| && rest[k] == P[a];
    if k < a {
      b := k;
      assert rest[k] == P[..a][k];
    } else {
      b := k + 1;
      assert rest[k] == P[a + 1..][k - a];
    }
  }

  /** A worklist without its first occurrence of Y, as a deque's remove(Object) leaves it. */
  function RemoveFirst<T(==)>(W: seq<T>, Y: T): seq<T>
  {
    if W == [] then []
    else if W[0] == Y then W[1..]
    else [W[0]] + RemoveFirst(W[1..], Y)
  }

  /** RemoveFirst cuts out exactly the first occurrence of Y, and changes
      nothing when Y is absent. */
  lemma {:induction false} RemoveFirstAt<T>(W: seq<T>, Y: T) returns (k: int)
    ensures Y in W ==> 0 <= k < |W| && W[k] == Y && Y !in W[..k] && RemoveFirst(W, Y) == W[..k] + W[k + 1..]
    ensures Y !in W ==> RemoveFirst(W, Y) == W
  {
    if W == [] {
      k := 0;
    } else if W[0] == Y {
      k := 0;
      assert W[..0] == [];
    } else {
      assert W == [W[0]] + W[1..];
      var k' := RemoveFirstAt(W[1..], Y);
      k := k' + 1;
      if Y in W {
        assert Y in W[1..];
        assert W[..k] == [W[0]] + W[1..][..k'];
        assert W[k + 1..] == W[1..][k' + 1..];
      }
    }
  }
}
