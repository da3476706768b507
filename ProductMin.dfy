// The second half of the product solution of the Hopcroft challenge
// (projects/13-Hopcroft/programmingChallenge/solutions/Solution.java):
// Hopcroft's refinement over the reachable pairs of states, with one
// worklist entry per block and symbol, and the tables the program prints
// (block of every pair, minimized transitions, blocks by class).
module ProductMinimizer {
  import opened Partitions
  import opened ProductPairs
  import Suffixes

  /** The product states 0 .. m - 1. */
  ghost function Below(m: int): (r: set<int>)
    ensures forall i :: i in r <==> 0 <= i < m
    decreases m
  {
    if m <= 0 then {} else Below(m - 1) + {m - 1}
  }

  lemma BelowSize(m: nat)
    ensures |Below(m)| <= m
  {
    Suffixes.CardBound(Below(m), m);
  }

  /** Every class is 0 (reject), 1 (half) or 2 (accept). */
  ghost predicate Classes(out: seq<int>)
  {
    forall i :: 0 <= i < |out| ==> 0 <= out[i] <= 2
  }

  /** The product states of class t. */
  ghost function Group(out: seq<int>, t: int): (g: set<int>)
    ensures forall i :: i in g <==> 0 <= i < |out| && out[i] == t
  {
    set i | 0 <= i < |out| && out[i] == t
  }

  /** No block mixes two classes. */
  ghost predicate Uniform(P: seq<set<int>>, out: seq<int>)
  {
    Respects(P, Group(out, 0)) && Respects(P, Group(out, 1)) && Respects(P, Group(out, 2))
  }

  // ---------------------------------------------------------------------
  // Equivalence of product states.

  /** s and t have the same class after every word. */
  ghost predicate Equivalent(D: seq<seq<int>>, out: seq<int>, s: int, t: int)
    requires ValidDelta(D) && |out| == |D| && 0 <= s < |D| && 0 <= t < |D|
  {
    forall w :: Bits(w) ==> out[Run(D, s, w)] == out[Run(D, t, w)]
  }

  /** No state outside B is equivalent to a state inside B. */
  ghost predicate Saturated(B: set<int>, D: seq<seq<int>>, out: seq<int>)
    requires ValidDelta(D) && |out| == |D|
  {
    forall x, y :: 0 <= x < |D| && 0 <= y < |D| && x in B && Equivalent(D, out, x, y) ==> y in B
  }

  ghost predicate AllSaturated(Bs: seq<set<int>>, D: seq<seq<int>>, out: seq<int>)
    requires ValidDelta(D) && |out| == |D|
  {
    forall i :: 0 <= i < |Bs| ==> Saturated(Bs[i], D, out)
  }

  /** Equivalent states move to equivalent states on each symbol. */
  lemma EquivalentStep(D: seq<seq<int>>, out: seq<int>, s: int, t: int, c: int)
    requires ValidDelta(D) && |out| == |D| && 0 <= s < |D| && 0 <= t < |D| && 0 <= c < 2
    requires Equivalent(D, out, s, t)
    ensures Equivalent(D, out, D[s][c], D[t][c])
  {
    forall w | Bits(w)
      ensures out[Run(D, D[s][c], w)] == out[Run(D, D[t][c], w)]
    {
      RunCons(D, s, c, w);
      RunCons(D, t, c, w);
    }
  }

  /** The states whose transition on c enters a saturated set form a saturated set. */
  lemma PreimageSaturated(D: seq<seq<int>>, out: seq<int>, c: int, A: set<int>, X: set<int>)
    requires ValidDelta(D) && |out| == |D| && 0 <= c < 2 && Saturated(A, D, out)
    requires forall s :: s in X <==> 0 <= s < |D| && D[s][c] in A
    ensures Saturated(X, D, out)
  {
    forall x, y | 0 <= x < |D| && 0 <= y < |D| && x in X && Equivalent(D, out, x, y)
      ensures y in X
    {
      EquivalentStep(D, out, x, y, c);
    }
  }

  lemma SplitSaturated(Y: set<int>, X: set<int>, D: seq<seq<int>>, out: seq<int>)
    requires ValidDelta(D) && |out| == |D|
    requires Saturated(Y, D, out) && Saturated(X, D, out)
    ensures Saturated(Y * X, D, out) && Saturated(Y - X, D, out)
  {
    forall x, y | 0 <= x < |D| && 0 <= y < |D| && x in Y - X && Equivalent(D, out, x, y)
      ensures y !in X
    {
      if y in X {
        assert Equivalent(D, out, y, x);
      }
    }
  }

  /** Splitting saturated blocks by a saturated splitter leaves saturated blocks. */
  lemma RefineSaturated(P: seq<set<int>>, X: set<int>, D: seq<seq<int>>, out: seq<int>)
    requires ValidDelta(D) && |out| == |D|
    requires AllSaturated(P, D, out) && Saturated(X, D, out)
    ensures AllSaturated(Refine(P, X), D, out)
  {
    var R := Refine(P, X);
    forall k | 0 <= k < |R|
      ensures Saturated(R[k], D, out)
    {
      RefinePieces(P, X, k);
      var i :| 0 <= i < |P| && (R[k] == P[i] || R[k] == P[i] * X || R[k] == P[i] - X);
      assert Saturated(P[i], D, out);
      SplitSaturated(P[i], X, D, out);
    }
  }

  /** Each class is saturated: equivalent states agree on the empty word. */
  lemma GroupSaturated(D: seq<seq<int>>, out: seq<int>, t: int)
    requires ValidDelta(D) && |out| == |D|
    ensures Saturated(Group(out, t), D, out)
  {
    assert Bits([]);
  }

  // ---------------------------------------------------------------------
  // The first partition (lines 79-88).

  /** P with b appended when b is non-empty (lines 86-88). */
  function AddNonEmpty(P: seq<set<int>>, b: set<int>): seq<set<int>>
  {
    if b != {} then P + [b] else P
  }

  lemma AddNonEmptyPartition(P: seq<set<int>>, U: set<int>, b: set<int>)
    requires Partition(P, U) && U !! b
    ensures Partition(AddNonEmpty(P, b), U + b)
  {
    if b != {} {
      var Q := P + [b];
      assert Q[..|P|] == P;
      forall i | 0 <= i < |P|
        ensures P[i] !! b
      {
        BlockInUnion(P, i);
      }
    }
  }

  /** The non-empty classes in the order reject, half, accept. */
  ghost function Groups(out: seq<int>): seq<set<int>>
  {
    AddNonEmpty(AddNonEmpty(AddNonEmpty([], Group(out, 0)), Group(out, 1)), Group(out, 2))
  }

  /** The classes partition the product states; the first partition keeps
      classes apart and each of its blocks is saturated. */
  lemma GroupsPartition(D: seq<seq<int>>, out: seq<int>)
    requires ValidDelta(D) && |out| == |D| && Classes(out)
    ensures Partition(Groups(out), Below(|out|)) && Uniform(Groups(out), out)
    ensures AllSaturated(Groups(out), D, out)
  {
    GroupsCover(out);
    GroupsArePartition(out);
    GroupsUniform(D, out);
  }

  lemma GroupsArePartition(out: seq<int>)
    requires Group(out, 0) + Group(out, 1) + Group(out, 2) == Below(|out|)
    ensures Partition(Groups(out), Below(|out|))
  {
    var G0, G1, G2 := Group(out, 0), Group(out, 1), Group(out, 2);
    var P1 := AddNonEmpty([], G0);
    var P2 := AddNonEmpty(P1, G1);
    AddNonEmptyPartition([], {}, G0);
    assert {} + G0 == G0;
    assert G0 !! G1 && (G0 + G1) !! G2;
    AddNonEmptyPartition(P1, G0, G1);
    AddNonEmptyPartition(P2, G0 + G1, G2);
  }

  lemma GroupsCover(out: seq<int>)
    requires Classes(out)
    ensures Group(out, 0) + Group(out, 1) + Group(out, 2) == Below(|out|)
  {
  }

  /** Each block of the first partition is one whole class. */
  lemma GroupsUniform(D: seq<seq<int>>, out: seq<int>)
    requires ValidDelta(D) && |out| == |D|
    ensures Uniform(Groups(out), out) && AllSaturated(Groups(out), D, out)
  {
    var G := Groups(out);
    assert forall i :: 0 <= i < |G| ==> G[i] == Group(out, 0) || G[i] == Group(out, 1) || G[i] == Group(out, 2);
    GroupSaturated(D, out, 0);
    GroupSaturated(D, out, 1);
    GroupSaturated(D, out, 2);
  }

  /** The three class sets of lines 80-85, kept when non-empty (lines 86-88). */
  method InitialBlocks(cls: array<int>) returns (P: seq<set<int>>)
    requires Classes(cls[..])
    ensures P == Groups(cls[..])
  {
    var rset, hset, aset := {}, {}, {};
    for i := 0 to cls.Length
      invariant rset == Group(cls[..i], 0) && hset == Group(cls[..i], 1) && aset == Group(cls[..i], 2)
    {
      assert cls[..i + 1] == cls[..i] + [cls[i]];
      if cls[i] == 0 {
        rset := rset + {i};
      } else if cls[i] == 1 {
        hset := hset + {i};
      } else {
        aset := aset + {i};
      }
    }
    assert cls[..cls.Length] == cls[..];
    P := [];
    if rset != {} {
      P := P + [rset];
    }
    if hset != {} {
      P := P + [hset];
    }
    if aset != {} {
      P := P + [aset];
    }
  }

  // ---------------------------------------------------------------------
  // The worklist of (block, symbol) entries.

  type Work = (set<int>, int)

  /** Two entries per block, symbol 0 then symbol 1, in the order of P (lines 89-94). */
  method InitialWork(P: seq<set<int>>) returns (W: seq<Work>)
    ensures |W| == 2 * |P| && forall k :: 0 <= k < |W| ==> W[k] == (P[k / 2], k % 2)
  {
    W := [];
    for i := 0 to |P|
      invariant |W| == 2 * i && forall k :: 0 <= k < |W| ==> W[k] == (P[k / 2], k % 2)
    {
      W := W + [(P[i], 0)];
      W := W + [(P[i], 1)];
    }
  }

  /** Every entry names a set of product states and a symbol. */
  ghost predicate WorkIn(W: seq<Work>, m: int)
  {
    (forall k, s :: 0 <= k < |W| && s in W[k].0 ==> 0 <= s < m) &&
    (forall k :: 0 <= k < |W| ==> 0 <= W[k].1 < 2)
  }

  ghost predicate WorkSaturated(W: seq<Work>, D: seq<seq<int>>, out: seq<int>)
    requires ValidDelta(D) && |out| == |D|
  {
    forall k :: 0 <= k < |W| ==> Saturated(W[k].0, D, out)
  }

  /** X holds exactly the states whose transition on c enters seen. */
  ghost predicate Collected(D: seq<seq<int>>, c: int, X: set<int>, seen: set<int>)
    requires ValidDelta(D) && 0 <= c < 2
  {
    forall s :: s in X <==> 0 <= s < |D| && D[s][c] in seen
  }

  lemma CollectStep(D: seq<seq<int>>, c: int, X: set<int>, seen: set<int>, q: int, S: set<int>)
    requires ValidDelta(D) && 0 <= c < 2 && 0 <= q < |D|
    requires Collected(D, c, X, seen) && S == Preds(D, c, q, |D|)
    ensures Collected(D, c, X + S, seen + {q})
  {
  }

  /** A set of states is empty or has an element (the witness a `:|` pick
      over a set of integers needs). */
  lemma Elements(S: set<int>)
    ensures S == {} || exists q :: q in S
  {
    if forall q :: q !in S {
      assert S == {};
    }
  }

  /** The splitter of lines 99-103: the union of the predecessor sets of A's states. */
  method Preimage(inv: array2<set<int>>, ghost D: seq<seq<int>>, c: int, A: set<int>) returns (X: set<int>)
    requires ValidDelta(D) && Inverse(inv, D) && 0 <= c < 2
    requires forall q :: q in A ==> 0 <= q < |D|
    ensures forall s :: s in X <==> 0 <= s < |D| && D[s][c] in A
  {
    X := {};
    var rest := A;
    ghost var seen: set<int> := {};
    while rest != {}
      invariant rest + seen == A && rest !! seen
      invariant Collected(D, c, X, seen)
      decreases |rest|
    {
      Elements(rest);
      var q :| q in rest;
      CollectStep(D, c, X, seen, q, inv[c, q]);
      X := X + inv[c, q];
      seen := seen + {q};
      rest := rest - {q};
    }
  }

  /** The worklist update for one symbol once block Y splits into inter and
      diff (lines 117-125): both halves replace a waiting (Y, sym), else the
      smaller half is added. */
  function Requeue(W: seq<Work>, Y: set<int>, inter: set<int>, diff: set<int>, sym: int): seq<Work>
  {
    if (Y, sym) in W then RemoveFirst(W, (Y, sym)) + [(inter, sym), (diff, sym)]
    else W + [(if |inter| <= |diff| then inter else diff, sym)]
  }

  /** The update for the symbols below n (the loop of line 116). */
  function RequeueBelow(W: seq<Work>, Y: set<int>, inter: set<int>, diff: set<int>, n: nat): seq<Work>
  {
    if n == 0 then W else Requeue(RequeueBelow(W, Y, inter, diff, n - 1), Y, inter, diff, n - 1)
  }

  /** The worklist after the blocks of P are split by X in order (lines 104-128). */
  function WorkAfter(P: seq<set<int>>, W: seq<Work>, X: set<int>): seq<Work>
  {
    if P == [] then W
    else
      var W0 := WorkAfter(P[..|P| - 1], W, X);
      var Y := P[|P| - 1];
      if Y * X != {} && Y - X != {} then RequeueBelow(W0, Y, Y * X, Y - X, 2) else W0
  }

  /** Every entry after the update was waiting before or is a half with a
      symbol below n. */
  lemma {:induction false} RequeueFrom(W: seq<Work>, Y: set<int>, inter: set<int>, diff: set<int>, n: nat, k: int)
    requires 0 <= k < |RequeueBelow(W, Y, inter, diff, n)|
    ensures var e := RequeueBelow(W, Y, inter, diff, n)[k];
            e in W || ((e.0 == inter || e.0 == diff) && 0 <= e.1 < n)
  {
    if n > 0 {
      var W0 := RequeueBelow(W, Y, inter, diff, n - 1);
      var e := RequeueBelow(W, Y, inter, diff, n)[k];
      if (Y, n - 1) in W0 {
        var r := RemoveFirst(W0, (Y, n - 1));
        var j := RemoveFirstAt(W0, (Y, n - 1));
        if k < |r| {
          var k0 := if k < j then k else k + 1;
          assert e == W0[k0];
          RequeueFrom(W, Y, inter, diff, n - 1, k0);
        }
      } else if k < |W0| {
        RequeueFrom(W, Y, inter, diff, n - 1, k);
      }
    }
  }

  /** Every entry of the new worklist was waiting before or is a block of
      the refined partition with a symbol. */
  lemma {:induction false} WorkAfterFrom(P: seq<set<int>>, W: seq<Work>, X: set<int>, k: int)
    requires 0 <= k < |WorkAfter(P, W, X)|
    ensures var e := WorkAfter(P, W, X)[k];
            e in W || (e.0 in Refine(P, X) && 0 <= e.1 < 2)
    decreases |P|
  {
    if P != [] {
      var n := |P| - 1;
      var W0 := WorkAfter(P[..n], W, X);
      var Y := P[n];
      assert Refine(P, X) == Refine(P[..n], X) + Split(Y, X);
      var e := WorkAfter(P, W, X)[k];
      if Y * X != {} && Y - X != {} {
        RequeueFrom(W0, Y, Y * X, Y - X, 2, k);
        if e in W0 {
          var k0 :| 0 <= k0 < |W0| && W0[k0] == e;
          WorkAfterFrom(P[..n], W, X, k0);
        } else {
          assert e.0 in Split(Y, X);
        }
      } else {
        WorkAfterFrom(P[..n], W, X, k);
      }
    }
  }

  /** A splitter that splits no block leaves the worklist alone. */
  lemma {:induction false} WorkAfterSame(P: seq<set<int>>, W: seq<Work>, X: set<int>)
    requires |Refine(P, X)| == |P|
    ensures WorkAfter(P, W, X) == W
    decreases |P|
  {
    if P != [] {
      var n := |P| - 1;
      RefineGrows(P[..n], X);
      WorkAfterSame(P[..n], W, X);
    }
  }

  /** The size test of line 108: the intersection is as large as Y exactly
      when nothing of Y lies outside X. */
  lemma FullIntersection(Y: set<int>, X: set<int>)
    ensures |Y * X| == |Y| <==> Y - X == {}
  {
    assert Y == (Y * X) + (Y - X);
    assert (Y * X) !! (Y - X);
  }

  /** The pass over the blocks of P for one splitter X (lines 104-129). */
  method SplitAll(P: seq<set<int>>, W: seq<Work>, X: set<int>) returns (P': seq<set<int>>, W': seq<Work>)
    ensures P' == Refine(P, X) && W' == WorkAfter(P, W, X)
  {
    P', W' := [], W;
    for k := 0 to |P|
      invariant P' == Refine(P[..k], X) && W' == WorkAfter(P[..k], W, X)
    {
      var Y := P[k];
      var inter := Y * X;
      assert P[..k + 1][..k] == P[..k];
      FullIntersection(Y, X);
      if inter == {} || |inter| == |Y| {
        P' := P' + [Y];
      } else {
        var diff := Y - X;
        P' := P' + [inter, diff];
        ghost var W0 := W';
        for sym := 0 to 2
          invariant W' == RequeueBelow(W0, Y, inter, diff, sym)
        {
          if (Y, sym) in W' {
            W' := RemoveFirst(W', (Y, sym)) + [(inter, sym), (diff, sym)];
          } else if |inter| <= |diff| {
            W' := W' + [(inter, sym)];
          } else {
            W' := W' + [(diff, sym)];
          }
        }
      }
    }
    assert P[..|P|] == P;
  }

  /** Splitting by the preimage of a saturated waiting block keeps the
      invariants of the refinement. */
  lemma SplitKeeps(D: seq<seq<int>>, out: seq<int>, P: seq<set<int>>, W: seq<Work>, A: set<int>, c: int, X: set<int>)
    requires ValidDelta(D) && |out| == |D| && 0 <= c < 2
    requires Partition(P, Below(|D|)) && Uniform(P, out) && AllSaturated(P, D, out)
    requires WorkIn(W, |D|) && WorkSaturated(W, D, out) && Saturated(A, D, out)
    requires forall s :: s in X <==> 0 <= s < |D| && D[s][c] in A
    ensures Partition(Refine(P, X), Below(|D|)) && Uniform(Refine(P, X), out) && AllSaturated(Refine(P, X), D, out)
    ensures WorkIn(WorkAfter(P, W, X), |D|) && WorkSaturated(WorkAfter(P, W, X), D, out)
    ensures |Refine(P, X)| >= |P| && (|Refine(P, X)| == |P| ==> WorkAfter(P, W, X) == W)
  {
    var R := Refine(P, X);
    RefinePartition(P, X, Below(|D|));
    RefineRespects(P, X, Group(out, 0));
    RefineRespects(P, X, Group(out, 1));
    RefineRespects(P, X, Group(out, 2));
    RefineGrows(P, X);
    if |R| == |P| {
      WorkAfterSame(P, W, X);
    }
    PreimageSaturated(D, out, c, A, X);
    RefineSaturated(P, X, D, out);
    var W' := WorkAfter(P, W, X);
    forall k | 0 <= k < |W'|
      ensures (forall s :: s in W'[k].0 ==> 0 <= s < |D|) && 0 <= W'[k].1 < 2 && Saturated(W'[k].0, D, out)
    {
      WorkAfterFrom(P, W, X, k);
      if W'[k] !in W {
        var i :| 0 <= i < |R| && R[i] == W'[k].0;
        BlockInUnion(R, i);
      }
    }
  }

  /** Hopcroft's loop of lines 78-130: the final blocks partition the
      product states, never mix two classes, and never separate two
      equivalent states. */
  method Refinement(inv: array2<set<int>>, cls: array<int>, ghost D: seq<seq<int>>) returns (P: seq<set<int>>)
    requires ValidDelta(D) && Inverse(inv, D) && cls.Length == |D| && Classes(cls[..])
    ensures Partition(P, Below(|D|)) && Uniform(P, cls[..]) && AllSaturated(P, D, cls[..])
  {
    ghost var out := cls[..];
    ghost var m := |D|;
    P := InitialBlocks(cls);
    GroupsPartition(D, out);
    var work := InitialWork(P);
    forall k | 0 <= k < |work|
      ensures (forall s :: s in work[k].0 ==> 0 <= s < m) && Saturated(work[k].0, D, out)
    {
      BlockInUnion(P, k / 2);
    }
    while work != []
      invariant Partition(P, Below(m)) && Uniform(P, out) && AllSaturated(P, D, out)
      invariant WorkIn(work, m) && WorkSaturated(work, D, out)
      decreases m - |P|, |work|
    {
      BlockCount(P, Below(m));
      BelowSize(m);
      var A := work[0].0;
      var c := work[0].1;
      work := work[1..];
      var X := Preimage(inv, D, c, A);
      SplitKeeps(D, out, P, work, A, c, X);
      P, work := SplitAll(P, work, X);
      BlockCount(P, Below(m));
      BelowSize(m);
    }
  }

  // ---------------------------------------------------------------------
  // The tables of the minimized product (lines 131-155).

  /** The blocks of a partition of the product states hold product states. */
  lemma BlocksBelow(P: seq<set<int>>, m: int)
    requires Partition(P, Below(m))
    ensures forall i, s :: 0 <= i < |P| && s in P[i] ==> 0 <= s < m
  {
    forall i | 0 <= i < |P|
      ensures P[i] <= Below(m)
    {
      BlockInUnion(P, i);
    }
  }

  /** The block numbers of lines 132-136: every product state gets the
      position of the one block holding it. */
  method BlockIds(P: seq<set<int>>, m: int) returns (blockId: array<int>)
    requires m >= 0 && Partition(P, Below(m))
    ensures fresh(blockId) && blockId.Length == m
    ensures forall s :: 0 <= s < m ==> 0 <= blockId[s] < |P| && s in P[blockId[s]]
  {
    BlocksBelow(P, m);
    assert Disjoint(P);
    blockId := new int[m];
    for i := 0 to |P|
      invariant blockId.Length == m
      invariant forall j, s :: 0 <= j < i && s in P[j] ==> 0 <= s < m && blockId[s] == j
    {
      var rest := P[i];
      while rest != {}
        invariant blockId.Length == m && rest <= P[i]
        invariant forall j, s :: 0 <= j < i && s in P[j] ==> 0 <= s < m && blockId[s] == j
        invariant forall s :: s in P[i] - rest ==> blockId[s] == i
        decreases |rest|
      {
        Elements(rest);
        var s :| s in rest;
        blockId[s] := i;
        rest := rest - {s};
      }
    }
    forall s | 0 <= s < m
      ensures 0 <= blockId[s] < |P| && s in P[blockId[s]]
    {
      var j := BlockOf(P, Below(m), s);
    }
  }

  /** The minimized transitions of lines 138-144: block i moves on c to the
      block of the successor of its representative reps[i]. */
  method MinDelta(P: seq<set<int>>, blockId: array<int>, prodDelta: array2<int>, ghost D: seq<seq<int>>)
    returns (minDelta: array2<int>, ghost reps: seq<int>)
    requires ValidDelta(D) && Tabulates(prodDelta, D) && Partition(P, Below(|D|))
    requires blockId.Length == |D| && forall s :: 0 <= s < |D| ==> 0 <= blockId[s] < |P| && s in P[blockId[s]]
    ensures fresh(minDelta) && minDelta.Length0 == |P| && minDelta.Length1 == 2 && |reps| == |P|
    ensures forall i :: 0 <= i < |P| ==> reps[i] in P[i] && 0 <= reps[i] < |D|
    ensures forall i, c :: 0 <= i < |P| && 0 <= c < 2 ==>
      0 <= minDelta[i, c] < |P| && D[reps[i]][c] in P[minDelta[i, c]]
  {
    minDelta := new int[|P|, 2];
    reps := [];
    for i := 0 to |P|
      invariant |reps| == i && forall k :: 0 <= k < i ==> reps[k] in P[k] && 0 <= reps[k] < |D|
      invariant forall k, c :: 0 <= k < i && 0 <= c < 2 ==>
        0 <= minDelta[k, c] < |P| && D[reps[k]][c] in P[minDelta[k, c]]
    {
      BlockInUnion(P, i);
      Elements(P[i]);
      var rep :| rep in P[i];
      for c := 0 to 2
        invariant forall k, d :: 0 <= k < i && 0 <= d < 2 ==>
          0 <= minDelta[k, d] < |P| && D[reps[k]][d] in P[minDelta[k, d]]
        invariant forall d :: 0 <= d < c ==> 0 <= minDelta[i, d] < |P| && D[rep][d] in P[minDelta[i, d]]
      {
        minDelta[i, c] := blockId[prodDelta[rep, c]];
      }
      reps := reps + [rep];
    }
  }

  /** r lists, in increasing order, exactly the blocks of P of class t. */
  ghost predicate ClassBlocks(r: seq<int>, P: seq<set<int>>, out: seq<int>, t: int)
  {
    (forall a, b :: 0 <= a < b < |r| ==> r[a] < r[b]) &&
    (forall i :: i in r <==> 0 <= i < |P| && P[i] <= Group(out, t))
  }

  /** A block's class is the class of any of its states. */
  lemma ClassOfBlock(P: seq<set<int>>, out: seq<int>, i: int, rep: int, t: int)
    requires Uniform(P, out) && 0 <= i < |P| && rep in P[i] && 0 <= rep < |out| && 0 <= t <= 2
    ensures P[i] <= Group(out, t) <==> out[rep] == t
  {
  }

  lemma ClassBlocksNext(r: seq<int>, P: seq<set<int>>, out: seq<int>, t: int, i: int)
    requires 0 <= i < |P| && ClassBlocks(r, P[..i], out, t) && forall k :: 0 <= k < |r| ==> r[k] < i
    ensures P[i] <= Group(out, t) ==> ClassBlocks(r + [i], P[..i + 1], out, t)
    ensures !(P[i] <= Group(out, t)) ==> ClassBlocks(r, P[..i + 1], out, t)
  {
    assert forall k :: 0 <= k < i ==> P[..i + 1][k] == P[..i][k];
  }

  /** The block lists of lines 146-155, by the class of each block's representative. */
  method ClassLists(P: seq<set<int>>, cls: array<int>) returns (rej: seq<int>, half: seq<int>, acc: seq<int>)
    requires Partition(P, Below(cls.Length)) && Uniform(P, cls[..]) && Classes(cls[..])
    ensures ClassBlocks(rej, P, cls[..], 0) && ClassBlocks(half, P, cls[..], 1) && ClassBlocks(acc, P, cls[..], 2)
  {
    ghost var out := cls[..];
    rej, half, acc := [], [], [];
    for i := 0 to |P|
      invariant forall k :: 0 <= k < |rej| ==> rej[k] < i
      invariant forall k :: 0 <= k < |half| ==> half[k] < i
      invariant forall k :: 0 <= k < |acc| ==> acc[k] < i
      invariant ClassBlocks(rej, P[..i], out, 0) && ClassBlocks(half, P[..i], out, 1) && ClassBlocks(acc, P[..i], out, 2)
    {
      BlockInUnion(P, i);
      Elements(P[i]);
      var rep :| rep in P[i];
      var t := cls[rep];
      ClassOfBlock(P, out, i, rep, 0);
      ClassOfBlock(P, out, i, rep, 1);
      ClassOfBlock(P, out, i, rep, 2);
      ClassBlocksNext(rej, P, out, 0, i);
      ClassBlocksNext(half, P, out, 1, i);
      ClassBlocksNext(acc, P, out, 2, i);
      if t == 0 {
        rej := rej + [i];
      } else if t == 1 {
        half := half + [i];
      } else {
        acc := acc + [i];
      }
    }
    assert P[..|P|] == P;
  }

  // ---------------------------------------------------------------------
  // The whole computation of lines 25-155, without the reading and printing.

  /** The classes of the listed pairs (cls of lines 48-55). */
  ghost function Kinds(isFinal: seq<bool>, pairs: seq<Pair>): (r: seq<int>)
    requires forall i :: 0 <= i < |pairs| ==> InRange(|isFinal|, pairs[i])
    ensures |r| == |pairs| && forall i :: 0 <= i < |pairs| ==> r[i] == FinalCount(isFinal, pairs[i])
  {
    seq(|pairs|, i requires 0 <= i < |pairs| => FinalCount(isFinal, pairs[i]))
  }

  /** After every word, the runs from the components of a end in as many
      final states as the runs from the components of b. */
  ghost predicate PairEquivalent(delta: seq<seq<int>>, isFinal: seq<bool>, a: Pair, b: Pair)
    requires ValidDelta(delta) && |isFinal| == |delta| && InRange(|delta|, a) && InRange(|delta|, b)
  {
    forall w :: Bits(w) ==>
      FinalCount(isFinal, (Run(delta, a.0, w), Run(delta, a.1, w))) ==
      FinalCount(isFinal, (Run(delta, b.0, w), Run(delta, b.1, w)))
  }

  /** Two product states are equivalent in the product table exactly when
      their pairs are equivalent in the original automaton. */
  lemma EquivalentPairs(delta: seq<seq<int>>, isFinal: seq<bool>, pairs: seq<Pair>, D: seq<seq<int>>, x: int, y: int)
    requires ValidDelta(delta) && |isFinal| == |delta| && ValidDelta(D) && |D| == |pairs|
    requires forall k :: 0 <= k < |pairs| ==> InRange(|delta|, pairs[k])
    requires forall k, c :: 0 <= k < |pairs| && 0 <= c < 2 ==> pairs[D[k][c]] == Step(delta, pairs[k], c)
    requires 0 <= x < |pairs| && 0 <= y < |pairs| && InRange(|delta|, pairs[x]) && InRange(|delta|, pairs[y])
    ensures Equivalent(D, Kinds(isFinal, pairs), x, y) <==> PairEquivalent(delta, isFinal, pairs[x], pairs[y])
  {
    var out := Kinds(isFinal, pairs);
    forall w | Bits(w)
      ensures out[Run(D, x, w)] == FinalCount(isFinal, (Run(delta, pairs[x].0, w), Run(delta, pairs[x].1, w)))
      ensures out[Run(D, y, w)] == FinalCount(isFinal, (Run(delta, pairs[y].0, w), Run(delta, pairs[y].1, w)))
    {
      ProductRun(delta, pairs, D, x, w);
      ProductRun(delta, pairs, D, y, w);
    }
  }

  /** The pairs at the positions in B. */
  ghost function Pick(pairs: seq<Pair>, B: set<int>): (r: set<Pair>)
    ensures forall pr :: pr in r <==> exists j :: 0 <= j < |pairs| && j in B && pairs[j] == pr
  {
    set j | 0 <= j < |pairs| && j in B :: pairs[j]
  }

  /** Blocks that never separate equivalent product states never separate
      two pairs that agree on every word. */
  lemma SaturatedPairs(delta: seq<seq<int>>, isFinal: seq<bool>, pairs: seq<Pair>, D: seq<seq<int>>, P: seq<set<int>>)
    requires ValidDelta(delta) && |isFinal| == |delta| && ValidDelta(D) && |D| == |pairs|
    requires forall k :: 0 <= k < |pairs| ==> InRange(|delta|, pairs[k])
    requires forall k, c :: 0 <= k < |pairs| && 0 <= c < 2 ==> pairs[D[k][c]] == Step(delta, pairs[k], c)
    requires AllSaturated(P, D, Kinds(isFinal, pairs))
    ensures forall i, x, y ::
              (0 <= i < |P| && 0 <= x < |pairs| && 0 <= y < |pairs| && x in P[i] &&
               PairEquivalent(delta, isFinal, pairs[x], pairs[y])) ==> y in P[i]
  {
    forall i, x, y | 0 <= i < |P| && 0 <= x < |pairs| && 0 <= y < |pairs| && x in P[i] &&
      PairEquivalent(delta, isFinal, pairs[x], pairs[y])
      ensures y in P[i]
    {
      EquivalentPairs(delta, isFinal, pairs, D, x, y);
      assert Saturated(P[i], D, Kinds(isFinal, pairs));
    }
  }

  /** A block's transition read on product states is the transition of its
      representative's pair. */
  lemma StepsPicked(delta: seq<seq<int>>, pairs: seq<Pair>, D: seq<seq<int>>, P: seq<set<int>>,
                    minDelta: array2<int>, reps: seq<int>)
    requires ValidDelta(delta) && ValidDelta(D) && |D| == |pairs|
    requires forall k :: 0 <= k < |pairs| ==> InRange(|delta|, pairs[k])
    requires forall k, c :: 0 <= k < |pairs| && 0 <= c < 2 ==> pairs[D[k][c]] == Step(delta, pairs[k], c)
    requires minDelta.Length0 == |P| && minDelta.Length1 == 2 && |reps| == |P|
    requires forall i :: 0 <= i < |P| ==> 0 <= reps[i] < |D|
    requires forall i, c :: 0 <= i < |P| && 0 <= c < 2 ==>
      0 <= minDelta[i, c] < |P| && D[reps[i]][c] in P[minDelta[i, c]]
    ensures forall i, c :: 0 <= i < |P| && 0 <= c < 2 ==> Step(delta, pairs[reps[i]], c) in Pick(pairs, P[minDelta[i, c]])
  {
    forall i, c | 0 <= i < |P| && 0 <= c < 2
      ensures Step(delta, pairs[reps[i]], c) in Pick(pairs, P[minDelta[i, c]])
    {
      assert pairs[D[reps[i]][c]] == Step(delta, pairs[reps[i]], c);
    }
  }

  /** The tables of lines 25-77: the reachable pairs, their classes, the
      product transitions and their inverse. */
  method ProductTables(delta: seq<seq<int>>, s1: int, s2: int, isFinal: seq<bool>)
    returns (pairs: seq<Pair>, cls: array<int>, prodDelta: array2<int>, inv: array2<set<int>>, ghost D: seq<seq<int>>)
    requires ValidDelta(delta) && |delta| <= 0x8000_0000 && |isFinal| == |delta|
    requires 0 <= s1 < |delta| && 0 <= s2 < |delta|
    ensures |pairs| > 0 && pairs[0] == (s1, s2)
    ensures forall i :: 0 <= i < |pairs| ==> InRange(|delta|, pairs[i])
    ensures forall i, j :: 0 <= i < j < |pairs| ==> pairs[i] != pairs[j]
    ensures forall pr :: pr in pairs <==> PairReaches(delta, s1, s2, pr)
    ensures fresh(cls) && fresh(prodDelta) && fresh(inv)
    ensures cls[..] == Kinds(isFinal, pairs) && Classes(cls[..])
    ensures ValidDelta(D) && |D| == |pairs| && Tabulates(prodDelta, D) && Inverse(inv, D)
    ensures forall k, c :: 0 <= k < |pairs| && 0 <= c < 2 ==> pairs[D[k][c]] == Step(delta, pairs[k], c)
  {
    var pairIndex;
    pairs, pairIndex := ReachablePairs(delta, s1, s2);
    cls := Classify(pairs, isFinal);
    prodDelta := ProductDelta(delta, pairs, pairIndex);
    D := Table(prodDelta);
    assert ValidDelta(D);
    inv := Predecessors(prodDelta, D);
    assert cls[..] == Kinds(isFinal, pairs);
    forall i | 0 <= i < cls.Length
      ensures 0 <= cls[i] <= 2
    {
      FinalCountRange(isFinal, pairs[i]);
    }
  }

  /** The minimized tables of lines 78-155 from the product tables: the
      blocks, the block of every product state, the transitions of each
      block's representative and the blocks of each class. */
  method Reduce(cls: array<int>, prodDelta: array2<int>, inv: array2<set<int>>, ghost D: seq<seq<int>>)
    returns (P: seq<set<int>>, blockId: array<int>, minDelta: array2<int>,
             rej: seq<int>, half: seq<int>, acc: seq<int>, ghost reps: seq<int>)
    requires ValidDelta(D) && Tabulates(prodDelta, D) && Inverse(inv, D)
    requires cls.Length == |D| && Classes(cls[..])
    ensures Partition(P, Below(|D|)) && Uniform(P, cls[..]) && AllSaturated(P, D, cls[..])
    ensures fresh(blockId) && blockId.Length == |D|
    ensures forall s :: 0 <= s < |D| ==> 0 <= blockId[s] < |P| && s in P[blockId[s]]
    ensures fresh(minDelta) && minDelta.Length0 == |P| && minDelta.Length1 == 2 && |reps| == |P|
    ensures forall i :: 0 <= i < |P| ==> reps[i] in P[i] && 0 <= reps[i] < |D|
    ensures forall i, c :: 0 <= i < |P| && 0 <= c < 2 ==>
      0 <= minDelta[i, c] < |P| && D[reps[i]][c] in P[minDelta[i, c]]
    ensures ClassBlocks(rej, P, cls[..], 0) && ClassBlocks(half, P, cls[..], 1) && ClassBlocks(acc, P, cls[..], 2)
  {
    P := Refinement(inv, cls, D);
    blockId := BlockIds(P, cls.Length);
    minDelta, reps := MinDelta(P, blockId, prodDelta, D);
    rej, half, acc := ClassLists(P, cls);
  }

  /** The minimization of the product of the automaton with itself from
      (s1, s2), lines 25-155: the reachable pairs, their blocks (no block
      mixes classes, and no two pairs that agree on every word are
      separated), the block of each pair, the minimized transitions and the
      blocks of each class. */
  method MinimizeProduct(delta: seq<seq<int>>, s1: int, s2: int, isFinal: seq<bool>)
    returns (pairs: seq<Pair>, P: seq<set<int>>, blockId: array<int>, minDelta: array2<int>,
             rej: seq<int>, half: seq<int>, acc: seq<int>, ghost reps: seq<int>)
    requires ValidDelta(delta) && |delta| <= 0x8000_0000 && |isFinal| == |delta|
    requires 0 <= s1 < |delta| && 0 <= s2 < |delta|
    ensures |pairs| > 0 && pairs[0] == (s1, s2)
    ensures forall i :: 0 <= i < |pairs| ==> InRange(|delta|, pairs[i])
    ensures forall i, j :: 0 <= i < j < |pairs| ==> pairs[i] != pairs[j]
    ensures forall pr :: pr in pairs <==> PairReaches(delta, s1, s2, pr)
    ensures Partition(P, Below(|pairs|)) && Uniform(P, Kinds(isFinal, pairs))
    ensures forall i, x, y ::
              (0 <= i < |P| && 0 <= x < |pairs| && 0 <= y < |pairs| && x in P[i] &&
               PairEquivalent(delta, isFinal, pairs[x], pairs[y])) ==> y in P[i]
    ensures blockId.Length == |pairs| && forall s :: 0 <= s < |pairs| ==> 0 <= blockId[s] < |P| && s in P[blockId[s]]
    ensures minDelta.Length0 == |P| && minDelta.Length1 == 2 && |reps| == |P|
    ensures forall i :: 0 <= i < |P| ==> reps[i] in P[i] && 0 <= reps[i] < |pairs|
    ensures forall i, c :: 0 <= i < |P| && 0 <= c < 2 ==>
      0 <= minDelta[i, c] < |P| && Step(delta, pairs[reps[i]], c) in Pick(pairs, P[minDelta[i, c]])
    ensures ClassBlocks(rej, P, Kinds(isFinal, pairs), 0) && ClassBlocks(half, P, Kinds(isFinal, pairs), 1) &&
            ClassBlocks(acc, P, Kinds(isFinal, pairs), 2)
  {
    var cls, prodDelta, inv;
    ghost var D;
    pairs, cls, prodDelta, inv, D := ProductTables(delta, s1, s2, isFinal);
    P, blockId, minDelta, rej, half, acc, reps := Reduce(cls, prodDelta, inv, D);
    SaturatedPairs(delta, isFinal, pairs, D, P);
    StepsPicked(delta, pairs, D, P, minDelta, reps);
  }
}
