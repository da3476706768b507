// The Gale-Shapley stable marriage algorithm of
// projects/15-GaleShapley/implementation/GaleShapley.java. Men propose down
// their preference lists, restarting from the top each time one is free;
// women keep the best proposer so far. The boolean arrays and the two
// partner arrays that the source keeps locally are sequences here.
module StableMarriage {
  import opened Sums

  /** A preference list over 0..n-1: every index exactly once. */
  ghost predicate IsPerm(row: seq<int>, n: int)
  {
    |row| == n
    && (forall k :: 0 <= k < |row| ==> 0 <= row[k] < n)
    && (forall v :: 0 <= v < n ==> v in row)
    && (forall k, l :: 0 <= k < l < |row| ==> row[k] != row[l])
  }

  /** n preference lists over 0..n-1. */
  ghost predicate ValidPrefs(prefs: seq<seq<int>>, n: int)
  {
    |prefs| == n && forall i :: 0 <= i < n ==> IsPerm(prefs[i], n)
  }

  /** The rank of v in a preference list: its position, lower is better. */
  ghost function Pos(row: seq<int>, v: int): (k: int)
    requires v in row
    ensures 0 <= k < |row| && row[k] == v
  {
    var k :| 0 <= k < |row| && row[k] == v; k
  }

  /** In a list without repetitions, the entry at k has rank k. */
  lemma PosAt(row: seq<int>, n: int, k: int)
    requires IsPerm(row, n) && 0 <= k < n
    ensures Pos(row, row[k]) == k
  {
  }

  /** A sequence with a true entry has fewer false entries than its length. */
  lemma {:induction false} CountFalseBelow(s: seq<bool>, i: int)
    requires 0 <= i < |s| && s[i]
    ensures CountFalse(s) < |s|
  {
    if i < |s| - 1 {
      CountFalseBelow(s[..|s| - 1], i);
    }
  }

  /** findFreeMan: the lowest index whose entry is true, or -1 when there is
      none. */
  method FindFreeMan(menFree: seq<bool>) returns (r: int)
    ensures -1 <= r < |menFree|
    ensures r == -1 <==> forall i :: 0 <= i < |menFree| ==> !menFree[i]
    ensures r >= 0 ==> menFree[r] && forall i :: 0 <= i < r ==> !menFree[i]
  {
    for i := 0 to |menFree|
      invariant forall q :: 0 <= q < i ==> !menFree[q]
    {
      if menFree[i] {
        return i;
      }
    }
    return -1;
  }

  /** The engagement state: menFree, womenFree, res and resWomen of the
      source. */
  datatype State = State(menFree: seq<bool>, womenFree: seq<bool>, res: seq<int>, resWomen: seq<int>)

  /** Engaged men and engaged women are paired one to one through res and
      resWomen, and as many of each are engaged. */
  ghost predicate Matched(n: int, st: State)
  {
    |st.menFree| == n && |st.womenFree| == n && |st.res| == n && |st.resWomen| == n
    && (forall m :: 0 <= m < n && !st.menFree[m] ==>
          0 <= st.res[m] < n && !st.womenFree[st.res[m]] && st.resWomen[st.res[m]] == m)
    && (forall w :: 0 <= w < n && !st.womenFree[w] ==>
          0 <= st.resWomen[w] < n && !st.menFree[st.resWomen[w]] && st.res[st.resWomen[w]] == w)
    && CountFalse(st.menFree) == CountFalse(st.womenFree)
  }

  /** Every woman an engaged man ranks above his partner is engaged to a
      man she prefers to him. */
  ghost predicate NoRegret(n: int, P: seq<seq<int>>, A: seq<seq<int>>, st: State)
    requires ValidPrefs(P, n) && ValidPrefs(A, n) && Matched(n, st)
  {
    forall m, k :: 0 <= m < n && !st.menFree[m] && 0 <= k < Pos(P[m], st.res[m]) ==>
      !st.womenFree[P[m][k]] && Pos(A[P[m][k]], st.resWomen[P[m][k]]) < Pos(A[P[m][k]], m)
  }

  /** A woman's contribution to the potential: n while she is free, else
      the rank of her partner. */
  ghost function Score(n: int, A: seq<seq<int>>, st: State, w: int): int
    requires ValidPrefs(A, n) && Matched(n, st) && 0 <= w < n
  {
    if st.womenFree[w] then n else Pos(A[w], st.resWomen[w])
  }

  ghost function Scores(n: int, A: seq<seq<int>>, st: State): (r: seq<int>)
    requires ValidPrefs(A, n) && Matched(n, st)
    ensures |r| == n && forall w :: 0 <= w < n ==> 0 <= r[w] == Score(n, A, st, w)
  {
    seq(n, w requires 0 <= w < n => Score(n, A, st, w))
  }

  /** The potential that every proposal round lowers: it never goes below 0. */
  ghost function Potential(n: int, A: seq<seq<int>>, st: State): (r: int)
    requires ValidPrefs(A, n) && Matched(n, st)
    ensures r >= 0
  {
    SumNonNegative(Scores(n, A, st));
    Sum(Scores(n, A, st))
  }

  /** When only woman w0's score changes, the potential changes by as much. */
  lemma PotentialUpdate(n: int, A: seq<seq<int>>, st: State, st2: State, w0: int)
    requires ValidPrefs(A, n) && Matched(n, st) && Matched(n, st2) && 0 <= w0 < n
    requires forall w :: 0 <= w < n && w != w0 ==> st2.womenFree[w] == st.womenFree[w] && st2.resWomen[w] == st.resWomen[w]
    ensures Potential(n, A, st2) == Potential(n, A, st) - Score(n, A, st, w0) + Score(n, A, st2, w0)
  {
    var s, s2 := Scores(n, A, st), Scores(n, A, st2);
    assert s2 == s[w0 := Score(n, A, st2, w0)];
    SumUpdate(s, w0, Score(n, A, st2, w0));
  }

  /** The table womenRef: ref[w][m] is the rank woman w gives man m. */
  ghost predicate RankTable(ref: seq<seq<int>>, A: seq<seq<int>>, n: int)
    requires ValidPrefs(A, n)
  {
    |ref| == n
    && (forall w :: 0 <= w < n ==> |ref[w]| == n)
    && (forall w, m :: 0 <= w < n && 0 <= m < n ==> ref[w][m] == Pos(A[w], m))
  }

  /** The loop building womenRef: row w records, at each man, the position
      where w lists him. */
  method BuildRanks(n: nat, A: seq<seq<int>>) returns (ref: seq<seq<int>>)
    requires ValidPrefs(A, n)
    ensures RankTable(ref, A, n)
  {
    ref := seq(n, _ => seq(n, _ => 0));
    for w := 0 to n
      invariant |ref| == n && forall v :: 0 <= v < n ==> |ref[v]| == n
      invariant forall v, m :: 0 <= v < w && 0 <= m < n ==> ref[v][m] == Pos(A[v], m)
    {
      var prefs := A[w];
      for rank := 0 to |prefs|
        invariant |ref| == n && forall v :: 0 <= v < n ==> |ref[v]| == n
        invariant forall v, m :: 0 <= v < w && 0 <= m < n ==> ref[v][m] == Pos(A[v], m)
        invariant forall t :: 0 <= t < rank ==> ref[w][prefs[t]] == t
      {
        var man := prefs[rank];
        ref := ref[w := ref[w][man := rank]];
      }
      forall m | 0 <= m < n
        ensures ref[w][m] == Pos(A[w], m)
      {
        PosAt(prefs, n, Pos(prefs, m));
      }
    }
  }

  /** The inner for loop of galeShapley: the free man fm proposes down his
      list from the top. A free woman accepts; an engaged one accepts when
      she ranks him above her partner, who becomes free. He is sure to be
      accepted, because a free man implies a free woman, who is on his list. */
  method Propose(n: nat, P: seq<seq<int>>, A: seq<seq<int>>, womenRef: seq<seq<int>>, st: State, fm: int)
    returns (st2: State)
    requires ValidPrefs(P, n) && ValidPrefs(A, n) && RankTable(womenRef, A, n)
    requires Matched(n, st) && NoRegret(n, P, A, st)
    requires 0 <= fm < n && st.menFree[fm]
    ensures Matched(n, st2) && NoRegret(n, P, A, st2)
    ensures !st2.menFree[fm]
    ensures Potential(n, A, st2) < Potential(n, A, st)
    ensures forall w :: 0 <= w < n && !st.womenFree[w] ==>
      !st2.womenFree[w] && Pos(A[w], st2.resWomen[w]) <= Pos(A[w], st.resWomen[w])
  {
    var menFree, womenFree, res, resWomen := st.menFree, st.womenFree, st.res, st.resWomen;
    var freeWoman := SomeFreeWoman(n, st, fm);
    ghost var target := Pos(P[fm], freeWoman);
    var manPref := P[fm];
    var k := 0;
    while k < |manPref|
      invariant 0 <= k <= target
      invariant forall t :: 0 <= t < k ==>
        !womenFree[manPref[t]] && Pos(A[manPref[t]], resWomen[manPref[t]]) < Pos(A[manPref[t]], fm)
    {
      var woman := manPref[k];
      PosAt(manPref, n, k);
      if womenFree[woman] {
        st2 := State(menFree[fm := false], womenFree[woman := false], res[fm := woman], resWomen[woman := fm]);
        EngageFree(n, P, A, st, fm, k, st2);
        return;
      } else {
        var currentMan := resWomen[woman];
        if womenRef[woman][fm] < womenRef[woman][currentMan] {
          st2 := State(menFree[currentMan := true][fm := false], womenFree, res[fm := woman], resWomen[woman := fm]);
          TradeUp(n, P, A, st, fm, k, st2);
          return;
        }
        assert A[woman][Pos(A[woman], fm)] == fm;
      }
      k := k + 1;
    }
    assert false;
  }

  /** A free man implies a free woman, since as many of each are engaged. */
  method SomeFreeWoman(n: nat, st: State, fm: int) returns (w: int)
    requires Matched(n, st) && 0 <= fm < n && st.menFree[fm]
    ensures 0 <= w < n && st.womenFree[w]
  {
    CountFalseBelow(st.menFree, fm);
    w := 0;
    while w < n && !st.womenFree[w]
      invariant 0 <= w <= n
      invariant forall v :: 0 <= v < w ==> !st.womenFree[v]
    {
      w := w + 1;
    }
    if w == n {
      AllFalseCount(st.womenFree);
      assert false;
    }
  }

  lemma {:induction false} AllFalseCount(s: seq<bool>)
    requires forall i :: 0 <= i < |s| ==> !s[i]
    ensures CountFalse(s) == |s|
  {
    if |s| > 0 {
      AllFalseCount(s[..|s| - 1]);
    }
  }

  /** The state after fm is accepted by the free woman at position k of his
      list keeps all invariants and lowers the potential. */
  lemma EngageFree(n: nat, P: seq<seq<int>>, A: seq<seq<int>>, st: State, fm: int, k: int, st2: State)
    requires ValidPrefs(P, n) && ValidPrefs(A, n)
    requires Matched(n, st) && NoRegret(n, P, A, st)
    requires 0 <= fm < n && st.menFree[fm] && 0 <= k < n && st.womenFree[P[fm][k]]
    requires forall t :: 0 <= t < k ==>
      !st.womenFree[P[fm][t]] && Pos(A[P[fm][t]], st.resWomen[P[fm][t]]) < Pos(A[P[fm][t]], fm)
    requires st2 == State(st.menFree[fm := false], st.womenFree[P[fm][k] := false], st.res[fm := P[fm][k]], st.resWomen[P[fm][k] := fm])
    ensures Matched(n, st2) && NoRegret(n, P, A, st2)
    ensures Potential(n, A, st2) < Potential(n, A, st)
    ensures forall w :: 0 <= w < n && !st.womenFree[w] ==>
      !st2.womenFree[w] && Pos(A[w], st2.resWomen[w]) <= Pos(A[w], st.resWomen[w])
  {
    var w0 := P[fm][k];
    EngageFreeMatched(n, st, fm, w0, st2);
    EngageFreeNoRegret(n, P, A, st, fm, k, st2);
    PotentialUpdate(n, A, st, st2, w0);
  }

  lemma EngageFreeMatched(n: nat, st: State, fm: int, w0: int, st2: State)
    requires Matched(n, st)
    requires 0 <= fm < n && st.menFree[fm] && 0 <= w0 < n && st.womenFree[w0]
    requires st2 == State(st.menFree[fm := false], st.womenFree[w0 := false], st.res[fm := w0], st.resWomen[w0 := fm])
    ensures Matched(n, st2)
  {
    CountFalseUpdate(st.menFree, fm, false);
    CountFalseUpdate(st.womenFree, w0, false);
  }

  lemma EngageFreeNoRegret(n: nat, P: seq<seq<int>>, A: seq<seq<int>>, st: State, fm: int, k: int, st2: State)
    requires ValidPrefs(P, n) && ValidPrefs(A, n)
    requires Matched(n, st) && NoRegret(n, P, A, st)
    requires 0 <= fm < n && st.menFree[fm] && 0 <= k < n && st.womenFree[P[fm][k]]
    requires forall t :: 0 <= t < k ==>
      !st.womenFree[P[fm][t]] && Pos(A[P[fm][t]], st.resWomen[P[fm][t]]) < Pos(A[P[fm][t]], fm)
    requires st2 == State(st.menFree[fm := false], st.womenFree[P[fm][k] := false], st.res[fm := P[fm][k]], st.resWomen[P[fm][k] := fm])
    requires Matched(n, st2)
    ensures NoRegret(n, P, A, st2)
  {
    PosAt(P[fm], n, k);
  }

  /** The state after fm displaces the partner of the woman at position k
      of his list, whom she ranks below fm, keeps all invariants and lowers
      the potential. */
  lemma TradeUp(n: nat, P: seq<seq<int>>, A: seq<seq<int>>, st: State, fm: int, k: int, st2: State)
    requires ValidPrefs(P, n) && ValidPrefs(A, n)
    requires Matched(n, st) && NoRegret(n, P, A, st)
    requires 0 <= fm < n && st.menFree[fm] && 0 <= k < n && !st.womenFree[P[fm][k]]
    requires Pos(A[P[fm][k]], fm) < Pos(A[P[fm][k]], st.resWomen[P[fm][k]])
    requires forall t :: 0 <= t < k ==>
      !st.womenFree[P[fm][t]] && Pos(A[P[fm][t]], st.resWomen[P[fm][t]]) < Pos(A[P[fm][t]], fm)
    requires st2 == State(st.menFree[st.resWomen[P[fm][k]] := true][fm := false], st.womenFree,
                          st.res[fm := P[fm][k]], st.resWomen[P[fm][k] := fm])
    ensures Matched(n, st2) && NoRegret(n, P, A, st2)
    ensures Potential(n, A, st2) < Potential(n, A, st)
    ensures forall w :: 0 <= w < n && !st.womenFree[w] ==>
      !st2.womenFree[w] && Pos(A[w], st2.resWomen[w]) <= Pos(A[w], st.resWomen[w])
  {
    var w0 := P[fm][k];
    TradeUpMatched(n, st, fm, w0, st2);
    TradeUpNoRegret(n, P, A, st, fm, k, st2);
    PotentialUpdate(n, A, st, st2, w0);
  }

  lemma TradeUpMatched(n: nat, st: State, fm: int, w0: int, st2: State)
    requires Matched(n, st)
    requires 0 <= fm < n && st.menFree[fm] && 0 <= w0 < n && !st.womenFree[w0]
    requires st2 == State(st.menFree[st.resWomen[w0] := true][fm := false], st.womenFree, st.res[fm := w0], st.resWomen[w0 := fm])
    ensures Matched(n, st2)
  {
    var cur := st.resWomen[w0];
    CountFalseUpdate(st.menFree, cur, true);
    CountFalseUpdate(st.menFree[cur := true], fm, false);
  }

  lemma TradeUpNoRegret(n: nat, P: seq<seq<int>>, A: seq<seq<int>>, st: State, fm: int, k: int, st2: State)
    requires ValidPrefs(P, n) && ValidPrefs(A, n)
    requires Matched(n, st) && NoRegret(n, P, A, st)
    requires 0 <= fm < n && st.menFree[fm] && 0 <= k < n && !st.womenFree[P[fm][k]]
    requires Pos(A[P[fm][k]], fm) < Pos(A[P[fm][k]], st.resWomen[P[fm][k]])
    requires forall t :: 0 <= t < k ==>
      !st.womenFree[P[fm][t]] && Pos(A[P[fm][t]], st.resWomen[P[fm][t]]) < Pos(A[P[fm][t]], fm)
    requires st2 == State(st.menFree[st.resWomen[P[fm][k]] := true][fm := false], st.womenFree,
                          st.res[fm := P[fm][k]], st.resWomen[P[fm][k] := fm])
    requires Matched(n, st2)
    ensures NoRegret(n, P, A, st2)
  {
    PosAt(P[fm], n, k);
  }

  /** No blocking pair: no man m and woman res[m2] who each rank the other
      above their partners. */
  ghost predicate Stable(n: int, P: seq<seq<int>>, A: seq<seq<int>>, res: seq<int>)
    requires ValidPrefs(P, n) && ValidPrefs(A, n) && IsPerm(res, n)
  {
    forall m, m2 :: 0 <= m < n && 0 <= m2 < n ==>
      !(Pos(P[m], res[m2]) < Pos(P[m], res[m]) && Pos(A[res[m2]], m) < Pos(A[res[m2]], m2))
  }

  /** Once every man is engaged, res is a perfect matching and it is
      stable. */
  lemma AllEngagedStable(n: nat, P: seq<seq<int>>, A: seq<seq<int>>, st: State)
    requires ValidPrefs(P, n) && ValidPrefs(A, n)
    requires Matched(n, st) && NoRegret(n, P, A, st)
    requires forall m :: 0 <= m < n ==> !st.menFree[m]
    ensures IsPerm(st.res, n) && Stable(n, P, A, st.res)
    ensures forall w :: 0 <= w < n ==> 0 <= st.resWomen[w] < n && st.res[st.resWomen[w]] == w
  {
    AllFalseCount(st.menFree);
    forall w | 0 <= w < n
      ensures !st.womenFree[w]
    {
      if st.womenFree[w] {
        CountFalseBelow(st.womenFree, w);
      }
    }
    forall w | 0 <= w < n
      ensures w in st.res
    {
      assert st.res[st.resWomen[w]] == w;
    }
    assert IsPerm(st.res, n);
    forall m, m2 | 0 <= m < n && 0 <= m2 < n && Pos(P[m], st.res[m2]) < Pos(P[m], st.res[m])
      ensures Pos(A[st.res[m2]], m2) < Pos(A[st.res[m2]], m)
    {
      var k := Pos(P[m], st.res[m2]);
      assert P[m][k] == st.res[m2];
    }
  }

  /** galeShapley: for n men and n women with complete preference lists,
      the proposals end with every man engaged; res, the partner of each
      man, is then a perfect matching with no blocking pair. */
  method GaleShapley(n: nat, proposerPrefs: seq<seq<int>>, acceptorPrefs: seq<seq<int>>) returns (res: seq<int>)
    requires ValidPrefs(proposerPrefs, n) && ValidPrefs(acceptorPrefs, n)
    ensures IsPerm(res, n) && Stable(n, proposerPrefs, acceptorPrefs, res)
  {
    var st := State(seq(n, _ => true), seq(n, _ => true), seq(n, _ => -1), seq(n, _ => -1));
    AllTrueCount(n);
    var womenRef := BuildRanks(n, acceptorPrefs);
    var freeMan := FindFreeMan(st.menFree);
    while freeMan != -1
      invariant Matched(n, st) && NoRegret(n, proposerPrefs, acceptorPrefs, st)
      invariant -1 <= freeMan < n
      invariant freeMan == -1 ==> forall m :: 0 <= m < n ==> !st.menFree[m]
      invariant freeMan >= 0 ==> st.menFree[freeMan]
      decreases Potential(n, acceptorPrefs, st)
    {
      st := Propose(n, proposerPrefs, acceptorPrefs, womenRef, st, freeMan);
      freeMan := FindFreeMan(st.menFree);
    }
    AllEngagedStable(n, proposerPrefs, acceptorPrefs, st);
    res := st.res;
  }

  lemma {:induction false} AllTrueCount(n: nat)
    ensures CountFalse(seq(n, _ => true)) == 0
  {
    if n > 0 {
      assert seq(n, _ => true)[..n - 1] == seq(n - 1, _ => true);
      AllTrueCount(n - 1);
    }
  }
}
