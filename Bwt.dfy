// The Burrows-Wheeler transform of
// projects/11-burrowsWheelerTransform/implementation/burrowsWheeler.java:
// rotations, their sort, the column of last characters, the rank and
// first-column tables, and the inverse walk.
module Bwt {
  import opened Lexicographic
  import opened BwtTheory
  import opened Tally

  /** Each rotation as the slice of t + t of length |t| starting at i. */
  method Rotations(t: string) returns (rots: seq<string>)
    ensures |rots| == |t|
    ensures forall i :: 0 <= i < |t| ==> rots[i] == t[i..] + t[..i]
  {
    var tt := t + t;
    var n := |t|;
    rots := [];
    for i := 0 to n
      invariant |rots| == i
      invariant forall k :: 0 <= k < i ==> rots[k] == t[k..] + t[..k]
    {
      DoubledSlice(t, i);
      rots := rots + [tt[i..i + n]];
    }
  }

  lemma DoubledSlice(t: string, i: int)
    requires 0 <= i < |t|
    ensures (t + t)[i..i + |t|] == t[i..] + t[..i]
  {
    var tt := t + t;
    assert tt[i..i + |t|] == tt[i..|t|] + tt[|t|..|t| + i];
    assert tt[i..|t|] == t[i..] && tt[|t|..|t| + i] == t[..i];
  }

  /** The rotations in increasing order; Arrays.sort is modelled by Sort. */
  method SortedRotations(t: string) returns (sorted: seq<string>)
    ensures sorted == SortedRotationsOf(t)
    ensures Sorted(sorted) && multiset(sorted) == multiset(RotationsOf(t))
  {
    var rots := Rotations(t);
    assert rots == RotationsOf(t);
    sorted := Sort(rots);
    SortSorted(rots);
  }

  /** All sorted rows have the length of t. */
  lemma SortedRowsLength(t: string)
    ensures forall r :: 0 <= r < |t| ==> |SortedRotationsOf(t)[r]| == |t|
  {
    forall r | 0 <= r < |t|
      ensures |SortedRotationsOf(t)[r]| == |t|
    {
      SortedRow(t, r);
    }
  }

  /** The last character of every sorted rotation, in row order. */
  method BwtViaSortedRotations(t: string) returns (bwt: string)
    ensures bwt == BwtOf(t)
    ensures multiset(bwt) == multiset(t)
  {
    bwt := [];
    var sortedRots := SortedRotations(t);
    var n := |t|;
    SortedRowsLength(t);
    for i := 0 to n
      invariant bwt == BwtOf(t)[..i]
    {
      assert sortedRots[i][n - 1..] == [LastChar(sortedRots[i])];
      bwt := bwt + sortedRots[i][n - 1..];
    }
    BwtPermutation(t);
  }

  // ---------------------------------------------------------------------
  // The first column (the rank table is Tally.RankBwt)

  /** The keys of tots below c. */
  function KeysBelow(tots: map<char, int>, c: char): set<char>
  {
    set d | d in tots && d < c
  }

  /** The keys of a set listed in increasing order (the sorted stream of
      the key set). */
  method SortedKeys(ks: set<char>) returns (order: seq<char>)
    ensures forall c :: c in order <==> c in ks
    ensures forall i, j :: 0 <= i < j < |order| ==> order[i] < order[j]
  {
    order := [];
    var rest := ks;
    while rest != {}
      invariant rest <= ks
      invariant forall c :: c in order <==> c in ks && c !in rest
      invariant forall i, j :: 0 <= i < j < |order| ==> order[i] < order[j]
      invariant forall i, d :: 0 <= i < |order| && d in rest ==> order[i] < d
      decreases |rest|
    {
      MinExists(rest);
      var m :| m in rest && forall d :: d in rest ==> m <= d;
      order := order + [m];
      rest := rest - {m};
    }
  }

  lemma {:induction false} MinExists(s: set<char>)
    requires s != {}
    ensures exists m :: m in s && forall d :: d in s ==> m <= d
    decreases s
  {
    var x :| x in s;
    if s - {x} != {} {
      MinExists(s - {x});
      var m :| m in s - {x} && forall d :: d in s - {x} ==> m <= d;
      var least := if x < m then x else m;
      forall d | d in s
        ensures least <= d
      {
        if d != x {
          assert d in s - {x};
        }
      }
    } else {
      forall d | d in s
        ensures x <= d
      {
        assert d !in s - {x};
      }
    }
  }

  /** first[c] is the total count of the keys below c: the first row of the
      sorted rotations that begins with c. */
  method FirstCol(tots: map<char, int>) returns (first: map<char, int>)
    ensures first.Keys == tots.Keys
    ensures forall c :: c in first ==> first[c] == SumSet(tots, KeysBelow(tots, c))
  {
    first := map[];
    var totc := 0;
    var sortedChars := SortedKeys(tots.Keys);
    for k := 0 to |sortedChars|
      invariant FirstInv(tots, sortedChars, k, first, totc)
    {
      var c := sortedChars[k];
      FirstStep(tots, sortedChars, k, first, totc, first[c := totc], totc + tots[c]);
      first := first[c := totc];
      totc := totc + tots[c];
    }
    assert sortedChars[..|sortedChars|] == sortedChars;
  }

  /** After k keys of the increasing key list: first holds exactly those
      keys, each mapped to the total below it, and totc is their total. */
  ghost predicate FirstInv(tots: map<char, int>, order: seq<char>, k: int,
                           first: map<char, int>, totc: int)
  {
    (forall c :: c in order <==> c in tots) &&
    (forall i, j :: 0 <= i < j < |order| ==> order[i] < order[j]) &&
    0 <= k <= |order| &&
    first.Keys == Elems(order[..k]) &&
    (forall c :: c in first ==> first[c] == SumSet(tots, KeysBelow(tots, c))) &&
    totc == SumSet(tots, Elems(order[..k]))
  }

  lemma FirstStep(tots: map<char, int>, order: seq<char>, k: int,
                  first: map<char, int>, totc: int, first': map<char, int>, totc': int)
    requires FirstInv(tots, order, k, first, totc) && k < |order|
    requires first' == first[order[k] := totc] && totc' == totc + tots[order[k]]
    ensures FirstInv(tots, order, k + 1, first', totc')
  {
    ElemsSnoc(order, k);
    TotalSnoc(tots, order, k);
    PrefixIsBelow(tots, order, k);
    FirstStepMap(tots, first, order[k], totc);
  }

  /** Entering the total below c for c keeps every entry a total below its
      key. */
  lemma FirstStepMap(tots: map<char, int>, first: map<char, int>, c: char, totc: int)
    requires KeysBelow(tots, c) <= tots.Keys && totc == SumSet(tots, KeysBelow(tots, c))
    requires forall d :: d in first ==> first[d] == SumSet(tots, KeysBelow(tots, d))
    ensures forall d :: d in first[c := totc] ==> first[c := totc][d] == SumSet(tots, KeysBelow(tots, d))
  {
  }

  lemma ElemsSnoc(order: seq<char>, k: int)
    requires 0 <= k < |order|
    ensures Elems(order[..k + 1]) == Elems(order[..k]) + {order[k]}
  {
    assert order[..k + 1] == order[..k] + [order[k]];
  }

  /** Adding the k-th key to the keys before it adds its count. */
  lemma TotalSnoc(tots: map<char, int>, order: seq<char>, k: int)
    requires forall c :: c in order <==> c in tots
    requires forall i, j :: 0 <= i < j < |order| ==> order[i] < order[j]
    requires 0 <= k < |order|
    ensures Elems(order[..k + 1]) <= tots.Keys
    ensures SumSet(tots, Elems(order[..k + 1])) == SumSet(tots, Elems(order[..k])) + tots[order[k]]
  {
    var c := order[k];
    ElemsSnoc(order, k);
    assert c !in Elems(order[..k]);
    assert Elems(order[..k + 1]) - {c} == Elems(order[..k]);
    SumSetRemove(tots, Elems(order[..k + 1]), c);
  }

  /** In the increasing list of all keys, the keys before position k are
      the keys below the k-th. */
  lemma PrefixIsBelow(tots: map<char, int>, order: seq<char>, k: int)
    requires forall c :: c in order <==> c in tots
    requires forall i, j :: 0 <= i < j < |order| ==> order[i] < order[j]
    requires 0 <= k < |order|
    ensures KeysBelow(tots, order[k]) == Elems(order[..k])
  {
    forall d | d in tots && d < order[k]
      ensures d in order[..k]
    {
      var i :| 0 <= i < |order| && order[i] == d;
      assert order[..k][i] == d;
    }
  }

  lemma {:induction false} CountInBelow(s: string, ks: set<char>, c: char)
    requires forall i :: 0 <= i < |s| ==> (s[i] in ks <==> s[i] < c)
    ensures CountIn(s, ks) == CountBelow(s, c)
  {
    if |s| > 0 {
      CountInBelow(s[..|s| - 1], ks, c);
    }
  }

  /** For the tally of bw, first[c] is the number of characters of bw below
      c. */
  lemma FirstIsCountBelow(tots: map<char, int>, bw: string, c: char)
    requires IsTally(tots, bw)
    ensures SumSet(tots, KeysBelow(tots, c)) == CountBelow(bw, c)
  {
    TallySum(tots, bw, KeysBelow(tots, c));
    CountInBelow(bw, KeysBelow(tots, c), c);
  }

  // ---------------------------------------------------------------------
  // The inverse walk

  /** Walks the last-to-first mapping from row start, prepending the last
      character of each row, until a row ends in the marker. Started on the
      row of rotation j0, it rebuilds the input up to position j0. */
  method Walk(bw: string, ranks: seq<int>, first: map<char, int>, start: int,
              ghost u: string, ghost j0: int) returns (t: string)
    requires Dollar !in u && bw == BwtOf(u + [Dollar])
    requires IsRanks(ranks, bw) && IsFirst(first, bw)
    requires 0 <= j0 <= |u| && 0 <= start <= |u|
    requires SortedRotationsOf(u + [Dollar])[start] == Rotation(u + [Dollar], j0)
    ensures t == u[..j0] + [Dollar]
  {
    ghost var j := j0;
    var rowi := start;
    t := [Dollar];
    OnRowLast(u, rowi, j);
    while bw[rowi] != Dollar
      invariant OnRow(u, rowi, j) && j <= j0
      invariant bw[rowi] == if j == 0 then Dollar else u[j - 1]
      invariant t == u[j..j0] + [Dollar]
      decreases j
    {
      var c := bw[rowi];
      t := [c] + t;
      assert u[j - 1..j0] == [c] + u[j..j0];
      WalkStep(u, rowi, j);
      NextRow(bw, ranks, first, rowi);
      rowi := first[c] + ranks[rowi];
      j := j - 1;
      OnRowLast(u, rowi, j);
    }
  }

  /** first maps every character of bw to the number of characters of bw
      below it. */
  ghost predicate IsFirst(first: map<char, int>, bw: string)
  {
    forall c :: c in bw ==> c in first && first[c] == CountBelow(bw, c)
  }

  /** The walk's next row is the last-to-first mapping of the current one. */
  lemma NextRow(bw: string, ranks: seq<int>, first: map<char, int>, r: int)
    requires IsRanks(ranks, bw) && IsFirst(first, bw) && 0 <= r < |bw|
    ensures bw[r] in first && first[bw[r]] + ranks[r] == Lf(bw, r)
  {
  }

  /** Row r of the sorted rotations of u + "$" holds rotation j. */
  ghost predicate OnRow(u: string, r: int, j: int)
  {
    Dollar !in u && 0 <= r <= |u| && 0 <= j <= |u| &&
    SortedRotationsOf(u + [Dollar])[r] == Rotation(u + [Dollar], j)
  }

  lemma OnRowLast(u: string, r: int, j: int)
    requires OnRow(u, r, j)
    ensures BwtOf(u + [Dollar])[r] == if j == 0 then Dollar else u[j - 1]
  {
    RotationLast(u + [Dollar], j);
  }

  /** One step of the walk goes from the row of rotation j to the row of
      rotation j - 1. */
  lemma WalkStep(u: string, r: int, j: int)
    requires OnRow(u, r, j) && j > 0
    ensures OnRow(u, Lf(BwtOf(u + [Dollar]), r), j - 1)
  {
    LfShift(u, r);
    ShiftRotation(u + [Dollar], j);
  }

  /** The tables the walk reads, built from a transform. */
  method Tables(bw: string) returns (ranks: seq<int>, first: map<char, int>)
    ensures IsRanks(ranks, bw) && IsFirst(first, bw)
  {
    var tots;
    ranks, tots := RankBwt(bw);
    first := FirstCol(tots);
    forall c | c in bw
      ensures first[c] == CountBelow(bw, c)
    {
      FirstIsCountBelow(tots, bw, c);
    }
  }

  /** reverseBwt as written: the walk starts at row 0, which holds the least
      rotation. It returns the input up to the start of that rotation, which
      is the whole input exactly when the marker sorts first. */
  method ReverseBwt(bw: string, ghost u: string) returns (t: string)
    requires Dollar !in u && bw == BwtOf(u + [Dollar])
    ensures forall j :: 0 <= j <= |u| && SortedRotationsOf(u + [Dollar])[0] == Rotation(u + [Dollar], j)
              ==> t == u[..j] + [Dollar]
    ensures (forall k :: 0 <= k < |u| ==> Dollar < u[k]) ==> t == u + [Dollar]
  {
    var ranks, first := Tables(bw);
    ghost var w := u + [Dollar];
    SortedRow(w, 0);
    ghost var j0 :| 0 <= j0 < |w| && SortedRotationsOf(w)[0] == Rotation(w, j0);
    t := Walk(bw, ranks, first, 0, u, j0);
    RotationsDistinct(u);
    forall j | 0 <= j <= |u| && SortedRotationsOf(w)[0] == Rotation(w, j)
      ensures j == j0
    {
      assert RotationsOf(w)[j] == RotationsOf(w)[j0];
    }
    if forall k :: 0 <= k < |u| ==> Dollar < u[k] {
      MarkerFirst(u);
      assert u[..|u|] == u;
    }
  }

  /** reverseBwt started, as intended, on the row of the rotation that
      begins with the marker: first['$']. */
  method ReverseBwtFromMarkerRow(bw: string, ghost u: string) returns (t: string)
    requires Dollar !in u && bw == BwtOf(u + [Dollar])
    ensures t == u + [Dollar]
  {
    var ranks, first := Tables(bw);
    MarkerRow(u);
    t := Walk(bw, ranks, first, first[Dollar], u, |u|);
    assert u[..|u|] == u;
  }

  /** The row first['$'] holds the rotation "$" + u. */
  lemma MarkerRow(u: string)
    requires Dollar !in u
    ensures Dollar in BwtOf(u + [Dollar])
    ensures var bw := BwtOf(u + [Dollar]);
      0 <= CountBelow(bw, Dollar) <= |u| &&
      SortedRotationsOf(u + [Dollar])[CountBelow(bw, Dollar)] == Rotation(u + [Dollar], |u|)
  {
    var w := u + [Dollar];
    var bw := BwtOf(w);
    var s := SortedRotationsOf(w);
    assert RotationsOf(w)[0] in multiset(s);
    var q :| 0 <= q < |w| && s[q] == RotationsOf(w)[0];
    RotationLast(w, 0);
    assert bw[q] == Dollar;
    DollarOnce(u);
    AloneBefore(bw, q);
    LfShift(u, q);
    ShiftRotation(w, 0);
  }

  /** The transform of u + "$" holds the marker once. */
  lemma DollarOnce(u: string)
    requires Dollar !in u
    ensures multiset(BwtOf(u + [Dollar]))[Dollar] == 1
  {
    BwtPermutation(u + [Dollar]);
    assert multiset(u + [Dollar]) == multiset(u) + multiset{Dollar};
  }

  /** A character that occurs once has no occurrence before its position. */
  lemma AloneBefore(s: string, q: int)
    requires 0 <= q < |s| && multiset(s)[s[q]] == 1
    ensures multiset(s[..q])[s[q]] == 0
  {
    assert s == s[..q] + [s[q]] + s[q + 1..];
    assert multiset(s) == multiset(s[..q]) + multiset{s[q]} + multiset(s[q + 1..]);
  }

  /** When every character of u is above the marker, rotation "$" + u is
      the least and sits in row 0. */
  lemma MarkerFirst(u: string)
    requires forall k :: 0 <= k < |u| ==> Dollar < u[k]
    ensures Dollar !in u
    ensures SortedRotationsOf(u + [Dollar])[0] == Rotation(u + [Dollar], |u|)
  {
    LeastFirstChar(u, |u|);
  }

  /** The rotation starting at the strictly least character sits in row 0. */
  lemma LeastFirstChar(u: string, j: int)
    requires Dollar !in u && 0 <= j <= |u|
    requires forall i :: 0 <= i <= |u| && i != j ==> (u + [Dollar])[j] < (u + [Dollar])[i]
    ensures SortedRotationsOf(u + [Dollar])[0] == Rotation(u + [Dollar], j)
  {
    var w := u + [Dollar];
    forall i | 0 <= i <= |u| && i != j
      ensures Less(Rotation(w, j), Rotation(w, i))
    {
      assert Rotation(w, i)[0] == w[i];
      assert Rotation(w, j)[0] == w[j];
    }
    LeastRotationRow(u, j);
  }

  /** A rotation below all the others sits in row 0. */
  lemma LeastRotationRow(u: string, j: int)
    requires Dollar !in u && 0 <= j <= |u|
    requires forall i :: 0 <= i <= |u| && i != j ==> Less(Rotation(u + [Dollar], j), Rotation(u + [Dollar], i))
    ensures SortedRotationsOf(u + [Dollar])[0] == Rotation(u + [Dollar], j)
  {
    var w := u + [Dollar];
    var x := Rotation(w, j);
    var rots := RotationsOf(w);
    var s := SortedRotationsOf(w);
    forall i | 0 <= i < |rots|
      ensures !Flags(rots, x)[i]
    {
      if i == j {
        LessIrreflexive(x);
      } else {
        LessAsymmetric(x, rots[i]);
      }
    }
    assert true !in multiset(Flags(rots, x));
    RankPermutation(s, rots, x);
    assert rots[j] in multiset(s);
    var q :| 0 <= q < |s| && s[q] == x;
    SortedRotationsIncreasing(u);
    RankOfIncreasing(s, q);
  }

  /** On input "!a", whose '!' sorts below the marker, row 0 holds the
      input itself, so reverseBwt as written returns just the marker. */
  lemma RowZeroCounterexample()
    ensures SortedRotationsOf("!a$")[0] == Rotation("!a$", 0)
    ensures "!a"[..0] + [Dollar] == "$" != "!a$"
  {
    assert "!a" + [Dollar] == "!a$";
    LeastFirstChar("!a", 0);
  }
}
