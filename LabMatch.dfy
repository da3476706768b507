// The lab/student matcher of
// projects/15-GaleShapley/programmingChallenge/solutions/phds.java. Every
// open slot of a lab that still has vacancies proposes down the lab's list
// of students. The first willing student who is free, or who is engaged
// elsewhere and ranks this slot better, takes it. A slot that nobody takes
// is marked impossible, which makes the matching unstable. Lab and student
// names are replaced by their indices.
module LabMatch {
  import opened Outcomes
  import opened Sums

  /** Integer.MAX_VALUE: the rank of a lab that a student did not list. */
  const MaxInt := 0x7fff_ffff

  /** Position spot of lab lab. */
  datatype Slot = Slot(lab: int, spot: int)

  /** The bookkeeping of match: which slots are open, which students are
      free, the vacancies of each lab, and the engagement in both
      directions (stuToSlot holds null, here None, for a student who was
      never engaged). */
  datatype State = State(slotOpen: seq<seq<bool>>, stuFree: seq<bool>, labVacant: seq<int>,
                         slotToStu: map<Slot, int>, stuToSlot: seq<Option<Slot>>)

  // ---------------------------------------------------------------------
  // The ranking table

  /** One student's row of the ranking table: the last position of each
      lab in the student's list, or MaxInt for a lab not listed. */
  ghost predicate RankRow(row: seq<int>, prefs: seq<int>, nlabs: int)
  {
    |row| == nlabs
    && forall l :: 0 <= l < nlabs ==>
      if l in prefs then
        0 <= row[l] < |prefs| && prefs[row[l]] == l
        && forall t :: row[l] < t < |prefs| ==> prefs[t] != l
      else row[l] == MaxInt
  }

  ghost predicate IsRankTable(rank: seq<seq<int>>, stuPrefs: seq<seq<int>>, nlabs: int)
  {
    |rank| == |stuPrefs| && forall s :: 0 <= s < |rank| ==> RankRow(rank[s], stuPrefs[s], nlabs)
  }

  /** Every rank lies in [0, MaxInt]. */
  ghost predicate RanksBounded(rank: seq<seq<int>>, nStu: int, nlabs: int)
  {
    |rank| == nStu
    && forall s :: 0 <= s < nStu ==>
      |rank[s]| == nlabs && forall l :: 0 <= l < nlabs ==> 0 <= rank[s][l] <= MaxInt
  }

  /** The lists the lab indices come from. */
  ghost predicate LabLists(stuPrefs: seq<seq<int>>, nlabs: int)
  {
    forall s, k :: 0 <= s < |stuPrefs| && 0 <= k < |stuPrefs[s]| ==> 0 <= stuPrefs[s][k] < nlabs
  }

  /** The rank table of match: every row starts at MaxInt and the lab at
      position pos of a student's list gets rank pos. */
  method BuildRanks(stuPrefs: seq<seq<int>>, nlabs: nat) returns (rank: seq<seq<int>>)
    requires LabLists(stuPrefs, nlabs)
    ensures IsRankTable(rank, stuPrefs, nlabs)
  {
    rank := seq(|stuPrefs|, _ => seq(nlabs, _ => MaxInt));
    for s := 0 to |stuPrefs|
      invariant |rank| == |stuPrefs|
      invariant forall q :: 0 <= q < s ==> RankRow(rank[q], stuPrefs[q], nlabs)
    {
      var prefs := stuPrefs[s];
      var row := seq(nlabs, _ => MaxInt);
      var pos := 0;
      while pos < |prefs|
        invariant 0 <= pos <= |prefs|
        invariant RankRow(row, prefs[..pos], nlabs)
      {
        var x := prefs[pos];
        assert prefs[..pos + 1] == prefs[..pos] + [x];
        row := row[x := pos];
        pos := pos + 1;
      }
      assert prefs[..pos] == prefs;
      rank := rank[s := row];
    }
  }

  /** A table built from lists no longer than Integer.MAX_VALUE holds ranks
      in [0, MaxInt]. */
  lemma RankTableBounded(rank: seq<seq<int>>, stuPrefs: seq<seq<int>>, nlabs: int)
    requires IsRankTable(rank, stuPrefs, nlabs)
    requires forall s :: 0 <= s < |stuPrefs| ==> |stuPrefs[s]| <= MaxInt
    ensures RanksBounded(rank, |stuPrefs|, nlabs)
  {
    forall s, l | 0 <= s < |stuPrefs| && 0 <= l < nlabs
      ensures 0 <= rank[s][l] <= MaxInt
    {
      assert RankRow(rank[s], stuPrefs[s], nlabs);
    }
  }

  /** Integer.compare. */
  function Compare(a: int, b: int): int
  {
    if a < b then -1 else if a == b then 0 else 1
  }

  /** The student prefers the new slot, at rank r and spot p, to the old
      one, at rank oldR and spot oldP: a better lab, or an equally ranked
      lab at a lower spot. */
  predicate Prefers(r: int, p: int, oldR: int, oldP: int)
  {
    var better := Compare(r, oldR);
    better < 0 || (better == 0 && p < oldP)
  }

  /** Lexicographic order on pairs. */
  predicate LexBelow(a1: int, a2: int, b1: int, b2: int)
  {
    a1 < b1 || (a1 == b1 && a2 < b2)
  }

  /** Preferring is exactly the lexicographic order on (rank, spot), so a
      student never moves to a slot they rank lower, and never in a cycle. */
  lemma PrefersIsLex(r: int, p: int, oldR: int, oldP: int)
    ensures Prefers(r, p, oldR, oldP) <==> LexBelow(r, p, oldR, oldP)
    ensures !Prefers(r, p, r, p)
  {
  }

  // ---------------------------------------------------------------------
  // The bookkeeping and its invariant

  predicate InRange(sl: Slot, labCap: seq<int>)
  {
    0 <= sl.lab < |labCap| && 0 <= sl.spot < labCap[sl.lab]
  }

  /** The number of slots of lab l below spot c that are held. */
  function Occupied(m: map<Slot, int>, l: int, c: int): nat
    decreases c
  {
    if c <= 0 then 0 else Occupied(m, l, c - 1) + (if Slot(l, c - 1) in m then 1 else 0)
  }

  lemma {:induction false} OccupiedEmpty(l: int, c: int)
    ensures Occupied(map[], l, c) == 0
    decreases c
  {
    if c > 0 {
      OccupiedEmpty(l, c - 1);
    }
  }

  /** Holding one more slot counts once, in its own lab only. */
  lemma {:induction false} OccupiedPut(m: map<Slot, int>, sl: Slot, v: int, l: int, c: int)
    requires sl !in m
    ensures Occupied(m[sl := v], l, c) == Occupied(m, l, c) + (if sl.lab == l && 0 <= sl.spot < c then 1 else 0)
    decreases c
  {
    if c > 0 {
      OccupiedPut(m, sl, v, l, c - 1);
    }
  }

  /** Releasing a held slot uncounts it, in its own lab only. */
  lemma {:induction false} OccupiedRemove(m: map<Slot, int>, sl: Slot, l: int, c: int)
    requires sl in m
    ensures Occupied(m - {sl}, l, c) == Occupied(m, l, c) - (if sl.lab == l && 0 <= sl.spot < c then 1 else 0)
    decreases c
  {
    if c > 0 {
      OccupiedRemove(m, sl, l, c - 1);
    }
  }

  ghost predicate Shaped(st: State, labCap: seq<int>, nStu: int, willing: seq<seq<bool>>)
  {
    |willing| == nStu && (forall s :: 0 <= s < nStu ==> |willing[s]| == |labCap|)
    && |st.slotOpen| == |labCap| && (forall l :: 0 <= l < |labCap| ==> |st.slotOpen[l]| == labCap[l])
    && |st.stuFree| == nStu && |st.stuToSlot| == nStu && |st.labVacant| == |labCap|
  }

  /** Every engaged student holds the slot that stuToSlot names; every held
      slot is closed, lies within its lab's capacity and is held by an
      engaged student who is willing to join that lab. */
  ghost predicate Linked(st: State, labCap: seq<int>, nStu: int, willing: seq<seq<bool>>)
    requires Shaped(st, labCap, nStu, willing)
  {
    (forall s :: 0 <= s < nStu && !st.stuFree[s] ==>
      st.stuToSlot[s].Some? && st.stuToSlot[s].value in st.slotToStu && st.slotToStu[st.stuToSlot[s].value] == s)
    && (forall sl :: sl in st.slotToStu ==>
      InRange(sl, labCap) && 0 <= st.slotToStu[sl] < nStu
      && !st.stuFree[st.slotToStu[sl]] && st.stuToSlot[st.slotToStu[sl]] == Some(sl)
      && !st.slotOpen[sl.lab][sl.spot] && willing[st.slotToStu[sl]][sl.lab])
  }

  /** labVacant counts the slots of each lab that nobody holds. */
  ghost predicate Vacancies(st: State, labCap: seq<int>)
    requires |st.labVacant| == |labCap|
  {
    forall l :: 0 <= l < |labCap| ==> st.labVacant[l] == labCap[l] - Occupied(st.slotToStu, l, labCap[l])
  }

  ghost predicate Consistent(st: State, labCap: seq<int>, nStu: int, willing: seq<seq<bool>>)
  {
    Shaped(st, labCap, nStu, willing) && Linked(st, labCap, nStu, willing) && Vacancies(st, labCap)
  }

  /** The bookkeeping match starts from: every slot open, every student
      free, each lab's vacancies its capacity, nobody engaged. */
  function Initial(labCap: seq<int>, nStu: nat): State
    requires forall l :: 0 <= l < |labCap| ==> labCap[l] >= 0
  {
    State(seq(|labCap|, l requires 0 <= l < |labCap| => seq(labCap[l], _ => true)),
          seq(nStu, _ => true), labCap, map[], seq(nStu, _ => None))
  }

  lemma InitialConsistent(labCap: seq<int>, nStu: nat, willing: seq<seq<bool>>)
    requires forall l :: 0 <= l < |labCap| ==> labCap[l] >= 0
    requires |willing| == nStu && forall s :: 0 <= s < nStu ==> |willing[s]| == |labCap|
    ensures Consistent(Initial(labCap, nStu), labCap, nStu, willing)
  {
    forall l | 0 <= l < |labCap|
      ensures Occupied(map[], l, labCap[l]) == 0
    {
      OccupiedEmpty(l, labCap[l]);
    }
  }

  /** engage: slot (l, p) closes, s stops being free, lab l loses a
      vacancy, and the slot and s are linked both ways. */
  function Engaged(st: State, l: int, p: int, s: int): State
    requires 0 <= l < |st.slotOpen| && 0 <= p < |st.slotOpen[l]| && 0 <= s < |st.stuFree|
    requires |st.labVacant| == |st.slotOpen| && |st.stuToSlot| == |st.stuFree|
  {
    State(st.slotOpen[l := st.slotOpen[l][p := false]], st.stuFree[s := false],
          st.labVacant[l := st.labVacant[l] - 1], st.slotToStu[Slot(l, p) := s],
          st.stuToSlot[s := Some(Slot(l, p))])
  }

  /** disengage: the slot reopens, its lab gains a vacancy, and the slot
      no longer names a student. The student's own entries are untouched. */
  function Disengaged(st: State, slot: Slot): State
    requires 0 <= slot.lab < |st.slotOpen| && 0 <= slot.spot < |st.slotOpen[slot.lab]|
    requires |st.labVacant| == |st.slotOpen|
  {
    st.(slotOpen := st.slotOpen[slot.lab := st.slotOpen[slot.lab][slot.spot := true]],
        labVacant := st.labVacant[slot.lab := st.labVacant[slot.lab] + 1],
        slotToStu := st.slotToStu - {slot})
  }

  /** A slot marked impossible: closed, with nothing else changed. */
  function Closed(st: State, l: int, p: int): State
    requires 0 <= l < |st.slotOpen| && 0 <= p < |st.slotOpen[l]|
  {
    st.(slotOpen := st.slotOpen[l := st.slotOpen[l][p := false]])
  }

  // ---------------------------------------------------------------------
  // The measure that the proposal loop lowers

  /** The number of open slots. */
  function OpenCount(so: seq<seq<bool>>): int
  {
    Sum(seq(|so|, l requires 0 <= l < |so| => |so[l]| - CountFalse(so[l])))
  }

  lemma OpenUpdate(so: seq<seq<bool>>, l: int, p: int, b: bool)
    requires 0 <= l < |so| && 0 <= p < |so[l]|
    ensures OpenCount(so[l := so[l][p := b]]) == OpenCount(so) - (if so[l][p] then 1 else 0) + (if b then 1 else 0)
  {
    var f := seq(|so|, k requires 0 <= k < |so| => |so[k]| - CountFalse(so[k]));
    var so2 := so[l := so[l][p := b]];
    CountFalseUpdate(so[l], p, b);
    assert seq(|so2|, k requires 0 <= k < |so2| => |so2[k]| - CountFalse(so2[k]))
      == f[l := |so2[l]| - CountFalse(so2[l])];
    SumUpdate(f, l, |so2[l]| - CountFalse(so2[l]));
  }

  lemma OpenNonNegative(so: seq<seq<bool>>)
    ensures OpenCount(so) >= 0
  {
    SumNonNegative(seq(|so|, l requires 0 <= l < |so| => |so[l]| - CountFalse(so[l])));
  }

  /** A student's rank of the lab they are in; a free student counts one
      worse than any rank. */
  function RankScore(st: State, rank: seq<seq<int>>, s: int): int
    requires 0 <= s < |st.stuFree| && |st.stuToSlot| == |st.stuFree|
  {
    if st.stuFree[s] || st.stuToSlot[s].None? then MaxInt + 1
    else if s < |rank| && 0 <= st.stuToSlot[s].value.lab < |rank[s]| then rank[s][st.stuToSlot[s].value.lab]
    else MaxInt + 1
  }

  /** The spot a student holds; 0 for a free student. */
  function SpotScore(st: State, s: int): int
    requires 0 <= s < |st.stuFree| && |st.stuToSlot| == |st.stuFree|
  {
    if st.stuFree[s] || st.stuToSlot[s].None? then 0 else st.stuToSlot[s].value.spot
  }

  function RankScores(st: State, rank: seq<seq<int>>): seq<int>
    requires |st.stuToSlot| == |st.stuFree|
  {
    seq(|st.stuFree|, s requires 0 <= s < |st.stuFree| => RankScore(st, rank, s))
  }

  function SpotScores(st: State): seq<int>
    requires |st.stuToSlot| == |st.stuFree|
  {
    seq(|st.stuFree|, s requires 0 <= s < |st.stuFree| => SpotScore(st, s))
  }

  /** The first component: the open slots plus the students' ranks of their
      labs. */
  function Major(st: State, rank: seq<seq<int>>): int
    requires |st.stuToSlot| == |st.stuFree|
  {
    OpenCount(st.slotOpen) + Sum(RankScores(st, rank))
  }

  /** The second component: the spots the students hold. */
  function Minor(st: State): int
    requires |st.stuToSlot| == |st.stuFree|
  {
    Sum(SpotScores(st))
  }

  /** Both components are never negative. */
  lemma MeasureNonNegative(st: State, rank: seq<seq<int>>, labCap: seq<int>, nStu: int, willing: seq<seq<bool>>)
    requires Consistent(st, labCap, nStu, willing) && RanksBounded(rank, nStu, |labCap|)
    ensures Major(st, rank) >= 0 && Minor(st) >= 0
  {
    OpenNonNegative(st.slotOpen);
    SumNonNegative(RankScores(st, rank));
    forall s | 0 <= s < nStu
      ensures SpotScores(st)[s] >= 0
    {
      if !st.stuFree[s] {
        assert st.stuToSlot[s].value in st.slotToStu;
      }
    }
    SumNonNegative(SpotScores(st));
  }

  /** Re-engaging one student changes the two sums by that student's
      scores only. */
  lemma ScoresUpdate(st: State, st2: State, rank: seq<seq<int>>, s: int, sl: Slot)
    requires |st.stuToSlot| == |st.stuFree| && 0 <= s < |st.stuFree|
    requires st2.stuFree == st.stuFree[s := false] && st2.stuToSlot == st.stuToSlot[s := Some(sl)]
    ensures Sum(RankScores(st2, rank)) == Sum(RankScores(st, rank)) - RankScore(st, rank, s) + RankScore(st2, rank, s)
    ensures Sum(SpotScores(st2)) == Sum(SpotScores(st)) - SpotScore(st, s) + SpotScore(st2, s)
  {
    assert RankScores(st2, rank) == RankScores(st, rank)[s := RankScore(st2, rank, s)];
    SumUpdate(RankScores(st, rank), s, RankScore(st2, rank, s));
    assert SpotScores(st2) == SpotScores(st)[s := SpotScore(st2, s)];
    SumUpdate(SpotScores(st), s, SpotScore(st2, s));
  }

  // ---------------------------------------------------------------------
  // The three steps of the proposal loop

  /** An open slot is held by nobody. */
  lemma OpenNotHeld(st: State, labCap: seq<int>, nStu: int, willing: seq<seq<bool>>, l: int, p: int)
    requires Consistent(st, labCap, nStu, willing)
    requires InRange(Slot(l, p), labCap) && st.slotOpen[l][p]
    ensures Slot(l, p) !in st.slotToStu
  {
  }

  lemma EngageFreeLinked(st: State, labCap: seq<int>, nStu: int, willing: seq<seq<bool>>, l: int, p: int, s: int)
    requires Consistent(st, labCap, nStu, willing)
    requires InRange(Slot(l, p), labCap) && st.slotOpen[l][p]
    requires 0 <= s < nStu && st.stuFree[s] && willing[s][l]
    ensures Shaped(Engaged(st, l, p, s), labCap, nStu, willing)
    ensures Linked(Engaged(st, l, p, s), labCap, nStu, willing)
  {
    var st2 := Engaged(st, l, p, s);
    OpenNotHeld(st, labCap, nStu, willing, l, p);
    forall sl | sl in st2.slotToStu && sl != Slot(l, p)
      ensures st2.slotToStu[sl] != s && !st2.slotOpen[sl.lab][sl.spot]
    {
      assert st2.slotOpen[sl.lab] == st.slotOpen[sl.lab] || sl.lab == l;
    }
  }

  lemma EngageFreeVacancies(st: State, labCap: seq<int>, nStu: int, willing: seq<seq<bool>>, l: int, p: int, s: int)
    requires Consistent(st, labCap, nStu, willing)
    requires InRange(Slot(l, p), labCap) && st.slotOpen[l][p]
    requires 0 <= s < nStu
    ensures Vacancies(Engaged(st, l, p, s), labCap)
  {
    OpenNotHeld(st, labCap, nStu, willing, l, p);
    forall l2 | 0 <= l2 < |labCap|
      ensures Occupied(st.slotToStu[Slot(l, p) := s], l2, labCap[l2])
        == Occupied(st.slotToStu, l2, labCap[l2]) + (if l2 == l then 1 else 0)
    {
      OccupiedPut(st.slotToStu, Slot(l, p), s, l2, labCap[l2]);
    }
  }

  /** engage of a free student keeps the bookkeeping consistent and lowers
      the first component of the measure. */
  lemma EngageFreeStep(st: State, rank: seq<seq<int>>, labCap: seq<int>, nStu: int, willing: seq<seq<bool>>, l: int, p: int, s: int)
    requires Consistent(st, labCap, nStu, willing) && RanksBounded(rank, nStu, |labCap|)
    requires InRange(Slot(l, p), labCap) && st.slotOpen[l][p]
    requires 0 <= s < nStu && st.stuFree[s] && willing[s][l]
    ensures Consistent(Engaged(st, l, p, s), labCap, nStu, willing)
    ensures Major(Engaged(st, l, p, s), rank) < Major(st, rank)
  {
    var st2 := Engaged(st, l, p, s);
    EngageFreeLinked(st, labCap, nStu, willing, l, p, s);
    EngageFreeVacancies(st, labCap, nStu, willing, l, p, s);
    OpenUpdate(st.slotOpen, l, p, false);
    ScoresUpdate(st, st2, rank, s, Slot(l, p));
  }

  lemma MoveLinked(st: State, labCap: seq<int>, nStu: int, willing: seq<seq<bool>>, l: int, p: int, s: int)
    requires Consistent(st, labCap, nStu, willing)
    requires InRange(Slot(l, p), labCap) && st.slotOpen[l][p]
    requires 0 <= s < nStu && !st.stuFree[s] && willing[s][l]
    ensures InRange(st.stuToSlot[s].value, labCap)
    ensures Shaped(Engaged(Disengaged(st, st.stuToSlot[s].value), l, p, s), labCap, nStu, willing)
    ensures Linked(Engaged(Disengaged(st, st.stuToSlot[s].value), l, p, s), labCap, nStu, willing)
  {
    var o := st.stuToSlot[s].value;
    var st2 := Engaged(Disengaged(st, o), l, p, s);
    OpenNotHeld(st, labCap, nStu, willing, l, p);
    assert o != Slot(l, p);
    forall s2 | 0 <= s2 < nStu && !st2.stuFree[s2] && s2 != s
      ensures st2.stuToSlot[s2].Some? && st2.stuToSlot[s2].value in st2.slotToStu && st2.slotToStu[st2.stuToSlot[s2].value] == s2
    {
      assert st.stuToSlot[s2].value != o;
    }
    forall sl | sl in st2.slotToStu && sl != Slot(l, p)
      ensures sl in st.slotToStu && sl != o && st.slotToStu[sl] != s
      ensures !st2.slotOpen[sl.lab][sl.spot]
    {
      assert st2.slotOpen[sl.lab] == st.slotOpen[sl.lab] || sl.lab == l || sl.lab == o.lab;
    }
  }

  lemma MoveVacancies(st: State, labCap: seq<int>, nStu: int, willing: seq<seq<bool>>, l: int, p: int, s: int)
    requires Consistent(st, labCap, nStu, willing)
    requires InRange(Slot(l, p), labCap) && st.slotOpen[l][p]
    requires 0 <= s < nStu && !st.stuFree[s]
    ensures InRange(st.stuToSlot[s].value, labCap)
    ensures Vacancies(Engaged(Disengaged(st, st.stuToSlot[s].value), l, p, s), labCap)
  {
    var o := st.stuToSlot[s].value;
    var m := st.slotToStu;
    OpenNotHeld(st, labCap, nStu, willing, l, p);
    forall l2 | 0 <= l2 < |labCap|
      ensures Occupied((m - {o})[Slot(l, p) := s], l2, labCap[l2])
        == Occupied(m, l2, labCap[l2]) - (if l2 == o.lab then 1 else 0) + (if l2 == l then 1 else 0)
    {
      OccupiedRemove(m, o, l2, labCap[l2]);
      OccupiedPut(m - {o}, Slot(l, p), s, l2, labCap[l2]);
    }
  }

  /** The measure of a move: the reopened slot o and the newly closed
      slot (l, p) leave the open count unchanged, and only the moving
      student's rank and spot change, to a pair they prefer. */
  lemma MoveMeasure(st: State, rank: seq<seq<int>>, l: int, p: int, s: int, o: Slot)
    requires |st.stuToSlot| == |st.stuFree| == |rank| && |st.labVacant| == |st.slotOpen|
    requires 0 <= l < |st.slotOpen| && 0 <= p < |st.slotOpen[l]| && st.slotOpen[l][p]
    requires 0 <= o.lab < |st.slotOpen| && 0 <= o.spot < |st.slotOpen[o.lab]| && !st.slotOpen[o.lab][o.spot]
    requires 0 <= s < |st.stuFree| && !st.stuFree[s] && st.stuToSlot[s] == Some(o)
    requires 0 <= l < |rank[s]| && 0 <= o.lab < |rank[s]|
    requires Prefers(rank[s][l], p, rank[s][o.lab], o.spot)
    ensures LexBelow(Major(Engaged(Disengaged(st, o), l, p, s), rank), Minor(Engaged(Disengaged(st, o), l, p, s)),
                     Major(st, rank), Minor(st))
  {
    var st1 := Disengaged(st, o);
    var st2 := Engaged(st1, l, p, s);
    OpenUpdate(st.slotOpen, o.lab, o.spot, true);
    OpenUpdate(st1.slotOpen, l, p, false);
    assert st.stuFree[s := false] == st.stuFree;
    ScoresUpdate(st, st2, rank, s, Slot(l, p));
  }

  /** A student who prefers the open slot (l, p) to the slot they hold
      moves there: the bookkeeping stays consistent, the number of open
      slots is unchanged, and the measure falls lexicographically. */
  lemma MoveStep(st: State, rank: seq<seq<int>>, labCap: seq<int>, nStu: int, willing: seq<seq<bool>>, l: int, p: int, s: int)
    requires Consistent(st, labCap, nStu, willing) && RanksBounded(rank, nStu, |labCap|)
    requires InRange(Slot(l, p), labCap) && st.slotOpen[l][p]
    requires 0 <= s < nStu && !st.stuFree[s] && willing[s][l]
    requires st.stuToSlot[s].Some? && 0 <= st.stuToSlot[s].value.lab < |labCap|
    requires Prefers(rank[s][l], p, rank[s][st.stuToSlot[s].value.lab], st.stuToSlot[s].value.spot)
    ensures InRange(st.stuToSlot[s].value, labCap)
    ensures Consistent(Engaged(Disengaged(st, st.stuToSlot[s].value), l, p, s), labCap, nStu, willing)
    ensures LexBelow(Major(Engaged(Disengaged(st, st.stuToSlot[s].value), l, p, s), rank),
                     Minor(Engaged(Disengaged(st, st.stuToSlot[s].value), l, p, s)),
                     Major(st, rank), Minor(st))
  {
    var o := st.stuToSlot[s].value;
    MoveLinked(st, labCap, nStu, willing, l, p, s);
    MoveVacancies(st, labCap, nStu, willing, l, p, s);
    assert o in st.slotToStu;
    MoveMeasure(st, rank, l, p, s, o);
  }

  /** Marking an open slot impossible keeps the bookkeeping consistent and
      lowers the first component of the measure by one. */
  lemma MarkStep(st: State, rank: seq<seq<int>>, labCap: seq<int>, nStu: int, willing: seq<seq<bool>>, l: int, p: int)
    requires Consistent(st, labCap, nStu, willing)
    requires InRange(Slot(l, p), labCap) && st.slotOpen[l][p]
    ensures Consistent(Closed(st, l, p), labCap, nStu, willing)
    ensures Major(Closed(st, l, p), rank) == Major(st, rank) - 1
    ensures Minor(Closed(st, l, p)) == Minor(st)
  {
    var st2 := Closed(st, l, p);
    OpenNotHeld(st, labCap, nStu, willing, l, p);
    forall sl | sl in st2.slotToStu
      ensures !st2.slotOpen[sl.lab][sl.spot]
    {
      assert st2.slotOpen[sl.lab] == st.slotOpen[sl.lab] || sl.lab == l;
    }
    OpenUpdate(st.slotOpen, l, p, false);
    assert RankScores(st2, rank) == RankScores(st, rank);
    assert SpotScores(st2) == SpotScores(st);
  }

  // ---------------------------------------------------------------------
  // The imperative matcher

  /** The arrays and maps that match keeps and that engage and disengage
      change in place. */
  class Bookkeeping {
    var slotOpen: seq<seq<bool>>
    var stuFree: seq<bool>
    var labVacant: seq<int>
    var slotToStu: map<Slot, int>
    var stuToSlot: seq<Option<Slot>>

    ghost function Snap(): State
      reads this
    {
      State(slotOpen, stuFree, labVacant, slotToStu, stuToSlot)
    }

    constructor (labCap: seq<int>, nStu: nat)
      requires forall l :: 0 <= l < |labCap| ==> labCap[l] >= 0
      ensures Snap() == Initial(labCap, nStu)
    {
      slotOpen := seq(|labCap|, l requires 0 <= l < |labCap| => seq(labCap[l], _ => true));
      stuFree := seq(nStu, _ => true);
      labVacant := labCap;
      slotToStu := map[];
      stuToSlot := seq(nStu, _ => None);
    }

    /** engage: commits student s to slot (l, p). */
    method Engage(l: int, p: int, s: int)
      requires 0 <= l < |slotOpen| && 0 <= p < |slotOpen[l]| && 0 <= s < |stuFree|
      requires |labVacant| == |slotOpen| && |stuToSlot| == |stuFree|
      modifies this
      ensures Snap() == Engaged(old(Snap()), l, p, s)
    {
      slotOpen := slotOpen[l := slotOpen[l][p := false]];
      stuFree := stuFree[s := false];
      labVacant := labVacant[l := labVacant[l] - 1];
      var slot := Slot(l, p);
      slotToStu := slotToStu[slot := s];
      stuToSlot := stuToSlot[s := Some(slot)];
    }

    /** disengage: undoes the engagement that occupies slot. */
    method Disengage(slot: Slot)
      requires 0 <= slot.lab < |slotOpen| && 0 <= slot.spot < |slotOpen[slot.lab]|
      requires |labVacant| == |slotOpen|
      modifies this
      ensures Snap() == Disengaged(old(Snap()), slot)
    {
      slotOpen := slotOpen[slot.lab := slotOpen[slot.lab][slot.spot := true]];
      labVacant := labVacant[slot.lab := labVacant[slot.lab] + 1];
      slotToStu := slotToStu - {slot};
    }
  }

  /** Student s would take slot (l, p) in state st: they are willing to
      join lab l and are free, or hold a slot they like less. */
  ghost predicate Takes(st: State, rank: seq<seq<int>>, willing: seq<seq<bool>>, l: int, p: int, s: int)
  {
    0 <= s < |willing| && 0 <= l < |willing[s]| && willing[s][l]
    && 0 <= s < |st.stuFree| && 0 <= s < |st.stuToSlot|
    && (st.stuFree[s]
        || (st.stuToSlot[s].Some? && 0 <= s < |rank| && 0 <= l < |rank[s]|
            && 0 <= st.stuToSlot[s].value.lab < |rank[s]|
            && Prefers(rank[s][l], p, rank[s][st.stuToSlot[s].value.lab], st.stuToSlot[s].value.spot)))
  }

  /** The body of the slot loop of match: slot (l, p) proposes down the
      lab's list prefs and goes to the first student who takes it. No
      student takes it exactly when filled is false, and then nothing
      changes; otherwise wasFree says whether that student was free. */
  method ProposeSlot(b: Bookkeeping, prefs: seq<int>, l: int, p: int, willing: seq<seq<bool>>, rank: seq<seq<int>>,
                     ghost labCap: seq<int>, ghost nStu: int)
    returns (filled: bool, wasFree: bool, ghost s: int, ghost k: int, ghost o: Slot)
    requires Consistent(b.Snap(), labCap, nStu, willing) && RanksBounded(rank, nStu, |labCap|)
    requires InRange(Slot(l, p), labCap) && b.slotOpen[l][p]
    requires forall i :: 0 <= i < |prefs| ==> 0 <= prefs[i] < nStu
    modifies b
    ensures Consistent(b.Snap(), labCap, nStu, willing)
    ensures !filled ==> forall i :: 0 <= i < |prefs| ==> !Takes(old(b.Snap()), rank, willing, l, p, prefs[i])
    ensures !filled ==> b.Snap() == old(b.Snap()) && !wasFree
    ensures filled ==> 0 <= k < |prefs| && prefs[k] == s && Takes(old(b.Snap()), rank, willing, l, p, s)
    ensures filled ==> forall i :: 0 <= i < k ==> !Takes(old(b.Snap()), rank, willing, l, p, prefs[i])
    ensures filled && wasFree ==> old(b.stuFree[s]) && b.Snap() == Engaged(old(b.Snap()), l, p, s)
    ensures filled && wasFree ==> Major(b.Snap(), rank) < Major(old(b.Snap()), rank)
    ensures filled && !wasFree ==> !old(b.stuFree[s]) && old(b.stuToSlot[s]) == Some(o) && InRange(o, labCap)
    ensures filled && !wasFree ==> b.Snap() == Engaged(Disengaged(old(b.Snap()), o), l, p, s)
    ensures filled && !wasFree ==> LexBelow(Major(b.Snap(), rank), Minor(b.Snap()), Major(old(b.Snap()), rank), Minor(old(b.Snap())))
  {
    s, k, o := -1, |prefs|, Slot(0, 0);
    var i := 0;
    while i < |prefs|
      invariant 0 <= i <= |prefs|
      invariant b.Snap() == old(b.Snap())
      invariant forall j :: 0 <= j < i ==> !Takes(b.Snap(), rank, willing, l, p, prefs[j])
    {
      var stu := prefs[i];
      if !willing[stu][l] {
        i := i + 1;
        continue;
      }
      ghost var st0 := b.Snap();
      if b.stuFree[stu] {
        assert Takes(st0, rank, willing, l, p, stu);
        b.Engage(l, p, stu);
        EngageFreeStep(st0, rank, labCap, nStu, willing, l, p, stu);
        return true, true, stu, i, o;
      }
      var oldSlot := b.stuToSlot[stu].value;
      var better := Compare(rank[stu][l], rank[stu][oldSlot.lab]);
      var prefer := better < 0 || (better == 0 && p < oldSlot.spot);
      if prefer {
        assert Takes(st0, rank, willing, l, p, stu);
        b.Disengage(oldSlot);
        b.Engage(l, p, stu);
        MoveStep(st0, rank, labCap, nStu, willing, l, p, stu);
        return true, false, stu, i, oldSlot;
      }
      i := i + 1;
    }
    filled, wasFree := false, false;
  }

  /** The slots marked impossible stay closed and unheld. */
  ghost predicate MarkedClosed(st: State, marked: set<Slot>, labCap: seq<int>)
  {
    forall sl :: sl in marked ==>
      InRange(sl, labCap) && sl !in st.slotToStu
      && 0 <= sl.lab < |st.slotOpen| && 0 <= sl.spot < |st.slotOpen[sl.lab]| && !st.slotOpen[sl.lab][sl.spot]
  }

  lemma MarkedAfterEngage(st: State, marked: set<Slot>, labCap: seq<int>, nStu: int, willing: seq<seq<bool>>, l: int, p: int, s: int)
    requires Consistent(st, labCap, nStu, willing) && MarkedClosed(st, marked, labCap)
    requires InRange(Slot(l, p), labCap) && st.slotOpen[l][p] && 0 <= s < nStu
    ensures MarkedClosed(Engaged(st, l, p, s), marked, labCap)
  {
    var st2 := Engaged(st, l, p, s);
    forall sl | sl in marked
      ensures sl !in st2.slotToStu && !st2.slotOpen[sl.lab][sl.spot]
    {
      assert sl != Slot(l, p);
      assert st2.slotOpen[sl.lab] == st.slotOpen[sl.lab] || sl.lab == l;
    }
  }

  lemma MarkedAfterMove(st: State, marked: set<Slot>, labCap: seq<int>, nStu: int, willing: seq<seq<bool>>, l: int, p: int, s: int)
    requires Consistent(st, labCap, nStu, willing) && MarkedClosed(st, marked, labCap)
    requires InRange(Slot(l, p), labCap) && st.slotOpen[l][p] && 0 <= s < nStu && !st.stuFree[s]
    ensures InRange(st.stuToSlot[s].value, labCap)
    ensures MarkedClosed(Engaged(Disengaged(st, st.stuToSlot[s].value), l, p, s), marked, labCap)
  {
    var o := st.stuToSlot[s].value;
    var st2 := Engaged(Disengaged(st, o), l, p, s);
    forall sl | sl in marked
      ensures sl !in st2.slotToStu && !st2.slotOpen[sl.lab][sl.spot]
    {
      assert sl != Slot(l, p) && sl != o;
      assert st2.slotOpen[sl.lab] == st.slotOpen[sl.lab] || sl.lab == l || sl.lab == o.lab;
    }
  }

  lemma MarkedAfterClose(st: State, marked: set<Slot>, labCap: seq<int>, nStu: int, willing: seq<seq<bool>>, l: int, p: int)
    requires Consistent(st, labCap, nStu, willing) && MarkedClosed(st, marked, labCap)
    requires InRange(Slot(l, p), labCap) && st.slotOpen[l][p]
    ensures MarkedClosed(Closed(st, l, p), marked + {Slot(l, p)}, labCap)
  {
    var st2 := Closed(st, l, p);
    forall sl | sl in marked
      ensures !st2.slotOpen[sl.lab][sl.spot]
    {
      assert st2.slotOpen[sl.lab] == st.slotOpen[sl.lab] || sl.lab == l;
    }
  }

  /** One visit of the slot loop of match to the open slot (l, p): the
      slot proposes, and when nobody takes it, it is marked impossible.
      Either way the measure falls. */
  method VisitSlot(b: Bookkeeping, prefs: seq<int>, l: int, p: int, willing: seq<seq<bool>>, rank: seq<seq<int>>,
                   ghost labCap: seq<int>, ghost nStu: int, ghost marked: set<Slot>)
    returns (filled: bool, wasFree: bool, ghost marked2: set<Slot>)
    requires Consistent(b.Snap(), labCap, nStu, willing) && RanksBounded(rank, nStu, |labCap|)
    requires MarkedClosed(b.Snap(), marked, labCap)
    requires InRange(Slot(l, p), labCap) && b.slotOpen[l][p]
    requires forall i :: 0 <= i < |prefs| ==> 0 <= prefs[i] < nStu
    modifies b
    ensures Consistent(b.Snap(), labCap, nStu, willing) && MarkedClosed(b.Snap(), marked2, labCap)
    ensures marked2 == if filled then marked else marked + {Slot(l, p)}
    ensures wasFree ==> filled
    ensures !filled ==> b.Snap() == Closed(old(b.Snap()), l, p)
    ensures !filled <==> forall i :: 0 <= i < |prefs| ==> !Takes(old(b.Snap()), rank, willing, l, p, prefs[i])
    ensures LexBelow(Major(b.Snap(), rank), Minor(b.Snap()), Major(old(b.Snap()), rank), Minor(old(b.Snap())))
  {
    ghost var st0 := b.Snap();
    ghost var s, k, o;
    filled, wasFree, s, k, o := ProposeSlot(b, prefs, l, p, willing, rank, labCap, nStu);
    if filled {
      if wasFree {
        MarkedAfterEngage(st0, marked, labCap, nStu, willing, l, p, s);
      } else {
        MarkedAfterMove(st0, marked, labCap, nStu, willing, l, p, s);
      }
      marked2 := marked;
    } else {
      b.slotOpen := b.slotOpen[l := b.slotOpen[l][p := false]];
      MarkStep(st0, rank, labCap, nStu, willing, l, p);
      MarkedAfterClose(st0, marked, labCap, nStu, willing, l, p);
      marked2 := marked + {Slot(l, p)};
    }
  }

  /** The slot loop of match for lab l: every slot of the lab that is
      still open is visited once. totalVac drops by one for each free
      student engaged and each slot marked impossible; a mark also clears
      stable. */
  method VisitLab(b: Bookkeeping, prefs: seq<int>, l: int, willing: seq<seq<bool>>, rank: seq<seq<int>>,
                  totalVac: int, stable: bool, ghost labCap: seq<int>, ghost nStu: int, ghost marked: set<Slot>)
    returns (totalVac2: int, stable2: bool, progress: bool, ghost marked2: set<Slot>)
    requires Consistent(b.Snap(), labCap, nStu, willing) && RanksBounded(rank, nStu, |labCap|)
    requires MarkedClosed(b.Snap(), marked, labCap) && (stable <==> marked == {})
    requires 0 <= l < |labCap|
    requires forall i :: 0 <= i < |prefs| ==> 0 <= prefs[i] < nStu
    modifies b
    ensures Consistent(b.Snap(), labCap, nStu, willing)
    ensures MarkedClosed(b.Snap(), marked2, labCap) && (stable2 <==> marked2 == {})
    ensures marked <= marked2
    ensures !progress ==> b.Snap() == old(b.Snap()) && totalVac2 == totalVac && stable2 == stable
    ensures progress ==> LexBelow(Major(b.Snap(), rank), Minor(b.Snap()), Major(old(b.Snap()), rank), Minor(old(b.Snap())))
  {
    totalVac2, stable2, progress, marked2 := totalVac, stable, false, marked;
    for p := 0 to |b.slotOpen[l]|
      invariant Consistent(b.Snap(), labCap, nStu, willing)
      invariant MarkedClosed(b.Snap(), marked2, labCap) && (stable2 <==> marked2 == {})
      invariant marked <= marked2
      invariant !progress ==> b.Snap() == old(b.Snap()) && totalVac2 == totalVac && stable2 == stable
      invariant progress ==> LexBelow(Major(b.Snap(), rank), Minor(b.Snap()), Major(old(b.Snap()), rank), Minor(old(b.Snap())))
    {
      if !b.slotOpen[l][p] {
        continue;
      }
      var filled, wasFree;
      filled, wasFree, marked2 := VisitSlot(b, prefs, l, p, willing, rank, labCap, nStu, marked2);
      if wasFree {
        totalVac2 := totalVac2 - 1;
      }
      if !filled {
        stable2 := false;
        totalVac2 := totalVac2 - 1;
      }
      progress := true;
    }
  }

  /** match: while vacancies remain, every open slot of a lab with
      vacancies proposes once per round, and a round in which nothing
      happens ends the loop. The loop always ends: every engagement, move
      or impossible mark lowers (Major, Minor) lexicographically. The
      result places students only in labs they are willing to join, one
      slot per student; openSpots counts each lab's unheld slots; and the
      matching is reported stable exactly when no slot was marked
      impossible, those slots being left empty. */
  method Match(labPrefs: seq<seq<int>>, stuPrefs: seq<seq<int>>, labCap: seq<int>, willing: seq<seq<bool>>)
    returns (stable: bool, slotToStu: map<Slot, int>, openSpots: seq<int>, ghost marked: set<Slot>)
    requires |labCap| == |labPrefs|
    requires forall l :: 0 <= l < |labCap| ==> labCap[l] >= 0
    requires forall l, k :: 0 <= l < |labPrefs| && 0 <= k < |labPrefs[l]| ==> 0 <= labPrefs[l][k] < |stuPrefs|
    requires LabLists(stuPrefs, |labPrefs|)
    requires forall s :: 0 <= s < |stuPrefs| ==> |stuPrefs[s]| <= MaxInt
    requires |willing| == |stuPrefs| && forall s :: 0 <= s < |stuPrefs| ==> |willing[s]| == |labPrefs|
    ensures forall sl :: sl in slotToStu ==>
      InRange(sl, labCap) && 0 <= slotToStu[sl] < |stuPrefs| && willing[slotToStu[sl]][sl.lab]
    ensures forall a, c :: a in slotToStu && c in slotToStu && slotToStu[a] == slotToStu[c] ==> a == c
    ensures |openSpots| == |labCap|
    ensures forall l :: 0 <= l < |labCap| ==> openSpots[l] == labCap[l] - Occupied(slotToStu, l, labCap[l])
    ensures stable <==> marked == {}
    ensures forall sl :: sl in marked ==> InRange(sl, labCap) && sl !in slotToStu
  {
    var nlabs, nStu := |labPrefs|, |stuPrefs|;
    var b := new Bookkeeping(labCap, nStu);
    InitialConsistent(labCap, nStu, willing);
    var totalVac := nStu;
    var rank := BuildRanks(stuPrefs, nlabs);
    RankTableBounded(rank, stuPrefs, nlabs);
    stable := true;
    marked := {};
    while totalVac > 0
      invariant Consistent(b.Snap(), labCap, nStu, willing)
      invariant stable <==> marked == {}
      invariant MarkedClosed(b.Snap(), marked, labCap)
      decreases Major(b.Snap(), rank), Minor(b.Snap())
    {
      var madeProgress := false;
      ghost var st0 := b.Snap();
      MeasureNonNegative(st0, rank, labCap, nStu, willing);
      for l := 0 to nlabs
        invariant Consistent(b.Snap(), labCap, nStu, willing)
        invariant stable <==> marked == {}
        invariant MarkedClosed(b.Snap(), marked, labCap)
        invariant !madeProgress ==> b.Snap() == st0
        invariant madeProgress ==> LexBelow(Major(b.Snap(), rank), Minor(b.Snap()), Major(st0, rank), Minor(st0))
      {
        if b.labVacant[l] == 0 {
          continue;
        }
        var progress;
        totalVac, stable, progress, marked := VisitLab(b, labPrefs[l], l, willing, rank, totalVac, stable, labCap, nStu, marked);
        madeProgress := madeProgress || progress;
      }
      if !madeProgress {
        break;
      }
      MeasureNonNegative(b.Snap(), rank, labCap, nStu, willing);
    }
    stable, slotToStu, openSpots := stable, b.slotToStu, b.labVacant;
  }
}
