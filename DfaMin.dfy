// DFA minimization over string labels: trimming to the reachable states,
// completion with a trap state, Hopcroft's partition refinement and the
// relabelling of the blocks (projects/13-Hopcroft/implementation/
// HopcroftMinimizer.java). A TransitionKey is a (state, symbol) pair with
// value equality, as its equals and hashCode give it.
module DfaMinimizer {
  import opened Outcomes
  import opened Partitions
  import opened Lexicographic

  type Key = (string, string)

  /** The label makeTotal gives its trap state (line 71). */
  const Trap: string := "__TRAP__"

  // ---------------------------------------------------------------------
  // Words and reachability.

  /** Every symbol of w is in the alphabet. */
  ghost predicate Word(alphabet: set<string>, w: seq<string>)
  {
    forall i :: 0 <= i < |w| ==> w[i] in alphabet
  }

  /** The state w leads to from s, or None once a transition is missing. */
  ghost function Run(tf: map<Key, string>, s: string, w: seq<string>): Option<string>
    decreases |w|
  {
    if w == [] then Some(s)
    else
      match Run(tf, s, w[..|w| - 1])
      case None => None
      case Some(t) => if (t, w[|w| - 1]) in tf then Some(tf[(t, w[|w| - 1])]) else None
  }

  /** Some word over the alphabet leads from start to s. */
  ghost predicate Reaches(tf: map<Key, string>, alphabet: set<string>, start: string, s: string)
  {
    exists w :: Word(alphabet, w) && Run(tf, start, w) == Some(s)
  }

  /** R holds start and every target of a transition out of R on the alphabet. */
  ghost predicate Closed(tf: map<Key, string>, alphabet: set<string>, start: string, R: set<string>)
  {
    start in R && forall s, c :: s in R && c in alphabet && (s, c) in tf ==> tf[(s, c)] in R
  }

  /** A closed set holds every state a word leads to. */
  lemma {:induction false} ClosedHoldsRuns(tf: map<Key, string>, alphabet: set<string>, start: string,
                                           R: set<string>, w: seq<string>)
    requires Closed(tf, alphabet, start, R) && Word(alphabet, w)
    ensures Run(tf, start, w).Some? ==> Run(tf, start, w).value in R
    decreases |w|
  {
    if w != [] {
      var n := |w| - 1;
      assert Word(alphabet, w[..n]);
      ClosedHoldsRuns(tf, alphabet, start, R, w[..n]);
      assert w[n] in alphabet;
    }
  }

  /** Every queued or visited state carries a word that leads to it. */
  ghost predicate Witnessed(tf: map<Key, string>, alphabet: set<string>, start: string, path: map<string, seq<string>>)
  {
    forall s :: s in path ==> Word(alphabet, path[s]) && Run(tf, start, path[s]) == Some(s)
  }

  /** One step further along a witnessed state's word. */
  lemma ExtendPath(tf: map<Key, string>, alphabet: set<string>, start: string, w: seq<string>, s: string, c: string)
    requires Word(alphabet, w) && Run(tf, start, w) == Some(s) && c in alphabet && (s, c) in tf
    ensures Word(alphabet, w + [c]) && Run(tf, start, w + [c]) == Some(tf[(s, c)])
  {
    assert (w + [c])[..|w|] == w;
  }

  /** The loop over the alphabet for a newly visited state s (lines 49-54):
      every missing target of s is queued. */
  method Expand(tf: map<Key, string>, alphabet: set<string>, ghost start: string, reachable: set<string>,
                queue: seq<string>, ghost path: map<string, seq<string>>, s: string)
    returns (queue': seq<string>, ghost path': map<string, seq<string>>)
    requires Witnessed(tf, alphabet, start, path) && s in path
    requires forall k :: 0 <= k < |queue| ==> queue[k] in path
    ensures Witnessed(tf, alphabet, start, path') && path.Keys <= path'.Keys
    ensures forall k :: 0 <= k < |queue'| ==> queue'[k] in path'
    ensures |queue'| >= |queue| && queue'[..|queue|] == queue
    ensures forall k :: |queue| <= k < |queue'| ==> queue'[k] in tf.Values
    ensures forall c :: c in alphabet && (s, c) in tf ==> tf[(s, c)] in reachable || tf[(s, c)] in queue'
  {
    queue', path' := queue, path;
    var rest := alphabet;
    while rest != {}
      invariant rest <= alphabet
      invariant Witnessed(tf, alphabet, start, path') && path.Keys <= path'.Keys
      invariant forall k :: 0 <= k < |queue'| ==> queue'[k] in path'
      invariant |queue'| >= |queue| && queue'[..|queue|] == queue
      invariant forall k :: |queue| <= k < |queue'| ==> queue'[k] in tf.Values
      invariant forall c :: c in alphabet - rest && (s, c) in tf ==> tf[(s, c)] in reachable || tf[(s, c)] in queue'
      decreases |rest|
    {
      var c :| c in rest;
      if (s, c) in tf && tf[(s, c)] !in reachable {
        var t := tf[(s, c)];
        ExtendPath(tf, alphabet, start, path'[s], s, c);
        if t !in path' {
          path' := path'[t := path'[s] + [c]];
        }
        queue' := queue' + [t];
      }
      rest := rest - {c};
    }
  }

  /** Every transition out of a visited state leads to a visited or queued state. */
  ghost predicate Frontier(tf: map<Key, string>, alphabet: set<string>, reachable: set<string>, queue: seq<string>)
  {
    forall s, c :: s in reachable && c in alphabet && (s, c) in tf ==> tf[(s, c)] in reachable || tf[(s, c)] in queue
  }

  /** Dropping a queued state that was already visited. */
  lemma FrontierSkip(tf: map<Key, string>, alphabet: set<string>, reachable: set<string>, queue: seq<string>)
    requires Frontier(tf, alphabet, reachable, queue) && queue != [] && queue[0] in reachable
    ensures Frontier(tf, alphabet, reachable, queue[1..])
  {
    forall s, c | s in reachable && c in alphabet && (s, c) in tf && tf[(s, c)] !in reachable
      ensures tf[(s, c)] in queue[1..]
    {
      var k :| 0 <= k < |queue| && queue[k] == tf[(s, c)];
      assert queue[1..][k - 1] == queue[k];
    }
  }

  /** Visiting the queued state s once its targets are queued behind. */
  lemma FrontierVisit(tf: map<Key, string>, alphabet: set<string>, reachable: set<string>,
                      queue: seq<string>, queue': seq<string>)
    requires Frontier(tf, alphabet, reachable, queue) && queue != []
    requires |queue'| >= |queue| - 1 && queue'[..|queue| - 1] == queue[1..]
    requires forall c :: c in alphabet && (queue[0], c) in tf ==> tf[(queue[0], c)] in reachable + {queue[0]} || tf[(queue[0], c)] in queue'
    ensures Frontier(tf, alphabet, reachable + {queue[0]}, queue')
  {
    forall s, c | s in reachable && c in alphabet && (s, c) in tf && tf[(s, c)] !in reachable + {queue[0]}
      ensures tf[(s, c)] in queue'
    {
      var k :| 0 <= k < |queue| && queue[k] == tf[(s, c)];
      assert queue'[k - 1] == queue[1..][k - 1] == queue[k];
    }
  }

  /** The invariant of the breadth-first search: visited and queued states
      carry witness words and lie in universe, start is visited or queued, and
      the frontier property holds. */
  ghost predicate Searching(tf: map<Key, string>, alphabet: set<string>, start: string, reachable: set<string>,
                            queue: seq<string>, path: map<string, seq<string>>, universe: set<string>)
  {
    Witnessed(tf, alphabet, start, path) && reachable <= path.Keys && reachable <= universe &&
    (forall k :: 0 <= k < |queue| ==> queue[k] in path && queue[k] in universe) &&
    (start in reachable || start in queue) &&
    Frontier(tf, alphabet, reachable, queue)
  }

  /** One round of the search loop (lines 45-55): the head of the queue is
      polled and, when it is new, visited. */
  method Visit(tf: map<Key, string>, alphabet: set<string>, ghost start: string, reachable: set<string>,
               queue: seq<string>, ghost path: map<string, seq<string>>, ghost universe: set<string>)
    returns (reachable': set<string>, queue': seq<string>, ghost path': map<string, seq<string>>)
    requires queue != [] && tf.Values <= universe
    requires Searching(tf, alphabet, start, reachable, queue, path, universe)
    ensures Searching(tf, alphabet, start, reachable', queue', path', universe)
    ensures reachable' == reachable + {queue[0]}
    ensures |universe - reachable'| < |universe - reachable| || (reachable' == reachable && |queue'| < |queue|)
  {
    var s := queue[0];
    if s in reachable {
      FrontierSkip(tf, alphabet, reachable, queue);
      reachable', queue', path' := reachable, queue[1..], path;
      forall k | 0 <= k < |queue'|
        ensures queue'[k] in path' && queue'[k] in universe
      {
        assert queue'[k] == queue[k + 1];
      }
    } else {
      queue', path' := Expand(tf, alphabet, start, reachable + {s}, queue[1..], path, s);
      FrontierVisit(tf, alphabet, reachable, queue, queue');
      reachable' := reachable + {s};
      forall k | 0 <= k < |queue'|
        ensures queue'[k] in universe
      {
        if k < |queue| - 1 {
          assert queue'[k] == queue[k + 1];
        }
      }
      assert |universe - reachable'| < |universe - reachable|;
    }
  }

  /** The breadth-first search of removeUnreachable (lines 40-56): exactly
      the states some word over the alphabet leads to from start. */
  method Reachable(tf: map<Key, string>, alphabet: set<string>, start: string) returns (reachable: set<string>)
    ensures forall s :: s in reachable <==> Reaches(tf, alphabet, start, s)
  {
    reachable := {};
    var queue := [start];
    ghost var path: map<string, seq<string>> := map[start := []];
    ghost var universe := {start} + tf.Values;
    assert Word(alphabet, []) && Run(tf, start, []) == Some(start);
    while queue != []
      invariant Searching(tf, alphabet, start, reachable, queue, path, universe)
      decreases |universe - reachable|, |queue|
    {
      reachable, queue, path := Visit(tf, alphabet, start, reachable, queue, path, universe);
    }
    ReachableFromClosed(tf, alphabet, start, reachable);
  }

  /** A closed set of states some word leads to holds exactly those. */
  lemma ReachableFromClosed(tf: map<Key, string>, alphabet: set<string>, start: string, R: set<string>)
    requires Closed(tf, alphabet, start, R)
    requires (exists path :: Witnessed(tf, alphabet, start, path) && R <= path.Keys)
    ensures forall s :: s in R <==> Reaches(tf, alphabet, start, s)
  {
    var path :| Witnessed(tf, alphabet, start, path) && R <= path.Keys;
    forall s | Reaches(tf, alphabet, start, s)
      ensures s in R
    {
      var w :| Word(alphabet, w) && Run(tf, start, w) == Some(s);
      ClosedHoldsRuns(tf, alphabet, start, R, w);
    }
    forall s | s in R
      ensures Reaches(tf, alphabet, start, s)
    {
      assert Word(alphabet, path[s]) && Run(tf, start, path[s]) == Some(s);
    }
  }

  /** A run ends at its start or at the target of some transition. */
  lemma {:induction false} RunEnds(tf: map<Key, string>, start: string, w: seq<string>)
    ensures Run(tf, start, w).Some? ==> Run(tf, start, w).value in tf.Values + {start}
    decreases |w|
  {
    if w != [] {
      var n := |w| - 1;
      match Run(tf, start, w[..n])
      case None =>
      case Some(t) =>
        if (t, w[n]) in tf {
          assert tf[(t, w[n])] in tf.Values;
        }
    }
  }

  /** The states reachable from start: what the search of lines 40-56 collects. */
  ghost function ReachedFrom(tf: map<Key, string>, alphabet: set<string>, start: string): set<string>
  {
    set s | s in tf.Values + {start} && Reaches(tf, alphabet, start, s)
  }

  lemma ReachedFromIs(tf: map<Key, string>, alphabet: set<string>, start: string)
    ensures forall s :: s in ReachedFrom(tf, alphabet, start) <==> Reaches(tf, alphabet, start, s)
  {
    forall s | Reaches(tf, alphabet, start, s)
      ensures s in tf.Values + {start}
    {
      var w :| Word(alphabet, w) && Run(tf, start, w) == Some(s);
      RunEnds(tf, start, w);
    }
  }

  /** Transitions between the states of R only: what the pruning of lines 62-66 keeps. */
  function Prune(tf: map<Key, string>, R: set<string>): map<Key, string>
  {
    map k | k in tf && k.0 in R && tf[k] in R :: tf[k]
  }

  /** A run of the full transitions that stays inside a closed set R is a
      run of the pruned ones. */
  lemma {:induction false} PruneKeepsRuns(tf: map<Key, string>, alphabet: set<string>, start: string,
                                          R: set<string>, w: seq<string>)
    requires Closed(tf, alphabet, start, R) && Word(alphabet, w)
    ensures Run(Prune(tf, R), start, w) == Run(tf, start, w)
    decreases |w|
  {
    if w != [] {
      var n := |w| - 1;
      assert Word(alphabet, w[..n]);
      PruneKeepsRuns(tf, alphabet, start, R, w[..n]);
      ClosedHoldsRuns(tf, alphabet, start, R, w[..n]);
      assert w[n] in alphabet;
    }
  }

  // ---------------------------------------------------------------------
  // Completion with a trap state.

  /** Every (state, symbol) pair. */
  function Pairs(states: set<string>, alphabet: set<string>): set<Key>
  {
    set s, c | s in states && c in alphabet :: (s, c)
  }

  /** tf with every key of K it lacks sent to the trap. */
  function Fill(tf: map<Key, string>, K: set<Key>): map<Key, string>
  {
    map k | k in tf.Keys + K :: if k in tf then tf[k] else Trap
  }

  /** Some state lacks a transition on some symbol. */
  predicate HasGap(states: set<string>, alphabet: set<string>, tf: map<Key, string>)
  {
    !(Pairs(states, alphabet) <= tf.Keys)
  }

  /** The transitions after makeTotal (lines 70-92): gaps filled with the
      trap and, when there was a gap, the trap looping to itself on every symbol. */
  function Completed(states: set<string>, alphabet: set<string>, tf: map<Key, string>): map<Key, string>
  {
    var filled := Fill(tf, Pairs(states, alphabet));
    if HasGap(states, alphabet, tf) then filled + TrapLoops(alphabet) else filled
  }

  /** The states after makeTotal. */
  function CompletedStates(states: set<string>, alphabet: set<string>, tf: map<Key, string>): set<string>
  {
    if HasGap(states, alphabet, tf) then states + {Trap} else states
  }

  /** After completion every state has a transition on every symbol; the
      trap appears only for a gap and then loops to itself; transitions out
      of the other states are kept, and nothing changes without a gap. */
  lemma CompletedTotal(states: set<string>, alphabet: set<string>, tf: map<Key, string>)
    ensures var tf' := Completed(states, alphabet, tf);
      (forall s, c :: s in CompletedStates(states, alphabet, tf) && c in alphabet ==> (s, c) in tf') &&
      (HasGap(states, alphabet, tf) ==> forall c :: c in alphabet ==> tf'[(Trap, c)] == Trap) &&
      (forall k :: k in tf && k.0 != Trap ==> k in tf' && tf'[k] == tf[k]) &&
      (!HasGap(states, alphabet, tf) ==> tf' == tf)
  {
    var tf' := Completed(states, alphabet, tf);
    forall s, c | s in CompletedStates(states, alphabet, tf) && c in alphabet
      ensures (s, c) in tf'
    {
      if s in states {
        assert (s, c) in Pairs(states, alphabet);
      }
    }
    if !HasGap(states, alphabet, tf) {
      assert Fill(tf, Pairs(states, alphabet)) == tf;
    }
  }

  /** The self-loops of the trap on the symbols of A. */
  function TrapLoops(A: set<string>): map<Key, string>
  {
    map c | c in A :: (Trap, c) := Trap
  }

  /** m is tf with every transition out of D on a symbol of A that tf lacks
      sent to the trap, stated pointwise. */
  ghost predicate Covered(tf: map<Key, string>, D: set<string>, A: set<string>, m: map<Key, string>)
  {
    (forall k :: k in m <==> k in tf || (k.0 in D && k.1 in A)) &&
    (forall k :: k in m ==> m[k] == if k in tf then tf[k] else Trap)
  }

  /** Some state of D lacks a transition in tf on some symbol of A, stated pointwise. */
  ghost predicate Gapped(tf: map<Key, string>, D: set<string>, A: set<string>)
  {
    exists s, c :: s in D && c in A && (s, c) !in tf
  }

  lemma CoveredIsFill(tf: map<Key, string>, D: set<string>, A: set<string>, m: map<Key, string>)
    requires Covered(tf, D, A, m)
    ensures m == Fill(tf, Pairs(D, A))
    ensures Gapped(tf, D, A) <==> HasGap(D, A, tf)
  {
    assert m.Keys == tf.Keys + Pairs(D, A);
    if HasGap(D, A, tf) {
      var k :| k in Pairs(D, A) && k !in tf;
      assert k.0 in D && k.1 in A && (k.0, k.1) !in tf;
    }
  }

  /** m is m0 with the transitions out of s on the symbols of A that m0 lacks
      sent to the trap. */
  ghost predicate RowFilled(m0: map<Key, string>, s: string, A: set<string>, m: map<Key, string>)
  {
    (forall k :: k in m <==> k in m0 || (k.0 == s && k.1 in A)) &&
    (forall k :: k in m ==> m[k] == if k in m0 then m0[k] else Trap)
  }

  lemma RowStep(tf: map<Key, string>, D: set<string>, A: set<string>, m: map<Key, string>,
                s: string, m': map<Key, string>)
    requires Covered(tf, D, A, m) && RowFilled(m, s, A, m') && s !in D
    ensures Covered(tf, D + {s}, A, m')
    ensures Gapped(tf, D + {s}, A) <==> Gapped(tf, D, A) || exists c :: c in A && (s, c) !in m
  {
    if Gapped(tf, D + {s}, A) {
      var s', c :| s' in D + {s} && c in A && (s', c) !in tf;
      if s' == s {
        assert (s, c) !in m;
      }
    }
    if c :| c in A && (s, c) !in m {
      assert (s, c) !in tf;
    }
  }

  /** The inner loop of makeTotal (lines 75-81): the gaps of state s filled. */
  method FillRow(m0: map<Key, string>, s: string, alphabet: set<string>) returns (m: map<Key, string>, gap: bool)
    ensures RowFilled(m0, s, alphabet, m)
    ensures gap <==> exists c :: c in alphabet && (s, c) !in m0
  {
    m := m0;
    gap := false;
    var rest := alphabet;
    ghost var seen: set<string> := {};
    while rest != {}
      invariant rest + seen == alphabet && rest !! seen
      invariant RowFilled(m0, s, seen, m)
      invariant gap <==> exists c :: c in seen && (s, c) !in m0
      decreases |rest|
    {
      var c :| c in rest;
      if (s, c) !in m {
        m := m[(s, c) := Trap];
        gap := true;
      }
      seen := seen + {c};
      rest := rest - {c};
    }
  }

  lemma LoopsStep(filled: map<Key, string>, A: set<string>, c: string)
    ensures filled + TrapLoops(A + {c}) == (filled + TrapLoops(A))[(Trap, c) := Trap]
  {
  }

  /** The outer loop of makeTotal (lines 74-82): the gaps of every state filled. */
  method FillAll(states: set<string>, alphabet: set<string>, tf: map<Key, string>)
    returns (tf': map<Key, string>, needsTrap: bool)
    ensures Covered(tf, states, alphabet, tf')
    ensures needsTrap == Gapped(tf, states, alphabet)
  {
    tf' := tf;
    needsTrap := false;
    var todo := states;
    ghost var done: set<string> := {};
    while todo != {}
      invariant todo + done == states && todo !! done
      invariant Covered(tf, done, alphabet, tf')
      invariant needsTrap == Gapped(tf, done, alphabet)
      decreases |todo|
    {
      var s :| s in todo;
      var row, gap := FillRow(tf', s, alphabet);
      RowStep(tf, done, alphabet, tf', s, row);
      tf' := row;
      needsTrap := needsTrap || gap;
      todo := todo - {s};
      done := done + {s};
    }
  }

  /** The loops of makeTotal on the states and transitions it updates. */
  method Complete(states: set<string>, alphabet: set<string>, tf: map<Key, string>)
    returns (states': set<string>, tf': map<Key, string>)
    ensures states' == CompletedStates(states, alphabet, tf) && tf' == Completed(states, alphabet, tf)
  {
    var needsTrap;
    tf', needsTrap := FillAll(states, alphabet, tf);
    CoveredIsFill(tf, states, alphabet, tf');
    states' := states;
    if needsTrap {
      states' := states' + {Trap};
      tf' := AddTrapLoops(tf', alphabet);
    }
  }

  /** The trap loop of makeTotal (lines 85-90). */
  method AddTrapLoops(filled: map<Key, string>, alphabet: set<string>) returns (tf': map<Key, string>)
    ensures tf' == filled + TrapLoops(alphabet)
  {
    tf' := filled;
    var rest := alphabet;
    ghost var seen: set<string> := {};
    assert filled + TrapLoops({}) == filled;
    while rest != {}
      invariant rest + seen == alphabet && rest !! seen
      invariant tf' == filled + TrapLoops(seen)
      decreases |rest|
    {
      var c :| c in rest;
      LoopsStep(filled, seen, c);
      tf' := tf'[(Trap, c) := Trap];
      seen := seen + {c};
      rest := rest - {c};
    }
  }

  // ---------------------------------------------------------------------
  // Language equivalence of states.

  /** The word w leads from s to an accepting state. */
  ghost predicate Accepts(tf: map<Key, string>, accept: set<string>, s: string, w: seq<string>)
  {
    Run(tf, s, w).Some? && Run(tf, s, w).value in accept
  }

  /** s and t accept the same words over the alphabet. */
  ghost predicate Equivalent(tf: map<Key, string>, alphabet: set<string>, accept: set<string>, s: string, t: string)
  {
    forall w :: Word(alphabet, w) ==> (Accepts(tf, accept, s, w) <==> Accepts(tf, accept, t, w))
  }

  /** Every state has a transition on every symbol, into a state. */
  ghost predicate TotalOn(states: set<string>, alphabet: set<string>, tf: map<Key, string>)
  {
    forall s, c :: s in states && c in alphabet ==> (s, c) in tf && tf[(s, c)] in states
  }

  /** No state outside B is equivalent to a state inside B. */
  ghost predicate Saturated(B: set<string>, states: set<string>, tf: map<Key, string>,
                            alphabet: set<string>, accept: set<string>)
  {
    forall x, y :: x in B && x in states && y in states && Equivalent(tf, alphabet, accept, x, y) ==> y in B
  }

  ghost predicate AllSaturated(Bs: seq<set<string>>, states: set<string>, tf: map<Key, string>,
                               alphabet: set<string>, accept: set<string>)
  {
    forall i :: 0 <= i < |Bs| ==> Saturated(Bs[i], states, tf, alphabet, accept)
  }

  /** Reading c first, then w, from s. */
  lemma {:induction false} RunCons(tf: map<Key, string>, s: string, c: string, w: seq<string>)
    ensures Run(tf, s, [c] + w) == if (s, c) in tf then Run(tf, tf[(s, c)], w) else None
    decreases |w|
  {
    if w == [] {
      assert ([c] + w)[..0] == [];
    } else {
      var n := |w| - 1;
      assert ([c] + w)[..|w|] == [c] + w[..n];
      RunCons(tf, s, c, w[..n]);
    }
  }

  /** Equivalent states move to equivalent states on every symbol. */
  lemma EquivalentStep(tf: map<Key, string>, alphabet: set<string>, accept: set<string>, s: string, t: string, c: string)
    requires Equivalent(tf, alphabet, accept, s, t) && c in alphabet && (s, c) in tf && (t, c) in tf
    ensures Equivalent(tf, alphabet, accept, tf[(s, c)], tf[(t, c)])
  {
    forall w | Word(alphabet, w)
      ensures Accepts(tf, accept, tf[(s, c)], w) <==> Accepts(tf, accept, tf[(t, c)], w)
    {
      assert Word(alphabet, [c] + w);
      RunCons(tf, s, c, w);
      RunCons(tf, t, c, w);
    }
  }

  /** The states whose transition on c enters a saturated set form a saturated set. */
  lemma PreimageSaturated(states: set<string>, alphabet: set<string>, tf: map<Key, string>, accept: set<string>,
                          c: string, A: set<string>, X: set<string>)
    requires TotalOn(states, alphabet, tf) && c in alphabet && Saturated(A, states, tf, alphabet, accept)
    requires forall s :: s in X <==> s in states && (s, c) in tf && tf[(s, c)] in A
    ensures Saturated(X, states, tf, alphabet, accept)
  {
    forall x, y | x in X && x in states && y in states && Equivalent(tf, alphabet, accept, x, y)
      ensures y in X
    {
      EquivalentStep(tf, alphabet, accept, x, y, c);
    }
  }

  /** Splitting saturated blocks by a saturated splitter leaves saturated blocks. */
  lemma RefineSaturated(P: seq<set<string>>, X: set<string>, states: set<string>, tf: map<Key, string>,
                        alphabet: set<string>, accept: set<string>)
    requires AllSaturated(P, states, tf, alphabet, accept) && Saturated(X, states, tf, alphabet, accept)
    ensures AllSaturated(Refine(P, X), states, tf, alphabet, accept)
  {
    var R := Refine(P, X);
    forall k | 0 <= k < |R|
      ensures Saturated(R[k], states, tf, alphabet, accept)
    {
      RefinePieces(P, X, k);
      var i :| 0 <= i < |P| && (R[k] == P[i] || R[k] == P[i] * X || R[k] == P[i] - X);
      assert Saturated(P[i], states, tf, alphabet, accept);
      SplitSaturated(P[i], X, states, tf, alphabet, accept);
    }
  }

  lemma SplitSaturated(Y: set<string>, X: set<string>, states: set<string>, tf: map<Key, string>,
                       alphabet: set<string>, accept: set<string>)
    requires Saturated(Y, states, tf, alphabet, accept) && Saturated(X, states, tf, alphabet, accept)
    ensures Saturated(Y * X, states, tf, alphabet, accept) && Saturated(Y - X, states, tf, alphabet, accept)
  {
    forall x, y | x in Y - X && x in states && y in states && Equivalent(tf, alphabet, accept, x, y)
      ensures y !in X
    {
      if y in X {
        assert Equivalent(tf, alphabet, accept, y, x);
      }
    }
  }

  // ---------------------------------------------------------------------
  // Hopcroft's partition refinement.

  /** The first partition of minimize (lines 101-106): the accepting states,
      then the others, each only when non-empty. */
  function InitialBlocks(states: set<string>, accept: set<string>): (P: seq<set<string>>)
    ensures Partition(P, states + accept) && Respects(P, accept)
    ensures forall i :: 0 <= i < |P| ==> P[i] == accept || P[i] == states - accept
  {
    var nonAccept := states - accept;
    if accept != {} && nonAccept != {} then
      UnionTwo(accept, nonAccept);
      [accept, nonAccept]
    else if accept != {} then
      UnionOne(accept);
      [accept]
    else if nonAccept != {} then
      UnionOne(nonAccept);
      [nonAccept]
    else []
  }

  /** The first blocks are saturated: equivalent states agree on the empty word. */
  lemma InitialSaturated(states: set<string>, alphabet: set<string>, tf: map<Key, string>, accept: set<string>)
    ensures AllSaturated(InitialBlocks(states, accept), states, tf, alphabet, accept)
  {
    forall x, y | x in states && y in states && Equivalent(tf, alphabet, accept, x, y)
      ensures x in accept <==> y in accept
    {
      assert Word(alphabet, []);
    }
  }

  /** The splitter of lines 113-121: the states whose transition on c enters A. */
  method Preimage(states: set<string>, tf: map<Key, string>, c: string, A: set<string>) returns (X: set<string>)
    ensures forall s :: s in X <==> s in states && (s, c) in tf && tf[(s, c)] in A
  {
    X := {};
    var rest := states;
    ghost var seen: set<string> := {};
    while rest != {}
      invariant rest + seen == states && rest !! seen
      invariant forall s :: s in X <==> s in seen && (s, c) in tf && tf[(s, c)] in A
      decreases |rest|
    {
      var s :| s in rest;
      if (s, c) in tf && tf[(s, c)] in A {
        X := X + {s};
      }
      seen := seen + {s};
      rest := rest - {s};
    }
  }

  /** The worklist update of lines 133-140 once block Y splits into inter and diff:
      both halves replace Y when Y is waiting, else the smaller half is added. */
  function Requeue(W: seq<set<string>>, Y: set<string>, inter: set<string>, diff: set<string>): seq<set<string>>
  {
    if Y in W then RemoveFirst(W, Y) + [inter, diff]
    else W + [if |inter| <= |diff| then inter else diff]
  }

  /** The worklist after the blocks of P are split by X in order (lines 123-147). */
  function WorkAfter(P: seq<set<string>>, W: seq<set<string>>, X: set<string>): seq<set<string>>
  {
    if P == [] then W
    else
      var W0 := WorkAfter(P[..|P| - 1], W, X);
      var Y := P[|P| - 1];
      if Y * X != {} && Y - X != {} then Requeue(W0, Y, Y * X, Y - X) else W0
  }

  /** Every entry of the new worklist was waiting before or is a block of the
      refined partition. */
  lemma {:induction false} WorkAfterFrom(P: seq<set<string>>, W: seq<set<string>>, X: set<string>, k: int)
    requires 0 <= k < |WorkAfter(P, W, X)|
    ensures WorkAfter(P, W, X)[k] in W || WorkAfter(P, W, X)[k] in Refine(P, X)
    decreases |P|
  {
    if P != [] {
      var n := |P| - 1;
      var W0 := WorkAfter(P[..n], W, X);
      var R0 := Refine(P[..n], X);
      var Y := P[n];
      assert Refine(P, X) == R0 + Split(Y, X);
      var B := WorkAfter(P, W, X)[k];
      if Y * X != {} && Y - X != {} {
        if Y in W0 {
          var r := RemoveFirst(W0, Y);
          if k < |r| {
            var m := RemoveFirstAt(W0, Y);
            var k0 := if k < m then k else k + 1;
            assert B == W0[k0];
            WorkAfterFrom(P[..n], W, X, k0);
          } else {
            assert B in Split(Y, X);
          }
        } else if k < |W0| {
          WorkAfterFrom(P[..n], W, X, k);
        } else {
          assert B in Split(Y, X);
        }
      } else {
        WorkAfterFrom(P[..n], W, X, k);
      }
    }
  }

  /** A splitter that splits no block leaves the worklist alone. */
  lemma {:induction false} WorkAfterSame(P: seq<set<string>>, W: seq<set<string>>, X: set<string>)
    requires |Refine(P, X)| == |P|
    ensures WorkAfter(P, W, X) == W
    decreases |P|
  {
    if P != [] {
      var n := |P| - 1;
      RefineGrows(P[..n], X);
      WorkAfterSame(P[..n], W, X);
    }
  }

  /** The pass over the blocks of P for one splitter X (lines 123-147). */
  method SplitAll(P: seq<set<string>>, W: seq<set<string>>, X: set<string>) returns (P': seq<set<string>>, W': seq<set<string>>)
    ensures P' == Refine(P, X) && W' == WorkAfter(P, W, X)
  {
    P', W' := [], W;
    var k := 0;
    while k < |P|
      invariant 0 <= k <= |P|
      invariant P' == Refine(P[..k], X) && W' == WorkAfter(P[..k], W, X)
    {
      var Y := P[k];
      var inter := Y * X;
      var diff := Y - X;
      assert P[..k + 1][..k] == P[..k];
      if inter != {} && diff != {} {
        P' := P' + [inter, diff];
        if Y in W' {
          W' := RemoveFirst(W', Y) + [inter, diff];
        } else {
          W' := W' + [if |inter| <= |diff| then inter else diff];
        }
      } else {
        P' := P' + [Y];
      }
      k := k + 1;
    }
    assert P[..|P|] == P;
  }

  /** Splitting by one preimage keeps the invariants of the refinement. */
  lemma SplitKeeps(states: set<string>, alphabet: set<string>, tf: map<Key, string>, accept: set<string>, U: set<string>,
                   P: seq<set<string>>, W: seq<set<string>>, A: set<string>, c: string, X: set<string>)
    requires Partition(P, U) && Respects(P, accept) && c in alphabet
    requires forall s :: s in X <==> s in states && (s, c) in tf && tf[(s, c)] in A
    ensures Partition(Refine(P, X), U) && Respects(Refine(P, X), accept)
    ensures |Refine(P, X)| >= |P| && (|Refine(P, X)| == |P| ==> WorkAfter(P, W, X) == W)
    ensures TotalOn(states, alphabet, tf) && Saturated(A, states, tf, alphabet, accept) &&
            AllSaturated(P, states, tf, alphabet, accept) && AllSaturated(W, states, tf, alphabet, accept) ==>
            AllSaturated(Refine(P, X), states, tf, alphabet, accept) && AllSaturated(WorkAfter(P, W, X), states, tf, alphabet, accept)
  {
    RefinePartition(P, X, U);
    RefineRespects(P, X, accept);
    RefineGrows(P, X);
    if |Refine(P, X)| == |P| {
      WorkAfterSame(P, W, X);
    }
    if TotalOn(states, alphabet, tf) && Saturated(A, states, tf, alphabet, accept) &&
       AllSaturated(P, states, tf, alphabet, accept) && AllSaturated(W, states, tf, alphabet, accept) {
      PreimageSaturated(states, alphabet, tf, accept, c, A, X);
      RefineSaturated(P, X, states, tf, alphabet, accept);
      var W' := WorkAfter(P, W, X);
      forall k | 0 <= k < |W'|
        ensures Saturated(W'[k], states, tf, alphabet, accept)
      {
        WorkAfterFrom(P, W, X, k);
      }
    }
  }

  /** One poll of the worklist (lines 110-148): the block A at its head
      splits the blocks by its preimage on each symbol in turn. */
  method RefineRound(states: set<string>, alphabet: set<string>, tf: map<Key, string>, ghost accept: set<string>,
                     ghost U: set<string>, P: seq<set<string>>, W: seq<set<string>>)
    returns (P': seq<set<string>>, W': seq<set<string>>)
    requires W != [] && Partition(P, U) && Respects(P, accept)
    ensures Partition(P', U) && Respects(P', accept)
    ensures |P'| >= |P| && (|P'| == |P| ==> W' == W[1..])
    ensures TotalOn(states, alphabet, tf) && AllSaturated(P, states, tf, alphabet, accept) &&
            AllSaturated(W, states, tf, alphabet, accept) ==>
            AllSaturated(P', states, tf, alphabet, accept) && AllSaturated(W', states, tf, alphabet, accept)
  {
    var A := W[0];
    P', W' := P, W[1..];
    ghost var good := TotalOn(states, alphabet, tf) && AllSaturated(P, states, tf, alphabet, accept) &&
                      AllSaturated(W, states, tf, alphabet, accept);
    var rest := alphabet;
    while rest != {}
      invariant rest <= alphabet
      invariant Partition(P', U) && Respects(P', accept)
      invariant |P'| >= |P| && (|P'| == |P| ==> W' == W[1..])
      invariant good ==> Saturated(A, states, tf, alphabet, accept) &&
                         AllSaturated(P', states, tf, alphabet, accept) && AllSaturated(W', states, tf, alphabet, accept)
      decreases |rest|
    {
      var c :| c in rest;
      var X := Preimage(states, tf, c, A);
      SplitKeeps(states, alphabet, tf, accept, U, P', W', A, c, X);
      P', W' := SplitAll(P', W', X);
      rest := rest - {c};
    }
  }

  /** The refinement loop of lines 101-149: the final blocks partition the
      states (and the accepting labels), never mix accepting and other
      states, and, on a total automaton, never separate equivalent states. */
  method Refinement(states: set<string>, alphabet: set<string>, tf: map<Key, string>, accept: set<string>)
    returns (P: seq<set<string>>)
    ensures Partition(P, states + accept) && Respects(P, accept)
    ensures TotalOn(states, alphabet, tf) ==> AllSaturated(P, states, tf, alphabet, accept)
  {
    P := InitialBlocks(states, accept);
    var W := P;
    ghost var U := states + accept;
    InitialSaturated(states, alphabet, tf, accept);
    while W != []
      invariant Partition(P, U) && Respects(P, accept)
      invariant TotalOn(states, alphabet, tf) ==>
        AllSaturated(P, states, tf, alphabet, accept) && AllSaturated(W, states, tf, alphabet, accept)
      decreases |U| - |P|, |W|
    {
      BlockCount(P, U);
      P, W := RefineRound(states, alphabet, tf, accept, U, P, W);
      BlockCount(P, U);
    }
  }

  // ---------------------------------------------------------------------
  // Naming the blocks.

  /** m is a least element of b under String.compareTo. */
  predicate IsLeast(m: string, b: set<string>)
  {
    m in b && forall x :: x in b ==> !Less(x, m)
  }

  lemma {:induction false} LeastExists(b: set<string>)
    requires b != {}
    ensures exists m :: IsLeast(m, b)
    decreases |b|
  {
    var x :| x in b;
    if b != {x} {
      LeastExists(b - {x});
      var m :| IsLeast(m, b - {x});
      LessTotal(x, m);
      if Less(x, m) {
        forall y | y in b
          ensures !Less(y, x)
        {
          LessIrreflexive(x);
          if y != x && Less(y, x) {
            LessTransitive(y, x, m);
          }
        }
        assert IsLeast(x, b);
      } else {
        assert IsLeast(m, b);
      }
    } else {
      LessIrreflexive(x);
      assert IsLeast(x, b);
    }
  }

  lemma LeastUnique(b: set<string>)
    ensures forall m, m' :: IsLeast(m, b) && IsLeast(m', b) ==> m == m'
  {
    forall m, m' | IsLeast(m, b) && IsLeast(m', b)
      ensures m == m'
    {
      LessTotal(m, m');
    }
  }

  /** Collections.min on a non-empty block: its least state. */
  function Least(b: set<string>): (m: string)
    requires b != {}
    ensures m in b && forall x :: x in b ==> !Less(x, m)
  {
    LeastExists(b);
    LeastUnique(b);
    var m :| IsLeast(m, b);
    m
  }

  /** The least states of a sequence of non-empty blocks. */
  function Leasts(P: seq<set<string>>): (r: seq<string>)
    requires forall i :: 0 <= i < |P| ==> P[i] != {}
    ensures |r| == |P| && forall i :: 0 <= i < |P| ==> r[i] == Least(P[i])
  {
    if P == [] then [] else [Least(P[0])] + Leasts(P[1..])
  }

  /** Inserts block b before the first block whose least state is not below b's. */
  function InsertBlock(b: set<string>, P: seq<set<string>>): (r: seq<set<string>>)
    requires b != {} && forall i :: 0 <= i < |P| ==> P[i] != {}
    ensures multiset(r) == multiset(P) + multiset{b}
    ensures forall i :: 0 <= i < |r| ==> r[i] != {}
  {
    if P == [] then [b]
    else if Less(Least(P[0]), Least(b)) then
      assert P == [P[0]] + P[1..];
      [P[0]] + InsertBlock(b, P[1..])
    else [b] + P
  }

  /** InsertBlock puts b's least state where Insert puts it. */
  lemma {:induction false} InsertBlockLeasts(b: set<string>, P: seq<set<string>>)
    requires b != {} && forall i :: 0 <= i < |P| ==> P[i] != {}
    ensures Leasts(InsertBlock(b, P)) == Insert(Least(b), Leasts(P))
  {
    if P != [] {
      var L := Leasts(P);
      assert L[0] == Least(P[0]) && L[1..] == Leasts(P[1..]);
      if Less(Least(P[0]), Least(b)) {
        var t := InsertBlock(b, P[1..]);
        InsertBlockLeasts(b, P[1..]);
        assert Leasts([P[0]] + t) == [Least(P[0])] + Leasts(t) by { assert ([P[0]] + t)[1..] == t; }
      } else {
        assert Leasts([b] + P) == [Least(b)] + L by { assert ([b] + P)[1..] == P; }
      }
    }
  }

  /** The list sort of line 153, ordering blocks by their least states. */
  function SortBlocks(P: seq<set<string>>): (r: seq<set<string>>)
    requires forall i :: 0 <= i < |P| ==> P[i] != {}
    ensures multiset(r) == multiset(P)
    ensures forall i :: 0 <= i < |r| ==> r[i] != {}
  {
    if P == [] then []
    else
      assert P == [P[0]] + P[1..];
      InsertBlock(P[0], SortBlocks(P[1..]))
  }

  /** SortBlocks orders the blocks as Sort orders their least states. */
  lemma {:induction false} SortBlocksLeasts(P: seq<set<string>>)
    requires forall i :: 0 <= i < |P| ==> P[i] != {}
    ensures Leasts(SortBlocks(P)) == Sort(Leasts(P))
  {
    if P != [] {
      var L := Leasts(P);
      assert L[0] == Least(P[0]) && L[1..] == Leasts(P[1..]);
      SortBlocksLeasts(P[1..]);
      InsertBlockLeasts(P[0], SortBlocks(P[1..]));
    }
  }

  /** The blocks of a partition in sorted order: a partition of the same set,
      with strictly increasing least states. */
  lemma SortedPartition(P: seq<set<string>>, U: set<string>)
    requires Partition(P, U)
    ensures Partition(SortBlocks(P), U) && Increasing(Leasts(SortBlocks(P)))
  {
    PermutedPartition(P, SortBlocks(P), U);
    SortBlocksLeasts(P);
    var L := Leasts(P);
    forall i, j | 0 <= i < j < |L|
      ensures L[i] != L[j]
    {
      assert P[i] !! P[j];
    }
    SortIncreasing(L);
  }

  /** The character of a decimal digit. */
  function Digit(d: int): char
    requires 0 <= d < 10
  {
    ('0' as int + d) as char
  }

  /** Integer.toString on a non-negative int. */
  function Decimal(n: nat): (r: string)
    ensures |r| >= 1 && forall k :: 0 <= k < |r| ==> '0' <= r[k] <= '9'
  {
    if n < 10 then [Digit(n)] else Decimal(n / 10) + [Digit(n % 10)]
  }

  /** The number a string of decimal digits spells. */
  ghost function Value(r: string): int
  {
    if r == [] then 0 else 10 * Value(r[..|r| - 1]) + (r[|r| - 1] as int - '0' as int)
  }

  /** Reading a label back gives the number it was made from. */
  lemma {:induction false} DecimalValue(n: nat)
    ensures Value(Decimal(n)) == n
  {
    if n < 10 {
      assert [Digit(n)][..0] == [];
    } else {
      DecimalValue(n / 10);
      var r := Decimal(n / 10) + [Digit(n % 10)];
      assert r[..|r| - 1] == Decimal(n / 10);
    }
  }

  /** Distinct numbers get distinct labels. */
  lemma DecimalInjective(a: nat, b: nat)
    ensures Decimal(a) == Decimal(b) <==> a == b
  {
    DecimalValue(a);
    DecimalValue(b);
  }

  /** The block labels of lines 154-158: the i-th sorted block is named
      Decimal(i), a later equal block overwriting an earlier one. */
  method IndexBlocks(sorted: seq<set<string>>) returns (blockIndex: map<set<string>, string>)
    ensures forall B :: B in blockIndex <==> B in sorted
    ensures forall i :: 0 <= i < |sorted| && (forall j :: i < j < |sorted| ==> sorted[j] != sorted[i]) ==>
      blockIndex[sorted[i]] == Decimal(i)
  {
    blockIndex := map[];
    var n := 0;
    while n < |sorted|
      invariant IndexedUpTo(sorted, n, blockIndex)
    {
      IndexStep(sorted, n, blockIndex);
      blockIndex := blockIndex[sorted[n] := Decimal(n)];
      n := n + 1;
    }
    assert sorted[..n] == sorted;
    forall i | 0 <= i < |sorted| && (forall j :: i < j < |sorted| ==> sorted[j] != sorted[i])
      ensures blockIndex[sorted[i]] == Decimal(i)
    {
      assert LastAt(sorted, i, n);
    }
  }

  /** No later block of s[..n] repeats s[i]. */
  ghost predicate LastAt(s: seq<set<string>>, i: int, n: int)
    requires 0 <= i < n <= |s|
  {
    forall j :: i < j < n ==> s[j] != s[i]
  }

  /** The state of IndexBlocks after n blocks: every block seen is named
      after its last position so far. */
  ghost predicate IndexedUpTo(s: seq<set<string>>, n: int, m: map<set<string>, string>)
  {
    0 <= n <= |s| &&
    (forall B :: B in m <==> B in s[..n]) &&
    (forall i :: 0 <= i < n && LastAt(s, i, n) ==> s[i] in m && m[s[i]] == Decimal(i))
  }

  lemma IndexStep(s: seq<set<string>>, n: int, m: map<set<string>, string>)
    requires IndexedUpTo(s, n, m) && n < |s|
    ensures IndexedUpTo(s, n + 1, m[s[n] := Decimal(n)])
  {
    assert s[..n + 1] == s[..n] + [s[n]];
    var m' := m[s[n] := Decimal(n)];
    forall i | 0 <= i < n + 1 && LastAt(s, i, n + 1)
      ensures s[i] in m' && m'[s[i]] == Decimal(i)
    {
      if i < n {
        assert s[n] != s[i];
        assert LastAt(s, i, n);
      }
    }
  }

  /** The inner loop of lines 163-164: every state of block gets label idx. */
  method LabelBlock(rep: map<string, string>, block: set<string>, idx: string) returns (rep': map<string, string>)
    ensures forall s :: s in rep' <==> s in rep || s in block
    ensures forall s :: s in rep' ==> rep'[s] == if s in block then idx else rep[s]
  {
    rep' := rep;
    var rest := block;
    ghost var seen: set<string> := {};
    while rest != {}
      invariant rest + seen == block && rest !! seen
      invariant forall s :: s in rep' <==> s in rep || s in seen
      invariant forall s :: s in rep' ==> rep'[s] == if s in seen then idx else rep[s]
      decreases |rest|
    {
      var s :| s in rest;
      rep' := rep'[s := idx];
      seen := seen + {s};
      rest := rest - {s};
    }
  }

  /** The map rep of lines 160-165: each state to the label of its block, a
      later block overwriting an earlier one. */
  method RepMap(sorted: seq<set<string>>, blockIndex: map<set<string>, string>) returns (rep: map<string, string>)
    requires forall i :: 0 <= i < |sorted| ==> sorted[i] in blockIndex
    ensures forall s :: s in rep <==> s in Union(sorted)
    ensures forall i, s :: 0 <= i < |sorted| && s in sorted[i] ==> s in rep
    ensures forall i, s :: 0 <= i < |sorted| && s in sorted[i] && (forall j :: i < j < |sorted| ==> s !in sorted[j]) ==>
      rep[s] == blockIndex[sorted[i]]
  {
    rep := map[];
    var n := 0;
    while n < |sorted|
      invariant 0 <= n <= |sorted|
      invariant forall s :: s in rep <==> s in Union(sorted[..n])
      invariant forall i, s :: 0 <= i < n && s in sorted[i] ==> s in rep
      invariant forall i, s :: 0 <= i < n && s in sorted[i] && (forall j :: i < j < n ==> s !in sorted[j]) ==>
        rep[s] == blockIndex[sorted[i]]
    {
      assert sorted[..n + 1][..n] == sorted[..n];
      rep := LabelBlock(rep, sorted[n], blockIndex[sorted[n]]);
      n := n + 1;
    }
    assert sorted[..n] == sorted;
  }

  /** The accepting labels of lines 167-168. */
  method MapAccept(accept: set<string>, rep: map<string, string>) returns (newAccept: set<string>)
    requires accept <= rep.Keys
    ensures forall x :: x in newAccept <==> exists s :: s in accept && rep[s] == x
  {
    newAccept := {};
    var rest := accept;
    ghost var seen: set<string> := {};
    while rest != {}
      invariant rest + seen == accept && rest !! seen
      invariant forall x :: x in newAccept <==> exists s :: s in seen && rep[s] == x
      decreases |rest|
    {
      var s :| s in rest;
      newAccept := newAccept + {rep[s]};
      seen := seen + {s};
      rest := rest - {s};
    }
  }

  /** m is m0 with a transition from label from on each symbol c of A for
      which the representative any has a transition into a labelled state:
      the label of that state. */
  ghost predicate RowAdded(m0: map<Key, string>, any: string, from: string, A: set<string>,
                           tf: map<Key, string>, rep: map<string, string>, m: map<Key, string>)
  {
    (forall k :: k in m <==> k in m0 || (k.0 == from && k.1 in A && (any, k.1) in tf && tf[(any, k.1)] in rep)) &&
    forall k :: k in m ==>
      m[k] == if k.0 == from && k.1 in A && (any, k.1) in tf && tf[(any, k.1)] in rep then rep[tf[(any, k.1)]] else m0[k]
  }

  lemma RowAddedStep(m0: map<Key, string>, any: string, from: string, A: set<string>,
                     tf: map<Key, string>, rep: map<string, string>, m: map<Key, string>, c: string)
    requires RowAdded(m0, any, from, A, tf, rep, m)
    ensures RowAdded(m0, any, from, A + {c}, tf, rep,
                     if (any, c) in tf && tf[(any, c)] in rep then m[(from, c) := rep[tf[(any, c)]]] else m)
  {
  }

  /** The inner loop of lines 176-181 for the representative any labelled
      from; ok turns false where rep.get would give null. */
  method QuotientRow(newTf: map<Key, string>, any: string, from: string, alphabet: set<string>,
                     tf: map<Key, string>, rep: map<string, string>)
    returns (newTf': map<Key, string>, ok: bool)
    ensures ok <==> forall c :: c in alphabet && (any, c) in tf ==> tf[(any, c)] in rep
    ensures RowAdded(newTf, any, from, alphabet, tf, rep, newTf')
  {
    newTf', ok := newTf, true;
    var rest := alphabet;
    ghost var seen: set<string> := {};
    while rest != {}
      invariant rest + seen == alphabet && rest !! seen
      invariant ok <==> forall c :: c in seen && (any, c) in tf ==> tf[(any, c)] in rep
      invariant RowAdded(newTf, any, from, seen, tf, rep, newTf')
      decreases |rest|
    {
      var c :| c in rest;
      RowAddedStep(newTf, any, from, seen, tf, rep, newTf', c);
      if (any, c) in tf {
        var toState := tf[(any, c)];
        if toState in rep {
          newTf' := newTf'[(from, c) := rep[toState]];
        } else {
          ok := false;
        }
      }
      seen := seen + {c};
      rest := rest - {c};
    }
  }

  /** Every block is non-empty and its least state is labelled. */
  ghost predicate Representable(sorted: seq<set<string>>, rep: map<string, string>)
  {
    forall i :: 0 <= i < |sorted| ==> sorted[i] != {} && Least(sorted[i]) in rep
  }

  /** The representatives of the first n blocks have distinct labels. */
  ghost predicate DistinctLabels(sorted: seq<set<string>>, rep: map<string, string>, n: int)
    requires Representable(sorted, rep) && n <= |sorted|
  {
    forall i, j :: 0 <= i < j < n ==> rep[Least(sorted[i])] != rep[Least(sorted[j])]
  }

  /** m holds, for the first n blocks, a transition from the label of the
      block's least state on each symbol where that state has a transition
      into a labelled state; with distinct labels, to the label of its target. */
  ghost predicate QuotientSoFar(sorted: seq<set<string>>, alphabet: set<string>, tf: map<Key, string>,
                                rep: map<string, string>, n: int, m: map<Key, string>)
    requires Representable(sorted, rep) && 0 <= n <= |sorted|
  {
    (forall k :: k in m <==> exists i :: 0 <= i < n && k.0 == rep[Least(sorted[i])] && k.1 in alphabet &&
                                       (Least(sorted[i]), k.1) in tf && tf[(Least(sorted[i]), k.1)] in rep) &&
    (DistinctLabels(sorted, rep, n) ==>
       forall i, c :: 0 <= i < n && c in alphabet && (Least(sorted[i]), c) in tf && tf[(Least(sorted[i]), c)] in rep ==>
         m[(rep[Least(sorted[i])], c)] == rep[tf[(Least(sorted[i]), c)]])
  }

  /** Every transition of a block's least state enters a labelled state. */
  ghost predicate TargetsIn(sorted: seq<set<string>>, alphabet: set<string>, tf: map<Key, string>, R: set<string>, n: int)
    requires forall i :: 0 <= i < |sorted| ==> sorted[i] != {}
    requires n <= |sorted|
  {
    forall i, c :: 0 <= i < n && c in alphabet && (Least(sorted[i]), c) in tf ==> tf[(Least(sorted[i]), c)] in R
  }

  lemma TargetsStep(sorted: seq<set<string>>, alphabet: set<string>, tf: map<Key, string>, R: set<string>, n: int)
    requires forall i :: 0 <= i < |sorted| ==> sorted[i] != {}
    requires 0 <= n < |sorted|
    ensures TargetsIn(sorted, alphabet, tf, R, n + 1) <==>
      TargetsIn(sorted, alphabet, tf, R, n) &&
      forall c :: c in alphabet && (Least(sorted[n]), c) in tf ==> tf[(Least(sorted[n]), c)] in R
  {
  }

  lemma QuotientStep(sorted: seq<set<string>>, alphabet: set<string>, tf: map<Key, string>,
                     rep: map<string, string>, n: int, m: map<Key, string>, m': map<Key, string>)
    requires Representable(sorted, rep) && 0 <= n < |sorted|
    requires QuotientSoFar(sorted, alphabet, tf, rep, n, m)
    requires RowAdded(m, Least(sorted[n]), rep[Least(sorted[n])], alphabet, tf, rep, m')
    ensures QuotientSoFar(sorted, alphabet, tf, rep, n + 1, m')
  {
    var any, from := Least(sorted[n]), rep[Least(sorted[n])];
    if DistinctLabels(sorted, rep, n + 1) {
      assert DistinctLabels(sorted, rep, n);
      forall i, c | 0 <= i < n + 1 && c in alphabet && (Least(sorted[i]), c) in tf && tf[(Least(sorted[i]), c)] in rep
        ensures m'[(rep[Least(sorted[i])], c)] == rep[tf[(Least(sorted[i]), c)]]
      {
        if i < n {
          assert rep[Least(sorted[i])] != from;
        }
      }
    }
  }

  /** The outer loop of lines 172-183, over the sorted blocks: ok turns false
      where rep.get would give null. */
  method QuotientTf(sorted: seq<set<string>>, alphabet: set<string>, tf: map<Key, string>, rep: map<string, string>)
    returns (newTf: map<Key, string>, ok: bool)
    requires Representable(sorted, rep)
    ensures ok <==> TargetsIn(sorted, alphabet, tf, rep.Keys, |sorted|)
    ensures QuotientSoFar(sorted, alphabet, tf, rep, |sorted|, newTf)
  {
    newTf, ok := map[], true;
    var n := 0;
    while n < |sorted|
      invariant 0 <= n <= |sorted|
      invariant ok <==> TargetsIn(sorted, alphabet, tf, rep.Keys, n)
      invariant QuotientSoFar(sorted, alphabet, tf, rep, n, newTf)
    {
      var any := Least(sorted[n]);
      var from := rep[any];
      var row, rowOk := QuotientRow(newTf, any, from, alphabet, tf, rep);
      QuotientStep(sorted, alphabet, tf, rep, n, newTf, row);
      TargetsStep(sorted, alphabet, tf, rep.Keys, n);
      newTf := row;
      ok := ok && rowOk;
      n := n + 1;
    }
  }

  /** Reordering the blocks keeps what holds of each block. */
  lemma SortedKeeps(P: seq<set<string>>, states: set<string>, tf: map<Key, string>, alphabet: set<string>, accept: set<string>)
    requires forall i :: 0 <= i < |P| ==> P[i] != {}
    ensures Respects(P, accept) ==> Respects(SortBlocks(P), accept)
    ensures AllSaturated(P, states, tf, alphabet, accept) ==> AllSaturated(SortBlocks(P), states, tf, alphabet, accept)
  {
    var Q := SortBlocks(P);
    forall i | 0 <= i < |Q|
      ensures exists a :: 0 <= a < |P| && P[a] == Q[i]
    {
      assert Q[i] in multiset(P);
    }
  }

  /** The labels of a partition's blocks: block i is Decimal(i), every state
      of U carries the label of its block. */
  lemma LabelsOf(sorted: seq<set<string>>, U: set<string>, blockIndex: map<set<string>, string>, rep: map<string, string>)
    requires Partition(sorted, U)
    requires forall B :: B in blockIndex <==> B in sorted
    requires forall i :: 0 <= i < |sorted| && (forall j :: i < j < |sorted| ==> sorted[j] != sorted[i]) ==>
      blockIndex[sorted[i]] == Decimal(i)
    requires forall s :: s in rep <==> s in Union(sorted)
    requires forall i, s :: 0 <= i < |sorted| && s in sorted[i] ==> s in rep
    requires forall i, s :: 0 <= i < |sorted| && s in sorted[i] && (forall j :: i < j < |sorted| ==> s !in sorted[j]) ==>
      rep[s] == blockIndex[sorted[i]]
    ensures forall i :: 0 <= i < |sorted| ==> blockIndex[sorted[i]] == Decimal(i)
    ensures forall s :: s in rep <==> s in U
    ensures forall i, s :: 0 <= i < |sorted| && s in sorted[i] ==> s in rep && rep[s] == Decimal(i)
  {
    forall i | 0 <= i < |sorted|
      ensures blockIndex[sorted[i]] == Decimal(i)
    {
      forall j | i < j < |sorted|
        ensures sorted[j] != sorted[i]
      {
        assert sorted[i] !! sorted[j];
      }
    }
    forall i, s | 0 <= i < |sorted| && s in sorted[i]
      ensures rep[s] == Decimal(i)
    {
      forall j | i < j < |sorted|
        ensures s !in sorted[j]
      {
        assert sorted[i] !! sorted[j];
      }
    }
  }

  /** x is the name of one of the first n blocks. */
  ghost predicate Named(x: string, n: int)
  {
    exists i :: 0 <= i < n && x == Decimal(i)
  }

  /** The values of blockIndex are the names Decimal(i) of the blocks. */
  lemma BlockNames(sorted: seq<set<string>>, blockIndex: map<set<string>, string>)
    requires forall B :: B in blockIndex <==> B in sorted
    requires forall i :: 0 <= i < |sorted| ==> blockIndex[sorted[i]] == Decimal(i)
    ensures forall x :: x in blockIndex.Values <==> Named(x, |sorted|)
  {
    forall x
      ensures x in blockIndex.Values <==> Named(x, |sorted|)
    {
      if x in blockIndex.Values {
        var B :| B in blockIndex && blockIndex[B] == x;
        var i :| 0 <= i < |sorted| && sorted[i] == B;
        assert x == Decimal(i);
      }
      if Named(x, |sorted|) {
        var i :| 0 <= i < |sorted| && x == Decimal(i);
        assert sorted[i] in blockIndex && blockIndex[sorted[i]] == x;
      }
    }
  }

  /** The automaton on qs, qtf, qstart and qaccept is the quotient by the
      blocks: block i is the state Decimal(i), it starts at the block of
      start, accepts at the blocks meeting accept, and moves on each symbol
      as the least state of its block does, to the block of the target. */
  ghost predicate IsQuotient(blocks: seq<set<string>>, alphabet: set<string>, tf: map<Key, string>,
                             start: string, accept: set<string>,
                             qs: set<string>, qtf: map<Key, string>, qstart: string, qaccept: set<string>)
    requires forall i :: 0 <= i < |blocks| ==> blocks[i] != {}
  {
    (forall x :: x in qs <==> Named(x, |blocks|)) &&
    (forall i :: 0 <= i < |blocks| && start in blocks[i] ==> qstart == Decimal(i)) &&
    (forall i :: 0 <= i < |blocks| ==> (Decimal(i) in qaccept <==> blocks[i] * accept != {})) &&
    qaccept <= qs &&
    (forall k :: k in qtf ==> exists i :: 0 <= i < |blocks| && k.0 == Decimal(i) && k.1 in alphabet && (Least(blocks[i]), k.1) in tf) &&
    (forall i, c :: 0 <= i < |blocks| && c in alphabet && (Least(blocks[i]), c) in tf ==>
       (Decimal(i), c) in qtf &&
       forall j :: 0 <= j < |blocks| && tf[(Least(blocks[i]), c)] in blocks[j] ==> qtf[(Decimal(i), c)] == Decimal(j))
  }

  /** The labels of the representatives are pairwise distinct. */
  lemma LabelsDistinct(sorted: seq<set<string>>, rep: map<string, string>)
    requires Representable(sorted, rep)
    requires forall i, s :: 0 <= i < |sorted| && s in sorted[i] ==> s in rep && rep[s] == Decimal(i)
    ensures DistinctLabels(sorted, rep, |sorted|)
  {
    forall i, j | 0 <= i < j < |sorted|
      ensures rep[Least(sorted[i])] != rep[Least(sorted[j])]
    {
      DecimalInjective(i, j);
    }
  }

  /** The accepting labels are those of the blocks meeting accept. */
  lemma AcceptLabels(sorted: seq<set<string>>, U: set<string>, accept: set<string>, rep: map<string, string>,
                     newAccept: set<string>)
    requires Partition(sorted, U) && accept <= U && accept <= rep.Keys
    requires forall i, s :: 0 <= i < |sorted| && s in sorted[i] ==> s in rep && rep[s] == Decimal(i)
    requires forall x :: x in newAccept <==> exists s :: s in accept && rep[s] == x
    ensures forall i :: 0 <= i < |sorted| ==> (Decimal(i) in newAccept <==> sorted[i] * accept != {})
    ensures forall x :: x in newAccept ==> Named(x, |sorted|)
  {
    forall i | 0 <= i < |sorted|
      ensures Decimal(i) in newAccept <==> sorted[i] * accept != {}
    {
      if Decimal(i) in newAccept {
        var s :| s in accept && rep[s] == Decimal(i);
        var b := BlockOf(sorted, U, s);
        DecimalInjective(i, b);
        assert s in sorted[i] * accept;
      }
      if sorted[i] * accept != {} {
        var s :| s in sorted[i] * accept;
        assert rep[s] == Decimal(i);
      }
    }
    forall x | x in newAccept
      ensures Named(x, |sorted|)
    {
      var s :| s in accept && rep[s] == x;
      var b := BlockOf(sorted, U, s);
      assert x == Decimal(b);
    }
  }

  /** The quotient transitions run between block names. */
  lemma TfLabels(sorted: seq<set<string>>, alphabet: set<string>, tf: map<Key, string>, rep: map<string, string>,
                 newTf: map<Key, string>)
    requires Representable(sorted, rep)
    requires forall i, s :: 0 <= i < |sorted| && s in sorted[i] ==> s in rep && rep[s] == Decimal(i)
    requires DistinctLabels(sorted, rep, |sorted|)
    requires TargetsIn(sorted, alphabet, tf, rep.Keys, |sorted|)
    requires QuotientSoFar(sorted, alphabet, tf, rep, |sorted|, newTf)
    ensures forall k :: k in newTf ==> exists i :: 0 <= i < |sorted| && k.0 == Decimal(i) && k.1 in alphabet && (Least(sorted[i]), k.1) in tf
    ensures forall i, c :: 0 <= i < |sorted| && c in alphabet && (Least(sorted[i]), c) in tf ==>
       (Decimal(i), c) in newTf &&
       forall j :: 0 <= j < |sorted| && tf[(Least(sorted[i]), c)] in sorted[j] ==> newTf[(Decimal(i), c)] == Decimal(j)
  {
    forall i, c | 0 <= i < |sorted| && c in alphabet && (Least(sorted[i]), c) in tf
      ensures (Decimal(i), c) in newTf
      ensures forall j :: 0 <= j < |sorted| && tf[(Least(sorted[i]), c)] in sorted[j] ==> newTf[(Decimal(i), c)] == Decimal(j)
    {
      assert rep[Least(sorted[i])] == Decimal(i);
    }
    forall k | k in newTf
      ensures exists i :: 0 <= i < |sorted| && k.0 == Decimal(i) && k.1 in alphabet && (Least(sorted[i]), k.1) in tf
    {
      var i :| 0 <= i < |sorted| && k.0 == rep[Least(sorted[i])] && k.1 in alphabet &&
               (Least(sorted[i]), k.1) in tf && tf[(Least(sorted[i]), k.1)] in rep;
      assert k.0 == Decimal(i);
    }
  }

  /** Lines 151-195: the sorted blocks named by position and the automaton
      over those names; None where the source would put a null label into it
      (the start, or a target of a representative, outside every block). */
  method Label(sorted: seq<set<string>>, U: set<string>, alphabet: set<string>, tf: map<Key, string>,
               start: string, accept: set<string>)
    returns (r: Option<Dfa>)
    requires Partition(sorted, U) && accept <= U
    ensures r.Some? <==> start in U && TargetsIn(sorted, alphabet, tf, U, |sorted|)
    ensures r.Some? ==>
      fresh(r.value) && r.value.alphabet == alphabet &&
      IsQuotient(sorted, alphabet, tf, start, accept, r.value.states, r.value.tf, r.value.start, r.value.accept)
  {
    var blockIndex := IndexBlocks(sorted);
    var rep := RepMap(sorted, blockIndex);
    LabelsOf(sorted, U, blockIndex, rep);
    BlockNames(sorted, blockIndex);
    var newStates := blockIndex.Values;
    var newAccept := MapAccept(accept, rep);
    AcceptLabels(sorted, U, accept, rep, newAccept);
    var newTf, ok := QuotientTf(sorted, alphabet, tf, rep);
    if start in rep && ok {
      LabelsDistinct(sorted, rep);
      TfLabels(sorted, alphabet, tf, rep, newTf);
      var m := new Dfa(newStates, alphabet, newTf, rep[start], newAccept);
      r := Some(m);
    } else {
      r := None;
    }
  }

  /** Lines 94-195 on an automaton already trimmed and completed: the refined
      blocks, sorted by least state, and the automaton over their names. */
  method Quotient(states: set<string>, alphabet: set<string>, tf: map<Key, string>, start: string, accept: set<string>)
    returns (r: Option<Dfa>, ghost blocks: seq<set<string>>)
    ensures Partition(blocks, states + accept) && Respects(blocks, accept) && Increasing(Leasts(blocks))
    ensures TotalOn(states, alphabet, tf) ==> AllSaturated(blocks, states, tf, alphabet, accept)
    ensures r.Some? <==> start in states + accept && TargetsIn(blocks, alphabet, tf, states + accept, |blocks|)
    ensures r.Some? ==>
      fresh(r.value) && r.value.alphabet == alphabet &&
      IsQuotient(blocks, alphabet, tf, start, accept, r.value.states, r.value.tf, r.value.start, r.value.accept)
  {
    var P := Refinement(states, alphabet, tf, accept);
    SortedPartition(P, states + accept);
    SortedKeeps(P, states, tf, alphabet, accept);
    var sorted := SortBlocks(P);
    blocks := sorted;
    r := Label(sorted, states + accept, alphabet, tf, start, accept);
  }

  /** Trimming a well-formed automaton keeps start, the accepting states
      and every kept target among the kept states. */
  lemma TrimClosed(states: set<string>, alphabet: set<string>, tf: map<Key, string>, start: string, accept: set<string>)
    requires start in states && accept <= states && forall k :: k in tf ==> tf[k] in states
    ensures var R := ReachedFrom(tf, alphabet, start);
      start in states * R && accept * R <= states * R &&
      forall k :: k in Prune(tf, R) ==> Prune(tf, R)[k] in states * R
  {
    assert Word(alphabet, []) && Run(tf, start, []) == Some(start);
  }

  /** Completing an automaton whose targets are states makes it total on
      the completed states, its targets still among them. */
  lemma CompletedClosed(states: set<string>, alphabet: set<string>, tf: map<Key, string>)
    requires forall k :: k in tf ==> tf[k] in states
    ensures TotalOn(CompletedStates(states, alphabet, tf), alphabet, Completed(states, alphabet, tf))
    ensures forall k :: k in Completed(states, alphabet, tf) ==>
      Completed(states, alphabet, tf)[k] in CompletedStates(states, alphabet, tf)
  {
    CompletedTotal(states, alphabet, tf);
    CompletedTargets(states, alphabet, tf);
  }

  lemma CompletedTargets(states: set<string>, alphabet: set<string>, tf: map<Key, string>)
    requires forall k :: k in tf ==> tf[k] in states
    ensures forall k :: k in Completed(states, alphabet, tf) ==>
      Completed(states, alphabet, tf)[k] in CompletedStates(states, alphabet, tf)
  {
    var filled := Fill(tf, Pairs(states, alphabet));
    if HasGap(states, alphabet, tf) {
      forall k | k in filled + TrapLoops(alphabet)
        ensures (filled + TrapLoops(alphabet))[k] in states + {Trap}
      {
        if k !in TrapLoops(alphabet) && k in tf {
          assert filled[k] == tf[k];
        }
      }
    } else {
      forall k | k in filled
        ensures filled[k] in states
      {
        assert k in tf;
      }
    }
  }

  // ---------------------------------------------------------------------
  // The automaton object.

  class Dfa {
    var states: set<string>
    var alphabet: set<string>
    var tf: map<Key, string>
    var start: string
    var accept: set<string>

    /** The copying constructor (lines 29-36). */
    constructor (states: set<string>, alphabet: set<string>, tf: map<Key, string>, start: string, accept: set<string>)
      ensures this.states == states && this.alphabet == alphabet && this.tf == tf
      ensures this.start == start && this.accept == accept
    {
      this.states := states;
      this.alphabet := alphabet;
      this.tf := tf;
      this.start := start;
      this.accept := accept;
    }

    /** removeUnreachable (lines 39-67). */
    method RemoveUnreachable()
      modifies this
      ensures alphabet == old(alphabet) && start == old(start)
      ensures states == old(states) * ReachedFrom(old(tf), alphabet, start)
      ensures accept == old(accept) * ReachedFrom(old(tf), alphabet, start)
      ensures tf == Prune(old(tf), ReachedFrom(old(tf), alphabet, start))
      ensures forall s :: s in states <==> s in old(states) && Reaches(old(tf), alphabet, start, s)
      ensures forall k :: k in tf <==>
        k in old(tf) && Reaches(old(tf), alphabet, start, k.0) && Reaches(old(tf), alphabet, start, old(tf)[k])
      ensures forall k :: k in tf ==> tf[k] == old(tf)[k]
      ensures forall s :: s in states ==> Reaches(tf, alphabet, start, s)
    {
      var reachable := Reachable(tf, alphabet, start);
      ghost var tf0 := tf;
      ReachedFromIs(tf0, alphabet, start);
      SameElements(reachable, ReachedFrom(tf0, alphabet, start));
      states := states * reachable;
      accept := accept * reachable;
      tf := Prune(tf, reachable);
      forall s | s in states
        ensures Reaches(tf, alphabet, start, s)
      {
        var w :| Word(alphabet, w) && Run(tf0, start, w) == Some(s);
        assert Closed(tf0, alphabet, start, reachable) by {
          forall s', c | s' in reachable && c in alphabet && (s', c) in tf0
            ensures tf0[(s', c)] in reachable
          {
            var v :| Word(alphabet, v) && Run(tf0, start, v) == Some(s');
            ExtendPath(tf0, alphabet, start, v, s', c);
          }
          assert Word(alphabet, []) && Run(tf0, start, []) == Some(start);
        }
        PruneKeepsRuns(tf0, alphabet, start, reachable, w);
      }
    }

    /** The start and the accepting states are states, and every transition
        enters a state: what the automata read from a table satisfy. */
    ghost predicate WellFormed()
      reads this
    {
      start in states && accept <= states && forall k :: k in tf ==> tf[k] in states
    }

    /** makeTotal (lines 70-92). */
    method MakeTotal()
      modifies this
      ensures alphabet == old(alphabet) && start == old(start) && accept == old(accept)
      ensures states == CompletedStates(old(states), alphabet, old(tf))
      ensures tf == Completed(old(states), alphabet, old(tf))
    {
      states, tf := Complete(states, alphabet, tf);
    }

    /** minimize (lines 95-187): trim, complete, refine and relabel. On a
        well-formed automaton the result always exists, and its blocks are
        unions of classes of equivalent states. */
    method Minimize() returns (r: Option<Dfa>, ghost blocks: seq<set<string>>)
      modifies this
      ensures var R := ReachedFrom(old(tf), old(alphabet), old(start));
        alphabet == old(alphabet) && start == old(start) && accept == old(accept) * R &&
        states == CompletedStates(old(states) * R, alphabet, Prune(old(tf), R)) &&
        tf == Completed(old(states) * R, alphabet, Prune(old(tf), R))
      ensures Partition(blocks, states + accept) && Respects(blocks, accept) && Increasing(Leasts(blocks))
      ensures TotalOn(states, alphabet, tf) ==> AllSaturated(blocks, states, tf, alphabet, accept)
      ensures r.Some? <==> start in states + accept && TargetsIn(blocks, alphabet, tf, states + accept, |blocks|)
      ensures r.Some? ==>
        fresh(r.value) && r.value.alphabet == alphabet &&
        IsQuotient(blocks, alphabet, tf, start, accept, r.value.states, r.value.tf, r.value.start, r.value.accept)
      ensures old(WellFormed()) ==>
        r.Some? && TotalOn(states, alphabet, tf) && accept <= states && AllSaturated(blocks, states, tf, alphabet, accept)
    {
      ghost var wf := WellFormed();
      if wf {
        TrimClosed(states, alphabet, tf, start, accept);
      }
      RemoveUnreachable();
      ghost var trimmed, trimmedTf := states, tf;
      MakeTotal();
      if wf {
        CompletedClosed(trimmed, alphabet, trimmedTf);
      }
      r, blocks := Quotient(states, alphabet, tf, start, accept);
    }
  }
}
