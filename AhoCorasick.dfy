// The Aho-Corasick matching machine of implementation.java: a goto table
// trie[state][character] over MaxStates x MaxCharacters entries (-1 for no
// edge), an output set per state and a failure function, built in three
// phases (trie insertion, root completion, breadth-first failure links).
//
// Every state s carries a ghost string words[s] (the characters read from
// the root to s) and a ghost parent, so that the promises of the source can
// be stated: state counts, failure links to the longest proper suffix
// state, outputs that are exactly the keywords ending at s, and a next-state
// function that lands on the longest suffix state of what was read.
module AhoCorasick {
  import opened Suffixes

  const MaxStates := 500
  const MaxCharacters := 128

  /** Every character index of w is a column of the goto table. */
  predicate InAlphabet(w: seq<int>)
  {
    forall j :: 0 <= j < |w| ==> 0 <= w[j] < MaxCharacters
  }

  /** Total number of characters in the keywords. */
  function TotalLength(keys: seq<seq<int>>): nat
  {
    if keys == [] then 0 else TotalLength(keys[..|keys| - 1]) + |keys[|keys| - 1]|
  }

  /** The indices of the keywords equal to w: the output a state gets from
      the insertion phase alone. */
  function Own(keys: seq<seq<int>>, w: seq<int>): set<nat>
  {
    if keys == [] then {}
    else Own(keys[..|keys| - 1], w) + (if keys[|keys| - 1] == w then {|keys| - 1} else {})
  }

  lemma {:induction false} OwnIff(keys: seq<seq<int>>, w: seq<int>, k: int)
    ensures k in Own(keys, w) <==> 0 <= k < |keys| && keys[k] == w
    decreases |keys|
  {
    if keys != [] {
      var n := |keys| - 1;
      OwnIff(keys[..n], w, k);
      if 0 <= k < n {
        assert keys[..n][k] == keys[k];
      }
    }
  }

  // ---------------------------------------------------------------------
  // The shape of the goto table.

  ghost predicate Shaped(trie: seq<seq<int>>)
  {
    |trie| == MaxStates && forall s :: 0 <= s < MaxStates ==> |trie[s]| == MaxCharacters
  }

  /** Distinct states spell distinct strings; the root spells the empty one. */
  ghost predicate WordsOK(words: seq<seq<int>>)
  {
    1 <= |words| <= MaxStates && words[0] == [] &&
    forall s, t :: 0 <= s < |words| && 0 <= t < |words| && words[s] == words[t] ==> s == t
  }

  /** Entry (s, c) is -1, or leads to the state spelling words[s] + [c];
      once `loops` holds the root may also lead back to itself. Rows of
      unallocated states are all -1. */
  ghost predicate EdgeOK(trie: seq<seq<int>>, words: seq<seq<int>>, loops: bool, s: int, c: int)
    requires Shaped(trie) && 0 <= s < MaxStates && 0 <= c < MaxCharacters
  {
    var x := trie[s][c];
    if s >= |words| then x == -1
    else x == -1 || (0 <= x < |words| && (words[x] == words[s] + [c] || (loops && s == 0 && x == 0)))
  }

  /** Every state but the root is the target of the edge from its parent. */
  ghost predicate ParentOK(trie: seq<seq<int>>, words: seq<seq<int>>, parent: seq<int>, x: int)
    requires Shaped(trie) && |parent| == |words| <= MaxStates && 1 <= x < |words|
  {
    var w := words[x];
    |w| >= 1 && 0 <= w[|w| - 1] < MaxCharacters && 0 <= parent[x] < |words| &&
    words[parent[x]] == w[..|w| - 1] && trie[parent[x]][w[|w| - 1]] == x
  }

  ghost predicate Trie(trie: seq<seq<int>>, words: seq<seq<int>>, parent: seq<int>, loops: bool)
  {
    Shaped(trie) && WordsOK(words) && |parent| == |words| &&
    (forall s, c :: 0 <= s < MaxStates && 0 <= c < MaxCharacters ==> EdgeOK(trie, words, loops, s, c)) &&
    (forall x :: 1 <= x < |words| ==> ParentOK(trie, words, parent, x))
  }

  /** A state spelling words[p] + [c] is the target of edge (p, c). */
  lemma ChildOf(trie: seq<seq<int>>, words: seq<seq<int>>, parent: seq<int>, loops: bool, p: int, c: int, x: int)
    requires Trie(trie, words, parent, loops)
    requires 0 <= p < |words| && 0 <= x < |words| && 0 <= c < MaxCharacters
    requires words[x] == words[p] + [c]
    ensures trie[p][c] == x
  {
    assert x != 0;
    assert ParentOK(trie, words, parent, x);
    assert words[x][..|words[x]| - 1] == words[p];
  }

  /** A missing edge (p, c) means no state spells words[p] + [c]. */
  lemma NoChild(trie: seq<seq<int>>, words: seq<seq<int>>, parent: seq<int>, loops: bool, p: int, c: int)
    requires Trie(trie, words, parent, loops)
    requires 0 <= p < |words| && 0 <= c < MaxCharacters && trie[p][c] == -1
    ensures forall x :: 0 <= x < |words| ==> words[x] != words[p] + [c]
  {
    forall x | 0 <= x < |words| && words[x] == words[p] + [c]
      ensures false
    {
      ChildOf(trie, words, parent, loops, p, c, x);
    }
  }

  // ---------------------------------------------------------------------
  // Phase 1: inserting the keywords (implementation.java lines 51-83).

  /** Allocating state |words| as the target of the missing edge (cur, c). */
  lemma AllocateStep(trie: seq<seq<int>>, words: seq<seq<int>>, parent: seq<int>, cur: int, c: int)
    requires Trie(trie, words, parent, false) && |words| < MaxStates
    requires 0 <= cur < |words| && 0 <= c < MaxCharacters && trie[cur][c] == -1
    ensures Trie(trie[cur := trie[cur][c := |words|]], words + [words[cur] + [c]], parent + [cur], false)
  {
    var n := |words|;
    var trie' := trie[cur := trie[cur][c := n]];
    var words' := words + [words[cur] + [c]];
    var parent' := parent + [cur];
    NoChild(trie, words, parent, false, cur, c);
    assert Shaped(trie');
    assert WordsOK(words') by {
      forall s, t | 0 <= s < |words'| && 0 <= t < |words'| && words'[s] == words'[t]
        ensures s == t
      {
        if s < n && t < n {
          assert words[s] == words[t];
        }
      }
    }
    forall s, d | 0 <= s < MaxStates && 0 <= d < MaxCharacters
      ensures EdgeOK(trie', words', false, s, d)
    {
      assert EdgeOK(trie, words, false, s, d);
      if s == cur && d == c {
        assert trie'[s][d] == n;
      } else {
        assert trie'[s][d] == trie[s][d];
        if s < n && trie[s][d] != -1 {
          assert words'[trie[s][d]] == words[trie[s][d]];
        }
      }
    }
    forall x | 1 <= x < |words'|
      ensures ParentOK(trie', words', parent', x)
    {
      if x == n {
        assert words'[x][..|words'[x]| - 1] == words[cur];
      } else {
        assert ParentOK(trie, words, parent, x);
        assert words'[x] == words[x] && words'[parent'[x]] == words[parent[x]];
      }
    }
  }

  /** Walks keyword w from the root, allocating the missing states
      (the inner loop, lines 63-78). */
  method AddKeyword(trie: seq<seq<int>>, states: int, ghost words: seq<seq<int>>, ghost parent: seq<int>, w: seq<int>)
    returns (trie': seq<seq<int>>, states': int, ghost words': seq<seq<int>>, ghost parent': seq<int>, cur: int)
    requires Trie(trie, words, parent, false) && states == |words|
    requires InAlphabet(w) && states + |w| <= MaxStates
    ensures Trie(trie', words', parent', false) && states' == |words'|
    ensures states <= states' <= states + |w|
    ensures words'[..states] == words
    ensures 0 <= cur < states' && words'[cur] == w
  {
    trie', states', words', parent', cur := trie, states, words, parent, 0;
    var j := 0;
    while j < |w|
      invariant 0 <= j <= |w|
      invariant Trie(trie', words', parent', false) && states' == |words'|
      invariant states <= states' <= states + j
      invariant words'[..states] == words
      invariant 0 <= cur < states' && words'[cur] == w[..j]
    {
      var character := w[j];
      if trie'[cur][character] == -1 {
        AllocateStep(trie', words', parent', cur, character);
        trie' := trie'[cur := trie'[cur][character := states']];
        words' := words' + [words'[cur] + [character]];
        parent' := parent' + [cur];
        states' := states' + 1;
      }
      assert EdgeOK(trie', words', false, cur, character);
      cur := trie'[cur][character];
      assert w[..j + 1] == w[..j] + [character];
      j := j + 1;
    }
    assert w[..j] == w;
  }

  lemma TotalLengthSnoc(keys: seq<seq<int>>, i: int)
    requires 0 <= i < |keys|
    ensures TotalLength(keys[..i + 1]) == TotalLength(keys[..i]) + |keys[i]|
  {
    assert keys[..i + 1][..i] == keys[..i];
  }

  lemma {:induction false} TotalLengthPrefix(keys: seq<seq<int>>, i: int)
    requires 0 <= i <= |keys|
    ensures TotalLength(keys[..i]) <= TotalLength(keys)
    decreases |keys| - i
  {
    if i < |keys| {
      TotalLengthSnoc(keys, i);
      TotalLengthPrefix(keys, i + 1);
    } else {
      assert keys[..i] == keys;
    }
  }

  /** The outputs after inserting keys[..i]: each state owns the keywords it spells. */
  ghost predicate Owned(keys: seq<seq<int>>, words: seq<seq<int>>, output: seq<set<nat>>)
  {
    |output| == MaxStates && |words| <= MaxStates &&
    (forall s :: 0 <= s < |words| ==> output[s] == Own(keys, words[s])) &&
    (forall s :: |words| <= s < MaxStates ==> output[s] == {})
  }

  /** After walking keyword keys[i] to state cur, marking cur keeps Owned. */
  lemma MarkStep(keys: seq<seq<int>>, i: int, words: seq<seq<int>>, output: seq<set<nat>>, cur: int)
    requires 0 <= i < |keys| && WordsOK(words)
    requires Owned(keys[..i], words, output)
    requires 0 <= cur < |words| && words[cur] == keys[i]
    ensures Owned(keys[..i + 1], words, output[cur := output[cur] + {i}])
  {
    var keys' := keys[..i + 1];
    assert keys'[..i] == keys[..i];
    forall s | 0 <= s < |words|
      ensures output[cur := output[cur] + {i}][s] == Own(keys', words[s])
    {
      assert Own(keys', words[s]) == Own(keys[..i], words[s]) + (if keys[i] == words[s] then {i} else {});
    }
  }

  /** New states spell no keyword inserted so far, so their output stays empty. */
  lemma GrowOwned(keys: seq<seq<int>>, words: seq<seq<int>>, words': seq<seq<int>>, output: seq<set<nat>>)
    requires Owned(keys, words, output) && WordsOK(words') && |words| <= |words'|
    requires words'[..|words|] == words
    requires forall k :: 0 <= k < |keys| ==> keys[k] in words
    ensures Owned(keys, words', output)
  {
    forall s | |words| <= s < |words'|
      ensures output[s] == Own(keys, words'[s])
    {
      forall k | 0 <= k < |keys|
        ensures keys[k] != words'[s]
      {
        var t :| 0 <= t < |words| && words[t] == keys[k];
        assert words'[t] == words[t];
      }
      forall k
        ensures k !in Own(keys, words'[s])
      {
        OwnIff(keys, words'[s], k);
      }
    }
    forall s | 0 <= s < |words|
      ensures output[s] == Own(keys, words'[s])
    {
      assert words'[s] == words[s];
    }
  }

  lemma KeywordsKept(keys: seq<seq<int>>, i: int, words: seq<seq<int>>, words': seq<seq<int>>, cur: int)
    requires 0 <= i < |keys| && |words| <= |words'| && words'[..|words|] == words
    requires forall k :: 0 <= k < i ==> keys[k] in words
    requires 0 <= cur < |words'| && words'[cur] == keys[i]
    ensures forall k :: 0 <= k < i + 1 ==> keys[k] in words'
  {
    forall k | 0 <= k < i
      ensures keys[k] in words'
    {
      var t :| 0 <= t < |words| && words[t] == keys[k];
      assert words'[t] == words[t];
    }
  }

  /** Phase 1: the trie of all keywords and the outputs of their end states. */
  method InsertKeywords(keys: seq<seq<int>>)
    returns (trie: seq<seq<int>>, output: seq<set<nat>>, states: int, ghost words: seq<seq<int>>, ghost parent: seq<int>)
    requires forall k :: 0 <= k < |keys| ==> InAlphabet(keys[k])
    requires 1 + TotalLength(keys) <= MaxStates
    ensures Trie(trie, words, parent, false) && states == |words|
    ensures states <= 1 + TotalLength(keys)
    ensures Owned(keys, words, output)
    ensures forall k :: 0 <= k < |keys| ==> keys[k] in words
  {
    output := seq(MaxStates, _ => {});
    trie := seq(MaxStates, _ => seq(MaxCharacters, _ => -1));
    states := 1;
    words := [[]];
    parent := [0];
    var i := 0;
    while i < |keys|
      invariant 0 <= i <= |keys|
      invariant Trie(trie, words, parent, false) && states == |words|
      invariant states <= 1 + TotalLength(keys[..i])
      invariant Owned(keys[..i], words, output)
      invariant forall k :: 0 <= k < i ==> keys[k] in words
    {
      TotalLengthSnoc(keys, i);
      TotalLengthPrefix(keys, i + 1);
      ghost var words0 := words;
      var cur;
      trie, states, words, parent, cur := AddKeyword(trie, states, words, parent, keys[i]);
      GrowOwned(keys[..i], words0, words, output);
      MarkStep(keys, i, words, output, cur);
      output := output[cur := output[cur] + {i}];
      KeywordsKept(keys, i, words0, words, cur);
      i := i + 1;
    }
    assert keys[..i] == keys;
  }

  // ---------------------------------------------------------------------
  // Phase 2: missing root edges lead back to the root (lines 87-89).

  /** The root has an edge for every character. */
  ghost predicate RootTotal(trie: seq<seq<int>>)
    requires Shaped(trie)
  {
    forall c :: 0 <= c < MaxCharacters ==> trie[0][c] != -1
  }

  method CompleteRoot(trie: seq<seq<int>>, ghost words: seq<seq<int>>, ghost parent: seq<int>)
    returns (trie': seq<seq<int>>)
    requires Trie(trie, words, parent, false)
    ensures Trie(trie', words, parent, true) && RootTotal(trie')
    ensures forall c :: 0 <= c < MaxCharacters ==> trie'[0][c] == if trie[0][c] == -1 then 0 else trie[0][c]
    ensures forall s :: 1 <= s < MaxStates ==> trie'[s] == trie[s]
  {
    trie' := trie;
    for ch := 0 to MaxCharacters
      invariant Shaped(trie')
      invariant forall c :: 0 <= c < MaxCharacters ==>
        trie'[0][c] == if c < ch && trie[0][c] == -1 then 0 else trie[0][c]
      invariant forall s :: 1 <= s < MaxStates ==> trie'[s] == trie[s]
    {
      if trie'[0][ch] == -1 {
        trie' := trie'[0 := trie'[0][ch := 0]];
      }
    }
    forall s, c | 0 <= s < MaxStates && 0 <= c < MaxCharacters
      ensures EdgeOK(trie', words, true, s, c)
    {
      assert EdgeOK(trie, words, false, s, c);
    }
    forall x | 1 <= x < |words|
      ensures ParentOK(trie', words, parent, x)
    {
      assert ParentOK(trie, words, parent, x);
    }
  }

  // ---------------------------------------------------------------------
  // Failure links and outputs: what phase 3 computes.

  /** out holds only keywords that end the string of s, and every non-empty one. */
  ghost predicate Matches(keys: seq<seq<int>>, words: seq<seq<int>>, s: int, out: set<nat>)
    requires 0 <= s < |words|
  {
    (forall k :: k in out ==> 0 <= k < |keys| && IsSuffix(keys[k], words[s])) &&
    (forall k :: 0 <= k < |keys| && keys[k] != [] && IsSuffix(keys[k], words[s]) ==> k in out)
  }

  /** The trie with a total root, holding a state for every keyword. */
  ghost predicate Machine(keys: seq<seq<int>>, trie: seq<seq<int>>, words: seq<seq<int>>, parent: seq<int>)
  {
    Trie(trie, words, parent, true) && RootTotal(trie) &&
    forall k :: 0 <= k < |keys| ==> keys[k] in words
  }

  /** The finished automaton. */
  ghost predicate Automaton(keys: seq<seq<int>>, trie: seq<seq<int>>, words: seq<seq<int>>, parent: seq<int>,
                            failure: seq<int>, output: seq<set<nat>>)
  {
    Machine(keys, trie, words, parent) && |failure| == MaxStates && |output| == MaxStates &&
    Matches(keys, words, 0, output[0]) &&
    forall t :: 1 <= t < |words| ==> IsFailure(words, failure[t], t) && Matches(keys, words, t, output[t])
  }

  // ---------------------------------------------------------------------
  // Following failure links (the loops of lines 130-131 and 166-167).

  /** Searching for the longest suffix of w + [c] shorter than bound: u is a
      suffix state of w, and no longer suffix state of w (still short
      enough) has a c edge. */
  ghost predicate Chain(trie: seq<seq<int>>, words: seq<seq<int>>, u: int, w: seq<int>, c: int, bound: int)
    requires Shaped(trie) && |words| <= MaxStates && 0 <= c < MaxCharacters
  {
    0 <= u < |words| && IsSuffix(words[u], w) && |words[u]| + 1 < bound &&
    forall t :: 0 <= t < |words| && IsSuffix(words[t], w) && |words[u]| < |words[t]| && |words[t]| + 1 < bound ==>
      trie[t][c] == -1
  }

  lemma ChainStep(trie: seq<seq<int>>, words: seq<seq<int>>, parent: seq<int>, u: int, f: int, w: seq<int>, c: int, bound: int)
    requires Trie(trie, words, parent, true) && 0 <= c < MaxCharacters
    requires Chain(trie, words, u, w, c, bound) && trie[u][c] == -1
    requires IsFailure(words, f, u)
    ensures Chain(trie, words, f, w, c, bound) && |words[f]| < |words[u]|
  {
    SuffixTrans(words[f], words[u], w);
    forall t | 0 <= t < |words| && IsSuffix(words[t], w) && |words[f]| < |words[t]| && |words[t]| + 1 < bound
      ensures trie[t][c] == -1
    {
      if |words[t]| == |words[u]| {
        SuffixSameLength(words[t], words[u], w);
      } else if |words[t]| < |words[u]| {
        SuffixCompare(words[t], words[u], w);
      }
    }
  }

  lemma ChainExit(trie: seq<seq<int>>, words: seq<seq<int>>, parent: seq<int>, u: int, w: seq<int>, c: int, bound: int)
    requires Trie(trie, words, parent, true) && 0 <= c < MaxCharacters
    requires Chain(trie, words, u, w, c, bound) && trie[u][c] != -1
    ensures Longest(words, trie[u][c], w + [c], bound)
  {
    var x := trie[u][c];
    assert EdgeOK(trie, words, true, u, c);
    if words[x] == words[u] + [c] {
      SuffixSnoc(words[u], w, c);
    } else {
      assert u == 0 && x == 0;
    }
    forall t | 0 <= t < |words| && IsSuffix(words[t], w + [c]) && |words[t]| < bound
      ensures |words[t]| <= |words[x]|
    {
      if words[t] != [] {
        ParentSuffix(trie, words, parent, t, w, c);
      }
    }
  }

  /** A non-empty suffix state of w + [c] is entered by edge c from a suffix state of w. */
  lemma ParentSuffix(trie: seq<seq<int>>, words: seq<seq<int>>, parent: seq<int>, t: int, w: seq<int>, c: int)
    requires Trie(trie, words, parent, true) && 0 <= c < MaxCharacters
    requires 0 <= t < |words| && words[t] != [] && IsSuffix(words[t], w + [c])
    ensures 0 <= parent[t] < |words| && IsSuffix(words[parent[t]], w)
    ensures |words[parent[t]]| + 1 == |words[t]| && trie[parent[t]][c] == t
    ensures words[t] == words[parent[t]] + [c]
  {
    SuffixDropLast(words[t], w, c);
    assert ParentOK(trie, words, parent, t);
  }

  /** Following failure links from start until an edge for c exists; the
      edge leads to the longest suffix state of w + [c] shorter than bound. */
  method FollowFailures(trie: seq<seq<int>>, failure: seq<int>, ghost words: seq<seq<int>>, ghost parent: seq<int>,
                        ghost w: seq<int>, ghost bound: int, start: int, c: int)
    returns (r: int)
    requires Trie(trie, words, parent, true) && RootTotal(trie) && |failure| == MaxStates
    requires 0 <= c < MaxCharacters && Chain(trie, words, start, w, c, bound)
    requires forall t :: 1 <= t < |words| && |words[t]| + 1 < bound ==> IsFailure(words, failure[t], t)
    ensures Longest(words, r, w + [c], bound)
  {
    var u := start;
    while trie[u][c] == -1
      invariant Chain(trie, words, u, w, c, bound)
      decreases |words[u]|
    {
      assert u != 0;
      ChainStep(trie, words, parent, u, failure[u], w, c, bound);
      u := failure[u];
    }
    ChainExit(trie, words, parent, u, w, c, bound);
    r := trie[u][c];
  }

  // ---------------------------------------------------------------------
  // Outputs of single states.

  lemma RootMatches(keys: seq<seq<int>>, words: seq<seq<int>>)
    requires WordsOK(words)
    ensures Matches(keys, words, 0, Own(keys, []))
  {
    forall k | k in Own(keys, [])
      ensures 0 <= k < |keys| && IsSuffix(keys[k], words[0])
    {
      OwnIff(keys, [], k);
    }
  }

  /** A state one character deep: its failure state is the root, and its own
      keywords are all its non-empty outputs. */
  lemma DepthOne(keys: seq<seq<int>>, words: seq<seq<int>>, x: int)
    requires WordsOK(words) && 0 <= x < |words| && |words[x]| == 1
    ensures IsFailure(words, 0, x) && Matches(keys, words, x, Own(keys, words[x]))
  {
    forall k | k in Own(keys, words[x])
      ensures 0 <= k < |keys| && IsSuffix(keys[k], words[x])
    {
      OwnIff(keys, words[x], k);
      SuffixOfItself(words[x]);
    }
    forall k | 0 <= k < |keys| && keys[k] != [] && IsSuffix(keys[k], words[x])
      ensures k in Own(keys, words[x])
    {
      OwnIff(keys, words[x], k);
    }
  }

  /** The outputs merged along a failure link (line 138). */
  lemma MatchesMerge(keys: seq<seq<int>>, words: seq<seq<int>>, x: int, f: int, out: set<nat>)
    requires WordsOK(words) && forall k :: 0 <= k < |keys| ==> keys[k] in words
    requires 0 <= x < |words| && IsFailure(words, f, x) && Matches(keys, words, f, out)
    ensures Matches(keys, words, x, Own(keys, words[x]) + out)
  {
    forall k | k in Own(keys, words[x]) + out
      ensures 0 <= k < |keys| && IsSuffix(keys[k], words[x])
    {
      if k in out {
        SuffixTrans(keys[k], words[f], words[x]);
      } else {
        OwnIff(keys, words[x], k);
        SuffixOfItself(words[x]);
      }
    }
    forall k | 0 <= k < |keys| && keys[k] != [] && IsSuffix(keys[k], words[x])
      ensures k in Own(keys, words[x]) + out
    {
      OwnIff(keys, words[x], k);
      if |keys[k]| == |words[x]| {
        SuffixOfItself(words[x]);
        SuffixSameLength(keys[k], words[x], words[x]);
      } else {
        var t :| 0 <= t < |words| && words[t] == keys[k];
        SuffixCompare(keys[k], words[f], words[x]);
      }
    }
  }

  // ---------------------------------------------------------------------
  // Phase 3: the breadth-first computation of failure links (lines 93-144).

  function Last(w: seq<int>): int
  {
    if w == [] then -1 else w[|w| - 1]
  }

  /** The edge into t has been handled: its parent is done and, when the
      parent is the state in hand, the edge's character is below next. */
  ghost predicate Reached(words: seq<seq<int>>, parent: seq<int>, done: set<int>, cur: int, next: int, t: int)
    requires |parent| == |words| && 0 <= t < |words|
  {
    parent[t] in done && (parent[t] != cur || Last(words[t]) < next)
  }

  /** A state without a failure link still has only its own output. */
  ghost predicate Linked(keys: seq<seq<int>>, words: seq<seq<int>>, failure: seq<int>, output: seq<set<nat>>, t: int)
    requires |failure| == MaxStates && |output| == MaxStates && |words| <= MaxStates && 1 <= t < |words|
  {
    if failure[t] != -1 then IsFailure(words, failure[t], t) && Matches(keys, words, t, output[t])
    else output[t] == Own(keys, words[t])
  }

  /** The processed states (the root among them) and the links set so far. */
  ghost predicate Progress(words: seq<seq<int>>, parent: seq<int>, failure: seq<int>, done: set<int>, cur: int, next: int)
    requires |failure| == MaxStates && |words| <= MaxStates && |parent| == |words|
  {
    0 in done &&
    (forall t :: t in done ==> 0 <= t < |words| && (t == 0 || failure[t] != -1)) &&
    (forall t :: 1 <= t < |words| ==> (failure[t] != -1 <==> Reached(words, parent, done, cur, next, t)))
  }

  /** The queue holds, once each, the linked states not yet processed, by
      non-decreasing depth within [level, level + 1]; all shallower states
      are processed. */
  ghost predicate Frontier(words: seq<seq<int>>, failure: seq<int>, queue: seq<int>, done: set<int>, level: int)
    requires |failure| == MaxStates && |words| <= MaxStates
  {
    (forall i :: 0 <= i < |queue| ==> 1 <= queue[i] < |words|) &&
    (forall i, j :: 0 <= i < j < |queue| ==> queue[i] != queue[j]) &&
    (forall t :: 1 <= t < |words| ==> (t in queue <==> failure[t] != -1 && t !in done)) &&
    (forall i, j :: 0 <= i < j < |queue| ==> |words[queue[i]]| <= |words[queue[j]]|) &&
    (forall i :: 0 <= i < |queue| ==> level <= |words[queue[i]]| <= level + 1) &&
    (forall t :: 1 <= t < |words| && |words[t]| < level ==> t in done)
  }

  ghost predicate Bfs(keys: seq<seq<int>>, trie: seq<seq<int>>, words: seq<seq<int>>, parent: seq<int>,
                      failure: seq<int>, output: seq<set<nat>>, queue: seq<int>, done: set<int>,
                      level: int, cur: int, next: int)
  {
    Machine(keys, trie, words, parent) && |failure| == MaxStates && |output| == MaxStates &&
    Matches(keys, words, 0, output[0]) &&
    (forall t :: 1 <= t < |words| ==> Linked(keys, words, failure, output, t)) &&
    Progress(words, parent, failure, done, cur, next) &&
    Frontier(words, failure, queue, done, level)
  }

  lemma InitBfs(keys: seq<seq<int>>, trie: seq<seq<int>>, words: seq<seq<int>>, parent: seq<int>, output: seq<set<nat>>)
    requires Machine(keys, trie, words, parent) && Owned(keys, words, output)
    ensures Bfs(keys, trie, words, parent, seq(MaxStates, _ => -1), output, [], {0}, 0, 0, 0)
  {
    RootMatches(keys, words);
    var failure: seq<int> := seq(MaxStates, _ => -1);
    forall t | 1 <= t < |words|
      ensures Linked(keys, words, failure, output, t)
    {
      assert failure[t] == -1;
    }
    forall t | 1 <= t < |words|
      ensures failure[t] != -1 <==> Reached(words, parent, {0}, 0, 0, t)
    {
      assert ParentOK(trie, words, parent, t);
    }
    assert Progress(words, parent, failure, {0}, 0, 0);
    assert Frontier(words, failure, [], {0}, 0);
  }

  /** While state cur (at depth level) is processed, every state no deeper
      than cur has its failure link. */
  lemma AssignedBelow(keys: seq<seq<int>>, trie: seq<seq<int>>, words: seq<seq<int>>, parent: seq<int>,
                      failure: seq<int>, output: seq<set<nat>>, queue: seq<int>, done: set<int>,
                      level: int, cur: int, next: int, t: int)
    requires Bfs(keys, trie, words, parent, failure, output, queue, done, level, cur, next)
    requires 0 <= cur < |words| && |words[cur]| == level
    requires 1 <= t < |words| && |words[t]| <= level
    ensures failure[t] != -1
  {
    assert ParentOK(trie, words, parent, t);
    var p := parent[t];
    assert |words[p]| < level;
    assert p in done;
  }

  /** The facts about a child x of the state in hand. */
  lemma ChildFacts(keys: seq<seq<int>>, trie: seq<seq<int>>, words: seq<seq<int>>, parent: seq<int>,
                   failure: seq<int>, output: seq<set<nat>>, queue: seq<int>, done: set<int>,
                   level: int, cur: int, next: int, x: int)
    requires Bfs(keys, trie, words, parent, failure, output, queue, done, level, cur, next)
    requires 0 <= cur < |words| && |words[cur]| == level && 0 <= next < MaxCharacters
    requires x == trie[cur][next] && x != -1 && !(cur == 0 && x == 0)
    ensures 1 <= x < |words| && words[x] == words[cur] + [next] && parent[x] == cur
    ensures failure[x] == -1 && output[x] == Own(keys, words[x])
  {
    assert EdgeOK(trie, words, true, cur, next);
    assert ParentOK(trie, words, parent, x);
    assert words[x][..|words[x]| - 1] == words[cur];
    assert Last(words[x]) == next;
    assert !Reached(words, parent, done, cur, next, x);
    assert Linked(keys, words, failure, output, x);
  }

  lemma Enqueue(keys: seq<seq<int>>, trie: seq<seq<int>>, words: seq<seq<int>>, parent: seq<int>,
                failure: seq<int>, output: seq<set<nat>>, queue: seq<int>, done: set<int>,
                level: int, cur: int, next: int, x: int, f: int, out: set<nat>)
    requires Bfs(keys, trie, words, parent, failure, output, queue, done, level, cur, next)
    requires 0 <= cur < |words| && cur in done && |words[cur]| == level && 0 <= next < MaxCharacters
    requires x == trie[cur][next] && x != -1 && !(cur == 0 && x == 0) && 0 <= x < |words|
    requires IsFailure(words, f, x) && Matches(keys, words, x, out)
    ensures Bfs(keys, trie, words, parent, failure[x := f], output[x := out], queue + [x], done, level, cur, next + 1)
  {
    ChildFacts(keys, trie, words, parent, failure, output, queue, done, level, cur, next, x);
    var failure', output' := failure[x := f], output[x := out];
    forall t | 1 <= t < |words|
      ensures Linked(keys, words, failure', output', t)
    {
      assert Linked(keys, words, failure, output, t);
    }
    EnqueueProgress(trie, words, parent, failure, done, cur, next, x, f);
    EnqueueFrontier(words, failure, queue, done, level, x, f);
  }

  lemma EnqueueProgress(trie: seq<seq<int>>, words: seq<seq<int>>, parent: seq<int>,
                        failure: seq<int>, done: set<int>, cur: int, next: int, x: int, f: int)
    requires Trie(trie, words, parent, true) && |failure| == MaxStates
    requires Progress(words, parent, failure, done, cur, next)
    requires 0 <= cur < |words| && cur in done && 0 <= next < MaxCharacters
    requires x == trie[cur][next] && 1 <= x < |words| && parent[x] == cur && Last(words[x]) == next
    requires failure[x] == -1 && f >= 0
    ensures Progress(words, parent, failure[x := f], done, cur, next + 1)
  {
    forall t | 1 <= t < |words| && t != x
      ensures parent[t] != cur || Last(words[t]) != next
    {
      assert ParentOK(trie, words, parent, t);
    }
  }

  lemma EnqueueFrontier(words: seq<seq<int>>, failure: seq<int>, queue: seq<int>, done: set<int>,
                        level: int, x: int, f: int)
    requires |failure| == MaxStates && |words| <= MaxStates
    requires Frontier(words, failure, queue, done, level)
    requires 1 <= x < |words| && x !in done && failure[x] == -1 && |words[x]| == level + 1 && f >= 0
    ensures Frontier(words, failure[x := f], queue + [x], done, level)
  {
    assert x !in queue;
  }

  /** A character without a child of the state in hand. */
  lemma Skip(keys: seq<seq<int>>, trie: seq<seq<int>>, words: seq<seq<int>>, parent: seq<int>,
             failure: seq<int>, output: seq<set<nat>>, queue: seq<int>, done: set<int>,
             level: int, cur: int, next: int)
    requires Bfs(keys, trie, words, parent, failure, output, queue, done, level, cur, next)
    requires 0 <= cur < |words| && 0 <= next < MaxCharacters
    requires trie[cur][next] == -1 || (cur == 0 && trie[cur][next] == 0)
    ensures Bfs(keys, trie, words, parent, failure, output, queue, done, level, cur, next + 1)
  {
    forall t | 1 <= t < |words|
      ensures parent[t] != cur || Last(words[t]) != next
    {
      assert ParentOK(trie, words, parent, t);
    }
    assert Progress(words, parent, failure, done, cur, next + 1);
  }

  /** Taking the front of the queue as the next state to process (lines 115-116). */
  lemma Pop(keys: seq<seq<int>>, trie: seq<seq<int>>, words: seq<seq<int>>, parent: seq<int>,
            failure: seq<int>, output: seq<set<nat>>, queue: seq<int>, done: set<int>,
            level: int, cur: int)
    requires Bfs(keys, trie, words, parent, failure, output, queue, done, level, cur, MaxCharacters)
    requires |queue| > 0
    ensures 1 <= queue[0] < |words| && queue[0] !in done && failure[queue[0]] != -1
    ensures Bfs(keys, trie, words, parent, failure, output, queue[1..], done + {queue[0]}, |words[queue[0]]|, queue[0], 0)
  {
    assert queue[0] in queue;
    PopProgress(trie, words, parent, failure, done, cur, queue[0]);
    PopFrontier(trie, words, parent, failure, queue, done, level, cur);
  }

  lemma PopProgress(trie: seq<seq<int>>, words: seq<seq<int>>, parent: seq<int>,
                    failure: seq<int>, done: set<int>, cur: int, s: int)
    requires Trie(trie, words, parent, true) && |failure| == MaxStates
    requires Progress(words, parent, failure, done, cur, MaxCharacters)
    requires 1 <= s < |words| && s !in done && failure[s] != -1
    ensures Progress(words, parent, failure, done + {s}, s, 0)
  {
    forall t | 1 <= t < |words|
      ensures Reached(words, parent, done, cur, MaxCharacters, t) <==> Reached(words, parent, done + {s}, s, 0, t)
    {
      assert ParentOK(trie, words, parent, t);
    }
  }

  lemma PopFrontier(trie: seq<seq<int>>, words: seq<seq<int>>, parent: seq<int>,
                    failure: seq<int>, queue: seq<int>, done: set<int>, level: int, cur: int)
    requires Trie(trie, words, parent, true) && |failure| == MaxStates
    requires Progress(words, parent, failure, done, cur, MaxCharacters)
    requires Frontier(words, failure, queue, done, level) && |queue| > 0
    ensures Frontier(words, failure, queue[1..], done + {queue[0]}, |words[queue[0]]|)
  {
    var s := queue[0];
    var done' := done + {s};
    var level' := |words[s]|;
    forall t | 1 <= t < |words|
      ensures t in queue[1..] <==> failure[t] != -1 && t !in done'
    {
      if t in queue[1..] {
        var i :| 0 <= i < |queue[1..]| && queue[1..][i] == t;
        assert queue[i + 1] == t;
      }
      if t != s && t in queue {
        var i :| 0 <= i < |queue| && queue[i] == t;
        assert i != 0 && queue[1..][i - 1] == t;
      }
    }
    forall i | 0 <= i < |queue|
      ensures |words[queue[i]]| >= level'
    {
      if i > 0 {
        assert |words[queue[0]]| <= |words[queue[i]]|;
      }
    }
    forall t | 1 <= t < |words| && |words[t]| < level'
      ensures t in done'
    {
      if |words[t]| >= level {
        assert ParentOK(trie, words, parent, t);
        var p := parent[t];
        assert p in done by {
          if p != 0 {
            assert 1 <= p < |words| && |words[p]| < level;
          }
        }
        assert Reached(words, parent, done, cur, MaxCharacters, t);
        assert t !in queue;
      }
    }
    TailOrder(words, queue, level);
  }

  lemma TailOrder(words: seq<seq<int>>, queue: seq<int>, level: int)
    requires forall i :: 0 <= i < |queue| ==> 1 <= queue[i] < |words|
    requires forall i, j :: 0 <= i < j < |queue| ==> queue[i] != queue[j]
    requires forall i, j :: 0 <= i < j < |queue| ==> |words[queue[i]]| <= |words[queue[j]]|
    requires forall i :: 0 <= i < |queue| ==> level <= |words[queue[i]]| <= level + 1
    requires |queue| > 0
    ensures forall i :: 0 <= i < |queue[1..]| ==> 1 <= queue[1..][i] < |words|
    ensures forall i, j :: 0 <= i < j < |queue[1..]| ==> queue[1..][i] != queue[1..][j]
    ensures forall i, j :: 0 <= i < j < |queue[1..]| ==> |words[queue[1..][i]]| <= |words[queue[1..][j]]|
    ensures forall i :: 0 <= i < |queue[1..]| ==>
      |words[queue[0]]| <= |words[queue[1..][i]]| <= |words[queue[0]]| + 1
  {
    forall i | 0 <= i < |queue[1..]|
      ensures |words[queue[0]]| <= |words[queue[1..][i]]|
    {
      assert queue[1..][i] == queue[i + 1];
    }
  }

  /** The failure state of s starts the search for the failure state of its
      children. */
  lemma ChainStart(trie: seq<seq<int>>, words: seq<seq<int>>, f: int, s: int, c: int)
    requires Shaped(trie) && |words| <= MaxStates && 0 <= c < MaxCharacters
    requires 0 <= s < |words| && IsFailure(words, f, s)
    ensures Chain(trie, words, f, words[s], c, |words[s]| + 1)
  {
  }

  /** The children of the root fail to the root (lines 98-108). */
  method ProcessRoot(ghost keys: seq<seq<int>>, trie: seq<seq<int>>, ghost words: seq<seq<int>>, ghost parent: seq<int>,
                     failure: seq<int>, output: seq<set<nat>>)
    returns (failure': seq<int>, queue: seq<int>)
    requires Bfs(keys, trie, words, parent, failure, output, [], {0}, 0, 0, 0)
    ensures Bfs(keys, trie, words, parent, failure', output, queue, {0}, 0, 0, MaxCharacters)
  {
    failure', queue := failure, [];
    for ch := 0 to MaxCharacters
      invariant Bfs(keys, trie, words, parent, failure', output, queue, {0}, 0, 0, ch)
    {
      if trie[0][ch] != 0 {
        var x := trie[0][ch];
        ChildFacts(keys, trie, words, parent, failure', output, queue, {0}, 0, 0, ch, x);
        DepthOne(keys, words, x);
        Enqueue(keys, trie, words, parent, failure', output, queue, {0}, 0, 0, ch, x, 0, output[x]);
        assert output[x := output[x]] == output;
        failure' := failure'[x := 0];
        queue := queue + [x];
      } else {
        Skip(keys, trie, words, parent, failure', output, queue, {0}, 0, 0, ch);
      }
    }
  }

  /** The children of a state taken from the queue: their failure links and
      merged outputs (lines 121-143). */
  method ProcessState(ghost keys: seq<seq<int>>, trie: seq<seq<int>>, ghost words: seq<seq<int>>, ghost parent: seq<int>,
                      failure: seq<int>, output: seq<set<nat>>, queue: seq<int>, ghost done: set<int>,
                      ghost level: int, state: int)
    returns (failure': seq<int>, output': seq<set<nat>>, queue': seq<int>)
    requires Bfs(keys, trie, words, parent, failure, output, queue, done, level, state, 0)
    requires 1 <= state < |words| && state in done && |words[state]| == level
    ensures Bfs(keys, trie, words, parent, failure', output', queue', done, level, state, MaxCharacters)
  {
    failure', output', queue' := failure, output, queue;
    for ch := 0 to MaxCharacters
      invariant Bfs(keys, trie, words, parent, failure', output', queue', done, level, state, ch)
    {
      if trie[state][ch] != -1 {
        var x := trie[state][ch];
        ChildFacts(keys, trie, words, parent, failure', output', queue', done, level, state, ch, x);
        assert Linked(keys, words, failure', output', state);
        ChainStart(trie, words, failure'[state], state, ch);
        forall t | 1 <= t < |words| && |words[t]| + 1 < |words[state]| + 1
          ensures IsFailure(words, failure'[t], t)
        {
          AssignedBelow(keys, trie, words, parent, failure', output', queue', done, level, state, ch, t);
          assert Linked(keys, words, failure', output', t);
        }
        var f := FollowFailures(trie, failure', words, parent, words[state], |words[state]| + 1, failure'[state], ch);
        assert words[state] + [ch] == words[x];
        assert Matches(keys, words, f, output'[f]) by {
          if f != 0 {
            AssignedBelow(keys, trie, words, parent, failure', output', queue', done, level, state, ch, f);
            assert Linked(keys, words, failure', output', f);
          }
        }
        MatchesMerge(keys, words, x, f, output'[f]);
        Enqueue(keys, trie, words, parent, failure', output', queue', done, level, state, ch, x, f, output'[x] + output'[f]);
        failure' := failure'[x := f];
        output' := output'[x := output'[x] + output'[f]];
        queue' := queue' + [x];
      } else {
        Skip(keys, trie, words, parent, failure', output', queue', done, level, state, ch);
      }
    }
  }

  /** With the queue empty, every state but the root has its failure link. */
  lemma {:induction false} AllLinked(keys: seq<seq<int>>, trie: seq<seq<int>>, words: seq<seq<int>>, parent: seq<int>,
                                     failure: seq<int>, output: seq<set<nat>>, done: set<int>, level: int, cur: int, t: int)
    requires Bfs(keys, trie, words, parent, failure, output, [], done, level, cur, MaxCharacters)
    requires 1 <= t < |words|
    ensures failure[t] != -1
    decreases |words[t]|
  {
    assert ParentOK(trie, words, parent, t);
    var p := parent[t];
    if p != 0 {
      assert |words[p]| < |words[t]|;
      AllLinked(keys, trie, words, parent, failure, output, done, level, cur, p);
      assert p in done by {
        assert p !in [];
      }
    }
    assert Reached(words, parent, done, cur, MaxCharacters, t);
  }

  /** Phase 3: failure links by breadth-first search, merging outputs along them. */
  method BuildFailures(ghost keys: seq<seq<int>>, trie: seq<seq<int>>, ghost words: seq<seq<int>>, ghost parent: seq<int>,
                       output: seq<set<nat>>)
    returns (failure: seq<int>, output': seq<set<nat>>)
    requires Machine(keys, trie, words, parent) && Owned(keys, words, output)
    ensures Automaton(keys, trie, words, parent, failure, output')
  {
    failure := seq(MaxStates, _ => -1);
    InitBfs(keys, trie, words, parent, output);
    var queue;
    failure, queue := ProcessRoot(keys, trie, words, parent, failure, output);
    output' := output;
    ghost var done: set<int> := {0};
    ghost var level := 0;
    ghost var cur := 0;
    while queue != []
      invariant Bfs(keys, trie, words, parent, failure, output', queue, done, level, cur, MaxCharacters)
      decreases |words| - |done|
    {
      Pop(keys, trie, words, parent, failure, output', queue, done, level, cur);
      var state := queue[0];
      queue := queue[1..];
      CardBound(done + {state}, |words|);
      done, level, cur := done + {state}, |words[state]|, state;
      failure, output', queue := ProcessState(keys, trie, words, parent, failure, output', queue, done, level, state);
    }
    forall t | 1 <= t < |words|
      ensures IsFailure(words, failure[t], t) && Matches(keys, words, t, output'[t])
    {
      AllLinked(keys, trie, words, parent, failure, output', done, level, cur, t);
      assert Linked(keys, words, failure, output', t);
    }
  }

  // ---------------------------------------------------------------------
  // What the finished automaton promises.

  /** Failure links lead to strictly shallower suffix states; one character
      deep they lead to the root. */
  lemma FailureShallower(keys: seq<seq<int>>, trie: seq<seq<int>>, words: seq<seq<int>>, parent: seq<int>,
                         failure: seq<int>, output: seq<set<nat>>, t: int)
    requires Automaton(keys, trie, words, parent, failure, output) && 1 <= t < |words|
    ensures 0 <= failure[t] < |words| && IsSuffix(words[failure[t]], words[t])
    ensures |words[failure[t]]| < |words[t]|
    ensures |words[t]| == 1 ==> failure[t] == 0
  {
    assert IsFailure(words, failure[t], t);
    if |words[t]| == 1 {
      assert words[failure[t]] == words[0];
    }
  }

  /** A non-empty keyword is an output of s exactly when it ends the string
      of s; every output ends it. */
  lemma OutputIff(keys: seq<seq<int>>, trie: seq<seq<int>>, words: seq<seq<int>>, parent: seq<int>,
                  failure: seq<int>, output: seq<set<nat>>, s: int, k: int)
    requires Automaton(keys, trie, words, parent, failure, output) && 0 <= s < |words| && 0 <= k < |keys|
    ensures k in output[s] ==> IsSuffix(keys[k], words[s])
    ensures keys[k] != [] ==> (k in output[s] <==> IsSuffix(keys[k], words[s]))
  {
    if s != 0 {
      assert Matches(keys, words, s, output[s]);
    }
  }

  lemma NextChainStart(trie: seq<seq<int>>, words: seq<seq<int>>, u: int, c: int)
    requires Shaped(trie) && |words| <= MaxStates && 0 <= c < MaxCharacters && 0 <= u < |words|
    ensures Chain(trie, words, u, words[u], c, |words[u]| + 2)
  {
    SuffixOfItself(words[u]);
  }

  /** Reading c from the longest suffix state of text gives the longest
      suffix state of text + [c]. */
  lemma NextLongest(trie: seq<seq<int>>, words: seq<seq<int>>, parent: seq<int>, cur: int, r: int, text: seq<int>, c: int)
    requires Trie(trie, words, parent, true) && 0 <= c < MaxCharacters
    requires Longest(words, cur, text, |text| + 1)
    requires Longest(words, r, words[cur] + [c], |words[cur]| + 2)
    ensures Longest(words, r, text + [c], |text| + 2)
  {
    SuffixSnoc(words[cur], text, c);
    SuffixTrans(words[r], words[cur] + [c], text + [c]);
    forall t | 0 <= t < |words| && IsSuffix(words[t], text + [c]) && |words[t]| < |text| + 2
      ensures |words[t]| <= |words[r]|
    {
      if words[t] != [] {
        ParentSuffix(trie, words, parent, t, text, c);
        var p := parent[t];
        SuffixCompare(words[p], words[cur], text);
        SuffixSnoc(words[p], words[cur], c);
      }
    }
  }

  /** At the longest suffix state of the text read, the outputs are the
      keywords ending the text. */
  lemma Reported(keys: seq<seq<int>>, trie: seq<seq<int>>, words: seq<seq<int>>, parent: seq<int>,
                 failure: seq<int>, output: seq<set<nat>>, r: int, text: seq<int>)
    requires Automaton(keys, trie, words, parent, failure, output)
    requires Longest(words, r, text, |text| + 1)
    ensures forall k :: k in output[r] ==> 0 <= k < |keys| && IsSuffix(keys[k], text)
    ensures forall k :: 0 <= k < |keys| && keys[k] != [] && IsSuffix(keys[k], text) ==> k in output[r]
  {
    assert Matches(keys, words, r, output[r]) by {
      if r != 0 {
        assert Matches(keys, words, r, output[r]);
      }
    }
    forall k | k in output[r]
      ensures 0 <= k < |keys| && IsSuffix(keys[k], text)
    {
      SuffixTrans(keys[k], words[r], text);
    }
    forall k | 0 <= k < |keys| && keys[k] != [] && IsSuffix(keys[k], text)
      ensures k in output[r]
    {
      var t :| 0 <= t < |words| && words[t] == keys[k];
      SuffixCompare(keys[k], words[r], text);
    }
  }

  // ---------------------------------------------------------------------
  // Strings and the machine itself.

  /** The character index the source computes: the code minus that of 'a'. */
  function Code(c: char): int
  {
    c as int - 'a' as int
  }

  function Codes(s: string): seq<int>
  {
    seq(|s|, j requires 0 <= j < |s| => Code(s[j]))
  }

  function Encode(keywords: seq<string>): seq<seq<int>>
  {
    seq(|keywords|, k requires 0 <= k < |keywords| => Codes(keywords[k]))
  }

  /** Coding characters keeps and reflects the suffix relation. */
  lemma CodesSuffix(u: string, w: string)
    ensures IsSuffix(Codes(u), Codes(w)) <==> IsSuffix(u, w)
  {
    if |u| <= |w| {
      var d := |w| - |u|;
      assert Codes(w)[d..] == Codes(w[d..]);
      if Codes(w[d..]) == Codes(u) {
        forall j | 0 <= j < |u|
          ensures w[d..][j] == u[j]
        {
          assert Codes(w[d..])[j] == Codes(u)[j];
        }
      }
    }
  }

  /** The static tables of implementation.java and the ghost strings of its states. */
  class Matcher {
    var trie: seq<seq<int>>
    var output: seq<set<nat>>
    var failureFunction: seq<int>
    ghost var keys: seq<seq<int>>
    ghost var words: seq<seq<int>>
    ghost var parent: seq<int>

    ghost predicate Valid()
      reads this
    {
      Automaton(keys, trie, words, parent, failureFunction, output)
    }

    /** The tables as the Java runtime allocates them: all zero. */
    constructor ()
      ensures trie == seq(MaxStates, _ => seq(MaxCharacters, _ => 0))
      ensures output == seq(MaxStates, _ => {}) && failureFunction == seq(MaxStates, _ => 0)
    {
      trie := seq(MaxStates, _ => seq(MaxCharacters, _ => 0));
      output := seq(MaxStates, _ => {});
      failureFunction := seq(MaxStates, _ => 0);
      keys, words, parent := [], [], [];
    }

    /** buildAutomaton (lines 48-147): returns the number of states. */
    method BuildAutomaton(keywords: seq<string>, numKeywords: int) returns (states: int)
      requires 0 <= numKeywords <= |keywords|
      requires forall k :: 0 <= k < numKeywords ==> InAlphabet(Codes(keywords[k]))
      requires 1 + TotalLength(Encode(keywords[..numKeywords])) <= MaxStates
      modifies this
      ensures Valid() && keys == Encode(keywords[..numKeywords])
      ensures states == |words| <= 1 + TotalLength(keys)
      ensures RootTotal(trie)
    {
      var ks := Encode(keywords[..numKeywords]);
      var t, out, n, ws, ps := InsertKeywords(ks);
      t := CompleteRoot(t, ws, ps);
      var fail, out' := BuildFailures(ks, t, ws, ps, out);
      trie, output, failureFunction := t, out', fail;
      keys, words, parent := ks, ws, ps;
      states := n;
    }

    /** findNextState (lines 159-171): the state of the longest suffix of
        words[currentState] + [nextInput] that the trie spells. */
    method FindNextState(currentState: int, nextInput: char) returns (r: int)
      requires Valid() && 0 <= currentState < |words| && 0 <= Code(nextInput) < MaxCharacters
      ensures 0 <= r < |words|
      ensures Longest(words, r, words[currentState] + [Code(nextInput)], |words[currentState]| + 2)
    {
      var ch := Code(nextInput);
      NextChainStart(trie, words, currentState, ch);
      r := FollowFailures(trie, failureFunction, words, parent, words[currentState], |words[currentState]| + 2,
                          currentState, ch);
    }

    /** searchWords (lines 180-207), with the printed lines returned as
        (keyword index, end position) pairs. */
    method SearchWords(dictionary: seq<string>, numKeywords: int, text: string) returns (matches: seq<(int, int)>)
      requires 0 <= numKeywords <= |dictionary|
      requires forall k :: 0 <= k < numKeywords ==> InAlphabet(Codes(dictionary[k]))
      requires 1 + TotalLength(Encode(dictionary[..numKeywords])) <= MaxStates
      requires InAlphabet(Codes(text))
      modifies this
      ensures forall m :: m in matches ==>
        0 <= m.0 < numKeywords && 0 <= m.1 < |text| && IsSuffix(dictionary[m.0], text[..m.1 + 1])
      ensures forall j, i :: (0 <= j < numKeywords && dictionary[j] != "" && 0 <= i < |text| &&
        IsSuffix(dictionary[j], text[..i + 1])) ==> (j, i) in matches
    {
      var _ := BuildAutomaton(dictionary, numKeywords);
      matches := Scan(numKeywords, text);
      assert Found(keys, Codes(text), matches, |text|);
      forall m | m in matches
        ensures IsSuffix(dictionary[m.0], text[..m.1 + 1])
      {
        SubstringCodes(text, m.1 + 1);
        CodesSuffix(dictionary[m.0], text[..m.1 + 1]);
      }
      forall j, i | 0 <= j < numKeywords && dictionary[j] != "" && 0 <= i < |text| &&
        IsSuffix(dictionary[j], text[..i + 1])
        ensures (j, i) in matches
      {
        SubstringCodes(text, i + 1);
        CodesSuffix(dictionary[j], text[..i + 1]);
      }
    }

    /** The loop of searchWords over the text. */
    method Scan(numKeywords: int, text: string) returns (matches: seq<(int, int)>)
      requires Valid() && numKeywords == |keys| && InAlphabet(Codes(text))
      ensures Found(keys, Codes(text), matches, |text|)
    {
      ghost var codes := Codes(text);
      var currentState := 0;
      matches := [];
      for i := 0 to |text|
        invariant 0 <= currentState < |words| && Longest(words, currentState, codes[..i], i + 1)
        invariant Found(keys, codes, matches, i)
      {
        ghost var before := currentState;
        CodeAt(text, i);
        currentState := FindNextState(currentState, text[i]);
        ScanStep(keys, trie, words, parent, failureFunction, output, before, currentState, codes, i, Code(text[i]));
        ghost var old_matches := matches;
        if output[currentState] != {} {
          matches := Report(numKeywords, currentState, i, codes[..i + 1], matches);
        }
        FoundStep(keys, codes, old_matches, matches, i, output[currentState]);
      }
    }

    /** The inner loop of searchWords: one line per keyword in the output of
        the current state. */
    method Report(numKeywords: int, state: int, i: int, ghost read: seq<int>, matches: seq<(int, int)>)
      returns (matches': seq<(int, int)>)
      requires Valid() && numKeywords == |keys| && 0 <= state < |words| && 0 <= i
      requires forall k :: k in output[state] ==> 0 <= k < |keys| && IsSuffix(keys[k], read)
      ensures forall m :: m in matches' ==> m in matches || (m.1 == i && m.0 in output[state])
      ensures forall m :: m in matches ==> m in matches'
      ensures forall k :: k in output[state] ==> (k, i) in matches'
    {
      matches' := matches;
      for j := 0 to numKeywords
        invariant forall m :: m in matches' ==> m in matches || (m.1 == i && m.0 in output[state])
        invariant forall m :: m in matches ==> m in matches'
        invariant forall k :: 0 <= k < j && k in output[state] ==> (k, i) in matches'
      {
        if j in output[state] {
          matches' := matches' + [(j, i)];
        }
      }
    }
  }

  /** matches holds the sound reports for end positions below i, and every
      non-empty keyword ending there. */
  ghost predicate Found(keys: seq<seq<int>>, codes: seq<int>, matches: seq<(int, int)>, i: int)
    requires 0 <= i <= |codes|
  {
    (forall m :: m in matches ==>
      0 <= m.0 < |keys| && 0 <= m.1 < i && IsSuffix(keys[m.0], codes[..m.1 + 1])) &&
    (forall j, i' :: (0 <= j < |keys| && keys[j] != [] && 0 <= i' < i &&
      IsSuffix(keys[j], codes[..i' + 1])) ==> (j, i') in matches)
  }

  lemma FoundStep(keys: seq<seq<int>>, codes: seq<int>, matches: seq<(int, int)>, matches': seq<(int, int)>,
                  i: int, out: set<nat>)
    requires 0 <= i < |codes| && Found(keys, codes, matches, i)
    requires forall k :: k in out ==> 0 <= k < |keys| && IsSuffix(keys[k], codes[..i + 1])
    requires forall k :: 0 <= k < |keys| && keys[k] != [] && IsSuffix(keys[k], codes[..i + 1]) ==> k in out
    requires forall m :: m in matches' ==> m in matches || (m.1 == i && m.0 in out)
    requires forall m :: m in matches ==> m in matches'
    requires forall k :: k in out ==> (k, i) in matches'
    ensures Found(keys, codes, matches', i + 1)
  {
  }

  lemma CodeAt(text: string, i: int)
    requires InAlphabet(Codes(text)) && 0 <= i < |text|
    ensures 0 <= Code(text[i]) < MaxCharacters && Codes(text)[..i + 1] == Codes(text)[..i] + [Code(text[i])]
  {
    assert Codes(text)[i] == Code(text[i]);
  }

  /** One character of the search: the new state is the longest suffix
      state of the text read, and its outputs are the keywords ending there. */
  lemma ScanStep(keys: seq<seq<int>>, trie: seq<seq<int>>, words: seq<seq<int>>, parent: seq<int>,
                 failure: seq<int>, output: seq<set<nat>>, before: int, r: int, codes: seq<int>, i: int, c: int)
    requires Automaton(keys, trie, words, parent, failure, output) && 0 <= i < |codes|
    requires 0 <= c < MaxCharacters && codes[..i + 1] == codes[..i] + [c]
    requires Longest(words, before, codes[..i], i + 1)
    requires Longest(words, r, words[before] + [c], |words[before]| + 2)
    ensures Longest(words, r, codes[..i + 1], i + 2)
    ensures forall k :: k in output[r] ==> 0 <= k < |keys| && IsSuffix(keys[k], codes[..i + 1])
    ensures forall k :: 0 <= k < |keys| && keys[k] != [] && IsSuffix(keys[k], codes[..i + 1]) ==> k in output[r]
  {
    NextLongest(trie, words, parent, before, r, codes[..i], c);
    Reported(keys, trie, words, parent, failure, output, r, codes[..i + 1]);
  }

  lemma SubstringCodes(text: string, n: int)
    requires 0 <= n <= |text|
    ensures Codes(text[..n]) == Codes(text)[..n]
  {
  }

  // ---------------------------------------------------------------------
  // The int output mask as written. The model above keeps each state's
  // output as a set of keyword indices; the source keeps a Java int, sets
  // `1 << i` for keyword i (line 82), merges masks with `|` (line 138) and
  // reports keyword j when `(mask & (1 << j)) > 0` (line 199).

  /** A Java int, as the set of positions of its one bits (31 is the sign bit). */
  type Word = w: set<nat> | forall b :: b in w ==> b < 32

  /** Java's `1 << j` on an int: the shift distance is taken modulo 32. */
  function KeywordBit(j: nat): Word
  {
    {j % 32}
  }

  /** The mask a state gets from `output[s] |= (1 << k)` for every keyword k
    * of out (lines 82 and 138): the OR of their bits. */
  function MaskOf(out: set<nat>): Word
  {
    set k | k in out :: k % 32
  }

  /** A two's complement int is positive when it is nonzero and its sign bit is clear. */
  predicate Positive(w: Word)
  {
    w != {} && 31 !in w
  }

  /** The source's test `(mask & (1 << j)) > 0` (line 199). */
  predicate MaskReports(mask: Word, j: nat)
  {
    Positive(mask * KeywordBit(j))
  }

  /** OR-ing masks merges the keyword sets (line 138). */
  lemma MaskMerge(a: set<nat>, b: set<nat>)
    ensures MaskOf(a + b) == MaskOf(a) + MaskOf(b)
  {
  }

  /** The test reports j exactly when j's bit modulo 32 is set and is not
    * the sign bit: keyword 31 is never reported, and keyword j >= 32 is
    * reported whenever one with the same index modulo 32 ends here. */
  lemma MaskReportsExactly(out: set<nat>, j: nat)
    ensures MaskReports(MaskOf(out), j) <==> j % 32 != 31 && exists k :: k in out && k % 32 == j % 32
  {
    if exists k :: k in out && k % 32 == j % 32 {
      var k :| k in out && k % 32 == j % 32;
      assert j % 32 in MaskOf(out) * KeywordBit(j);
    }
  }

  /** The mask is zero exactly when the state has no output (line 194). */
  lemma MaskEmpty(out: set<nat>)
    ensures MaskOf(out) == {} <==> out == {}
  {
    if out != {} {
      var k :| k in out;
      assert k % 32 in MaskOf(out);
    }
  }

  /** With fewer than 31 keywords the mask and the set model agree. */
  lemma MaskAgreesBelow31(out: set<nat>, j: nat)
    requires (forall k :: k in out ==> k < 31) && j < 31
    ensures MaskReports(MaskOf(out), j) <==> j in out
  {
    MaskReportsExactly(out, j);
    if j in out {
      assert j % 32 == j;
    }
  }

  /** As written, keyword 31 is never reported, even at a state where it ends. */
  lemma KeywordThirtyOneLost(out: set<nat>)
    requires 31 in out
    ensures !MaskReports(MaskOf(out), 31)
  {
  }

  /** As written, keyword 32 is reported where only keyword 0 ends. */
  lemma KeywordThirtyTwoAliased()
    ensures MaskReports(MaskOf({0}), 32) && 32 !in {0}
  {
    assert MaskOf({0}) == {0};
    assert KeywordBit(32) == {0};
    assert 0 in MaskOf({0}) * KeywordBit(32);
  }

  /** The inner loop of searchWords as written: one line per keyword whose
    * bit test succeeds on the state's int mask. */
  method ReportAsWritten(numKeywords: int, mask: Word, i: int, matches: seq<(int, int)>)
    returns (matches': seq<(int, int)>)
    requires 0 <= numKeywords
    ensures forall m :: m in matches' ==> m in matches || (m.1 == i && 0 <= m.0 < numKeywords && MaskReports(mask, m.0))
    ensures forall m :: m in matches ==> m in matches'
    ensures forall k :: 0 <= k < numKeywords && MaskReports(mask, k) ==> (k, i) in matches'
  {
    matches' := matches;
    for j := 0 to numKeywords
      invariant forall m :: m in matches' ==> m in matches || (m.1 == i && 0 <= m.0 < j && MaskReports(mask, m.0))
      invariant forall m :: m in matches ==> m in matches'
      invariant forall k :: 0 <= k < j && MaskReports(mask, k) ==> (k, i) in matches'
    {
      if MaskReports(mask, j) {
        matches' := matches' + [(j, i)];
      }
    }
  }
}
