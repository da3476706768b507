// Suffixes of sequences: the vocabulary both Aho-Corasick models state
// their failure links and matches in, and the bound that ends their
// breadth-first searches.
module Suffixes {

  /** u is a suffix of w. */
  predicate IsSuffix<T(==)>(u: seq<T>, w: seq<T>)
  {
    |u| <= |w| && w[|w| - |u|..] == u
  }

  lemma SuffixOfItself<T>(w: seq<T>)
    ensures IsSuffix(w, w)
  {
    assert w[0..] == w;
  }

  lemma EmptySuffix<T>(w: seq<T>)
    ensures IsSuffix([], w)
  {
  }

  lemma SuffixTrans<T>(u: seq<T>, v: seq<T>, w: seq<T>)
    requires IsSuffix(u, v) && IsSuffix(v, w)
    ensures IsSuffix(u, w)
  {
    var d := |w| - |v|;
    assert w[|w| - |u|..] == w[d..][|v| - |u|..];
  }

  /** Two suffixes of one sequence: the shorter is a suffix of the longer. */
  lemma SuffixCompare<T>(u: seq<T>, v: seq<T>, w: seq<T>)
    requires IsSuffix(u, w) && IsSuffix(v, w) && |u| <= |v|
    ensures IsSuffix(u, v)
  {
    var d := |w| - |v|;
    assert v == w[d..];
    assert v[|v| - |u|..] == w[d..][|v| - |u|..];
    assert w[d..][|v| - |u|..] == w[|w| - |u|..];
  }

  lemma SuffixSameLength<T>(u: seq<T>, v: seq<T>, w: seq<T>)
    requires IsSuffix(u, w) && IsSuffix(v, w) && |u| == |v|
    ensures u == v
  {
  }

  /** Appending the same element on both sides keeps the suffix relation. */
  lemma SuffixSnoc<T>(u: seq<T>, w: seq<T>, c: T)
    requires IsSuffix(u, w)
    ensures IsSuffix(u + [c], w + [c])
  {
    var d := |w| - |u|;
    assert (w + [c])[d..] == w[d..] + [c];
  }

  /** A non-empty suffix of w + [c] ends in c and is a suffix of w once c is dropped. */
  lemma SuffixDropLast<T>(v: seq<T>, w: seq<T>, c: T)
    requires IsSuffix(v, w + [c]) && |v| > 0
    ensures v == v[..|v| - 1] + [c] && IsSuffix(v[..|v| - 1], w)
  {
    var d := |w| + 1 - |v|;
    assert v == (w + [c])[d..];
    assert v[|v| - 1] == c;
    assert v[..|v| - 1] == w[d..];
  }

  /** Among the strings `words` of the states of a trie, words[x] is the
      longest that is a suffix of w and shorter than bound. */
  ghost predicate Longest<T>(words: seq<seq<T>>, x: int, w: seq<T>, bound: int)
  {
    0 <= x < |words| && IsSuffix(words[x], w) && |words[x]| < bound &&
    forall t :: 0 <= t < |words| && IsSuffix(words[t], w) && |words[t]| < bound ==> |words[t]| <= |words[x]|
  }

  /** f is the failure state of s: its longest proper suffix that is a state. */
  ghost predicate IsFailure<T>(words: seq<seq<T>>, f: int, s: int)
    requires 0 <= s < |words|
  {
    Longest(words, f, words[s], |words[s]|)
  }

  /** A set of indices below n has at most n elements. */
  lemma {:induction false} CardBound(done: set<int>, n: nat)
    requires forall t :: t in done ==> 0 <= t < n
    ensures |done| <= n
    decreases n
  {
    if n > 0 {
      CardBound(done - {n - 1}, n - 1);
    } else {
      assert forall t :: t !in done;
      assert done == {};
    }
  }
}
