// Occurrences of a pattern in a text, and the facts about borders (prefixes
// of a pattern that are also suffixes of a text) on which the
// Knuth-Morris-Pratt programs rest.
module Matching {

  /** pattern occurs in text at index i. */
  predicate MatchAt(text: string, pattern: string, i: int)
  {
    0 <= i && i + |pattern| <= |text| && text[i..i + |pattern|] == pattern
  }

  predicate StrictlyIncreasing(s: seq<int>)
  {
    forall a, b :: 0 <= a < b < |s| ==> s[a] < s[b]
  }

  /** pattern[..k] is a suffix of text[..n], compared from the last
      character backwards. */
  ghost predicate EndsWith(pattern: string, k: int, text: string, n: int)
    decreases k
  {
    0 <= k <= |pattern| && k <= n <= |text| &&
    (k == 0 || (pattern[k - 1] == text[n - 1] && EndsWith(pattern, k - 1, text, n - 1)))
  }

  /** The same, character by character. */
  lemma {:induction false} EndsWithPointwise(p: string, k: int, s: string, n: int)
    requires 0 <= k <= |p| && k <= n <= |s|
    ensures EndsWith(p, k, s, n) <==> forall t :: 0 <= t < k ==> p[t] == s[n - k + t]
    decreases k
  {
    if k > 0 {
      EndsWithPointwise(p, k - 1, s, n - 1);
    }
  }

  /** k is a proper border of pattern[..len]. */
  ghost predicate Border(pattern: string, len: int, k: int)
  {
    k < len && EndsWith(pattern, k, pattern, len)
  }

  /** v is the length of the longest proper border of pattern[..i+1], the
      value the prefix function stores at index i. */
  ghost predicate LongestBorderAt(pattern: string, i: int, v: int)
  {
    0 <= i < |pattern| && Border(pattern, i + 1, v) &&
    forall k {:trigger Border(pattern, i + 1, k)} :: v < k <= i ==> !Border(pattern, i + 1, k)
  }

  /** The prefix function is correct on indices below i. */
  ghost predicate PrefixFunction(pattern: string, lps: seq<int>, i: int)
  {
    0 <= i <= |lps| && i <= |pattern| &&
    forall k :: 0 <= k < i ==> LongestBorderAt(pattern, k, lps[k])
  }

  /** A border of a suffix-matching prefix is again suffix-matching. */
  lemma Chain(p: string, j: int, b: int, s: string, n: int)
    requires EndsWith(p, j, s, n) && Border(p, j, b)
    ensures EndsWith(p, b, s, n)
  {
    EndsWithPointwise(p, j, s, n);
    EndsWithPointwise(p, b, p, j);
    EndsWithPointwise(p, b, s, n);
    forall t | 0 <= t < b
      ensures p[t] == s[n - b + t]
    {
      assert p[t] == p[j - b + t];
      assert p[j - b + t] == s[n - j + (j - b + t)];
    }
  }

  /** Of two suffix-matching prefixes, the shorter is a border of the longer. */
  lemma Inner(p: string, j: int, b: int, s: string, n: int)
    requires EndsWith(p, j, s, n) && EndsWith(p, b, s, n) && 0 <= b < j
    ensures Border(p, j, b)
  {
    EndsWithPointwise(p, j, s, n);
    EndsWithPointwise(p, b, s, n);
    EndsWithPointwise(p, b, p, j);
    forall t | 0 <= t < b
      ensures p[t] == p[j - b + t]
    {
      assert p[t] == s[n - b + t];
      assert p[j - b + t] == s[n - j + (j - b + t)];
    }
  }

  /** A suffix-matching prefix followed by a matching character grows by one. */
  lemma Extend(p: string, k: int, s: string, n: int)
    requires EndsWith(p, k, s, n) && k < |p| && n < |s| && p[k] == s[n]
    ensures EndsWith(p, k + 1, s, n + 1)
  {
  }

  /** A non-empty suffix-matching prefix ends with the text's last character. */
  lemma Shrink(p: string, k: int, s: string, n: int)
    requires EndsWith(p, k, s, n) && k > 0
    ensures EndsWith(p, k - 1, s, n - 1) && p[k - 1] == s[n - 1]
  {
  }

  /** The empty prefix matches everywhere. */
  lemma Empty(p: string, s: string, n: int)
    requires 0 <= n <= |s|
    ensures EndsWith(p, 0, s, n)
  {
  }

  /** Falling back from j to the longest border of pattern[..j] skips no
      suffix-matching prefix: any b with j' < b < j would be a longer border. */
  lemma FallBack(p: string, j: int, j': int, b: int, s: string, n: int)
    requires 0 < j && LongestBorderAt(p, j - 1, j')
    requires EndsWith(p, j, s, n) && j' < b < j
    ensures !EndsWith(p, b, s, n)
  {
    if EndsWith(p, b, s, n) {
      Inner(p, j, b, s, n);
    }
  }

  /** The fallback loop's exit: with every suffix-matching prefix longer than
      j ruled out for character c, the next matching length is j+1 on a match
      and 0 otherwise (j is then 0). This is the step of the prefix function
      and of the online matcher alike. */
  lemma Advance(p: string, j: int, bound: int, s: string, n: int)
    requires n < |s| && j < bound <= |p| && EndsWith(p, j, s, n)
    requires forall b :: j < b < bound && EndsWith(p, b, s, n) ==> p[b] != s[n]
    requires j == 0 || p[j] == s[n]
    ensures var v := if p[j] == s[n] then j + 1 else 0;
      EndsWith(p, v, s, n + 1) &&
      forall k {:trigger EndsWith(p, k, s, n + 1)} :: v < k <= bound ==> !EndsWith(p, k, s, n + 1)
  {
    var v := if p[j] == s[n] then j + 1 else 0;
    if p[j] == s[n] {
      Extend(p, j, s, n);
    } else {
      Empty(p, s, n + 1);
    }
    forall k {:trigger EndsWith(p, k, s, n + 1)} | v < k <= bound
      ensures !EndsWith(p, k, s, n + 1)
    {
      if EndsWith(p, k, s, n + 1) {
        Shrink(p, k, s, n + 1);
      }
    }
  }

  /** An occurrence at p puts the prefix of length i-p of the pattern at the
      end of text[..i], for every i inside or at the end of the occurrence. */
  lemma MatchEndsWith(text: string, pattern: string, p: int, i: int)
    requires MatchAt(text, pattern, p) && p <= i <= p + |pattern|
    ensures EndsWith(pattern, i - p, text, i)
  {
    EndsWithPointwise(pattern, i - p, text, i);
    forall t | 0 <= t < i - p
      ensures pattern[t] == text[i - (i - p) + t]
    {
      assert text[p..p + |pattern|][t] == pattern[t];
    }
  }

  /** A whole pattern at the end of text[..n] is an occurrence at n - |pattern|. */
  lemma EndsWithMatch(text: string, pattern: string, n: int)
    requires EndsWith(pattern, |pattern|, text, n)
    ensures MatchAt(text, pattern, n - |pattern|)
  {
    EndsWithPointwise(pattern, |pattern|, text, n);
    assert text[n - |pattern|..n] == pattern;
  }
}
