// Knuth-Morris-Pratt search of projects/12-KnuthMorrisPratt/implementation/KMP.java:
// the prefix function (longest proper border of every prefix) is filled in
// an array, and the text is scanned once, falling back along borders.
module Kmp {
  import opened Outcomes
  import opened Matching

  /** The only failure: constructLps writes lps[0] into the empty array of
      an empty pattern (Java's ArrayIndexOutOfBoundsException). */
  datatype Failure = ArrayIndexOutOfBounds

  /** The loop of constructLps from index 1 on, shared with the online
      searcher of the mining challenge: lps[0] must already be 0. */
  method FillLps(pat: string, lps: array<int>)
    requires lps.Length == |pat| && (|pat| > 0 ==> lps[0] == 0)
    modifies lps
    ensures PrefixFunction(pat, lps[..], |pat|)
  {
    var i := 1;
    while i < |pat|
      invariant |pat| == 0 || (1 <= i <= |pat| && PrefixFunction(pat, lps[..], i))
    {
      var j := lps[i - 1];
      assert lps[..][i - 1] == j;
      forall b | j < b < i
        ensures !EndsWith(pat, b, pat, i)
      {
        assert !Border(pat, i, b);
      }
      while j > 0 && pat[i] != pat[j]
        invariant PrefixFunction(pat, lps[..], i)
        invariant 0 <= j < i && EndsWith(pat, j, pat, i)
        invariant forall b :: j < b < i && EndsWith(pat, b, pat, i) ==> pat[b] != pat[i]
        decreases j
      {
        var j' := lps[j - 1];
        assert lps[..][j - 1] == j';
        Chain(pat, j, j', pat, i);
        forall b | j' < b < j
          ensures !EndsWith(pat, b, pat, i)
        {
          FallBack(pat, j, j', b, pat, i);
        }
        j := j';
      }
      Advance(pat, j, i, pat, i);
      if pat[i] == pat[j] {
        j := j + 1;
      }
      assert LongestBorderAt(pat, i, j);
      ghost var before := lps[..];
      lps[i] := j;
      assert forall k :: 0 <= k < i ==> lps[..][k] == before[k];
      i := i + 1;
    }
  }

  /** constructLps: fails on the empty pattern, and otherwise leaves in lps[i]
      the length of the longest proper border of pat[..i+1]. */
  method ConstructLps(pat: string, lps: array<int>) returns (r: Result<(), Failure>)
    requires lps.Length == |pat|
    modifies lps
    ensures r.Err? <==> |pat| == 0
    ensures r.Ok? ==> PrefixFunction(pat, lps[..], |pat|)
  {
    if |pat| == 0 {
      return Err(ArrayIndexOutOfBounds);
    }
    lps[0] := 0;
    FillLps(pat, lps);
    return Ok(());
  }

  /** The prefix function bounds: lps[0] == 0 and lps[i] <= i. */
  lemma PrefixFunctionBounds(pat: string, lps: seq<int>)
    requires PrefixFunction(pat, lps, |pat|)
    ensures |pat| > 0 ==> lps[0] == 0
    ensures forall i :: 0 <= i < |pat| ==> 0 <= lps[i] <= i
  {
    if |pat| > 0 {
      assert LongestBorderAt(pat, 0, lps[0]);
    }
    forall i | 0 <= i < |pat|
      ensures 0 <= lps[i] <= i
    {
      assert LongestBorderAt(pat, i, lps[i]);
    }
  }

  /** Falling back from j to lps[j-1] skips no occurrence: one starting
      strictly between i-j and i-lps[j-1] would give pat[..j] a longer border. */
  lemma NoMatchBetween(pat: string, txt: string, i: int, j: int, j': int, p: int)
    requires 0 < j <= |pat| && EndsWith(pat, j, txt, i)
    requires LongestBorderAt(pat, j - 1, j') && i - j < p < i - j'
    ensures !MatchAt(txt, pat, p)
  {
    if MatchAt(txt, pat, p) {
      MatchEndsWith(txt, pat, p, i);
      FallBack(pat, j, j', i - p, txt, i);
    }
  }

  /** The invariant of the scan in search: pat[..j] ends txt[..i], and res
      holds in increasing order exactly the occurrences starting before i - j. */
  ghost predicate Scanned(pat: string, txt: string, i: int, j: int, res: seq<int>)
  {
    0 <= j < |pat| && j <= i <= |txt| && EndsWith(pat, j, txt, i) && StrictlyIncreasing(res) &&
    (forall k :: 0 <= k < |res| ==> MatchAt(txt, pat, res[k]) && res[k] < i - j) &&
    forall p :: p < i - j && MatchAt(txt, pat, p) ==> p in res
  }

  /** A text character equal to pat[j] extends the partial match; a whole
      match is reported and the scan falls back to lps[j]. */
  lemma ScanMatch(pat: string, txt: string, lps: seq<int>, i: int, j: int, res: seq<int>)
    requires PrefixFunction(pat, lps, |pat|) && Scanned(pat, txt, i, j, res)
    requires i < |txt| && txt[i] == pat[j]
    ensures j + 1 < |pat| ==> Scanned(pat, txt, i + 1, j + 1, res)
    ensures j + 1 == |pat| ==> Scanned(pat, txt, i + 1, lps[j], res + [i + 1 - |pat|])
  {
    Extend(pat, j, txt, i);
    if j + 1 == |pat| {
      ScanComplete(pat, txt, lps, i + 1, res);
    }
  }

  /** A whole match ending at i is reported, and falling back to
      lps[|pat|-1] loses no occurrence. */
  lemma ScanComplete(pat: string, txt: string, lps: seq<int>, i: int, res: seq<int>)
    requires PrefixFunction(pat, lps, |pat|) && 0 < |pat| <= i <= |txt|
    requires EndsWith(pat, |pat|, txt, i) && StrictlyIncreasing(res)
    requires forall k :: 0 <= k < |res| ==> MatchAt(txt, pat, res[k]) && res[k] < i - |pat|
    requires forall p :: p < i - |pat| && MatchAt(txt, pat, p) ==> p in res
    ensures Scanned(pat, txt, i, lps[|pat| - 1], res + [i - |pat|])
  {
    var m := |pat|;
    EndsWithMatch(txt, pat, i);
    var res' := res + [i - m];
    var j' := lps[m - 1];
    assert LongestBorderAt(pat, m - 1, j');
    Chain(pat, m, j', txt, i);
    forall p | i - m < p < i - j'
      ensures !MatchAt(txt, pat, p)
    {
      NoMatchBetween(pat, txt, i, m, j', p);
    }
    forall k | 0 <= k < |res'|
      ensures MatchAt(txt, pat, res'[k]) && res'[k] < i - j'
    {
      if k < |res| {
        assert res'[k] == res[k];
      }
    }
  }

  /** An occurrence at p gives pat[0..i-p+1] ending txt[..i+1], so pat[i-p]
      equals txt[i]. */
  lemma MatchChar(txt: string, pat: string, p: int, i: int)
    requires MatchAt(txt, pat, p) && p <= i < p + |pat|
    ensures pat[i - p] == txt[i]
  {
    MatchEndsWith(txt, pat, p, i + 1);
    Shrink(pat, i + 1 - p, txt, i + 1);
  }

  /** A mismatch with j > 0 falls back to lps[j-1] without losing an
      occurrence. */
  lemma ScanMismatch(pat: string, txt: string, lps: seq<int>, i: int, j: int, res: seq<int>)
    requires PrefixFunction(pat, lps, |pat|) && Scanned(pat, txt, i, j, res)
    requires i < |txt| && txt[i] != pat[j] && j > 0
    ensures lps[j - 1] < j && Scanned(pat, txt, i, lps[j - 1], res)
  {
    var j' := lps[j - 1];
    assert LongestBorderAt(pat, j - 1, j');
    Chain(pat, j, j', txt, i);
    if MatchAt(txt, pat, i - j) {
      MatchChar(txt, pat, i - j, i);
    }
    forall p | i - j < p < i - j'
      ensures !MatchAt(txt, pat, p)
    {
      NoMatchBetween(pat, txt, i, j, j', p);
    }
  }

  /** A mismatch with j == 0 moves past txt[i]. */
  lemma ScanSkip(pat: string, txt: string, i: int, res: seq<int>)
    requires Scanned(pat, txt, i, 0, res) && i < |txt| && txt[i] != pat[0]
    ensures Scanned(pat, txt, i + 1, 0, res)
  {
    if MatchAt(txt, pat, i) {
      MatchChar(txt, pat, i, i);
    }
    Empty(pat, txt, i + 1);
  }

  /** At the end of the text every occurrence has been reported. */
  lemma ScanDone(pat: string, txt: string, i: int, j: int, res: seq<int>)
    requires Scanned(pat, txt, i, j, res) && i >= |txt|
    ensures forall p :: MatchAt(txt, pat, p) ==> p in res
  {
  }

  /** search: fails on the empty pattern; otherwise returns, in increasing
      order, exactly the indices at which pat occurs in txt. */
  method Search(pat: string, txt: string) returns (r: Result<seq<int>, Failure>)
    ensures r.Err? <==> |pat| == 0
    ensures r.Ok? ==> StrictlyIncreasing(r.value)
    ensures r.Ok? ==> forall k :: 0 <= k < |r.value| ==> MatchAt(txt, pat, r.value[k])
    ensures r.Ok? ==> forall p :: MatchAt(txt, pat, p) ==> p in r.value
  {
    var m := |pat|;
    var n := |txt|;
    var lps := new int[m];
    var built := ConstructLps(pat, lps);
    if built.Err? {
      return Err(built.error);
    }
    ghost var table := lps[..];
    var res: seq<int> := [];
    var i, j := 0, 0;
    Empty(pat, txt, 0);
    while i < n
      invariant lps[..] == table
      invariant Scanned(pat, txt, i, j, res)
      decreases n - i, j
    {
      if txt[i] == pat[j] {
        ScanMatch(pat, txt, table, i, j, res);
        i := i + 1;
        j := j + 1;
        if j == m {
          res := res + [i - j];
          assert table[j - 1] == lps[j - 1];
          j := lps[j - 1];
        }
      } else if j != 0 {
        ScanMismatch(pat, txt, table, i, j, res);
        assert table[j - 1] == lps[j - 1];
        j := lps[j - 1];
      } else {
        ScanSkip(pat, txt, i, res);
        i := i + 1;
      }
    }
    ScanDone(pat, txt, i, j, res);
    return Ok(res);
  }
}
