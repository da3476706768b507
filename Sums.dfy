// Counting and summing over sequences, shared by the matching algorithms.
module Sums {

  /** The number of false entries. */
  function CountFalse(s: seq<bool>): (c: nat)
    ensures c <= |s|
  {
    if |s| == 0 then 0 else CountFalse(s[..|s| - 1]) + (if s[|s| - 1] then 0 else 1)
  }

  /** Overwriting one entry changes the count by the difference. */
  lemma {:induction false} CountFalseUpdate(s: seq<bool>, i: int, b: bool)
    requires 0 <= i < |s|
    ensures CountFalse(s[i := b]) == CountFalse(s) - (if s[i] then 0 else 1) + (if b then 0 else 1)
  {
    if i < |s| - 1 {
      assert s[i := b][..|s| - 1] == s[..|s| - 1][i := b];
      CountFalseUpdate(s[..|s| - 1], i, b);
    } else {
      assert s[i := b][..|s| - 1] == s[..|s| - 1];
    }
  }

  /** The sum of a sequence. */
  function Sum(s: seq<int>): int
  {
    if |s| == 0 then 0 else Sum(s[..|s| - 1]) + s[|s| - 1]
  }

  lemma {:induction false} SumUpdate(s: seq<int>, i: int, x: int)
    requires 0 <= i < |s|
    ensures Sum(s[i := x]) == Sum(s) - s[i] + x
  {
    if i < |s| - 1 {
      assert s[i := x][..|s| - 1] == s[..|s| - 1][i := x];
      SumUpdate(s[..|s| - 1], i, x);
    } else {
      assert s[i := x][..|s| - 1] == s[..|s| - 1];
    }
  }

  lemma {:induction false} SumNonNegative(s: seq<int>)
    requires forall i :: 0 <= i < |s| ==> s[i] >= 0
    ensures Sum(s) >= 0
  {
    if |s| > 0 {
      SumNonNegative(s[..|s| - 1]);
    }
  }
}
