// The string order of Java's String.compareTo, and the sort of an array of
// strings (Arrays.sort) that the Burrows-Wheeler transform relies on.
module Lexicographic {

  /** a comes strictly before b: at the first position where they differ the
      smaller character wins, and a proper prefix comes before the longer
      string. */
  predicate Less(a: string, b: string)
  {
    if |a| == 0 then |b| > 0
    else |b| > 0 && (a[0] < b[0] || (a[0] == b[0] && Less(a[1..], b[1..])))
  }

  lemma {:induction false} LessIrreflexive(a: string)
    ensures !Less(a, a)
  {
    if |a| > 0 {
      LessIrreflexive(a[1..]);
    }
  }

  lemma {:induction false} LessTransitive(a: string, b: string, c: string)
    requires Less(a, b) && Less(b, c)
    ensures Less(a, c)
  {
    if |a| > 0 && a[0] == b[0] && b[0] == c[0] {
      LessTransitive(a[1..], b[1..], c[1..]);
    }
  }

  /** Any two strings are equal or ordered one way or the other. */
  lemma {:induction false} LessTotal(a: string, b: string)
    ensures a == b || Less(a, b) || Less(b, a)
  {
    if |a| > 0 && |b| > 0 && a[0] == b[0] {
      LessTotal(a[1..], b[1..]);
      if a[1..] == b[1..] {
        assert a == [a[0]] + a[1..] && b == [b[0]] + b[1..];
      }
    }
  }

  lemma LessAsymmetric(a: string, b: string)
    requires Less(a, b)
    ensures !Less(b, a) && a != b
  {
    LessIrreflexive(a);
    if Less(b, a) {
      LessTransitive(a, b, a);
    }
  }

  /** A common first character does not decide the order. */
  lemma LessCons(c: char, x: string, y: string)
    ensures Less([c] + x, [c] + y) <==> Less(x, y)
  {
    assert ([c] + x)[1..] == x && ([c] + y)[1..] == y;
  }

  /** Between strings of one length, a common last character does not
      decide the order either. */
  lemma {:induction false} LessSnoc(x: string, y: string, c: char)
    requires |x| == |y|
    ensures Less(x + [c], y + [c]) <==> Less(x, y)
  {
    if |x| == 0 {
      assert x + [c] == y + [c];
      LessIrreflexive(x + [c]);
    } else {
      assert (x + [c])[1..] == x[1..] + [c] && (y + [c])[1..] == y[1..] + [c];
      LessSnoc(x[1..], y[1..], c);
    }
  }

  /** Non-decreasing under Less. */
  predicate Sorted(s: seq<string>)
  {
    forall i, j :: 0 <= i < j < |s| ==> !Less(s[j], s[i])
  }

  /** Strictly increasing under Less. */
  predicate Increasing(s: seq<string>)
  {
    forall i, j :: 0 <= i < j < |s| ==> Less(s[i], s[j])
  }

  /** No string occurs twice. */
  predicate Distinct(s: seq<string>)
  {
    forall i, j :: 0 <= i < j < |s| ==> s[i] != s[j]
  }

  /** Inserts x before the first element that is not below it. */
  function Insert(x: string, s: seq<string>): (r: seq<string>)
    ensures |r| == |s| + 1 && multiset(r) == multiset(s) + multiset{x}
  {
    if |s| == 0 then [x]
    else if Less(s[0], x) then
      assert s == [s[0]] + s[1..];
      [s[0]] + Insert(x, s[1..])
    else [x] + s
  }

  /** Insertion sort: the arrangement that any sort for this total order
      produces, since a sorted permutation of a sequence of strings is
      unique. */
  function Sort(s: seq<string>): (r: seq<string>)
    ensures |r| == |s| && multiset(r) == multiset(s)
  {
    if |s| == 0 then []
    else
      assert s == [s[0]] + s[1..];
      Insert(s[0], Sort(s[1..]))
  }

  lemma {:induction false} InsertSorted(x: string, s: seq<string>)
    requires Sorted(s)
    ensures Sorted(Insert(x, s))
  {
    var r := Insert(x, s);
    if |s| > 0 {
      if Less(s[0], x) {
        InsertSorted(x, s[1..]);
        var tail := Insert(x, s[1..]);
        forall k | 0 <= k < |tail|
          ensures !Less(tail[k], s[0])
        {
          assert tail[k] in multiset(tail);
          if tail[k] == x {
            LessAsymmetric(s[0], x);
          } else {
            assert tail[k] in s[1..];
          }
        }
      } else {
        forall j | 0 <= j < |s|
          ensures !Less(s[j], x)
        {
          if Less(s[j], x) {
            LessTotal(s[0], s[j]);
            if s[0] != s[j] {
              LessTransitive(s[0], s[j], x);
            }
          }
        }
      }
    }
  }

  lemma {:induction false} SortSorted(s: seq<string>)
    ensures Sorted(Sort(s))
  {
    if |s| > 0 {
      SortSorted(s[1..]);
      InsertSorted(s[0], Sort(s[1..]));
    }
  }

  lemma {:induction false} InsertIncreasing(x: string, s: seq<string>)
    requires Increasing(s) && x !in s
    ensures Increasing(Insert(x, s))
  {
    if |s| > 0 {
      if Less(s[0], x) {
        InsertIncreasing(x, s[1..]);
        var tail := Insert(x, s[1..]);
        forall k | 0 <= k < |tail|
          ensures Less(s[0], tail[k])
        {
          assert tail[k] in multiset(tail);
          if tail[k] != x {
            assert tail[k] in s[1..];
          }
        }
      } else {
        forall j | 0 <= j < |s|
          ensures Less(x, s[j])
        {
          LessTotal(x, s[0]);
          if j > 0 {
            LessTransitive(x, s[0], s[j]);
          }
        }
      }
    }
  }

  /** Sorting strings that are pairwise distinct gives a strictly increasing
      sequence. */
  lemma {:induction false} SortIncreasing(s: seq<string>)
    requires Distinct(s)
    ensures Increasing(Sort(s))
  {
    if |s| > 0 {
      SortIncreasing(s[1..]);
      assert s[0] !in multiset(s[1..]);
      InsertIncreasing(s[0], Sort(s[1..]));
    }
  }
}
