// The parts of Mo's algorithm shared by
// projects/16-mosAlgorithm/implementation/mosAlgorithm.java and
// projects/16-mosAlgorithm/programmingChallenge/solutions/PcSolJava.java:
// the queries, their order (by block of the left end, then by right end)
// and the window of positions [l, r] that the two pointers maintain.
module MoWindow {
  import opened Arith
  import opened Sorting

  /** A range query [l, r] and its position in the input. */
  datatype Query = Query(l: int, r: int, idx: int)

  /** The block of a left end: Java's l / blockSize, truncating toward
      zero. */
  function Block(l: int, blockSize: int): int
    requires blockSize > 0
  {
    JavaDiv(l, blockSize)
  }

  /** sortWithBlockSize: the difference of the blocks when they differ,
      else the difference of the right ends. */
  function CompareQueries(q1: Query, q2: Query, blockSize: int): int
    requires blockSize > 0
  {
    var b1 := Block(q1.l, blockSize);
    var b2 := Block(q2.l, blockSize);
    if b1 != b2 then b1 - b2 else q1.r - q2.r
  }

  /** The key that the comparator orders by. */
  function QueryKey(blockSize: int): Query -> (int, int)
    requires blockSize > 0
  {
    (q: Query) => (Block(q.l, blockSize), q.r)
  }

  /** The comparator is the lexicographic order on (block, right end): its
      sign says which key is smaller, it is zero exactly on equal keys, and
      swapping its arguments negates it. */
  lemma CompareIsKeyOrder(q1: Query, q2: Query, blockSize: int)
    requires blockSize > 0
    ensures CompareQueries(q1, q2, blockSize) <= 0 <==> KeyLeq(QueryKey(blockSize)(q1), QueryKey(blockSize)(q2))
    ensures CompareQueries(q1, q2, blockSize) == 0 <==> QueryKey(blockSize)(q1) == QueryKey(blockSize)(q2)
    ensures CompareQueries(q1, q2, blockSize) == -CompareQueries(q2, q1, blockSize)
  {
  }

  /** Collections.sort with sortWithBlockSize: a permutation of the queries
      in which no query compares above a later one. */
  function SortQueries(qs: seq<Query>, blockSize: int): (r: seq<Query>)
    requires blockSize > 0
    ensures multiset(r) == multiset(qs)
    ensures forall i, j :: 0 <= i < j < |r| ==> CompareQueries(r[i], r[j], blockSize) <= 0
  {
    var r := SortBy(qs, QueryKey(blockSize));
    forall i, j | 0 <= i < j < |r|
      ensures CompareQueries(r[i], r[j], blockSize) <= 0
    {
      CompareIsKeyOrder(r[i], r[j], blockSize);
    }
    r
  }

  /** The keys at positions l..r, with multiplicity; empty when r == l - 1. */
  ghost function Window<T>(keys: seq<T>, l: int, r: int): multiset<T>
    requires 0 <= l <= r + 1 <= |keys|
    decreases r - l
  {
    if r < l then multiset{} else Window(keys, l, r - 1) + multiset{keys[r]}
  }

  /** Moving the left pointer one to the left adds keys[l - 1]. */
  lemma {:induction false} GrowLeft<T>(keys: seq<T>, l: int, r: int)
    requires 1 <= l <= r + 1 <= |keys|
    ensures Window(keys, l - 1, r) == Window(keys, l, r) + multiset{keys[l - 1]}
    decreases r - l
  {
    if r >= l {
      GrowLeft(keys, l, r - 1);
    }
  }

  /** Moving the right pointer one to the right adds keys[r + 1]. */
  lemma GrowRight<T>(keys: seq<T>, l: int, r: int)
    requires 0 <= l <= r + 1 < |keys|
    ensures Window(keys, l, r + 1) == Window(keys, l, r) + multiset{keys[r + 1]}
  {
  }

  /** A window with keys[l - 1] added is the window from l - 1. */
  lemma ExtendLeft<T>(w: multiset<T>, w2: multiset<T>, keys: seq<T>, l: int, r: int)
    requires 1 <= l <= r + 1 <= |keys| && w == Window(keys, l, r)
    requires w2 == w + multiset{keys[l - 1]}
    ensures w2 == Window(keys, l - 1, r)
  {
    GrowLeft(keys, l, r);
  }

  /** A window with keys[r + 1] added is the window up to r + 1. */
  lemma ExtendRight<T>(w: multiset<T>, w2: multiset<T>, keys: seq<T>, l: int, r: int)
    requires 0 <= l <= r + 1 < |keys| && w == Window(keys, l, r)
    requires w2 == w + multiset{keys[r + 1]}
    ensures w2 == Window(keys, l, r + 1)
  {
  }

  /** A non-empty window is the window up to r - 1 plus keys[r]. */
  lemma RetractRight<T>(w: multiset<T>, rest: multiset<T>, keys: seq<T>, l: int, r: int)
    requires 0 <= l <= r < |keys| && w == Window(keys, l, r)
    requires rest == Window(keys, l, r - 1)
    ensures w == rest + multiset{keys[r]}
  {
  }

  /** The window is the multiset of the slice keys[l..r + 1]. */
  lemma {:induction false} WindowIsSlice<T>(keys: seq<T>, l: int, r: int)
    requires 0 <= l <= r + 1 <= |keys|
    ensures Window(keys, l, r) == multiset(keys[l..r + 1])
    decreases r - l
  {
    if r >= l {
      WindowIsSlice(keys, l, r - 1);
      assert keys[l..r + 1] == keys[l..r] + [keys[r]];
    }
  }

  /** A window holds r - l + 1 keys, none more often than that. */
  lemma WindowSize<T>(keys: seq<T>, l: int, r: int, x: T)
    requires 0 <= l <= r + 1 <= |keys|
    ensures |Window(keys, l, r)| == r - l + 1
    ensures Window(keys, l, r)[x] <= r - l + 1
  {
    WindowIsSlice(keys, l, r);
    MultiplicityBound(keys[l..r + 1], x);
  }

  lemma {:induction false} MultiplicityBound<T>(s: seq<T>, x: T)
    ensures multiset(s)[x] <= |s|
  {
    if |s| > 0 {
      MultiplicityBound(s[1..], x);
      assert s == [s[0]] + s[1..];
    }
  }

  /** A key is in the window exactly when some position l..r holds it. */
  lemma WindowMembers<T>(keys: seq<T>, l: int, r: int, x: T)
    requires 0 <= l <= r + 1 <= |keys|
    ensures x in Window(keys, l, r) <==> exists k :: l <= k <= r && keys[k] == x
  {
    WindowIsSlice(keys, l, r);
    if x in Window(keys, l, r) {
      assert x in keys[l..r + 1];
      var k :| 0 <= k < r + 1 - l && keys[l..r + 1][k] == x;
      assert keys[l + k] == x;
    }
    if exists k :: l <= k <= r && keys[k] == x {
      var k :| l <= k <= r && keys[k] == x;
      assert keys[l..r + 1][k - l] == x;
    }
  }
}
