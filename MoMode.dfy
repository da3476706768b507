// Mo's algorithm answering range-mode queries, from
// projects/16-mosAlgorithm/implementation/mosAlgorithm.java: the queries are
// sorted by block of their left end, then by right end, and a window
// [l, r] moved one position at a time keeps, for every frequency, the set
// of values occurring that often.
module MoMode {
  import opened MoWindow

  /** A LinkedHashSet: its elements in insertion order, each once. */
  predicate NoDup(s: seq<int>)
  {
    forall i, j :: 0 <= i < j < |s| ==> s[i] != s[j]
  }

  /** LinkedHashSet.remove: every element but x. The others keep their
      order. */
  function Without(s: seq<int>, x: int): (r: seq<int>)
    ensures forall v :: v in r <==> v in s && v != x
    ensures NoDup(s) ==> NoDup(r)
  {
    if |s| == 0 then []
    else if s[0] == x then Without(s[1..], x)
    else
      var t := Without(s[1..], x);
      assert NoDup(s) ==> s[0] !in s[1..] && NoDup(s[1..]);
      assert NoDup(s) ==> NoDup([s[0]] + t) by {
        if NoDup(s) {
          NoDupCons(s[0], t);
        }
      }
      [s[0]] + t
  }

  lemma NoDupCons(x: int, t: seq<int>)
    requires x !in t && NoDup(t)
    ensures NoDup([x] + t)
  {
    forall i, j | 0 <= i < j < |t| + 1
      ensures ([x] + t)[i] != ([x] + t)[j]
    {
      if i > 0 {
        assert ([x] + t)[i] == t[i - 1];
      }
      assert ([x] + t)[j] == t[j - 1];
    }
  }

  /** LinkedHashSet.add: x is appended unless already present. */
  function With(s: seq<int>, x: int): (r: seq<int>)
    ensures forall v :: v in r <==> v in s || v == x
    ensures NoDup(s) ==> NoDup(r)
    ensures |r| >= |s| && (|s| > 0 ==> r[0] == s[0])
  {
    if x in s then s else s + [x]
  }

  /** v is a mode of w occurring f times: no value occurs more often. */
  ghost predicate IsMode(w: multiset<int>, v: int, f: int)
  {
    w[v] == f && forall u :: w[u] <= f
  }

  /** Bucket f holds exactly the values occurring f + 1 times. */
  ghost predicate BucketsExact(buckets: seq<seq<int>>, contents: multiset<int>)
  {
    forall f, v :: 0 <= f < |buckets| ==> (v in buckets[f] <==> contents[v] == f + 1)
  }

  /** The buckets after a value occurring `from` times comes to occur `to`
      times: out of bucket from - 1, into bucket to - 1 (frequency 0 has no
      bucket). */
  function Shift(B: seq<seq<int>>, from: int, to: int, val: int): (r: seq<seq<int>>)
    requires from - 1 < |B| && to - 1 < |B|
    ensures |r| == |B|
  {
    var B1 := if from - 1 < 0 then B else B[from - 1 := Without(B[from - 1], val)];
    if to - 1 < 0 then B1 else B1[to - 1 := With(B1[to - 1], val)]
  }

  ghost predicate AllNoDup(B: seq<seq<int>>)
  {
    forall f :: 0 <= f < |B| ==> NoDup(B[f])
  }

  /** Moving a value between buckets keeps every bucket free of repeats. */
  lemma ShiftNoDup(B: seq<seq<int>>, from: int, to: int, val: int)
    requires from - 1 < |B| && to - 1 < |B| && AllNoDup(B)
    ensures AllNoDup(Shift(B, from, to, val))
  {
  }

  /** Adding one occurrence of val moves it from bucket c[val] - 1 to
      bucket c[val], and the buckets stay exact. */
  lemma ShiftAdd(B: seq<seq<int>>, c: multiset<int>, val: int)
    requires BucketsExact(B, c) && c[val] < |B|
    ensures BucketsExact(Shift(B, c[val], c[val] + 1, val), c + multiset{val})
  {
    var B2, c2 := Shift(B, c[val], c[val] + 1, val), c + multiset{val};
    forall f, v | 0 <= f < |B2|
      ensures v in B2[f] <==> c2[v] == f + 1
    {
      if v != val {
        ShiftOthers(B, c[val], c[val] + 1, val, f, v);
      }
    }
  }

  /** Removing one occurrence of val moves it down one bucket, and the
      buckets stay exact. */
  lemma ShiftRemove(B: seq<seq<int>>, c: multiset<int>, val: int)
    requires BucketsExact(B, c) && val in c && c[val] <= |B|
    ensures BucketsExact(Shift(B, c[val], c[val] - 1, val), c - multiset{val})
  {
    var B2, c2 := Shift(B, c[val], c[val] - 1, val), c - multiset{val};
    forall f, v | 0 <= f < |B2|
      ensures v in B2[f] <==> c2[v] == f + 1
    {
      if v != val {
        ShiftOthers(B, c[val], c[val] - 1, val, f, v);
      }
    }
  }

  /** When remove empties the mode's bucket, the mode frequency drops by
      one and is still the largest, with val in its bucket. */
  lemma RemoveModeDrops(B: seq<seq<int>>, c: multiset<int>, val: int, mode: int)
    requires BucketsExact(B, c) && val in c && c[val] <= |B| && 0 <= mode <= |B|
    requires forall v :: c[v] <= mode
    requires c[val] == mode && |Without(B[c[val] - 1], val)| == 0
    ensures forall v :: (c - multiset{val})[v] <= mode - 1
    ensures mode - 1 > 0 ==> |Shift(B, c[val], c[val] - 1, val)[mode - 2]| > 0
  {
    forall v | v != val
      ensures c[v] < mode
    {
      assert v !in Without(B[mode - 1], val);
      assert v !in B[mode - 1];
    }
    if mode - 1 > 0 {
      assert val in Shift(B, c[val], c[val] - 1, val)[mode - 2];
    }
  }

  /** Otherwise the mode frequency stays, and its bucket keeps a value. */
  lemma RemoveModeStays(B: seq<seq<int>>, c: multiset<int>, val: int, mode: int)
    requires BucketsExact(B, c) && val in c && c[val] <= |B| && 0 < mode <= |B|
    requires |B[mode - 1]| > 0
    requires !(c[val] == mode && |Without(B[c[val] - 1], val)| == 0)
    ensures |Shift(B, c[val], c[val] - 1, val)[mode - 1]| > 0
  {
    var w := B[mode - 1][0];
    if w == val {
      assert B[c[val] - 1] == B[mode - 1];
      w := Without(B[mode - 1], val)[0];
    }
    ShiftOthers(B, c[val], c[val] - 1, val, mode - 1, w);
    assert w in Shift(B, c[val], c[val] - 1, val)[mode - 1];
  }

  /** Moving val between buckets leaves every other value where it was. */
  lemma ShiftOthers(B: seq<seq<int>>, from: int, to: int, val: int, f: int, v: int)
    requires from - 1 < |B| && to - 1 < |B| && 0 <= f < |B| && v != val
    ensures v in Shift(B, from, to, val)[f] <==> v in B[f]
  {
  }

  /** The values of s appear in the order they entered: `since` gives the
      step at which each entered, and every such step is before `clock`. */
  ghost predicate Arrived(s: seq<int>, since: map<int, nat>, clock: nat)
  {
    (forall i :: 0 <= i < |s| ==> s[i] in since && since[s[i]] < clock) &&
    (forall i, j :: 0 <= i < j < |s| ==> s[i] in since && s[j] in since && since[s[i]] < since[s[j]])
  }

  /** Each bucket lists its values in the order they entered it. */
  ghost predicate ByArrival(B: seq<seq<int>>, since: map<int, nat>, clock: nat)
  {
    forall f :: 0 <= f < |B| ==> Arrived(B[f], since, clock)
  }

  /** LinkedHashSet.remove keeps the order of the others. */
  lemma {:induction false} ArrivedWithout(s: seq<int>, x: int, since: map<int, nat>, clock: nat)
    requires Arrived(s, since, clock)
    ensures Arrived(Without(s, x), since, clock)
    decreases |s|
  {
    if |s| > 0 {
      assert Arrived(s[1..], since, clock) by {
        forall i, j | 0 <= i < j < |s| - 1
          ensures s[1..][i] in since && s[1..][j] in since && since[s[1..][i]] < since[s[1..][j]]
        {
          assert s[1..][i] == s[i + 1] && s[1..][j] == s[j + 1];
        }
      }
      ArrivedWithout(s[1..], x, since, clock);
      if s[0] != x {
        var t := Without(s[1..], x);
        forall j | 0 <= j < |t|
          ensures since[s[0]] < since[t[j]]
        {
          assert t[j] in s[1..];
          var k :| 0 <= k < |s[1..]| && s[1..][k] == t[j];
          assert s[k + 1] == t[j];
        }
        var r := [s[0]] + t;
        assert Without(s, x) == r;
        forall i, j | 0 <= i < j < |r|
          ensures r[i] in since && r[j] in since && since[r[i]] < since[r[j]]
        {
          assert r[j] == t[j - 1];
          if i > 0 {
            assert r[i] == t[i - 1];
          }
        }
      }
    }
  }

  /** A value absent from s may enter it now, as its last element. */
  lemma ArrivedWith(s: seq<int>, val: int, since: map<int, nat>, clock: nat)
    requires Arrived(s, since, clock) && val !in s
    ensures Arrived(With(s, val), since[val := clock], clock + 1)
  {
    var since' := since[val := clock];
    assert Arrived(s, since', clock + 1) by {
      forall i | 0 <= i < |s|
        ensures s[i] != val
      {
      }
    }
    var r := s + [val];
    assert With(s, val) == r;
    forall i, j | 0 <= i < j < |r|
      ensures r[i] in since' && r[j] in since' && since'[r[i]] < since'[r[j]]
    {
      assert r[i] == s[i];
      if j < |s| {
        assert r[j] == s[j];
      }
    }
  }

  /** A value absent from s may be stamped anew without disturbing s. */
  lemma ArrivedRestamp(s: seq<int>, val: int, since: map<int, nat>, clock: nat)
    requires Arrived(s, since, clock) && val !in s
    ensures Arrived(s, since[val := clock], clock + 1)
  {
    forall i | 0 <= i < |s|
      ensures s[i] != val
    {
    }
  }

  /** Moving val out of bucket from - 1 and into bucket to - 1, stamped with
      the current step, keeps every bucket in arrival order. */
  lemma ShiftArrival(B: seq<seq<int>>, from: int, to: int, val: int, since: map<int, nat>, clock: nat)
    requires from - 1 < |B| && to - 1 < |B| && from != to && ByArrival(B, since, clock)
    requires forall f :: 0 <= f < |B| && f != from - 1 ==> val !in B[f]
    ensures ByArrival(Shift(B, from, to, val), since[val := clock], clock + 1)
  {
    var B1 := if from - 1 < 0 then B else B[from - 1 := Without(B[from - 1], val)];
    var since' := since[val := clock];
    if from - 1 >= 0 {
      ArrivedWithout(B[from - 1], val, since, clock);
    }
    forall f | 0 <= f < |B|
      ensures Arrived(B1[f], since, clock) && val !in B1[f]
    {
    }
    var B2 := Shift(B, from, to, val);
    forall f | 0 <= f < |B|
      ensures Arrived(B2[f], since', clock + 1)
    {
      if f == to - 1 {
        ArrivedWith(B1[f], val, since, clock);
      } else {
        ArrivedRestamp(B1[f], val, since, clock);
      }
    }
  }

  /** The first value of a bucket entered it first. */
  lemma EarliestFirst(s: seq<int>, since: map<int, nat>, clock: nat)
    requires Arrived(s, since, clock) && |s| > 0
    ensures s[0] in since && forall u :: u in s ==> u in since && since[s[0]] <= since[u]
  {
    forall u | u in s
      ensures u in since && since[s[0]] <= since[u]
    {
      var j :| 0 <= j < |s| && s[j] == u;
      if j > 0 {
        assert since[s[0]] < since[s[j]];
      }
    }
  }

  /** By exactness, a value sits in no bucket but the one of its frequency. */
  lemma OwnBucketOnly(B: seq<seq<int>>, c: multiset<int>, val: int)
    requires BucketsExact(B, c)
    ensures forall f: int :: 0 <= f < |B| && f != c[val] as int - 1 ==> val !in B[f]
  {
  }

  /** frequencies.getOrDefault(v, 0) */
  function FreqOf(freqs: map<int, int>, v: int): int
  {
    if v in freqs then freqs[v] else 0
  }

  /** The state of a ModeData over n positions holding the values c: the
      frequency map counts c, bucket f holds exactly the values occurring
      f + 1 times, each once, and mode is the largest frequency, with a
      non-empty bucket when it is positive. */
  ghost predicate Consistent(n: int, freqs: map<int, int>, B: seq<seq<int>>, mode: int, c: multiset<int>)
  {
    |B| == n
    && (forall v :: FreqOf(freqs, v) == c[v])
    && (forall v :: c[v] <= n)
    && BucketsExact(B, c)
    && AllNoDup(B)
    && 0 <= mode <= n
    && (forall v :: c[v] <= mode)
    && (mode > 0 ==> |B[mode - 1]| > 0)
  }

  /** add's update keeps the state consistent. */
  lemma AddStep(n: int, freqs: map<int, int>, B: seq<seq<int>>, mode: int, c: multiset<int>, val: int)
    requires Consistent(n, freqs, B, mode, c) && c[val] < n
    ensures Consistent(n, freqs[val := c[val] + 1], Shift(B, c[val], c[val] + 1, val),
                       if c[val] + 1 > mode then c[val] + 1 else mode, c + multiset{val})
  {
    ShiftAdd(B, c, val);
    ShiftNoDup(B, c[val], c[val] + 1, val);
    assert val in Shift(B, c[val], c[val] + 1, val)[c[val]];
  }

  /** remove's new mode frequency: one less when the value removed from
      bucket from - 1 was the mode's last. */
  function RemovedMode(B: seq<seq<int>>, from: int, mode: int, val: int): int
    requires 0 <= from - 1 < |B|
  {
    if from == mode && |Without(B[from - 1], val)| == 0 then mode - 1 else mode
  }

  /** remove's update keeps the state consistent. */
  lemma RemoveStep(n: int, freqs: map<int, int>, B: seq<seq<int>>, mode: int, c: multiset<int>, val: int)
    requires Consistent(n, freqs, B, mode, c) && val in c
    ensures Consistent(n, freqs[val := c[val] - 1], Shift(B, c[val], c[val] - 1, val),
                       RemovedMode(B, c[val], mode, val), c - multiset{val})
  {
    ShiftRemove(B, c, val);
    ShiftNoDup(B, c[val], c[val] - 1, val);
    if c[val] == mode && |Without(B[c[val] - 1], val)| == 0 {
      RemoveModeDrops(B, c, val, mode);
    } else if mode > 0 {
      RemoveModeStays(B, c, val, mode);
    }
  }

  class ModeData {
    const arr: seq<int>
    var frequencies: map<int, int>
    var buckets: seq<seq<int>>
    var modeFreq: int
    /** The values of the positions added and not removed. */
    ghost var contents: multiset<int>
    /** The step at which each value entered its current bucket, and the
        number of steps so far. */
    ghost var since: map<int, nat>
    ghost var clock: nat

    ghost predicate Valid()
      reads this
    {
      Consistent(|arr|, frequencies, buckets, modeFreq, contents)
      && ByArrival(buckets, since, clock)
    }

    constructor (arr: seq<int>)
      ensures this.arr == arr
    {
      this.arr := arr;
    }

    /** init: no frequencies, one empty bucket per position, mode
        frequency zero. */
    method Init()
      modifies this
      ensures Valid() && contents == multiset{}
    {
      buckets := [];
      for i := 0 to |arr|
        invariant |buckets| == i && forall f :: 0 <= f < i ==> buckets[f] == []
      {
        buckets := buckets + [[]];
      }
      frequencies := map[];
      modeFreq := 0;
      contents := multiset{};
      since := map[];
      clock := 0;
    }

    /** addToBucket; frequency 0 has no bucket. */
    method AddToBucket(freq: int, item: int)
      requires freq - 1 < |buckets|
      modifies this
      ensures buckets == if freq - 1 < 0 then old(buckets) else old(buckets)[freq - 1 := With(old(buckets)[freq - 1], item)]
      ensures frequencies == old(frequencies) && modeFreq == old(modeFreq) && contents == old(contents)
      ensures since == old(since) && clock == old(clock)
    {
      if freq - 1 < 0 {
        return;
      }
      buckets := buckets[freq - 1 := With(buckets[freq - 1], item)];
    }

    /** removeFromBucket; frequency 0 has no bucket. */
    method RemoveFromBucket(freq: int, item: int)
      requires freq - 1 < |buckets|
      modifies this
      ensures buckets == if freq - 1 < 0 then old(buckets) else old(buckets)[freq - 1 := Without(old(buckets)[freq - 1], item)]
      ensures frequencies == old(frequencies) && modeFreq == old(modeFreq) && contents == old(contents)
      ensures since == old(since) && clock == old(clock)
    {
      if freq - 1 < 0 {
        return;
      }
      buckets := buckets[freq - 1 := Without(buckets[freq - 1], item)];
    }

    /** add: the value at idx moves up one bucket, and becomes the mode when
        its frequency passes the mode's. The bucket it moves to must exist,
        so the value may not already occur |arr| times. */
    method Add(idx: int)
      requires Valid() && 0 <= idx < |arr| && contents[arr[idx]] < |arr|
      modifies this
      ensures Valid() && contents == old(contents) + multiset{arr[idx]}
    {
      var val := arr[idx];
      ghost var B, C := buckets, contents;
      OwnBucketOnly(B, C, val);
      AddCount(val);
      Stamp(val, B, C[val], C[val] + 1);
    }

    /** The body of add on the frequency map, the buckets and the mode. */
    method AddCount(val: int)
      requires Consistent(|arr|, frequencies, buckets, modeFreq, contents) && contents[val] < |arr|
      modifies this
      ensures Consistent(|arr|, frequencies, buckets, modeFreq, contents)
      ensures contents == old(contents) + multiset{val}
      ensures buckets == Shift(old(buckets), old(contents)[val], old(contents)[val] + 1, val)
      ensures since == old(since) && clock == old(clock)
    {
      var oldF := FreqOf(frequencies, val);
      ghost var F, B, M, C := frequencies, buckets, modeFreq, contents;
      assert oldF == C[val];
      RemoveFromBucket(oldF, val);
      var newF := oldF + 1;
      frequencies := frequencies[val := newF];
      assert frequencies == F[val := C[val] + 1];
      AddToBucket(newF, val);
      if newF > modeFreq {
        modeFreq := newF;
      }
      assert modeFreq == if C[val] + 1 > M then C[val] + 1 else M;
      contents := contents + multiset{val};
      AddStep(|arr|, F, B, M, C, val);
      assert buckets == Shift(B, C[val], C[val] + 1, val);
    }

    /** remove: the value at idx moves down one bucket; when it was the
        last value of the mode's bucket, the mode frequency drops by one.
        The value must be present: the window is rest plus that value, and
        rest is what remains. */
    method Remove(idx: int, ghost rest: multiset<int>)
      requires Valid() && 0 <= idx < |arr| && contents == rest + multiset{arr[idx]}
      modifies this
      ensures Valid() && contents == rest
    {
      var val := arr[idx];
      ghost var B, C := buckets, contents;
      assert val in C;
      OwnBucketOnly(B, C, val);
      RemoveCount(val);
      Stamp(val, B, C[val], C[val] - 1);
      assert contents == (rest + multiset{val}) - multiset{val};
    }

    /** The body of remove on the frequency map, the buckets and the mode. */
    method RemoveCount(val: int)
      requires Consistent(|arr|, frequencies, buckets, modeFreq, contents) && val in contents
      modifies this
      ensures Consistent(|arr|, frequencies, buckets, modeFreq, contents)
      ensures contents == old(contents) - multiset{val}
      ensures buckets == Shift(old(buckets), old(contents)[val], old(contents)[val] - 1, val)
      ensures since == old(since) && clock == old(clock)
    {
      var oldF := FreqOf(frequencies, val);
      ghost var F, B, M, C := frequencies, buckets, modeFreq, contents;
      assert oldF == C[val] && 1 <= oldF <= |B|;
      RemoveStep(|arr|, F, B, M, C, val);
      RemoveFromBucket(oldF, val);
      assert buckets == B[oldF - 1 := Without(B[oldF - 1], val)];
      if oldF == modeFreq && |buckets[oldF - 1]| == 0 {
        modeFreq := modeFreq - 1;
      }
      assert modeFreq == RemovedMode(B, C[val], M, val);
      var newF := oldF - 1;
      frequencies := frequencies[val := newF];
      AddToBucket(newF, val);
      assert buckets == Shift(B, C[val], C[val] - 1, val);
      contents := contents - multiset{val};
    }

    /** Records that val entered its new bucket now: the ghost arrival
        order the buckets keep. */
    ghost method Stamp(val: int, B: seq<seq<int>>, from: int, to: int)
      requires from - 1 < |B| && to - 1 < |B| && from != to && ByArrival(B, since, clock)
      requires forall f: int :: 0 <= f < |B| && f != from - 1 ==> val !in B[f]
      requires buckets == Shift(B, from, to, val)
      modifies this
      ensures since == old(since)[val := old(clock)] && clock == old(clock) + 1
      ensures buckets == old(buckets) && frequencies == old(frequencies)
      ensures modeFreq == old(modeFreq) && contents == old(contents)
      ensures ByArrival(buckets, since, clock)
    {
      ShiftArrival(B, from, to, val, since, clock);
      since, clock := since[val := clock], clock + 1;
    }

    /** answer: the first value of the mode's bucket, with its frequency.
        Of the values tied at the mode frequency it is the one that reached
        that frequency first. With a mode frequency of 0 (an empty window)
        the source reads bucket -1 and fails. */
    method Answer() returns (ans: (int, int))
      requires Valid() && modeFreq > 0
      ensures IsMode(contents, ans.0, ans.1) && ans.1 > 0
      ensures ans.0 in since && forall u :: contents[u] == ans.1 ==> u in since && since[ans.0] <= since[u]
    {
      if |buckets[modeFreq - 1]| > 0 {
        ans := (buckets[modeFreq - 1][0], modeFreq);
        EarliestFirst(buckets[modeFreq - 1], since, clock);
      } else {
        assert false;
        ans := (-1, 0);
      }
    }
  }

  /** Mo over a ModeData: answers each query [l, r] with a mode of the
      values at positions l..r and its frequency. */
  /** A state holding some value has a positive mode frequency. */
  lemma ModePositive(n: int, freqs: map<int, int>, B: seq<seq<int>>, mode: int, c: multiset<int>, x: int)
    requires Consistent(n, freqs, B, mode, c) && x in c
    ensures mode > 0
  {
  }

  class Mo {
    const blockSize: int
    const data: ModeData

    constructor (blockSize: int, data: ModeData)
      ensures this.blockSize == blockSize && this.data == data
    {
      this.blockSize := blockSize;
      this.data := data;
    }

    /** The first loop of query: the window grows to the left until it
        starts at ql. */
    method GrowLeftTo(l0: int, r: int, ql: int) returns (l: int)
      requires data.Valid() && 0 <= ql <= l0 <= r + 1 <= |data.arr|
      requires data.contents == Window(data.arr, l0, r)
      modifies data
      ensures data.Valid() && l == ql && data.contents == Window(data.arr, ql, r)
    {
      l := l0;
      while ql < l
        invariant data.Valid() && ql <= l <= r + 1 && data.contents == Window(data.arr, l, r)
      {
        ghost var c := data.contents;
        WindowSize(data.arr, l, r, data.arr[l - 1]);
        data.Add(l - 1);
        ExtendLeft(c, data.contents, data.arr, l, r);
        l := l - 1;
      }
    }

    /** The second loop of query: the window grows to the right until it
        ends at qr. */
    method GrowRightTo(l: int, r0: int, qr: int) returns (r: int)
      requires data.Valid() && 0 <= l <= r0 + 1 <= qr + 1 <= |data.arr|
      requires data.contents == Window(data.arr, l, r0)
      modifies data
      ensures data.Valid() && r == qr && data.contents == Window(data.arr, l, qr)
    {
      r := r0;
      while r < qr
        invariant data.Valid() && r0 <= r <= qr && data.contents == Window(data.arr, l, r)
      {
        ghost var c := data.contents;
        WindowSize(data.arr, l, r, data.arr[r + 1]);
        data.Add(r + 1);
        ExtendRight(c, data.contents, data.arr, l, r);
        r := r + 1;
      }
    }

    /** The third loop of query: the window shrinks from the left until it
        starts at ql. */
    method ShrinkLeftTo(l0: int, r: int, ql: int) returns (l: int)
      requires data.Valid() && 0 <= l0 <= ql <= r + 1 <= |data.arr|
      requires data.contents == Window(data.arr, l0, r)
      modifies data
      ensures data.Valid() && l == ql && data.contents == Window(data.arr, ql, r)
    {
      l := l0;
      while l < ql
        invariant data.Valid() && l0 <= l <= ql && data.contents == Window(data.arr, l, r)
      {
        GrowLeft(data.arr, l + 1, r);
        data.Remove(l, Window(data.arr, l + 1, r));
        l := l + 1;
      }
    }

    /** The last loop of query: the window shrinks from the right until it
        ends at qr. */
    method ShrinkRightTo(l: int, r0: int, qr: int) returns (r: int)
      requires data.Valid() && 0 <= l <= qr + 1 <= r0 + 1 <= |data.arr|
      requires data.contents == Window(data.arr, l, r0)
      modifies data
      ensures data.Valid() && r == qr && data.contents == Window(data.arr, l, qr)
    {
      r := r0;
      while qr < r
        invariant data.Valid() && qr <= r <= r0 && data.contents == Window(data.arr, l, r)
      {
        r := r - 1;
        data.Remove(r + 1, Window(data.arr, l, r));
      }
    }

    /** The four loops of query move the window [l, r] to [ql, qr]: grow
        left, grow right, shrink left, shrink right. */
    method Move(l0: int, r0: int, ql: int, qr: int) returns (l: int, r: int)
      requires data.Valid() && 0 <= l0 <= r0 + 1 <= |data.arr| && data.contents == Window(data.arr, l0, r0)
      requires 0 <= ql <= qr < |data.arr|
      modifies data
      ensures data.Valid() && l == ql && r == qr && data.contents == Window(data.arr, ql, qr)
    {
      l, r := l0, r0;
      if ql < l {
        l := GrowLeftTo(l, r, ql);
      }
      if r < qr {
        r := GrowRightTo(l, r, qr);
      }
      if l < ql {
        l := ShrinkLeftTo(l, r, ql);
      }
      if qr < r {
        r := ShrinkRightTo(l, r, qr);
      }
    }

    /** The body of query's loop: the window moves to [ql, qr] and the
        data structure answers. */
    method Visit(l0: int, r0: int, ql: int, qr: int) returns (l: int, r: int, ans: (int, int))
      requires data.Valid() && 0 <= l0 <= r0 + 1 <= |data.arr| && data.contents == Window(data.arr, l0, r0)
      requires 0 <= ql <= qr < |data.arr|
      modifies data
      ensures data.Valid() && l == ql && r == qr && data.contents == Window(data.arr, ql, qr)
      ensures IsMode(Window(data.arr, ql, qr), ans.0, ans.1) && ans.1 > 0
    {
      l, r := Move(l0, r0, ql, qr);
      GrowLeft(data.arr, l + 1, r);
      ModePositive(|data.arr|, data.frequencies, data.buckets, data.modeFreq, data.contents, data.arr[l]);
      ans := data.Answer();
    }

    /** The loop of query over the sorted queries: each answer goes to its
        query's position. Queries sharing a position are equal. */
    method Sweep(sorted: seq<Query>, n: int) returns (results: seq<(int, int)>)
      requires n >= 0
      requires forall j :: 0 <= j < |sorted| ==> 0 <= sorted[j].idx < n && 0 <= sorted[j].l <= sorted[j].r < |data.arr|
      requires forall j, k :: 0 <= j < |sorted| && 0 <= k < |sorted| && sorted[j].idx == sorted[k].idx ==> sorted[j] == sorted[k]
      modifies data
      ensures |results| == n
      ensures forall j :: 0 <= j < |sorted| ==>
        IsMode(Window(data.arr, sorted[j].l, sorted[j].r), results[sorted[j].idx].0, results[sorted[j].idx].1)
        && results[sorted[j].idx].1 > 0
    {
      results := seq(n, _ => (0, 0));
      data.Init();
      var arr := data.arr;
      var l, r := 0, -1;
      for t := 0 to |sorted|
        invariant data.Valid() && 0 <= l <= r + 1 <= |arr| && data.contents == Window(arr, l, r)
        invariant |results| == n
        invariant forall j :: 0 <= j < t ==>
          IsMode(Window(arr, sorted[j].l, sorted[j].r), results[sorted[j].idx].0, results[sorted[j].idx].1)
          && results[sorted[j].idx].1 > 0
      {
        var q := sorted[t];
        var ans;
        l, r, ans := Visit(l, r, q.l, q.r);
        results := results[q.idx := ans];
      }
    }

    /** query: the queries are bundled with their positions and sorted;
        the window then moves from query to query, growing before it
        shrinks, and each answer is written at its query's position. Every
        position receives a mode of its own range. */
    method Query(queries: seq<(int, int)>) returns (results: seq<(int, int)>)
      requires blockSize > 0
      requires forall i :: 0 <= i < |queries| ==> 0 <= queries[i].0 <= queries[i].1 < |data.arr|
      modifies data
      ensures |results| == |queries|
      ensures forall i :: 0 <= i < |queries| ==>
        IsMode(Window(data.arr, queries[i].0, queries[i].1), results[i].0, results[i].1) && results[i].1 > 0
    {
      var n := |queries|;
      var list: seq<Query> := [];
      for i := 0 to n
        invariant |list| == i && forall j :: 0 <= j < i ==> list[j] == MoWindow.Query(queries[j].0, queries[j].1, j)
      {
        list := list + [MoWindow.Query(queries[i].0, queries[i].1, i)];
      }
      var sorted := SortQueries(list, blockSize);
      assert |sorted| == n by {
        assert |multiset(sorted)| == |multiset(list)|;
      }
      forall j | 0 <= j < n
        ensures 0 <= sorted[j].idx < n && sorted[j] == list[sorted[j].idx]
      {
        assert sorted[j] in multiset(list);
      }
      results := Sweep(sorted, n);
      forall i | 0 <= i < n
        ensures IsMode(Window(data.arr, queries[i].0, queries[i].1), results[i].0, results[i].1) && results[i].1 > 0
      {
        assert list[i] in multiset(sorted);
        var j :| 0 <= j < n && sorted[j] == list[i];
      }
    }
  }
}
