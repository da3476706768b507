// The driver of projects/16-mosAlgorithm/programmingChallenge/solutions/PcSolJava.java:
// each timestamp range [l_ts, r_ts] becomes an index range of the messages
// by binary search, and Mo's algorithm counts the distinct users of every
// index range. The source reads the timestamps before the messages are
// sorted; CountUsersAsWritten keeps that order, CountUsers sorts first.
module TimeQueries {
  import opened Sorting
  import opened MoWindow
  import opened UniqueUsers

  /** r is the first index whose element is at least key, in an ascending
      sequence. */
  ghost predicate IsLowerBound(a: seq<int>, key: int, r: int)
  {
    0 <= r <= |a|
    && (forall i :: 0 <= i < r ==> a[i] < key)
    && (forall i :: r <= i < |a| ==> a[i] >= key)
  }

  /** r is the first index whose element exceeds key, in an ascending
      sequence. */
  ghost predicate IsUpperBound(a: seq<int>, key: int, r: int)
  {
    0 <= r <= |a|
    && (forall i :: 0 <= i < r ==> a[i] <= key)
    && (forall i :: r <= i < |a| ==> a[i] > key)
  }

  /** The index lowerBound's loop returns once it has narrowed the search
      to [lo, hi): on any sequence, sorted or not. */
  function LowerBoundFrom(a: seq<int>, key: int, lo: int, hi: int): (r: int)
    requires 0 <= lo <= hi <= |a|
    ensures lo <= r <= hi
    decreases hi - lo
  {
    if lo < hi then
      var mid := (lo + hi) / 2;
      if a[mid] < key then LowerBoundFrom(a, key, mid + 1, hi) else LowerBoundFrom(a, key, lo, mid)
    else lo
  }

  /** The index upperBound's loop returns from [lo, hi). */
  function UpperBoundFrom(a: seq<int>, key: int, lo: int, hi: int): (r: int)
    requires 0 <= lo <= hi <= |a|
    ensures lo <= r <= hi
    decreases hi - lo
  {
    if lo < hi then
      var mid := (lo + hi) / 2;
      if a[mid] <= key then UpperBoundFrom(a, key, mid + 1, hi) else UpperBoundFrom(a, key, lo, mid)
    else lo
  }

  /** On an ascending sequence whose elements before lo are below key and
      from hi on are not, the search finds the lower bound. */
  lemma {:induction false} LowerBoundFromCorrect(a: seq<int>, key: int, lo: int, hi: int)
    requires Ascending(a) && 0 <= lo <= hi <= |a|
    requires forall i :: 0 <= i < lo ==> a[i] < key
    requires forall i :: hi <= i < |a| ==> a[i] >= key
    ensures IsLowerBound(a, key, LowerBoundFrom(a, key, lo, hi))
    decreases hi - lo
  {
    if lo < hi {
      var mid := (lo + hi) / 2;
      if a[mid] < key {
        LowerBoundFromCorrect(a, key, mid + 1, hi);
      } else {
        LowerBoundFromCorrect(a, key, lo, mid);
      }
    }
  }

  lemma {:induction false} UpperBoundFromCorrect(a: seq<int>, key: int, lo: int, hi: int)
    requires Ascending(a) && 0 <= lo <= hi <= |a|
    requires forall i :: 0 <= i < lo ==> a[i] <= key
    requires forall i :: hi <= i < |a| ==> a[i] > key
    ensures IsUpperBound(a, key, UpperBoundFrom(a, key, lo, hi))
    decreases hi - lo
  {
    if lo < hi {
      var mid := (lo + hi) / 2;
      if a[mid] <= key {
        UpperBoundFromCorrect(a, key, mid + 1, hi);
      } else {
        UpperBoundFromCorrect(a, key, lo, mid);
      }
    }
  }

  /** lowerBound: the loop keeps the answer of the search on [lo, hi); on
      an ascending array it is the first index with arr[idx] >= key. */
  method LowerBound(arr: seq<int>, key: int) returns (r: int)
    ensures 0 <= r <= |arr| && r == LowerBoundFrom(arr, key, 0, |arr|)
    ensures Ascending(arr) ==> IsLowerBound(arr, key, r)
  {
    var lo, hi := 0, |arr|;
    while lo < hi
      invariant 0 <= lo <= hi <= |arr|
      invariant LowerBoundFrom(arr, key, lo, hi) == LowerBoundFrom(arr, key, 0, |arr|)
      decreases hi - lo
    {
      var mid := (lo + hi) / 2;
      if arr[mid] < key {
        lo := mid + 1;
      } else {
        hi := mid;
      }
    }
    r := lo;
    if Ascending(arr) {
      LowerBoundFromCorrect(arr, key, 0, |arr|);
    }
  }

  /** upperBound: on an ascending array, the first index with
      arr[idx] > key. */
  method UpperBound(arr: seq<int>, key: int) returns (r: int)
    ensures 0 <= r <= |arr| && r == UpperBoundFrom(arr, key, 0, |arr|)
    ensures Ascending(arr) ==> IsUpperBound(arr, key, r)
  {
    var lo, hi := 0, |arr|;
    while lo < hi
      invariant 0 <= lo <= hi <= |arr|
      invariant UpperBoundFrom(arr, key, lo, hi) == UpperBoundFrom(arr, key, 0, |arr|)
      decreases hi - lo
    {
      var mid := (lo + hi) / 2;
      if arr[mid] <= key {
        lo := mid + 1;
      } else {
        hi := mid;
      }
    }
    r := lo;
    if Ascending(arr) {
      UpperBoundFromCorrect(arr, key, 0, |arr|);
    }
  }

  /** The index query main builds for the timestamp range [lts, rts]: from
      the lower bound of lts to one before the upper bound of rts, or
      (-1, -1) when that range is empty. */
  function Translate(ts: seq<int>, lts: int, rts: int, i: int): (q: Query)
    ensures q.idx == i && Answerable(q, |ts|)
  {
    var l := LowerBoundFrom(ts, lts, 0, |ts|);
    var r := UpperBoundFrom(ts, rts, 0, |ts|) - 1;
    if l <= r then Query(l, r, i) else Query(-1, -1, i)
  }

  /** On ascending timestamps the index query covers exactly the positions
      whose timestamps lie in [lts, rts], and is empty exactly when there
      are none. */
  lemma TranslateCovers(ts: seq<int>, lts: int, rts: int, i: int)
    requires Ascending(ts)
    ensures IsEmptyQuery(Translate(ts, lts, rts, i)) <==> forall k :: 0 <= k < |ts| ==> !(lts <= ts[k] <= rts)
    ensures !IsEmptyQuery(Translate(ts, lts, rts, i)) ==>
      forall k :: 0 <= k < |ts| ==> (Translate(ts, lts, rts, i).l <= k <= Translate(ts, lts, rts, i).r <==> lts <= ts[k] <= rts)
  {
    var l := LowerBoundFrom(ts, lts, 0, |ts|);
    var u := UpperBoundFrom(ts, rts, 0, |ts|);
    LowerBoundFromCorrect(ts, lts, 0, |ts|);
    UpperBoundFromCorrect(ts, rts, 0, |ts|);
    if l < u {
      assert lts <= ts[l] <= rts;
    }
  }

  /** The distinct users of the messages whose timestamps lie in [lo, hi]:
      what main is meant to print for that range. */
  ghost function UsersBetween(ms: seq<Message>, lo: int, hi: int): set<string>
  {
    set m | m in ms && lo <= m.timestamp <= hi :: m.user
  }

  /** The timestamps array of main, read position by position. */
  method ExtractTimestamps(messages: seq<Message>) returns (ts: seq<int>)
    ensures ts == Timestamps(messages)
  {
    ts := [];
    for i := 0 to |messages|
      invariant ts == Timestamps(messages[..i])
    {
      assert Timestamps(messages[..i + 1]) == Timestamps(messages[..i]) + [messages[i].timestamp];
      ts := ts + [messages[i].timestamp];
    }
    assert messages[..|messages|] == messages;
  }

  /** The translation loop of main: one index query per timestamp range,
      at its own position. */
  method TranslateQueries(ts: seq<int>, rawL: seq<int>, rawR: seq<int>) returns (indexed: seq<Query>)
    requires |rawL| == |rawR|
    ensures |indexed| == |rawL|
    ensures forall i :: 0 <= i < |rawL| ==> indexed[i] == Translate(ts, rawL[i], rawR[i], i)
  {
    indexed := [];
    for i := 0 to |rawL|
      invariant |indexed| == i
      invariant forall j :: 0 <= j < i ==> indexed[j] == Translate(ts, rawL[j], rawR[j], j)
    {
      var l := LowerBound(ts, rawL[i]);
      var r := UpperBound(ts, rawR[i]);
      r := r - 1;
      if l <= r {
        indexed := indexed + [Query(l, r, i)];
      } else {
        indexed := indexed + [Query(-1, -1, i)];
      }
    }
  }

  /** main as written: the timestamps are read in input order, then the
      messages are sorted, and each answer is Mo's count for the index
      range found in the unsorted timestamps. */
  method CountUsersAsWritten(messages: seq<Message>, rawL: seq<int>, rawR: seq<int>, blockSize: int) returns (answers: seq<int>)
    requires |rawL| == |rawR| && blockSize > 0
    ensures |answers| == |rawL|
    ensures forall i :: 0 <= i < |rawL| ==>
      answers[i] == QueryAnswer(SortMessages(messages), Translate(Timestamps(messages), rawL[i], rawR[i], i))
  {
    var timestamps := ExtractTimestamps(messages);
    var indexed := TranslateQueries(timestamps, rawL, rawR);
    var data := new UniqueUsersData(messages);
    var mo := new Mo(blockSize, data);
    answers := mo.Query(indexed);
  }

  /** When the timestamps are read from the messages in the order the
      window uses, every answer is the number of distinct users with a
      message in the range. */
  lemma SortedAnswer(messages: seq<Message>, ms: seq<Message>, lts: int, rts: int, i: int)
    requires multiset(ms) == multiset(messages) && Ascending(Timestamps(ms))
    ensures QueryAnswer(ms, Translate(Timestamps(ms), lts, rts, i)) == |UsersBetween(messages, lts, rts)|
  {
    var ts := Timestamps(ms);
    var q := Translate(ts, lts, rts, i);
    TranslateCovers(ts, lts, rts, i);
    forall m | m in messages
      ensures m in ms
    {
      assert m in multiset(messages);
    }
    if IsEmptyQuery(q) {
      forall m | m in messages
        ensures !(lts <= m.timestamp <= rts)
      {
        var k :| 0 <= k < |ms| && ms[k] == m;
        assert ts[k] == m.timestamp;
      }
      assert UsersBetween(messages, lts, rts) == {};
    } else {
      var us := Users(ms);
      var w := Window(us, q.l, q.r);
      forall u
        ensures u in Distinct(w) <==> u in UsersBetween(messages, lts, rts)
      {
        WindowMembers(us, q.l, q.r, u);
        if u in Distinct(w) {
          var k :| q.l <= k <= q.r && us[k] == u;
          assert ms[k] in multiset(messages);
          assert ts[k] == ms[k].timestamp;
        }
        if u in UsersBetween(messages, lts, rts) {
          var m :| m in messages && lts <= m.timestamp <= rts && m.user == u;
          var k :| 0 <= k < |ms| && ms[k] == m;
          assert ts[k] == m.timestamp && us[k] == u;
        }
      }
      assert Distinct(w) == UsersBetween(messages, lts, rts);
    }
  }

  /** main with the timestamps read after the sort: every answer is the
      number of distinct users with a message in its timestamp range. */
  method CountUsers(messages: seq<Message>, rawL: seq<int>, rawR: seq<int>, blockSize: int) returns (answers: seq<int>)
    requires |rawL| == |rawR| && blockSize > 0
    ensures |answers| == |rawL|
    ensures forall i :: 0 <= i < |rawL| ==> answers[i] == |UsersBetween(messages, rawL[i], rawR[i])|
  {
    var data := new UniqueUsersData(messages);
    var timestamps := ExtractTimestamps(data.messages);
    var indexed := TranslateQueries(timestamps, rawL, rawR);
    var mo := new Mo(blockSize, data);
    answers := mo.Query(indexed);
    forall i | 0 <= i < |rawL|
      ensures answers[i] == |UsersBetween(messages, rawL[i], rawR[i])|
    {
      SortedAnswer(messages, data.messages, rawL[i], rawR[i], i);
    }
  }

  /** In the unsorted timestamps [5, 1] the range [1, 1] becomes the
      index range [0, 1]. */
  lemma UnsortedTranslation()
    ensures Translate(Timestamps([Message(5, "a"), Message(1, "b")]), 1, 1, 0) == Query(0, 1, 0)
  {
    var ts := Timestamps([Message(5, "a"), Message(1, "b")]);
    assert ts == [5, 1];
    assert LowerBoundFrom(ts, 1, 0, 2) == 0;
    assert UpperBoundFrom(ts, 1, 0, 2) == 2;
  }

  /** Any order of two messages by "a" and "b" holds both users in its full
      window. */
  lemma TwoUsers(s: seq<Message>, ma: Message, mb: Message)
    requires |s| == 2 && multiset(s) == multiset{ma, mb} && ma.user == "a" && mb.user == "b"
    ensures |Distinct(Window(Users(s), 0, 1))| == 2
  {
    var us := Users(s);
    assert Window(us, 0, 1) == multiset{us[0], us[1]};
    assert s[0] in multiset(s) && s[1] in multiset(s);
    assert ma in multiset(s) && mb in multiset(s);
    assert "a" in {us[0], us[1]} && "b" in {us[0], us[1]};
    assert Distinct(Window(us, 0, 1)) == {"a", "b"};
  }

  /** Messages out of timestamp order break the source: for the messages
      (5, "a"), (1, "b") and the range [1, 1], the index range found in the
      unsorted timestamps is [0, 1], so two users are counted, while only
      "b" wrote at time 1. */
  lemma AsWrittenCounterexample()
    ensures var ms := [Message(5, "a"), Message(1, "b")];
      QueryAnswer(SortMessages(ms), Translate(Timestamps(ms), 1, 1, 0)) == 2
      && |UsersBetween(ms, 1, 1)| == 1
  {
    var ms := [Message(5, "a"), Message(1, "b")];
    UnsortedTranslation();
    assert multiset(ms) == multiset{Message(5, "a"), Message(1, "b")};
    TwoUsers(SortMessages(ms), Message(5, "a"), Message(1, "b"));
    assert UsersBetween(ms, 1, 1) == {"b"};
  }
}
