// Mo's algorithm counting the distinct users of the messages in a range,
// from projects/16-mosAlgorithm/programmingChallenge/solutions/PcSolJava.java:
// the messages are sorted by timestamp, and a window of positions [l, r]
// moved one position at a time keeps a count per user, without zeros.
module UniqueUsers {
  import opened Sorting
  import opened MoWindow

  datatype Message = Message(timestamp: int, user: string)

  /** Comparator.comparingInt(m -> m.timestamp), as a key. */
  function ByTimestamp(): Message -> (int, int)
  {
    (m: Message) => (m.timestamp, 0)
  }

  function Timestamps(ms: seq<Message>): (ts: seq<int>)
    ensures |ts| == |ms|
  {
    seq(|ms|, i requires 0 <= i < |ms| => ms[i].timestamp)
  }

  function Users(ms: seq<Message>): (us: seq<string>)
    ensures |us| == |ms|
  {
    seq(|ms|, i requires 0 <= i < |ms| => ms[i].user)
  }

  predicate Ascending(a: seq<int>)
  {
    forall i, j :: 0 <= i < j < |a| ==> a[i] <= a[j]
  }

  /** List.sort by timestamp: the same messages, in ascending timestamp
      order. */
  function SortMessages(ms: seq<Message>): (r: seq<Message>)
    ensures multiset(r) == multiset(ms) && |r| == |ms|
    ensures Ascending(Timestamps(r))
  {
    var r := SortBy(ms, ByTimestamp());
    assert forall i, j :: 0 <= i < j < |r| ==> KeyLeq(ByTimestamp()(r[i]), ByTimestamp()(r[j]));
    assert |multiset(r)| == |multiset(ms)|;
    r
  }

  /** The distinct elements of a window. */
  ghost function Distinct(w: multiset<string>): set<string>
  {
    set u | u in w
  }

  /** An index query with no messages, written (-1, -1). */
  predicate IsEmptyQuery(q: Query)
  {
    q.l == -1 && q.r == -1
  }

  /** A query that query can answer: empty, or a range of positions. */
  predicate Answerable(q: Query, n: int)
  {
    IsEmptyQuery(q) || 0 <= q.l <= q.r < n
  }

  /** What query writes for q: 0 for an empty query, else the number of
      distinct users at positions q.l..q.r. */
  ghost function QueryAnswer(ms: seq<Message>, q: Query): int
    requires Answerable(q, |ms|)
  {
    if IsEmptyQuery(q) then 0 else |Distinct(Window(Users(ms), q.l, q.r))|
  }

  class UniqueUsersData {
    const messages: seq<Message>
    /** The users of the sorted messages, position by position. */
    ghost const users: seq<string> := Users(messages)
    var counts: map<string, int>
    /** The users of the positions added and not removed. */
    ghost var contents: multiset<string>

    /** counts holds each user of the window with its multiplicity, and no
        one else: in particular, never a zero count. */
    ghost predicate Valid()
      reads this
    {
      (forall u :: u in counts <==> u in contents)
      && (forall u :: u in counts ==> counts[u] == contents[u])
    }

    /** The constructor sorts the messages by timestamp. */
    constructor (messages: seq<Message>)
      ensures this.messages == SortMessages(messages)
    {
      this.messages := SortMessages(messages);
    }

    /** init: an empty count map. */
    method Init()
      modifies this
      ensures Valid() && contents == multiset{}
    {
      counts := map[];
      contents := multiset{};
    }

    /** add: the user at idx is counted once more. */
    method Add(idx: int)
      requires Valid() && 0 <= idx < |messages|
      modifies this
      ensures Valid() && contents == old(contents) + multiset{users[idx]}
    {
      var name := messages[idx].user;
      counts := counts[name := (if name in counts then counts[name] else 0) + 1];
      contents := contents + multiset{name};
    }

    /** remove: the user at idx is counted once less, and dropped at zero.
        The source fails on a user with no count, so the window must hold
        the user: it is rest plus that user, and rest is what remains. */
    method Remove(idx: int, ghost rest: multiset<string>)
      requires Valid() && 0 <= idx < |messages| && contents == rest + multiset{users[idx]}
      modifies this
      ensures Valid() && contents == rest
    {
      var name := messages[idx].user;
      var c := counts[name] - 1;
      if c == 0 {
        counts := counts - {name};
      } else {
        counts := counts[name := c];
      }
      contents := contents - multiset{name};
      assert contents == (rest + multiset{name}) - multiset{name};
    }

    /** answer: the number of distinct users in the window. */
    method Answer() returns (a: int)
      requires Valid()
      ensures a == |Distinct(contents)|
    {
      assert counts.Keys == Distinct(contents);
      a := |counts|;
    }
  }

  /** Mo over a UniqueUsersData. */
  class Mo {
    const blockSize: int
    const data: UniqueUsersData

    constructor (blockSize: int, data: UniqueUsersData)
      ensures this.blockSize == blockSize && this.data == data
    {
      this.blockSize := blockSize;
      this.data := data;
    }

    /** The first loop of query: the window grows to the left until it
        starts at ql. */
    method GrowLeftTo(l0: int, r: int, ql: int) returns (l: int)
      requires data.Valid() && 0 <= ql <= l0 <= r + 1 <= |data.users|
      requires data.contents == Window(data.users, l0, r)
      modifies data
      ensures data.Valid() && l == ql && data.contents == Window(data.users, ql, r)
    {
      l := l0;
      while ql < l
        invariant data.Valid() && ql <= l <= r + 1 && data.contents == Window(data.users, l, r)
      {
        ghost var c := data.contents;
        data.Add(l - 1);
        ExtendLeft(c, data.contents, data.users, l, r);
        l := l - 1;
      }
    }

    /** The second loop of query: the window grows to the right until it
        ends at qr. */
    method GrowRightTo(l: int, r0: int, qr: int) returns (r: int)
      requires data.Valid() && 0 <= l <= r0 + 1 <= qr + 1 <= |data.users|
      requires data.contents == Window(data.users, l, r0)
      modifies data
      ensures data.Valid() && r == qr && data.contents == Window(data.users, l, qr)
    {
      r := r0;
      while r < qr
        invariant data.Valid() && r0 <= r <= qr && data.contents == Window(data.users, l, r)
      {
        ghost var c := data.contents;
        data.Add(r + 1);
        ExtendRight(c, data.contents, data.users, l, r);
        r := r + 1;
      }
    }

    /** The third loop of query: the window shrinks from the left until it
        starts at ql. */
    method ShrinkLeftTo(l0: int, r: int, ql: int) returns (l: int)
      requires data.Valid() && 0 <= l0 <= ql <= r + 1 <= |data.users|
      requires data.contents == Window(data.users, l0, r)
      modifies data
      ensures data.Valid() && l == ql && data.contents == Window(data.users, ql, r)
    {
      l := l0;
      while l < ql
        invariant data.Valid() && l0 <= l <= ql && data.contents == Window(data.users, l, r)
      {
        GrowLeft(data.users, l + 1, r);
        data.Remove(l, Window(data.users, l + 1, r));
        l := l + 1;
      }
    }

    /** The last loop of query: the window shrinks from the right until it
        ends at qr. */
    method ShrinkRightTo(l: int, r0: int, qr: int) returns (r: int)
      requires data.Valid() && 0 <= l <= qr + 1 <= r0 + 1 <= |data.users|
      requires data.contents == Window(data.users, l, r0)
      modifies data
      ensures data.Valid() && r == qr && data.contents == Window(data.users, l, qr)
    {
      r := r0;
      while qr < r
        invariant data.Valid() && qr <= r <= r0 && data.contents == Window(data.users, l, r)
      {
        ghost var rest := Window(data.users, l, r - 1);
        RetractRight(data.contents, rest, data.users, l, r);
        data.Remove(r, rest);
        r := r - 1;
      }
    }

    /** The four loops of query move the window [l, r] to [ql, qr]: grow
        left, grow right, shrink left, shrink right. */
    method Move(l0: int, r0: int, ql: int, qr: int) returns (l: int, r: int)
      requires data.Valid() && 0 <= l0 <= r0 + 1 <= |data.users|
      requires data.contents == Window(data.users, l0, r0)
      requires 0 <= ql <= qr < |data.users|
      modifies data
      ensures data.Valid() && l == ql && r == qr && data.contents == Window(data.users, ql, qr)
    {
      l, r := l0, r0;
      if ql < l {
        l := GrowLeftTo(l, r, ql);
      }
      if r < qr {
        r := GrowRightTo(l, r, qr);
      }
      if l < ql {
        l := ShrinkLeftTo(l, r, ql);
      }
      if qr < r {
        r := ShrinkRightTo(l, r, qr);
      }
    }

    /** The loop of query over the sorted queries: an empty query is
        answered 0 without moving the window; any other moves it and asks
        the data structure. Queries sharing a position are equal. */
    method Sweep(sorted: seq<Query>, n: int) returns (results: seq<int>)
      requires n >= 0
      requires forall j :: 0 <= j < |sorted| ==> 0 <= sorted[j].idx < n && Answerable(sorted[j], |data.messages|)
      requires forall j, k :: 0 <= j < |sorted| && 0 <= k < |sorted| && sorted[j].idx == sorted[k].idx ==> sorted[j] == sorted[k]
      modifies data
      ensures |results| == n
      ensures forall j :: 0 <= j < |sorted| ==> results[sorted[j].idx] == QueryAnswer(data.messages, sorted[j])
    {
      results := seq(n, _ => 0);
      data.Init();
      var l, r := 0, -1;
      for t := 0 to |sorted|
        invariant data.Valid() && 0 <= l <= r + 1 <= |data.messages|
        invariant data.contents == Window(data.users, l, r)
        invariant |results| == n
        invariant forall j :: 0 <= j < t ==> results[sorted[j].idx] == QueryAnswer(data.messages, sorted[j])
      {
        var q := sorted[t];
        if q.l == -1 && q.r == -1 {
          results := results[q.idx := 0];
          continue;
        }
        l, r := Move(l, r, q.l, q.r);
        var a := data.Answer();
        results := results[q.idx := a];
      }
    }

    /** query: the queries are copied and sorted by block of their left end,
        then by right end, and every query's position receives its answer.
        The positions must be distinct and in range, as main makes them. */
    method Query(queries: seq<Query>) returns (results: seq<int>)
      requires blockSize > 0
      requires forall i :: 0 <= i < |queries| ==> 0 <= queries[i].idx < |queries|
      requires forall i, j :: 0 <= i < |queries| && 0 <= j < |queries| && queries[i].idx == queries[j].idx ==> i == j
      requires forall i :: 0 <= i < |queries| ==> Answerable(queries[i], |data.messages|)
      modifies data
      ensures |results| == |queries|
      ensures forall i :: 0 <= i < |queries| ==> results[queries[i].idx] == QueryAnswer(data.messages, queries[i])
    {
      var n := |queries|;
      var sorted := SortQueries(queries, blockSize);
      assert |sorted| == n by {
        assert |multiset(sorted)| == |multiset(queries)|;
      }
      forall j | 0 <= j < n
        ensures exists i :: 0 <= i < n && sorted[j] == queries[i]
      {
        assert sorted[j] in multiset(queries);
      }
      results := Sweep(sorted, n);
      forall i | 0 <= i < n
        ensures results[queries[i].idx] == QueryAnswer(data.messages, queries[i])
      {
        assert queries[i] in multiset(sorted);
        var j :| 0 <= j < n && sorted[j] == queries[i];
      }
    }
  }
}
