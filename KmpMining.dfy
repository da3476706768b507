// The mining challenge of
// projects/12-KnuthMorrisPratt/programmingChallenge/solutions/IPCMining.java:
// one online Knuth-Morris-Pratt matcher per jewel and per bomb reads the
// mine string character by character; a jewel match marks the current mine,
// a bomb match unmarks it and skips the rest of the mine.
module KmpMining {
  import opened Outcomes
  import opened Matching
  import Kmp

  /** The only failure: reading a character with an empty substring reads
      its character 0 (Java's StringIndexOutOfBoundsException). */
  datatype Failure = StringIndexOutOfBounds

  /** The whole of p is a suffix of s. */
  ghost predicate EndsIn(p: string, s: string)
  {
    EndsWith(p, |p|, s, |s|)
  }

  /** j is the longest proper prefix of p that is a suffix of s. */
  ghost predicate LongestPartial(p: string, j: int, s: string)
  {
    0 <= j < |p| && EndsWith(p, j, s, |s|) &&
    forall k {:trigger EndsWith(p, k, s, |s|)} :: j < k < |p| ==> !EndsWith(p, k, s, |s|)
  }

  /** Reading one more character keeps every suffix fact about the old text. */
  lemma Snoc(p: string, k: int, s: string, c: char)
    ensures EndsWith(p, k, s, |s|) <==> EndsWith(p, k, s + [c], |s|)
  {
    if 0 <= k <= |p| && k <= |s| {
      EndsWithPointwise(p, k, s, |s|);
      EndsWithPointwise(p, k, s + [c], |s|);
    }
  }

  /** construct_lps: a fresh array of the substring's length (zero in every
      slot, as Java allocates it) filled with the prefix function. */
  method ConstructLps(substring: string) returns (lps: array<int>)
    ensures fresh(lps) && lps.Length == |substring|
    ensures PrefixFunction(substring, lps[..], |substring|)
  {
    lps := new int[|substring|](_ => 0);
    Kmp.FillLps(substring, lps);
  }

  /** The online matcher for one substring. */
  class TextSearcher {
    const substring: string
    const lps: array<int>
    var i: int
    var j: int
    var matchFound: bool
    /** The characters read so far. */
    ghost var read: string

    /** i counts the characters read; j is the longest proper prefix of the
        substring that ends the text read; matchFound records whether the
        text read ends with the whole substring. */
    ghost predicate Valid()
      reads this, lps
    {
      lps.Length == |substring| && PrefixFunction(substring, lps[..], |substring|) &&
      i == |read| &&
      (|substring| > 0 ==> LongestPartial(substring, j, read)) &&
      (matchFound <==> |substring| > 0 && EndsIn(substring, read))
    }

    constructor (substring: string)
      ensures Valid() && fresh(lps)
      ensures this.substring == substring && read == [] && i == 0 && j == 0 && !matchFound
    {
      var table := ConstructLps(substring);
      lps := table;
      this.substring := substring;
      i := 0;
      j := 0;
      matchFound := false;
      read := [];
      new;
      if |substring| > 0 {
        forall k | 0 < k < |substring|
          ensures !EndsWith(substring, k, [], 0)
        {
        }
      }
    }

    /** read_character of a non-empty substring: one step of the matcher. */
    method ReadCharacter(c: char)
      requires Valid() && |substring| > 0
      modifies this
      ensures Valid()
      ensures read == old(read) + [c] && i == old(i) + 1
      ensures 0 <= j < |substring|
      ensures matchFound <==> EndsIn(substring, read)
    {
      ghost var table := lps[..];
      if c == substring[j] {
        MatchStep(substring, table, j, read, c);
        j := j + 1;
        if j == |substring| {
          assert table[j - 1] == lps[j - 1];
          j := lps[j - 1];
          matchFound := true;
        } else {
          matchFound := false;
        }
      } else {
        matchFound := false;
        FallStart(substring, j, read, c);
        while j > 0 && c != substring[j]
          invariant lps[..] == table && read == old(read) && i == old(i) && !matchFound
          invariant FallInvariant(substring, j, read, c)
          decreases j
        {
          FallStep(substring, table, j, read, c);
          assert table[j - 1] == lps[j - 1];
          j := lps[j - 1];
        }
        FallEnd(substring, j, read, c);
        if c == substring[j] {
          j := j + 1;
        }
      }
      i := i + 1;
      read := read + [c];
    }

    /** just_found_match: whether the last character read completed a match. */
    function JustFoundMatch(): (r: bool)
      requires Valid()
      reads this, lps
      ensures r <==> |substring| > 0 && EndsIn(substring, read)
    {
      matchFound
    }
  }

  /** A character equal to the next one of the pattern extends the partial
      match; when the whole substring is matched, j falls back to its longest
      proper border. */
  lemma MatchStep(p: string, lps: seq<int>, j: int, s: string, c: char)
    requires PrefixFunction(p, lps, |p|) && LongestPartial(p, j, s) && p[j] == c
    ensures j + 1 == |p| ==> LongestPartial(p, lps[j], s + [c]) && EndsIn(p, s + [c])
    ensures j + 1 < |p| ==> LongestPartial(p, j + 1, s + [c]) && !EndsIn(p, s + [c])
  {
    var t := s + [c];
    var n := |s|;
    Snoc(p, j, s, c);
    forall k | j < k < |p|
      ensures !EndsWith(p, k, t, n)
    {
      Snoc(p, k, s, c);
    }
    Advance(p, j, |p|, t, n);
    if j + 1 == |p| {
      var j' := lps[j];
      assert LongestBorderAt(p, j, j');
      Chain(p, j + 1, j', t, n + 1);
      forall k {:trigger EndsWith(p, k, t, n + 1)} | j' < k < |p|
        ensures !EndsWith(p, k, t, n + 1)
      {
        FallBack(p, j + 1, j', k, t, n + 1);
      }
    }
  }

  /** The fallback loop's invariant for character c after text s: j is a
      suffix-matching prefix, and no longer one can be extended by c. */
  ghost predicate FallInvariant(p: string, j: int, s: string, c: char)
  {
    0 <= j < |p| && EndsWith(p, j, s + [c], |s|) &&
    (j < |p| - 1 || c != p[j]) &&
    forall b :: j < b < |p| && EndsWith(p, b, s + [c], |s|) ==> p[b] != c
  }

  lemma FallStart(p: string, j: int, s: string, c: char)
    requires LongestPartial(p, j, s) && c != p[j]
    ensures FallInvariant(p, j, s, c)
  {
    Snoc(p, j, s, c);
    forall k | j < k < |p|
      ensures !EndsWith(p, k, s + [c], |s|)
    {
      Snoc(p, k, s, c);
    }
  }

  /** Falling back to lps[j-1] keeps the invariant and shortens j. */
  lemma FallStep(p: string, lps: seq<int>, j: int, s: string, c: char)
    requires PrefixFunction(p, lps, |p|) && FallInvariant(p, j, s, c) && j > 0 && c != p[j]
    ensures lps[j - 1] < j && FallInvariant(p, lps[j - 1], s, c)
  {
    var j' := lps[j - 1];
    var t := s + [c];
    assert LongestBorderAt(p, j - 1, j');
    Chain(p, j, j', t, |s|);
    forall b | j' < b < j
      ensures !EndsWith(p, b, t, |s|)
    {
      FallBack(p, j, j', b, t, |s|);
    }
  }

  /** When the fallback loop stops, the new partial match is j+1 on a match
      and 0 otherwise, and it is the longest; no whole match was made. */
  lemma FallEnd(p: string, j: int, s: string, c: char)
    requires FallInvariant(p, j, s, c) && (j == 0 || c == p[j])
    ensures var v := if c == p[j] then j + 1 else 0;
      LongestPartial(p, v, s + [c]) && !EndsIn(p, s + [c])
  {
    Advance(p, j, |p|, s + [c], |s|);
  }

  /** A fresh matcher for every substring, as the constructor of
      GeneralSearcher builds its two arrays. */
  method NewSearchers(subs: seq<string>) returns (objs: seq<TextSearcher>, ghost repr: set<object>)
    ensures |objs| == |subs| && fresh(repr)
    ensures forall t :: 0 <= t < |objs| ==>
      objs[t] in repr && objs[t].lps in repr && objs[t].substring == subs[t] && objs[t].read == [] && objs[t].Valid()
    ensures forall a, b :: 0 <= a < b < |objs| ==> objs[a] != objs[b]
  {
    repr := {};
    objs := [];
    var k := 0;
    while k < |subs|
      invariant 0 <= k <= |subs| && |objs| == k && fresh(repr)
      invariant forall t :: 0 <= t < k ==>
        objs[t] in repr && objs[t].lps in repr && objs[t].substring == subs[t] && objs[t].read == [] && objs[t].Valid()
      invariant forall a, b :: 0 <= a < b < k ==> objs[a] != objs[b]
    {
      var o := new TextSearcher(subs[k]);
      objs := objs + [o];
      repr := repr + {o, o.lps};
      k := k + 1;
    }
  }

  /** Matchers lo, ..., hi - 1 of objs, all in repr, track subs and have
      read s. */
  ghost predicate Fed(objs: seq<TextSearcher>, subs: seq<string>, lo: int, hi: int, s: string, repr: set<object>)
    reads repr
  {
    |objs| == |subs| && 0 <= lo <= hi <= |objs| &&
    forall k :: lo <= k < hi ==>
      objs[k] in repr && objs[k].lps in repr &&
      objs[k].substring == subs[k] && objs[k].read == s && objs[k].Valid()
  }

  /** No matcher is shared, within or between the two sequences. */
  ghost predicate Distinct(js: seq<TextSearcher>, bs: seq<TextSearcher>)
  {
    (forall a, b :: 0 <= a < b < |js| ==> js[a] != js[b]) &&
    (forall a, b :: 0 <= a < b < |bs| ==> bs[a] != bs[b]) &&
    forall a, b :: 0 <= a < |js| && 0 <= b < |bs| ==> js[a] != bs[b]
  }

  /** The mine scanner: one matcher per jewel and per bomb. */
  class GeneralSearcher {
    const text: string
    const jewels: seq<string>
    const bombs: seq<string>
    const jewelObjects: seq<TextSearcher>
    const bombObjects: seq<TextSearcher>
    /** The matchers and their prefix-function arrays. */
    ghost const Repr: set<object>

    /** Every matcher tracks its jewel or bomb and has read the characters
        read, and no matcher is shared. */
    ghost predicate Valid(read: string)
      reads Repr
    {
      Distinct(jewelObjects, bombObjects) &&
      Fed(jewelObjects, jewels, 0, |jewels|, read, Repr) &&
      Fed(bombObjects, bombs, 0, |bombs|, read, Repr)
    }

    constructor (text: string, jewels: seq<string>, bombs: seq<string>)
      ensures Valid([]) && fresh(Repr)
      ensures this.text == text && this.jewels == jewels && this.bombs == bombs
    {
      var js, jrepr := NewSearchers(jewels);
      var bs, brepr := NewSearchers(bombs);
      this.text := text;
      this.jewels := jewels;
      this.bombs := bombs;
      jewelObjects := js;
      bombObjects := bs;
      Repr := jrepr + brepr;
    }

    /** get_indices: scans the mines with matchers that have read the
        characters read, and returns the set of marked mines. */
    method GetIndices(ghost read: string) returns (r: Result<set<int>, Failure>)
      requires Valid(read)
      modifies Repr
      ensures r == Scan(text, jewels, bombs, 0, read, {}, 0)
    {
      ghost var spec := Scan(text, jewels, bombs, 0, read, {}, 0);
      ghost var fed := read;
      var results: set<int> := {};
      var mineIndex := 0;
      var i := 0;
      while i < |text|
        invariant Valid(fed)
        invariant 0 <= i <= |text| + 1
        invariant Scan(text, jewels, bombs, i, fed, results, mineIndex) == spec
        decreases |text| + 1 - i
      {
        if text[i] == ' ' {
          ScanSpace(text, jewels, bombs, i, fed, results, mineIndex);
          mineIndex := mineIndex + 1;
          i := i + 1;
        } else {
          var step := ReadLetter(i, mineIndex, results, fed);
          if step.Err? {
            return Err(StringIndexOutOfBounds);
          }
          fed := fed + [text[i]];
          results, mineIndex, i := step.value.0, step.value.1, step.value.2 + 1;
        }
      }
      return Ok(results);
    }

    /** The branch of get_indices for a character other than a space: the
        jewel loop, then the bomb loop; the result is the new marks, mine
        index and position before the final increment of i. */
    method ReadLetter(i: int, mineIndex: int, results: set<int>, ghost read: string)
      returns (r: Result<(set<int>, int, int), Failure>)
      requires Valid(read) && 0 <= i < |text| && text[i] != ' '
      modifies Repr
      ensures r.Err? ==> Scan(text, jewels, bombs, i, read, results, mineIndex) == Err(StringIndexOutOfBounds)
      ensures r.Ok? ==> Valid(read + [text[i]]) && i <= r.value.2 <= |text|
      ensures r.Ok? ==>
        Scan(text, jewels, bombs, i, read, results, mineIndex) ==
        Scan(text, jewels, bombs, r.value.2 + 1, read + [text[i]], r.value.0, r.value.1)
    {
      var c := text[i];
      var marked := ReadJewels(c, mineIndex, results, read);
      if marked.Err? {
        ScanFailStep(text, jewels, bombs, i, read, results, mineIndex);
        return Err(StringIndexOutOfBounds);
      }
      var after := ReadBombs(c, i, mineIndex, marked.value, read);
      if after.Err? {
        ScanFailStep(text, jewels, bombs, i, read, results, mineIndex);
        return Err(StringIndexOutOfBounds);
      }
      var (results', mineIndex', i') := after.value;
      ScanStep(text, jewels, bombs, i, read, results, mineIndex, results', mineIndex', i' + 1);
      return after;
    }

    /** One matcher of the loop reads c and reports whether it completed a
        match; the other matchers, those of the loop and those of the other
        loop, are left as they were. */
    method Feed(objs: seq<TextSearcher>, subs: seq<string>, k: int, c: char, ghost read: string,
                others: seq<TextSearcher>, otherSubs: seq<string>, ghost otherRead: string) returns (hit: bool)
      requires 0 <= k < |objs| == |subs| && |subs[k]| > 0
      requires forall a, b :: 0 <= a < b < |objs| ==> objs[a] != objs[b]
      requires forall t :: 0 <= t < |others| ==> others[t] != objs[k]
      requires Fed(objs, subs, 0, k, read + [c], Repr) && Fed(objs, subs, k, |subs|, read, Repr)
      requires Fed(others, otherSubs, 0, |others|, otherRead, Repr)
      modifies objs[k]
      ensures hit <==> EndsIn(subs[k], read + [c])
      ensures Fed(objs, subs, 0, k + 1, read + [c], Repr) && Fed(objs, subs, k + 1, |subs|, read, Repr)
      ensures Fed(others, otherSubs, 0, |others|, otherRead, Repr)
    {
      objs[k].ReadCharacter(c);
      hit := objs[k].JustFoundMatch();
    }

    /** The skip of get_indices after a bomb: i moves to the space that ends
        the current word, or to the end of the text. */
    method SkipRest(i0: int) returns (i: int)
      requires 0 <= i0 <= |text|
      ensures i == SkipWord(text, i0)
    {
      i := i0;
      while i < |text| && text[i] != ' '
        invariant i0 <= i <= |text| && SkipWord(text, i) == SkipWord(text, i0)
      {
        i := i + 1;
      }
    }

    /** The body of the bomb loop after bomb k has read c: a match unmarks
        the current mine, skips i to the end of the word and moves to the
        next mine. */
    method BombHit(ghost k: int, c: char, ghost read: string, found: bool, ghost i0: int, ghost mine0: int,
                   ghost marked: set<int>, results: set<int>, mine: int, i: int)
      returns (results': set<int>, mine': int, i': int)
      requires Tally(bombs, read + [c], k, text, i0, mine0, marked, results, mine, i) && k < |bombs|
      requires found <==> EndsIn(bombs[k], read + [c])
      ensures Tally(bombs, read + [c], k + 1, text, i0, mine0, marked, results', mine', i')
    {
      HitsStep(bombs, k, read + [c]);
      results', mine', i' := results, mine, i;
      if found {
        UnmarkStep(marked, mine0, mine);
        results' := results - {mine};
        i' := SkipRest(i);
        mine' := mine + 1;
      }
    }

    /** The jewel loop of get_indices: every jewel matcher reads c, and the
        mine is marked when one of them completes a match. */
    method ReadJewels(c: char, mine: int, results: set<int>, ghost read: string) returns (r: Result<set<int>, Failure>)
      requires Valid(read)
      modifies Repr
      ensures r.Err? <==> "" in jewels
      ensures r.Ok? ==> r.value == if AnyEnds(jewels, read + [c]) then results + {mine} else results
      ensures r.Ok? ==> Fed(jewelObjects, jewels, 0, |jewels|, read + [c], Repr)
      ensures Fed(bombObjects, bombs, 0, |bombs|, read, Repr)
    {
      var marked := results;
      var k := 0;
      while k < |jewelObjects|
        invariant 0 <= k <= |jewels| && Distinct(jewelObjects, bombObjects)
        invariant Fed(jewelObjects, jewels, 0, k, read + [c], Repr)
        invariant Fed(jewelObjects, jewels, k, |jewels|, read, Repr)
        invariant Fed(bombObjects, bombs, 0, |bombs|, read, Repr)
        invariant forall t :: 0 <= t < k ==> jewels[t] != ""
        invariant marked == if AnyEnds(jewels[..k], read + [c]) then results + {mine} else results
      {
        if |jewelObjects[k].substring| == 0 {
          return Err(StringIndexOutOfBounds);
        }
        var found := Feed(jewelObjects, jewels, k, c, read, bombObjects, bombs, read);
        if found {
          marked := marked + {mine};
        }
        assert jewels[..k + 1][..k] == jewels[..k];
        k := k + 1;
      }
      assert jewels[..k] == jewels;
      return Ok(marked);
    }

    /** The bomb loop of get_indices: every bomb matcher reads c, and each
        one completing a match unmarks the current mine, skips i to the end
        of the word and moves to the next mine. */
    method ReadBombs(c: char, i0: int, mine0: int, marked: set<int>, ghost read: string)
      returns (r: Result<(set<int>, int, int), Failure>)
      requires Distinct(jewelObjects, bombObjects) && 0 <= i0 < |text|
      requires Fed(bombObjects, bombs, 0, |bombs|, read, Repr)
      requires Fed(jewelObjects, jewels, 0, |jewels|, read + [c], Repr)
      modifies Repr
      ensures r.Err? <==> "" in bombs
      ensures r.Ok? ==> var h := Hits(bombs, read + [c]);
        r.value == (Unmark(marked, mine0, mine0 + h), mine0 + h, if h > 0 then SkipWord(text, i0) else i0)
      ensures r.Ok? ==> Fed(bombObjects, bombs, 0, |bombs|, read + [c], Repr)
      ensures Fed(jewelObjects, jewels, 0, |jewels|, read + [c], Repr)
    {
      var results := marked;
      var mine := mine0;
      var i := i0;
      var k := 0;
      while k < |bombObjects|
        invariant 0 <= k <= |bombs| && Distinct(jewelObjects, bombObjects)
        invariant Fed(bombObjects, bombs, 0, k, read + [c], Repr)
        invariant Fed(bombObjects, bombs, k, |bombs|, read, Repr)
        invariant Fed(jewelObjects, jewels, 0, |jewels|, read + [c], Repr)
        invariant forall t :: 0 <= t < k ==> bombs[t] != ""
        invariant Tally(bombs, read + [c], k, text, i0, mine0, marked, results, mine, i)
      {
        if |bombObjects[k].substring| == 0 {
          return Err(StringIndexOutOfBounds);
        }
        var found := Feed(bombObjects, bombs, k, c, read, jewelObjects, jewels, read + [c]);
        results, mine, i := BombHit(k, c, read, found, i0, mine0, marked, results, mine, i);
        k := k + 1;
      }
      assert bombs[..k] == bombs;
      return Ok((results, mine, i));
    }
  }

  // -----------------------------------------------------------------------
  // The scan over the mines, specified with suffix tests in place of the
  // matchers.

  /** Some substring of subs ends s. */
  ghost function AnyEnds(subs: seq<string>, s: string): bool
    decreases |subs|
  {
    if |subs| == 0 then false
    else AnyEnds(subs[..|subs| - 1], s) || EndsIn(subs[|subs| - 1], s)
  }

  /** How many substrings of subs end s. */
  ghost function Hits(subs: seq<string>, s: string): nat
    decreases |subs|
  {
    if |subs| == 0 then 0
    else Hits(subs[..|subs| - 1], s) + (if EndsIn(subs[|subs| - 1], s) then 1 else 0)
  }

  /** results without the mine indices lo, ..., hi - 1. */
  ghost function Unmark(results: set<int>, lo: int, hi: int): set<int>
  {
    set x | x in results && !(lo <= x < hi)
  }

  lemma HitsStep(subs: seq<string>, k: int, s: string)
    requires 0 <= k < |subs|
    ensures Hits(subs[..k + 1], s) == Hits(subs[..k], s) + (if EndsIn(subs[k], s) then 1 else 0)
  {
    assert subs[..k + 1][..k] == subs[..k];
  }

  lemma UnmarkStep(results: set<int>, lo: int, hi: int)
    requires lo <= hi
    ensures Unmark(results, lo, hi) - {hi} == Unmark(results, lo, hi + 1)
  {
  }

  /** The state of the bomb loop after bombs[..k] have read s: the mine
      index has moved once per hit, the mines passed are unmarked, and i is
      at the end of the word once there was a hit. */
  ghost predicate Tally(bombs: seq<string>, s: string, k: int, text: string, i0: int,
                        mine0: int, marked: set<int>, results: set<int>, mine: int, i: int)
  {
    0 <= k <= |bombs| && 0 <= i0 <= |text| &&
    mine == mine0 + Hits(bombs[..k], s) && results == Unmark(marked, mine0, mine) &&
    i == if mine > mine0 then SkipWord(text, i0) else i0
  }

  /** The index of the first space at or after pos, or the text's length. */
  function SkipWord(text: string, pos: nat): (q: nat)
    requires pos <= |text|
    ensures pos <= q <= |text| && (q == |text| || text[q] == ' ')
    ensures forall k :: pos <= k < q ==> text[k] != ' '
    decreases |text| - pos
  {
    if pos == |text| || text[pos] == ' ' then pos else SkipWord(text, pos + 1)
  }

  /** The result of get_indices from position pos, with read the characters
      the matchers have read, results the marked mines and mine the current
      mine index. A space moves to the next mine. Any other character is
      read by every jewel matcher and then by every bomb matcher (an empty
      substring fails there); the current mine is marked when a jewel ends
      the text read, and each bomb ending it unmarks the current mine and
      moves to the next, after which the rest of the word and the space that
      ends it are skipped. */
  ghost function Scan(text: string, jewels: seq<string>, bombs: seq<string>,
                      pos: int, read: string, results: set<int>, mine: int): Result<set<int>, Failure>
    requires 0 <= pos
    decreases |text| + 1 - pos
  {
    if pos >= |text| then Ok(results)
    else if text[pos] == ' ' then Scan(text, jewels, bombs, pos + 1, read, results, mine + 1)
    else if "" in jewels || "" in bombs then Err(StringIndexOutOfBounds)
    else
      var s := read + [text[pos]];
      var marked := if AnyEnds(jewels, s) then results + {mine} else results;
      var h := Hits(bombs, s);
      var next := if h > 0 then SkipWord(text, pos) + 1 else pos + 1;
      Scan(text, jewels, bombs, next, s, Unmark(marked, mine, mine + h), mine + h)
  }

  /** One character other than a space, read by matchers that are all
      non-empty: the scan goes on from next with the marks and the mine index
      the two loops of get_indices leave. */
  lemma ScanStep(text: string, jewels: seq<string>, bombs: seq<string>,
                 pos: int, read: string, results: set<int>, mine: int,
                 results': set<int>, mine': int, next: int)
    requires 0 <= pos < |text| && text[pos] != ' ' && !("" in jewels) && !("" in bombs)
    requires var s := read + [text[pos]];
      var h := Hits(bombs, s);
      results' == Unmark(if AnyEnds(jewels, s) then results + {mine} else results, mine, mine + h) &&
      mine' == mine + h && next == (if h > 0 then SkipWord(text, pos) else pos) + 1
    ensures Scan(text, jewels, bombs, pos, read, results, mine) ==
      Scan(text, jewels, bombs, next, read + [text[pos]], results', mine')
  {
  }

  /** A character other than a space fails the scan when a matcher is empty. */
  lemma ScanFailStep(text: string, jewels: seq<string>, bombs: seq<string>,
                     pos: int, read: string, results: set<int>, mine: int)
    requires 0 <= pos < |text| && text[pos] != ' ' && ("" in jewels || "" in bombs)
    ensures Scan(text, jewels, bombs, pos, read, results, mine) == Err(StringIndexOutOfBounds)
  {
  }

  /** A space moves to the next mine. */
  lemma ScanSpace(text: string, jewels: seq<string>, bombs: seq<string>,
                  pos: int, read: string, results: set<int>, mine: int)
    requires 0 <= pos < |text| && text[pos] == ' '
    ensures Scan(text, jewels, bombs, pos, read, results, mine) ==
      Scan(text, jewels, bombs, pos + 1, read, results, mine + 1)
  {
  }

  /** Without jewels no mine is ever marked. */
  lemma {:induction false} NoJewelsNoMines(text: string, bombs: seq<string>, pos: int, read: string, mine: int)
    requires 0 <= pos
    ensures Scan(text, [], bombs, pos, read, {}, mine).Ok? ==> Scan(text, [], bombs, pos, read, {}, mine).value == {}
    decreases |text| + 1 - pos
  {
    if pos < |text| {
      if text[pos] == ' ' {
        NoJewelsNoMines(text, bombs, pos + 1, read, mine + 1);
      } else if !("" in bombs) {
        var s := read + [text[pos]];
        var h := Hits(bombs, s);
        var next := if h > 0 then SkipWord(text, pos) + 1 else pos + 1;
        var none: set<int> := {};
        assert Unmark(none, mine, mine + h) == none;
        NoJewelsNoMines(text, bombs, next, s, mine + h);
      }
    }
  }

  /** Without bombs a marked mine stays marked. */
  lemma {:induction false} NoBombsKeepsMarks(text: string, jewels: seq<string>, pos: int,
                                             read: string, results: set<int>, mine: int)
    requires 0 <= pos
    ensures Scan(text, jewels, [], pos, read, results, mine).Ok? ==>
      results <= Scan(text, jewels, [], pos, read, results, mine).value
    decreases |text| + 1 - pos
  {
    if pos < |text| {
      if text[pos] == ' ' {
        NoBombsKeepsMarks(text, jewels, pos + 1, read, results, mine + 1);
      } else if !("" in jewels) {
        var s := read + [text[pos]];
        var marked := if AnyEnds(jewels, s) then results + {mine} else results;
        assert Unmark(marked, mine, mine) == marked;
        NoBombsKeepsMarks(text, jewels, pos + 1, s, marked, mine);
      }
    }
  }

  /** The scan fails exactly when an empty jewel or bomb meets a character
      other than a space. */
  lemma {:induction false} ScanFails(text: string, jewels: seq<string>, bombs: seq<string>,
                                     pos: int, read: string, results: set<int>, mine: int)
    requires 0 <= pos
    ensures Scan(text, jewels, bombs, pos, read, results, mine).Err? <==>
      ("" in jewels || "" in bombs) && exists k :: pos <= k < |text| && text[k] != ' '
    decreases |text| + 1 - pos
  {
    if pos < |text| {
      if text[pos] == ' ' {
        ScanFails(text, jewels, bombs, pos + 1, read, results, mine + 1);
        if exists k :: pos <= k < |text| && text[k] != ' ' {
          var k :| pos <= k < |text| && text[k] != ' ';
          assert pos + 1 <= k;
        }
      } else if !("" in jewels || "" in bombs) {
        var s := read + [text[pos]];
        var marked := if AnyEnds(jewels, s) then results + {mine} else results;
        var h := Hits(bombs, s);
        var next := if h > 0 then SkipWord(text, pos) + 1 else pos + 1;
        ScanFails(text, jewels, bombs, next, s, Unmark(marked, mine, mine + h), mine + h);
      }
    }
  }
}
