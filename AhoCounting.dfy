// The keyword counter of the book-search challenge (solution.java): an
// Aho-Corasick automaton whose trie nodes hold a map of child edges, a
// failure link and a list of output keywords. Nodes are kept in an arena:
// node i is the index i into the parallel sequences children, failLink and
// outputs, the root is node 0, and a null failure link is -1.
//
// As in the table-driven model, every node carries a ghost string words[i]
// (the characters on the path from the root) and a ghost parent, so that
// failure links, outputs and search counts can be stated by what they mean.
module AhoCounting {
  import opened Suffixes

  const Root := 0
  const Null := -1

  // ---------------------------------------------------------------------
  // Case folding (String.toLowerCase on the ASCII letters).

  function Lower(c: char): char
  {
    if 'A' <= c <= 'Z' then (c as int + 32) as char else c
  }

  function LowerCase(s: string): (r: string)
    ensures |r| == |s|
  {
    seq(|s|, i requires 0 <= i < |s| => Lower(s[i]))
  }

  /** Folding leaves no upper-case letter and keeps every other character. */
  lemma LowerCaseFolds(s: string)
    ensures forall i :: 0 <= i < |s| ==> !('A' <= LowerCase(s)[i] <= 'Z')
    ensures forall i :: 0 <= i < |s| && !('A' <= s[i] <= 'Z') ==> LowerCase(s)[i] == s[i]
    ensures LowerCase(LowerCase(s)) == LowerCase(s)
  {
  }

  /** Upper- and lower-case spellings of a string fold to the same string. */
  lemma LowerCaseInsensitive(s: string, t: string)
    requires |s| == |t|
    requires forall i :: 0 <= i < |s| ==> s[i] == t[i] || (s[i] as int + 32 == t[i] as int && 'A' <= s[i] <= 'Z')
    ensures LowerCase(s) == LowerCase(t)
  {
  }

  // ---------------------------------------------------------------------
  // The shape of the trie.

  function Last(w: string): char
  {
    if w == [] then '\0' else w[|w| - 1]
  }

  /** Distinct nodes spell distinct strings; the root spells the empty one. */
  ghost predicate WordsOK(words: seq<string>)
  {
    |words| >= 1 && words[0] == [] &&
    forall s, t :: 0 <= s < |words| && 0 <= t < |words| && words[s] == words[t] ==> s == t
  }

  /** Edge c out of s leads to the node spelling words[s] + [c]. */
  ghost predicate EdgesOK(children: seq<map<char, int>>, words: seq<string>)
    requires |children| == |words|
  {
    forall s, c :: 0 <= s < |words| && c in children[s] ==>
      0 <= children[s][c] < |words| && words[children[s][c]] == words[s] + [c]
  }

  /** Every node but the root is the target of the edge from its parent. */
  ghost predicate ParentOK(children: seq<map<char, int>>, words: seq<string>, parent: seq<int>, x: int)
    requires |children| == |words| == |parent| && 1 <= x < |words|
  {
    var w := words[x];
    |w| >= 1 && 0 <= parent[x] < |words| && words[parent[x]] == w[..|w| - 1] &&
    Last(w) in children[parent[x]] && children[parent[x]][Last(w)] == x
  }

  ghost predicate Trie(children: seq<map<char, int>>, words: seq<string>, parent: seq<int>)
  {
    |children| == |words| == |parent| && WordsOK(words) && EdgesOK(children, words) &&
    forall x :: 1 <= x < |words| ==> ParentOK(children, words, parent, x)
  }

  /** A node spelling words[p] + [c] is the target of edge (p, c). */
  lemma ChildOf(children: seq<map<char, int>>, words: seq<string>, parent: seq<int>, p: int, c: char, x: int)
    requires Trie(children, words, parent)
    requires 0 <= p < |words| && 0 <= x < |words| && words[x] == words[p] + [c]
    ensures c in children[p] && children[p][c] == x
  {
    assert x != 0;
    assert ParentOK(children, words, parent, x);
    assert words[x][..|words[x]| - 1] == words[p];
  }

  /** A missing edge (p, c) means no node spells words[p] + [c]. */
  lemma NoChild(children: seq<map<char, int>>, words: seq<string>, parent: seq<int>, p: int, c: char)
    requires Trie(children, words, parent) && 0 <= p < |words| && c !in children[p]
    ensures words[p] + [c] !in words
  {
    forall x | 0 <= x < |words| && words[x] == words[p] + [c]
      ensures false
    {
      ChildOf(children, words, parent, p, c, x);
    }
  }

  // ---------------------------------------------------------------------
  // Inserting a keyword (addKeyword, lines 33-42).

  /** The length of the longest prefix of w, from j on, whose every
      prefix up to it is a node. */
  ghost function Present(words: seq<string>, w: string, j: nat): (d: nat)
    requires j <= |w|
    ensures j <= d <= |w|
    decreases |w| - j
  {
    if j < |w| && w[..j + 1] in words then Present(words, w, j + 1) else j
  }

  /** The nodes after inserting w: the prefixes of w that were missing,
      shortest first, appended as new nodes. */
  ghost function Grown(words: seq<string>, w: string): seq<string>
  {
    var d := Present(words, w, 0);
    words + seq(|w| - d, i requires 0 <= i < |w| - d => w[..d + 1 + i])
  }

  /** Allocating node |words| as the target of the missing edge (cur, c). */
  lemma AllocateStep(children: seq<map<char, int>>, words: seq<string>, parent: seq<int>, cur: int, c: char)
    requires Trie(children, words, parent) && 0 <= cur < |words| && c !in children[cur]
    ensures Trie(children[cur := children[cur][c := |children|]] + [map[]], words + [words[cur] + [c]], parent + [cur])
  {
    var n := |words|;
    var children' := children[cur := children[cur][c := n]] + [map[]];
    var words' := words + [words[cur] + [c]];
    var parent' := parent + [cur];
    NoChild(children, words, parent, cur, c);
    assert WordsOK(words') by {
      forall s, t | 0 <= s < |words'| && 0 <= t < |words'| && words'[s] == words'[t]
        ensures s == t
      {
        if s < n && t < n {
          assert words[s] == words[t];
        }
      }
    }
    forall s, d | 0 <= s < |words'| && d in children'[s]
      ensures 0 <= children'[s][d] < |words'| && words'[children'[s][d]] == words'[s] + [d]
    {
      if s == cur && d == c {
        assert children'[s][d] == n;
      } else {
        assert s < n && children'[s][d] == children[s][d];
        assert words'[children[s][d]] == words[children[s][d]];
      }
    }
    forall x | 1 <= x < |words'|
      ensures ParentOK(children', words', parent', x)
    {
      if x == n {
        assert words'[x][..|words'[x]| - 1] == words[cur];
      } else {
        assert ParentOK(children, words, parent, x);
        assert words'[x] == words[x] && words'[parent'[x]] == words[parent[x]];
        assert Last(words[x]) != c || parent[x] != cur;
      }
    }
  }

  /** Prefixes up to the present part are nodes; the next one is not. */
  lemma {:induction false} PresentFacts(words: seq<string>, w: string, j: nat)
    requires j <= |w| && forall i :: 0 < i <= j ==> w[..i] in words
    ensures forall i :: 0 < i <= Present(words, w, j) ==> w[..i] in words
    ensures Present(words, w, j) < |w| ==> w[..Present(words, w, j) + 1] !in words
    decreases |w| - j
  {
    if j < |w| && w[..j + 1] in words {
      PresentFacts(words, w, j + 1);
    }
  }

  /** The walk of keyword w after j characters: node spells w[..j], and
      the nodes added so far are the missing prefixes w[..d + 1], ..., w[..j]
      (d is the present part of w), the last of them still childless. */
  ghost predicate Walked(children: seq<map<char, int>>, words: seq<string>, parent: seq<int>,
                         words0: seq<string>, w: string, d: int, j: int, node: int)
  {
    Trie(children, words, parent) && 0 <= d <= |w| && 0 <= j <= |w| &&
    (forall i :: 0 < i <= d ==> w[..i] in words0) && (d < |w| ==> w[..d + 1] !in words0) &&
    0 <= node < |words| && words[node] == w[..j] &&
    |words| == |words0| + (if j > d then j - d else 0) && words[..|words0|] == words0 &&
    (forall k :: |words0| <= k < |words| ==> words[k] == w[..d + 1 + (k - |words0|)]) &&
    (j > d ==> children[node] == map[])
  }

  /** A character with no edge yet: allocate its node (computeIfAbsent). */
  lemma WalkAllocate(children: seq<map<char, int>>, words: seq<string>, parent: seq<int>,
                     words0: seq<string>, w: string, d: int, j: int, node: int)
    requires Walked(children, words, parent, words0, w, d, j, node) && j < |w| && w[j] !in children[node]
    ensures Walked(children[node := children[node][w[j] := |children|]] + [map[]], words + [words[node] + [w[j]]],
                   parent + [node], words0, w, d, j + 1, |children|)
  {
    var ch := w[j];
    assert w[..j + 1] == w[..j] + [ch];
    if j < d {
      assert w[..j + 1] in words;
      NoChild(children, words, parent, node, ch);
    }
    AllocateStep(children, words, parent, node, ch);
    var words' := words + [words[node] + [ch]];
    assert words'[..|words0|] == words0;
  }

  /** A character with an edge: follow it; this happens only inside the present part. */
  lemma WalkFollow(children: seq<map<char, int>>, words: seq<string>, parent: seq<int>,
                   words0: seq<string>, w: string, d: int, j: int, node: int)
    requires Walked(children, words, parent, words0, w, d, j, node) && j < |w| && w[j] in children[node]
    ensures Walked(children, words, parent, words0, w, d, j + 1, children[node][w[j]])
  {
    var ch := w[j];
    assert w[..j + 1] == w[..j] + [ch];
    assert words[children[node][ch]] == w[..j + 1];
    assert j < d;
  }

  lemma WalkDone(children: seq<map<char, int>>, words: seq<string>, parent: seq<int>,
                 words0: seq<string>, w: string, d: int, node: int)
    requires Walked(children, words, parent, words0, w, d, |w|, node) && d == Present(words0, w, 0)
    ensures words == Grown(words0, w) && words[node] == w
  {
    assert w[..|w|] == w;
    assert words == words[..|words0|] + words[|words0|..];
  }

  /** The walk of addKeyword (lines 34-39): follows or allocates one node
      per character; new nodes have no children. */
  method Walk(children: seq<map<char, int>>, ghost words: seq<string>, ghost parent: seq<int>, w: string)
    returns (children': seq<map<char, int>>, ghost words': seq<string>, ghost parent': seq<int>, node: int)
    requires Trie(children, words, parent)
    ensures Trie(children', words', parent') && words' == Grown(words, w)
    ensures 0 <= node < |words'| && words'[node] == w
  {
    children', words', parent' := children, words, parent;
    node := Root;
    ghost var d := Present(words, w, 0);
    PresentFacts(words, w, 0);
    for j := 0 to |w|
      invariant Walked(children', words', parent', words, w, d, j, node)
    {
      var ch := w[j];
      if ch !in children'[node] {
        WalkAllocate(children', words', parent', words, w, d, j, node);
        children' := children'[node := children'[node][ch := |children'|]] + [map[]];
        words' := words' + [words'[node] + [ch]];
        parent' := parent' + [node];
      } else {
        WalkFollow(children', words', parent', words, w, d, j, node);
      }
      node := children'[node][ch];
    }
    WalkDone(children', words', parent', words, w, d, node);
  }

  /** addKeyword over the arena: new nodes start with a null link and no
      outputs (TrieNode's field defaults), and w is appended to the outputs
      of the node it ends at (line 41). */
  method Insert(children: seq<map<char, int>>, failLink: seq<int>, outputs: seq<seq<string>>,
                ghost words: seq<string>, ghost parent: seq<int>, w: string)
    returns (children': seq<map<char, int>>, failLink': seq<int>, outputs': seq<seq<string>>,
             ghost words': seq<string>, ghost parent': seq<int>)
    requires Trie(children, words, parent) && |failLink| == |words| && |outputs| == |words|
    ensures Trie(children', words', parent') && |failLink'| == |words'| && |outputs'| == |words'|
    ensures words' == Grown(words, w) && w in words'
    ensures failLink' == failLink + seq(|words'| - |words|, _ => Null)
    ensures forall t :: 0 <= t < |words'| ==>
      outputs'[t] == (if t < |words| then outputs[t] else []) + (if words'[t] == w then [w] else [])
  {
    var node;
    children', words', parent', node := Walk(children, words, parent, w);
    var added := |children'| - |children|;
    failLink' := failLink + seq(added, _ => Null);
    var blank := outputs + seq(added, _ => []);
    outputs' := blank[node := blank[node] + [w]];
  }

  // ---------------------------------------------------------------------
  // What buildFailLinks computes (lines 47-82).

  /** The link and the outputs of node t after buildFailLinks, given its
      outputs old0[t] before: t fails to its longest proper suffix node,
      and below depth one it appends the outputs of that node (line 76). */
  ghost predicate LinkOK(words: seq<string>, old0: seq<seq<string>>, failLink: seq<int>, outputs: seq<seq<string>>, t: int)
    requires |old0| == |failLink| == |outputs| == |words| && 1 <= t < |words|
  {
    IsFailure(words, failLink[t], t) &&
    outputs[t] == if |words[t]| == 1 then old0[t] else old0[t] + outputs[failLink[t]]
  }

  /** The whole effect of buildFailLinks on links and outputs; the root
      keeps its null link and its outputs. */
  ghost predicate Rebuilt(words: seq<string>, old0: seq<seq<string>>, failLink: seq<int>, outputs: seq<seq<string>>)
  {
    |old0| == |failLink| == |outputs| == |words| >= 1 &&
    failLink[0] == Null && outputs[0] == old0[0] &&
    forall t :: 1 <= t < |words| ==> LinkOK(words, old0, failLink, outputs, t)
  }

  // ---------------------------------------------------------------------
  // Following failure links (lines 67-73 and 96-101).

  /** The length of the string of u; -1 for the null link. */
  ghost function Depth(words: seq<string>, u: int): int
  {
    if 0 <= u < |words| then |words[u]| else -1
  }

  /** Searching the longest suffix node of w + [c] shorter than bound: u is
      null or a suffix node of w, and no longer suffix node of w (still
      short enough) has a c edge. */
  ghost predicate Chain(children: seq<map<char, int>>, words: seq<string>, u: int, w: string, c: char, bound: int)
    requires |children| == |words|
  {
    (u == Null || (0 <= u < |words| && IsSuffix(words[u], w) && |words[u]| + 1 < bound)) &&
    forall t :: 0 <= t < |words| && IsSuffix(words[t], w) && Depth(words, u) < |words[t]| && |words[t]| + 1 < bound ==>
      c !in children[t]
  }

  /** A non-empty suffix node of w + [c] is entered by edge c from a suffix node of w. */
  lemma ParentSuffix(children: seq<map<char, int>>, words: seq<string>, parent: seq<int>, t: int, w: string, c: char)
    requires Trie(children, words, parent)
    requires 0 <= t < |words| && words[t] != [] && IsSuffix(words[t], w + [c])
    ensures 0 <= parent[t] < |words| && IsSuffix(words[parent[t]], w)
    ensures |words[parent[t]]| + 1 == |words[t]| && c in children[parent[t]] && children[parent[t]][c] == t
  {
    SuffixDropLast(words[t], w, c);
    assert ParentOK(children, words, parent, t);
  }

  /** One failure link further: from u without a c edge to its failure
      node, or from the root to null. */
  lemma ChainStep(children: seq<map<char, int>>, words: seq<string>, parent: seq<int>,
                  u: int, f: int, w: string, c: char, bound: int)
    requires Trie(children, words, parent)
    requires Chain(children, words, u, w, c, bound) && 0 <= u < |words| && c !in children[u]
    requires u == 0 ==> f == Null
    requires u != 0 ==> IsFailure(words, f, u)
    ensures Chain(children, words, f, w, c, bound) && Depth(words, f) < Depth(words, u)
  {
    if u != 0 {
      SuffixTrans(words[f], words[u], w);
    }
    forall t | 0 <= t < |words| && IsSuffix(words[t], w) && Depth(words, f) < |words[t]| && |words[t]| + 1 < bound
      ensures c !in children[t]
    {
      if |words[t]| == |words[u]| {
        SuffixSameLength(words[t], words[u], w);
      } else if |words[t]| < |words[u]| {
        SuffixCompare(words[t], words[u], w);
      }
    }
  }

  /** The search stops at a c edge: it leads to the longest suffix node. */
  lemma ChainExit(children: seq<map<char, int>>, words: seq<string>, parent: seq<int>,
                  u: int, w: string, c: char, bound: int)
    requires Trie(children, words, parent)
    requires Chain(children, words, u, w, c, bound) && 0 <= u < |words| && c in children[u]
    ensures Longest(words, children[u][c], w + [c], bound)
  {
    SuffixSnoc(words[u], w, c);
    forall t | 0 <= t < |words| && IsSuffix(words[t], w + [c]) && |words[t]| < bound
      ensures |words[t]| <= |words[children[u][c]]|
    {
      if words[t] != [] {
        ParentSuffix(children, words, parent, t, w, c);
      }
    }
  }

  /** The search runs off the root: only the root is a suffix node of w + [c]. */
  lemma ChainNull(children: seq<map<char, int>>, words: seq<string>, parent: seq<int>,
                  w: string, c: char, bound: int)
    requires Trie(children, words, parent) && bound >= 1
    requires Chain(children, words, Null, w, c, bound)
    ensures Longest(words, Root, w + [c], bound)
  {
    EmptySuffix(w + [c]);
    forall t | 0 <= t < |words| && IsSuffix(words[t], w + [c]) && |words[t]| < bound
      ensures |words[t]| <= 0
    {
      if words[t] != [] {
        ParentSuffix(children, words, parent, t, w, c);
      }
    }
  }

  /** The fail loop of buildFailLinks, from start until a c edge exists or
      the link is null, then the link it assigns (lines 67-73). */
  method FollowFails(children: seq<map<char, int>>, failLink: seq<int>, ghost words: seq<string>, ghost parent: seq<int>,
                     ghost w: string, ghost bound: int, start: int, c: char)
    returns (r: int)
    requires Trie(children, words, parent) && |failLink| == |words| && failLink[0] == Null && bound >= 1
    requires Chain(children, words, start, w, c, bound)
    requires forall t :: 1 <= t < |words| && |words[t]| + 1 < bound ==> IsFailure(words, failLink[t], t)
    ensures Longest(words, r, w + [c], bound)
  {
    var fail := start;
    while fail != Null && c !in children[fail]
      invariant Chain(children, words, fail, w, c, bound)
      decreases Depth(words, fail) + 1
    {
      ChainStep(children, words, parent, fail, failLink[fail], w, c, bound);
      fail := failLink[fail];
    }
    if fail != Null {
      ChainExit(children, words, parent, fail, w, c, bound);
      r := children[fail][c];
    } else {
      ChainNull(children, words, parent, w, c, bound);
      r := Root;
    }
  }

  // ---------------------------------------------------------------------
  // The breadth-first pass of buildFailLinks (lines 49-81). The keys of
  // a children map are visited in an unspecified order, as HashMap does.

  /** The edge into t has been handled: its parent is processed and, when
      the parent is the node in hand, its character is no longer pending. */
  ghost predicate Reached(words: seq<string>, parent: seq<int>, done: set<int>, cur: int, rest: set<char>, t: int)
    requires |parent| == |words| && 0 <= t < |words|
  {
    parent[t] in done && (parent[t] != cur || Last(words[t]) !in rest)
  }

  /** Handled nodes have their link and outputs; the others still have
      the outputs they had before the pass. */
  ghost predicate Links(words: seq<string>, parent: seq<int>, old0: seq<seq<string>>, failLink: seq<int>,
                        outputs: seq<seq<string>>, done: set<int>, cur: int, rest: set<char>)
    requires |old0| == |failLink| == |outputs| == |words| == |parent|
  {
    forall t :: 1 <= t < |words| ==>
      if Reached(words, parent, done, cur, rest, t) then LinkOK(words, old0, failLink, outputs, t)
      else outputs[t] == old0[t]
  }

  /** The queue holds, once each, the handled nodes not yet processed, by
      non-decreasing depth within [level, level + 1]; processed nodes are
      at most level deep and all shallower nodes are processed. */
  ghost predicate Frontier(words: seq<string>, parent: seq<int>, queue: seq<int>, done: set<int>,
                           level: int, cur: int, rest: set<char>)
    requires |parent| == |words|
  {
    (forall i :: 0 <= i < |queue| ==> 1 <= queue[i] < |words|) &&
    (forall i, j :: 0 <= i < j < |queue| ==> queue[i] != queue[j]) &&
    (forall t :: 1 <= t < |words| ==> (t in queue <==> Reached(words, parent, done, cur, rest, t) && t !in done)) &&
    (forall i, j :: 0 <= i < j < |queue| ==> |words[queue[i]]| <= |words[queue[j]]|) &&
    (forall i :: 0 <= i < |queue| ==> level <= |words[queue[i]]| <= level + 1) &&
    (forall t :: 1 <= t < |words| && |words[t]| < level ==> t in done) &&
    (forall t :: t in done ==> 0 <= t < |words| && |words[t]| <= level)
  }

  ghost predicate Bfs(children: seq<map<char, int>>, words: seq<string>, parent: seq<int>, old0: seq<seq<string>>,
                      failLink: seq<int>, outputs: seq<seq<string>>, queue: seq<int>, done: set<int>,
                      level: int, cur: int, rest: set<char>)
  {
    Trie(children, words, parent) && |old0| == |failLink| == |outputs| == |words| &&
    failLink[0] == Null && outputs[0] == old0[0] &&
    0 in done && cur in done && 0 <= cur < |words| && |words[cur]| == level && rest <= children[cur].Keys &&
    Links(words, parent, old0, failLink, outputs, done, cur, rest) &&
    Frontier(words, parent, queue, done, level, cur, rest)
  }

  lemma InitBfs(children: seq<map<char, int>>, words: seq<string>, parent: seq<int>,
                failLink: seq<int>, outputs: seq<seq<string>>)
    requires Trie(children, words, parent) && |failLink| == |outputs| == |words| && failLink[0] == Null
    ensures Bfs(children, words, parent, outputs, failLink, outputs, [], {0}, 0, 0, children[0].Keys)
  {
    forall t | 1 <= t < |words|
      ensures !Reached(words, parent, {0}, 0, children[0].Keys, t)
    {
      assert ParentOK(children, words, parent, t);
    }
  }

  /** While the node in hand is level deep, every node at most level deep is handled. */
  lemma HandledBelow(children: seq<map<char, int>>, words: seq<string>, parent: seq<int>, old0: seq<seq<string>>,
                     failLink: seq<int>, outputs: seq<seq<string>>, queue: seq<int>, done: set<int>,
                     level: int, cur: int, rest: set<char>, t: int)
    requires Bfs(children, words, parent, old0, failLink, outputs, queue, done, level, cur, rest)
    requires 1 <= t < |words| && |words[t]| <= level
    ensures Reached(words, parent, done, cur, rest, t) && LinkOK(words, old0, failLink, outputs, t)
  {
    assert ParentOK(children, words, parent, t);
    var p := parent[t];
    assert |words[p]| < level;
    assert p in done by {
      if p != 0 {
        assert 1 <= p < |words| && |words[p]| < level;
      }
    }
  }

  /** The facts about the child x along a pending edge of the node in hand. */
  lemma ChildFacts(children: seq<map<char, int>>, words: seq<string>, parent: seq<int>, old0: seq<seq<string>>,
                   failLink: seq<int>, outputs: seq<seq<string>>, queue: seq<int>, done: set<int>,
                   level: int, cur: int, rest: set<char>, ch: char, x: int)
    requires Bfs(children, words, parent, old0, failLink, outputs, queue, done, level, cur, rest)
    requires ch in rest && x == children[cur][ch]
    ensures 1 <= x < |words| && words[x] == words[cur] + [ch] && parent[x] == cur && Last(words[x]) == ch
    ensures |words[x]| == level + 1 && x !in done && outputs[x] == old0[x]
  {
    assert words[x] == words[cur] + [ch] && x != 0;
    assert ParentOK(children, words, parent, x);
    assert words[x][..|words[x]| - 1] == words[cur];
    assert !Reached(words, parent, done, cur, rest, x);
  }

  /** Linking the child x along edge ch to f and giving it outputs out
      (lines 73-79). */
  lemma Enqueue(children: seq<map<char, int>>, words: seq<string>, parent: seq<int>, old0: seq<seq<string>>,
                failLink: seq<int>, outputs: seq<seq<string>>, queue: seq<int>, done: set<int>,
                level: int, cur: int, rest: set<char>, ch: char, x: int, f: int, out: seq<string>)
    requires Bfs(children, words, parent, old0, failLink, outputs, queue, done, level, cur, rest)
    requires ch in rest && x == children[cur][ch] && 1 <= x < |words|
    requires IsFailure(words, f, x)
    requires out == if |words[x]| == 1 then old0[x] else old0[x] + outputs[f]
    ensures Bfs(children, words, parent, old0, failLink[x := f], outputs[x := out], queue + [x], done, level, cur, rest - {ch})
  {
    ChildFacts(children, words, parent, old0, failLink, outputs, queue, done, level, cur, rest, ch, x);
    EnqueueLinks(children, words, parent, old0, failLink, outputs, done, level, cur, rest, ch, x, f, out);
    EnqueueFrontier(children, words, parent, queue, done, level, cur, rest, ch, x);
  }

  /** Only x changes whether it is handled when edge ch is taken. */
  lemma TakeEdge(children: seq<map<char, int>>, words: seq<string>, parent: seq<int>,
                 done: set<int>, cur: int, rest: set<char>, ch: char, x: int, t: int)
    requires Trie(children, words, parent) && 0 <= cur < |words| && ch in children[cur] && x == children[cur][ch]
    requires 1 <= t < |words| && t != x
    ensures Reached(words, parent, done, cur, rest, t) <==> Reached(words, parent, done, cur, rest - {ch}, t)
  {
    assert ParentOK(children, words, parent, t);
  }

  lemma EnqueueLinks(children: seq<map<char, int>>, words: seq<string>, parent: seq<int>, old0: seq<seq<string>>,
                     failLink: seq<int>, outputs: seq<seq<string>>, done: set<int>,
                     level: int, cur: int, rest: set<char>, ch: char, x: int, f: int, out: seq<string>)
    requires Trie(children, words, parent) && |old0| == |failLink| == |outputs| == |words|
    requires Links(words, parent, old0, failLink, outputs, done, cur, rest)
    requires forall t :: t in done ==> 0 <= t < |words| && |words[t]| <= level
    requires 0 <= cur < |words| && cur in done && ch in rest && ch in children[cur] && x == children[cur][ch]
    requires 1 <= x < |words| && |words[x]| == level + 1 && parent[x] == cur && Last(words[x]) == ch
    requires IsFailure(words, f, x)
    requires out == if |words[x]| == 1 then old0[x] else old0[x] + outputs[f]
    ensures Links(words, parent, old0, failLink[x := f], outputs[x := out], done, cur, rest - {ch})
  {
    var failLink', outputs' := failLink[x := f], outputs[x := out];
    forall t | 1 <= t < |words|
      ensures if Reached(words, parent, done, cur, rest - {ch}, t) then LinkOK(words, old0, failLink', outputs', t)
              else outputs'[t] == old0[t]
    {
      if t == x {
        assert |words[f]| < |words[x]|;
      } else {
        TakeEdge(children, words, parent, done, cur, rest, ch, x, t);
        if Reached(words, parent, done, cur, rest, t) {
          assert ParentOK(children, words, parent, t);
          assert LinkOK(words, old0, failLink, outputs, t);
          assert |words[failLink[t]]| < |words[t]| <= level + 1;
        }
      }
    }
  }

  lemma EnqueueFrontier(children: seq<map<char, int>>, words: seq<string>, parent: seq<int>, queue: seq<int>,
                        done: set<int>, level: int, cur: int, rest: set<char>, ch: char, x: int)
    requires Trie(children, words, parent)
    requires Frontier(words, parent, queue, done, level, cur, rest)
    requires 0 <= cur < |words| && cur in done && ch in rest && ch in children[cur] && x == children[cur][ch]
    requires 1 <= x < |words| && |words[x]| == level + 1 && parent[x] == cur && Last(words[x]) == ch && x !in done
    ensures Frontier(words, parent, queue + [x], done, level, cur, rest - {ch})
  {
    assert x !in queue;
    forall t | 1 <= t < |words| && t != x
      ensures Reached(words, parent, done, cur, rest, t) <==> Reached(words, parent, done, cur, rest - {ch}, t)
    {
      TakeEdge(children, words, parent, done, cur, rest, ch, x, t);
    }
  }

  /** Taking the front of the queue as the node to process (line 60). */
  lemma Pop(children: seq<map<char, int>>, words: seq<string>, parent: seq<int>, old0: seq<seq<string>>,
            failLink: seq<int>, outputs: seq<seq<string>>, queue: seq<int>, done: set<int>,
            level: int, cur: int)
    requires Bfs(children, words, parent, old0, failLink, outputs, queue, done, level, cur, {})
    requires |queue| > 0
    ensures 1 <= queue[0] < |words| && queue[0] !in done
    ensures Bfs(children, words, parent, old0, failLink, outputs, queue[1..], done + {queue[0]},
                |words[queue[0]]|, queue[0], children[queue[0]].Keys)
    ensures LinkOK(words, old0, failLink, outputs, queue[0])
  {
    var s := queue[0];
    assert s in queue;
    forall t | 1 <= t < |words|
      ensures Reached(words, parent, done, cur, {}, t) <==> Reached(words, parent, done + {s}, s, children[s].Keys, t)
    {
      assert ParentOK(children, words, parent, t);
    }
    PopFrontier(children, words, parent, queue, done, level, cur);
  }

  lemma PopFrontier(children: seq<map<char, int>>, words: seq<string>, parent: seq<int>, queue: seq<int>,
                    done: set<int>, level: int, cur: int)
    requires Trie(children, words, parent)
    requires Frontier(words, parent, queue, done, level, cur, {}) && |queue| > 0 && 0 in done
    requires forall t :: 1 <= t < |words| ==>
      (Reached(words, parent, done, cur, {}, t) <==> Reached(words, parent, done + {queue[0]}, queue[0], children[queue[0]].Keys, t))
    ensures Frontier(words, parent, queue[1..], done + {queue[0]}, |words[queue[0]]|, queue[0], children[queue[0]].Keys)
  {
    var s := queue[0];
    var done' := done + {s};
    var level' := |words[s]|;
    forall t | 1 <= t < |words|
      ensures t in queue[1..] <==> Reached(words, parent, done, cur, {}, t) && t !in done'
    {
      if t in queue[1..] {
        var i :| 0 <= i < |queue[1..]| && queue[1..][i] == t;
        assert queue[i + 1] == t;
      }
      if t != s && t in queue {
        var i :| 0 <= i < |queue| && queue[i] == t;
        assert i != 0 && queue[1..][i - 1] == t;
      }
    }
    forall i | 0 <= i < |queue|
      ensures |words[queue[i]]| >= level'
    {
      if i > 0 {
        assert |words[queue[0]]| <= |words[queue[i]]|;
      }
    }
    forall t | 1 <= t < |words| && |words[t]| < level'
      ensures t in done'
    {
      if |words[t]| >= level {
        assert ParentOK(children, words, parent, t);
        var p := parent[t];
        assert p in done by {
          if p != 0 {
            assert 1 <= p < |words| && |words[p]| < level;
          }
        }
        assert Reached(words, parent, done, cur, {}, t);
        assert t !in queue;
      }
    }
    TailOrder(words, queue, level);
  }

  lemma TailOrder(words: seq<string>, queue: seq<int>, level: int)
    requires forall i :: 0 <= i < |queue| ==> 1 <= queue[i] < |words|
    requires forall i, j :: 0 <= i < j < |queue| ==> queue[i] != queue[j]
    requires forall i, j :: 0 <= i < j < |queue| ==> |words[queue[i]]| <= |words[queue[j]]|
    requires forall i :: 0 <= i < |queue| ==> level <= |words[queue[i]]| <= level + 1
    requires |queue| > 0
    ensures forall i :: 0 <= i < |queue[1..]| ==> 1 <= queue[1..][i] < |words|
    ensures forall i, j :: 0 <= i < j < |queue[1..]| ==> queue[1..][i] != queue[1..][j]
    ensures forall i, j :: 0 <= i < j < |queue[1..]| ==> |words[queue[1..][i]]| <= |words[queue[1..][j]]|
    ensures forall i :: 0 <= i < |queue[1..]| ==>
      |words[queue[0]]| <= |words[queue[1..][i]]| <= |words[queue[0]]| + 1
  {
    forall i | 0 <= i < |queue[1..]|
      ensures |words[queue[0]]| <= |words[queue[1..][i]]|
    {
      assert queue[1..][i] == queue[i + 1];
    }
  }

  /** A node one character deep fails to the root. */
  lemma DepthOne(words: seq<string>, x: int)
    requires WordsOK(words) && 0 <= x < |words| && |words[x]| == 1
    ensures IsFailure(words, Root, x)
  {
    EmptySuffix(words[x]);
  }

  /** The children of the root fail to the root and keep their outputs (lines 53-56). */
  method LinkRootChildren(children: seq<map<char, int>>, failLink: seq<int>, ghost words: seq<string>,
                          ghost parent: seq<int>, ghost outputs: seq<seq<string>>)
    returns (failLink': seq<int>, queue: seq<int>)
    requires Trie(children, words, parent)
    requires Bfs(children, words, parent, outputs, failLink, outputs, [], {0}, 0, 0, children[0].Keys)
    ensures Bfs(children, words, parent, outputs, failLink', outputs, queue, {0}, 0, 0, {})
  {
    failLink', queue := failLink, [];
    var rest := children[Root].Keys;
    while rest != {}
      invariant Bfs(children, words, parent, outputs, failLink', outputs, queue, {0}, 0, 0, rest)
      decreases |rest|
    {
      var ch :| ch in rest;
      var x := children[Root][ch];
      ChildFacts(children, words, parent, outputs, failLink', outputs, queue, {0}, 0, 0, rest, ch, x);
      DepthOne(words, x);
      Enqueue(children, words, parent, outputs, failLink', outputs, queue, {0}, 0, 0, rest, ch, x, Root, outputs[x]);
      assert outputs[x := outputs[x]] == outputs;
      failLink' := failLink'[x := Root];
      queue := queue + [x];
      rest := rest - {ch};
    }
  }

  /** The children of a node taken from the queue: their links and
      inherited outputs (lines 61-80). */
  method LinkChildren(children: seq<map<char, int>>, failLink: seq<int>, outputs: seq<seq<string>>,
                      queue: seq<int>, ghost words: seq<string>, ghost parent: seq<int>, ghost old0: seq<seq<string>>,
                      ghost done: set<int>, ghost level: int, current: int)
    returns (failLink': seq<int>, outputs': seq<seq<string>>, queue': seq<int>)
    requires Trie(children, words, parent) && 1 <= current < |words|
    requires Bfs(children, words, parent, old0, failLink, outputs, queue, done, level, current, children[current].Keys)
    requires LinkOK(words, old0, failLink, outputs, current)
    ensures Bfs(children, words, parent, old0, failLink', outputs', queue', done, level, current, {})
  {
    failLink', outputs', queue' := failLink, outputs, queue;
    var rest := children[current].Keys;
    while rest != {}
      invariant Bfs(children, words, parent, old0, failLink', outputs', queue', done, level, current, rest)
      invariant IsFailure(words, failLink'[current], current)
      decreases |rest|
    {
      var ch :| ch in rest;
      var child := children[current][ch];
      ChildFacts(children, words, parent, old0, failLink', outputs', queue', done, level, current, rest, ch, child);
      forall t | 1 <= t < |words| && |words[t]| + 1 < |words[current]| + 1
        ensures IsFailure(words, failLink'[t], t)
      {
        HandledBelow(children, words, parent, old0, failLink', outputs', queue', done, level, current, rest, t);
      }
      var f := FollowFails(children, failLink', words, parent, words[current], |words[current]| + 1, failLink'[current], ch);
      assert words[current] + [ch] == words[child];
      Enqueue(children, words, parent, old0, failLink', outputs', queue', done, level, current, rest, ch, child, f,
              outputs'[child] + outputs'[f]);
      failLink' := failLink'[child := f];
      outputs' := outputs'[child := outputs'[child] + outputs'[f]];
      queue' := queue' + [child];
      rest := rest - {ch};
    }
  }

  /** With the queue empty, every node but the root is handled. */
  lemma {:induction false} AllReached(children: seq<map<char, int>>, words: seq<string>, parent: seq<int>,
                                      old0: seq<seq<string>>, failLink: seq<int>, outputs: seq<seq<string>>,
                                      done: set<int>, level: int, cur: int, t: int)
    requires Bfs(children, words, parent, old0, failLink, outputs, [], done, level, cur, {})
    requires 1 <= t < |words|
    ensures Reached(words, parent, done, cur, {}, t)
    decreases |words[t]|
  {
    assert ParentOK(children, words, parent, t);
    var p := parent[t];
    if p != 0 {
      assert |words[p]| < |words[t]|;
      AllReached(children, words, parent, old0, failLink, outputs, done, level, cur, p);
      assert p !in [];
    }
  }

  /** buildFailLinks over the arena. */
  method BuildLinks(children: seq<map<char, int>>, failLink: seq<int>, outputs: seq<seq<string>>,
                    ghost words: seq<string>, ghost parent: seq<int>)
    returns (failLink': seq<int>, outputs': seq<seq<string>>)
    requires Trie(children, words, parent) && |failLink| == |outputs| == |words| && failLink[0] == Null
    ensures Rebuilt(words, outputs, failLink', outputs')
  {
    InitBfs(children, words, parent, failLink, outputs);
    var queue;
    failLink', queue := LinkRootChildren(children, failLink, words, parent, outputs);
    outputs' := outputs;
    ghost var done: set<int> := {0};
    ghost var level := 0;
    ghost var cur := 0;
    while queue != []
      invariant Bfs(children, words, parent, outputs, failLink', outputs', queue, done, level, cur, {})
      decreases |words| - |done|
    {
      Pop(children, words, parent, outputs, failLink', outputs', queue, done, level, cur);
      var current := queue[0];
      queue := queue[1..];
      CardBound(done + {current}, |words|);
      done, level, cur := done + {current}, |words[current]|, current;
      failLink', outputs', queue := LinkChildren(children, failLink', outputs', queue, words, parent, outputs,
                                                 done, level, current);
    }
    forall t | 1 <= t < |words|
      ensures LinkOK(words, outputs, failLink', outputs', t)
    {
      AllReached(children, words, parent, outputs, failLink', outputs', done, level, cur, t);
    }
  }

  // ---------------------------------------------------------------------
  // Keyword occurrences.

  /** The keywords of ins equal to w, in insertion order: what insertion
      alone leaves at the node spelling w. */
  function Own(ins: seq<string>, w: string): seq<string>
  {
    if ins == [] then [] else Own(ins[..|ins| - 1], w) + (if ins[|ins| - 1] == w then [w] else [])
  }

  /** The keywords of ins that end w, in insertion order. */
  function SuffixesOf(ins: seq<string>, w: string): seq<string>
  {
    if ins == [] then []
    else SuffixesOf(ins[..|ins| - 1], w) + (if IsSuffix(ins[|ins| - 1], w) then [ins[|ins| - 1]] else [])
  }

  /** The (end position, keyword) occurrences in s[..n], overlaps included,
      each inserted keyword counted once per insertion. */
  function Occurrences(ins: seq<string>, s: string, n: nat): nat
    requires n <= |s|
  {
    if n == 0 then 0 else Occurrences(ins, s, n - 1) + |SuffixesOf(ins, s[..n])|
  }

  /** A string no keyword equals owns nothing. */
  lemma {:induction false} OwnAbsent(ins: seq<string>, w: string)
    requires forall k :: k in ins ==> k != w
    ensures Own(ins, w) == []
    decreases |ins|
  {
    if ins != [] {
      var n := |ins| - 1;
      assert forall k :: k in ins[..n] ==> k in ins;
      OwnAbsent(ins[..n], w);
      assert ins[n] in ins;
    }
  }

  /** k ends w exactly when it is w or ends v, and not both. */
  ghost predicate SplitsAt(k: string, w: string, v: string)
  {
    (IsSuffix(k, w) <==> k == w || IsSuffix(k, v)) && !(k == w && IsSuffix(k, v))
  }

  /** The keywords ending w are those equal to w and those ending a shorter v. */
  lemma SplitSuffixes(ins: seq<string>, w: string, v: string)
    requires forall k :: k in ins ==> (IsSuffix(k, w) <==> k == w || IsSuffix(k, v)) && !(k == w && IsSuffix(k, v))
    ensures multiset(SuffixesOf(ins, w)) == multiset(Own(ins, w)) + multiset(SuffixesOf(ins, v))
  {
    forall i | 0 <= i < |ins|
      ensures SplitsAt(ins[i], w, v)
    {
      assert ins[i] in ins;
    }
    SplitSuffixesAt(ins, w, v);
  }

  lemma {:induction false} SplitSuffixesAt(ins: seq<string>, w: string, v: string)
    requires forall i :: 0 <= i < |ins| ==> SplitsAt(ins[i], w, v)
    ensures multiset(SuffixesOf(ins, w)) == multiset(Own(ins, w)) + multiset(SuffixesOf(ins, v))
    decreases |ins|
  {
    if ins != [] {
      var n := |ins| - 1;
      var m, k := ins[..n], ins[n];
      assert forall i :: 0 <= i < |m| ==> m[i] == ins[i];
      SplitSuffixesAt(m, w, v);
      assert SplitsAt(k, w, v);
      SnocSplit(SuffixesOf(m, w), Own(m, w), SuffixesOf(m, v), k, w, IsSuffix(k, w), k == w, IsSuffix(k, v));
    }
  }

  /** One more keyword k goes to exactly one side of the split. */
  lemma SnocSplit(a: seq<string>, b: seq<string>, c: seq<string>, k: string, w: string, inA: bool, inB: bool, inC: bool)
    requires multiset(a) == multiset(b) + multiset(c)
    requires (inA <==> inB || inC) && !(inB && inC) && (inB ==> k == w)
    ensures multiset(a + (if inA then [k] else [])) ==
            multiset(b + (if inB then [w] else [])) + multiset(c + (if inC then [k] else []))
  {
  }

  /** Strings ended by the same keywords have the same keyword suffixes. */
  lemma {:induction false} SuffixesAgree(ins: seq<string>, w: string, v: string)
    requires forall k :: k in ins ==> (IsSuffix(k, w) <==> IsSuffix(k, v))
    ensures SuffixesOf(ins, w) == SuffixesOf(ins, v)
    decreases |ins|
  {
    if ins != [] {
      var n := |ins| - 1;
      assert forall k :: k in ins[..n] ==> k in ins;
      SuffixesAgree(ins[..n], w, v);
      assert ins[n] in ins;
    }
  }

  /** Without empty keywords the root neither owns nor ends any keyword. */
  lemma {:induction false} RootEmpty(ins: seq<string>)
    requires forall k :: k in ins ==> k != []
    ensures Own(ins, []) == [] && SuffixesOf(ins, []) == []
    decreases |ins|
  {
    if ins != [] {
      var n := |ins| - 1;
      assert forall k :: k in ins[..n] ==> k in ins;
      RootEmpty(ins[..n]);
      assert ins[n] in ins;
    }
  }

  /** One pass of buildFailLinks over nodes that hold only their own
      keywords leaves at every node each non-empty inserted keyword ending
      its string, once per insertion. */
  lemma {:induction false} FreshCounts(words: seq<string>, ins: seq<string>, old0: seq<seq<string>>,
                                       failLink: seq<int>, outputs: seq<seq<string>>, t: int)
    requires WordsOK(words) && Rebuilt(words, old0, failLink, outputs)
    requires forall k :: k in ins ==> k != [] && k in words
    requires forall s :: 0 <= s < |words| ==> old0[s] == Own(ins, words[s])
    requires 0 <= t < |words|
    ensures multiset(outputs[t]) == multiset(SuffixesOf(ins, words[t]))
    decreases |words[t]|
  {
    RootEmpty(ins);
    if t == 0 {
    } else if |words[t]| == 1 {
      assert LinkOK(words, old0, failLink, outputs, t);
      forall k | k in ins
        ensures IsSuffix(k, words[t]) <==> k == words[t] || IsSuffix(k, [])
      {
        if IsSuffix(k, words[t]) {
          assert words[t][0..] == words[t];
        }
      }
      SplitSuffixes(ins, words[t], []);
    } else {
      assert LinkOK(words, old0, failLink, outputs, t);
      var f := failLink[t];
      FreshCounts(words, ins, old0, failLink, outputs, f);
      forall k | k in ins
        ensures IsSuffix(k, words[t]) <==> k == words[t] || IsSuffix(k, words[f])
      {
        if IsSuffix(k, words[t]) && k != words[t] {
          var u :| 0 <= u < |words| && words[u] == k;
          SuffixCompare(k, words[f], words[t]);
        }
        if IsSuffix(k, words[f]) {
          SuffixTrans(k, words[f], words[t]);
        }
      }
      SplitSuffixes(ins, words[t], words[f]);
    }
  }

  // ---------------------------------------------------------------------
  // The node search is in: the deepest node ending what was read.

  ghost function IndexOf(words: seq<string>, w: string): (r: int)
    ensures -1 <= r < |words| && (r >= 0 ==> words[r] == w) && (r < 0 ==> w !in words)
  {
    if words == [] then -1
    else if words[|words| - 1] == w then |words| - 1
    else IndexOf(words[..|words| - 1], w)
  }

  /** The node spelling w if there is one, else the deepest node ending w[1..]. */
  ghost function Deepest(words: seq<string>, w: string): (r: int)
    requires |words| >= 1
    ensures 0 <= r < |words|
    decreases |w|
  {
    var i := IndexOf(words, w);
    if i >= 0 then i else if w == [] then Root else Deepest(words, w[1..])
  }

  lemma {:induction false} DeepestLongest(words: seq<string>, w: string)
    requires WordsOK(words)
    ensures Longest(words, Deepest(words, w), w, |w| + 1)
    decreases |w|
  {
    if IndexOf(words, w) >= 0 {
      SuffixOfItself(w);
    } else {
      assert w != [];
      var v := w[1..];
      DeepestLongest(words, v);
      var r := Deepest(words, v);
      assert IsSuffix(v, w);
      SuffixTrans(words[r], v, w);
      forall t | 0 <= t < |words| && IsSuffix(words[t], w) && |words[t]| < |w| + 1
        ensures |words[t]| <= |words[r]|
      {
        assert words[t] != w;
        assert |words[t]| < |w|;
        assert v[|v| - |words[t]|..] == w[|w| - |words[t]|..];
      }
    }
  }

  lemma LongestUnique(words: seq<string>, x: int, y: int, w: string, bound: int)
    requires WordsOK(words) && Longest(words, x, w, bound) && Longest(words, y, w, bound)
    ensures x == y
  {
    SuffixSameLength(words[x], words[y], w);
  }

  /** Reading c after w from the deepest node ending w. */
  lemma ChainFrom(children: seq<map<char, int>>, words: seq<string>, u: int, w: string, c: char)
    requires |children| == |words| && Longest(words, u, w, |w| + 1)
    ensures Chain(children, words, u, w, c, |w| + 2)
  {
  }

  /** One character of search (lines 96-101): falls back along failure
      links to a node with a c edge or to the root, then takes the edge or
      stays at the root. */
  method Step(children: seq<map<char, int>>, failLink: seq<int>, ghost words: seq<string>, ghost parent: seq<int>,
              ghost w: string, node: int, c: char)
    returns (r: int)
    requires Trie(children, words, parent) && |failLink| == |words| && failLink[0] == Null
    requires forall t :: 1 <= t < |words| ==> IsFailure(words, failLink[t], t)
    requires Longest(words, node, w, |w| + 1)
    ensures Longest(words, r, w + [c], |w| + 2)
  {
    ChainFrom(children, words, node, w, c);
    var u := node;
    while u != Root && c !in children[u]
      invariant 0 <= u < |words| && Chain(children, words, u, w, c, |w| + 2)
      decreases |words[u]|
    {
      ChainStep(children, words, parent, u, failLink[u], w, c, |w| + 2);
      u := failLink[u];
    }
    if c in children[u] {
      ChainExit(children, words, parent, u, w, c, |w| + 2);
      r := children[u][c];
    } else {
      ChainStep(children, words, parent, u, Null, w, c, |w| + 2);
      ChainNull(children, words, parent, w, c, |w| + 2);
      r := Root;
    }
  }

  /** What search adds up over s[..n]: at each end position, the number of
      outputs of the deepest node ending there. */
  ghost function OutputsAlong(words: seq<string>, outputs: seq<seq<string>>, s: string, n: nat): int
    requires |words| >= 1 && |outputs| == |words| && n <= |s|
  {
    if n == 0 then 0 else OutputsAlong(words, outputs, s, n - 1) + |outputs[Deepest(words, s[..n])]|
  }

  /** The node Step reaches after s[..i] and s[i] is the deepest node ending s[..i + 1]. */
  lemma StepDeepest(words: seq<string>, s: string, i: int, node: int)
    requires WordsOK(words) && 0 <= i < |s| && Longest(words, node, s[..i] + [s[i]], i + 2)
    ensures node == Deepest(words, s[..i + 1])
  {
    assert s[..i] + [s[i]] == s[..i + 1];
    DeepestLongest(words, s[..i + 1]);
    LongestUnique(words, node, Deepest(words, s[..i + 1]), s[..i + 1], i + 2);
  }

  /** The loop of search over the folded text (lines 87-107). */
  method Count(children: seq<map<char, int>>, failLink: seq<int>, outputs: seq<seq<string>>,
               ghost words: seq<string>, ghost parent: seq<int>, s: string)
    returns (count: int)
    requires Trie(children, words, parent) && |failLink| == |outputs| == |words| && failLink[0] == Null
    requires forall t :: 1 <= t < |words| ==> IsFailure(words, failLink[t], t)
    ensures count == OutputsAlong(words, outputs, s, |s|)
  {
    var node := Root;
    count := 0;
    for i := 0 to |s|
      invariant 0 <= node < |words| && node == Deepest(words, s[..i])
      invariant count == OutputsAlong(words, outputs, s, i)
    {
      DeepestLongest(words, s[..i]);
      node := Step(children, failLink, words, parent, s[..i], node, s[i]);
      StepDeepest(words, s, i, node);
      count := count + |outputs[node]|;
    }
    assert s[..|s|] == s;
  }

  /** With the outputs of a fresh build, search counts the occurrences. */
  lemma {:induction false} CountsOccurrences(words: seq<string>, outputs: seq<seq<string>>, ins: seq<string>, s: string, n: nat)
    requires WordsOK(words) && |outputs| == |words| && n <= |s|
    requires forall k :: k in ins ==> k != [] && k in words
    requires forall t :: 0 <= t < |words| ==> multiset(outputs[t]) == multiset(SuffixesOf(ins, words[t]))
    ensures OutputsAlong(words, outputs, s, n) == Occurrences(ins, s, n)
  {
    if n > 0 {
      CountsOccurrences(words, outputs, ins, s, n - 1);
      CountAt(words, outputs, ins, s[..n]);
    }
  }

  /** The node reached on w holds as many keywords as end w. */
  lemma CountAt(words: seq<string>, outputs: seq<seq<string>>, ins: seq<string>, w: string)
    requires WordsOK(words) && |outputs| == |words|
    requires forall k :: k in ins ==> k != [] && k in words
    requires forall t :: 0 <= t < |words| ==> multiset(outputs[t]) == multiset(SuffixesOf(ins, words[t]))
    ensures |outputs[Deepest(words, w)]| == |SuffixesOf(ins, w)|
  {
    var d := Deepest(words, w);
    DeepestLongest(words, w);
    forall k | k in ins
      ensures IsSuffix(k, words[d]) <==> IsSuffix(k, w)
    {
      if IsSuffix(k, w) {
        SuffixCompare(k, words[d], w);
      }
      if IsSuffix(k, words[d]) {
        SuffixTrans(k, words[d], w);
      }
    }
    SuffixesAgree(ins, words[d], w);
    assert |outputs[d]| == |multiset(outputs[d])|;
  }

  /** The state of an automaton object: a trie with one failure link and
      one output list per node, the root's link null, and every inserted
      keyword spelled by a node. */
  ghost predicate Automaton(children: seq<map<char, int>>, failLink: seq<int>, outputs: seq<seq<string>>,
                            words: seq<string>, parent: seq<int>, inserted: seq<string>)
  {
    Trie(children, words, parent) && |failLink| == |words| && |outputs| == |words| && failLink[0] == Null &&
    forall k :: k in inserted ==> k in words
  }

  /** Every node holds exactly the keywords inserted at it. */
  ghost predicate HoldsOwn(words: seq<string>, outputs: seq<seq<string>>, ins: seq<string>)
    requires |outputs| == |words|
  {
    forall t :: 0 <= t < |words| ==> outputs[t] == Own(ins, words[t])
  }

  /** Every node holds each inserted keyword ending its string, once per insertion. */
  ghost predicate HoldsSuffixes(words: seq<string>, outputs: seq<seq<string>>, ins: seq<string>)
    requires |outputs| == |words|
  {
    forall t :: 0 <= t < |words| ==> multiset(outputs[t]) == multiset(SuffixesOf(ins, words[t]))
  }

  /** Every node but the root links to its longest proper suffix node. */
  ghost predicate FailureLinked(words: seq<string>, failLink: seq<int>)
    requires |failLink| == |words|
  {
    forall t :: 1 <= t < |words| ==> IsFailure(words, failLink[t], t)
  }

  /** Insertion keeps every node holding exactly its own keywords, and
      every inserted keyword a node. */
  lemma InsertKeepsOwn(words0: seq<string>, outputs0: seq<seq<string>>, ins0: seq<string>,
                       words: seq<string>, outputs: seq<seq<string>>, w: string)
    requires WordsOK(words) && |outputs0| == |words0| <= |words| == |outputs| && w in words
    requires forall t :: 0 <= t < |words0| ==> words[t] == words0[t]
    requires forall k :: k in ins0 ==> k in words0
    requires forall t :: 0 <= t < |words| ==>
      outputs[t] == (if t < |words0| then outputs0[t] else []) + (if words[t] == w then [w] else [])
    ensures forall k :: k in ins0 + [w] ==> k in words
    ensures HoldsOwn(words0, outputs0, ins0) ==> HoldsOwn(words, outputs, ins0 + [w])
  {
    var ins := ins0 + [w];
    assert ins[..|ins| - 1] == ins0;
    forall k | k in ins
      ensures k in words
    {
      if k != w {
        var u :| 0 <= u < |words0| && words0[u] == k;
        assert words[u] == k;
      }
    }
    if HoldsOwn(words0, outputs0, ins0) {
      forall t | 0 <= t < |words|
        ensures outputs[t] == Own(ins, words[t])
      {
        if t >= |words0| {
          forall k | k in ins0
            ensures k != words[t]
          {
            var u :| 0 <= u < |words0| && words0[u] == k;
            assert words[u] == k;
          }
          OwnAbsent(ins0, words[t]);
        }
      }
    }
  }

  // ---------------------------------------------------------------------
  // The automaton object (class AhoCorasick, lines 27-109).

  class AhoCorasick {
    var children: seq<map<char, int>>
    var failLink: seq<int>
    var outputs: seq<seq<string>>
    ghost var words: seq<string>
    ghost var parent: seq<int>
    /** The folded keywords added so far, in order. */
    ghost var inserted: seq<string>

    ghost predicate Valid()
      reads this
    {
      Automaton(children, failLink, outputs, words, parent, inserted)
    }

    /** Only insertions so far: every node holds exactly its own keywords. */
    ghost predicate Fresh()
      reads this
      requires Valid()
    {
      HoldsOwn(words, outputs, inserted)
    }

    /** Every node but the root links to its longest proper suffix node. */
    ghost predicate Linked()
      reads this
      requires Valid()
    {
      FailureLinked(words, failLink)
    }

    /** Every node holds each inserted keyword ending its string, once per insertion. */
    ghost predicate Counts()
      reads this
      requires Valid()
    {
      HoldsSuffixes(words, outputs, inserted)
    }

    constructor ()
      ensures Valid() && Fresh() && words == [[]] && inserted == []
    {
      children := [map[]];
      failLink := [Null];
      outputs := [[]];
      words := [[]];
      parent := [Root];
      inserted := [];
    }

    /** addKeyword (lines 33-42). */
    method AddKeyword(keyword: string)
      requires Valid()
      modifies this
      ensures Valid() && inserted == old(inserted) + [LowerCase(keyword)]
      ensures words == Grown(old(words), LowerCase(keyword))
      ensures failLink == old(failLink) + seq(|words| - old(|words|), _ => Null)
      ensures forall t :: 0 <= t < |words| ==>
        outputs[t] == (if t < old(|words|) then old(outputs)[t] else []) +
                      (if words[t] == LowerCase(keyword) then [LowerCase(keyword)] else [])
      ensures old(Fresh()) ==> Fresh()
    {
      var w := LowerCase(keyword);
      var children', failLink', outputs', words', parent' := Insert(children, failLink, outputs, words, parent, w);
      InsertKeepsOwn(words, outputs, inserted, words', outputs', w);
      assert Automaton(children', failLink', outputs', words', parent', inserted + [w]);
      children, failLink, outputs, words, parent := children', failLink', outputs', words', parent';
      inserted := inserted + [w];
    }

    /** buildFailLinks (lines 47-82). */
    method BuildFailLinks()
      requires Valid()
      modifies this
      ensures Valid() && Linked()
      ensures children == old(children) && words == old(words) && parent == old(parent) && inserted == old(inserted)
      ensures Rebuilt(words, old(outputs), failLink, outputs)
      ensures old(Fresh()) && (forall k :: k in inserted ==> k != []) ==> Counts()
    {
      ghost var wasFresh := Fresh();
      ghost var outputs0 := outputs;
      failLink, outputs := BuildLinks(children, failLink, outputs, words, parent);
      forall t | 1 <= t < |words|
        ensures IsFailure(words, failLink[t], t)
      {
        assert LinkOK(words, outputs0, failLink, outputs, t);
      }
      if wasFresh && forall k :: k in inserted ==> k != [] {
        forall t | 0 <= t < |words|
          ensures multiset(outputs[t]) == multiset(SuffixesOf(inserted, words[t]))
        {
          FreshCounts(words, inserted, outputs0, failLink, outputs, t);
        }
      }
    }

    /** search (lines 86-108): the number of outputs of the nodes passed
      through; once the outputs count insertions, the number of keyword
      occurrences in the folded text. */
    method Search(text: string) returns (count: int)
      requires Valid() && Linked()
      ensures count == OutputsAlong(words, outputs, LowerCase(text), |text|)
      ensures Counts() && (forall k :: k in inserted ==> k != []) ==>
        count == Occurrences(inserted, LowerCase(text), |text|)
    {
      count := Count(children, failLink, outputs, words, parent, LowerCase(text));
      if Counts() && forall k :: k in inserted ==> k != [] {
        CountsOccurrences(words, outputs, inserted, LowerCase(text), |text|);
      }
    }
  
    /** The "S" action (lines 144-158): the books, by index, that search
      finds a match in, each with its count. */
    method Report(books: seq<string>) returns (result: seq<(int, int)>)
      requires Valid() && Linked()
      ensures result == Hits(words, outputs, books, |books|)
      ensures Counts() && (forall k :: k in inserted ==> k != []) ==>
        forall p :: p in result ==> 0 <= p.0 < |books| && p.1 == Occurrences(inserted, LowerCase(books[p.0]), |books[p.0]|) > 0
    {
      result := [];
      for j := 0 to |books|
        invariant result == Hits(words, outputs, books, j)
      {
        var matches := Search(books[j]);
        if matches > 0 {
          result := result + [(j, matches)];
        }
      }
      if Counts() && forall k :: k in inserted ==> k != [] {
        HitsCount(words, outputs, inserted, books, |books|);
      }
    }
  }

  /** The pairs (j, count) the "S" action reports for books[..n]. */
  ghost function Hits(words: seq<string>, outputs: seq<seq<string>>, books: seq<string>, n: nat): seq<(int, int)>
    requires |words| >= 1 && |outputs| == |words| && n <= |books|
  {
    if n == 0 then []
    else
      var c := OutputsAlong(words, outputs, LowerCase(books[n - 1]), |books[n - 1]|);
      Hits(words, outputs, books, n - 1) + (if c > 0 then [(n - 1, c)] else [])
  }

  /** A reported pair names a book before n and how often the keywords occur in it. */
  ghost predicate HitOk(ins: seq<string>, books: seq<string>, n: nat, p: (int, int))
    requires n <= |books|
  {
    0 <= p.0 < n && p.1 == Occurrences(ins, LowerCase(books[p.0]), |books[p.0]|) > 0
  }

  lemma HitsCount(words: seq<string>, outputs: seq<seq<string>>, ins: seq<string>, books: seq<string>, n: nat)
    requires WordsOK(words) && |outputs| == |words| && n <= |books|
    requires forall k :: k in ins ==> k != [] && k in words
    requires HoldsSuffixes(words, outputs, ins)
    ensures forall p :: p in Hits(words, outputs, books, n) ==>
      0 <= p.0 < n && p.1 == Occurrences(ins, LowerCase(books[p.0]), |books[p.0]|) > 0
  {
    forall j | 0 <= j < n
      ensures OutputsAlong(words, outputs, LowerCase(books[j]), |books[j]|) == Occurrences(ins, LowerCase(books[j]), |books[j]|)
    {
      CountsOccurrences(words, outputs, ins, LowerCase(books[j]), |books[j]|);
    }
    var h := Hits(words, outputs, books, n);
    HitsCountAt(words, outputs, ins, books, n);
    forall p | p in h
      ensures HitOk(ins, books, n, p)
    {
      var i :| 0 <= i < |h| && h[i] == p;
    }
  }

  lemma {:induction false} HitsCountAt(words: seq<string>, outputs: seq<seq<string>>, ins: seq<string>, books: seq<string>, n: nat)
    requires |words| >= 1 && |outputs| == |words| && n <= |books|
    requires forall j :: 0 <= j < n ==>
      OutputsAlong(words, outputs, LowerCase(books[j]), |books[j]|) == Occurrences(ins, LowerCase(books[j]), |books[j]|)
    ensures forall i :: 0 <= i < |Hits(words, outputs, books, n)| ==> HitOk(ins, books, n, Hits(words, outputs, books, n)[i])
  {
    if n > 0 {
      HitsCountAt(words, outputs, ins, books, n - 1);
      var h0 := Hits(words, outputs, books, n - 1);
      assert forall i :: 0 <= i < |h0| ==> HitOk(ins, books, n, h0[i]);
    }
  }

  // ---------------------------------------------------------------------
  // Rebuilding after a late addKeyword (lines 139-143).

  /** Among the strings "", "a", "ab", "b" and copies of "c", the failure node of "ab" is "b". */
  lemma FailureOfAb(words: seq<string>, f: int)
    requires |words| >= 4 && words[0] == "" && words[1] == "a" && words[2] == "ab" && words[3] == "b"
    requires forall t :: 4 <= t < |words| ==> words[t] == "c"
    requires IsFailure(words, f, 2)
    ensures f == 3
  {
    assert IsSuffix(words[3], words[2]);
    assert words[2][1..] == "b";
  }

  /** Keywords "ab", "b", "c" occur twice in "ab": "ab" and "b" at its end. */
  lemma OccurrencesInAb()
    ensures Occurrences(["ab", "b", "c"], "ab", 2) == 2
  {
    var s := "ab";
    assert s[..1] == "a" && s[..2] == s;
    NoneEndA();
    TwoEndAb();
  }

  lemma NoneEndA()
    ensures SuffixesOf(["ab", "b", "c"], "a") == []
  {
    var ins, i2, i1: seq<string> := ["ab", "b", "c"], ["ab", "b"], ["ab"];
    assert ins[..2] == i2 && i2[..1] == i1 && i1[..0] == [];
    assert !IsSuffix("ab", "a");
    assert !IsSuffix("b", "a") by { assert "a"[0] != "b"[0]; }
    assert !IsSuffix("c", "a") by { assert "a"[0] != "c"[0]; }
    assert SuffixesOf(i1, "a") == [];
    assert SuffixesOf(i2, "a") == [];
  }

  lemma TwoEndAb()
    ensures SuffixesOf(["ab", "b", "c"], "ab") == ["ab", "b"]
  {
    var ins, i2, i1: seq<string> := ["ab", "b", "c"], ["ab", "b"], ["ab"];
    assert ins[..2] == i2 && i2[..1] == i1 && i1[..0] == [];
    var ab := "ab";
    assert IsSuffix("ab", "ab") by { assert ab[0..] == ab; }
    assert IsSuffix("b", "ab") by { assert ab[1..] == "b"; }
    assert !IsSuffix("c", "ab") by { assert ab[1..][0] != "c"[0]; }
    assert SuffixesOf(i1, "ab") == ["ab"];
    assert SuffixesOf(i2, "ab") == ["ab", "b"];
  }

  /** The deepest node ending "a" is node 1 and the one ending "ab" node 2. */
  lemma DeepestInAb(words: seq<string>)
    requires words == ["", "a", "ab", "b", "c"]
    ensures Deepest(words, "a") == 1 && Deepest(words, "ab") == 2
  {
    assert words[1] == "a" && words[2] == "ab";
    var r1, r2 := IndexOf(words, "a"), IndexOf(words, "ab");
    assert r1 >= 0 && r2 >= 0;
  }

  /** The outputs of the two builds at the nodes "a" and "ab". */
  lemma RebuiltOutputs(failLink1: seq<int>, outputs1: seq<seq<string>>, failLink2: seq<int>, outputs2: seq<seq<string>>)
    requires Rebuilt(["", "a", "ab", "b"], [[], [], ["ab"], ["b"]], failLink1, outputs1)
    requires Rebuilt(["", "a", "ab", "b", "c"], outputs1 + [["c"]], failLink2, outputs2)
    ensures outputs1[2] == ["ab", "b"] && outputs2[1] == [] && outputs2[2] == ["ab", "b", "b"]
  {
    var words1: seq<string> := ["", "a", "ab", "b"];
    var words2: seq<string> := ["", "a", "ab", "b", "c"];
    assert LinkOK(words1, [[], [], ["ab"], ["b"]], failLink1, outputs1, 1);
    assert LinkOK(words1, [[], [], ["ab"], ["b"]], failLink1, outputs1, 2);
    assert LinkOK(words1, [[], [], ["ab"], ["b"]], failLink1, outputs1, 3);
    FailureOfAb(words1, failLink1[2]);
    assert LinkOK(words2, outputs1 + [["c"]], failLink2, outputs2, 1);
    assert LinkOK(words2, outputs1 + [["c"]], failLink2, outputs2, 2);
    assert LinkOK(words2, outputs1 + [["c"]], failLink2, outputs2, 3);
    FailureOfAb(words2, failLink2[2]);
    assert outputs2[2] == ["ab", "b"] + ["b"];
  }

  /** buildFailLinks run again after keyword "c" joins "ab" and "b":
      it appends the outputs of "b" to those of "ab" a second time, so
      search("ab") counts 3 where "ab" holds 2 keyword occurrences. */
  lemma RebuildOvercounts(failLink1: seq<int>, outputs1: seq<seq<string>>, failLink2: seq<int>, outputs2: seq<seq<string>>)
    requires Rebuilt(["", "a", "ab", "b"], [[], [], ["ab"], ["b"]], failLink1, outputs1)
    requires Rebuilt(["", "a", "ab", "b", "c"], outputs1 + [["c"]], failLink2, outputs2)
    ensures outputs2[2] == ["ab", "b", "b"]
    ensures OutputsAlong(["", "a", "ab", "b", "c"], outputs2, "ab", 2) == 3
    ensures Occurrences(["ab", "b", "c"], "ab", 2) == 2
  {
    var words2: seq<string> := ["", "a", "ab", "b", "c"];
    RebuiltOutputs(failLink1, outputs1, failLink2, outputs2);
    var s := "ab";
    assert s[..1] == "a" && s[..2] == "ab";
    DeepestInAb(words2);
    assert OutputsAlong(words2, outputs2, s, 1) == 0;
    OccurrencesInAb();
  }

  lemma GrownInAb()
    ensures LowerCase("ab") == "ab" && LowerCase("b") == "b" && LowerCase("c") == "c"
    ensures Grown([""], "ab") == ["", "a", "ab"]
    ensures Grown(["", "a", "ab"], "b") == ["", "a", "ab", "b"]
    ensures Grown(["", "a", "ab", "b"], "c") == ["", "a", "ab", "b", "c"]
  {
    var ab := "ab";
    assert ab[..1] == "a" && ab[..2] == ab;
    assert Present([""], ab, 0) == 0;
    var b, c := "b", "c";
    assert b[..1] == b && c[..1] == c;
    assert b !in ["", "a", "ab"] && c !in ["", "a", "ab", "b"];
    assert Present(["", "a", "ab"], b, 0) == 0;
    assert Present(["", "a", "ab", "b"], c, 0) == 0;
  }

  /** Lines 123-128 on keywords "ab" and "b". */
  method ExampleKeywords() returns (ac: AhoCorasick)
    ensures fresh(ac) && ac.Valid() && ac.Fresh()
    ensures ac.words == ["", "a", "ab", "b"] && ac.outputs == [[], [], ["ab"], ["b"]]
  {
    GrownInAb();
    ac := new AhoCorasick();
    ac.AddKeyword("ab");
    assert |ac.outputs| == 3 && ac.outputs[0] == [] && ac.outputs[1] == [] && ac.outputs[2] == ["ab"];
    ac.AddKeyword("b");
    assert |ac.outputs| == 4 && ac.outputs[0] == [] && ac.outputs[1] == [] && ac.outputs[2] == ["ab"];
    assert ac.outputs[3] == ["b"];
  }

  /** The calls of lines 126-143 and one search: keywords "ab" and "b",
      a build, the action "A c", and search("ab"), which returns 3 while
      "ab" holds 2 keyword occurrences. */
  method RebuildExample() returns (count: int)
    ensures count == 3 && count != Occurrences(["ab", "b", "c"], "ab", 2)
  {
    var ac := ExampleKeywords();
    ac.BuildFailLinks();
    ghost var failLink1, outputs1 := ac.failLink, ac.outputs;
    GrownInAb();
    ac.AddKeyword("c");
    assert |ac.outputs| == 5 && ac.outputs[4] == ["c"];
    assert forall t :: 0 <= t < 4 ==> ac.outputs[t] == outputs1[t];
    assert ac.outputs == outputs1 + [["c"]];
    ac.BuildFailLinks();
    count := ac.Search("ab");
    RebuildOvercounts(failLink1, outputs1, ac.failLink, ac.outputs);
  }

  /** Lines 120-131 done over again from the full keyword list: a new
      automaton, every keyword added, then one build. Used for every
      change to the keywords, it keeps search counting occurrences. */
  method BuildIndex(keywords: seq<string>) returns (ac: AhoCorasick)
    ensures fresh(ac) && ac.Valid() && ac.Linked()
    ensures ac.inserted == seq(|keywords|, i requires 0 <= i < |keywords| => LowerCase(keywords[i]))
    ensures (forall k :: k in keywords ==> k != []) ==> ac.Counts() && forall k :: k in ac.inserted ==> k != []
  {
    ac := new AhoCorasick();
    for i := 0 to |keywords|
      invariant fresh(ac) && ac.Valid() && ac.Fresh()
      invariant ac.inserted == seq(i, j requires 0 <= j < i => LowerCase(keywords[j]))
    {
      ac.AddKeyword(keywords[i]);
    }
    ac.BuildFailLinks();
    if forall k :: k in keywords ==> k != [] {
      forall k | k in ac.inserted
        ensures k != []
      {
        var j :| 0 <= j < |keywords| && ac.inserted[j] == k;
        assert keywords[j] in keywords;
      }
    }
  }

  /** Search over an automaton built by BuildIndex counts the keyword occurrences. */
  method CountAfterIndex(keywords: seq<string>, text: string) returns (count: int)
    requires forall k :: k in keywords ==> k != []
    ensures count == Occurrences(seq(|keywords|, i requires 0 <= i < |keywords| => LowerCase(keywords[i])), LowerCase(text), |text|)
  {
    var ac := BuildIndex(keywords);
    count := ac.Search(text);
  }
}
