// The banana treap of projects/07-Treaps/programmingChallenge/solutions/
// pcTreaps_java.java: each node is a banana at position p that becomes
// eatable at time t. Nodes are ordered by position (equal positions are
// allowed), form a max-heap on a random priority, and carry the size of
// their subtree. The recursive methods that relink nodes become functions
// from the old subtree to the new one; simulate, a loop over an explicit
// stack, is a method. The random priorities are parameters, and Java int
// overflow is not modelled.
module BananaTreaps {
  datatype Tree = Empty | Node(p: int, t: int, size: int, priority: int, left: Tree, right: Tree)

  datatype Banana = Banana(p: int, t: int)

  /** size(x): the stored size, 0 for null. */
  function SizeOf(x: Tree): int
  {
    if x.Empty? then 0 else x.size
  }

  /** The number of nodes. */
  function Count(x: Tree): nat
  {
    match x
    case Empty => 0
    case Node(_, _, _, _, l, r) => Count(l) + 1 + Count(r)
  }

  /** Every stored size is one more than the stored sizes of the
      children. */
  predicate SizesValid(x: Tree)
  {
    x.Empty? || (x.size == 1 + SizeOf(x.left) + SizeOf(x.right) && SizesValid(x.left) && SizesValid(x.right))
  }

  function Bananas(x: Tree): multiset<Banana>
  {
    match x
    case Empty => multiset{}
    case Node(p, t, _, _, l, r) => Bananas(l) + multiset{Banana(p, t)} + Bananas(r)
  }

  function Positions(x: Tree): multiset<int>
  {
    match x
    case Empty => multiset{}
    case Node(p, _, _, _, l, r) => Positions(l) + multiset{p} + Positions(r)
  }

  /** The bananas in symmetric order. */
  function InOrder(x: Tree): seq<Banana>
  {
    match x
    case Empty => []
    case Node(p, t, _, _, l, r) => InOrder(l) + [Banana(p, t)] + InOrder(r)
  }

  /** The three kinds of bound the treap's invariants are made of. */
  datatype Bound = PositionAtMost | PositionAtLeast | PriorityAtMost

  predicate Holds(k: Bound, x: Tree, b: int)
    requires x.Node?
  {
    match k
    case PositionAtMost => x.p <= b
    case PositionAtLeast => x.p >= b
    case PriorityAtMost => x.priority <= b
  }

  /** Every node of x meets the bound. */
  predicate Within(x: Tree, k: Bound, b: int)
  {
    x.Empty? || (Holds(k, x, b) && Within(x.left, k, b) && Within(x.right, k, b))
  }

  /** Bound b2 of kind k is implied by bound b1. */
  predicate Looser(k: Bound, b1: int, b2: int)
  {
    if k == PositionAtLeast then b2 <= b1 else b1 <= b2
  }

  /** Search-tree order by position, equal positions on either side. */
  predicate Ordered(x: Tree)
  {
    x.Empty? ||
    (Within(x.left, PositionAtMost, x.p) && Within(x.right, PositionAtLeast, x.p) && Ordered(x.left) && Ordered(x.right))
  }

  /** Max-heap order on the priorities. */
  predicate Heap(x: Tree)
  {
    x.Empty? ||
    (Within(x.left, PriorityAtMost, x.priority) && Within(x.right, PriorityAtMost, x.priority) && Heap(x.left) && Heap(x.right))
  }

  /** Ordered, a heap, and every size right: what the source keeps. */
  predicate Valid(x: Tree)
  {
    Ordered(x) && Heap(x) && SizesValid(x)
  }

  lemma {:induction false} WithinMono(x: Tree, k: Bound, b1: int, b2: int)
    requires Within(x, k, b1) && Looser(k, b1, b2)
    ensures Within(x, k, b2)
  {
    if x.Node? {
      WithinMono(x.left, k, b1, b2);
      WithinMono(x.right, k, b1, b2);
    }
  }

  // ---------------------------------------------------------------------
  // Sizes

  /** update(x): recompute the size of x from its children. */
  function Update(x: Tree): (r: Tree)
    ensures r.Empty? <==> x.Empty?
  {
    if x.Empty? then x else Node(x.p, x.t, 1 + SizeOf(x.left) + SizeOf(x.right), x.priority, x.left, x.right)
  }

  /** After update, a node whose children have valid sizes has a valid
      size, and the stored size is its node count; nothing else of the node
      changes. */
  lemma {:induction false} UpdateSizes(x: Tree)
    requires x.Node? && SizesValid(x.left) && SizesValid(x.right)
    ensures SizesValid(Update(x)) && SizeOf(Update(x)) == Count(x)
    ensures Update(x).p == x.p && Update(x).t == x.t && Update(x).priority == x.priority
    ensures Update(x).left == x.left && Update(x).right == x.right
  {
    SizeIsCount(x.left);
    SizeIsCount(x.right);
  }

  /** With valid sizes, size(x) is the number of nodes. */
  lemma {:induction false} SizeIsCount(x: Tree)
    requires SizesValid(x)
    ensures SizeOf(x) == Count(x)
  {
    if x.Node? {
      SizeIsCount(x.left);
      SizeIsCount(x.right);
    }
  }

  /** A node given new children, then updated: what every relinking step
      of the source does. */
  function Join(p: int, t: int, pri: int, l: Tree, r: Tree): Tree
  {
    Node(p, t, 1 + SizeOf(l) + SizeOf(r), pri, l, r)
  }

  lemma {:induction false} CountBananas(x: Tree)
    ensures |Bananas(x)| == Count(x) && |Positions(x)| == Count(x) && |InOrder(x)| == Count(x)
    ensures multiset(InOrder(x)) == Bananas(x)
  {
    if x.Node? {
      CountBananas(x.left);
      CountBananas(x.right);
      assert InOrder(x) == InOrder(x.left) + [Banana(x.p, x.t)] + InOrder(x.right);
    }
  }

  // ---------------------------------------------------------------------
  // Regrouping multiset sums, one shape per relinking step

  lemma GroupRight<T>(a: multiset<T>, b: multiset<T>, l: multiset<T>, m: multiset<T>, r: multiset<T>)
    requires a + b == l
    ensures a + (b + m + r) == l + m + r
  {
  }

  lemma GroupLeft<T>(l: multiset<T>, m: multiset<T>, a: multiset<T>, b: multiset<T>, r: multiset<T>)
    requires a + b == r
    ensures (l + m + a) + b == l + m + r
  {
  }

  lemma GroupAfter<T>(l: multiset<T>, m: multiset<T>, r: multiset<T>, b: multiset<T>, c: multiset<T>)
    requires c == r + b
    ensures l + m + c == (l + m + r) + b
  {
  }

  lemma GroupAddLeft<T>(l: multiset<T>, m: multiset<T>, r: multiset<T>, n: multiset<T>, c: multiset<T>)
    requires c == l + n
    ensures c + m + r == (l + m + r) + n
  {
  }

  lemma GroupMiddle<T>(a: multiset<T>, n: multiset<T>, b: multiset<T>, x: multiset<T>)
    requires a + b == x
    ensures a + n + b == x + n
  {
  }

  // ---------------------------------------------------------------------
  // Split

  /** split(x, key): the bananas at positions up to key, and those after
      it. The source's comment says "(< key) and (>= key)"; the code sends a
      node whose position equals key to the left part. */
  function SplitNode(x: Tree, key: int): (Tree, Tree)
  {
    match x
    case Empty => (Empty, Empty)
    case Node(p, t, _, pri, l, r) =>
      if key < p then
        var (a, b) := SplitNode(l, key);
        (a, Join(p, t, pri, b, r))
      else
        var (a, b) := SplitNode(r, key);
        (Join(p, t, pri, l, a), b)
  }

  /** The parts share the bananas between them. */
  lemma {:induction false} SplitContents(x: Tree, key: int)
    ensures Bananas(SplitNode(x, key).0) + Bananas(SplitNode(x, key).1) == Bananas(x)
  {
    match x
    case Empty =>
    case Node(p, t, _, pri, l, r) =>
      if key < p {
        var (a, b) := SplitNode(l, key);
        SplitContents(l, key);
        assert SplitNode(x, key) == (a, Join(p, t, pri, b, r));
        GroupRight(Bananas(a), Bananas(b), Bananas(l), multiset{Banana(p, t)}, Bananas(r));
      } else {
        var (a, b) := SplitNode(r, key);
        SplitContents(r, key);
        assert SplitNode(x, key) == (Join(p, t, pri, l, a), b);
        GroupLeft(Bananas(l), multiset{Banana(p, t)}, Bananas(a), Bananas(b), Bananas(r));
      }
  }

  /** Both parts keep every bound of the tree. */
  lemma {:induction false} SplitWithin(x: Tree, key: int, k: Bound, b: int)
    requires Within(x, k, b)
    ensures Within(SplitNode(x, key).0, k, b) && Within(SplitNode(x, key).1, k, b)
  {
    match x
    case Empty =>
    case Node(p, t, _, pri, l, r) =>
      if key < p {
        SplitWithin(l, key, k, b);
      } else {
        SplitWithin(r, key, k, b);
      }
  }

  /** On an ordered tree, the left part holds the positions up to key and
      the right part those after key; both are ordered. */
  lemma {:induction false} SplitSides(x: Tree, key: int)
    requires Ordered(x)
    ensures Within(SplitNode(x, key).0, PositionAtMost, key) && Within(SplitNode(x, key).1, PositionAtLeast, key + 1)
    ensures Ordered(SplitNode(x, key).0) && Ordered(SplitNode(x, key).1)
  {
    match x
    case Empty =>
    case Node(p, t, _, pri, l, r) =>
      if key < p {
        SplitSides(l, key);
        SplitWithin(l, key, PositionAtMost, p);
        WithinMono(r, PositionAtLeast, p, key + 1);
      } else {
        SplitSides(r, key);
        SplitWithin(r, key, PositionAtLeast, p);
        WithinMono(l, PositionAtMost, p, key);
      }
  }

  /** Both parts of a heap are heaps, and both parts of a tree with valid
      sizes have valid sizes. */
  lemma {:induction false} SplitShape(x: Tree, key: int)
    ensures Heap(x) ==> Heap(SplitNode(x, key).0) && Heap(SplitNode(x, key).1)
    ensures SizesValid(x) ==> SizesValid(SplitNode(x, key).0) && SizesValid(SplitNode(x, key).1)
  {
    match x
    case Empty =>
    case Node(p, t, _, pri, l, r) =>
      if key < p {
        SplitShape(l, key);
        if Heap(x) {
          SplitWithin(l, key, PriorityAtMost, pri);
        }
      } else {
        SplitShape(r, key);
        if Heap(x) {
          SplitWithin(r, key, PriorityAtMost, pri);
        }
      }
  }

  // ---------------------------------------------------------------------
  // Merge

  /** merge(a, b): the root with the larger priority stays on top (b on a
      tie), and the rest is merged into its inner side. The source assumes
      the positions of a come before those of b. */
  function MergeNodes(a: Tree, b: Tree): Tree
    decreases Count(a) + Count(b)
  {
    if a.Empty? || b.Empty? then (if a.Node? then a else b)
    else if a.priority > b.priority then Join(a.p, a.t, a.priority, a.left, MergeNodes(a.right, b))
    else Join(b.p, b.t, b.priority, MergeNodes(a, b.left), b.right)
  }

  /** The merge holds the bananas of both. */
  lemma {:induction false} MergeContents(a: Tree, b: Tree)
    ensures Bananas(MergeNodes(a, b)) == Bananas(a) + Bananas(b)
    decreases Count(a) + Count(b)
  {
    if a.Empty? {
      assert Bananas(a) == multiset{};
    } else if b.Empty? {
      assert Bananas(b) == multiset{};
    } else if a.priority > b.priority {
      MergeContents(a.right, b);
      assert MergeNodes(a, b) == Join(a.p, a.t, a.priority, a.left, MergeNodes(a.right, b));
      GroupAfter(Bananas(a.left), multiset{Banana(a.p, a.t)}, Bananas(a.right), Bananas(b), Bananas(MergeNodes(a.right, b)));
    } else {
      MergeContents(a, b.left);
      assert MergeNodes(a, b) == Join(b.p, b.t, b.priority, MergeNodes(a, b.left), b.right);
      GroupRight(Bananas(a), Bananas(b.left), Bananas(MergeNodes(a, b.left)), multiset{Banana(b.p, b.t)}, Bananas(b.right));
    }
  }

  /** The merge holds the positions of both. */
  lemma {:induction false} MergePositions(a: Tree, b: Tree)
    ensures Positions(MergeNodes(a, b)) == Positions(a) + Positions(b)
    decreases Count(a) + Count(b)
  {
    if a.Empty? {
      assert Positions(a) == multiset{};
    } else if b.Empty? {
      assert Positions(b) == multiset{};
    } else if a.priority > b.priority {
      MergePositions(a.right, b);
      assert MergeNodes(a, b) == Join(a.p, a.t, a.priority, a.left, MergeNodes(a.right, b));
      GroupAfter(Positions(a.left), multiset{a.p}, Positions(a.right), Positions(b), Positions(MergeNodes(a.right, b)));
    } else {
      MergePositions(a, b.left);
      assert MergeNodes(a, b) == Join(b.p, b.t, b.priority, MergeNodes(a, b.left), b.right);
      GroupRight(Positions(a), Positions(b.left), Positions(MergeNodes(a, b.left)), multiset{b.p}, Positions(b.right));
    }
  }

  /** A bound both trees meet holds of their merge. */
  lemma {:induction false} MergeWithin(a: Tree, b: Tree, k: Bound, v: int)
    requires Within(a, k, v) && Within(b, k, v)
    ensures Within(MergeNodes(a, b), k, v)
    decreases Count(a) + Count(b)
  {
    if a.Empty? || b.Empty? {
    } else if a.priority > b.priority {
      MergeWithin(a.right, b, k, v);
    } else {
      MergeWithin(a, b.left, k, v);
    }
  }

  /** Merging two trees with valid sizes gives valid sizes. */
  lemma {:induction false} MergeSizes(a: Tree, b: Tree)
    requires SizesValid(a) && SizesValid(b)
    ensures SizesValid(MergeNodes(a, b))
    decreases Count(a) + Count(b)
  {
    if a.Empty? || b.Empty? {
    } else if a.priority > b.priority {
      MergeSizes(a.right, b);
    } else {
      MergeSizes(a, b.left);
    }
  }

  /** Merging two heaps gives a heap. */
  lemma {:induction false} MergeHeap(a: Tree, b: Tree)
    requires Heap(a) && Heap(b)
    ensures Heap(MergeNodes(a, b))
    decreases Count(a) + Count(b)
  {
    if a.Empty? || b.Empty? {
    } else if a.priority > b.priority {
      MergeHeap(a.right, b);
      WithinMono(b.left, PriorityAtMost, b.priority, a.priority);
      WithinMono(b.right, PriorityAtMost, b.priority, a.priority);
      MergeWithin(a.right, b, PriorityAtMost, a.priority);
    } else {
      MergeHeap(a, b.left);
      WithinMono(a.left, PriorityAtMost, a.priority, b.priority);
      WithinMono(a.right, PriorityAtMost, a.priority, b.priority);
      MergeWithin(a, b.left, PriorityAtMost, b.priority);
    }
  }

  /** Merging an ordered tree with positions up to m and one with positions
      from m on gives an ordered tree. */
  lemma {:induction false} MergeOrdered(a: Tree, b: Tree, m: int)
    requires Ordered(a) && Ordered(b) && Within(a, PositionAtMost, m) && Within(b, PositionAtLeast, m)
    ensures Ordered(MergeNodes(a, b))
    decreases Count(a) + Count(b)
  {
    if a.Empty? || b.Empty? {
    } else if a.priority > b.priority {
      MergeOrdered(a.right, b, m);
      WithinMono(b, PositionAtLeast, m, a.p);
      MergeWithin(a.right, b, PositionAtLeast, a.p);
    } else {
      MergeOrdered(a, b.left, m);
      WithinMono(a, PositionAtMost, m, b.p);
      MergeWithin(a, b.left, PositionAtMost, b.p);
    }
  }

  // ---------------------------------------------------------------------
  // Insert

  /** insert(x, new Node(p, t)) with the new node's priority pri: the new
      node goes down the search path until its priority beats the current
      root's, and there it takes over, with split(x, p) as its children. */
  function InsertNode(x: Tree, p: int, t: int, pri: int): Tree
  {
    match x
    case Empty => Node(p, t, 1, pri, Empty, Empty)
    case Node(xp, xt, _, xpri, l, r) =>
      if pri > xpri then
        var (a, b) := SplitNode(x, p);
        Join(p, t, pri, a, b)
      else if p < xp then Join(xp, xt, xpri, InsertNode(l, p, t, pri), r)
      else Join(xp, xt, xpri, l, InsertNode(r, p, t, pri))
  }

  /** insert adds exactly the one banana. */
  lemma {:induction false} InsertContents(x: Tree, p: int, t: int, pri: int)
    ensures Bananas(InsertNode(x, p, t, pri)) == Bananas(x) + multiset{Banana(p, t)}
  {
    var n := multiset{Banana(p, t)};
    match x
    case Empty =>
    case Node(xp, xt, _, xpri, l, r) =>
      var m := multiset{Banana(xp, xt)};
      if pri > xpri {
        var (a, b) := SplitNode(x, p);
        SplitContents(x, p);
        GroupMiddle(Bananas(a), n, Bananas(b), Bananas(x));
      } else if p < xp {
        InsertContents(l, p, t, pri);
        GroupAddLeft(Bananas(l), m, Bananas(r), n, Bananas(InsertNode(l, p, t, pri)));
      } else {
        InsertContents(r, p, t, pri);
        GroupAfter(Bananas(l), m, Bananas(r), n, Bananas(InsertNode(r, p, t, pri)));
      }
  }

  /** A bound the tree and the new banana both meet holds afterwards. */
  lemma {:induction false} InsertWithin(x: Tree, p: int, t: int, pri: int, k: Bound, v: int)
    requires Within(x, k, v) && Holds(k, Node(p, t, 1, pri, Empty, Empty), v)
    ensures Within(InsertNode(x, p, t, pri), k, v)
  {
    match x
    case Empty =>
    case Node(xp, xt, _, xpri, l, r) =>
      if pri > xpri {
        SplitWithin(x, p, k, v);
      } else if p < xp {
        InsertWithin(l, p, t, pri, k, v);
      } else {
        InsertWithin(r, p, t, pri, k, v);
      }
  }

  /** insert keeps valid sizes. */
  lemma {:induction false} InsertSizes(x: Tree, p: int, t: int, pri: int)
    requires SizesValid(x)
    ensures SizesValid(InsertNode(x, p, t, pri))
  {
    match x
    case Empty =>
    case Node(xp, xt, _, xpri, l, r) =>
      if pri > xpri {
        SplitShape(x, p);
      } else if p < xp {
        InsertSizes(l, p, t, pri);
      } else {
        InsertSizes(r, p, t, pri);
      }
  }

  /** insert keeps search-tree order. */
  lemma {:induction false} InsertOrdered(x: Tree, p: int, t: int, pri: int)
    requires Ordered(x)
    ensures Ordered(InsertNode(x, p, t, pri))
  {
    match x
    case Empty =>
    case Node(xp, xt, _, xpri, l, r) =>
      if pri > xpri {
        SplitSides(x, p);
        WithinMono(SplitNode(x, p).1, PositionAtLeast, p + 1, p);
      } else if p < xp {
        InsertOrdered(l, p, t, pri);
        InsertWithin(l, p, t, pri, PositionAtMost, xp);
      } else {
        InsertOrdered(r, p, t, pri);
        InsertWithin(r, p, t, pri, PositionAtLeast, xp);
      }
  }

  /** insert keeps the heap order. */
  lemma {:induction false} InsertHeap(x: Tree, p: int, t: int, pri: int)
    requires Heap(x)
    ensures Heap(InsertNode(x, p, t, pri))
  {
    match x
    case Empty =>
    case Node(xp, xt, _, xpri, l, r) =>
      if pri > xpri {
        assert Within(x, PriorityAtMost, xpri);
        WithinMono(x, PriorityAtMost, xpri, pri);
        SplitShape(x, p);
        SplitWithin(x, p, PriorityAtMost, pri);
      } else if p < xp {
        InsertHeap(l, p, t, pri);
        InsertWithin(l, p, t, pri, PriorityAtMost, xpri);
      } else {
        InsertHeap(r, p, t, pri);
        InsertWithin(r, p, t, pri, PriorityAtMost, xpri);
      }
  }

  /** The size at the root grows by one. */
  lemma InsertCount(x: Tree, p: int, t: int, pri: int)
    requires SizesValid(x)
    ensures SizesValid(InsertNode(x, p, t, pri)) && SizeOf(InsertNode(x, p, t, pri)) == SizeOf(x) + 1
  {
    InsertSizes(x, p, t, pri);
    InsertContents(x, p, t, pri);
    CountBananas(x);
    CountBananas(InsertNode(x, p, t, pri));
    SizeIsCount(x);
    SizeIsCount(InsertNode(x, p, t, pri));
  }

  // ---------------------------------------------------------------------
  // Remove

  /** remove(x, key): the first node on the search path with position key
      is replaced by the merge of its children. */
  function RemoveNode(x: Tree, key: int): Tree
  {
    match x
    case Empty => Empty
    case Node(p, t, _, pri, l, r) =>
      if p == key then MergeNodes(l, r)
      else if key < p then Join(p, t, pri, RemoveNode(l, key), r)
      else Join(p, t, pri, l, RemoveNode(r, key))
  }

  /** remove takes out only bananas of the tree. No order is needed for
      this. */
  lemma {:induction false} RemoveSubset(x: Tree, key: int)
    ensures Bananas(RemoveNode(x, key)) <= Bananas(x)
  {
    match x
    case Empty =>
    case Node(p, t, _, pri, l, r) =>
      if p == key {
        MergeContents(l, r);
      } else if key < p {
        RemoveSubset(l, key);
      } else {
        RemoveSubset(r, key);
      }
  }

  /** remove keeps every bound of the tree. */
  lemma {:induction false} RemoveWithin(x: Tree, key: int, k: Bound, v: int)
    requires Within(x, k, v)
    ensures Within(RemoveNode(x, key), k, v)
  {
    match x
    case Empty =>
    case Node(p, t, _, pri, l, r) =>
      if p == key {
        MergeWithin(l, r, k, v);
      } else if key < p {
        RemoveWithin(l, key, k, v);
      } else {
        RemoveWithin(r, key, k, v);
      }
  }

  /** remove keeps valid sizes. */
  lemma {:induction false} RemoveSizes(x: Tree, key: int)
    requires SizesValid(x)
    ensures SizesValid(RemoveNode(x, key))
  {
    match x
    case Empty =>
    case Node(p, t, _, pri, l, r) =>
      if p == key {
        MergeSizes(l, r);
      } else if key < p {
        RemoveSizes(l, key);
      } else {
        RemoveSizes(r, key);
      }
  }

  /** In an ordered tree, remove keeps the order. */
  lemma {:induction false} RemoveOrdered(x: Tree, key: int)
    requires Ordered(x)
    ensures Ordered(RemoveNode(x, key))
  {
    match x
    case Empty =>
    case Node(p, t, _, pri, l, r) =>
      if p == key {
        MergeOrdered(l, r, p);
      } else if key < p {
        RemoveOrdered(l, key);
        RemoveWithin(l, key, PositionAtMost, p);
      } else {
        RemoveOrdered(r, key);
        RemoveWithin(r, key, PositionAtLeast, p);
      }
  }

  /** In an ordered tree, remove takes exactly one occurrence of key out of
      the positions when there is one, and none otherwise. */
  lemma {:induction false} RemovePositions(x: Tree, key: int)
    requires Ordered(x)
    ensures Positions(RemoveNode(x, key)) == Positions(x) - multiset{key}
  {
    match x
    case Empty =>
    case Node(p, t, _, pri, l, r) =>
      if p == key {
        MergePositions(l, r);
        DropMiddle(Positions(l), multiset{p}, Positions(r), Positions(MergeNodes(l, r)));
      } else if key < p {
        RemovePositions(l, key);
        WithinPositions(r, PositionAtLeast, p);
        DropLeft(Positions(l), multiset{p}, Positions(r), Positions(RemoveNode(l, key)), key);
      } else {
        RemovePositions(r, key);
        WithinPositions(l, PositionAtMost, p);
        DropRight(Positions(l), multiset{p}, Positions(r), Positions(RemoveNode(r, key)), key);
      }
  }

  lemma DropMiddle<T>(l: multiset<T>, m: multiset<T>, r: multiset<T>, c: multiset<T>)
    requires c == l + r
    ensures c == (l + m + r) - m
  {
  }

  lemma DropLeft(l: multiset<int>, m: multiset<int>, r: multiset<int>, d: multiset<int>, key: int)
    requires d == l - multiset{key} && key !in m && key !in r
    ensures d + m + r == (l + m + r) - multiset{key}
  {
  }

  lemma DropRight(l: multiset<int>, m: multiset<int>, r: multiset<int>, d: multiset<int>, key: int)
    requires d == r - multiset{key} && key !in l && key !in m
    ensures l + m + d == (l + m + r) - multiset{key}
  {
  }

  /** A position bound on the tree bounds its multiset of positions. */
  lemma {:induction false} WithinPositions(x: Tree, k: Bound, b: int)
    requires Within(x, k, b) && k != PriorityAtMost
    ensures forall q :: q in Positions(x) ==> if k == PositionAtMost then q <= b else q >= b
  {
    if x.Node? {
      WithinPositions(x.left, k, b);
      WithinPositions(x.right, k, b);
    }
  }

  /** remove keeps the heap order. */
  lemma {:induction false} RemoveHeap(x: Tree, key: int)
    requires Heap(x)
    ensures Heap(RemoveNode(x, key))
  {
    match x
    case Empty =>
    case Node(p, t, _, pri, l, r) =>
      if p == key {
        MergeHeap(l, r);
      } else if key < p {
        RemoveHeap(l, key);
        RemoveWithin(l, key, PriorityAtMost, pri);
      } else {
        RemoveHeap(r, key);
        RemoveWithin(r, key, PriorityAtMost, pri);
      }
  }

  /** Removing a position that is not in the tree leaves it unchanged; the
      sizes recomputed on the way up were already right. */
  lemma {:induction false} RemoveMissing(x: Tree, key: int)
    requires SizesValid(x) && key !in Positions(x)
    ensures RemoveNode(x, key) == x
  {
    match x
    case Empty =>
    case Node(p, t, _, pri, l, r) =>
      if key < p {
        RemoveMissing(l, key);
      } else if key > p {
        RemoveMissing(r, key);
      }
  }

  /** With valid sizes, removing a present position takes exactly one node
      out. */
  lemma RemoveCount(x: Tree, key: int)
    requires Valid(x) && key in Positions(x)
    ensures SizesValid(RemoveNode(x, key)) && SizeOf(RemoveNode(x, key)) == SizeOf(x) - 1
  {
    RemoveSizes(x, key);
    RemovePositions(x, key);
    CountBananas(x);
    CountBananas(RemoveNode(x, key));
    SizeIsCount(x);
    SizeIsCount(RemoveNode(x, key));
  }

  /** The operations of the main loop keep a valid treap. */
  lemma OperationsKeepValid(x: Tree, p: int, t: int, pri: int, key: int)
    requires Valid(x)
    ensures Valid(InsertNode(x, p, t, pri)) && Valid(RemoveNode(x, key))
  {
    InsertOrdered(x, p, t, pri);
    InsertHeap(x, p, t, pri);
    InsertSizes(x, p, t, pri);
    RemoveOrdered(x, key);
    RemoveHeap(x, key);
    RemoveSizes(x, key);
  }

  // ---------------------------------------------------------------------
  // Simulate

  /** A banana eaten, and the time it was eaten at. */
  datatype Meal = Meal(banana: Banana, at: int)

  /** The walk of simulate over the bananas in order, from position pos at
      time time: walk to the next banana; stop for good once past T; eat it
      if it is ready, or wait for it if it is ready by T, or else pass it
      by. */
  function Meals(items: seq<Banana>, pos: int, time: int, T: int): seq<Meal>
  {
    if |items| == 0 then []
    else
      var b := items[0];
      var now := time + (b.p - pos);
      if now > T then []
      else if now >= b.t then [Meal(b, now)] + Meals(items[1..], b.p, now, T)
      else if b.t <= T then [Meal(b, b.t)] + Meals(items[1..], b.p, b.t, T)
      else Meals(items[1..], b.p, now, T)
  }

  /** At most one meal per banana, each of a banana on the walk, each at a
      time no later than T and no earlier than the banana is ready. */
  lemma {:induction false} MealsBounded(items: seq<Banana>, pos: int, time: int, T: int)
    ensures |Meals(items, pos, time, T)| <= |items|
    ensures forall i :: 0 <= i < |Meals(items, pos, time, T)| ==>
      Meals(items, pos, time, T)[i].banana in items &&
      Meals(items, pos, time, T)[i].banana.t <= Meals(items, pos, time, T)[i].at <= T
  {
    if |items| > 0 {
      var b := items[0];
      var now := time + (b.p - pos);
      if now > T {
      } else if now >= b.t {
        MealsBounded(items[1..], b.p, now, T);
      } else if b.t <= T {
        MealsBounded(items[1..], b.p, b.t, T);
      } else {
        MealsBounded(items[1..], b.p, now, T);
      }
    }
  }

  /** Walking over bananas sorted by position from a position no later than
      the first, the meal times never decrease. */
  lemma {:induction false} MealsInTimeOrder(items: seq<Banana>, pos: int, time: int, T: int)
    requires forall i, j :: 0 <= i < j < |items| ==> items[i].p <= items[j].p
    requires |items| > 0 ==> pos <= items[0].p
    ensures forall i, j :: 0 <= i < j < |Meals(items, pos, time, T)| ==>
      Meals(items, pos, time, T)[i].at <= Meals(items, pos, time, T)[j].at
  {
    if |items| > 0 {
      var b := items[0];
      var now := time + (b.p - pos);
      if now <= T {
        var next := if now >= b.t then now else b.t;
        var rest := items[1..];
        if now >= b.t || b.t <= T {
          MealsInTimeOrder(rest, b.p, next, T);
          MealsFrom(rest, b.p, next, T);
          var ms := Meals(items, pos, time, T);
          var tail := Meals(rest, b.p, next, T);
          assert ms == [Meal(b, next)] + tail;
          forall i, j | 0 <= i < j < |ms|
            ensures ms[i].at <= ms[j].at
          {
            assert ms[j] == tail[j - 1];
            if i > 0 {
              assert ms[i] == tail[i - 1];
            }
          }
        } else {
          MealsInTimeOrder(rest, b.p, now, T);
        }
      }
    }
  }

  /** No meal is before the starting time when positions do not go back. */
  lemma {:induction false} MealsFrom(items: seq<Banana>, pos: int, time: int, T: int)
    requires forall i, j :: 0 <= i < j < |items| ==> items[i].p <= items[j].p
    requires |items| > 0 ==> pos <= items[0].p
    ensures forall i :: 0 <= i < |Meals(items, pos, time, T)| ==> time <= Meals(items, pos, time, T)[i].at
  {
    if |items| > 0 {
      var b := items[0];
      var now := time + (b.p - pos);
      if now > T {
      } else if now >= b.t {
        MealsFrom(items[1..], b.p, now, T);
      } else if b.t <= T {
        MealsFrom(items[1..], b.p, b.t, T);
      } else {
        MealsFrom(items[1..], b.p, now, T);
      }
    }
  }

  /** The in-order bananas of an ordered tree are sorted by position. */
  lemma {:induction false} OrderedSorted(x: Tree)
    requires Ordered(x)
    ensures forall i, j :: 0 <= i < j < |InOrder(x)| ==> InOrder(x)[i].p <= InOrder(x)[j].p
  {
    if x.Node? {
      OrderedSorted(x.left);
      OrderedSorted(x.right);
      InOrderBounds(x.left, x.p);
      InOrderBoundsBelow(x.right, x.p);
      var a, c := InOrder(x.left), InOrder(x.right);
      var s := InOrder(x);
      assert s == a + [Banana(x.p, x.t)] + c;
      forall i, j | 0 <= i < j < |s|
        ensures s[i].p <= s[j].p
      {
        if j < |a| {
          assert s[i] == a[i] && s[j] == a[j];
        } else if i < |a| {
          assert s[i] == a[i];
          if j > |a| {
            assert s[j] == c[j - |a| - 1];
          }
        } else if i == |a| {
          assert s[j] == c[j - |a| - 1];
        } else {
          assert s[i] == c[i - |a| - 1] && s[j] == c[j - |a| - 1];
        }
      }
    }
  }

  lemma {:induction false} InOrderBounds(x: Tree, b: int)
    requires Within(x, PositionAtMost, b)
    ensures forall i :: 0 <= i < |InOrder(x)| ==> InOrder(x)[i].p <= b
  {
    if x.Node? {
      InOrderBounds(x.left, b);
      InOrderBounds(x.right, b);
      var a, c := InOrder(x.left), InOrder(x.right);
      assert InOrder(x) == a + [Banana(x.p, x.t)] + c;
      forall i | 0 <= i < |InOrder(x)|
        ensures InOrder(x)[i].p <= b
      {
        if i < |a| {
          assert InOrder(x)[i] == a[i];
        } else if i > |a| {
          assert InOrder(x)[i] == c[i - |a| - 1];
        }
      }
    }
  }

  lemma {:induction false} InOrderBoundsBelow(x: Tree, b: int)
    requires Within(x, PositionAtLeast, b)
    ensures forall i :: 0 <= i < |InOrder(x)| ==> InOrder(x)[i].p >= b
  {
    if x.Node? {
      InOrderBoundsBelow(x.left, b);
      InOrderBoundsBelow(x.right, b);
      var a, c := InOrder(x.left), InOrder(x.right);
      assert InOrder(x) == a + [Banana(x.p, x.t)] + c;
      forall i | 0 <= i < |InOrder(x)|
        ensures InOrder(x)[i].p >= b
      {
        if i < |a| {
          assert InOrder(x)[i] == a[i];
        } else if i > |a| {
          assert InOrder(x)[i] == c[i - |a| - 1];
        }
      }
    }
  }

  /** What remains to visit below a stack of nodes: each node's banana,
      then its right subtree, from the top of the stack down. */
  function Pending(stack: seq<Tree>): seq<Banana>
  {
    if |stack| == 0 then []
    else (if stack[0].Node? then [Banana(stack[0].p, stack[0].t)] + InOrder(stack[0].right) else []) + Pending(stack[1..])
  }

  predicate AllNodes(stack: seq<Tree>)
  {
    forall i :: 0 <= i < |stack| ==> stack[i].Node?
  }

  /** simulate(x, T): the in-order walk with an explicit stack, counting the
      meals of the walk over all the bananas in position order. */
  method Simulate(x: Tree, T: int) returns (cnt: int)
    ensures cnt == |Meals(InOrder(x), 0, 0, T)|
  {
    var pos, time := 0, 0;
    cnt := 0;
    var stack: seq<Tree> := [];
    var cur := x;
    assert InOrder(cur) + Pending(stack) == InOrder(x);
    while cur.Node? || |stack| > 0
      invariant AllNodes(stack)
      invariant cnt + |Meals(InOrder(cur) + Pending(stack), pos, time, T)| == |Meals(InOrder(x), 0, 0, T)|
      decreases |InOrder(cur) + Pending(stack)|, cur.Node?
    {
      stack := PushLeft(cur, stack);
      var top := stack[0];
      var b := Banana(top.p, top.t);
      ghost var rest := InOrder(top.right) + Pending(stack[1..]);
      PopStep(stack);
      MealsStep(b, rest, pos, time, T);
      var move := top.p - pos;
      time := time + move;
      pos := top.p;
      if time > T {
        break;
      }
      if time >= top.t {
        cnt := cnt + 1;
      } else if top.t <= T {
        time := top.t;
        cnt := cnt + 1;
      }
      stack := stack[1..];
      cur := top.right;
    }
  }

  lemma PopStep(stack: seq<Tree>)
    requires |stack| > 0 && AllNodes(stack)
    ensures Pending(stack) == [Banana(stack[0].p, stack[0].t)] + (InOrder(stack[0].right) + Pending(stack[1..]))
  {
  }

  /** One step of the walk, as simulate's loop body takes it. */
  lemma MealsStep(b: Banana, rest: seq<Banana>, pos: int, time: int, T: int)
    ensures var now := time + (b.p - pos);
      |Meals([b] + rest, pos, time, T)| ==
        if now > T then 0
        else if now >= b.t then 1 + |Meals(rest, b.p, now, T)|
        else if b.t <= T then 1 + |Meals(rest, b.p, b.t, T)|
        else |Meals(rest, b.p, now, T)|
  {
    assert ([b] + rest)[0] == b && ([b] + rest)[1..] == rest;
  }

  /** The inner loop of simulate: push cur and its chain of left children.
      What remains to visit is unchanged, and the stack ends up non-empty
      when there was anything to push. */
  method PushLeft(cur: Tree, stack: seq<Tree>) returns (s: seq<Tree>)
    requires AllNodes(stack)
    ensures AllNodes(s) && Pending(s) == InOrder(cur) + Pending(stack)
    ensures cur.Node? || |stack| > 0 ==> |s| > 0
  {
    s := stack;
    var c := cur;
    while c.Node?
      invariant AllNodes(s) && InOrder(c) + Pending(s) == InOrder(cur) + Pending(stack)
      invariant cur.Node? || |stack| > 0 ==> c.Node? || |s| > 0
      decreases c
    {
      PushStep(c, s);
      s := [c] + s;
      c := c.left;
    }
  }

  lemma PushStep(c: Tree, s: seq<Tree>)
    requires c.Node?
    ensures InOrder(c.left) + Pending([c] + s) == InOrder(c) + Pending(s)
  {
    assert ([c] + s)[1..] == s;
    assert Pending([c] + s) == [Banana(c.p, c.t)] + InOrder(c.right) + Pending(s);
  }

  /** On a valid treap, simulate counts at most one banana per node, each
      eaten no later than T, in time order. */
  lemma SimulateBounds(x: Tree, T: int)
    requires Valid(x)
    ensures |Meals(InOrder(x), 0, 0, T)| <= SizeOf(x)
    ensures forall i :: 0 <= i < |Meals(InOrder(x), 0, 0, T)| ==> Meals(InOrder(x), 0, 0, T)[i].at <= T
  {
    MealsBounded(InOrder(x), 0, 0, T);
    CountBananas(x);
    SizeIsCount(x);
  }

  /** When no position is negative, the meals of simulate come in time
      order. */
  lemma SimulateInTimeOrder(x: Tree, T: int)
    requires Valid(x) && Within(x, PositionAtLeast, 0)
    ensures forall i, j :: 0 <= i < j < |Meals(InOrder(x), 0, 0, T)| ==>
      Meals(InOrder(x), 0, 0, T)[i].at <= Meals(InOrder(x), 0, 0, T)[j].at
  {
    OrderedSorted(x);
    InOrderBoundsBelow(x, 0);
    MealsInTimeOrder(InOrder(x), 0, 0, T);
  }
}
