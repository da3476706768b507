// The treap of projects/07-Treaps/Implementation/Treap.java: a binary
// search tree on keys that is a min-heap on priorities (a smaller number
// is a higher priority). A Tree value stands for a Java Node and its
// subtree; the recursive methods that rewire child pointers become
// functions from the old subtree to the new one, and the Treap class holds
// the root they reassign. Priorities are only compared, so they are
// integers here.
module Treaps {
  datatype Tree = Empty | Node(key: int, priority: int, left: Tree, right: Tree)

  function Keys(t: Tree): set<int>
  {
    match t
    case Empty => {}
    case Node(k, _, l, r) => Keys(l) + {k} + Keys(r)
  }

  /** The keys in symmetric order. */
  function KeysInOrder(t: Tree): seq<int>
  {
    match t
    case Empty => []
    case Node(k, _, l, r) => KeysInOrder(l) + [k] + KeysInOrder(r)
  }

  function Size(t: Tree): nat
  {
    match t
    case Empty => 0
    case Node(_, _, l, r) => Size(l) + 1 + Size(r)
  }

  /** Every key is below b. */
  predicate Below(t: Tree, b: int)
  {
    t.Empty? || (t.key < b && Below(t.left, b) && Below(t.right, b))
  }

  /** Every key is above b. */
  predicate Above(t: Tree, b: int)
  {
    t.Empty? || (t.key > b && Above(t.left, b) && Above(t.right, b))
  }

  /** Binary search tree order: smaller keys on the left, larger on the
      right. */
  predicate Ordered(t: Tree)
  {
    t.Empty? || (Below(t.left, t.key) && Above(t.right, t.key) && Ordered(t.left) && Ordered(t.right))
  }

  /** Every priority is at least b. */
  predicate AtLeast(t: Tree, b: int)
  {
    t.Empty? || (b <= t.priority && AtLeast(t.left, b) && AtLeast(t.right, b))
  }

  /** Min-heap order: no priority in a subtree is below the priority of its
      root. */
  predicate Heap(t: Tree)
  {
    t.Empty? || (AtLeast(t.left, t.priority) && AtLeast(t.right, t.priority) && Heap(t.left) && Heap(t.right))
  }

  predicate Increasing(s: seq<int>)
  {
    forall i, j :: 0 <= i < j < |s| ==> s[i] < s[j]
  }

  // ---------------------------------------------------------------------
  // Bounds

  lemma {:induction false} BelowKeys(t: Tree, b: int)
    ensures Below(t, b) <==> forall x :: x in Keys(t) ==> x < b
  {
    match t
    case Empty =>
    case Node(k, _, l, r) =>
      BelowKeys(l, b);
      BelowKeys(r, b);
      assert Keys(t) == Keys(l) + {k} + Keys(r);
      if forall x :: x in Keys(t) ==> x < b {
        assert k in Keys(t);
        assert forall x :: x in Keys(l) ==> x in Keys(t);
        assert forall x :: x in Keys(r) ==> x in Keys(t);
      }
  }

  lemma {:induction false} AboveKeys(t: Tree, b: int)
    ensures Above(t, b) <==> forall x :: x in Keys(t) ==> x > b
  {
    match t
    case Empty =>
    case Node(k, _, l, r) =>
      AboveKeys(l, b);
      AboveKeys(r, b);
      assert Keys(t) == Keys(l) + {k} + Keys(r);
      if forall x :: x in Keys(t) ==> x > b {
        assert k in Keys(t);
        assert forall x :: x in Keys(l) ==> x in Keys(t);
        assert forall x :: x in Keys(r) ==> x in Keys(t);
      }
  }

  lemma {:induction false} AboveMono(t: Tree, a: int, b: int)
    requires Above(t, a) && b <= a
    ensures Above(t, b)
  {
    if t.Node? {
      AboveMono(t.left, a, b);
      AboveMono(t.right, a, b);
    }
  }

  lemma {:induction false} BelowMono(t: Tree, a: int, b: int)
    requires Below(t, a) && a <= b
    ensures Below(t, b)
  {
    if t.Node? {
      BelowMono(t.left, a, b);
      BelowMono(t.right, a, b);
    }
  }

  lemma {:induction false} AtLeastMono(t: Tree, a: int, b: int)
    requires AtLeast(t, a) && b <= a
    ensures AtLeast(t, b)
  {
    if t.Node? {
      AtLeastMono(t.left, a, b);
      AtLeastMono(t.right, a, b);
    }
  }

  /** In a heap, no priority is below the root's. */
  lemma {:induction false} HeapRoot(t: Tree)
    requires Heap(t) && t.Node?
    ensures AtLeast(t, t.priority)
  {
  }

  // ---------------------------------------------------------------------
  // Symmetric order

  /** The symmetric order lists the keys, one per node. */
  lemma {:induction false} InorderKeys(t: Tree)
    ensures (set x | x in KeysInOrder(t)) == Keys(t) && |KeysInOrder(t)| == Size(t)
  {
    match t
    case Empty =>
    case Node(k, _, l, r) =>
      InorderKeys(l);
      InorderKeys(r);
      assert forall x :: x in KeysInOrder(t) <==> x in KeysInOrder(l) || x == k || x in KeysInOrder(r);
  }

  /** The symmetric order of a search tree is strictly increasing. */
  lemma {:induction false} OrderedIncreasing(t: Tree)
    requires Ordered(t)
    ensures Increasing(KeysInOrder(t))
  {
    match t
    case Empty =>
    case Node(k, _, l, r) =>
      OrderedIncreasing(l);
      OrderedIncreasing(r);
      InorderKeys(l);
      InorderKeys(r);
      BelowKeys(l, k);
      AboveKeys(r, k);
      var a, b := KeysInOrder(l), KeysInOrder(r);
      var s := KeysInOrder(t);
      assert s == a + [k] + b;
      forall i, j | 0 <= i < j < |s|
        ensures s[i] < s[j]
      {
        if j < |a| {
          assert s[i] == a[i] && s[j] == a[j];
        } else if i < |a| {
          assert s[i] == a[i] && a[i] in Keys(l);
          if j > |a| {
            assert s[j] == b[j - |a| - 1] && s[j] in Keys(r);
          }
        } else if i == |a| {
          assert s[j] == b[j - |a| - 1] && s[j] in Keys(r);
        } else {
          assert s[i] == b[i - |a| - 1] && s[j] == b[j - |a| - 1];
        }
      }
  }

  // ---------------------------------------------------------------------
  // Rotations

  /** rotateRight: the left child x of y becomes the root, y its right
      child, and x's right subtree y's left subtree. The source needs the
      left child. */
  function RotateRight(y: Tree): (t: Tree)
    requires y.Node? && y.left.Node?
    ensures t.Node? && t.right.Node?
  {
    var x := y.left;
    Node(x.key, x.priority, x.left, Node(y.key, y.priority, x.right, y.right))
  }

  /** rotateLeft: the mirror image, for a node with a right child. */
  function RotateLeft(x: Tree): (t: Tree)
    requires x.Node? && x.right.Node?
    ensures t.Node? && t.left.Node?
  {
    var y := x.right;
    Node(y.key, y.priority, Node(x.key, x.priority, x.left, y.left), y.right)
  }

  /** A rotation keeps the symmetric order, hence the keys, and keeps
      search-tree order. */
  lemma {:induction false} RotateRightKeeps(y: Tree)
    requires y.Node? && y.left.Node?
    ensures KeysInOrder(RotateRight(y)) == KeysInOrder(y) && Keys(RotateRight(y)) == Keys(y)
    ensures Ordered(y) ==> Ordered(RotateRight(y))
  {
    var x := y.left;
    assert KeysInOrder(RotateRight(y)) == KeysInOrder(x.left) + [x.key] + (KeysInOrder(x.right) + [y.key] + KeysInOrder(y.right));
    if Ordered(y) {
      assert Ordered(x) && Below(x, y.key);
      AboveMono(y.right, y.key, x.key);
      var z := Node(y.key, y.priority, x.right, y.right);
      assert Ordered(z) && Above(z, x.key);
    }
  }

  lemma {:induction false} RotateLeftKeeps(x: Tree)
    requires x.Node? && x.right.Node?
    ensures KeysInOrder(RotateLeft(x)) == KeysInOrder(x) && Keys(RotateLeft(x)) == Keys(x)
    ensures Ordered(x) ==> Ordered(RotateLeft(x))
  {
    var y := x.right;
    assert KeysInOrder(RotateLeft(x)) == (KeysInOrder(x.left) + [x.key] + KeysInOrder(y.left)) + [y.key] + KeysInOrder(y.right);
    if Ordered(x) {
      assert Ordered(y) && Above(y, x.key);
      BelowMono(x.left, x.key, y.key);
      var z := Node(x.key, x.priority, x.left, y.left);
      assert Ordered(z) && Below(z, y.key);
    }
  }

  // ---------------------------------------------------------------------
  // Insertion

  /** insert: a search-tree insertion of (key, pri) followed, on the way
      back up, by a rotation wherever the child now has a smaller priority
      than its parent; a key already present is ignored. */
  function InsertNode(n: Tree, key: int, pri: int): (t: Tree)
    ensures t.Node?
  {
    match n
    case Empty => Node(key, pri, Empty, Empty)
    case Node(k, p, l, r) =>
      if key < k then
        var l' := InsertNode(l, key, pri);
        var m := Node(k, p, l', r);
        if l'.priority < p then RotateRight(m) else m
      else if key > k then
        var r' := InsertNode(r, key, pri);
        var m := Node(k, p, l, r');
        if r'.priority < p then RotateLeft(m) else m
      else n
  }

  /** insert adds exactly the key. */
  lemma {:induction false} InsertKeys(n: Tree, key: int, pri: int)
    ensures Keys(InsertNode(n, key, pri)) == Keys(n) + {key}
  {
    match n
    case Empty =>
    case Node(k, p, l, r) =>
      if key < k {
        var l' := InsertNode(l, key, pri);
        InsertKeys(l, key, pri);
        if l'.priority < p {
          RotateRightKeeps(Node(k, p, l', r));
        }
      } else if key > k {
        var r' := InsertNode(r, key, pri);
        InsertKeys(r, key, pri);
        if r'.priority < p {
          RotateLeftKeeps(Node(k, p, l, r'));
        }
      }
  }

  /** insert keeps search-tree order. */
  lemma {:induction false} InsertOrdered(n: Tree, key: int, pri: int)
    requires Ordered(n)
    ensures Ordered(InsertNode(n, key, pri))
  {
    match n
    case Empty =>
    case Node(k, p, l, r) =>
      if key < k {
        var l' := InsertNode(l, key, pri);
        assert Below(l', k) by {
          InsertKeys(l, key, pri);
          BelowKeys(l, k);
          BelowKeys(l', k);
        }
        InsertOrdered(l, key, pri);
        if l'.priority < p {
          RotateRightKeeps(Node(k, p, l', r));
        }
      } else if key > k {
        var r' := InsertNode(r, key, pri);
        assert Above(r', k) by {
          InsertKeys(r, key, pri);
          AboveKeys(r, k);
          AboveKeys(r', k);
        }
        InsertOrdered(r, key, pri);
        if r'.priority < p {
          RotateLeftKeeps(Node(k, p, l, r'));
        }
      }
  }

  /** Below the root of the result, every priority keeps a bound of the
      tree's: the inserted node ends at the root or under a node with no
      larger priority. */
  lemma {:induction false} InsertBelowRoot(n: Tree, key: int, pri: int, b: int)
    requires AtLeast(n, b)
    ensures AtLeast(InsertNode(n, key, pri).left, b) && AtLeast(InsertNode(n, key, pri).right, b)
  {
    match n
    case Empty =>
    case Node(k, p, l, r) =>
      if key < k {
        InsertBelowRoot(l, key, pri, b);
      } else if key > k {
        InsertBelowRoot(r, key, pri, b);
      }
  }

  /** insert keeps the heap order. */
  lemma {:induction false} InsertHeap(n: Tree, key: int, pri: int)
    requires Heap(n)
    ensures Heap(InsertNode(n, key, pri))
  {
    match n
    case Empty =>
    case Node(k, p, l, r) =>
      if key < k {
        var x := InsertNode(l, key, pri);
        InsertHeap(l, key, pri);
        InsertBelowRoot(l, key, pri, p);
        if x.priority < p {
          assert AtLeast(r, x.priority) by {
            AtLeastMono(r, p, x.priority);
          }
        }
      } else if key > k {
        var x := InsertNode(r, key, pri);
        InsertHeap(r, key, pri);
        InsertBelowRoot(r, key, pri, p);
        if x.priority < p {
          assert AtLeast(l, x.priority) by {
            AtLeastMono(l, p, x.priority);
          }
        }
      }
  }

  /** Inserting a key already in a treap changes nothing. */
  lemma {:induction false} InsertPresent(n: Tree, key: int, pri: int)
    requires Ordered(n) && Heap(n) && key in Keys(n)
    ensures InsertNode(n, key, pri) == n
  {
    match n
    case Node(k, p, l, r) =>
      assert Keys(n) == Keys(l) + {k} + Keys(r);
      if key < k {
        AboveKeys(r, k);
        InsertPresent(l, key, pri);
      } else if key > k {
        BelowKeys(l, k);
        InsertPresent(r, key, pri);
      }
  }

  // ---------------------------------------------------------------------
  // Deletion

  /** delete: the node with the key is rotated down, always lifting the
      child with the smaller priority, until it has at most one child, and
      is then replaced by that child; a missing key changes nothing. */
  function DeleteNode(n: Tree, key: int): Tree
    decreases Size(n)
  {
    match n
    case Empty => Empty
    case Node(k, p, l, r) =>
      if key < k then Node(k, p, DeleteNode(l, key), r)
      else if key > k then Node(k, p, l, DeleteNode(r, key))
      else if l.Empty? || r.Empty? then (if l.Node? then l else r)
      else if l.priority < r.priority then
        var m := RotateRight(n);
        assert Size(m.right) < Size(n);
        Node(m.key, m.priority, m.left, DeleteNode(m.right, key))
      else
        var m := RotateLeft(n);
        assert Size(m.left) < Size(n);
        Node(m.key, m.priority, DeleteNode(m.left, key), m.right)
  }

  /** In a search tree, delete removes exactly the key and keeps the
      order. */
  lemma {:induction false} DeleteKeys(n: Tree, key: int)
    requires Ordered(n)
    ensures Keys(DeleteNode(n, key)) == Keys(n) - {key} && Ordered(DeleteNode(n, key))
    decreases Size(n)
  {
    match n
    case Empty =>
    case Node(k, p, l, r) =>
      BelowKeys(l, k);
      AboveKeys(r, k);
      if key < k {
        var d := DeleteNode(l, key);
        assert DeleteNode(n, key) == Node(k, p, d, r);
        DeleteKeys(l, key);
        BelowKeys(d, k);
        assert key !in Keys(r);
      } else if key > k {
        var d := DeleteNode(r, key);
        assert DeleteNode(n, key) == Node(k, p, l, d);
        DeleteKeys(r, key);
        AboveKeys(d, k);
        assert key !in Keys(l);
      } else if l.Empty? || r.Empty? {
      } else if l.priority < r.priority {
        var y := Node(k, p, l.right, r);
        assert Size(y) < Size(n);
        assert Ordered(y) && Above(y, l.key) by {
          assert Ordered(l) && Below(l, k);
          AboveMono(r, k, l.key);
        }
        var d := DeleteNode(y, key);
        assert DeleteNode(n, key) == Node(l.key, l.priority, l.left, d);
        DeleteKeys(y, key);
        assert key !in Keys(l) && key !in Keys(r);
        assert Keys(l) == Keys(l.left) + {l.key} + Keys(l.right);
        AboveKeys(y, l.key);
        AboveKeys(d, l.key);
      } else {
        var y := Node(k, p, l, r.left);
        assert Size(y) < Size(n);
        assert Ordered(y) && Below(y, r.key) by {
          assert Ordered(r) && Above(r, k);
          BelowMono(l, k, r.key);
        }
        var d := DeleteNode(y, key);
        assert DeleteNode(n, key) == Node(r.key, r.priority, d, r.right);
        DeleteKeys(y, key);
        assert key !in Keys(l) && key !in Keys(r);
        assert Keys(r) == Keys(r.left) + {r.key} + Keys(r.right);
        BelowKeys(y, r.key);
        BelowKeys(d, r.key);
      }
  }

  /** delete keeps every bound on the priorities; when the root's key is
      deleted, a bound on the root's children is enough. */
  lemma {:induction false} DeleteBound(n: Tree, key: int, b: int)
    requires AtLeast(n, b) || (n.Node? && n.key == key && AtLeast(n.left, b) && AtLeast(n.right, b))
    ensures AtLeast(DeleteNode(n, key), b)
    decreases Size(n)
  {
    match n
    case Empty =>
    case Node(k, p, l, r) =>
      if key < k {
        DeleteBound(l, key, b);
      } else if key > k {
        DeleteBound(r, key, b);
      } else if l.Empty? || r.Empty? {
      } else if l.priority < r.priority {
        var y := Node(k, p, l.right, r);
        assert Size(y) < Size(n);
        DeleteBound(y, key, b);
      } else {
        var y := Node(k, p, l, r.left);
        assert Size(y) < Size(n);
        DeleteBound(y, key, b);
      }
  }

  /** delete keeps the heap order; when the root's key is deleted, the
      children being heaps is enough. */
  lemma {:induction false} DeleteHeap(n: Tree, key: int)
    requires Heap(n) || (n.Node? && n.key == key && Heap(n.left) && Heap(n.right))
    ensures Heap(DeleteNode(n, key))
    decreases Size(n)
  {
    match n
    case Empty =>
    case Node(k, p, l, r) =>
      if key < k {
        DeleteHeap(l, key);
        DeleteBound(l, key, p);
      } else if key > k {
        DeleteHeap(r, key);
        DeleteBound(r, key, p);
      } else if l.Empty? || r.Empty? {
      } else if l.priority < r.priority {
        var y := Node(k, p, l.right, r);
        assert Size(y) < Size(n);
        var d := DeleteNode(y, key);
        assert DeleteNode(n, key) == Node(l.key, l.priority, l.left, d);
        assert AtLeast(r, l.priority) by {
          HeapRoot(r);
          AtLeastMono(r, r.priority, l.priority);
        }
        DeleteBound(y, key, l.priority);
        DeleteHeap(y, key);
      } else {
        var y := Node(k, p, l, r.left);
        assert Size(y) < Size(n);
        var d := DeleteNode(y, key);
        assert DeleteNode(n, key) == Node(r.key, r.priority, d, r.right);
        assert AtLeast(l, r.priority) by {
          HeapRoot(l);
          AtLeastMono(l, l.priority, r.priority);
        }
        DeleteBound(y, key, r.priority);
        DeleteHeap(y, key);
      }
  }

  // ---------------------------------------------------------------------
  // Split and merge

  /** split: the keys below key and the keys from key on, each part made
      of the nodes of the tree with their relative order. */
  function SplitNode(n: Tree, key: int): (Tree, Tree)
  {
    match n
    case Empty => (Empty, Empty)
    case Node(k, p, l, r) =>
      if key <= k then
        var (a, b) := SplitNode(l, key);
        (a, Node(k, p, b, r))
      else
        var (a, b) := SplitNode(r, key);
        (Node(k, p, l, a), b)
  }

  /** The two parts list the tree's keys in order, the left one first, and
      keep every bound on the priorities. */
  lemma {:induction false} SplitParts(n: Tree, key: int, bound: int)
    ensures KeysInOrder(SplitNode(n, key).0) + KeysInOrder(SplitNode(n, key).1) == KeysInOrder(n)
    ensures AtLeast(n, bound) ==> AtLeast(SplitNode(n, key).0, bound) && AtLeast(SplitNode(n, key).1, bound)
  {
    match n
    case Empty =>
    case Node(k, p, l, r) =>
      if key <= k {
        var (a, b) := SplitNode(l, key);
        SplitParts(l, key, bound);
        assert KeysInOrder(a) + KeysInOrder(Node(k, p, b, r)) == (KeysInOrder(a) + KeysInOrder(b)) + [k] + KeysInOrder(r);
      } else {
        var (a, b) := SplitNode(r, key);
        SplitParts(r, key, bound);
        assert KeysInOrder(Node(k, p, l, a)) + KeysInOrder(b) == KeysInOrder(l) + [k] + (KeysInOrder(a) + KeysInOrder(b));
      }
  }

  /** Both parts of a heap are heaps. */
  lemma {:induction false} SplitHeap(n: Tree, key: int)
    requires Heap(n)
    ensures Heap(SplitNode(n, key).0) && Heap(SplitNode(n, key).1)
  {
    match n
    case Empty =>
    case Node(k, p, l, r) =>
      if key <= k {
        SplitHeap(l, key);
        SplitParts(l, key, p);
      } else {
        SplitHeap(r, key);
        SplitParts(r, key, p);
      }
  }

  /** The two parts hold the tree's keys between them, and keep every key
      bound of the tree. */
  lemma {:induction false} SplitBounds(n: Tree, key: int, lo: int, hi: int)
    ensures Keys(SplitNode(n, key).0) + Keys(SplitNode(n, key).1) == Keys(n)
    ensures Below(n, hi) ==> Below(SplitNode(n, key).0, hi) && Below(SplitNode(n, key).1, hi)
    ensures Above(n, lo) ==> Above(SplitNode(n, key).0, lo) && Above(SplitNode(n, key).1, lo)
  {
    match n
    case Empty =>
    case Node(k, p, l, r) =>
      if key <= k {
        SplitBounds(l, key, lo, hi);
      } else {
        SplitBounds(r, key, lo, hi);
      }
  }

  /** In a search tree, every key of the left part is below key and every
      key of the right part is at least key (above key - 1), and both parts
      are search trees. */
  lemma {:induction false} SplitSides(n: Tree, key: int)
    requires Ordered(n)
    ensures Below(SplitNode(n, key).0, key) && Above(SplitNode(n, key).1, key - 1)
    ensures Ordered(SplitNode(n, key).0) && Ordered(SplitNode(n, key).1)
  {
    match n
    case Empty =>
    case Node(k, p, l, r) =>
      if key <= k {
        var (a, b) := SplitNode(l, key);
        assert SplitNode(n, key) == (a, Node(k, p, b, r));
        SplitSides(l, key);
        SplitBounds(l, key, k, k);
        AboveMono(r, k, key - 1);
      } else {
        var (a, b) := SplitNode(r, key);
        assert SplitNode(n, key) == (Node(k, p, l, a), b);
        SplitSides(r, key);
        SplitBounds(r, key, k, k);
        BelowMono(l, k, key);
      }
  }

  /** In a search tree, the left part holds exactly the keys below key and
      the right part exactly the others, both in search-tree order. */
  lemma {:induction false} SplitKeys(n: Tree, key: int)
    requires Ordered(n)
    ensures Keys(SplitNode(n, key).0) == (set x | x in Keys(n) && x < key)
    ensures Keys(SplitNode(n, key).1) == (set x | x in Keys(n) && x >= key)
    ensures Ordered(SplitNode(n, key).0) && Ordered(SplitNode(n, key).1)
  {
    var (a, b) := SplitNode(n, key);
    SplitSides(n, key);
    SplitBounds(n, key, 0, 0);
    BelowKeys(a, key);
    AboveKeys(b, key - 1);
  }

  /** merge: the root with the smaller priority stays the root, and the
      rest is merged into its inner side. The source assumes every key of
      L is below every key of R; the shape of the result does not depend
      on it. */
  function MergeNodes(L: Tree, R: Tree): Tree
    decreases Size(L) + Size(R)
  {
    if L.Empty? || R.Empty? then (if L.Node? then L else R)
    else if L.priority < R.priority then Node(L.key, L.priority, L.left, MergeNodes(L.right, R))
    else Node(R.key, R.priority, MergeNodes(L, R.left), R.right)
  }

  /** The merge lists L's keys and then R's. */
  lemma {:induction false} MergeInorder(L: Tree, R: Tree)
    ensures KeysInOrder(MergeNodes(L, R)) == KeysInOrder(L) + KeysInOrder(R)
    decreases Size(L) + Size(R)
  {
    if L.Empty? || R.Empty? {
    } else if L.priority < R.priority {
      MergeInorder(L.right, R);
      assert KeysInOrder(MergeNodes(L, R)) == KeysInOrder(L.left) + [L.key] + (KeysInOrder(L.right) + KeysInOrder(R));
    } else {
      MergeInorder(L, R.left);
      assert KeysInOrder(MergeNodes(L, R)) == (KeysInOrder(L) + KeysInOrder(R.left)) + [R.key] + KeysInOrder(R.right);
    }
  }

  /** The merge holds the keys of both, and keeps every bound on the
      priorities. */
  lemma {:induction false} MergeParts(L: Tree, R: Tree, bound: int)
    ensures Keys(MergeNodes(L, R)) == Keys(L) + Keys(R)
    ensures AtLeast(L, bound) && AtLeast(R, bound) ==> AtLeast(MergeNodes(L, R), bound)
    decreases Size(L) + Size(R)
  {
    if L.Empty? || R.Empty? {
    } else if L.priority < R.priority {
      MergeParts(L.right, R, bound);
    } else {
      MergeParts(L, R.left, bound);
    }
  }

  /** Merging two heaps gives a heap. */
  lemma {:induction false} MergeHeap(L: Tree, R: Tree)
    requires Heap(L) && Heap(R)
    ensures Heap(MergeNodes(L, R))
    decreases Size(L) + Size(R)
  {
    if L.Empty? || R.Empty? {
    } else if L.priority < R.priority {
      MergeHeap(L.right, R);
      HeapRoot(R);
      AtLeastMono(R, R.priority, L.priority);
      MergeParts(L.right, R, L.priority);
    } else {
      MergeHeap(L, R.left);
      HeapRoot(L);
      AtLeastMono(L, L.priority, R.priority);
      MergeParts(L, R.left, R.priority);
    }
  }

  /** Every key of L is below every key of R. */
  predicate Separated(L: Tree, R: Tree)
  {
    forall a, b :: a in Keys(L) && b in Keys(R) ==> a < b
  }

  /** Merging two search trees whose keys are separated gives a search
      tree. */
  lemma {:induction false} MergeOrdered(L: Tree, R: Tree)
    requires Ordered(L) && Ordered(R) && Separated(L, R)
    ensures Ordered(MergeNodes(L, R))
    decreases Size(L) + Size(R)
  {
    if L.Empty? || R.Empty? {
    } else if L.priority < R.priority {
      var m := MergeNodes(L.right, R);
      assert L.key in Keys(L) && Keys(L.right) <= Keys(L);
      assert Above(m, L.key) by {
        MergeParts(L.right, R, 0);
        AboveKeys(L.right, L.key);
        AboveKeys(m, L.key);
      }
      MergeOrdered(L.right, R);
    } else {
      var m := MergeNodes(L, R.left);
      assert R.key in Keys(R) && Keys(R.left) <= Keys(R);
      assert Below(m, R.key) by {
        MergeParts(L, R.left, 0);
        BelowKeys(R.left, R.key);
        BelowKeys(m, R.key);
      }
      MergeOrdered(L, R.left);
    }
  }

  // ---------------------------------------------------------------------
  // The treap object

  /** What remains to visit below a stack of nodes: each node's key, then
      its right subtree, from the top of the stack down. */
  function Pending(stack: seq<Tree>): seq<int>
  {
    if |stack| == 0 then []
    else (if stack[0].Node? then [stack[0].key] + KeysInOrder(stack[0].right) else []) + Pending(stack[1..])
  }

  class Treap {
    var root: Tree

    ghost predicate Valid()
      reads this
    {
      Ordered(root) && Heap(root)
    }

    constructor ()
      ensures Valid() && root == Empty
    {
      root := Empty;
    }

    /** insert(key, pri); the source's insert(key) draws pri at random. */
    method Insert(key: int, pri: int)
      requires Valid()
      modifies this
      ensures Valid() && root == InsertNode(old(root), key, pri)
      ensures Keys(root) == old(Keys(root)) + {key}
      ensures key in old(Keys(root)) ==> root == old(root)
    {
      InsertKeys(root, key, pri);
      InsertOrdered(root, key, pri);
      InsertHeap(root, key, pri);
      if key in Keys(root) {
        InsertPresent(root, key, pri);
      }
      root := InsertNode(root, key, pri);
    }

    method Delete(key: int)
      requires Valid()
      modifies this
      ensures Valid() && root == DeleteNode(old(root), key)
      ensures Keys(root) == old(Keys(root)) - {key}
    {
      DeleteKeys(root, key);
      DeleteHeap(root, key);
      root := DeleteNode(root, key);
    }

    /** search: the loop walking down from the root. */
    method Search(key: int) returns (found: bool)
      requires Valid()
      ensures found <==> key in Keys(root)
    {
      var cur := root;
      while cur.Node?
        invariant Ordered(cur)
        invariant key in Keys(root) <==> key in Keys(cur)
        decreases cur
      {
        BelowKeys(cur.left, cur.key);
        AboveKeys(cur.right, cur.key);
        assert Keys(cur) == Keys(cur.left) + {cur.key} + Keys(cur.right);
        if key < cur.key {
          assert key !in Keys(cur.right);
          cur := cur.left;
        } else if key > cur.key {
          assert key !in Keys(cur.left);
          cur := cur.right;
        } else {
          return true;
        }
      }
      return false;
    }

    /** split(key): two new treaps, with the keys below key and the rest.
        The source builds them from this treap's own nodes. */
    method Split(key: int) returns (left: Treap, right: Treap)
      requires Valid()
      ensures fresh(left) && fresh(right) && left.Valid() && right.Valid()
      ensures (left.root, right.root) == SplitNode(root, key)
      ensures Keys(left.root) == (set x | x in Keys(root) && x < key)
      ensures Keys(right.root) == (set x | x in Keys(root) && x >= key)
    {
      SplitHeap(root, key);
      SplitKeys(root, key);
      var (a, b) := SplitNode(root, key);
      left := new Treap();
      right := new Treap();
      left.root := a;
      right.root := b;
    }

    /** inorder: the loop with an explicit stack; the keys come out in
        increasing order. */
    method Inorder() returns (result: seq<int>)
      requires Valid()
      ensures result == KeysInOrder(root) && Increasing(result)
    {
      result := [];
      var stack: seq<Tree> := [];
      var cur := root;
      while cur.Node? || |stack| > 0
        invariant AllNodes(stack)
        invariant result + KeysInOrder(cur) + Pending(stack) == KeysInOrder(root)
        decreases |KeysInOrder(root)| - |result|, cur.Node?
      {
        ghost var before := stack;
        stack := PushLeft(cur, stack);
        Regroup3(result, KeysInOrder(cur), Pending(before));
        var top := stack[0];
        PopStep(result, stack, KeysInOrder(root));
        stack := stack[1..];
        result := result + [top.key];
        cur := top.right;
      }
      OrderedIncreasing(root);
    }
  }

  predicate AllNodes(stack: seq<Tree>)
  {
    forall i :: 0 <= i < |stack| ==> stack[i].Node?
  }

  lemma PushStep(c: Tree, s: seq<Tree>)
    requires c.Node?
    ensures KeysInOrder(c.left) + Pending([c] + s) == KeysInOrder(c) + Pending(s)
  {
    assert ([c] + s)[1..] == s;
    assert Pending([c] + s) == [c.key] + KeysInOrder(c.right) + Pending(s);
  }

  lemma PopStep(result: seq<int>, stack: seq<Tree>, all: seq<int>)
    requires |stack| > 0 && AllNodes(stack) && result + Pending(stack) == all
    ensures (result + [stack[0].key]) + KeysInOrder(stack[0].right) + Pending(stack[1..]) == all
  {
    var x, rest, more := stack[0].key, KeysInOrder(stack[0].right), Pending(stack[1..]);
    assert Pending(stack) == [x] + rest + more;
    Regroup(result, x, rest, more);
  }

  lemma Regroup3(a: seq<int>, b: seq<int>, c: seq<int>)
    ensures a + (b + c) == a + b + c
  {
  }

  lemma Regroup(a: seq<int>, x: int, r: seq<int>, m: seq<int>)
    ensures a + ([x] + r + m) == (a + [x]) + r + m
  {
  }

  /** The inner loop of inorder: push cur and its chain of left children.
      What remains to visit is unchanged, and the stack ends up non-empty
      when there was anything to push. */
  method PushLeft(cur: Tree, stack: seq<Tree>) returns (s: seq<Tree>)
    requires AllNodes(stack)
    ensures AllNodes(s) && Pending(s) == KeysInOrder(cur) + Pending(stack)
    ensures cur.Node? || |stack| > 0 ==> |s| > 0
  {
    s := stack;
    var c := cur;
    while c.Node?
      invariant AllNodes(s) && KeysInOrder(c) + Pending(s) == KeysInOrder(cur) + Pending(stack)
      invariant cur.Node? || |stack| > 0 ==> c.Node? || |s| > 0
      decreases c
    {
      PushStep(c, s);
      s := [c] + s;
      c := c.left;
    }
  }

  /** merge(left, right): a new treap over the nodes of both; it is a
      treap when left's keys are all below right's. */
  method MergeTreaps(left: Treap, right: Treap) returns (t: Treap)
    ensures fresh(t) && t.root == MergeNodes(left.root, right.root)
    ensures KeysInOrder(t.root) == KeysInOrder(left.root) + KeysInOrder(right.root)
    ensures left.Valid() && right.Valid() && Separated(left.root, right.root) ==> t.Valid()
  {
    MergeInorder(left.root, right.root);
    if left.Valid() && right.Valid() && Separated(left.root, right.root) {
      MergeHeap(left.root, right.root);
      MergeOrdered(left.root, right.root);
    }
    t := new Treap();
    t.root := MergeNodes(left.root, right.root);
  }
}
