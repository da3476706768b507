// The event queue and the beach-line links of Fortune's sweep
// (VoronoiDiagram.java: classes Event, EventHeap, Node and BeachlineTree).
// Coordinates are exact reals; the geometry around them is not modelled.
module Voronoi {
  import opened Outcomes

  datatype Point = Point(x: real, y: real)

  /** Reading a slot past the end of the heap's list (Java's
    * IndexOutOfBoundsException). */
  datatype Failure = IndexOutOfBounds

  /** An event of the sweep: a site event carries its site, a circle event
    * only the bottom of its circle. `index` is the event's slot in the
    * heap, None before it is inserted. */
  class Event {
    const category: string
    const site: Option<Point>
    const key: real
    var index: Option<int>

    constructor Site(category: string, site: Point)
      ensures this.category == category && this.site == Some(site)
      ensures key == site.y && index == None
    {
      this.category := category;
      this.site := Some(site);
      key := site.y;
      index := None;
    }

    /** The circle-event constructor; the arc leaf it also records is not modelled. */
    constructor Circle(category: string, bottom: real)
      ensures this.category == category && site == None
      ensures key == bottom && index == None
    {
      this.category := category;
      site := None;
      key := bottom;
      index := None;
    }
  }

  predicate IsCircle(e: Event) { e.category == "circle" }

  /** compare reads the site of an event only when neither side is a circle
    * event, so an event is comparable when it is a circle event or has a site. */
  predicate Comparable(e: Event) { IsCircle(e) || e.site.Some? }

  /** The order of compare(a, b): true when a belongs above b. */
  function Before(a: Event, b: Event): (r: bool)
    requires Comparable(a) && Comparable(b)
    ensures a.key > b.key ==> r
    ensures a.key < b.key ==> !r
    ensures a.key == b.key && (IsCircle(a) || IsCircle(b)) ==> r
  {
    if a.key > b.key then true
    else if a.key < b.key then false
    else if IsCircle(a) || IsCircle(b) then true
    else a.site.value.x < b.site.value.x
  }

  // ---------------------------------------------------------------------
  // Heap shape over the list of slots; slot 0 is the null placeholder.

  ghost predicate Slotted(h: seq<Event?>)
  {
    |h| >= 1 && h[0] == null &&
    forall i :: 1 <= i < |h| ==> h[i] != null && Comparable(h[i])
  }

  /** Every live slot i holds an event whose index field is i. */
  ghost predicate IndexedSlots(h: seq<Event?>)
    reads h
  {
    Slotted(h) && forall i :: 1 <= i < |h| ==> h[i].index == Some(i)
  }

  /** Every parent's key is at least its child's, except on the edge from
    * slot `up` to its parent and on the edges from slot `down` to its
    * children (0 for neither). */
  ghost predicate EdgesOk(h: seq<Event?>, up: int, down: int)
    requires Slotted(h)
  {
    forall j :: 2 <= j < |h| && j != up && j / 2 != down ==> h[j / 2].key >= h[j].key
  }

  ghost predicate KeyOrdered(h: seq<Event?>)
    requires Slotted(h)
  {
    EdgesOk(h, 0, 0)
  }

  /** The parent of slot i is at least every child of slot i. */
  ghost predicate Bridged(h: seq<Event?>, i: int)
    requires Slotted(h) && 1 <= i
  {
    i > 1 ==>
      (2 * i < |h| ==> h[i / 2].key >= h[2 * i].key) &&
      (2 * i + 1 < |h| ==> h[i / 2].key >= h[2 * i + 1].key)
  }

  /** The order heapRemove leaves after moving the last event into slot i:
    * the parent of i is bridged over it, and the order is broken only
    * toward the parent when the event beats its parent, otherwise only
    * toward its children. */
  ghost predicate Displaced(h: seq<Event?>, i: int)
    requires Slotted(h) && 1 <= i <= |h|
  {
    Bridged(h, i) &&
    (1 < i < |h| && h[i].key >= h[i / 2].key ==> EdgesOk(h, i, 0)) &&
    (i == 1 || i == |h| || (i < |h| && h[i].key <= h[i / 2].key) ==> EdgesOk(h, 0, i))
  }

  /** The events of the heap with their multiplicities. */
  ghost function Events(h: seq<Event?>): multiset<Event?>
    requires |h| >= 1
  {
    multiset(h[1..])
  }

  /** One edge of EdgesOk. */
  lemma Edge(h: seq<Event?>, up: int, down: int, j: int)
    requires Slotted(h) && EdgesOk(h, up, down)
    requires 2 <= j < |h| && j != up && j / 2 != down
    ensures h[j / 2].key >= h[j].key
  {
  }

  lemma Children(i: int)
    ensures (2 * i) / 2 == i && (2 * i + 1) / 2 == i
  {
  }

  /** In a key-ordered heap the event in slot 1 has the largest key. */
  lemma {:induction false} TopIsMax(h: seq<Event?>, i: int)
    requires Slotted(h) && KeyOrdered(h) && 1 <= i < |h|
    ensures h[1].key >= h[i].key
    decreases i
  {
    if i > 1 {
      TopIsMax(h, i / 2);
    }
  }

  /** Below slot 1, the larger of slots 2 and 3 has the largest key. */
  lemma {:induction false} RunnerUpIsMax(h: seq<Event?>, i: int)
    requires Slotted(h) && KeyOrdered(h) && 2 <= i < |h|
    ensures h[2].key >= h[i].key || (3 < |h| && h[3].key >= h[i].key)
    decreases i
  {
    if i > 3 {
      RunnerUpIsMax(h, i / 2);
    }
  }

  /** A heap step exchanges two slots. */
  function Swapped(h: seq<Event?>, a: int, b: int): (s: seq<Event?>)
    requires 0 <= a < |h| && 0 <= b < |h|
    ensures |s| == |h| && s[a] == h[b] && s[b] == h[a]
  {
    h[a := h[b]][b := h[a]]
  }

  lemma SwapSlotted(h: seq<Event?>, a: int, b: int)
    requires Slotted(h) && 1 <= a < |h| && 1 <= b < |h|
    ensures Slotted(Swapped(h, a, b))
  {
  }

  /** heapUp's swap moves the exception one edge up. */
  lemma {:induction false} RiseStep(h: seq<Event?>, i: int)
    requires Slotted(h) && 2 <= i < |h|
    requires EdgesOk(h, i, 0) && Bridged(h, i) && h[i].key >= h[i / 2].key
    ensures Slotted(Swapped(h, i, i / 2))
    ensures EdgesOk(Swapped(h, i, i / 2), i / 2, 0) && Bridged(Swapped(h, i, i / 2), i / 2)
  {
    var p := i / 2;
    var s := Swapped(h, i, p);
    SwapSlotted(h, i, p);
    forall j | 2 <= j < |s| && j != p
      ensures s[j / 2].key >= s[j].key
    {
      if j == i {
      } else if j / 2 == p {
        assert s[j] == h[j] && s[j / 2] == h[i];
        assert h[p].key >= h[j].key;
      } else if j / 2 == i {
        assert s[j] == h[j] && s[j / 2] == h[p];
      } else if j == p {
      } else {
        assert s[j] == h[j] && s[j / 2] == h[j / 2];
      }
    }
    if p > 1 {
      assert h[p / 2].key >= h[p].key;
      var q := p / 2;
      assert s[q] == h[q];
      assert 2 * p == i || 2 * p + 1 == i;
      Children(p);
      if 2 * p < |s| && 2 * p != i {
        Edge(h, i, 0, 2 * p);
        assert s[2 * p] == h[2 * p];
      }
      if 2 * p + 1 < |s| && 2 * p + 1 != i {
        Edge(h, i, 0, 2 * p + 1);
        assert s[2 * p + 1] == h[2 * p + 1];
      }
    }
  }

  /** When heapUp stops, the heap is ordered. */
  lemma RiseDone(h: seq<Event?>, i: int)
    requires Slotted(h) && 1 <= i < |h|
    requires EdgesOk(h, i, 0) && (i > 1 ==> h[i].key <= h[i / 2].key)
    ensures KeyOrdered(h)
  {
  }

  /** heapDown's swap with a child that is at least its sibling moves the exception one edge down. */
  lemma {:induction false} SinkStep(h: seq<Event?>, i: int, c: int)
    requires Slotted(h) && 1 <= i && (c == 2 * i || c == 2 * i + 1) && c < |h|
    requires h[c].key >= h[i].key
    requires 2 * i + 1 < |h| ==> h[c].key >= h[4 * i + 1 - c].key
    requires EdgesOk(h, 0, i) && Bridged(h, i)
    ensures Slotted(Swapped(h, i, c))
    ensures EdgesOk(Swapped(h, i, c), 0, c) && Bridged(Swapped(h, i, c), c)
  {
    var s := Swapped(h, i, c);
    SwapSlotted(h, i, c);
    assert c / 2 == i;
    forall j | 2 <= j < |s| && j / 2 != c
      ensures s[j / 2].key >= s[j].key
    {
      if j == c {
      } else if j / 2 == i {
        assert j == 4 * i + 1 - c;
        assert s[j] == h[j];
      } else if j == i {
        assert s[j] == h[c] && s[j / 2] == h[i / 2];
        assert h[i / 2].key >= h[c].key;
      } else {
        assert s[j] == h[j] && s[j / 2] == h[j / 2];
      }
    }
    Children(c);
    if 2 * c < |s| {
      Edge(h, 0, i, 2 * c);
      assert s[2 * c] == h[2 * c];
    }
    if 2 * c + 1 < |s| {
      Edge(h, 0, i, 2 * c + 1);
      assert s[2 * c + 1] == h[2 * c + 1];
    }
  }

  /** When heapDown stops, the heap is ordered. */
  lemma SinkDone(h: seq<Event?>, i: int)
    requires Slotted(h) && 1 <= i && EdgesOk(h, 0, i)
    requires 2 * i < |h| ==> h[i].key >= h[2 * i].key
    requires 2 * i + 1 < |h| ==> h[i].key >= h[2 * i + 1].key
    ensures KeyOrdered(h)
  {
  }

  /** heapRemove moves the last event into slot i and drops the last slot;
    * the heap is then ordered except above or below slot i. */
  lemma {:induction false} ReplaceStep(h: seq<Event?>, i: int, s: seq<Event?>)
    requires Slotted(h) && KeyOrdered(h) && 1 <= i < |h|
    requires s == Swapped(h, i, |h| - 1)[..|h| - 1]
    ensures Slotted(s) && i <= |s| && Displaced(s, i)
  {
    var n := |h| - 1;
    SwapSlotted(h, i, n);
    assert forall k :: 0 <= k < n && k != i ==> s[k] == h[k];
    assert i < n ==> s[i] == h[n];
    if i > 1 {
      assert h[i / 2].key >= h[i].key;
      Children(i);
      if 2 * i < n {
        Edge(h, 0, 0, 2 * i);
      }
      if 2 * i + 1 < n {
        Edge(h, 0, 0, 2 * i + 1);
      }
    }
    if 1 < i < n && s[i].key >= s[i / 2].key {
      forall j | 2 <= j < |s| && j != i
        ensures s[j / 2].key >= s[j].key
      {
        if j / 2 == i {
          assert h[i].key >= h[j].key;
        } else {
          assert s[j / 2] == h[j / 2] && s[j] == h[j];
        }
      }
    }
    if i == 1 || i == n || (i < n && s[i].key <= s[i / 2].key) {
      forall j | 2 <= j < |s| && j / 2 != i
        ensures s[j / 2].key >= s[j].key
      {
        if j == i {
        } else {
          assert s[j / 2] == h[j / 2] && s[j] == h[j];
        }
      }
    }
  }

  lemma SwapEvents(h: seq<Event?>, a: int, b: int)
    requires 1 <= a < |h| && 1 <= b < |h|
    ensures Events(Swapped(h, a, b)) == Events(h)
  {
    var s := Swapped(h, a, b);
    assert s[1..] == h[1..][a - 1 := h[b]][b - 1 := h[a]];
  }

  lemma DropLast(h: seq<Event?>)
    requires |h| >= 2
    ensures Events(h[..|h| - 1]) == Events(h) - multiset{h[|h| - 1]}
  {
    assert h[1..] == h[1..|h| - 1] + [h[|h| - 1]];
    assert h[..|h| - 1][1..] == h[1..|h| - 1];
  }

  lemma AddLast(h: seq<Event?>, e: Event)
    requires |h| >= 1
    ensures Events(h + [e]) == Events(h) + multiset{e}
  {
    assert (h + [e])[1..] == h[1..] + [e];
  }

  // ---------------------------------------------------------------------

  /** The max-heap of pending events, ordered by compare. */
  class EventHeap {
    var heap: seq<Event?>

    ghost predicate Valid()
      reads this, heap
    {
      IndexedSlots(heap) && KeyOrdered(heap)
    }

    ghost function Contents(): multiset<Event?>
      reads this
      requires |heap| >= 1
    {
      Events(heap)
    }

    constructor ()
      ensures Valid() && Contents() == multiset{}
    {
      heap := [null];
    }

    /** True exactly when only the placeholder slot remains. */
    function Empty(): (r: bool)
      reads this
      requires |heap| >= 1
      ensures r <==> Contents() == multiset{}
    {
      assert |heap| > 1 ==> heap[1] in Contents();
      |heap| == 1
    }

    function Compare(a: int, b: int): (r: bool)
      reads this
      requires Slotted(heap) && 1 <= a < |heap| && 1 <= b < |heap|
      ensures r ==> heap[a].key >= heap[b].key
      ensures !r ==> heap[a].key <= heap[b].key
      ensures heap[a].key == heap[b].key && (IsCircle(heap[a]) || IsCircle(heap[b])) ==> r
    {
      Before(heap[a], heap[b])
    }

    method Swap(a: int, b: int)
      requires IndexedSlots(heap) && 1 <= a < |heap| && 1 <= b < |heap|
      modifies this, heap[a], heap[b]
      ensures heap == Swapped(old(heap), a, b)
      ensures IndexedSlots(heap)
    {
      var temp := heap[a];
      heap := heap[a := heap[b]];
      heap := heap[b := temp];
      heap[a].index := Some(a);
      heap[b].index := Some(b);
    }

    /** Sifts the event in slot `index` down; on return the heap is ordered. */
    method HeapDown(index: int)
      requires IndexedSlots(heap) && 1 <= index
      requires EdgesOk(heap, 0, index) && Bridged(heap, index)
      modifies this, heap
      ensures IndexedSlots(heap) && KeyOrdered(heap)
      ensures |heap| == old(|heap|) && Contents() == old(Contents())
      decreases |heap| - index
    {
      if 2 * index >= |heap| {
        SinkDone(heap, index);
        return;
      }
      var left := 2 * index;
      var right := 2 * index + 1;
      if right < |heap| {
        if Compare(left, index) && Compare(left, right) {
          SinkTo(index, left);
        } else if Compare(right, index) {
          SinkTo(index, right);
        } else {
          SinkDone(heap, index);
        }
      } else {
        if Compare(left, index) {
          SinkTo(index, left);
        } else {
          SinkDone(heap, index);
        }
      }
    }

    /** One step of heapDown: swap slot `index` with its larger child and go on below. */
    method SinkTo(index: int, child: int)
      requires IndexedSlots(heap) && 1 <= index && (child == 2 * index || child == 2 * index + 1)
      requires child < |heap| && heap[child].key >= heap[index].key
      requires 2 * index + 1 < |heap| ==> heap[child].key >= heap[4 * index + 1 - child].key
      requires EdgesOk(heap, 0, index) && Bridged(heap, index)
      modifies this, heap
      ensures IndexedSlots(heap) && KeyOrdered(heap)
      ensures |heap| == old(|heap|) && Contents() == old(Contents())
      decreases |heap| - index, 0
    {
      SinkStep(heap, index, child);
      SwapEvents(heap, index, child);
      Swap(index, child);
      HeapDown(child);
    }

    /** Sifts the event in slot `index` up; on return the heap is ordered. */
    method HeapUp(index: int)
      requires IndexedSlots(heap) && 1 <= index < |heap|
      requires EdgesOk(heap, index, 0) && Bridged(heap, index)
      modifies this, heap
      ensures IndexedSlots(heap) && KeyOrdered(heap)
      ensures |heap| == old(|heap|) && Contents() == old(Contents())
      decreases index
    {
      if index == 1 {
        RiseDone(heap, index);
        return;
      }
      var parent := index / 2;
      if Compare(index, parent) {
        RiseStep(heap, index);
        SwapEvents(heap, index, parent);
        Swap(index, parent);
        HeapUp(parent);
      } else {
        RiseDone(heap, index);
      }
    }

    method HeapInsert(event: Event)
      requires Valid() && Comparable(event) && event !in heap
      modifies this, heap, event
      ensures Valid()
      ensures |heap| == old(|heap|) + 1 && Contents() == old(Contents()) + multiset{event}
    {
      var index := |heap|;
      AddLast(heap, event);
      heap := heap + [event];
      event.index := Some(index);
      HeapUp(index);
    }

    /** Removes the event in slot `index`; it keeps the number of the last
      * slot, where it was moved before the list shrank. */
    method HeapRemove(index: int)
      requires Valid() && 1 <= index < |heap|
      modifies this, heap
      ensures Valid() && |heap| == old(|heap|) - 1
      ensures Contents() == old(Contents()) - multiset{old(heap[index])}
      ensures old(heap[index]).index == Some(old(|heap|) - 1)
    {
      ghost var h0 := heap;
      Detach(index);
      ReplaceStep(h0, index, heap);
      Resettle(index);
    }

    /** The second half of heapRemove: sift the moved event up or down. */
    method Resettle(index: int)
      requires IndexedSlots(heap) && 1 <= index <= |heap| && Displaced(heap, index)
      modifies this, heap
      ensures IndexedSlots(heap) && KeyOrdered(heap)
      ensures |heap| == old(|heap|) && Contents() == old(Contents())
    {
      if index > 1 && index < |heap| && Compare(index, index / 2) {
        HeapUp(index);
      } else {
        HeapDown(index);
      }
    }

    /** The first half of heapRemove: swap slot `index` with the last slot and drop it. */
    method Detach(index: int)
      requires IndexedSlots(heap) && 1 <= index < |heap|
      modifies this, heap[index], heap[|heap| - 1]
      ensures heap == Swapped(old(heap), index, old(|heap|) - 1)[..old(|heap|) - 1]
      ensures IndexedSlots(heap) && old(heap[index]) !in heap
      ensures forall x :: x in heap ==> x in old(heap)
      ensures old(heap[index]).index == Some(old(|heap|) - 1)
      ensures Contents() == old(Contents()) - multiset{old(heap[index])}
    {
      ghost var removed := heap[index];
      var last := |heap| - 1;
      SwapEvents(heap, index, last);
      Swap(index, last);
      DropLast(heap);
      heap := heap[..last];
      assert removed !in heap by {
        assert forall j :: 1 <= j < |heap| ==> heap[j] != removed;
      }
    }

    method HeapMax() returns (e: Event)
      requires Valid() && |heap| > 1
      modifies this, heap
      ensures e == old(heap[1]) && Valid() && |heap| == old(|heap|) - 1
      ensures Contents() == old(Contents()) - multiset{e}
      ensures forall i :: 1 <= i < old(|heap|) ==> old(heap[i]).key <= e.key
    {
      e := heap[1];
      forall i | 1 <= i < |heap| {
        TopIsMax(heap, i);
      }
      HeapRemove(1);
    }

    method HeapPeek() returns (e: Event)
      requires Valid() && |heap| > 1
      ensures e == heap[1]
      ensures forall i :: 1 <= i < |heap| ==> heap[i].key <= e.key
    {
      e := heap[1];
      forall i | 1 <= i < |heap| {
        TopIsMax(heap, i);
      }
    }

    /** The top event and the larger of its two children: slot 2 when there
      * is no slot 3 or compare(2, 3) holds, slot 3 otherwise. With fewer than
      * two events one of the two reads is past the end of the list. */
    method HeapDoublePeek() returns (r: Result<(Event, Event), Failure>)
      requires Valid()
      ensures r.Err? <==> |heap| < 3
      ensures r.Ok? ==> r.value.0 == heap[1]
      ensures r.Ok? ==> r.value.1 == (if |heap| <= 3 || Compare(2, 3) then heap[2] else heap[3])
      ensures r.Ok? ==> forall i :: 1 <= i < |heap| ==> heap[i].key <= r.value.0.key
      ensures r.Ok? ==> forall i :: 2 <= i < |heap| ==> heap[i].key <= r.value.1.key
    {
      if |heap| < 3 {
        return Err(IndexOutOfBounds);
      }
      var first := heap[1];
      var second;
      if |heap| <= 3 || Compare(2, 3) {
        second := heap[2];
      } else {
        second := heap[3];
      }
      forall i | 1 <= i < |heap| {
        TopIsMax(heap, i);
      }
      forall i | 2 <= i < |heap| {
        RunnerUpIsMax(heap, i);
      }
      r := Ok((first, second));
    }
  }

  // ---------------------------------------------------------------------
  // The beach line: a binary tree with parent links.

  /** An arc or breakpoint node; only its links are modelled. */
  class Node {
    var left: Node?
    var right: Node?
    var parent: Node?

    constructor (parent: Node?)
      ensures this.parent == parent && left == null && right == null
    {
      this.parent := parent;
      left := null;
      right := null;
    }
  }

  /** `spine` follows left links from its first node down to a node without a left child. */
  ghost predicate LeftSpine(spine: seq<Node>)
    reads spine
  {
    |spine| >= 1 &&
    (forall k :: 0 <= k < |spine| - 1 ==> spine[k].left == spine[k + 1]) &&
    spine[|spine| - 1].left == null
  }

  /** `spine` follows right links from its first node down to a node without a right child. */
  ghost predicate RightSpine(spine: seq<Node>)
    reads spine
  {
    |spine| >= 1 &&
    (forall k :: 0 <= k < |spine| - 1 ==> spine[k].right == spine[k + 1]) &&
    spine[|spine| - 1].right == null
  }

  /** `up` follows parent links from its first node to the root, whose parent is null. */
  ghost predicate UpPath(up: seq<Node>)
    reads up
  {
    |up| >= 1 &&
    (forall k :: 0 <= k < |up| - 1 ==> up[k].parent == up[k + 1]) &&
    up[|up| - 1].parent == null
  }

  /** The left spine from a node is unique, so the leftmost descendant is well defined. */
  lemma {:induction false} LeftSpineUnique(s: seq<Node>, t: seq<Node>)
    requires LeftSpine(s) && LeftSpine(t) && s[0] == t[0]
    ensures s == t
    decreases |s|
  {
    LeftSpineNext(s);
    LeftSpineNext(t);
    if |s| > 1 {
      LeftSpineUnique(s[1..], t[1..]);
      assert s == [s[0]] + s[1..] && t == [t[0]] + t[1..];
    }
  }

  lemma LeftSpineNext(s: seq<Node>)
    requires LeftSpine(s)
    ensures |s| > 1 <==> s[0].left != null
    ensures |s| > 1 ==> s[0].left == s[1] && LeftSpine(s[1..])
  {
    if |s| > 1 {
      assert s[0].left == s[1];
    }
  }

  lemma {:induction false} RightSpineUnique(s: seq<Node>, t: seq<Node>)
    requires RightSpine(s) && RightSpine(t) && s[0] == t[0]
    ensures s == t
    decreases |s|
  {
    RightSpineNext(s);
    RightSpineNext(t);
    if |s| > 1 {
      RightSpineUnique(s[1..], t[1..]);
      assert s == [s[0]] + s[1..] && t == [t[0]] + t[1..];
    }
  }

  lemma RightSpineNext(s: seq<Node>)
    requires RightSpine(s)
    ensures |s| > 1 <==> s[0].right != null
    ensures |s| > 1 ==> s[0].right == s[1] && RightSpine(s[1..])
  {
    if |s| > 1 {
      assert s[0].right == s[1];
    }
  }

  /** The first step of `up` at which the path arrives from a right child
    * (`right`) or from a left child (`!right`), if there is one. */
  ghost predicate FirstTurn(up: seq<Node>, right: bool, j: int)
    reads up
  {
    0 <= j < |up| - 1 &&
    (if right then up[j + 1].right == up[j] else up[j + 1].left == up[j]) &&
    forall k :: 0 <= k < j ==> (if right then up[k + 1].right != up[k] else up[k + 1].left != up[k])
  }

  ghost predicate NoTurn(up: seq<Node>, right: bool)
    reads up
  {
    forall k :: 0 <= k < |up| - 1 ==> (if right then up[k + 1].right != up[k] else up[k + 1].left != up[k])
  }

  class BeachlineTree {
    var root: Node?

    constructor ()
      ensures root == null
    {
      root := null;
    }

    predicate IsLeft(node: Node)
      reads node, node.parent
      requires node.parent != null
    {
      node.parent.left == node
    }

    predicate IsRight(node: Node)
      reads node, node.parent
      requires node.parent != null
    {
      node.parent.right == node
    }

    method InsertRoot(root: Node) returns (r: Node)
      modifies this
      ensures this.root == root && r == root
    {
      this.root := root;
      r := this.root;
    }

    /** Links `node` as the left child of `parent`, in both directions. */
    method InsertLeft(parent: Node, node: Node) returns (r: Node)
      modifies parent, node
      ensures parent.left == node && node.parent == parent && r == node
      ensures parent.right == old(parent.right) && node.right == old(node.right)
      ensures node != parent ==> node.left == old(node.left) && parent.parent == old(parent.parent)
    {
      parent.left := node;
      node.parent := parent;
      r := node;
    }

    /** Links `node` as the right child of `parent`, in both directions. */
    method InsertRight(parent: Node, node: Node) returns (r: Node)
      modifies parent, node
      ensures parent.right == node && node.parent == parent && r == node
      ensures parent.left == old(parent.left) && node.left == old(node.left)
      ensures node != parent ==> node.right == old(node.right) && parent.parent == old(parent.parent)
    {
      parent.right := node;
      node.parent := parent;
      r := node;
    }

    /** Unlinks `node` from its parent's side (the right side unless it is
      * the left child); node's own parent link stays. */
    method Remove(node: Node)
      modifies node.parent
      ensures node.parent == old(node.parent)
      ensures old(node.parent) != null && old(node.parent.left) == node ==>
        node.parent.left == null && node.parent.right == old(node.parent.right)
      ensures old(node.parent) != null && old(node.parent.left) != node ==>
        node.parent.right == null && node.parent.left == old(node.parent.left)
    {
      var parent := node.parent;
      if parent != null {
        if IsLeft(node) {
          parent.left := null;
        } else {
          parent.right := null;
        }
      }
    }

    /** Puts `node` in its parent's place: as the root when the parent is the
      * root, otherwise under its grandparent on the parent's side. */
    method ReplaceParent(node: Node)
      requires node.parent == root || (node.parent != null && node.parent.parent != null)
      modifies this`root, node`parent
      modifies (if node.parent != null && node.parent != root then {node.parent.parent} else {})`left
      modifies (if node.parent != null && node.parent != root then {node.parent.parent} else {})`right
      ensures old(node.parent) == old(root) ==> root == node && node.parent == old(node.parent)
      ensures old(node.parent) != old(root) ==>
        root == old(root) && node.parent == old(node.parent.parent) &&
        (old(node.parent.parent.left) == old(node.parent) ==>
          node.parent.left == node && node.parent.right == old(node.parent.parent.right)) &&
        (old(node.parent.parent.left) != old(node.parent) ==>
          node.parent.right == node && node.parent.left == old(node.parent.parent.left))
    {
      if node.parent == root {
        root := node;
        return;
      }
      if IsLeft(node.parent) {
        node.parent.parent.left := node;
        node.parent := node.parent.parent;
      } else {
        node.parent.parent.right := node;
        node.parent := node.parent.parent;
      }
    }

    /** The leftmost descendant: the end of node's left spine. */
    method MinNode(node: Node, ghost spine: seq<Node>) returns (r: Node)
      requires LeftSpine(spine) && spine[0] == node
      ensures r == spine[|spine| - 1] && r.left == null
    {
      r := node;
      ghost var k := 0;
      while r.left != null
        invariant 0 <= k < |spine| && r == spine[k]
        invariant r.left == (if k < |spine| - 1 then spine[k + 1] else null)
        decreases |spine| - k
      {
        r := r.left;
        k := k + 1;
      }
    }

    /** The rightmost descendant: the end of node's right spine. */
    method MaxNode(node: Node, ghost spine: seq<Node>) returns (r: Node)
      requires RightSpine(spine) && spine[0] == node
      ensures r == spine[|spine| - 1] && r.right == null
    {
      r := node;
      ghost var k := 0;
      while r.right != null
        invariant 0 <= k < |spine| && r == spine[k]
        invariant r.right == (if k < |spine| - 1 then spine[k + 1] else null)
        decreases |spine| - k
      {
        r := r.right;
        k := k + 1;
      }
    }

    /** The in-order predecessor: the rightmost node of the left subtree, or
      * else the nearest ancestor reached from a right child (null if none). */
    method PredecessorNode(node: Node, ghost spine: seq<Node>, ghost up: seq<Node>) returns (r: Node?)
      requires node.left != null ==> RightSpine(spine) && spine[0] == node.left
      requires UpPath(up) && up[0] == node
      ensures node.left != null ==> r == spine[|spine| - 1]
      ensures node.left == null && r == null ==> NoTurn(up, true)
      ensures node.left == null && r != null ==> exists j :: FirstTurn(up, true, j) && r == up[j + 1]
    {
      if node.left != null {
        r := MaxNode(node.left, spine);
        return;
      }
      r := Climb(node, up, true);
    }

    /** The in-order successor: the leftmost node of the right subtree, or
      * else the nearest ancestor reached from a left child (null if none). */
    method SuccessorNode(node: Node, ghost spine: seq<Node>, ghost up: seq<Node>) returns (r: Node?)
      requires node.right != null ==> LeftSpine(spine) && spine[0] == node.right
      requires UpPath(up) && up[0] == node
      ensures node.right != null ==> r == spine[|spine| - 1]
      ensures node.right == null && r == null ==> NoTurn(up, false)
      ensures node.right == null && r != null ==> exists j :: FirstTurn(up, false, j) && r == up[j + 1]
    {
      if node.right != null {
        r := MinNode(node.right, spine);
        return;
      }
      r := Climb(node, up, false);
    }

    /** The upward loop shared by predecessorNode (`right`) and successorNode (`!right`). */
    method Climb(node: Node, ghost up: seq<Node>, right: bool) returns (r: Node?)
      requires UpPath(up) && up[0] == node
      ensures r == null ==> NoTurn(up, right)
      ensures r != null ==> exists j :: FirstTurn(up, right, j) && r == up[j + 1]
    {
      var child := node;
      r := child.parent;
      ghost var k := 0;
      while r != null
        invariant 0 <= k < |up| && child == up[k]
        invariant r == child.parent && r == (if k < |up| - 1 then up[k + 1] else null)
        invariant forall i :: 0 <= i < k ==> (if right then up[i + 1].right != up[i] else up[i + 1].left != up[i])
        decreases |up| - k
      {
        if (right && IsRight(child)) || (!right && IsLeft(child)) {
          assert FirstTurn(up, right, k);
          return;
        }
        child := r;
        r := r.parent;
        k := k + 1;
      }
    }
  }
}
