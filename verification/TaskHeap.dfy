/** The binary heap under the task queue: a list whose entry at `i` never comes after those at `2i + 1` and `2i + 2`. */
module TaskHeap {

  /** A queue entry.  Entries are compared by priority value, then by counter; with distinct counters
      the comparison never gets as far as the task. */
  datatype Entry<T> = Entry(priority: int, counter: nat, task: T)

  predicate Less<T>(a: Entry<T>, b: Entry<T>)
  {
    a.priority < b.priority || (a.priority == b.priority && a.counter < b.counter)
  }

  function Parent(i: nat): nat
    requires i > 0
  {
    (i - 1) / 2
  }

  predicate Ordered<T>(h: seq<Entry<T>>, i: nat)
    requires 0 < i < |h|
  {
    !Less(h[i], h[Parent(i)])
  }

  ghost predicate IsHeap<T>(h: seq<Entry<T>>)
  {
    forall i :: 0 < i < |h| ==> Ordered(h, i)
  }

  /** Nothing comes before the root. */
  lemma {:induction false} RootIsLeast<T>(h: seq<Entry<T>>, i: nat)
    requires IsHeap(h) && i < |h|
    ensures !Less(h[i], h[0])
  {
    if i == 0 {
    } else {
      assert Ordered(h, i);
      RootIsLeast(h, Parent(i));
    }
  }

  /** The heap order holds except that the entry at `pos` may come before its parent. */
  ghost predicate HeapButUp<T>(h: seq<Entry<T>>, pos: nat)
  {
    && pos < |h|
    && (forall i :: 0 < i < |h| && i != pos ==> Ordered(h, i))
    && (forall i :: 0 < i < |h| && Parent(i) == pos && pos > 0 ==> !Less(h[i], h[Parent(pos)]))
  }

  /** The heap order holds except around `pos`, where the entry may be out of order in both directions. */
  ghost predicate HeapButAt<T>(h: seq<Entry<T>>, pos: nat)
  {
    && pos < |h|
    && (forall i :: 0 < i < |h| && i != pos && Parent(i) != pos ==> Ordered(h, i))
    && (forall i :: 0 < i < |h| && Parent(i) == pos && pos > 0 ==> !Less(h[i], h[Parent(pos)]))
  }

  /** Two places exchanged. */
  function Swap<T>(h: seq<T>, i: nat, j: nat): seq<T>
    requires i < |h| && j < |h|
  {
    h[i := h[j]][j := h[i]]
  }

  lemma SwapPermutes<T>(h: seq<T>, i: nat, j: nat)
    requires i < |h| && j < |h|
    ensures multiset(Swap(h, i, j)) == multiset(h)
  {}

  /** Moving the entry at `pos` above its parent, when it comes before it. */
  lemma SwapUp<T>(h: seq<Entry<T>>, pos: nat)
    requires HeapButUp(h, pos) && pos > 0 && Less(h[pos], h[Parent(pos)])
    ensures HeapButUp(Swap(h, pos, Parent(pos)), Parent(pos))
  {
    var p := Parent(pos);
    var g := Swap(h, pos, p);
    forall i | 0 < i < |g| && i != p
      ensures Ordered(g, i)
    {
      if i != pos { assert Ordered(h, i); }
    }
    if p > 0 {
      assert Ordered(h, p);
      forall i | 0 < i < |g| && Parent(i) == p
        ensures !Less(g[i], g[Parent(p)])
      {
        if i != pos { assert Ordered(h, i); }
      }
    }
  }

  /** Moving the lesser child of `pos` up into its place. */
  lemma SwapDown<T>(h: seq<Entry<T>>, pos: nat, child: nat)
    requires HeapButAt(h, pos) && 0 < child < |h| && Parent(child) == pos
    requires forall i :: 0 < i < |h| && Parent(i) == pos ==> !Less(h[i], h[child])
    ensures HeapButAt(Swap(h, pos, child), child)
  {
    var g := Swap(h, pos, child);
    forall i | 0 < i < |g| && i != child && Parent(i) != child
      ensures Ordered(g, i)
    {
      if Parent(i) != pos && i != pos { assert Ordered(h, i); }
    }
    forall i | 0 < i < |g| && Parent(i) == child
      ensures !Less(g[i], g[Parent(child)])
    {
      assert Ordered(h, i);
    }
  }

  /** `heapq._siftdown`: the entry at `start` is carried towards the root past every parent that comes after it. */
  method SiftDown<T>(heap: seq<Entry<T>>, start: nat) returns (h: seq<Entry<T>>)
    requires HeapButUp(heap, start)
    ensures IsHeap(h) && multiset(h) == multiset(heap)
  {
    h := heap;
    var pos: nat := start;
    while pos > 0
      invariant HeapButUp(h, pos)
      invariant multiset(h) == multiset(heap)
    {
      var parentPos := (pos - 1) / 2;
      if !Less(h[pos], h[parentPos]) {
        break;
      }
      hide HeapButUp, Less;
      SwapPermutes(h, pos, parentPos);
      SwapUp(h, pos);
      h := Swap(h, pos, parentPos);
      pos := parentPos;
    }
    assert pos > 0 ==> Ordered(h, pos);
  }

  /** `heapq._siftup` from the root: lesser children move up until the entry from the root stands on a leaf,
      and from there it is carried back towards the root. */
  method SiftUp<T>(heap: seq<Entry<T>>) returns (h: seq<Entry<T>>)
    requires HeapButAt(heap, 0)
    ensures IsHeap(h) && multiset(h) == multiset(heap)
  {
    h := heap;
    var pos: nat, childPos: nat := 0, 1;
    while childPos < |h|
      invariant HeapButAt(h, pos) && childPos == 2 * pos + 1
      invariant multiset(h) == multiset(heap)
      decreases |h| - pos
    {
      var rightPos := childPos + 1;
      if rightPos < |h| && !Less(h[childPos], h[rightPos]) {
        childPos := rightPos;
      }
      LesserChild(h, pos, childPos);
      hide HeapButAt, Less;
      SwapPermutes(h, pos, childPos);
      SwapDown(h, pos, childPos);
      h := Swap(h, pos, childPos);
      pos := childPos;
      childPos := 2 * pos + 1;
    }
    LeafIsUp(h, pos);
    h := SiftDown(h, pos);
  }

  lemma LesserChild<T>(h: seq<Entry<T>>, pos: nat, child: nat)
    requires child < |h| && (child == 2 * pos + 1 || child == 2 * pos + 2)
    requires child == 2 * pos + 1 ==> 2 * pos + 2 < |h| ==> Less(h[child], h[2 * pos + 2])
    requires child == 2 * pos + 2 ==> !Less(h[2 * pos + 1], h[child])
    ensures forall i :: 0 < i < |h| && Parent(i) == pos ==> !Less(h[i], h[child])
  {}

  lemma LeafIsUp<T>(h: seq<Entry<T>>, pos: nat)
    requires HeapButAt(h, pos) && 2 * pos + 1 >= |h|
    ensures HeapButUp(h, pos)
  {
    assert forall i :: 0 < i < |h| ==> Parent(i) != pos;
  }

  method HeapPush<T>(heap: seq<Entry<T>>, item: Entry<T>) returns (h: seq<Entry<T>>)
    requires IsHeap(heap)
    ensures IsHeap(h) && multiset(h) == multiset(heap) + multiset{item}
  {
    AppendKeepsOrder(heap, item);
    h := SiftDown(heap + [item], |heap|);
  }

  lemma AppendKeepsOrder<T>(h: seq<Entry<T>>, item: Entry<T>)
    requires IsHeap(h)
    ensures HeapButUp(h + [item], |h|)
  {
    var g := h + [item];
    forall i | 0 < i < |g| && i != |h|
      ensures Ordered(g, i)
    {
      assert Ordered(h, i);
    }
  }

  /** Removes an entry that nothing in the heap comes before. */
  method HeapPop<T>(heap: seq<Entry<T>>) returns (item: Entry<T>, h: seq<Entry<T>>)
    requires heap != [] && IsHeap(heap)
    ensures IsHeap(h) && multiset(heap) == multiset(h) + multiset{item}
    ensures forall e :: e in multiset(heap) ==> !Less(e, item)
    ensures forall e :: e in multiset(heap) ==>
      item.priority < e.priority || (item.priority == e.priority && item.counter <= e.counter)
  {
    ghost var least := heap[0];
    forall e | e in heap
      ensures !Less(e, least)
    {
      var i :| 0 <= i < |heap| && heap[i] == e;
      RootIsLeast(heap, i);
    }
    var last := heap[|heap| - 1];
    h := heap[..|heap| - 1];
    if h == [] {
      assert heap == [last];
      return last, h;
    }
    item := h[0];
    RootReplaced(heap);
    h := SiftUp(h[0 := last]);
  }

  /** The last entry put in place of the root. */
  lemma RootReplaced<T>(heap: seq<Entry<T>>)
    requires |heap| > 1 && IsHeap(heap)
    ensures var last := heap[|heap| - 1]; var h := heap[..|heap| - 1][0 := last];
      HeapButAt(h, 0) && multiset(heap) == multiset(h) + multiset{heap[0]}
  {
    var last, front := heap[|heap| - 1], heap[..|heap| - 1];
    var h := front[0 := last];
    assert heap == front + [last];
    assert multiset(h) == multiset(front) - multiset{front[0]} + multiset{last};
    forall i | 0 < i < |h| && Parent(i) != 0
      ensures Ordered(h, i)
    {
      assert Ordered(heap, i);
    }
  }
}
