/** uheapq: a list kept as a heap in place (extmod/moduheapq.c). `less` is the
    `<` of the Python objects. */
module Heapq {
  import opened HeapCore
  import opened Wrappers

  class PyList<T> {
    var items: seq<T>

    constructor (items: seq<T>)
      ensures this.items == items
    {
      this.items := items;
    }

    /** uheapq_heap_siftdown. */
    method SiftDownAt(less: (T, T) -> bool, start: nat, pos0: nat)
      requires start <= pos0 < |items|
      modifies this
      ensures items == SiftDown(less, old(items), start, pos0, old(items)[pos0])
    {
      var pos := pos0;
      var item := items[pos];
      while pos > start
        invariant 0 <= pos < |items|
        invariant SiftDown(less, items, start, pos, item) == SiftDown(less, old(items), start, pos0, item)
      {
        var parent := items[(pos - 1) / 2];
        if less(item, parent) {
          items := items[pos := parent];
          pos := (pos - 1) / 2;
        } else {
          break;
        }
      }
      items := items[pos := item];
    }

    /** uheapq_heap_siftup. */
    method SiftUpAt(less: (T, T) -> bool, pos0: nat)
      requires pos0 < |items|
      modifies this
      ensures items == SiftUp(less, old(items), pos0)
    {
      hide SiftDown, Bubble;
      var item := items[pos0];
      var pos := BubbleAt(less, pos0);
      ghost var bubbled := items;
      items := items[pos := item];
      SiftDownHole(less, bubbled, pos0, pos, item);
      SiftDownAt(less, pos0, pos);
    }

    /** The first loop of heap_siftup: the smaller children move up. */
    method BubbleAt(less: (T, T) -> bool, pos0: nat) returns (pos: nat)
      requires pos0 < |items|
      modifies this
      ensures pos < |items| && (items, pos) == Bubble(less, old(items), pos0)
    {
      hide Bubble;
      pos := pos0;
      var child := 2 * pos + 1;
      while child < |items|
        invariant pos0 <= pos < |items| && child == 2 * pos + 1
        invariant Bubble(less, items, pos) == Bubble(less, old(items), pos0)
        decreases |items| - pos
      {
        BubbleNext(less, items, pos);
        if child + 1 < |items| && !less(items[child], items[child + 1]) {
          child := child + 1;
        }
        items := items[pos := items[child]];
        pos := child;
        child := 2 * pos + 1;
      }
      BubbleNext(less, items, pos);
    }

    /** heappush. */
    method HeapPush(less: (T, T) -> bool, item: T)
      modifies this
      ensures items == Push(less, old(items), item)
    {
      items := items + [item];
      SiftDownAt(less, 0, |items| - 1);
    }

    /** heappop: nothing to pop is an IndexError. */
    method HeapPop(less: (T, T) -> bool) returns (r: Option<T>)
      modifies this
      ensures old(items) == [] ==> r == None && items == []
      ensures old(items) != [] ==> r == Some(old(items)[0]) && items == Pop(less, old(items))
    {
      if |items| == 0 {
        return None;
      }
      r := Some(items[0]);
      var len := |items| - 1;
      var last := items[len];
      items := items[..len];
      if len > 0 {
        items := items[0 := last];
        SiftUpAt(less, 0);
      }
    }

    /** heapify. */
    method Heapify(less: (T, T) -> bool)
      modifies this
      ensures items == HeapifyFrom(less, old(items), |old(items)| / 2)
    {
      hide SiftUp;
      var i := |items| / 2;
      while i > 0
        invariant 0 <= i <= |items| == |old(items)|
        invariant HeapifyFrom(less, items, i) == HeapifyFrom(less, old(items), |old(items)| / 2)
      {
        i := i - 1;
        SiftUpAt(less, i);
      }
    }
  }

  /** heapify of any list, then popping until empty, gives its items sorted. */
  lemma HeapifyPopSorts<T(!new)>(less: (T, T) -> bool, elems: iset<T>, s: seq<T>)
    requires Order(less, elems) && Elements(s, elems)
    ensures var heap := HeapifyFrom(less, s, |s| / 2);
      && HeapFrom(less, heap, 0) && multiset(heap) == multiset(s)
      && Sorted(less, PopAll(less, heap)) && multiset(PopAll(less, heap)) == multiset(s)
  {
    var heap := HeapifyFrom(less, s, |s| / 2);
    HeapifyHeap(less, elems, s, |s| / 2);
    SameItems(s, heap, elems);
    PopAllSorts(less, elems, heap);
  }
}
