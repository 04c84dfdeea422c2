/** The sift algorithms shared by extmod/moduheapq.c and extmod/modutimeq.c, as
    functions on the items, and what they keep. */
module HeapCore {

  function Parent(i: nat): nat
    requires i > 0
  {
    (i - 1) / 2
  }

  /** `item` goes into the hole at `pos`; larger parents move down. */
  function SiftDown<T>(less: (T, T) -> bool, s: seq<T>, start: nat, pos: nat, item: T): (r: seq<T>)
    requires pos < |s|
    ensures |r| == |s|
    decreases pos
  {
    if pos > start && less(item, s[Parent(pos)]) then
      SiftDown(less, s[pos := s[Parent(pos)]], start, Parent(pos), item)
    else
      s[pos := item]
  }

  /** The child that moves up: the right one unless the left one is less. */
  function SmallChild<T>(less: (T, T) -> bool, s: seq<T>, pos: nat): (c: nat)
    requires 2 * pos + 1 < |s|
    ensures pos < c < |s| && Parent(c) == pos
  {
    var left := 2 * pos + 1;
    if left + 1 < |s| && !less(s[left], s[left + 1]) then left + 1 else left
  }

  /** The hole at `pos` bubbles down to a leaf, smaller children moving up. */
  function Bubble<T>(less: (T, T) -> bool, s: seq<T>, pos: nat): (r: (seq<T>, nat))
    requires pos < |s|
    ensures |r.0| == |s| && pos <= r.1 < |s|
    decreases |s| - pos
  {
    if 2 * pos + 1 < |s| then
      var c := SmallChild(less, s, pos);
      Bubble(less, s[pos := s[c]], c)
    else
      (s, pos)
  }

  /** One step of the bubbling. */
  lemma BubbleNext<T>(less: (T, T) -> bool, s: seq<T>, pos: nat)
    requires pos < |s|
    ensures Bubble(less, s, pos) == if 2 * pos + 1 < |s| then
        var c := SmallChild(less, s, pos); Bubble(less, s[pos := s[c]], c)
      else (s, pos)
  {
  }

  function SiftUp<T>(less: (T, T) -> bool, s: seq<T>, pos: nat): (r: seq<T>)
    requires pos < |s|
    ensures |r| == |s|
  {
    var (t, leaf) := Bubble(less, s, pos);
    SiftDown(less, t, pos, leaf, s[pos])
  }

  function Push<T>(less: (T, T) -> bool, s: seq<T>, item: T): (r: seq<T>)
    ensures |r| == |s| + 1
  {
    SiftDown(less, s + [item], 0, |s|, item)
  }

  /** What is left after the first item is taken. */
  function Pop<T>(less: (T, T) -> bool, s: seq<T>): (r: seq<T>)
    requires s != []
    ensures |r| == |s| - 1
  {
    var n := |s| - 1;
    if n == 0 then [] else SiftUp(less, s[..n][0 := s[n]], 0)
  }

  /** The loop of heapify, with items from `i` on done. */
  function HeapifyFrom<T>(less: (T, T) -> bool, s: seq<T>, i: nat): (r: seq<T>)
    requires i <= |s|
    ensures |r| == |s|
    decreases i
  {
    if i == 0 then s else HeapifyFrom(less, SiftUp(less, s, i - 1), i - 1)
  }

  /** What stands in the hole does not matter. */
  lemma {:induction false} SiftDownHole<T>(less: (T, T) -> bool, s: seq<T>, start: nat, pos: nat, item: T)
    requires pos < |s|
    ensures SiftDown(less, s[pos := item], start, pos, item) == SiftDown(less, s, start, pos, item)
  {
    if pos > start {
      assert s[pos := item][Parent(pos)] == s[Parent(pos)];
      assert s[pos := item][pos := s[Parent(pos)]] == s[pos := s[Parent(pos)]];
    }
    assert s[pos := item][pos := item] == s[pos := item];
  }

  // ----- Orders and heaps

  /** `less` is a strict weak order on `elems`. */
  ghost predicate Order<T(!new)>(less: (T, T) -> bool, elems: iset<T>) {
    && (forall a, b :: a in elems && b in elems && less(a, b) ==> !less(b, a))
    && (forall a, b, c :: a in elems && b in elems && c in elems && !less(a, b) && !less(b, c) ==> !less(a, c))
  }

  ghost predicate Elements<T(!new)>(s: seq<T>, elems: iset<T>) {
    forall i :: 0 <= i < |s| ==> s[i] in elems
  }

  /** No item from node `lo`'s children on is less than its parent. */
  ghost predicate HeapFrom<T>(less: (T, T) -> bool, s: seq<T>, lo: nat) {
    forall i :: 0 < i < |s| && Parent(i) >= lo ==> !less(s[i], s[Parent(i)])
  }

  /** A heap but for the hole at `pos`, into which `item` may go as far as the
      nodes below are concerned. */
  ghost predicate Holed<T>(less: (T, T) -> bool, s: seq<T>, lo: nat, pos: nat, item: T)
    requires lo <= pos < |s|
  {
    && (forall i :: 0 < i < |s| && i != pos && Parent(i) != pos && Parent(i) >= lo ==> !less(s[i], s[Parent(i)]))
    && (forall i :: 0 < i < |s| && Parent(i) == pos ==>
        !less(s[i], item) && (pos > lo ==> !less(s[i], s[Parent(pos)])))
  }

  /** `pos` is in the subtree of `lo`. */
  predicate Under(lo: nat, pos: nat)
    decreases pos
  {
    pos == lo || (pos > lo && Under(lo, Parent(pos)))
  }

  lemma HoledMove<T(!new)>(less: (T, T) -> bool, elems: iset<T>, s: seq<T>, lo: nat, pos: nat, item: T)
    requires Order(less, elems) && Elements(s, elems) && item in elems
    requires lo < pos < |s| && Under(lo, Parent(pos)) && lo <= Parent(pos)
    requires Holed(less, s, lo, pos, item) && less(item, s[Parent(pos)])
    ensures Holed(less, s[pos := s[Parent(pos)]], lo, Parent(pos), item)
  {
  }

  /** The item settles: the subtree of `lo` is a heap. */
  lemma {:induction false} SiftDownHeap<T(!new)>(less: (T, T) -> bool, elems: iset<T>, s: seq<T>,
      lo: nat, pos: nat, item: T)
    requires Order(less, elems) && Elements(s, elems) && item in elems
    requires lo <= pos < |s| && Under(lo, pos) && Holed(less, s, lo, pos, item)
    ensures HeapFrom(less, SiftDown(less, s, lo, pos, item), lo)
    decreases pos
  {
    if pos > lo && less(item, s[Parent(pos)]) {
      UnderAbove(lo, Parent(pos));
      HoledMove(less, elems, s, lo, pos, item);
      SiftDownHeap(less, elems, s[pos := s[Parent(pos)]], lo, Parent(pos), item);
    }
  }

  lemma {:induction false} UnderAbove(lo: nat, pos: nat)
    requires Under(lo, pos)
    ensures lo <= pos
    decreases pos
  {
  }

  /** Bubbling keeps the heap, the hole holding a copy of what moved up. */
  lemma {:induction false} BubbleHeap<T(!new)>(less: (T, T) -> bool, elems: iset<T>, s: seq<T>, lo: nat, pos: nat)
    requires Order(less, elems) && Elements(s, elems) && lo <= pos < |s| && Under(lo, pos)
    requires if pos == lo then HeapFrom(less, s, lo + 1) else HeapFrom(less, s, lo) && s[pos] == s[Parent(pos)]
    ensures var (t, leaf) := Bubble(less, s, pos);
      && Elements(t, elems) && Under(lo, leaf) && lo <= leaf && |t| <= 2 * leaf + 1
      && HeapFrom(less, t, lo)
    decreases |s| - pos
  {
    if 2 * pos + 1 < |s| {
      var c := SmallChild(less, s, pos);
      BubbleStep(less, elems, s, lo, pos);
      BubbleHeap(less, elems, s[pos := s[c]], lo, c);
    }
  }

  lemma BubbleStep<T(!new)>(less: (T, T) -> bool, elems: iset<T>, s: seq<T>, lo: nat, pos: nat)
    requires Order(less, elems) && Elements(s, elems) && lo <= pos && 2 * pos + 1 < |s|
    requires if pos == lo then HeapFrom(less, s, lo + 1) else HeapFrom(less, s, lo) && s[pos] == s[Parent(pos)]
    ensures HeapFrom(less, s[pos := s[SmallChild(less, s, pos)]], lo)
  {
  }

  lemma SiftUpHeap<T(!new)>(less: (T, T) -> bool, elems: iset<T>, s: seq<T>, lo: nat)
    requires Order(less, elems) && Elements(s, elems) && lo < |s| && HeapFrom(less, s, lo + 1)
    ensures HeapFrom(less, SiftUp(less, s, lo), lo)
  {
    var (t, leaf) := Bubble(less, s, lo);
    BubbleHeap(less, elems, s, lo, lo);
    SiftDownHeap(less, elems, t, lo, leaf, s[lo]);
  }

  // ----- Only the subtree moves

  lemma {:induction false} SiftDownWithin<T>(less: (T, T) -> bool, s: seq<T>, lo: nat, pos: nat, item: T, i: nat)
    requires pos < |s| && i < |s| && Under(lo, pos) && !Under(lo, i)
    ensures SiftDown(less, s, lo, pos, item)[i] == s[i]
    decreases pos
  {
    if pos > lo && less(item, s[Parent(pos)]) {
      SiftDownWithin(less, s[pos := s[Parent(pos)]], lo, Parent(pos), item, i);
    }
  }

  lemma {:induction false} BubbleWithin<T>(less: (T, T) -> bool, s: seq<T>, lo: nat, pos: nat, i: nat)
    requires lo <= pos < |s| && i < |s| && Under(lo, pos) && !Under(lo, i)
    ensures var (t, leaf) := Bubble(less, s, pos); t[i] == s[i] && Under(lo, leaf)
    decreases |s| - pos
  {
    if 2 * pos + 1 < |s| {
      var c := SmallChild(less, s, pos);
      BubbleWithin(less, s[pos := s[c]], lo, c, i);
    }
  }

  /** Sifting up from `lo` and back moves nothing outside the subtree of `lo`. */
  lemma SiftUpWithin<T>(less: (T, T) -> bool, s: seq<T>, lo: nat, i: nat)
    requires lo < |s| && i < |s| && !Under(lo, i)
    ensures SiftUp(less, s, lo)[i] == s[i]
  {
    var (t, leaf) := Bubble(less, s, lo);
    BubbleWithin(less, s, lo, lo, i);
    SiftDownWithin(less, t, lo, leaf, s[lo], i);
  }

  // ----- No item is lost

  lemma MoveItem<T>(s: seq<T>, i: nat, j: nat, x: T)
    requires i < |s| && j < |s| && i != j
    ensures multiset(s[i := s[j]][j := x]) == multiset(s[i := x])
  {
  }

  lemma {:induction false} SiftDownItems<T>(less: (T, T) -> bool, s: seq<T>, start: nat, pos: nat, item: T)
    requires pos < |s|
    ensures multiset(SiftDown(less, s, start, pos, item)) == multiset(s[pos := item])
    decreases pos
  {
    if pos > start && less(item, s[Parent(pos)]) {
      SiftDownItems(less, s[pos := s[Parent(pos)]], start, Parent(pos), item);
      MoveItem(s, pos, Parent(pos), item);
    }
  }

  lemma {:induction false} BubbleItems<T>(less: (T, T) -> bool, s: seq<T>, pos: nat, item: T)
    requires pos < |s|
    ensures var (t, leaf) := Bubble(less, s, pos); multiset(t[leaf := item]) == multiset(s[pos := item])
    decreases |s| - pos
  {
    if 2 * pos + 1 < |s| {
      var c := SmallChild(less, s, pos);
      BubbleItems(less, s[pos := s[c]], c, item);
      MoveItem(s, pos, c, item);
    }
  }

  lemma SiftUpItems<T>(less: (T, T) -> bool, s: seq<T>, pos: nat)
    requires pos < |s|
    ensures multiset(SiftUp(less, s, pos)) == multiset(s)
  {
    var (t, leaf) := Bubble(less, s, pos);
    BubbleItems(less, s, pos, s[pos]);
    SiftDownItems(less, t, pos, leaf, s[pos]);
    assert s[pos := s[pos]] == s;
  }

  lemma SameItems<T(!new)>(s: seq<T>, t: seq<T>, elems: iset<T>)
    requires Elements(s, elems) && multiset(s) == multiset(t)
    ensures Elements(t, elems)
  {
    forall i | 0 <= i < |t| ensures t[i] in elems {
      assert t[i] in multiset(s);
    }
  }

  // ----- Push, pop and heapify

  lemma PushHeap<T(!new)>(less: (T, T) -> bool, elems: iset<T>, s: seq<T>, item: T)
    requires Order(less, elems) && Elements(s, elems) && item in elems && HeapFrom(less, s, 0)
    ensures HeapFrom(less, Push(less, s, item), 0)
    ensures multiset(Push(less, s, item)) == multiset(s) + multiset{item}
  {
    var t := s + [item];
    UnderRoot(|s|);
    SiftDownHeap(less, elems, t, 0, |s|, item);
    SiftDownItems(less, t, 0, |s|, item);
    assert t[|s| := item] == t;
  }

  lemma {:induction false} UnderRoot(pos: nat)
    ensures Under(0, pos)
    decreases pos
  {
    if pos > 0 {
      UnderRoot(Parent(pos));
    }
  }

  /** The first item of a heap is a least one. */
  lemma {:induction false} HeapFirst<T(!new)>(less: (T, T) -> bool, elems: iset<T>, s: seq<T>, i: nat)
    requires Order(less, elems) && Elements(s, elems) && HeapFrom(less, s, 0) && i < |s|
    ensures !less(s[i], s[0])
    decreases i
  {
    if i > 0 {
      HeapFirst(less, elems, s, Parent(i));
      assert !less(s[i], s[Parent(i)]);
    }
  }

  lemma LastToFront<T>(s: seq<T>)
    requires |s| > 1
    ensures multiset(s) == multiset(s[..|s| - 1][0 := s[|s| - 1]]) + multiset{s[0]}
  {
    var n := |s| - 1;
    EndsOf(s);
    var mid := s[1..n];
    assert multiset([s[0]] + mid + [s[n]]) == multiset{s[0]} + multiset(mid) + multiset{s[n]};
    assert multiset([s[n]] + mid) == multiset{s[n]} + multiset(mid);
  }

  lemma EndsOf<T>(s: seq<T>)
    requires |s| > 1
    ensures var n := |s| - 1; s == [s[0]] + s[1..n] + [s[n]] && s[..n][0 := s[n]] == [s[n]] + s[1..n]
  {
  }

  lemma PopItems<T>(less: (T, T) -> bool, s: seq<T>)
    requires s != []
    ensures multiset(s) == multiset(Pop(less, s)) + multiset{s[0]}
  {
    var n := |s| - 1;
    if n == 0 {
      assert s == [s[0]];
    } else {
      hide SiftUp;
      SiftUpItems(less, s[..n][0 := s[n]], 0);
      LastToFront(s);
    }
  }

  lemma PopHeap<T(!new)>(less: (T, T) -> bool, elems: iset<T>, s: seq<T>)
    requires Order(less, elems) && Elements(s, elems) && s != [] && HeapFrom(less, s, 0)
    ensures HeapFrom(less, Pop(less, s), 0)
    ensures multiset(s) == multiset(Pop(less, s)) + multiset{s[0]}
    ensures forall i :: 0 <= i < |s| ==> !less(s[i], s[0])
  {
    forall i | 0 <= i < |s| ensures !less(s[i], s[0]) { HeapFirst(less, elems, s, i); }
    PopItems(less, s);
    var n := |s| - 1;
    if n > 0 {
      var t := s[..n][0 := s[n]];
      LastFirst(less, elems, s);
      hide HeapFrom, Order, SiftUp, Elements;
      SiftUpHeap(less, elems, t, 0);
    }
  }

  lemma LastFirst<T(!new)>(less: (T, T) -> bool, elems: iset<T>, s: seq<T>)
    requires Elements(s, elems) && |s| > 1 && HeapFrom(less, s, 0)
    ensures var t := s[..|s| - 1][0 := s[|s| - 1]]; Elements(t, elems) && HeapFrom(less, t, 1)
  {
  }

  lemma {:induction false} HeapifyHeap<T(!new)>(less: (T, T) -> bool, elems: iset<T>, s: seq<T>, i: nat)
    requires Order(less, elems) && Elements(s, elems) && i <= |s| && HeapFrom(less, s, i)
    ensures HeapFrom(less, HeapifyFrom(less, s, i), 0)
    ensures multiset(HeapifyFrom(less, s, i)) == multiset(s)
    decreases i
  {
    hide HeapFrom, Order, SiftUp, Elements;
    if i > 0 {
      SiftUpHeap(less, elems, s, i - 1);
      SiftUpItems(less, s, i - 1);
      SameItems(s, SiftUp(less, s, i - 1), elems);
      HeapifyHeap(less, elems, SiftUp(less, s, i - 1), i - 1);
    }
  }

  /** Pop until nothing is left. */
  function PopAll<T>(less: (T, T) -> bool, s: seq<T>): (r: seq<T>)
    ensures |r| == |s|
    decreases |s|
  {
    if s == [] then [] else [s[0]] + PopAll(less, Pop(less, s))
  }

  ghost predicate Sorted<T>(less: (T, T) -> bool, s: seq<T>) {
    forall i, j :: 0 <= i < j < |s| ==> !less(s[j], s[i])
  }

  lemma SortedCons<T>(less: (T, T) -> bool, x: T, s: seq<T>)
    requires Sorted(less, s) && forall i :: 0 <= i < |s| ==> !less(s[i], x)
    ensures Sorted(less, [x] + s) && multiset([x] + s) == multiset(s) + multiset{x}
  {
  }

  lemma NoneLess<T>(less: (T, T) -> bool, x: T, s: seq<T>, t: seq<T>)
    requires multiset(t) <= multiset(s) && forall i :: 0 <= i < |s| ==> !less(s[i], x)
    ensures forall i :: 0 <= i < |t| ==> !less(t[i], x)
  {
    forall i | 0 <= i < |t| ensures !less(t[i], x) {
      assert t[i] in multiset(t);
      assert t[i] in multiset(s);
    }
  }

  lemma SubItems<T(!new)>(s: seq<T>, t: seq<T>, elems: iset<T>)
    requires Elements(s, elems) && multiset(t) <= multiset(s)
    ensures Elements(t, elems)
  {
    forall i | 0 <= i < |t| ensures t[i] in elems {
      assert t[i] in multiset(t);
      assert t[i] in multiset(s);
    }
  }

  /** Popping a heap until it is empty sorts it. */
  lemma {:induction false} PopAllSorts<T(!new)>(less: (T, T) -> bool, elems: iset<T>, s: seq<T>)
    requires Order(less, elems) && Elements(s, elems) && HeapFrom(less, s, 0)
    ensures Sorted(less, PopAll(less, s)) && multiset(PopAll(less, s)) == multiset(s)
    decreases |s|
  {
    if s != [] {
      var rest := Pop(less, s);
      PopHeap(less, elems, s);
      hide HeapFrom, Order, Elements, Pop, Sorted;
      SubItems(s, rest, elems);
      PopAllSorts(less, elems, rest);
      NoneLess(less, s[0], s, PopAll(less, rest));
      SortedCons(less, s[0], PopAll(less, rest));
    }
  }
}
