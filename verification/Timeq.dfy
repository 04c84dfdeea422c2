/** utimeq: a fixed-size heap ordered by wrap-around ticks (extmod/modutimeq.c),
    on a 32-bit port. */
module Timeq {
  import opened HeapCore

  const WORD: nat := 0x1_0000_0000
  /** MICROPY_PY_UTIME_TICKS_PERIOD. */
  const PERIOD: nat := 0x4000_0000
  const HALF: nat := 0x2000_0000

  type Word = n: nat | n < WORD

  datatype Obj = Null | Obj(ref: nat)

  datatype Entry = Entry(time: Word, id: Word, callback: Obj, args: Obj)

  /** time_less_than, with its unsigned and signed word arithmetic. */
  predicate TimeLess(item: Entry, parent: Entry) {
    var res := (parent.time - item.time) % WORD;
    if res == 0 then item.id < parent.id
    else
      var res' := if res >= WORD / 2 then (res + PERIOD) % WORD else res;
      res' != 0 && res' < PERIOD / 2
  }

  // ----- Ring order

  /** How far `t` lies after `b` on the ring. */
  function RingFrom(b: nat, t: nat): int {
    if t >= b then t - b else t - b + PERIOD
  }

  ghost predicate InWindow(b: nat, e: Entry) {
    e.time < PERIOD && RingFrom(b, e.time) < HALF
  }

  ghost function Window(b: nat): iset<Entry> { iset e: Entry | InWindow(b, e) }

  /** All entries lie in one half-period window. */
  ghost predicate Windowed(s: seq<Entry>) { exists b: nat :: WindowedAt(b, s) }

  ghost predicate WindowedAt(b: nat, s: seq<Entry>) {
    b < PERIOD && forall i :: 0 <= i < |s| ==> InWindow(b, s[i])
  }

  /** Within the period the word arithmetic measures ring distance. */
  lemma TimeLessRing(e: Entry, f: Entry)
    requires e.time < PERIOD && f.time < PERIOD
    ensures TimeLess(e, f) <==>
      if e.time == f.time then e.id < f.id else 0 < RingFrom(e.time, f.time) < HALF
  {
  }

  /** Within a window it is the order of the distances from its base. */
  lemma TimeLessKey(b: nat, e: Entry, f: Entry)
    requires b < PERIOD && InWindow(b, e) && InWindow(b, f)
    ensures TimeLess(e, f) <==>
      (RingFrom(b, e.time) < RingFrom(b, f.time) || (e.time == f.time && e.id < f.id))
  {
    TimeLessRing(e, f);
  }

  lemma WindowOrder(b: nat)
    requires b < PERIOD
    ensures Order(TimeLess, Window(b))
  {
    hide TimeLess, RingFrom;
    forall e, f | e in Window(b) && f in Window(b) && TimeLess(e, f) ensures !TimeLess(f, e) {
      TimeLessKey(b, e, f);
      TimeLessKey(b, f, e);
    }
    forall e, f, g | e in Window(b) && f in Window(b) && g in Window(b) && !TimeLess(e, f) && !TimeLess(f, g)
      ensures !TimeLess(e, g)
    {
      TimeLessKey(b, e, f);
      TimeLessKey(b, f, g);
      TimeLessKey(b, e, g);
      SameKey(b, e.time, f.time);
      SameKey(b, f.time, g.time);
    }
  }

  lemma SameKey(b: nat, t: nat, u: nat)
    requires b < PERIOD && t < PERIOD && u < PERIOD
    ensures RingFrom(b, t) == RingFrom(b, u) <==> t == u
  {
  }

  /** The comparison is total and transitive on the entries. */
  ghost predicate Ordered(s: seq<Entry>) {
    && (forall i, j :: 0 <= i < |s| && 0 <= j < |s| && s[i].time != s[j].time ==>
        TimeLess(s[i], s[j]) || TimeLess(s[j], s[i]))
    && (forall i, j, k | 0 <= i < |s| && 0 <= j < |s| && 0 <= k < |s| ::
        TimeLess(s[i], s[j]) && TimeLess(s[j], s[k]) ==> TimeLess(s[i], s[k]))
  }

  ghost predicate LeastOf(s: seq<Entry>, n: nat, k: nat)
    requires n <= |s| && k < |s|
  {
    forall j :: 0 <= j < n ==> s[j].time == s[k].time || TimeLess(s[k], s[j])
  }

  /** An entry that no other one precedes in time. */
  lemma {:induction false} Least(s: seq<Entry>, n: nat) returns (k: nat)
    requires Ordered(s) && 0 < n <= |s|
    ensures k < n && LeastOf(s, n, k)
    decreases n
  {
    if n == 1 {
      k := 0;
    } else {
      var m := Least(s, n - 1);
      k := if s[n - 1].time == s[m].time || TimeLess(s[m], s[n - 1]) then m else n - 1;
      hide TimeLess;
      if k != m {
        forall j | 0 <= j < n ensures s[j].time == s[k].time || TimeLess(s[k], s[j]) {
          LeastStep(s, m, k, j);
        }
      }
    }
  }

  lemma LeastStep(s: seq<Entry>, m: nat, k: nat, j: nat)
    requires Ordered(s) && m < |s| && k < |s| && j < |s|
    requires s[k].time != s[m].time && TimeLess(s[k], s[m])
    requires j == k || s[j].time == s[m].time || TimeLess(s[m], s[j])
    ensures s[j].time == s[k].time || TimeLess(s[k], s[j])
  {
  }

  /** The comparison is an order on ticks exactly when one half-period window
      holds them all. */
  lemma OrderIffWindow(s: seq<Entry>)
    requires forall i :: 0 <= i < |s| ==> s[i].time < PERIOD
    ensures Ordered(s) <==> Windowed(s)
  {
    if Windowed(s) {
      var b: nat :| WindowedAt(b, s);
      WindowOrdered(b, s);
    }
    if Ordered(s) {
      if s == [] {
        assert WindowedAt(0, s);
      } else {
        OrderedWindow(s);
      }
    }
  }

  lemma WindowOrdered(b: nat, s: seq<Entry>)
    requires WindowedAt(b, s)
    ensures Ordered(s)
  {
    hide TimeLess, RingFrom;
    forall i, j | 0 <= i < |s| && 0 <= j < |s| && s[i].time != s[j].time
      ensures TimeLess(s[i], s[j]) || TimeLess(s[j], s[i])
    {
      TimeLessKey(b, s[i], s[j]);
      TimeLessKey(b, s[j], s[i]);
      SameKey(b, s[i].time, s[j].time);
    }
    forall i, j, k | 0 <= i < |s| && 0 <= j < |s| && 0 <= k < |s| && TimeLess(s[i], s[j]) && TimeLess(s[j], s[k])
      ensures TimeLess(s[i], s[k])
    {
      TimeLessKey(b, s[i], s[j]);
      TimeLessKey(b, s[j], s[k]);
      TimeLessKey(b, s[i], s[k]);
    }
  }

  lemma OrderedWindow(s: seq<Entry>)
    requires s != [] && Ordered(s) && forall i :: 0 <= i < |s| ==> s[i].time < PERIOD
    ensures Windowed(s)
  {
    var k := Least(s, |s|);
    var b := s[k].time;
    forall i | 0 <= i < |s| ensures InWindow(b, s[i]) {
      TimeLessRing(s[k], s[i]);
    }
    assert WindowedAt(b, s);
  }

  /** Being pairwise within half a period is not enough. */
  lemma PairwiseNotEnough(x: Obj)
    ensures var a, b, c := Entry(0, 0, x, x), Entry(357913942, 1, x, x), Entry(715827883, 2, x, x);
      && RingFrom(a.time, b.time) < HALF && RingFrom(b.time, c.time) < HALF && RingFrom(c.time, a.time) < HALF
      && TimeLess(a, b) && TimeLess(b, c) && TimeLess(c, a)
  {
  }

  // ----- Runs

  /** Elsewhere: a push into another queue, which takes an id from the same counter. */
  datatype Op = PushOp(time: Word, callback: Obj, args: Obj) | PopOp | Elsewhere

  /** The queue with everything that went in and came out; `count` is the id counter
      before it is cut to a word. */
  datatype History = History(heap: seq<Entry>, count: nat, pushed: seq<Entry>, popped: seq<Entry>)

  /** An empty queue with the counter at `first`. */
  function Start(first: nat): History { History([], first, [], []) }

  /** One call; an overflow or an empty queue is an IndexError and changes nothing. */
  function Step(alloc: nat, h: History, op: Op): History {
    match op
    case PushOp(time, callback, args) =>
      if |h.heap| >= alloc then h
      else
        var e := Entry(time, h.count % WORD, callback, args);
        History(Push(TimeLess, h.heap, e), h.count + 1, h.pushed + [e], h.popped)
    case PopOp =>
      if h.heap == [] then h
      else History(Pop(TimeLess, h.heap), h.count, h.pushed, h.popped + [h.heap[0]])
    case Elsewhere =>
      h.(count := h.count + 1)
  }

  function Run(alloc: nat, first: nat, ops: seq<Op>): History {
    if ops == [] then Start(first) else Step(alloc, Run(alloc, first, ops[..|ops| - 1]), ops[|ops| - 1])
  }

  /** At or before in ring order, first pushed first among equal times. */
  predicate Before(e: Entry, f: Entry) {
    RingFrom(e.time, f.time) < HALF && (e.time == f.time ==> e.id <= f.id)
  }

  ghost predicate UniqueIds(m: multiset<Entry>) {
    forall e, f :: e in m && f in m && e.id == f.id ==> e == f
  }

  /** Equal times come out in the order of their ids. */
  ghost predicate Fifo(held: multiset<Entry>, popped: seq<Entry>) {
    && (forall i, j :: 0 <= i < j < |popped| && popped[i].time == popped[j].time ==> popped[i].id < popped[j].id)
    && (forall i, e :: 0 <= i < |popped| && e in held && popped[i].time == e.time ==> popped[i].id < e.id)
  }

  /** The ids are the order of the pushes. */
  ghost predicate Serial(pushed: seq<Entry>, count: nat) {
    && (forall i, j :: 0 <= i < j < |pushed| ==> pushed[i].id < pushed[j].id)
    && (forall i :: 0 <= i < |pushed| ==> pushed[i].id < count)
  }

  ghost predicate Inv(h: History) {
    && HeapFrom(TimeLess, h.heap, 0)
    && multiset(h.pushed) == multiset(h.heap) + multiset(h.popped)
    && (h.count <= WORD ==> Serial(h.pushed, h.count) && Fifo(multiset(h.heap), h.popped))
  }

  lemma {:induction false} SerialOnce(pushed: seq<Entry>, count: nat, e: Entry)
    requires Serial(pushed, count)
    ensures multiset(pushed)[e] <= 1
    decreases |pushed|
  {
    if pushed != [] {
      var init, last := pushed[..|pushed| - 1], pushed[|pushed| - 1];
      assert pushed == init + [last];
      assert last !in init;
      SerialOnce(init, count, e);
    }
  }

  lemma SerialUnique(pushed: seq<Entry>, count: nat)
    requires Serial(pushed, count)
    ensures UniqueIds(multiset(pushed))
  {
    forall e, f | e in multiset(pushed) && f in multiset(pushed) && e.id == f.id ensures e == f {
      var i :| 0 <= i < |pushed| && pushed[i] == e;
      var j :| 0 <= j < |pushed| && pushed[j] == f;
    }
  }

  lemma SerialPush(held: multiset<Entry>, count: nat, pushed: seq<Entry>, popped: seq<Entry>, e: Entry)
    requires Serial(pushed, count) && Fifo(held, popped) && e.id == count
    requires multiset(pushed) == held + multiset(popped)
    ensures Serial(pushed + [e], count + 1) && Fifo(held + multiset{e}, popped)
  {
    forall i, f | 0 <= i < |popped| && f in held + multiset{e} && popped[i].time == f.time
      ensures popped[i].id < f.id
    {
      if f !in held {
        assert popped[i] in multiset(popped);
        assert popped[i] in multiset(pushed);
      }
    }
  }

  lemma SerialPop(held: multiset<Entry>, rest: multiset<Entry>, count: nat, pushed: seq<Entry>,
      popped: seq<Entry>, e: Entry)
    requires Serial(pushed, count) && multiset(pushed) == held + multiset(popped) && held == rest + multiset{e}
    ensures forall f :: f in rest ==> f.id != e.id
  {
    SerialUnique(pushed, count);
    SerialOnce(pushed, count, e);
    forall f | f in rest ensures f.id != e.id {
      assert f in multiset(pushed) && e in multiset(pushed);
    }
  }

  lemma FifoPop(held: multiset<Entry>, rest: multiset<Entry>, popped: seq<Entry>, e: Entry)
    requires Fifo(held, popped) && held == rest + multiset{e}
    requires forall f :: f in rest && f.time == e.time ==> e.id < f.id
    ensures Fifo(rest, popped + [e])
  {
  }

  /** The step keeps the invariant when the entries it compares lie in one window. */
  lemma StepKeeps(alloc: nat, h: History, op: Op)
    requires Inv(h) && Windowed(h.heap) && Windowed(Step(alloc, h, op).heap)
    ensures Inv(Step(alloc, h, op))
  {
    hide Inv, Windowed, Push, Pop;
    match op {
      case PushOp(time, callback, args) =>
        if |h.heap| < alloc {
          PushKeeps(h, Entry(time, h.count % WORD, callback, args));
        }
      case PopOp =>
        if h.heap != [] {
          PopKeeps(h);
        }
      case Elsewhere =>
        ElsewhereKeeps(h);
    }
  }

  lemma ElsewhereKeeps(h: History)
    requires Inv(h)
    ensures Inv(h.(count := h.count + 1))
  {
    hide HeapFrom, TimeLess, Fifo;
  }

  lemma PushKeeps(h: History, e: Entry)
    requires Inv(h) && e.id == h.count % WORD && Windowed(Push(TimeLess, h.heap, e))
    ensures Inv(History(Push(TimeLess, h.heap, e), h.count + 1, h.pushed + [e], h.popped))
  {
    hide HeapFrom, Push, TimeLess, Serial, Fifo, Windowed;
    PushWindow(h.heap, e);
    if h.count < WORD {
      SerialPush(multiset(h.heap), h.count, h.pushed, h.popped, e);
    }
  }

  /** A push into a queue whose new contents lie in one window. */
  lemma PushWindow(s: seq<Entry>, e: Entry)
    requires HeapFrom(TimeLess, s, 0) && Windowed(Push(TimeLess, s, e))
    ensures HeapFrom(TimeLess, Push(TimeLess, s, e), 0)
    ensures multiset(Push(TimeLess, s, e)) == multiset(s) + multiset{e}
  {
    var b: nat :| WindowedAt(b, Push(TimeLess, s, e));
    WindowOrder(b);
    SiftDownItems(TimeLess, s + [e], 0, |s|, e);
    assert (s + [e])[|s| := e] == s + [e];
    hide TimeLess, HeapFrom, Push;
    var t := Push(TimeLess, s, e);
    assert Elements(t, Window(b));
    SubItems(t, s + [e], Window(b));
    assert Elements(s, Window(b)) && e in Window(b) by {
      assert forall i :: 0 <= i < |s| ==> (s + [e])[i] == s[i];
      assert (s + [e])[|s|] == e;
    }
    PushHeap(TimeLess, Window(b), s, e);
  }

  lemma PopWindow(s: seq<Entry>)
    requires HeapFrom(TimeLess, s, 0) && Windowed(s) && s != []
    ensures HeapFrom(TimeLess, Pop(TimeLess, s), 0)
    ensures multiset(s) == multiset(Pop(TimeLess, s)) + multiset{s[0]}
    ensures forall i :: 0 <= i < |s| ==> !TimeLess(s[i], s[0])
  {
    var b: nat :| WindowedAt(b, s);
    WindowOrder(b);
    hide TimeLess, HeapFrom, Pop;
    assert Elements(s, Window(b));
    PopHeap(TimeLess, Window(b), s);
  }

  /** What pop takes is the earliest entry in ring order, the first pushed among
      those of its time. */
  lemma PopsEarliest(s: seq<Entry>, i: nat)
    requires HeapFrom(TimeLess, s, 0) && Windowed(s) && i < |s|
    ensures Before(s[0], s[i])
  {
    PopWindow(s);
    var b: nat :| WindowedAt(b, s);
    assert !TimeLess(s[i], s[0]);
    TimeLessKey(b, s[i], s[0]);
    hide TimeLess;
    SameKey(b, s[i].time, s[0].time);
  }

  lemma PopKeeps(h: History)
    requires Inv(h) && h.heap != [] && Windowed(h.heap)
    ensures Inv(History(Pop(TimeLess, h.heap), h.count, h.pushed, h.popped + [h.heap[0]]))
  {
    hide HeapFrom, Pop, TimeLess, Serial, Fifo, Windowed;
    var e, rest := h.heap[0], multiset(Pop(TimeLess, h.heap));
    PopWindow(h.heap);
    if h.count <= WORD {
      SerialPop(multiset(h.heap), rest, h.count, h.pushed, h.popped, e);
      forall f | f in rest && f.time == e.time ensures e.id < f.id {
        assert f in multiset(h.heap);
        var i :| 0 <= i < |h.heap| && h.heap[i] == f;
        PopsEarliest(h.heap, i);
      }
      FifoPop(multiset(h.heap), rest, h.popped, e);
    }
  }

  /** Every state of the run keeps its entries in one window. */
  ghost predicate StaysWindowed(alloc: nat, first: nat, ops: seq<Op>) {
    forall n :: 0 <= n <= |ops| ==> Windowed(Run(alloc, first, ops[..n]).heap)
  }

  lemma StepSize(alloc: nat, h: History, op: Op)
    requires |h.heap| <= alloc
    ensures |Step(alloc, h, op).heap| <= alloc
  {
  }

  lemma PushItems(s: seq<Entry>, e: Entry)
    ensures multiset(Push(TimeLess, s, e)) == multiset(s) + multiset{e}
  {
    hide TimeLess;
    SiftDownItems(TimeLess, s + [e], 0, |s|, e);
    assert (s + [e])[|s| := e] == s + [e];
  }

  /** Over every run, the times as they may be, nothing is lost or made up. */
  lemma {:induction false} RunsConserve(alloc: nat, first: nat, ops: seq<Op>)
    ensures var h := Run(alloc, first, ops);
      multiset(h.pushed) == multiset(h.heap) + multiset(h.popped) && |h.heap| <= alloc
    decreases |ops|
  {
    hide Push, Pop, TimeLess;
    if ops != [] {
      var n := |ops| - 1;
      var h := Run(alloc, first, ops[..n]);
      RunsConserve(alloc, first, ops[..n]);
      match ops[n] {
        case PushOp(time, callback, args) => PushItems(h.heap, Entry(time, h.count % WORD, callback, args));
        case PopOp => if h.heap != [] { PopItems(TimeLess, h.heap); }
        case Elsewhere =>
      }
    }
  }

  lemma StartInv(first: nat)
    ensures Inv(Start(first))
  {
  }

  /** Over every such run: a heap, nothing lost or made up, each pop the earliest
      entry, and, until the id counter wraps, equal times popped in the order they
      were pushed. */
  lemma {:induction false} RunsPopInOrder(alloc: nat, first: nat, ops: seq<Op>)
    requires StaysWindowed(alloc, first, ops)
    ensures var h := Run(alloc, first, ops);
      && Inv(h) && |h.heap| <= alloc
      && forall i :: 0 <= i < |h.heap| ==> Before(h.heap[0], h.heap[i])
    decreases |ops|
  {
    hide Windowed, Before, HeapFrom, Serial, Fifo, Step;
    var h := Run(alloc, first, ops);
    assert ops[..|ops|] == ops;
    assert Windowed(h.heap);
    if ops != [] {
      var n := |ops| - 1;
      var before := ops[..n];
      forall m | 0 <= m <= n ensures Windowed(Run(alloc, first, before[..m]).heap) {
        assert before[..m] == ops[..m];
      }
      RunsPopInOrder(alloc, first, before);
      assert before[..n] == before;
      StepKeeps(alloc, Run(alloc, first, before), ops[n]);
      StepSize(alloc, Run(alloc, first, before), ops[n]);
    } else {
      StartInv(first);
    }
    forall i | 0 <= i < |h.heap| ensures Before(h.heap[0], h.heap[i]) {
      PopsEarliest(h.heap, i);
    }
  }

  /** The entries of one time pushed at counts `m < n` compare in push order exactly when the
      word-sized counter, started again at `m`, does not wrap on the way; within one period
      of the counter that is when both counts lie in the same one. */
  lemma TieIffNoWrap(e: Entry, f: Entry, m: nat, n: nat)
    requires e.time == f.time && e.id == m % WORD && f.id == n % WORD && m < n
    ensures TimeLess(e, f) <==> 0 < (n - m) % WORD < WORD - m % WORD
    ensures n < m + WORD ==> (TimeLess(e, f) <==> m / WORD == n / WORD)
  {
    var d := (n - m) % WORD;
    WordSum(m, n);
    assert n % WORD == if m % WORD + d < WORD then m % WORD + d else m % WORD + d - WORD;
  }

  lemma WordSum(m: nat, n: nat)
    requires m <= n
    ensures n % WORD == (m % WORD + (n - m) % WORD) % WORD
  {
  }

  /** Two pushes at one time, the counter wrapping between them: the second comes out first. */
  lemma WrapBreaksFifo(t: Word, x: Obj)
    ensures var h := Run(2, WORD - 1, [PushOp(t, x, x), PushOp(t, x, x), PopOp]);
      |h.pushed| == 2 && h.pushed[0] != h.pushed[1] && h.popped == [h.pushed[1]]
  {
    var p := PushOp(t, x, x);
    var e, f := Entry(t, WORD - 1, x, x), Entry(t, 0, x, x);
    var h1 := History([e], WORD, [e], []);
    var h2 := History([f, e], WORD + 1, [e, f], []);
    WrapPush(e, f);
    assert [p, p, PopOp][..2] == [p, p] && [p, p][..1] == [p] && [p][..0] == [];
    hide Push, Pop, TimeLess;
    assert Run(2, WORD - 1, [p]) == h1 by { assert Run(2, WORD - 1, []) == Start(WORD - 1); }
    assert Run(2, WORD - 1, [p, p]) == h2 by { assert (WORD as int) % WORD == 0; }
    assert Run(2, WORD - 1, [p, p, PopOp]) == Step(2, h2, PopOp);
  }

  lemma WrapPush(e: Entry, f: Entry)
    requires e.time == f.time && f.id < e.id
    ensures Push(TimeLess, [], e) == [e] && Push(TimeLess, [e], f) == [f, e]
  {
    assert [] + [e] == [e] && [e] + [f] == [e, f];
    assert TimeLess(f, e);
    hide TimeLess;
    assert SiftDown(TimeLess, [e], 0, 0, e) == [e];
    assert SiftDown(TimeLess, [e, f], 0, 1, f) == SiftDown(TimeLess, [e, e], 0, 0, f) == [f, e];
  }

  // ----- The object

  datatype Popped = Empty | Item(time: Word, callback: Obj, args: Obj)

  /** utimeq_id, one word shared by all queues. */
  class IdCounter {
    var next: Word

    constructor ()
      ensures next == 0
    {
      next := 0;
    }

    method Take() returns (id: Word)
      modifies this
      ensures id == old(next) && next == (old(next) + 1) % WORD
    {
      id := next;
      next := if next + 1 == WORD then 0 else next + 1;
    }
  }

  class Utimeq {
    const items: array<Entry>
    const ids: IdCounter
    var len: nat

    ghost predicate Valid()
      reads this
    {
      len <= items.Length
    }

    ghost function Held(): seq<Entry>
      reads this, items
      requires Valid()
    {
      items[..len]
    }

    constructor (alloc: nat, ids: IdCounter)
      ensures Valid() && Held() == [] && this.ids == ids && fresh(items) && items.Length == alloc
    {
      items := new Entry[alloc](_ => Entry(0, 0, Null, Null));
      this.ids := ids;
      len := 0;
    }

    /** utimeq_heap_siftdown on the first `n` items. */
    method SiftDownAt(start: nat, pos0: nat, ghost n: nat)
      requires start <= pos0 < n <= items.Length
      modifies items
      ensures items[..n] == SiftDown(TimeLess, old(items[..n]), start, pos0, old(items[pos0]))
    {
      hide TimeLess;
      var pos := pos0;
      var item := items[pos];
      while pos > start
        invariant 0 <= pos < n
        invariant SiftDown(TimeLess, items[..n], start, pos, item)
          == SiftDown(TimeLess, old(items[..n]), start, pos0, item)
      {
        var parent := (pos - 1) / 2;
        ghost var was := items[..n];
        if TimeLess(item, items[parent]) {
          items[pos] := items[parent];
          assert items[..n] == was[pos := was[parent]];
          pos := parent;
        } else {
          break;
        }
      }
      ghost var was := items[..n];
      items[pos] := item;
      assert items[..n] == was[pos := item];
    }

    /** One round of utimeq_heap_siftup: the smaller child moves up. */
    method BubbleOne(pos: nat) returns (child: nat)
      requires Valid() && 2 * pos + 1 < len
      modifies items
      ensures pos < child < len && child == SmallChild(TimeLess, old(Held()), pos)
      ensures Held() == old(Held())[pos := old(Held())[child]]
    {
      hide TimeLess;
      child := 2 * pos + 1;
      if child + 1 < len {
        if !TimeLess(items[child], items[child + 1]) {
          child := child + 1;
        }
      }
      items[pos] := items[child];
    }

    /** The loop of utimeq_heap_siftup: the hole goes down to a leaf. */
    method BubbleAt(pos0: nat) returns (pos: nat)
      requires Valid() && pos0 < len
      modifies items
      ensures pos0 <= pos < len && (Held(), pos) == Bubble(TimeLess, old(Held()), pos0)
    {
      hide TimeLess, SmallChild;
      pos := pos0;
      while 2 * pos + 1 < len
        invariant pos0 <= pos < len
        invariant Bubble(TimeLess, Held(), pos) == Bubble(TimeLess, old(Held()), pos0)
        decreases len - pos
      {
        pos := BubbleOne(pos);
      }
    }

    /** utimeq_heap_siftup. */
    method SiftUpAt(pos0: nat)
      requires Valid() && pos0 < len
      modifies items
      ensures Held() == SiftUp(TimeLess, old(Held()), pos0)
    {
      hide TimeLess, Bubble, SiftDown;
      var item := items[pos0];
      var pos := BubbleAt(pos0);
      ghost var was := items[..len];
      items[pos] := item;
      assert items[..len] == was[pos := item];
      SiftDownHole(TimeLess, was, pos0, pos, item);
      SiftDownAt(pos0, pos, len);
    }

    /** heappush: a full queue is an IndexError. */
    method HeapPush(time: Word, callback: Obj, args: Obj) returns (ok: bool)
      requires Valid()
      modifies this, items, ids
      ensures Valid() && ok == (old(len) < items.Length)
      ensures ok ==> ids.next == (old(ids.next) + 1) % WORD
      ensures ok ==> Held() == Push(TimeLess, old(Held()), Entry(time, old(ids.next), callback, args))
      ensures !ok ==> ids.next == old(ids.next) && Held() == old(Held())
    {
      hide TimeLess;
      if len == items.Length {
        return false;
      }
      ghost var was := items[..len];
      var id := ids.Take();
      items[len] := Entry(time, id, callback, args);
      assert items[..len + 1] == was + [items[len]];
      SiftDownAt(0, len, len + 1);
      len := len + 1;
      ok := true;
    }

    /** heappop: an empty queue is an IndexError. */
    method HeapPop() returns (r: Popped)
      requires Valid()
      modifies this, items
      ensures Valid()
      ensures old(Held()) == [] ==> r == Empty && Held() == []
      ensures old(Held()) != [] ==>
        && r == Item(old(Held())[0].time, old(Held())[0].callback, old(Held())[0].args)
        && Held() == Pop(TimeLess, old(Held()))
    {
      hide TimeLess;
      if len == 0 {
        return Empty;
      }
      ghost var was := items[..len];
      r := Item(items[0].time, items[0].callback, items[0].args);
      len := len - 1;
      items[0] := items[len];
      items[len] := items[len].(callback := Null, args := Null);
      if len > 0 {
        assert items[..len] == was[..len][0 := was[len]];
        SiftUpAt(0);
      }
    }
  }

  // ----- The object through a run

  function Shown(popped: seq<Entry>): seq<Popped> {
    seq(|popped|, i requires 0 <= i < |popped| => Item(popped[i].time, popped[i].callback, popped[i].args))
  }

  /** One call on the object is one step. */
  method Happen(q: Utimeq, op: Op, ghost h: History) returns (r: Popped)
    requires q.Valid() && q.Held() == h.heap && q.ids.next == h.count % WORD
    modifies q, q.items, q.ids
    ensures q.Valid()
    ensures var h' := Step(q.items.Length, h, op);
      && q.Held() == h'.heap && q.ids.next == h'.count % WORD
      && Shown(h'.popped) == Shown(h.popped) + if r == Empty then [] else [r]
  {
    hide Push, Pop, TimeLess;
    CountNext(h.count);
    r := Empty;
    match op {
      case PushOp(time, callback, args) => var ok := q.HeapPush(time, callback, args);
      case PopOp => r := q.HeapPop();
      case Elsewhere => var id := q.ids.Take();
    }
  }

  lemma CountNext(n: nat)
    ensures (n % WORD + 1) % WORD == (n + 1) % WORD
  {
  }

  /** A new queue driven through a run hands out what the run pops. */
  method Replay(q: Utimeq, ops: seq<Op>) returns (out: seq<Popped>)
    requires q.Valid() && q.Held() == []
    modifies q, q.items, q.ids
    ensures q.Valid()
    ensures var h := Run(q.items.Length, old(q.ids.next), ops);
      q.Held() == h.heap && q.ids.next == h.count % WORD && out == Shown(h.popped)
  {
    ghost var first := q.ids.next;
    out := [];
    for k := 0 to |ops|
      invariant q.Valid()
      invariant var h := Run(q.items.Length, first, ops[..k]);
        q.Held() == h.heap && q.ids.next == h.count % WORD && out == Shown(h.popped)
    {
      ghost var h := Run(q.items.Length, first, ops[..k]);
      assert ops[..k + 1][..k] == ops[..k];
      hide Step, Shown;
      var r := Happen(q, ops[k], h);
      if r != Empty {
        out := out + [r];
      }
    }
    assert ops[..|ops|] == ops;
  }
}
