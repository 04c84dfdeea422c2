/** The queue of connections waiting for accept in extmod/modlwip.c: a ring that
    lwIP callbacks fill, and may empty from the middle, while user code takes
    from its front. */
module LwipAccept {

  import opened Seqs

  /** A tcp_pcb; 0 is NULL. */
  type Pcb = nat
  const NULL: Pcb := 0

  // ----- The ring

  /** Ring position `i` places after `start`. */
  function Slot(n: nat, start: nat, i: nat): int {
    if start + i < n then start + i else start + i - n
  }

  lemma SlotLaws(n: nat, start: nat, i: nat)
    requires start < n && i < n
    ensures 0 <= Slot(n, start, i) < n
    ensures Slot(n, start, i + 1) == if Slot(n, start, i) + 1 >= n then 0 else Slot(n, start, i) + 1
    ensures Slot(n, start, 0) == start == Slot(n, start, n)
  {
  }

  /** Distinct places are distinct slots. */
  lemma SlotInjective(n: nat, start: nat, i: nat, j: nat)
    requires start < n && i < n && j < n
    ensures Slot(n, start, i) == Slot(n, start, j) <==> i == j
  {
  }

  lemma SlotShift(n: nat, start: nat, i: nat)
    requires start < n && i < n
    ensures Slot(n, Slot(n, start, 1), i) == Slot(n, start, i + 1)
  {
  }

  predicate Queued(q: seq<Pcb>) {
    (forall i :: 0 <= i < |q| ==> q[i] != NULL) && forall i, j :: 0 <= i < j < |q| ==> q[i] != q[j]
  }

  /** What stands `i` places from the front. */
  function Place(q: seq<Pcb>, i: nat): Pcb { if i < |q| then q[i] else NULL }

  function At(slots: seq<Pcb>, iget: nat, i: nat): Pcb
    requires iget < |slots| && i < |slots|
  {
    slots[Slot(|slots|, iget, i)]
  }

  /** The ring holds `q`: contiguous from `iget`, everything else empty. */
  ghost predicate Holds(slots: seq<Pcb>, iget: nat, iput: nat, q: seq<Pcb>) {
    && iget < |slots| && |q| <= |slots| && iput == Slot(|slots|, iget, |q|)
    && (forall i :: 0 <= i < |slots| ==> At(slots, iget, i) == Place(q, i))
    && Queued(q)
  }

  /** The slot at `iput` is free exactly while the ring is not full. */
  lemma FreeIffRoom(slots: seq<Pcb>, iget: nat, iput: nat, q: seq<Pcb>)
    requires Holds(slots, iget, iput, q)
    ensures iput < |slots|
    ensures slots[iput] == NULL <==> |q| < |slots|
    ensures slots[iget] == NULL <==> q == []
  {
    var n := |slots|;
    SlotLaws(n, iget, 0);
    if |q| < n {
      SlotLaws(n, iget, |q|);
      assert At(slots, iget, |q|) == Place(q, |q|);
    }
    assert At(slots, iget, 0) == Place(q, 0);
  }

  lemma Arrives(slots: seq<Pcb>, iget: nat, iput: nat, q: seq<Pcb>, pcb: Pcb, iput': nat)
    requires Holds(slots, iget, iput, q) && |q| < |slots| && pcb != NULL && pcb !in q
    requires iput' == if iput + 1 >= |slots| then 0 else iput + 1
    ensures Holds(slots[iput := pcb], iget, iput', q + [pcb])
  {
    var n, m := |slots|, |q|;
    SlotLaws(n, iget, m);
    var slots', q' := slots[iput := pcb], q + [pcb];
    forall i | 0 <= i < n ensures At(slots', iget, i) == Place(q', i) {
      assert At(slots, iget, i) == Place(q, i);
      SlotInjective(n, iget, i, m);
    }
  }

  lemma Leaves(slots: seq<Pcb>, iget: nat, iput: nat, q: seq<Pcb>, iget': nat)
    requires Holds(slots, iget, iput, q) && q != []
    requires iget' == if iget + 1 >= |slots| then 0 else iget + 1
    ensures slots[iget] == q[0] && Holds(slots[iget := NULL], iget', iput, q[1..])
  {
    var n, m := |slots|, |q|;
    SlotLaws(n, iget, 0);
    assert At(slots, iget, 0) == Place(q, 0);
    SlotShift(n, iget, m - 1);
    forall i | 0 <= i < n ensures At(slots[iget := NULL], iget', i) == Place(q[1..], i) {
      LeavesAt(slots, iget, q, iget', i);
    }
  }

  lemma LeavesAt(slots: seq<Pcb>, iget: nat, q: seq<Pcb>, iget': nat, i: nat)
    requires iget < |slots| && q != [] && |q| <= |slots| && i < |slots| && iget' == Slot(|slots|, iget, 1)
    requires forall j :: 0 <= j < |slots| ==> At(slots, iget, j) == Place(q, j)
    ensures iget' < |slots| && At(slots[iget := NULL], iget', i) == Place(q[1..], i)
  {
    var n := |slots|;
    SlotShift(n, iget, i);
    SlotLaws(n, iget, 0);
    if i + 1 < n {
      assert At(slots, iget, i + 1) == Place(q, i + 1);
      SlotInjective(n, iget, i + 1, 0);
    }
  }

  // ----- Removal from the middle

  function Without<T>(q: seq<T>, k: nat): seq<T>
    requires k < |q|
  {
    q[..k] + q[k + 1..]
  }

  /** The removal loop after `j` places, the connection found at `k < j`: the
      places after it have moved down by one, and place `j - 1` is to be cleared. */
  ghost predicate Shifting(slots: seq<Pcb>, iget: nat, q: seq<Pcb>, k: nat, j: nat) {
    && iget < |slots| && k < j <= |q| <= |slots|
    && forall i :: 0 <= i < |slots| ==> At(slots, iget, i) == Place(q, if k <= i < j - 1 then i + 1 else i)
  }

  lemma PlaceAt(slots: seq<Pcb>, iget: nat, iput: nat, q: seq<Pcb>, j: nat)
    requires Holds(slots, iget, iput, q) && j < |slots|
    ensures slots[Slot(|slots|, iget, j)] == Place(q, j)
  {
  }

  lemma ShiftStart(slots: seq<Pcb>, iget: nat, iput: nat, q: seq<Pcb>, k: nat)
    requires Holds(slots, iget, iput, q) && k < |q|
    ensures Shifting(slots, iget, q, k, k + 1)
  {
  }

  lemma ShiftOne(slots: seq<Pcb>, iget: nat, q: seq<Pcb>, k: nat, j: nat)
    requires Shifting(slots, iget, q, k, j) && j < |q|
    ensures Shifting(slots[Slot(|slots|, iget, j - 1) := slots[Slot(|slots|, iget, j)]], iget, q, k, j + 1)
  {
    var n := |slots|;
    var s' := slots[Slot(n, iget, j - 1) := slots[Slot(n, iget, j)]];
    forall i | 0 <= i < n ensures At(s', iget, i) == Place(q, if k <= i < j then i + 1 else i) {
      assert At(slots, iget, i) == Place(q, if k <= i < j - 1 then i + 1 else i);
      assert At(slots, iget, j) == Place(q, j);
      SlotInjective(n, iget, i, j - 1);
    }
  }

  lemma Shifted(slots: seq<Pcb>, iget: nat, q: seq<Pcb>, k: nat)
    requires Shifting(slots, iget, q, k, |q|) && Queued(q)
    ensures var last := Slot(|slots|, iget, |q| - 1);
      Holds(slots[last := NULL], iget, last, Without(q, k))
  {
    var n, m := |slots|, |q|;
    var last := Slot(n, iget, m - 1);
    var q' := Without(q, k);
    forall i | 0 <= i < n ensures At(slots[last := NULL], iget, i) == Place(q', i) {
      assert At(slots, iget, i) == Place(q, if k <= i < m - 1 then i + 1 else i);
      SlotInjective(n, iget, i, m - 1);
    }
    WithoutQueued(q, k);
  }

  lemma WithoutQueued(q: seq<Pcb>, k: nat)
    requires Queued(q) && k < |q|
    ensures Queued(Without(q, k))
  {
  }

  /** The loop stops after the queue, or after the whole ring if it is empty. */
  lemma StopsAt(n: nat, iget: nat, m: nat, j: nat)
    requires iget < n && m <= n && 0 < j <= n
    ensures Slot(n, iget, j) == Slot(n, iget, m) <==> j == m || (m == 0 && j == n)
  {
  }

  /** Where `pcb` is in the queue, or its length. */
  function Find(q: seq<Pcb>, pcb: Pcb): (k: nat)
    ensures k <= |q| && (k < |q| ==> q[k] == pcb) && forall i :: 0 <= i < k ==> q[i] != pcb
  {
    if q == [] || q[0] == pcb then 0 else 1 + Find(q[1..], pcb)
  }

  /** The queue after a connection died before it was accepted. */
  function Dropped(q: seq<Pcb>, pcb: Pcb): seq<Pcb> {
    if Find(q, pcb) < |q| then Without(q, Find(q, pcb)) else q
  }

  /** The backlogs whose low eight bits choose the single slot although an array was made. */
  predicate Clobbered(backlog: int) { backlog > 1 && backlog % 256 == 0 }

  class Listener {
    /** incoming.connection; `alloc` is 0 for a single slot. */
    const alloc: nat
    const slots: array<Pcb>
    var iget: nat
    var iput: nat
    ghost var queue: seq<Pcb>

    ghost predicate Valid()
      reads this, slots
    {
      && alloc < 256 && slots.Length == (if alloc == 0 then 1 else alloc)
      && Holds(slots[..], iget, iput, queue)
    }

    /** lwip_socket_listen. The size is stored in eight bits. If those are 0 the single
        slot shares its place with the pointer to the array, so a positive multiple of
        256 starts a full queue that holds the array's address. */
    constructor (backlog: int, address: Pcb)
      requires address != NULL
      ensures Valid() && fresh(slots)
      ensures queue == if Clobbered(backlog) then [address] else []
      ensures slots.Length == if backlog <= 1 || Clobbered(backlog) then 1 else backlog % 256
    {
      var size := if backlog <= 1 then 0 else backlog % 256;
      var first := if backlog <= 1 then NULL else address;
      alloc := size;
      slots := new Pcb[if size == 0 then 1 else size](_ => if size == 0 then first else NULL);
      iget, iput := 0, 0;
      queue := if Clobbered(backlog) then [address] else [];
    }

    /** The next slot, as `++i >= alloc` wraps it. */
    function Next(i: nat): (k: nat)
      reads this
      requires slots.Length == if alloc == 0 then 1 else alloc
      ensures i < slots.Length ==> k == if i + 1 >= slots.Length then 0 else i + 1
    {
      if i + 1 >= alloc then 0 else i + 1
    }

    /** _lwip_tcp_accept: a new connection is queued, or refused when full. */
    method Arrive(pcb: Pcb) returns (ok: bool)
      requires Valid() && pcb != NULL && pcb !in queue
      modifies this, slots
      ensures Valid() && ok == (|old(queue)| < slots.Length)
      ensures queue == if ok then old(queue) + [pcb] else old(queue)
    {
      FreeIffRoom(slots[..], iget, iput, queue);
      if slots[iput] == NULL {
        Arrives(slots[..], iget, iput, queue, pcb, Next(iput));
        hide Holds;
        ghost var was := slots[..];
        slots[iput] := pcb;
        assert slots[..] == was[iput := pcb];
        iput := Next(iput);
        queue := queue + [pcb];
        return true;
      }
      return false;
    }

    /** The queue part of lwip_socket_accept. */
    method Accept() returns (pcb: Pcb)
      requires Valid()
      modifies this, slots
      ensures Valid()
      ensures old(queue) == [] ==> pcb == NULL && queue == []
      ensures old(queue) != [] ==> pcb == old(queue)[0] && queue == old(queue)[1..]
    {
      FreeIffRoom(slots[..], iget, iput, queue);
      pcb := slots[iget];
      if pcb == NULL {
        return;
      }
      Leaves(slots[..], iget, iput, queue, Next(iget));
      hide Holds;
      ghost var was := slots[..];
      slots[iget] := NULL;
      assert slots[..] == was[iget := NULL];
      iget := Next(iget);
      queue := queue[1..];
    }

    /** Whether `pcb` is among the waiting. */
    method Waits(pcb: Pcb) returns (r: bool)
      requires Valid()
      ensures pcb != NULL ==> (r <==> pcb in queue)
    {
      r := pcb in slots[..];
      if pcb in queue {
        WaitingIn(slots[..], iget, iput, queue, pcb);
      } else if r && pcb != NULL {
        OnlyWaitingIn(slots[..], iget, iput, queue, pcb);
      }
    }

    lemma NullNotQueued()
      requires Valid()
      ensures NULL !in queue
    {
    }

    /** The removal loop has looked at `j` places. */
    ghost predicate Scanned(q: seq<Pcb>, k: nat, j: nat, found: bool, shiftDown: nat)
      reads this, slots
    {
      && (found <==> k < j && k < |q|)
      && if found then
           && shiftDown < slots.Length && shiftDown == Slot(slots.Length, iget, j - 1)
           && Shifting(slots[..], iget, q, k, j)
         else
           Holds(slots[..], iget, iput, q)
    }

    /** One place of the removal loop. */
    method Scan(pcb: Pcb, i: nat, found0: bool, shiftDown0: nat, ghost q: seq<Pcb>, ghost k: nat, ghost j: nat)
        returns (found: bool, shiftDown: nat)
      requires Scanned(q, k, j, found0, shiftDown0) && k == Find(q, pcb) && pcb != NULL
      requires iget < slots.Length && j < slots.Length && (found0 ==> j < |q|) && i == Slot(slots.Length, iget, j)
      modifies slots
      ensures Scanned(q, k, j + 1, found, shiftDown)
    {
      found, shiftDown := found0, shiftDown0;
      SlotLaws(slots.Length, iget, j);
      ghost var was := slots[..];
      hide Holds, Shifting, Slot;
      if !found {
        PlaceAt(was, iget, iput, q, j);
        if slots[i] == pcb {
          ShiftStart(was, iget, iput, q, k);
          found, shiftDown := true, i;
        }
      } else {
        ShiftOne(was, iget, q, k, j);
        slots[shiftDown] := slots[i];
        assert slots[..] == was[shiftDown := was[i]];
        shiftDown := i;
      }
    }

    /** The removal loop. */
    method Search(pcb: Pcb) returns (found: bool, shiftDown: nat)
      requires Valid() && pcb != NULL
      modifies slots
      ensures Scanned(queue, Find(queue, pcb), if queue == [] then slots.Length else |queue|, found, shiftDown)
    {
      var n := slots.Length;
      ghost var q, k, j := queue, Find(queue, pcb), 0;
      ghost var bound := if q == [] then n else |q|;
      ScanStarts(k);
      hide Scanned, Holds, Shifting, Slot, Valid, Find;
      found, shiftDown := false, 0;
      var i := iget;
      var first := true;
      while first || i != iput
        invariant 0 <= j <= bound && (first <==> j == 0) && i == Slot(n, iget, j)
        invariant Scanned(q, k, j, found, shiftDown)
        modifies slots
        decreases n - j
      {
        StopsAt(n, iget, |q|, if j == 0 then 1 else j);
        SlotLaws(n, iget, j);
        FoundInside(q, k, j, found, shiftDown);
        found, shiftDown := Scan(pcb, i, found, shiftDown, q, k, j);
        first := false;
        i := Next(i);
        j := j + 1;
      }
      StopsAt(n, iget, |q|, j);
    }

    lemma ScanStarts(k: nat)
      requires Valid()
      ensures Scanned(queue, k, 0, false, 0)
      ensures 0 < slots.Length && slots.Length == (if alloc == 0 then 1 else alloc) && iget < slots.Length
      ensures |queue| <= slots.Length && iput == Slot(slots.Length, iget, |queue|)
      ensures iget == Slot(slots.Length, iget, 0)
      ensures Queued(queue)
    {
    }

    /** _lwip_tcp_err_unaccepted: the connection goes, the rest keep their order. */
    method ErrUnaccepted(pcb: Pcb)
      requires Valid() && pcb != NULL
      modifies this, slots
      ensures Valid() && queue == Dropped(old(queue), pcb)
    {
      assert Queued(queue) && alloc < 256 && slots.Length == if alloc == 0 then 1 else alloc;
      ghost var q, k := queue, Find(queue, pcb);
      hide Scanned, Holds, Find, Queued;
      var found, shiftDown := Search(pcb);
      Cleared(q, k, if q == [] then slots.Length else |q|, found, shiftDown);
      if found {
        ghost var was := slots[..];
        slots[shiftDown] := NULL;
        assert slots[..] == was[shiftDown := NULL];
        iput := shiftDown;
        queue := Without(q, k);
      }
    }

    lemma FoundInside(q: seq<Pcb>, k: nat, j: nat, found: bool, shiftDown: nat)
      requires Scanned(q, k, j, found, shiftDown)
      ensures found ==> k < |q|
    {
    }

    /** At the end of the loop. */
    lemma Cleared(q: seq<Pcb>, k: nat, j: nat, found: bool, shiftDown: nat)
      requires Scanned(q, k, j, found, shiftDown) && Queued(q) && j == (if q == [] then slots.Length else |q|)
      ensures found <==> k < |q|
      ensures found ==> shiftDown < slots.Length && Holds(slots[..][shiftDown := NULL], iget, shiftDown, Without(q, k))
      ensures !found ==> Holds(slots[..], iget, iput, q)
    {
      if found {
        Shifted(slots[..], iget, q, k);
      }
    }
  }

  /** The first accept before anything has arrived hands out something exactly for the
      backlogs that clobber the slot, 256 for one: the address of the array. */
  method AcceptsAddress(backlog: int, address: Pcb) returns (pcb: Pcb)
    requires address != NULL
    ensures pcb == if Clobbered(backlog) then address else NULL
  {
    var l := new Listener(backlog, address);
    pcb := l.Accept();
  }

  // ----- Runs of arrivals, deaths and accepts

  datatype Event = Arrival(pcb: Pcb) | Death(pcb: Pcb) | Taken

  /** A connection: lwIP uses an address again once its connection is gone, so a
      connection is an address and the number of its arrival. */
  datatype Conn = Conn(pcb: Pcb, serial: nat)

  function Addresses(q: seq<Conn>): (s: seq<Pcb>)
    ensures |s| == |q|
  {
    seq(|q|, i requires 0 <= i < |q| => q[i].pcb)
  }

  /** The queue, every connection ever queued in order of arrival, those that
      died waiting, and those accepted, in order. */
  datatype History = History(queue: seq<Conn>, arrived: seq<Conn>, died: set<Conn>, accepted: seq<Conn>)

  const START := History([], [], {}, [])

  /** One event on a ring of `n` slots; a connection that is waiting does not arrive again. */
  function Step(n: nat, h: History, e: Event): History {
    match e
    case Arrival(pcb) =>
      if pcb == NULL || pcb in Addresses(h.queue) || |h.queue| >= n then h
      else
        var c := Conn(pcb, |h.arrived|);
        h.(queue := h.queue + [c], arrived := h.arrived + [c])
    case Death(pcb) =>
      var k := Find(Addresses(h.queue), pcb);
      if k < |h.queue| then h.(queue := Without(h.queue, k), died := h.died + {h.queue[k]}) else h
    case Taken =>
      if h.queue == [] then h
      else h.(queue := h.queue[1..], accepted := h.accepted + [h.queue[0]])
  }

  function Run(n: nat, es: seq<Event>): History {
    if es == [] then START else Step(n, Run(n, es[..|es| - 1]), es[|es| - 1])
  }

  /** `s` without the members of `d`. */
  function Except<T(==)>(s: seq<T>, d: set<T>): seq<T> {
    if s == [] then []
    else if s[|s| - 1] in d then Except(s[..|s| - 1], d)
    else Except(s[..|s| - 1], d) + [s[|s| - 1]]
  }

  ghost predicate Distinct<T(!new)>(s: seq<T>) { forall i, j :: 0 <= i < j < |s| ==> s[i] != s[j] }

  /** The arrivals are numbered. */
  ghost predicate Numbered(arrived: seq<Conn>) { forall i :: 0 <= i < |arrived| ==> arrived[i].serial == i }

  /** What was accepted, then what waits, is what arrived and lived, in order. */
  ghost predicate InOrder(h: History) {
    && Except(h.arrived, h.died) == h.accepted + h.queue
    && Numbered(h.arrived) && Distinct(h.accepted + h.queue) && Queued(Addresses(h.queue))
    && (forall c :: c in h.died ==> c in h.arrived)
    && (forall c :: c in h.accepted + h.queue ==> c in h.arrived)
  }

  lemma {:induction false} ExceptMore<T>(s: seq<T>, d: set<T>, p: T)
    ensures Except(s, d + {p}) == Except(Except(s, d), {p})
    decreases |s|
  {
    if s != [] {
      var init, last := s[..|s| - 1], s[|s| - 1];
      ExceptMore(init, d, p);
      if last !in d {
        var t := Except(init, d) + [last];
        assert t[..|t| - 1] == Except(init, d);
      }
    }
  }

  lemma {:induction false} ExceptAbsent<T>(s: seq<T>, p: T)
    requires p !in s
    ensures Except(s, {p}) == s
    decreases |s|
  {
    if s != [] {
      assert s[|s| - 1] in s;
      ExceptAbsent(s[..|s| - 1], p);
      assert s == s[..|s| - 1] + [s[|s| - 1]];
    }
  }

  lemma {:induction false} ExceptOne<T(!new)>(s: seq<T>, k: nat)
    requires Distinct(s) && k < |s|
    ensures Except(s, {s[k]}) == Without(s, k)
    decreases |s|
  {
    var init := s[..|s| - 1];
    if k == |s| - 1 {
      ExceptAbsent(init, s[k]);
      assert Without(s, k) == init;
    } else {
      ExceptOne(init, k);
      assert Without(s, k) == Without(init, k) + [s[|s| - 1]];
    }
  }

  lemma ArrivalKeeps(h: History, pcb: Pcb)
    requires InOrder(h) && pcb != NULL && pcb !in Addresses(h.queue)
    ensures var c := Conn(pcb, |h.arrived|); InOrder(h.(queue := h.queue + [c], arrived := h.arrived + [c]))
  {
    hide Except, Queued, Addresses;
    var c := Conn(pcb, |h.arrived|);
    NewNumber(h.arrived, pcb);
    ExceptNew(h.arrived, h.died, c);
    Assoc(h.accepted, h.queue, [c]);
    AddressNew(h.queue, c);
    QueuedNew(Addresses(h.queue), pcb);
    assert c !in h.accepted + h.queue && c !in h.died;
  }

  lemma NewNumber(arrived: seq<Conn>, pcb: Pcb)
    requires Numbered(arrived)
    ensures Conn(pcb, |arrived|) !in arrived
  {
  }

  lemma ExceptNew(s: seq<Conn>, d: set<Conn>, c: Conn)
    requires c !in s && forall x :: x in d ==> x in s
    ensures Except(s + [c], d) == Except(s, d) + [c]
  {
    assert (s + [c])[..|s|] == s;
  }

  lemma AddressNew(q: seq<Conn>, c: Conn)
    ensures Addresses(q + [c]) == Addresses(q) + [c.pcb]
  {
  }

  lemma QueuedNew(q: seq<Pcb>, pcb: Pcb)
    requires Queued(q) && pcb != NULL && pcb !in q
    ensures Queued(q + [pcb])
  {
  }

  lemma DeathKeeps(h: History, k: nat)
    requires InOrder(h) && k < |h.queue|
    ensures InOrder(h.(queue := Without(h.queue, k), died := h.died + {h.queue[k]}))
  {
    hide Except, Queued, Without, Addresses, Distinct;
    var c, t, k' := h.queue[k], h.accepted + h.queue, |h.accepted| + k;
    assert t[k'] == c;
    ExceptMore(h.arrived, h.died, c);
    ExceptOne(t, k');
    WithoutTail(h.accepted, h.queue, k);
    WithoutDistinct(t, k');
    WithoutIn(t, k');
    AddressWithout(h.queue, k);
    WithoutQueued(Addresses(h.queue), k);
    assert c in t;
  }

  lemma WithoutDistinct<T(!new)>(t: seq<T>, k: nat)
    requires Distinct(t) && k < |t|
    ensures Distinct(Without(t, k))
  {
  }

  lemma AddressWithout(q: seq<Conn>, k: nat)
    requires k < |q|
    ensures Addresses(Without(q, k)) == Without(Addresses(q), k)
  {
  }

  lemma WithoutTail<T>(a: seq<T>, q: seq<T>, k: nat)
    requires k < |q|
    ensures Without(a + q, |a| + k) == a + Without(q, k)
  {
  }

  lemma WithoutIn<T>(t: seq<T>, k: nat)
    requires k < |t|
    ensures forall p :: p in Without(t, k) ==> p in t
  {
  }

  lemma TakenKeeps(h: History)
    requires InOrder(h) && h.queue != []
    ensures InOrder(h.(queue := h.queue[1..], accepted := h.accepted + [h.queue[0]]))
  {
    hide Except, Queued, Addresses, Distinct;
    assert h.accepted + [h.queue[0]] + h.queue[1..] == h.accepted + h.queue;
    AddressRest(h.queue);
    QueuedRest(Addresses(h.queue));
  }

  lemma AddressRest(q: seq<Conn>)
    requires q != []
    ensures Addresses(q[1..]) == Addresses(q)[1..]
  {
  }

  lemma QueuedRest(q: seq<Pcb>)
    requires q != [] && Queued(q)
    ensures Queued(q[1..])
  {
  }

  /** Over any interleaving of arrivals, deaths and accepts, addresses used again included,
      connections are accepted in order of arrival, each at most once, and none is lost. */
  lemma {:induction false} RunInOrder(n: nat, es: seq<Event>)
    ensures InOrder(Run(n, es)) && |Run(n, es).queue| <= n
    decreases |es|
  {
    hide InOrder, Addresses, Find;
    if es == [] {
      StartInOrder();
    } else {
      var h, e := Run(n, es[..|es| - 1]), es[|es| - 1];
      RunInOrder(n, es[..|es| - 1]);
      match e {
        case Arrival(pcb) => if pcb != NULL && pcb !in Addresses(h.queue) { ArrivalKeeps(h, pcb); }
        case Death(pcb) =>
          var k := Find(Addresses(h.queue), pcb);
          if k < |h.queue| { DeathKeeps(h, k); }
        case Taken => if h.queue != [] { TakenKeeps(h); }
      }
    }
  }

  lemma StartInOrder()
    ensures InOrder(START)
  {
    assert START.accepted + START.queue == [];
  }

  // ----- The object through a run

  /** The ring, searched as a whole, has what is waiting. */
  lemma WaitingIn(slots: seq<Pcb>, iget: nat, iput: nat, q: seq<Pcb>, pcb: Pcb)
    requires Holds(slots, iget, iput, q) && pcb in q
    ensures pcb in slots
  {
    var i :| 0 <= i < |q| && q[i] == pcb;
    SlotLaws(|slots|, iget, i);
    PlaceAt(slots, iget, iput, q, i);
  }

  lemma OnlyWaitingIn(slots: seq<Pcb>, iget: nat, iput: nat, q: seq<Pcb>, pcb: Pcb)
    requires Holds(slots, iget, iput, q) && pcb in slots && pcb != NULL
    ensures pcb in q
  {
    var n := |slots|;
    var j :| 0 <= j < n && slots[j] == pcb;
    var i := if j >= iget then j - iget else j + n - iget;
    assert Slot(n, iget, i) == j;
    PlaceAt(slots, iget, iput, q, i);
  }

  /** The next event of a run, as the callbacks and user code make it happen. */
  method Happen(l: Listener, e: Event, arrived0: seq<Pcb>, accepted0: seq<Pcb>, ghost h: History)
      returns (arrived: seq<Pcb>, accepted: seq<Pcb>)
    requires l.Valid() && Shows(l.queue, arrived0, accepted0, h)
    modifies l, l.slots
    ensures l.Valid() && Shows(l.queue, arrived, accepted, Step(l.slots.Length, h, e))
  {
    hide Holds, Addresses, Dropped, Find;
    arrived, accepted := arrived0, accepted0;
    l.NullNotQueued();
    match e {
      case Arrival(pcb) =>
        var waiting := l.Waits(pcb);
        if pcb != NULL && !waiting {
          var ok := l.Arrive(pcb);
          AddressNew(h.queue, Conn(pcb, |h.arrived|));
          AddressNew(h.arrived, Conn(pcb, |h.arrived|));
          if ok {
            arrived := arrived + [pcb];
          }
        }
      case Death(pcb) =>
        DiedShows(h, pcb);
        if pcb != NULL {
          l.ErrUnaccepted(pcb);
        }
      case Taken =>
        var pcb := l.Accept();
        if h.queue != [] {
          AddressRest(h.queue);
          AddressNew(h.accepted, h.queue[0]);
          FirstAddress(h.queue);
        }
        if pcb != NULL {
          accepted := accepted + [pcb];
        }
    }
  }

  lemma FirstAddress(q: seq<Conn>)
    requires q != []
    ensures Addresses(q)[0] == q[0].pcb
  {
  }

  lemma DiedShows(h: History, pcb: Pcb)
    ensures var k := Find(Addresses(h.queue), pcb);
      Dropped(Addresses(h.queue), pcb) == if k < |h.queue| then Addresses(Without(h.queue, k)) else Addresses(h.queue)
    ensures pcb !in Addresses(h.queue) ==> Find(Addresses(h.queue), pcb) == |h.queue|
  {
    var k := Find(Addresses(h.queue), pcb);
    if k < |h.queue| {
      AddressWithout(h.queue, k);
    }
  }

  /** The addresses of a run's connections. */
  ghost predicate Shows(queue: seq<Pcb>, arrived: seq<Pcb>, accepted: seq<Pcb>, h: History) {
    queue == Addresses(h.queue) && arrived == Addresses(h.arrived) && accepted == Addresses(h.accepted)
  }

  /** A new listener driven through a run ends as the run says, so what it hands out is
      what arrived and did not die, in order. */
  method Replay(l: Listener, es: seq<Event>) returns (arrived: seq<Pcb>, accepted: seq<Pcb>)
    requires l.Valid() && l.queue == []
    modifies l, l.slots
    ensures l.Valid() && Shows(l.queue, arrived, accepted, Run(l.slots.Length, es)) && InOrder(Run(l.slots.Length, es))
  {
    arrived, accepted := [], [];
    assert es[..0] == [] && Shows([], [], [], START);
    hide InOrder, Step, Shows, Listener.Valid;
    for k := 0 to |es|
      invariant l.Valid() && Shows(l.queue, arrived, accepted, Run(l.slots.Length, es[..k]))
    {
      assert es[..k + 1][..k] == es[..k];
      arrived, accepted := Happen(l, es[k], arrived, accepted, Run(l.slots.Length, es[..k]));
    }
    assert es[..|es|] == es;
    RunInOrder(l.slots.Length, es);
  }
}
