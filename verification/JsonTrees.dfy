/** The heap that the loader builds denotes the value of the document. */
module JsonTrees {
  import opened Json
  import opened JsonGrammar
  import opened JsonProofs
  import opened Seqs
  import opened Wrappers

  // ----- Reading the heap back as a Python value

  ghost predicate RefOk(v: Value, lo: int, hi: nat) {
    v.Ref? ==> lo < v.addr < hi
  }

  ghost predicate ContainerOk(c: Container, a: nat, n: nat) {
    match c
    case List(items) => forall i :: 0 <= i < |items| ==> RefOk(items[i], a, n)
    case Dict(entries) => forall k :: k in entries ==> RefOk(entries[k], a, n)
  }

  /** References point to later addresses: no sharing upward, no cycles. */
  ghost predicate WellLinked(heap: Heap) {
    forall a :: 0 <= a < |heap| ==> ContainerOk(heap[a], a, |heap|)
  }

  /** The Python value that `v` denotes. */
  ghost function Tree(heap: Heap, v: Value): Py
    requires WellLinked(heap) && RefOk(v, -1, |heap|)
    decreases if v.Ref? then |heap| - v.addr else 0
  {
    match v
    case P(p) => Atom(p)
    case Ref(a) =>
      assert ContainerOk(heap[a], a, |heap|);
      match heap[a] {
        case List(items) =>
          PyList(seq(|items|, i requires 0 <= i < |items| => assert RefOk(items[i], a, |heap|); Tree(heap, items[i])))
        case Dict(entries) =>
          PyDict(map k | k in entries :: (assert RefOk(entries[k], a, |heap|); Tree(heap, entries[k])))
      }
  }

  ghost predicate AllOk(items: seq<Value>, a: int, n: nat) {
    forall i :: 0 <= i < |items| ==> RefOk(items[i], a, n)
  }

  ghost predicate EntriesOk(m: map<Prim, Value>, a: int, n: nat) {
    forall k :: k in m ==> RefOk(m[k], a, n)
  }

  ghost function Trees(heap: Heap, a: int, items: seq<Value>): seq<Py>
    requires WellLinked(heap) && a >= -1 && AllOk(items, a, |heap|)
  {
    seq(|items|, i requires 0 <= i < |items| => assert RefOk(items[i], a, |heap|); Tree(heap, items[i]))
  }

  ghost function EntryTrees(heap: Heap, a: int, m: map<Prim, Value>): map<Prim, Py>
    requires WellLinked(heap) && a >= -1 && EntriesOk(m, a, |heap|)
  {
    map k | k in m :: (assert RefOk(m[k], a, |heap|); Tree(heap, m[k]))
  }

  lemma TreeOfRef(heap: Heap, a: nat)
    requires WellLinked(heap) && a < |heap|
    ensures heap[a].List? ==>
      AllOk(heap[a].items, a, |heap|) && Tree(heap, Ref(a)) == PyList(Trees(heap, a, heap[a].items))
    ensures heap[a].Dict? ==>
      EntriesOk(heap[a].entries, a, |heap|) && Tree(heap, Ref(a)) == PyDict(EntryTrees(heap, a, heap[a].entries))
  {
  }

  /** A value depends only on the containers above `lo` that it can reach. */
  lemma {:induction false} TreeFrame(h1: Heap, h2: Heap, lo: int, v: Value)
    requires WellLinked(h1) && WellLinked(h2) && |h1| <= |h2| && lo >= -1 && RefOk(v, lo, |h1|)
    requires forall b :: lo < b < |h1| ==> h1[b] == h2[b]
    ensures Tree(h1, v) == Tree(h2, v)
    decreases if v.Ref? then |h1| - v.addr else 0
  {
    if v.Ref? {
      var a := v.addr;
      hide Tree;
      TreeOfRef(h1, a);
      TreeOfRef(h2, a);
      match h1[a]
      case List(items) =>
        forall i | 0 <= i < |items| ensures Tree(h1, items[i]) == Tree(h2, items[i]) {
          assert RefOk(items[i], a, |h1|);
          TreeFrame(h1, h2, a, items[i]);
        }
        assert Trees(h1, a, items) == Trees(h2, a, items);
      case Dict(m) =>
        forall k | k in m ensures Tree(h1, m[k]) == Tree(h2, m[k]) {
          assert RefOk(m[k], a, |h1|);
          TreeFrame(h1, h2, a, m[k]);
        }
        assert EntryTrees(h1, a, m) == EntryTrees(h2, a, m);
    }
  }

  lemma TreesFrame(h1: Heap, h2: Heap, a: nat, items: seq<Value>)
    requires WellLinked(h1) && WellLinked(h2) && |h1| <= |h2| && AllOk(items, a, |h1|)
    requires forall b :: a < b < |h1| ==> h1[b] == h2[b]
    ensures AllOk(items, a, |h2|) && Trees(h1, a, items) == Trees(h2, a, items)
  {
    hide Tree;
    forall i | 0 <= i < |items| ensures RefOk(items[i], a, |h2|) && Tree(h1, items[i]) == Tree(h2, items[i]) {
      assert RefOk(items[i], a, |h1|);
      TreeFrame(h1, h2, a, items[i]);
    }
    assert AllOk(items, a, |h2|);
  }

  lemma EntryTreesFrame(h1: Heap, h2: Heap, a: nat, m: map<Prim, Value>)
    requires WellLinked(h1) && WellLinked(h2) && |h1| <= |h2| && EntriesOk(m, a, |h1|)
    requires forall b :: a < b < |h1| ==> h1[b] == h2[b]
    ensures EntriesOk(m, a, |h2|) && EntryTrees(h1, a, m) == EntryTrees(h2, a, m)
  {
    hide Tree;
    forall k | k in m ensures RefOk(m[k], a, |h2|) && Tree(h1, m[k]) == Tree(h2, m[k]) {
      assert RefOk(m[k], a, |h1|);
      TreeFrame(h1, h2, a, m[k]);
    }
    assert EntriesOk(m, a, |h2|);
  }

  /** A container with one more value in it. */
  function Linked(c: Container, key: Option<Prim>, v: Value): Container
    requires c.Dict? ==> key.Some?
  {
    match c
    case List(items) => List(items + [v])
    case Dict(entries) => Dict(entries[key.value := v])
  }

  function NewValue(n: nat, c: Cst): Value
    requires Valid(c)
  {
    if c.CList? || c.CObj? then Ref(n) else P(PrimOf(c))
  }

  /** What `Build` did: `a` got the value, older containers are untouched. */
  ghost predicate Built(heap: Heap, a: nat, key: Option<Prim>, v: Value, h: Heap)
    requires a < |heap| && (heap[a].Dict? ==> key.Some?)
  {
    && |heap| <= |h| && WellLinked(h) && RefOk(v, a, |h|)
    && h[a] == Linked(heap[a], key, v)
    && (forall b :: 0 <= b < |heap| && b != a ==> h[b] == heap[b])
  }

  /** Attaching a value that only refers upward keeps the heap well linked. */
  lemma AttachBuilt(heap: Heap, a: nat, key: Option<Prim>, v: Value)
    requires a < |heap| && (heap[a].Dict? ==> key.Some?) && WellLinked(heap) && RefOk(v, a, |heap|)
    ensures Built(heap, a, key, v, Attach(heap, a, key, v))
  {
  }

  lemma AllocBuilt(heap: Heap, a: nat, key: Option<Prim>, isDict: bool)
    requires a < |heap| && (heap[a].Dict? ==> key.Some?) && WellLinked(heap)
    ensures WellLinked(heap + [Empty(isDict)])
    ensures Built(heap, a, key, Ref(|heap|), Attach(heap + [Empty(isDict)], a, key, Ref(|heap|)))
    ensures Attach(heap + [Empty(isDict)], a, key, Ref(|heap|))[|heap|] == Empty(isDict)
  {
  }

  /** The value built for `c` denotes its meaning. */
  lemma {:induction false} BuildTree(heap: Heap, a: nat, key: Option<Prim>, c: Cst)
    requires a < |heap| && (heap[a].Dict? ==> key.Some?) && Valid(c) && WellLinked(heap)
    ensures var h := Build(heap, a, key, c);
            var v := NewValue(|heap|, c);
            Built(heap, a, key, v, h) && Tree(h, v) == Meaning(c)
    decreases c, 1
  {
    hide WellLinked, Tree, Attach, AllOk, EntriesOk, Trees, EntryTrees, FillList, FillDict;
    var n := |heap|;
    match c
    case CList(pad, es) =>
      AllocBuilt(heap, a, key, false);
      var h := Attach(heap + [List([])], a, key, Ref(n));
      EmptyTrees(h, n);
      FillListTree(h, n, es);
      TreeOfRef(Build(heap, a, key, c), n);
      BuiltLater(heap, a, key, n, h, Build(heap, a, key, c));
      assert [] + ElemsMeaning(es) == ElemsMeaning(es);
    case CObj(pad, ms) =>
      AllocBuilt(heap, a, key, true);
      var h := Attach(heap + [Dict(map[])], a, key, Ref(n));
      EmptyTrees(h, n);
      FillDictTree(h, n, ms);
      TreeOfRef(Build(heap, a, key, c), n);
      BuiltLater(heap, a, key, n, h, Build(heap, a, key, c));
    case _ =>
      AttachBuilt(heap, a, key, P(PrimOf(c)));
      LeafMeaning(Build(heap, a, key, c), c);
  }

  lemma EmptyTrees(h: Heap, n: nat)
    requires n < |h| && WellLinked(h)
    ensures h[n] == List([]) ==> AllOk(h[n].items, n, |h|) && Trees(h, n, h[n].items) == []
    ensures h[n] == Dict(map[]) ==> EntriesOk(h[n].entries, n, |h|) && EntryTrees(h, n, h[n].entries) == map[]
  {
  }

  lemma LeafMeaning(h: Heap, c: Cst)
    requires WellLinked(h) && Valid(c) && !c.CList? && !c.CObj?
    ensures Tree(h, P(PrimOf(c))) == Meaning(c)
  {
  }

  /** Filling the new container changes no older one. */
  lemma BuiltLater(heap: Heap, a: nat, key: Option<Prim>, n: nat, h: Heap, h': Heap)
    requires a < |heap| == n < |h| && (heap[a].Dict? ==> key.Some?) && Built(heap, a, key, Ref(n), h)
    requires |h| <= |h'| && WellLinked(h') && forall b :: 0 <= b < |h| && b != n ==> h'[b] == h[b]
    ensures Built(heap, a, key, Ref(n), h')
  {
    hide WellLinked;
  }

  lemma TreesPush(heap: Heap, a: nat, items: seq<Value>, v: Value)
    requires WellLinked(heap) && AllOk(items, a, |heap|) && RefOk(v, a, |heap|)
    ensures AllOk(items + [v], a, |heap|)
    ensures Trees(heap, a, items + [v]) == Trees(heap, a, items) + [Tree(heap, v)]
  {
  }

  lemma {:induction false} FillListTree(heap: Heap, a: nat, es: seq<Elem>)
    requires a < |heap| && heap[a].List? && WellLinked(heap) && AllOk(heap[a].items, a, |heap|)
    requires forall i :: 0 <= i < |es| ==> Valid(es[i].value)
    ensures var h := FillList(heap, a, es);
      && |heap| <= |h| && WellLinked(h) && h[a].List? && AllOk(h[a].items, a, |h|)
      && (forall b :: 0 <= b < |heap| && b != a ==> h[b] == heap[b])
      && Trees(h, a, h[a].items) == Trees(heap, a, heap[a].items) + ElemsMeaning(es)
    decreases es, 1
  {
    hide WellLinked, Tree, Trees, AllOk, Build, Built, Valid;
    if es != [] {
      var h1 := Build(heap, a, None, es[0].value);
      var v, x := NewValue(|heap|, es[0].value), Meaning(es[0].value);
      BuildTree(heap, a, None, es[0].value);
      OneElem(heap, a, v, h1, x);
      FillListTree(h1, a, es[1..]);
      Assoc(Trees(heap, a, heap[a].items), [x], ElemsMeaning(es[1..]));
    } else {
      assert Trees(heap, a, heap[a].items) + [] == Trees(heap, a, heap[a].items);
    }
  }

  /** One element more in a list. */
  lemma OneElem(heap: Heap, a: nat, v: Value, h1: Heap, x: Py)
    requires a < |heap| && heap[a].List? && WellLinked(heap) && AllOk(heap[a].items, a, |heap|)
    requires Built(heap, a, None, v, h1) && Tree(h1, v) == x
    ensures |heap| <= |h1| && WellLinked(h1) && h1[a].List? && AllOk(h1[a].items, a, |h1|)
    ensures forall b :: 0 <= b < |heap| && b != a ==> h1[b] == heap[b]
    ensures Trees(h1, a, h1[a].items) == Trees(heap, a, heap[a].items) + [x]
  {
    hide WellLinked, Tree, Trees;
    TreesFrame(heap, h1, a, heap[a].items);
    TreesPush(h1, a, heap[a].items, v);
  }

  lemma {:induction false} FillDictTree(heap: Heap, a: nat, ms: seq<Member>)
    requires a < |heap| && heap[a].Dict? && WellLinked(heap) && EntriesOk(heap[a].entries, a, |heap|)
    requires forall i :: 0 <= i < |ms| ==> Valid(ms[i].value) && ValidChars(ms[i].key)
    ensures var h := FillDict(heap, a, ms);
      && |heap| <= |h| && WellLinked(h) && h[a].Dict? && EntriesOk(h[a].entries, a, |h|)
      && (forall b :: 0 <= b < |heap| && b != a ==> h[b] == heap[b])
      && EntryTrees(h, a, h[a].entries) == MembersMeaning(ms, EntryTrees(heap, a, heap[a].entries))
    decreases ms, 1
  {
    hide WellLinked, Tree, EntryTrees, EntriesOk, Build, Built, Valid, ValidChars, CharsMeaning;
    if ms != [] {
      var key := Str(CharsMeaning(ms[0].key));
      var h1 := Build(heap, a, Some(key), ms[0].value);
      var v, x := NewValue(|heap|, ms[0].value), Meaning(ms[0].value);
      BuildTree(heap, a, Some(key), ms[0].value);
      OneMember(heap, a, key, v, h1, x);
      FillDictTree(h1, a, ms[1..]);
    }
  }

  /** One member more in a dictionary, or another value for its key. */
  lemma OneMember(heap: Heap, a: nat, key: Prim, v: Value, h1: Heap, x: Py)
    requires a < |heap| && heap[a].Dict? && WellLinked(heap) && EntriesOk(heap[a].entries, a, |heap|)
    requires Built(heap, a, Some(key), v, h1) && Tree(h1, v) == x
    ensures |heap| <= |h1| && WellLinked(h1) && h1[a].Dict? && EntriesOk(h1[a].entries, a, |h1|)
    ensures forall b :: 0 <= b < |heap| && b != a ==> h1[b] == heap[b]
    ensures EntryTrees(h1, a, h1[a].entries) == EntryTrees(heap, a, heap[a].entries)[key := x]
  {
    hide WellLinked, Tree;
    EntryTreesFrame(heap, h1, a, heap[a].entries);
    assert EntriesOk(h1[a].entries, a, |h1|);
  }

  /** For every document the loader succeeds, and the object it returns is the
      document's value. */
  lemma LoadCorrect(d: Doc)
    requires ValidDoc(d)
    ensures var r := Run(DocText(d), START);
      && r.Loaded? && WellLinked(r.heap) && RefOk(r.root, -1, |r.heap|)
      && Tree(r.heap, r.root) == Meaning(d.value)
  {
    hide Run, Valid, Tree;
    LoadsDocument(d);
    match d.value
    case CList(_, es) =>
      ListParts(d.value.pad, es);
      ElemsValues(es);
      assert Trees([List([])], 0, []) == [];
      FillListTree([List([])], 0, es);
      TreeOfRef(FillList([List([])], 0, es), 0);
      assert [] + ElemsMeaning(es) == ElemsMeaning(es);
    case CObj(_, ms) =>
      ObjectParts(d.value.pad, ms);
      MembersValues(ms);
      assert EntryTrees([Dict(map[])], 0, map[]) == map[];
      FillDictTree([Dict(map[])], 0, ms);
      TreeOfRef(FillDict([Dict(map[])], 0, ms), 0);
    case _ =>
      LeafTree(d.value);
  }

  lemma LeafTree(c: Cst)
    requires Valid(c) && !c.CList? && !c.CObj?
    ensures WellLinked([]) && Tree([], P(PrimOf(c))) == Meaning(c)
  {
  }
}
