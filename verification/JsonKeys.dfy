/** The one pending key of the loader.  The grammar allows a dictionary to be closed
    only between members, but the loader does not look: this module says for every
    text, valid or not, when a key is left over at a closing bracket. */
module JsonKeys {
  import opened Json
  import opened JsonGrammar
  import opened JsonProofs
  import opened Wrappers

  // ----- The tokens of a text and how they nest

  /** The text after `n` tokens. */
  function RestAt(text: string, n: nat): string
    decreases n, 0
  {
    if n == 0 then text
    else
      var t := TokenAt(text, n - 1);
      if t.End? || t.Bad? then "" else t.rest
  }

  function TokenAt(text: string, n: nat): Token
    decreases n, 1
  {
    Lex(RestAt(text, n))
  }

  /** An open container and how many keys, values and containers it has directly inside. */
  datatype Level = Level(isDict: bool, items: nat)

  function Bump(nest: seq<Level>): seq<Level> {
    if nest == [] then [] else nest[|nest| - 1 := nest[|nest| - 1].(items := nest[|nest| - 1].items + 1)]
  }

  function Nested(nest: seq<Level>, t: Token): seq<Level> {
    match t
    case Scalar(_, _) => Bump(nest)
    case Open(isDict, _) => Bump(nest) + [Level(isDict, 0)]
    case Close(_) => if nest == [] then [] else nest[..|nest| - 1]
    case _ => nest
  }

  /** The containers open after `n` tokens, outermost first. */
  function Nest(text: string, n: nat): seq<Level> {
    if n == 0 then [] else Nested(Nest(text, n - 1), TokenAt(text, n - 1))
  }

  /** The innermost open container is a dictionary with an odd number of things in it. */
  predicate OddTop(nest: seq<Level>) {
    nest != [] && nest[|nest| - 1].isDict && nest[|nest| - 1].items % 2 == 1
  }

  /** A token inside `nest` that does not end the load: no scalar or closing bracket at the
      outermost level, and in a dictionary no container where a key is due. */
  predicate GoesOn(nest: seq<Level>, t: Token) {
    match t
    case Skip(_) => true
    case Scalar(_, _) => nest != []
    case Open(_, _) => nest == [] || !nest[|nest| - 1].isDict || nest[|nest| - 1].items % 2 == 1
    case Close(_) => |nest| >= 2
    case End => false
    case Bad => false
  }

  /** None of the first `n` tokens ends the load. */
  predicate Goes(text: string, n: nat) {
    n == 0 || (Goes(text, n - 1) && GoesOn(Nest(text, n - 1), TokenAt(text, n - 1)))
  }

  /** Token `n` closes a dictionary with an odd number of things in it. */
  predicate OddClose(text: string, n: nat) {
    Goes(text, n) && TokenAt(text, n).Close? && OddTop(Nest(text, n))
  }

  // ----- The loader, round by round

  /** The state after `n` rounds, if the loader gets that far. */
  function Rounds(text: string, n: nat): (r: Option<State>)
    ensures r.Some? ==> Sane(r.value)
  {
    if n == 0 then Some(START)
    else
      var t := TokenAt(text, n - 1);
      match Rounds(text, n - 1)
      case None => None
      case Some(s) =>
        if t.End? then None
        else match Apply(t, s)
          case Again(s') => Some(s')
          case _ => None
  }

  /** They are the rounds of the load. */
  lemma {:induction false} RoundsRun(text: string, n: nat)
    requires Rounds(text, n).Some?
    ensures Run(text, START) == Run(RestAt(text, n), Rounds(text, n).value)
    decreases n
  {
    if n > 0 {
      RoundsRun(text, n - 1);
      hide Lex, Apply;
    }
  }

  /** Round `n` reads a closing bracket. */
  predicate Closes(text: string, n: nat) {
    Rounds(text, n).Some? && TokenAt(text, n).Close?
  }

  predicate KeyPending(text: string, n: nat) {
    Rounds(text, n).Some? && Rounds(text, n).value.key.Some?
  }

  // ----- What the rounds keep

  /** The address of the open container number `i`. */
  function Address(s: State, i: nat): nat
    requires Sane(s) && s.top.Some? && i <= |s.stack|
  {
    if i < |s.stack| then s.stack[i] else s.top.value.addr
  }

  /** The levels are the open containers. */
  ghost predicate Matches(s: State, nest: seq<Level>)
    requires Sane(s)
  {
    if s.top.None? then nest == []
    else
      && |nest| == |s.stack| + 1
      && forall i :: 0 <= i < |nest| ==> (s.heap[Address(s, i)].Dict? <==> nest[i].isDict)
  }

  /** Only the innermost container can be waiting for the value of a key. */
  ghost predicate Settled(s: State, nest: seq<Level>) {
    && (forall i :: 0 <= i < |nest| - 1 && nest[i].isDict ==> nest[i].items % 2 == 0)
    && (s.key.Some? <==> OddTop(nest))
  }

  lemma ScalarMatches(s: State, nest: seq<Level>, p: Prim, s': State)
    requires Sane(s) && Matches(s, nest) && PutScalar(s, p) == Again(s')
    ensures Matches(s', Bump(nest))
  {
    var up := Bump(nest);
    forall i | 0 <= i < |up| ensures s'.heap[Address(s', i)].Dict? <==> up[i].isDict {
      assert Address(s', i) == Address(s, i);
      assert s.heap[Address(s, i)].Dict? <==> nest[i].isDict;
    }
  }

  lemma ScalarKeeps(s: State, nest: seq<Level>, p: Prim, s': State)
    requires Sane(s) && Matches(s, nest) && Settled(s, nest) && PutScalar(s, p) == Again(s')
    ensures Matches(s', Bump(nest)) && Settled(s', Bump(nest))
  {
    ScalarMatches(s, nest, p, s');
    assert s.heap[Address(s, |nest| - 1)].Dict? <==> nest[|nest| - 1].isDict;
  }

  lemma OpenMatches(s: State, nest: seq<Level>, isDict: bool, s': State)
    requires Sane(s) && Matches(s, nest) && Enter(s, isDict) == Again(s')
    ensures Matches(s', Bump(nest) + [Level(isDict, 0)])
  {
    hide Enter, Attach, Bump;
    EnterShape(s, isDict, s');
    if s.top.Some? {
      BumpEven(nest);
      var up := Bump(nest) + [Level(isDict, 0)];
      forall i | 0 <= i < |up| ensures s'.heap[Address(s', i)].Dict? <==> up[i].isDict {
        if i < |nest| {
          assert Address(s', i) == Address(s, i);
          assert s.heap[Address(s, i)].Dict? <==> nest[i].isDict;
        }
      }
    } else {
      assert Bump(nest) == [] by { BumpNone(); }
    }
  }

  lemma BumpNone()
    ensures Bump([]) == []
  {
  }

  /** What opening a container does to the heap and the stack. */
  lemma EnterShape(s: State, isDict: bool, s': State)
    requires Sane(s) && Enter(s, isDict) == Again(s')
    ensures s'.top == Some(Ref(|s.heap|)) && |s'.heap| == |s.heap| + 1 && s'.heap[|s.heap|].Dict? == isDict
    ensures s'.stack == if s.top.Some? then s.stack + [s.top.value.addr] else s.stack
    ensures forall b :: 0 <= b < |s.heap| ==> s'.heap[b].Dict? == s.heap[b].Dict?
  {
  }

  lemma OpenSettled(s: State, nest: seq<Level>, isDict: bool, s': State)
    requires Sane(s) && Matches(s, nest) && Settled(s, nest) && Enter(s, isDict) == Again(s')
    ensures Settled(s', Bump(nest) + [Level(isDict, 0)])
  {
    hide Matches, Enter, Bump, Sane;
    EnterKey(s, nest, isDict, s');
    if nest == [] {
      BumpNone();
    } else {
      BumpEven(nest);
      var up := Bump(nest) + [Level(isDict, 0)];
      forall i | 0 <= i < |up| - 1 && up[i].isDict ensures up[i].items % 2 == 0 {
        assert up[i] == Bump(nest)[i];
      }
    }
  }

  lemma EnterKey(s: State, nest: seq<Level>, isDict: bool, s': State)
    requires Sane(s) && Matches(s, nest) && Enter(s, isDict) == Again(s')
    ensures if nest != [] && nest[|nest| - 1].isDict then s.key.Some? && s'.key.None? else s'.key == s.key
  {
    if s.top.Some? {
      assert s.heap[Address(s, |nest| - 1)].Dict? <==> nest[|nest| - 1].isDict;
    }
  }

  lemma BumpEven(nest: seq<Level>)
    requires nest != []
    ensures |Bump(nest)| == |nest| && forall i :: 0 <= i < |nest| - 1 ==> Bump(nest)[i] == nest[i]
    ensures Bump(nest)[|nest| - 1] == Level(nest[|nest| - 1].isDict, nest[|nest| - 1].items + 1)
  {
  }

  lemma CloseMatches(s: State, nest: seq<Level>, s': State)
    requires Sane(s) && Matches(s, nest) && Leave(s) == Again(s')
    ensures nest != [] && Matches(s', nest[..|nest| - 1])
  {
    var up := nest[..|nest| - 1];
    forall i | 0 <= i < |up| ensures s'.heap[Address(s', i)].Dict? <==> up[i].isDict {
      assert Address(s', i) == Address(s, i);
      assert s.heap[Address(s, i)].Dict? <==> nest[i].isDict;
    }
  }

  lemma CloseKeeps(s: State, nest: seq<Level>, s': State)
    requires Sane(s) && Matches(s, nest) && Settled(s, nest) && !OddTop(nest) && Leave(s) == Again(s')
    ensures nest != [] && Matches(s', nest[..|nest| - 1]) && Settled(s', nest[..|nest| - 1])
  {
    CloseMatches(s, nest, s');
  }

  /** No dictionary is closed before token `n` with an odd number of things in it. */
  ghost predicate EvenBefore(text: string, n: nat) {
    forall m :: 0 <= m < n ==> !OddClose(text, m)
  }

  lemma StartSettled()
    ensures Matches(START, []) && Settled(START, [])
  {
  }

  /** The round goes on exactly when the token does. */
  lemma AgainIff(s: State, nest: seq<Level>, t: Token)
    requires Sane(s) && Matches(s, nest) && Settled(s, nest) && !t.End?
    ensures Apply(t, s).Again? <==> GoesOn(nest, t)
  {
    if s.top.Some? {
      assert s.heap[Address(s, |nest| - 1)].Dict? <==> nest[|nest| - 1].isDict;
    }
  }

  /** One round. */
  lemma RoundKeeps(s: State, nest: seq<Level>, t: Token)
    requires Sane(s) && Matches(s, nest) && Settled(s, nest) && !t.End? && Apply(t, s).Again?
    requires t.Close? ==> !OddTop(nest)
    ensures Matches(Apply(t, s).s, Nested(nest, t)) && Settled(Apply(t, s).s, Nested(nest, t))
  {
    hide Matches, Settled, PutScalar, Enter, Leave, Bump, OddTop;
    var s' := Apply(t, s).s;
    match t {
      case Skip(_) =>
      case Scalar(p, _) => ScalarKeeps(s, nest, p, s');
      case Open(isDict, _) =>
        OpenMatches(s, nest, isDict, s');
        OpenSettled(s, nest, isDict, s');
      case Close(_) => CloseKeeps(s, nest, s');
    }
  }

  /** As long as all dictionaries are closed even, the text alone says how far the loader
      gets and whether a key is pending. */
  lemma {:induction false} RoundsSettled(text: string, n: nat)
    requires EvenBefore(text, n)
    ensures Rounds(text, n).Some? <==> Goes(text, n)
    ensures Goes(text, n) ==>
      Matches(Rounds(text, n).value, Nest(text, n)) && Settled(Rounds(text, n).value, Nest(text, n))
    decreases n
  {
    hide Lex, Matches, Settled, Apply, Nested, GoesOn, OddTop;
    if n == 0 {
      StartSettled();
    } else {
      RoundsSettled(text, n - 1);
      assert !OddClose(text, n - 1);
      var t, nest := TokenAt(text, n - 1), Nest(text, n - 1);
      EndStops(nest, t);
      if Goes(text, n - 1) && !t.End? {
        var s := Rounds(text, n - 1).value;
        AgainIff(s, nest, t);
        if GoesOn(nest, t) {
          RoundKeeps(s, nest, t);
        }
      }
    }
  }

  lemma EndStops(nest: seq<Level>, t: Token)
    ensures t.End? ==> !GoesOn(nest, t)
  {
  }

  /** The first dictionary closed with an odd number of things in it, if any. */
  lemma {:induction false} FirstOdd(text: string, n: nat) returns (m: nat)
    ensures m <= n && EvenBefore(text, m) && (m < n ==> OddClose(text, m))
    decreases n
  {
    hide OddClose;
    if n == 0 {
      m := 0;
    } else {
      m := FirstOdd(text, n - 1);
      if m == n - 1 && !OddClose(text, m) {
        m := n;
      }
    }
  }

  lemma KeyAtClose(text: string, n: nat)
    requires EvenBefore(text, n) && TokenAt(text, n).Close?
    ensures Closes(text, n) && KeyPending(text, n) <==> OddClose(text, n)
  {
    hide Rounds, Nest, OddTop, Goes;
    RoundsSettled(text, n);
  }

  /** For every text: a closing bracket finds a key pending somewhere in the load exactly
      when some dictionary is closed with an odd number of things directly inside, and
      the first such dictionary is where it happens. */
  lemma KeyLeaksIff(text: string)
    ensures (exists n: nat :: Closes(text, n) && KeyPending(text, n)) <==> (exists n: nat :: OddClose(text, n))
    ensures forall n: nat :: TokenAt(text, n).Close? && EvenBefore(text, n) ==>
      (Closes(text, n) && KeyPending(text, n) <==> OddClose(text, n))
  {
    hide OddClose, Closes, KeyPending, EvenBefore;
    forall n: nat | TokenAt(text, n).Close? && EvenBefore(text, n)
      ensures Closes(text, n) && KeyPending(text, n) <==> OddClose(text, n)
    {
      KeyAtClose(text, n);
    }
    if n: nat :| Closes(text, n) && KeyPending(text, n) {
      var m := FirstOdd(text, n);
      IsClose(text, n);
      assert OddClose(text, m);
    }
    if n: nat :| OddClose(text, n) {
      var m := FirstOdd(text, n);
      assert OddClose(text, m);
      IsClose(text, m);
      assert Closes(text, m) && KeyPending(text, m);
    }
  }

  lemma IsClose(text: string, n: nat)
    ensures Closes(text, n) || OddClose(text, n) ==> TokenAt(text, n).Close?
  {
  }

  // ----- A text that shows it

  const A := [Plain('a')]
  const B := [Plain('b')]
  const C := [Plain('c')]

  lemma Names()
    ensures Quoted(A) == "\"a\"" && Quoted(B) == "\"b\"" && Text(CStr(C)) == "\"c\""
    ensures CharsMeaning(A) == "a" && CharsMeaning(B) == "b" && CharsMeaning(C) == "c"
    ensures ValidChars(A) && ValidChars(B) && ValidChars(C)
  {
    assert CharsText(A) == "a" && CharsText(B) == "b" && CharsText(C) == "c";
  }

  /** A scalar read where a key is expected becomes the key. */
  lemma RunNumberKey(rest: string, s: State)
    requires Inside(s, true) && NoNumber(rest)
    ensures Run("1" + rest, s) == Run(rest, s.(key := Some(Num("1", false))))
  {
    var c := CNum("1");
    assert Valid(c) && Text(c) == "1" && !HasFloatMark("1");
    LexLeaf(c, rest);
    hide Lex, Text;
  }

  /** The inner dictionary is closed behind its one key, which then takes "c" for its
      value in the outer one. */
  lemma LeakExample()
    ensures Run("{\"a\":{\"b\"},\"c\":1}", START)
      == Loaded([Dict(map[Str("a") := Ref(1), Str("b") := P(Str("c"))]), Dict(map[])], Ref(0))
  {
    hide Run, Lex, Quoted, Text, CharsMeaning, ValidChars, Build;
    Names();
    var r6 := "1}";
    var r5 := ",\"c\":" + r6;
    var r3 := "\"b\"" + ("}" + r5);
    var r1 := "\"a\"" + (":" + ("{" + r3));
    assert "{\"a\":{\"b\"},\"c\":1}" == "{" + r1;
    RunRootOpen(true, r1);
    var s1 := State([Dict(map[])], [], Some(Ref(0)), None);
    RunKey(A, ":" + ("{" + r3), s1);
    var s2 := s1.(key := Some(Str("a")));
    RunSkip(':', "{" + r3, s2);
    RunOpen(true, r3, s2);
    var s3 := State([Dict(map[Str("a") := Ref(1)]), Dict(map[])], [0], Some(Ref(1)), None);
    assert Opened(s2, true) == s3;
    RunKey(B, "}" + r5, s3);
    RunClose('}', r5, s3.(key := Some(Str("b"))));
    assert [0][..0] == [] && r5 == ",\"c\":1}";
    LeakTail(s3.(stack := [], top := Some(Ref(0)), key := Some(Str("b"))));
  }

  lemma LeakTail(s: State)
    requires s == State([Dict(map[Str("a") := Ref(1)]), Dict(map[])], [], Some(Ref(0)), Some(Str("b")))
    ensures Run(",\"c\":1}", s)
      == Loaded([Dict(map[Str("a") := Ref(1), Str("b") := P(Str("c"))]), Dict(map[])], Ref(0))
  {
    hide Run, Lex, Quoted, Text, CharsMeaning, ValidChars;
    Names();
    var r := ":" + ("1" + "}");
    assert ",\"c\":1}" == "," + ("\"c\"" + r);
    RunSkip(',', "\"c\"" + r, s);
    RunLeaf(CStr(C), r, s);
    var s' := State([Dict(map[Str("a") := Ref(1), Str("b") := P(Str("c"))]), Dict(map[])], [], Some(Ref(0)), None);
    assert AfterValue(s, CStr(C)) == s';
    RunSkip(':', "1" + "}", s');
    RunNumberKey("}", s');
    assert "}" == ['}'] + "" && Ws("");
    RunRootClose('}', "", s'.(key := Some(Num("1", false))));
  }
}
