/** The stack-based loader agrees with the recursive grammar. */
module JsonProofs {
  import opened Json
  import opened JsonGrammar
  import opened Seqs
  import opened Wrappers

  // ----- Tokens

  lemma HexAgrees(c: char)
    requires IsHex(c)
    ensures HexNibble(c) == HexValue(c)
  {
    hide HexNibble;
    if 'A' <= c <= 'F' {
      NibbleOfCapital(c);
    } else if 'a' <= c <= 'f' {
      NibbleOfSmall(c);
    } else {
      NibbleOfDigit(c);
    }
  }

  lemma NibbleOfCapital(c: char)
    requires 'A' <= c <= 'F'
    ensures HexNibble(c) == c as int - 55
  {
    Low(c as int);
    Row(c as int, 2);
    Low(c as int + 32 - 48);
    Low(c as int + 32 - 48 - 39);
  }

  lemma NibbleOfSmall(c: char)
    requires 'a' <= c <= 'f'
    ensures HexNibble(c) == c as int - 87
  {
    Low(c as int);
    Row(c as int, 3);
    Low(c as int - 48);
    Low(c as int - 48 - 39);
  }

  lemma NibbleOfDigit(c: char)
    requires '0' <= c <= '9'
    ensures HexNibble(c) == c as int - 48
  {
    Low(c as int);
    Row(c as int, 1);
    Low(c as int - 48);
  }

  lemma Low(b: int)
    requires 0 <= b < 256
    ensures b % 256 == b
  {
  }

  lemma Row(b: int, row: nat)
    requires 32 * row <= b < 32 * row + 32
    ensures b / 32 == row
  {
  }

  lemma NextOf(c: char, rest: string)
    ensures Cur([c] + rest) == c && Next([c] + rest) == rest
  {
  }

  lemma HexStep(c: char, h: char, rest: string, num: nat, n: nat)
    requires IsHex(h) && 0 < n <= 4 && num < UnitBound(4 - n) && num * 16 + HexValue(h) < UnitBound(5 - n)
    ensures HexRun([c, h] + rest, num, n) == HexRun([h] + rest, num * 16 + HexValue(h), n - 1)
  {
    hide HexNibble, HexValue, ShiftIn;
    HexAgrees(h);
    assert [c, h] + rest == [c] + ([h] + rest);
    NextOf(c, [h] + rest);
    NextOf(h, rest);
    ShiftDigit(num, HexNibble(h));
  }

  lemma ShiftDigit(num: nat, d: nat)
    requires d < 16
    ensures ShiftIn(num, d) == num * 16 + d
  {
  }

  lemma HexDigits(h1: char, h2: char, h3: char, h4: char, rest: string)
    requires IsHex(h1) && IsHex(h2) && IsHex(h3) && IsHex(h4)
    ensures HexRun(['u', h1, h2, h3, h4] + rest, 0, 4) == (CodePoint(h1, h2, h3, h4), [h4] + rest)
  {
    hide HexValue, HexRun;
    var t3 := [h4] + rest;
    var t2 := [h3, h4] + rest;
    var t1 := [h2, h3, h4] + rest;
    var n1 := HexValue(h1);
    var n2 := n1 * 16 + HexValue(h2);
    var n3 := n2 * 16 + HexValue(h3);
    assert ['u', h1, h2, h3, h4] + rest == ['u', h1] + t1;
    HexStep('u', h1, t1, 0, 4);
    assert [h1] + t1 == [h1, h2] + t2;
    HexStep(h1, h2, t2, n1, 3);
    assert [h2] + t2 == [h2, h3] + t3;
    HexStep(h2, h3, t3, n2, 2);
    assert [h3] + t3 == [h3, h4] + rest;
    HexStep(h3, h4, rest, n3, 1);
    HexEnd([h4] + rest, n3 * 16 + HexValue(h4));
  }

  lemma HexEnd(rest: string, num: nat)
    requires num < UnitBound(4)
    ensures HexRun(rest, num, 0) == (num, rest)
  {
  }

  lemma ScanUnicode(h1: char, h2: char, h3: char, h4: char, rest: string, acc: string)
    requires IsHex(h1) && IsHex(h2) && IsHex(h3) && IsHex(h4)
    ensures ScanString(['\\', 'u', h1, h2, h3, h4] + rest, acc)
         == ScanString(rest, acc + Utf8(CodePoint(h1, h2, h3, h4)))
  {
    hide Utf8, HexRun, CodePoint;
    var r := ['\\', 'u', h1, h2, h3, h4] + rest;
    assert r[1..] == ['u', h1, h2, h3, h4] + rest;
    HexDigits(h1, h2, h3, h4, rest);
    NextOf(h4, rest);
  }

  /** The string loop reads one character of the grammar. */
  lemma ScanChr(ch: Chr, rest: string, acc: string)
    requires ValidChr(ch)
    ensures ScanString(ChrText(ch) + rest, acc) == ScanString(rest, acc + ChrMeaning(ch))
  {
    hide CodePoint, Utf8, HexRun;
    match ch
    case Plain(c) =>
      assert ([c] + rest)[1..] == rest;
    case Escape(l) =>
      var r := ['\\', l] + rest;
      assert r[1..] == [l] + rest;
      UnescapeTable(l);
      NextOf(l, rest);
    case Unicode(h1, h2, h3, h4) =>
      ScanUnicode(h1, h2, h3, h4, rest, acc);
  }

  lemma ScanQuote(rest: string, acc: string)
    ensures ScanString("\"" + rest, acc) == Some((acc, rest))
  {
  }

  lemma {:induction false} ScanChars(cs: seq<Chr>, rest: string, acc: string)
    requires ValidChars(cs)
    ensures ScanString(CharsText(cs) + "\"" + rest, acc) == Some((acc + CharsMeaning(cs), rest))
    decreases |cs|
  {
    hide ScanString, ChrText, ChrMeaning, ValidChr;
    if cs == [] {
      ScanQuote(rest, acc);
      assert CharsText(cs) + "\"" + rest == "\"" + rest;
      assert acc + "" == acc;
    } else {
      var tail := CharsText(cs[1..]) + "\"" + rest;
      assert CharsText(cs) + "\"" + rest == ChrText(cs[0]) + tail;
      ScanChr(cs[0], tail, acc);
      ScanChars(cs[1..], rest, acc + ChrMeaning(cs[0]));
      assert acc + ChrMeaning(cs[0]) + CharsMeaning(cs[1..]) == acc + CharsMeaning(cs);
    }
  }

  lemma {:induction false} ScanDigits(s: string, rest: string, acc: string)
    requires forall i :: 0 <= i < |s| ==> IsNumberChar(s[i])
    requires rest == "" || !IsNumberChar(rest[0])
    ensures ScanNumber(s + rest, acc) == (acc + s, rest)
    decreases |s|
  {
    if s == "" {
      assert s + rest == rest && acc + s == acc;
    } else {
      assert (s + rest)[1..] == s[1..] + rest;
      ScanDigits(s[1..], rest, acc + [s[0]]);
      assert acc + [s[0]] + s[1..] == acc + s;
    }
  }

  /** The scalar a leaf denotes. */
  function PrimOf(c: Cst): Prim
    requires Valid(c) && !c.CList? && !c.CObj?
  {
    match c
    case CNull => Null
    case CTrue => Bool(true)
    case CFalse => Bool(false)
    case CNum(s) => Num(s, HasFloatMark(s))
    case CStr(cs) => Str(CharsMeaning(cs))
  }

  lemma LexString(cs: seq<Chr>, rest: string)
    requires ValidChars(cs)
    ensures Lex(Quoted(cs) + rest) == Scalar(Str(CharsMeaning(cs)), rest)
  {
    ScanChars(cs, rest, "");
    assert "" + CharsMeaning(cs) == CharsMeaning(cs);
    QuotedRest(cs, rest);
    hide CharsMeaning, CharsText, ScanString, Quoted, ValidChars;
    var r := Quoted(cs) + rest;
    assert r != "" && Cur(r) == '"' && ScanString(r[1..], "") == Some((CharsMeaning(cs), rest));
  }

  lemma QuotedRest(cs: seq<Chr>, rest: string)
    ensures var r := Quoted(cs) + rest; r != "" && r[0] == '"' && r[1..] == CharsText(cs) + "\"" + rest
  {
    hide CharsText;
  }

  /** Every leaf is one token. */
  lemma LexLeaf(c: Cst, rest: string)
    requires Valid(c) && !c.CList? && !c.CObj?
    requires c.CNum? ==> rest == "" || !IsNumberChar(rest[0])
    ensures Lex(Text(c) + rest) == Scalar(PrimOf(c), rest)
  {
    match c
    case CNull => LexWord("null", Null, rest);
    case CTrue => LexWord("true", Bool(true), rest);
    case CFalse => LexWord("false", Bool(false), rest);
    case CNum(s) => LexNumber(s, rest);
    case CStr(cs) => LexString(cs, rest);
  }

  lemma LexWord(word: string, p: Prim, rest: string)
    requires (word, p) in {("null", Null), ("true", Bool(true)), ("false", Bool(false))}
    ensures Lex(word + rest) == Scalar(p, rest)
  {
    var r := word + rest;
    assert r[0] == word[0] && word <= r && r[|word|..] == rest;
  }

  lemma LexNumber(s: string, rest: string)
    requires ValidNumber(s) && (rest == "" || !IsNumberChar(rest[0]))
    ensures Lex(s + rest) == Scalar(Num(s, HasFloatMark(s)), rest)
  {
    hide LooksFloat, ScanNumber, HasFloatMark, ScanString, Keyword;
    var r := s + rest;
    assert r[0] == s[0] && r[1..] == s[1..] + rest;
    FloatMark(s);
    NumberRest(s);
    ScanDigits(s[1..], rest, [s[0]]);
    assert [s[0]] + s[1..] == s;
  }

  lemma NumberRest(s: string)
    requires ValidNumber(s)
    ensures s != "" && forall i :: 0 <= i < |s[1..]| ==> IsNumberChar(s[1..][i])
  {
  }

  // ----- Separators

  lemma RunSkip(c: char, rest: string, s: State)
    requires Sane(s) && IsSkipped(c)
    ensures Run([c] + rest, s) == Run(rest, s)
  {
  }

  lemma {:induction false} RunWs(ws: string, rest: string, s: State)
    requires Sane(s) && Ws(ws)
    ensures Run(ws + rest, s) == Run(rest, s)
    decreases |ws|
  {
    if ws == "" {
      assert ws + rest == rest;
    } else {
      assert ws + rest == [ws[0]] + (ws[1..] + rest);
      RunSkip(ws[0], ws[1..] + rest, s);
      RunWs(ws[1..], rest, s);
    }
  }

  // ----- Values, in a container

  /** The heap after the value `c` went into the container at `a`. */
  function Build(heap: Heap, a: nat, key: Option<Prim>, c: Cst): (h: Heap)
    requires a < |heap| && (heap[a].Dict? ==> key.Some?) && Valid(c)
    ensures |heap| <= |h| && forall b :: 0 <= b < |heap| ==> heap[b].List? == h[b].List?
    decreases c
  {
    match c
    case CList(_, es) => FillList(Attach(heap + [List([])], a, key, Ref(|heap|)), |heap|, es)
    case CObj(_, ms) => FillDict(Attach(heap + [Dict(map[])], a, key, Ref(|heap|)), |heap|, ms)
    case _ => Attach(heap, a, key, P(PrimOf(c)))
  }

  function FillList(heap: Heap, a: nat, es: seq<Elem>): (h: Heap)
    requires a < |heap| && heap[a].List? && (forall i :: 0 <= i < |es| ==> Valid(es[i].value))
    ensures |heap| <= |h| && forall b :: 0 <= b < |heap| ==> heap[b].List? == h[b].List?
    decreases es
  {
    if es == [] then heap else FillList(Build(heap, a, None, es[0].value), a, es[1..])
  }

  function FillDict(heap: Heap, a: nat, ms: seq<Member>): (h: Heap)
    requires a < |heap| && heap[a].Dict?
    requires forall i :: 0 <= i < |ms| ==> Valid(ms[i].value) && ValidChars(ms[i].key)
    ensures |heap| <= |h| && forall b :: 0 <= b < |heap| ==> heap[b].List? == h[b].List?
    decreases ms
  {
    if ms == [] then heap
    else FillDict(Build(heap, a, Some(Str(CharsMeaning(ms[0].key))), ms[0].value), a, ms[1..])
  }

  /** A value is expected: the top is a list, or a dictionary with its key
      read.  There is a pending key only in the second case. */
  ghost predicate Ready(s: State) {
    Sane(s) && s.top.Some? && (s.heap[s.top.value.addr].Dict? <==> s.key.Some?)
  }

  function AfterValue(s: State, c: Cst): State
    requires Ready(s) && Valid(c)
  {
    s.(heap := Build(s.heap, s.top.value.addr, s.key, c), key := None)
  }

  lemma AfterSane(s: State, c: Cst)
    requires Ready(s) && Valid(c)
    ensures Sane(AfterValue(s, c))
  {
  }

  ghost predicate NoNumber(rest: string) {
    rest == "" || !IsNumberChar(rest[0])
  }

  lemma RunLeaf(c: Cst, rest: string, s: State)
    requires Valid(c) && !c.CList? && !c.CObj? && Ready(s) && (c.CNum? ==> NoNumber(rest))
    ensures Sane(AfterValue(s, c)) && Run(Text(c) + rest, s) == Run(rest, AfterValue(s, c))
  {
    hide Lex, Text, PrimOf;
    LexLeaf(c, rest);
    AfterSane(s, c);
  }

  // ----- Opening and closing

  /** Just inside a container opened where a value was expected; the pending
      key has been used up, so one key variable is enough. */
  function Opened(s: State, isDict: bool): State
    requires Ready(s)
  {
    var a := s.top.value.addr;
    State(Attach(s.heap + [Empty(isDict)], a, s.key, Ref(|s.heap|)), s.stack + [a], Some(Ref(|s.heap|)), None)
  }

  lemma RunOpen(isDict: bool, rest: string, s: State)
    requires Ready(s)
    ensures Sane(Opened(s, isDict)) && Opened(s, isDict).heap[|s.heap|] == Empty(isDict)
    ensures Run((if isDict then "{" else "[") + rest, s) == Run(rest, Opened(s, isDict))
  {
    var r := (if isDict then "{" else "[") + rest;
    assert r[1..] == rest;
    assert Lex(r) == Open(isDict, rest);
  }

  lemma RunClose(c: char, rest: string, s: State)
    requires Sane(s) && s.top.Some? && s.stack != [] && (c == ']' || c == '}')
    ensures var t := s.(stack := s.stack[..|s.stack| - 1], top := Some(Ref(s.stack[|s.stack| - 1])));
            Sane(t) && Run([c] + rest, s) == Run(rest, t)
  {
    assert ([c] + rest)[1..] == rest;
    assert Lex([c] + rest) == Close(rest);
  }

  /** Inside a container at `a`, between values. */
  ghost predicate Inside(s: State, isDict: bool) {
    Sane(s) && s.top.Some? && s.key.None? && s.heap[s.top.value.addr].Dict? == isDict
  }

  ghost predicate ValidElems(es: seq<Elem>) {
    forall i :: 0 <= i < |es| ==> Ws(es[i].pre) && Ws(es[i].post) && Valid(es[i].value)
  }

  ghost predicate ValidMember(m: Member) {
    Ws(m.pre) && ValidChars(m.key) && Ws(m.mid) && Ws(m.gap) && Ws(m.post) && Valid(m.value)
  }

  ghost predicate ValidMembers(ms: seq<Member>) {
    forall i :: 0 <= i < |ms| ==> ValidMember(ms[i])
  }

  lemma ListParts(pad: string, es: seq<Elem>)
    requires Valid(CList(pad, es))
    ensures Ws(pad) && ValidElems(es)
  {
  }

  lemma ObjectParts(pad: string, ms: seq<Member>)
    requires Valid(CObj(pad, ms))
    ensures Ws(pad) && ValidMembers(ms)
  {
  }

  lemma ListText(pad: string, es: seq<Elem>, rest: string)
    ensures Text(CList(pad, es)) + rest == "[" + ((if es == [] then pad else ElemsText(es)) + ("]" + rest))
  {
  }

  lemma ObjectText(pad: string, ms: seq<Member>, rest: string)
    ensures Text(CObj(pad, ms)) + rest == "{" + ((if ms == [] then pad else MembersText(ms)) + ("}" + rest))
  {
  }

  function MoreElems(es: seq<Elem>, rest: string): string
    requires es != []
  {
    if |es| == 1 then rest else [','] + (ElemsText(es[1..]) + rest)
  }

  lemma ElemsSplit(es: seq<Elem>, rest: string)
    requires es != []
    ensures ElemsText(es) + rest == es[0].pre + (Text(es[0].value) + (es[0].post + MoreElems(es, rest)))
  {
  }

  function MoreMembers(ms: seq<Member>, rest: string): string
    requires ms != []
  {
    if |ms| == 1 then rest else [','] + (MembersText(ms[1..]) + rest)
  }

  lemma MembersSplit(ms: seq<Member>, rest: string)
    requires ms != []
    ensures var m := ms[0];
      MembersText(ms) + rest
      == m.pre + (Quoted(m.key) + (m.mid + ([':'] + (m.gap + (Text(m.value) + (m.post + MoreMembers(ms, rest)))))))
  {
    hide Text, Quoted;
    var m := ms[0];
    var t := if |ms| == 1 then "" else "," + MembersText(ms[1..]);
    var t1 := m.post + t;
    var t2 := Text(m.value) + t1;
    var t3 := m.gap + t2;
    var t4 := ":" + t3;
    var t5 := m.mid + t4;
    var t6 := Quoted(m.key) + t5;
    Assoc(m.pre, t6, rest); Assoc(Quoted(m.key), t5, rest); Assoc(m.mid, t4, rest); Assoc(":", t3, rest);
    Assoc(m.gap, t2, rest); Assoc(Text(m.value), t1, rest); Assoc(m.post, t, rest);
    if |ms| == 1 {
      assert t + rest == rest;
    } else {
      Assoc(",", MembersText(ms[1..]), rest);
    }
  }

  lemma WsNoNumber(ws: string, rest: string)
    requires Ws(ws) && NoNumber(rest)
    ensures NoNumber(ws + rest)
  {
  }

  /** Any value, wherever the loader expects one: the text is consumed and the
      value is built into the container on top. */
  lemma {:induction false} RunValue(c: Cst, rest: string, s: State)
    requires Valid(c) && Ready(s) && (c.CNum? ==> NoNumber(rest))
    ensures Sane(AfterValue(s, c)) && Run(Text(c) + rest, s) == Run(rest, AfterValue(s, c))
    decreases c, 1
  {
    hide Run, Lex;
    AfterSane(s, c);
    match c
    case CList(pad, es) =>
      RunList(pad, es, rest, s);
    case CObj(pad, ms) =>
      RunObject(pad, ms, rest, s);
    case _ =>
      RunLeaf(c, rest, s);
  }

  lemma {:induction false} RunList(pad: string, es: seq<Elem>, rest: string, s: State)
    requires Valid(CList(pad, es)) && Ready(s)
    ensures Sane(AfterValue(s, CList(pad, es)))
    ensures Run(Text(CList(pad, es)) + rest, s) == Run(rest, AfterValue(s, CList(pad, es)))
    decreases es, 2
  {
    hide Run, Lex, Valid, IsWs, Text, ElemsText, ValidElems, Ws;
    var c := CList(pad, es);
    var body := if es == [] then pad else ElemsText(es);
    ListParts(pad, es);
    ListText(pad, es, rest);
    RunOpen(false, body + ("]" + rest), s);
    var t := Opened(s, false);
    ElemsValues(es);
    var u := t.(heap := FillList(t.heap, |s.heap|, es));
    if es == [] {
      RunWs(pad, "]" + rest, t);
    } else {
      RunElems(es, "]" + rest, t);
    }
    RunClose(']', rest, u);
    assert u.stack[..|u.stack| - 1] == s.stack;
    AfterSane(s, c);
  }

  lemma ElemsValues(es: seq<Elem>)
    requires ValidElems(es)
    ensures forall i :: 0 <= i < |es| ==> Valid(es[i].value)
  {
  }

  lemma MembersValues(ms: seq<Member>)
    requires ValidMembers(ms)
    ensures forall i :: 0 <= i < |ms| ==> Valid(ms[i].value) && ValidChars(ms[i].key)
  {
  }

  lemma {:induction false} RunElems(es: seq<Elem>, rest: string, s: State)
    requires es != [] && ValidElems(es) && Inside(s, false) && NoNumber(rest)
    ensures var a := s.top.value.addr;
      && Inside(s.(heap := FillList(s.heap, a, es)), false)
      && Run(ElemsText(es) + rest, s) == Run(rest, s.(heap := FillList(s.heap, a, es)))
    decreases es, 1
  {
    hide Run, Lex, Text, Valid, IsWs, Build, ElemsText;
    var e, a := es[0], s.top.value.addr;
    var more := MoreElems(es, rest);
    ElemsSplit(es, rest);
    RunWs(e.pre, Text(e.value) + (e.post + more), s);
    WsNoNumber(e.post, more);
    RunValue(e.value, e.post + more, s);
    var t := AfterValue(s, e.value);
    RunWs(e.post, more, t);
    if |es| > 1 {
      RunSkip(',', ElemsText(es[1..]) + rest, t);
      RunElems(es[1..], rest, t);
    } else {
      assert es[1..] == [];
    }
  }

  lemma {:induction false} RunObject(pad: string, ms: seq<Member>, rest: string, s: State)
    requires Valid(CObj(pad, ms)) && Ready(s)
    ensures Sane(AfterValue(s, CObj(pad, ms)))
    ensures Run(Text(CObj(pad, ms)) + rest, s) == Run(rest, AfterValue(s, CObj(pad, ms)))
    decreases ms, 2
  {
    hide Run, Lex, Valid, IsWs, Text, MembersText, ValidMembers, Ws;
    var c := CObj(pad, ms);
    var body := if ms == [] then pad else MembersText(ms);
    ObjectParts(pad, ms);
    ObjectText(pad, ms, rest);
    RunOpen(true, body + ("}" + rest), s);
    var t := Opened(s, true);
    MembersValues(ms);
    var u := t.(heap := FillDict(t.heap, |s.heap|, ms));
    if ms == [] {
      RunWs(pad, "}" + rest, t);
    } else {
      RunMembers(ms, "}" + rest, t);
    }
    RunClose('}', rest, u);
    assert u.stack[..|u.stack| - 1] == s.stack;
    AfterSane(s, c);
  }

  lemma RunKey(key: seq<Chr>, rest: string, s: State)
    requires ValidChars(key) && Inside(s, true)
    ensures Ready(s.(key := Some(Str(CharsMeaning(key)))))
    ensures Run(Quoted(key) + rest, s) == Run(rest, s.(key := Some(Str(CharsMeaning(key)))))
  {
    hide Lex, CharsText, CharsMeaning, ValidChars;
    LexString(key, rest);
  }

  /** Key, colon and value of one member, with the space around them. */
  lemma {:induction false} RunMember(m: Member, more: string, s: State)
    requires ValidMember(m) && Inside(s, true) && NoNumber(more)
    ensures var k := s.(key := Some(Str(CharsMeaning(m.key))));
      && Ready(k) && Sane(AfterValue(k, m.value))
      && Run(m.pre + (Quoted(m.key) + (m.mid + ([':'] + (m.gap + (Text(m.value) + (m.post + more)))))), s)
         == Run(more, AfterValue(k, m.value))
    decreases m, 2
  {
    hide Run, Lex, Text, Valid, IsWs, Build, Quoted, CharsMeaning, ValidChars, Ws;
    var r3 := Text(m.value) + (m.post + more);
    var r2 := m.gap + r3;
    var r1 := m.mid + ([':'] + r2);
    RunWs(m.pre, Quoted(m.key) + r1, s);
    RunKey(m.key, r1, s);
    var k := s.(key := Some(Str(CharsMeaning(m.key))));
    RunWs(m.mid, [':'] + r2, k);
    RunSkip(':', r2, k);
    RunWs(m.gap, r3, k);
    WsNoNumber(m.post, more);
    RunValue(m.value, m.post + more, k);
    RunWs(m.post, more, AfterValue(k, m.value));
  }

  lemma {:induction false} RunMembers(ms: seq<Member>, rest: string, s: State)
    requires ms != [] && ValidMembers(ms) && Inside(s, true) && NoNumber(rest)
    ensures var a := s.top.value.addr;
      && Inside(s.(heap := FillDict(s.heap, a, ms)), true)
      && Run(MembersText(ms) + rest, s) == Run(rest, s.(heap := FillDict(s.heap, a, ms)))
    decreases ms, 1
  {
    hide Run, Lex, Text, Valid, IsWs, Build, Quoted, CharsMeaning, ValidChars, Ws, MembersText;
    var m, a := ms[0], s.top.value.addr;
    MembersSplit(ms, rest);
    RunMember(m, MoreMembers(ms, rest), s);
    var t := AfterValue(s.(key := Some(Str(CharsMeaning(m.key)))), m.value);
    if |ms| > 1 {
      RunSkip(',', MembersText(ms[1..]) + rest, t);
      RunMembers(ms[1..], rest, t);
    } else {
      assert ms[1..] == [];
    }
  }

  // ----- Documents

  lemma {:induction false} SkipSpaceWs(ws: string)
    requires Ws(ws)
    ensures SkipSpace(ws) == ""
    decreases |ws|
  {
    if ws != "" {
      SkipSpaceWs(ws[1..]);
    }
  }

  /** The heap and the root that a document loads to. */
  function Image(c: Cst): Result
    requires Valid(c)
  {
    match c
    case CList(_, es) => Loaded(FillList([List([])], 0, es), Ref(0))
    case CObj(_, ms) => Loaded(FillDict([Dict(map[])], 0, ms), Ref(0))
    case _ => Loaded([], P(PrimOf(c)))
  }

  lemma RunRootLeaf(c: Cst, post: string)
    requires Valid(c) && !c.CList? && !c.CObj? && Ws(post)
    ensures Run(Text(c) + post, START) == Image(c)
  {
    hide Lex, Text, PrimOf;
    WsNoNumber(post, "");
    assert post + "" == post;
    LexLeaf(c, post);
    SkipSpaceWs(post);
  }

  lemma RunRootOpen(isDict: bool, rest: string)
    ensures Run((if isDict then "{" else "[") + rest, START)
      == Run(rest, State([Empty(isDict)], [], Some(Ref(0)), None))
  {
    var r := (if isDict then "{" else "[") + rest;
    assert r[1..] == rest;
    assert Lex(r) == Open(isDict, rest);
    assert START.heap + [Empty(isDict)] == [Empty(isDict)];
  }

  lemma RunRootClose(c: char, post: string, s: State)
    requires Sane(s) && s.top.Some? && s.stack == [] && (c == ']' || c == '}') && Ws(post)
    ensures Run([c] + post, s) == Loaded(s.heap, s.top.value)
  {
    assert ([c] + post)[1..] == post;
    assert Lex([c] + post) == Close(post);
    SkipSpaceWs(post);
  }

  /** The loader accepts every document and links its containers as the text
      nests them. */
  lemma LoadsDocument(d: Doc)
    requires ValidDoc(d)
    ensures Run(DocText(d), START) == Image(d.value)
  {
    hide Run, Lex, Text, IsWs, Ws, Image, Valid;
    Assoc(d.pre, Text(d.value), d.post);
    RunWs(d.pre, Text(d.value) + d.post, START);
    match d.value
    case CList(_, _) => LoadsList(d.value, d.post);
    case CObj(_, _) => LoadsObject(d.value, d.post);
    case _ => RunRootLeaf(d.value, d.post);
  }

  lemma LoadsList(c: Cst, post: string)
    requires c.CList? && Valid(c) && Ws(post)
    ensures Run(Text(c) + post, START) == Image(c)
  {
    hide Run, Lex, IsWs, ElemsText, Ws, FillList;
    var pad, es := c.pad, c.elems;
    ListParts(pad, es);
    ListText(pad, es, post);
    var s := State([Empty(false)], [], Some(Ref(0)), None);
    RunRootOpen(false, (if es == [] then pad else ElemsText(es)) + ("]" + post));
    if es == [] {
      RunWs(pad, "]" + post, s);
    } else {
      RunElems(es, "]" + post, s);
    }
    FilledNone([Empty(false)], 0);
    RunRootClose(']', post, s.(heap := FillList(s.heap, 0, es)));
  }

  lemma FilledNone(heap: Heap, a: nat)
    requires a < |heap|
    ensures heap[a].List? ==> FillList(heap, a, []) == heap
    ensures heap[a].Dict? ==> FillDict(heap, a, []) == heap
  {
  }

  lemma LoadsObject(c: Cst, post: string)
    requires c.CObj? && Valid(c) && Ws(post)
    ensures Run(Text(c) + post, START) == Image(c)
  {
    hide Run, Lex, IsWs, MembersText, Ws, FillDict;
    var pad, ms := c.pad, c.members;
    ObjectParts(pad, ms);
    ObjectText(pad, ms, post);
    var s := State([Empty(true)], [], Some(Ref(0)), None);
    RunRootOpen(true, (if ms == [] then pad else MembersText(ms)) + ("}" + post));
    if ms == [] {
      RunWs(pad, "}" + post, s);
    } else {
      RunMembers(ms, "}" + post, s);
    }
    FilledNone([Empty(true)], 0);
    RunRootClose('}', post, s.(heap := FillDict(s.heap, 0, ms)));
  }
}
