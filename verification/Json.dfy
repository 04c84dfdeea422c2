/** The one-pass JSON loader of extmod/modujson.c.

    A `char` is one byte of the stream (0..255).  Containers live in a heap and
    refer to each other by address, as the Python objects do: a child is linked
    into its parent when it is opened and filled in afterwards. */
module Json {
  import opened Bits
  import opened Wrappers

  /** Strings are their UTF-8 bytes; number conversion is abstract, a number is
      its lexeme and the kind of conversion chosen. */
  datatype Prim = Null | Bool(b: bool) | Num(lexeme: string, isFloat: bool) | Str(chars: string)

  datatype Value = P(prim: Prim) | Ref(addr: nat)

  datatype Container = List(items: seq<Value>) | Dict(entries: map<Prim, Value>)

  type Heap = seq<Container>

  // ----- Characters

  const EOF: char := '\0'

  /** S_CUR. */
  function Cur(rest: string): char {
    if rest == "" then EOF else rest[0]
  }

  /** The stream after S_NEXT. */
  function Next(rest: string): string {
    if rest == "" then "" else rest[1..]
  }

  predicate IsDigit(c: char) { '0' <= c <= '9' }

  predicate IsSkipped(c: char) {
    c == ',' || c == ':' || c == ' ' || c == '\t' || c == '\n' || c == '\r'
  }

  /** unichar_isspace. */
  predicate IsSpace(c: char) {
    c == ' ' || 9 <= c as int <= 13
  }

  predicate IsNumberChar(c: char) {
    IsDigit(c) || c == '.' || c == 'E' || c == 'e' || c == '+' || c == '-'
  }

  // ----- Strings

  /** `(c | 0x20) - '0'`, then the correction for letters, in byte arithmetic. */
  function HexNibble(c: char): (d: nat)
    ensures d < 256
  {
    var b := c as int % 256;
    var lower := if b / 32 % 2 == 1 then b else b + 32;
    var d := (lower - 48) % 256;
    if d > 9 then (d - 39) % 256 else d
  }

  /** `(num << 4) | d`. */
  function ShiftIn(num: nat, d: nat): (r: nat)
    requires d < 256
    ensures r < (num / 16 + 1) * 256
    ensures d < 16 ==> r == num * 16 + d
  {
    ShiftFacts(num, d);
    Or(num * 16, d)
  }

  lemma ShiftFacts(num: nat, d: nat)
    requires d < 256
    ensures Or(num * 16, d) < (num / 16 + 1) * 256
    ensures d < 16 ==> Or(num * 16, d) == num * 16 + d
  {
    hide Or, Pow2;
    FourAndEight();
    OrLow(num / 16, num % 16 * 16, d, 8);
    assert num / 16 * 256 + num % 16 * 16 == num * 16;
    if d < 16 {
      OrLow(num, 0, d, 4);
      ZeroOr(d);
    }
  }

  lemma FourAndEight()
    ensures Pow2(4) == 16 && Pow2(8) == 256
  {
    assert Pow2(2) == 4 && Pow2(6) == 64;
  }

  /** Bound on the number after `i` digits of a \u escape. */
  function UnitBound(i: nat): nat {
    if i == 0 then 1 else if i == 1 then 0x100 else if i == 2 then 0x1000 else if i == 3 then 0x1_0000 else 0x10_0000
  }

  lemma ShiftBound(num: nat, d: nat, i: nat)
    requires i < 4 && d < 256 && num < UnitBound(i)
    ensures ShiftIn(num, d) < UnitBound(i + 1)
  {
  }

  /** The loop over the last `n` of four digits: number and last position. */
  function HexRun(rest: string, num: nat, n: nat): (r: (nat, string))
    requires n <= 4 && num < UnitBound(4 - n)
    ensures r.0 < 0x11_0000 && |r.1| <= |rest|
    decreases n
  {
    if n == 0 then (num, rest)
    else
      ShiftBound(num, HexNibble(Cur(Next(rest))), 4 - n);
      HexRun(Next(rest), ShiftIn(num, HexNibble(Cur(Next(rest)))), n - 1)
  }

  /** vstr_add_char. */
  function Utf8(c: nat): string
    requires c < 0x11_0000
  {
    var c6 := c / 64;
    var c12 := c6 / 64;
    if c < 0x80 then [c as char]
    else if c < 0x800 then [(c6 + 0xC0) as char, (c % 64 + 0x80) as char]
    else if c < 0x1_0000 then [(c12 + 0xE0) as char, (c6 % 64 + 0x80) as char, (c % 64 + 0x80) as char]
    else [(c12 / 64 + 0xF0) as char, (c12 % 64 + 0x80) as char, (c6 % 64 + 0x80) as char, (c % 64 + 0x80) as char]
  }

  function Unescape(c: char): char {
    if c == 'b' then 8 as char else if c == 'f' then 12 as char else if c == 'n' then 10 as char
    else if c == 'r' then 13 as char else if c == 't' then 9 as char else c
  }

  /** The string loop: contents and the stream behind the closing quote. */
  function ScanString(rest: string, acc: string): Option<(string, string)>
    decreases |rest|
  {
    if Cur(rest) == EOF then None
    else if rest[0] == '"' then Some((acc, rest[1..]))
    else if rest[0] != '\\' then ScanString(rest[1..], acc + [rest[0]])
    else
      var r1 := rest[1..];
      if Cur(r1) != 'u' then ScanString(Next(r1), acc + [Unescape(Cur(r1))])
      else
        var (num, r5) := HexRun(r1, 0, 4);
        ScanString(Next(r5), acc + Utf8(num))
  }

  /** The number loop: the longest run of number characters. */
  function ScanNumber(rest: string, acc: string): (r: (string, string))
    ensures |r.1| <= |rest|
  {
    if rest != "" && IsNumberChar(rest[0]) then ScanNumber(rest[1..], acc + [rest[0]]) else (acc, rest)
  }

  /** Whether the float conversion is chosen. */
  predicate LooksFloat(s: string) {
    exists i :: 0 < i < |s| && (s[i] == '.' || s[i] == 'E' || s[i] == 'e')
  }

  // ----- One round of the loader

  datatype Token =
    | End
    | Skip(rest: string)
    | Scalar(prim: Prim, rest: string)
    | Open(isDict: bool, rest: string)
    | Close(rest: string)
    | Bad

  function Keyword(rest: string, word: string, prim: Prim): Token {
    if word <= rest then Scalar(prim, rest[|word|..]) else Bad
  }

  function Lex(rest: string): Token {
    var c := Cur(rest);
    if c == EOF then End
    else if IsSkipped(c) then Skip(rest[1..])
    else if c == 'n' then Keyword(rest, "null", Null)
    else if c == 'f' then Keyword(rest, "false", Bool(false))
    else if c == 't' then Keyword(rest, "true", Bool(true))
    else if c == '"' then
      match ScanString(rest[1..], "")
      case None => Bad
      case Some((s, r)) => Scalar(Str(s), r)
    else if c == '-' || IsDigit(c) then
      var (s, r) := ScanNumber(rest[1..], [c]);
      Scalar(Num(s, LooksFloat(s)), r)
    else if c == '[' then Open(false, rest[1..])
    else if c == '{' then Open(true, rest[1..])
    else if c == ']' || c == '}' then Close(rest[1..])
    else Bad
  }

  lemma {:induction false} ScanStringShrinks(rest: string, acc: string)
    ensures var r := ScanString(rest, acc); r.Some? ==> |r.value.1| < |rest|
    decreases |rest|
  {
    if Cur(rest) != EOF && rest[0] != '"' {
      if rest[0] != '\\' {
        ScanStringShrinks(rest[1..], acc + [rest[0]]);
      } else {
        var r1 := rest[1..];
        if Cur(r1) != 'u' {
          ScanStringShrinks(Next(r1), acc + [Unescape(Cur(r1))]);
        } else {
          var (num, r5) := HexRun(r1, 0, 4);
          ScanStringShrinks(Next(r5), acc + Utf8(num));
        }
      }
    }
  }

  lemma LexShrinks(rest: string)
    ensures var t := Lex(rest); !t.End? && !t.Bad? ==> |t.rest| < |rest|
  {
    if rest != "" {
      ScanStringShrinks(rest[1..], "");
    }
  }

  /** The variables of mod_ujson_load: objects so far, stack of open containers
      below the top one, stack_top and stack_key. */
  datatype State = State(heap: Heap, stack: seq<nat>, top: Option<Value>, key: Option<Prim>)

  datatype Round = Again(s: State) | Success(s: State) | Fail

  const START := State([], [], None, None)

  /** Link `v` into the container at `a`: append, or store under the key. */
  function Attach(heap: Heap, a: nat, key: Option<Prim>, v: Value): (h: Heap)
    requires a < |heap| && (heap[a].Dict? ==> key.Some?)
    ensures |h| == |heap|
  {
    match heap[a]
    case List(items) => heap[a := List(items + [v])]
    case Dict(entries) => heap[a := Dict(entries[key.value := v])]
  }

  /** stack_top and the stack only ever name containers. */
  predicate Sane(s: State) {
    && (s.top.Some? ==> s.top.value.Ref? && s.top.value.addr < |s.heap|)
    && (forall i :: 0 <= i < |s.stack| ==> s.stack[i] < |s.heap|)
    && (s.top.None? ==> s.stack == [])
  }

  function PutScalar(s: State, p: Prim): Round
    requires Sane(s)
  {
    if s.top.None? then Success(s.(top := Some(P(p))))
    else
      var a := s.top.value.addr;
      if s.heap[a].List? then Again(s.(heap := Attach(s.heap, a, s.key, P(p))))
      else if s.key.None? then Again(s.(key := Some(p)))
      else Again(s.(heap := Attach(s.heap, a, s.key, P(p)), key := None))
  }

  function Empty(isDict: bool): Container {
    if isDict then Dict(map[]) else List([])
  }

  function Enter(s: State, isDict: bool): Round
    requires Sane(s)
  {
    var child := |s.heap|;
    var h := s.heap + [Empty(isDict)];
    if s.top.None? then Again(s.(heap := h, top := Some(Ref(child))))
    else
      var a := s.top.value.addr;
      if s.heap[a].List? then
        Again(s.(heap := Attach(h, a, s.key, Ref(child)), stack := s.stack + [a], top := Some(Ref(child))))
      else if s.key.None? then Fail
      else
        Again(State(Attach(h, a, s.key, Ref(child)), s.stack + [a], Some(Ref(child)), None))
  }

  function Leave(s: State): Round
    requires Sane(s)
  {
    if s.top.None? then Fail
    else if s.stack == [] then Success(s)
    else Again(s.(stack := s.stack[..|s.stack| - 1], top := Some(Ref(s.stack[|s.stack| - 1]))))
  }

  datatype Result = Loaded(heap: Heap, root: Value) | SyntaxError

  function SkipSpace(rest: string): string {
    if rest != "" && IsSpace(rest[0]) then SkipSpace(rest[1..]) else rest
  }

  /** The code behind the label `success`. */
  function Finish(rest: string, s: State): Result {
    if Cur(SkipSpace(rest)) != EOF then SyntaxError
    else if s.top.None? || s.stack != [] then SyntaxError
    else Loaded(s.heap, s.top.value)
  }

  function Apply(t: Token, s: State): Round
    requires Sane(s) && !t.End?
  {
    match t
    case Skip(_) => Again(s)
    case Scalar(p, _) => PutScalar(s, p)
    case Open(isDict, _) => Enter(s, isDict)
    case Close(_) => Leave(s)
    case Bad => Fail
  }

  /** The main loop from state `s` on the stream `rest`. */
  function Run(rest: string, s: State): Result
    requires Sane(s)
    decreases |rest|
  {
    var t := Lex(rest);
    LexShrinks(rest);
    if t.End? then Finish(rest, s)
    else match Apply(t, s)
      case Fail => SyntaxError
      case Success(s') => Finish(t.rest, s')
      case Again(s') => Run(t.rest, s')
  }
}
