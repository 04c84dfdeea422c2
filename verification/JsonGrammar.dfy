/** The recursive grammar of section 2 of RFC 4627 as concrete syntax trees:
    a tree records a value together with every choice its text makes
    (whitespace, escapes), so "for every tree" is "for every valid text". */
module JsonGrammar {
  import opened Json
  import opened Wrappers

  datatype Chr = Plain(c: char) | Escape(letter: char) | Unicode(h1: char, h2: char, h3: char, h4: char)

  datatype Cst =
    | CNull
    | CTrue
    | CFalse
    | CNum(lexeme: string)
    | CStr(chars: seq<Chr>)
    | CList(pad: string, elems: seq<Elem>)
    | CObj(pad: string, members: seq<Member>)

  /** `pre value post`. */
  datatype Elem = Elem(pre: string, value: Cst, post: string)

  /** `pre "key" mid : gap value post`. */
  datatype Member = Member(pre: string, key: seq<Chr>, mid: string, gap: string, value: Cst, post: string)

  datatype Doc = Doc(pre: string, value: Cst, post: string)

  // ----- Validity

  predicate IsWs(c: char) { c == ' ' || c == '\t' || c == '\n' || c == '\r' }

  predicate Ws(s: string) { forall i :: 0 <= i < |s| ==> IsWs(s[i]) }

  predicate IsHex(c: char) { '0' <= c <= '9' || 'a' <= c <= 'f' || 'A' <= c <= 'F' }

  function HexValue(c: char): (n: nat)
    requires IsHex(c)
    ensures n < 16
  {
    if '0' <= c <= '9' then c as int - '0' as int
    else if 'a' <= c <= 'f' then c as int - 'a' as int + 10
    else c as int - 'A' as int + 10
  }

  function CodePoint(h1: char, h2: char, h3: char, h4: char): (n: nat)
    requires IsHex(h1) && IsHex(h2) && IsHex(h3) && IsHex(h4)
    ensures n < 0x1_0000
  {
    ((HexValue(h1) * 16 + HexValue(h2)) * 16 + HexValue(h3)) * 16 + HexValue(h4)
  }

  /** The two-character escapes of section 2.5: quotation mark, reverse solidus,
      solidus, backspace, form feed, line feed, carriage return, tab. */
  const ESCAPES: map<char, int> := map[
    '"' := 0x22, '\\' := 0x5C, '/' := 0x2F, 'b' := 0x08, 'f' := 0x0C, 'n' := 0x0A, 'r' := 0x0D, 't' := 0x09]

  lemma UnescapeTable(l: char)
    requires l in ESCAPES
    ensures Unescape(l) as int == ESCAPES[l]
  {
  }

  /** Any unescaped byte, any escape of the grammar; no surrogate halves. */
  predicate ValidChr(ch: Chr) {
    match ch
    case Plain(c) => 0x20 <= c as int < 0x100 && c != '"' && c != '\\'
    case Escape(l) => l in ESCAPES
    case Unicode(h1, h2, h3, h4) =>
      IsHex(h1) && IsHex(h2) && IsHex(h3) && IsHex(h4) && !(0xD800 <= CodePoint(h1, h2, h3, h4) < 0xE000)
  }

  predicate ValidChars(cs: seq<Chr>) { forall i :: 0 <= i < |cs| ==> ValidChr(cs[i]) }

  predicate IsNumeric(c: char) { '0' <= c <= '9' || c == '.' || c == 'e' || c == 'E' || c == '+' || c == '-' }

  predicate Numeric(s: string) { forall i :: 0 <= i < |s| ==> IsNumeric(s[i]) }

  /** A superset of the number syntax of the grammar. */
  predicate ValidNumber(s: string) { s != "" && (s[0] == '-' || '0' <= s[0] <= '9') && Numeric(s) }

  /** A decimal point or an exponent mark. */
  predicate HasFloatMark(s: string) { '.' in s || 'e' in s || 'E' in s }

  /** The loader does not look at the first character, which is no mark. */
  lemma FloatMark(s: string)
    requires ValidNumber(s)
    ensures LooksFloat(s) <==> HasFloatMark(s)
  {
    if HasFloatMark(s) {
      var i :| 0 <= i < |s| && s[i] in ".eE";
      assert i > 0;
    }
  }

  // ----- Numbers (section 2.4)

  datatype Exponent = Exponent(mark: char, sign: string, digits: string)

  datatype Numeral = Numeral(minus: bool, whole: string, frac: Option<string>, exp: Option<Exponent>)

  predicate Digits(s: string) { s != "" && forall i :: 0 <= i < |s| ==> '0' <= s[i] <= '9' }

  predicate ValidNumeral(n: Numeral) {
    && Digits(n.whole) && (n.whole[0] == '0' ==> |n.whole| == 1)
    && (n.frac.Some? ==> Digits(n.frac.value))
    && (n.exp.Some? ==> n.exp.value.mark in "eE" && n.exp.value.sign in {"", "+", "-"} && Digits(n.exp.value.digits))
  }

  function FracText(f: Option<string>): string {
    match f case None => "" case Some(d) => "." + d
  }

  function ExpText(e: Option<Exponent>): string {
    match e case None => "" case Some(x) => [x.mark] + x.sign + x.digits
  }

  function NumeralText(n: Numeral): string {
    (if n.minus then "-" else "") + n.whole + FracText(n.frac) + ExpText(n.exp)
  }

  /** Every number of the grammar is covered, and it counts as a float exactly
      if it has a fraction or an exponent. */
  lemma NumeralKind(n: Numeral)
    requires ValidNumeral(n)
    ensures ValidNumber(NumeralText(n))
    ensures HasFloatMark(NumeralText(n)) <==> n.frac.Some? || n.exp.Some?
  {
    hide Numeric, HasFloatMark, FracText, ExpText, Digits;
    var sign := if n.minus then "-" else "";
    SignKind(sign);
    DigitsKind(n.whole);
    FracKind(n);
    ExpKind(n);
    Joined(sign, n.whole);
    Joined(sign + n.whole, FracText(n.frac));
    Joined(sign + n.whole + FracText(n.frac), ExpText(n.exp));
  }

  lemma Joined(a: string, b: string)
    ensures Numeric(a + b) <==> Numeric(a) && Numeric(b)
    ensures HasFloatMark(a + b) <==> HasFloatMark(a) || HasFloatMark(b)
  {
    hide IsNumeric;
    if Numeric(a + b) {
      forall i | 0 <= i < |a| ensures IsNumeric(a[i]) { assert (a + b)[i] == a[i]; }
      forall i | 0 <= i < |b| ensures IsNumeric(b[i]) { assert (a + b)[|a| + i] == b[i]; }
    }
  }

  lemma SignKind(sign: string)
    requires sign in {"", "+", "-"}
    ensures Numeric(sign) && !HasFloatMark(sign)
  {
  }

  lemma DigitsKind(d: string)
    requires Digits(d)
    ensures Numeric(d) && !HasFloatMark(d) && d != "" && '0' <= d[0] <= '9'
  {
  }

  lemma FracKind(n: Numeral)
    requires ValidNumeral(n)
    ensures Numeric(FracText(n.frac)) && (HasFloatMark(FracText(n.frac)) <==> n.frac.Some?)
  {
    if n.frac.Some? {
      DigitsKind(n.frac.value);
      assert "."[0] == '.' && Numeric(".") && HasFloatMark(".");
      Joined(".", n.frac.value);
    }
  }

  lemma ExpKind(n: Numeral)
    requires ValidNumeral(n)
    ensures Numeric(ExpText(n.exp)) && (HasFloatMark(ExpText(n.exp)) <==> n.exp.Some?)
  {
    hide Digits;
    if n.exp.Some? {
      var x := n.exp.value;
      assert [x.mark][0] == x.mark && Numeric([x.mark]) && HasFloatMark([x.mark]);
      SignKind(x.sign);
      DigitsKind(x.digits);
      Joined([x.mark], x.sign);
      Joined([x.mark] + x.sign, x.digits);
    }
  }

  predicate Valid(c: Cst) {
    match c
    case CNull => true
    case CTrue => true
    case CFalse => true
    case CNum(s) => ValidNumber(s)
    case CStr(cs) => ValidChars(cs)
    case CList(pad, es) =>
      Ws(pad) && forall i :: 0 <= i < |es| ==> Ws(es[i].pre) && Ws(es[i].post) && Valid(es[i].value)
    case CObj(pad, ms) => Ws(pad) && forall i :: 0 <= i < |ms| ==>
        && Ws(ms[i].pre) && ValidChars(ms[i].key) && Ws(ms[i].mid) && Ws(ms[i].gap) && Ws(ms[i].post)
        && Valid(ms[i].value)
  }

  predicate ValidDoc(d: Doc) { Ws(d.pre) && Valid(d.value) && Ws(d.post) }

  // ----- Text

  function ChrText(ch: Chr): string {
    match ch
    case Plain(c) => [c]
    case Escape(l) => ['\\', l]
    case Unicode(h1, h2, h3, h4) => ['\\', 'u', h1, h2, h3, h4]
  }

  function CharsText(cs: seq<Chr>): string {
    if cs == [] then "" else ChrText(cs[0]) + CharsText(cs[1..])
  }

  function Quoted(cs: seq<Chr>): string {
    "\"" + CharsText(cs) + "\""
  }

  function Text(c: Cst): string {
    match c
    case CNull => "null"
    case CTrue => "true"
    case CFalse => "false"
    case CNum(s) => s
    case CStr(cs) => Quoted(cs)
    case CList(pad, es) => "[" + (if es == [] then pad else ElemsText(es)) + "]"
    case CObj(pad, ms) => "{" + (if ms == [] then pad else MembersText(ms)) + "}"
  }

  function ElemsText(es: seq<Elem>): string
    requires es != []
  {
    es[0].pre + (Text(es[0].value) + (es[0].post + if |es| == 1 then "" else "," + ElemsText(es[1..])))
  }

  function MembersText(ms: seq<Member>): string
    requires ms != []
  {
    ms[0].pre + (Quoted(ms[0].key) + (ms[0].mid + (":" + (ms[0].gap + (Text(ms[0].value) + (ms[0].post
    + if |ms| == 1 then "" else "," + MembersText(ms[1..])))))))
  }

  function DocText(d: Doc): string {
    d.pre + Text(d.value) + d.post
  }

  // ----- Meaning

  /** The Python value of a text. */
  datatype Py = Atom(prim: Prim) | PyList(items: seq<Py>) | PyDict(entries: map<Prim, Py>)

  function EscapeChar(l: char): char
    requires l in ESCAPES
  {
    assert 0 <= ESCAPES[l] < 0x80;
    ESCAPES[l] as char
  }

  function ChrMeaning(ch: Chr): string
    requires ValidChr(ch)
  {
    match ch
    case Plain(c) => [c]
    case Escape(l) => [EscapeChar(l)]
    case Unicode(h1, h2, h3, h4) => Utf8(CodePoint(h1, h2, h3, h4))
  }

  function CharsMeaning(cs: seq<Chr>): string
    requires ValidChars(cs)
  {
    if cs == [] then "" else ChrMeaning(cs[0]) + CharsMeaning(cs[1..])
  }

  function Meaning(c: Cst): Py
    requires Valid(c)
  {
    match c
    case CNull => Atom(Null)
    case CTrue => Atom(Bool(true))
    case CFalse => Atom(Bool(false))
    case CNum(s) => Atom(Num(s, HasFloatMark(s)))
    case CStr(cs) => Atom(Str(CharsMeaning(cs)))
    case CList(_, es) => PyList(ElemsMeaning(es))
    case CObj(_, ms) => PyDict(MembersMeaning(ms, map[]))
  }

  function ElemsMeaning(es: seq<Elem>): seq<Py>
    requires forall i :: 0 <= i < |es| ==> Valid(es[i].value)
  {
    if es == [] then [] else [Meaning(es[0].value)] + ElemsMeaning(es[1..])
  }

  /** Members from left to right: the last of equal keys wins. */
  function MembersMeaning(ms: seq<Member>, acc: map<Prim, Py>): map<Prim, Py>
    requires forall i :: 0 <= i < |ms| ==> Valid(ms[i].value) && ValidChars(ms[i].key)
    decreases ms
  {
    if ms == [] then acc
    else MembersMeaning(ms[1..], acc[Str(CharsMeaning(ms[0].key)) := Meaning(ms[0].value)])
  }

  // ----- UTF-8 (section 3 of RFC 3629), read back

  predicate Tail(c: char) { 0x80 <= c as int < 0xC0 }

  /** The number an octet sequence stands for, in its shortest form only. */
  function Utf8Value(s: string): Option<nat> {
    if |s| == 1 && s[0] as int < 0x80 then Some(s[0] as int)
    else if |s| == 2 && 0xC0 <= s[0] as int < 0xE0 && Tail(s[1]) then
      AtLeast(0x80, (s[0] as int % 32) * 64 + s[1] as int % 64)
    else if |s| == 3 && 0xE0 <= s[0] as int < 0xF0 && Tail(s[1]) && Tail(s[2]) then
      AtLeast(0x800, (s[0] as int % 16) * 4096 + (s[1] as int % 64) * 64 + s[2] as int % 64)
    else if |s| == 4 && 0xF0 <= s[0] as int < 0xF8 && Tail(s[1]) && Tail(s[2]) && Tail(s[3]) then
      AtLeast(0x1_0000,
        (s[0] as int % 8) * 262144 + (s[1] as int % 64) * 4096 + (s[2] as int % 64) * 64 + s[3] as int % 64)
    else None
  }

  function AtLeast(low: nat, n: nat): Option<nat> {
    if low <= n then Some(n) else None
  }

  lemma Utf8RoundTrip(c: nat)
    requires c < 0x11_0000
    ensures Utf8Value(Utf8(c)) == Some(c)
  {
    if c >= 0x1_0000 {
      FourOctets(c);
    } else if c >= 0x800 {
      ThreeOctets(c);
    } else if c >= 0x80 {
      TwoOctets(c);
    }
  }

  lemma TwoOctets(c: nat)
    requires 0x80 <= c < 0x800
    ensures Utf8Value(Utf8(c)) == Some(c)
  {
  }

  lemma ThreeOctets(c: nat)
    requires 0x800 <= c < 0x1_0000
    ensures Utf8Value(Utf8(c)) == Some(c)
  {
    ThreeParts(c);
    var c6 := c / 64;
    ThreeDigits(c6 / 64, c6 % 64, c % 64);
  }

  lemma ThreeParts(c: nat)
    requires c < 0x1_0000
    ensures c == (c / 64 / 64 * 64 + c / 64 % 64) * 64 + c % 64 && c / 64 / 64 < 16
  {
  }

  lemma ThreeDigits(d2: nat, d1: nat, d0: nat)
    requires d2 < 16 && d1 < 64 && d0 < 64
    ensures (d2 + 0xE0) % 16 * 4096 + (d1 + 0x80) % 64 * 64 + (d0 + 0x80) % 64 == (d2 * 64 + d1) * 64 + d0
  {
  }

  lemma FourOctets(c: nat)
    requires 0x1_0000 <= c < 0x11_0000
    ensures Utf8Value(Utf8(c)) == Some(c)
  {
    var c6 := c / 64;
    var c12 := c6 / 64;
    FourDigits(c12 / 64, c12 % 64, c6 % 64, c % 64);
    assert c12 / 64 <= 4;
  }

  lemma FourDigits(d3: nat, d2: nat, d1: nat, d0: nat)
    requires d3 <= 4 && d2 < 64 && d1 < 64 && d0 < 64
    ensures (d3 + 0xF0) % 8 * 262144 + (d2 + 0x80) % 64 * 4096 + (d1 + 0x80) % 64 * 64 + (d0 + 0x80) % 64
      == ((d3 * 64 + d2) * 64 + d1) * 64 + d0
  {
  }
}
