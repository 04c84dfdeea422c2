/** Base64 in extmod/modubinascii.c: b2a_base64 and a2b_base64. */
module Base64 {
  import opened Arith
  import opened Bits
  import opened Seqs
  import opened Bytes

  const WORD: nat := 0x1_0000_0000
  const PAD: Byte := 61
  const NEWLINE: Byte := 10

  // ----- The alphabet

  /** mod_binascii_sextet. */
  function Sextet(ch: Byte): (v: int)
    ensures -1 <= v < 64
  {
    if 65 <= ch <= 90 then ch - 65
    else if 97 <= ch <= 122 then ch - 97 + 26
    else if 48 <= ch <= 57 then ch - 48 + 52
    else if ch == 43 then 62
    else if ch == 47 then 63
    else -1
  }

  /** The second pass of b2a_base64 on one value. */
  function Ascii(v: Byte): Byte {
    if v < 26 then v + 65
    else if v < 52 then v + 97 - 26
    else if v < 62 then v + 48 - 52
    else if v == 62 then 43
    else if v == 63 then 47
    else PAD
  }

  /** Table 1 in section 4 of RFC 4648, the character of value 0 first. */
  const ALPHABET: string := UPPER + LOWER + OTHERS
  const UPPER := "ABCDEFGHIJKLMNOPQRSTUVWXYZ"
  const LOWER := "abcdefghijklmnopqrstuvwxyz"
  const OTHERS := "0123456789+/"

  /** Values become the characters of the table, '=' for padding, and back. */
  lemma AsciiSextet(v: Byte)
    ensures Sextet(Ascii(v)) == if v < 64 then v else -1
    ensures |ALPHABET| == 64 && (v < 64 ==> Ascii(v) == ALPHABET[v] as int)
    ensures v >= 64 ==> Ascii(v) == '=' as int
  {
    hide UPPER, LOWER, OTHERS;
    TableEntry(if v < 64 then v else 0);
  }

  lemma TableEntry(v: nat)
    requires v < 64
    ensures |ALPHABET| == 64 && Ascii(v) == ALPHABET[v] as int
  {
    hide UPPER, LOWER, OTHERS;
    UpperEntry(if v < 26 then v else 0);
    LowerEntry(if 26 <= v < 52 then v - 26 else 0);
    OtherEntry(if 52 <= v then v - 52 else 0);
  }

  lemma UpperEntry(v: nat)
    requires v < 26
    ensures |UPPER| == 26 && UPPER[v] as int == v + 65
  {
    assert v in {0, 1, 2, 3, 4, 5, 6, 7, 8, 9, 10, 11, 12, 13, 14, 15, 16, 17, 18, 19, 20, 21, 22, 23, 24, 25};
  }

  lemma LowerEntry(v: nat)
    requires v < 26
    ensures |LOWER| == 26 && LOWER[v] as int == v + 97
  {
    assert v in {0, 1, 2, 3, 4, 5, 6, 7, 8, 9, 10, 11, 12, 13, 14, 15, 16, 17, 18, 19, 20, 21, 22, 23, 24, 25};
  }

  lemma OtherEntry(v: nat)
    requires v < 12
    ensures |OTHERS| == 12 && OTHERS[v] as int == if v < 10 then v + 48 else if v == 10 then 43 else 47
  {
    assert v in {0, 1, 2, 3, 4, 5, 6, 7, 8, 9, 10, 11};
  }

  /** Only the characters of the table have a value. */
  lemma SextetTable(ch: Byte)
    ensures |ALPHABET| == 64 && (Sextet(ch) >= 0 ==> ALPHABET[Sextet(ch)] as int == ch)
    ensures Sextet(ch) == -1 ==> ch as char !in ALPHABET
  {
    hide UPPER, LOWER, OTHERS;
    if Sextet(ch) >= 0 {
      TableEntry(Sextet(ch));
    }
    TableEntry(0);
    if ch as char in ALPHABET {
      var v :| 0 <= v < |ALPHABET| && ALPHABET[v] == ch as char;
      TableEntry(v);
    }
  }

  // ----- Encoding

  /** The base 64 values of the data; 64 stands for padding. */
  function Sextets(d: seq<Byte>): (r: seq<Byte>)
    ensures |r| == (|d| + 2) / 3 * 4
    decreases |d|
  {
    if |d| >= 3 then Group3(d[0], d[1], d[2]) + Sextets(d[3..])
    else if |d| == 2 then Group2(d[0], d[1])
    else if |d| == 1 then Group1(d[0])
    else []
  }

  function Group3(a: Byte, b: Byte, c: Byte): (r: seq<Byte>)
    ensures |r| == 4
  {
    [a / 4, a % 4 * 16 + b / 16, b % 16 * 4 + c / 64, c % 64]
  }

  function Group2(a: Byte, b: Byte): (r: seq<Byte>)
    ensures |r| == 4
  {
    [a / 4, a % 4 * 16 + b / 16, b % 16 * 4, 64]
  }

  function Group1(a: Byte): (r: seq<Byte>)
    ensures |r| == 4
  {
    [a / 4, a % 4 * 16, 64, 64]
  }

  function Letters(s: seq<Byte>): (r: seq<Byte>)
    ensures |r| == |s| && forall i :: 0 <= i < |s| ==> r[i] == Ascii(s[i])
  {
    if s == [] then [] else [Ascii(s[0])] + Letters(s[1..])
  }

  function Encoded(d: seq<Byte>): seq<Byte> { Letters(Sextets(d)) + [NEWLINE] }

  // ----- Decoding

  /** The loop variables of a2b_base64; `stop` after a complete padding. */
  datatype Scan = Scan(shift: nat, nbits: nat, hadpad: bool, out: seq<Byte>, stop: bool)

  const START := Scan(0, 0, false, [], false)

  /** What a sextet adds. */
  function Take(s: Scan, v: nat): Scan {
    var shift := (s.shift * 64 + v) % WORD;
    var nbits := s.nbits + 6;
    if nbits >= 8 then Scan(shift, nbits - 8, false, s.out + [Low(shift, nbits - 8)], s.stop)
    else Scan(shift, nbits, false, s.out, s.stop)
  }

  /** (shift >> n) & 0xFF. */
  function Low(shift: nat, n: nat): Byte { shift / Pow2(n) % 256 }

  function Step(s: Scan, ch: Byte): Scan {
    if s.stop then s
    else if ch == PAD then
      if s.nbits == 2 || (s.nbits == 4 && s.hadpad) then s.(nbits := 0, stop := true) else s.(hadpad := true)
    else if Sextet(ch) < 0 then s
    else Take(s, Sextet(ch))
  }

  function ScanAll(s: Scan, text: seq<Byte>): Scan
    decreases |text|
  {
    if text == [] then s else ScanAll(Step(s, text[0]), text[1..])
  }

  datatype Result = Ok(data: seq<Byte>) | IncorrectPadding

  function Decoded(text: seq<Byte>): Result {
    var s := ScanAll(START, text);
    if s.nbits != 0 then IncorrectPadding else Ok(s.out)
  }

  // ----- Skipped characters

  predicate Skipped(ch: Byte) { ch != PAD && Sextet(ch) < 0 }

  function Without(text: seq<Byte>): seq<Byte> {
    if text == [] then []
    else if Skipped(text[0]) then Without(text[1..])
    else [text[0]] + Without(text[1..])
  }

  /** Characters outside the alphabet never matter. */
  lemma {:induction false} SkippedIrrelevant(s: Scan, text: seq<Byte>)
    ensures ScanAll(s, text) == ScanAll(s, Without(text))
    decreases |text|
  {
    hide Take, Sextet;
    if text != [] {
      SkippedIrrelevant(Step(s, text[0]), text[1..]);
      if !Skipped(text[0]) {
        var w := Without(text);
        assert w[0] == text[0] && w[1..] == Without(text[1..]);
      }
    }
  }

  // ----- Round trip

  lemma {:induction false} ScanAppend(s: Scan, a: seq<Byte>, b: seq<Byte>)
    ensures ScanAll(s, a + b) == ScanAll(ScanAll(s, a), b)
    decreases |a|
  {
    if a == [] {
      assert a + b == b;
    } else {
      assert (a + b)[1..] == a[1..] + b;
      ScanAppend(Step(s, a[0]), a[1..], b);
    }
  }

  lemma Part16(h: nat, v: nat)
    requires v < 64
    ensures (64 * h + v) / 16 % 256 == h % 64 * 4 + v / 16
  {
    var a := v / 16;
    DivMod(4 * h + a, 16, v % 16);
    assert v % 16 + 16 * (4 * h + a) == 64 * h + v;
    DivMod(h / 64, 256, h % 64 * 4 + a);
    assert h % 64 * 4 + a + 256 * (h / 64) == 4 * h + a;
  }

  lemma Part4(h: nat, v: nat)
    requires v < 64
    ensures (64 * h + v) / 4 % 256 == h % 16 * 16 + v / 4
  {
    var a := v / 4;
    DivMod(16 * h + a, 4, v % 4);
    assert v % 4 + 4 * (16 * h + a) == 64 * h + v;
    DivMod(h / 16, 256, h % 16 * 16 + a);
    assert h % 16 * 16 + a + 256 * (h / 16) == 16 * h + a;
  }

  lemma Part1(h: nat, v: nat)
    requires v < 64
    ensures (64 * h + v) % 256 == h % 4 * 64 + v
  {
    DivMod(h / 4, 256, h % 4 * 64 + v);
    assert h % 4 * 64 + v + 256 * (h / 4) == 64 * h + v;
  }

  /** A word keeps the low bits of what is shifted through it. */
  lemma WordLow(shift: nat, v: nat)
    requires v < 64
    ensures var t := (shift * 64 + v) % WORD;
      t == 64 * (t / 64) + v && t / 64 == shift % 67108864
  {
    var q, h := shift / 67108864, shift % 67108864;
    assert shift * 64 + v == (64 * h + v) + WORD * q;
    DivMod(q, WORD, 64 * h + v);
    DivMod(h, 64, v);
  }

  lemma ModMod(shift: nat)
    ensures shift % 67108864 % 64 == shift % 64
    ensures shift % 67108864 % 16 == shift % 16
    ensures shift % 67108864 % 4 == shift % 4
  {
    var q, h := shift / 67108864, shift % 67108864;
    assert shift == h + 67108864 * q;
    DivMod(h / 64 + 1048576 * q, 64, h % 64);
    assert shift == h % 64 + 64 * (h / 64 + 1048576 * q);
    DivMod(h / 16 + 4194304 * q, 16, h % 16);
    assert shift == h % 16 + 16 * (h / 16 + 4194304 * q);
    DivMod(h / 4 + 16777216 * q, 4, h % 4);
    assert shift == h % 4 + 4 * (h / 4 + 16777216 * q);
  }

  /** What a sextet leaves behind, whatever was shifted out before. */
  lemma TakeLow(shift: nat, v: nat)
    requires v < 64
    ensures var t := (shift * 64 + v) % WORD;
      && t % 64 == v
      && t / 16 % 256 == shift % 64 * 4 + v / 16
      && t / 4 % 256 == shift % 16 * 16 + v / 4
      && t % 256 == shift % 4 * 64 + v
  {
    WordLow(shift, v);
    ModMod(shift);
    var t := (shift * 64 + v) % WORD;
    var h := t / 64;
    Part16(h, v);
    Part4(h, v);
    Part1(h, v);
  }

  lemma Pow2Small()
    ensures Pow2(0) == 1 && Pow2(2) == 4 && Pow2(4) == 16
  {
    assert Pow2(1) == 2 && Pow2(3) == 8;
  }

  /** The four sextets of a group, with 0, 6, 4 and 2 bits waiting. */
  lemma TakeOne(s: Scan, v: nat)
    requires v < 64 && s.nbits in {0, 2, 4, 6}
    ensures var t := Take(s, v);
      && t.shift % 64 == v && !t.hadpad && t.stop == s.stop
      && match s.nbits
         case 0 => t.nbits == 6 && t.out == s.out
         case 6 => t.nbits == 4 && t.out == s.out + [s.shift % 64 * 4 + v / 16]
         case 4 => t.nbits == 2 && t.out == s.out + [s.shift % 16 * 16 + v / 4]
         case _ => t.nbits == 0 && t.out == s.out + [s.shift % 4 * 64 + v]
  {
    TakeLow(s.shift, v);
    Pow2Small();
    hide Pow2;
  }

  /** Digits of the given base as one number, the first one highest. */
  function Number(digits: seq<Byte>, base: nat): nat {
    if digits == [] then 0 else base * Number(digits[..|digits| - 1], base) + digits[|digits| - 1]
  }

  /** The bytes put out and the bits still waiting, as one number. */
  function BitsOf(s: Scan): nat {
    match s.nbits
    case 0 => Number(s.out, 256)
    case 2 => Number(s.out, 256) * 4 + s.shift % 4
    case 4 => Number(s.out, 256) * 16 + s.shift % 16
    case _ => Number(s.out, 256) * 64 + s.shift % 64
  }

  lemma NumberMore(out: seq<Byte>, x: Byte)
    ensures Number(out + [x], 256) == 256 * Number(out, 256) + x
  {
    assert (out + [x])[..|out|] == out;
  }

  lemma TakeBits(s: Scan, v: nat)
    requires v < 64 && s.nbits in {0, 2, 4, 6}
    ensures Take(s, v).nbits in {0, 2, 4, 6} && BitsOf(Take(s, v)) == 64 * BitsOf(s) + v
  {
    hide Take, Number;
    TakeOne(s, v);
    ModAgain(Take(s, v).shift, v);
    var low := match s.nbits case 0 => 0 case 6 => s.shift % 64 * 4 + v / 16 case 4 => s.shift % 16 * 16 + v / 4
      case _ => s.shift % 4 * 64 + v;
    if s.nbits != 0 {
      NumberMore(s.out, low);
    }
  }

  /** Whatever the letters are, their values in base 64 are the bytes put out and
      the bits left over. */
  lemma {:induction false} LettersAreBits(vs: seq<Byte>)
    requires forall i :: 0 <= i < |vs| ==> vs[i] < 64
    ensures var s := ScanAll(START, Letters(vs));
      s.nbits in {0, 2, 4, 6} && !s.stop && BitsOf(s) == Number(vs, 64)
    decreases |vs|
  {
    hide Take, Step, Ascii, Sextet, BitsOf;
    if vs == [] {
      assert BitsOf(START) == 0 by { StartBits(); }
    } else {
      var last := |vs| - 1;
      LettersAreBits(vs[..last]);
      var s := ScanAll(START, Letters(vs[..last]));
      assert Letters(vs) == Letters(vs[..last]) + [Ascii(vs[last])];
      ScanAppend(START, Letters(vs[..last]), [Ascii(vs[last])]);
      ScanOne(s, Ascii(vs[last]));
      StepLetter(s, vs[last]);
      TakeBits(s, vs[last]);
      TakeOne(s, vs[last]);
    }
  }

  lemma StartBits()
    ensures BitsOf(START) == 0
  {
  }

  lemma StepLetter(s: Scan, v: Byte)
    requires v < 64 && !s.stop
    ensures Step(s, Ascii(v)) == Take(s, v)
  {
  }

  lemma {:induction false} ScanFour(s: Scan, a: Byte, b: Byte, c: Byte, d: Byte)
    ensures ScanAll(s, [a, b, c, d]) == Step(Step(Step(Step(s, a), b), c), d)
  {
    hide Step;
    var t := [a, b, c, d];
    assert t[1..] == [b, c, d] && [b, c, d][1..] == [c, d] && [c, d][1..] == [d] && [d][1..] == [];
    assert ScanAll(s, t) == ScanAll(Step(s, a), [b, c, d]);
    assert ScanAll(Step(s, a), [b, c, d]) == ScanAll(Step(Step(s, a), b), [c, d]);
    assert ScanAll(Step(Step(s, a), b), [c, d]) == ScanAll(Step(Step(Step(s, a), b), c), [d]);
    assert ScanAll(Step(Step(Step(s, a), b), c), [d]) == ScanAll(Step(Step(Step(Step(s, a), b), c), d), []);
  }

  /** Between groups. */
  predicate Ready(s: Scan) { s.nbits == 0 && !s.hadpad && !s.stop }

  lemma Rejoin(a: Byte, b: Byte, c: Byte)
    ensures var g := Group3(a, b, c);
      && g[0] < 64 && g[1] < 64 && g[2] < 64 && g[3] < 64
      && g[0] * 4 + g[1] / 16 == a && g[1] % 16 * 16 + g[2] / 4 == b && g[2] % 4 * 64 + g[3] == c
  {
  }

  lemma Rejoin2(a: Byte, b: Byte)
    ensures var g := Group2(a, b);
      && g[0] < 64 && g[1] < 64 && g[2] < 64 && g[3] == 64
      && g[0] * 4 + g[1] / 16 == a && g[1] % 16 * 16 + g[2] / 4 == b
  {
  }

  lemma Rejoin1(a: Byte)
    ensures var g := Group1(a);
      && g[0] < 64 && g[1] < 64 && g[2] == 64 && g[3] == 64 && g[0] * 4 + g[1] / 16 == a
  {
  }

  lemma ModAgain(x: nat, v: nat)
    requires x % 64 == v
    ensures x % 16 == v % 16 && x % 4 == v % 4
  {
    var q := x / 64;
    assert x == v + 64 * q;
    DivMod(v / 16 + 4 * q, 16, v % 16);
    assert x == v % 16 + 16 * (v / 16 + 4 * q);
    DivMod(v / 4 + 16 * q, 4, v % 4);
    assert x == v % 4 + 4 * (v / 4 + 16 * q);
  }

  lemma ScanFirstTwo(s: Scan, v1: Byte, v2: Byte) returns (t: Scan)
    requires Ready(s) && v1 < 64 && v2 < 64
    ensures t == Step(Step(s, Ascii(v1)), Ascii(v2))
    ensures t.nbits == 4 && t.shift % 16 == v2 % 16 && !t.hadpad && !t.stop
    ensures t.out == s.out + [v1 * 4 + v2 / 16]
  {
    hide Take, Step, Ascii, Sextet;
    StepLetter(s, v1);
    TakeOne(s, v1);
    t := Take(s, v1);
    StepLetter(t, v2);
    TakeOne(t, v2);
    t := Take(t, v2);
    ModAgain(t.shift, v2);
  }

  lemma ScanThird(s: Scan, v: Byte) returns (t: Scan)
    requires s.nbits == 4 && !s.stop && v < 64
    ensures t == Step(s, Ascii(v))
    ensures t.nbits == 2 && t.shift % 4 == v % 4 && !t.hadpad && !t.stop
    ensures t.out == s.out + [s.shift % 16 * 16 + v / 4]
  {
    hide Take, Step, Ascii, Sextet;
    StepLetter(s, v);
    TakeOne(s, v);
    t := Take(s, v);
    ModAgain(t.shift, v);
  }

  lemma ScanGroup3(s: Scan, a: Byte, b: Byte, c: Byte)
    requires Ready(s)
    ensures var t := ScanAll(s, Letters(Group3(a, b, c))); Ready(t) && t.out == s.out + [a, b, c]
  {
    hide Step, Take, Ascii, Sextet, ScanAll, Letters, Group3;
    var g := Group3(a, b, c);
    Rejoin(a, b, c);
    LettersFour(g);
    ScanFour(s, Ascii(g[0]), Ascii(g[1]), Ascii(g[2]), Ascii(g[3]));
    var t := ScanFirstTwo(s, g[0], g[1]);
    var u := ScanThird(t, g[2]);
    StepLetter(u, g[3]);
    TakeOne(u, g[3]);
    assert s.out + [a] + [b] + [c] == s.out + [a, b, c];
  }

  lemma LettersFour(g: seq<Byte>)
    requires |g| == 4
    ensures Letters(g) == [Ascii(g[0]), Ascii(g[1]), Ascii(g[2]), Ascii(g[3])]
  {
  }

  lemma PadAt2(s: Scan)
    requires s.nbits == 2 && !s.stop
    ensures Step(s, PAD) == s.(nbits := 0, stop := true)
  {
  }

  lemma PadAt4(s: Scan)
    requires s.nbits == 4 && !s.stop && !s.hadpad
    ensures Step(Step(s, PAD), PAD) == s.(nbits := 0, hadpad := true, stop := true)
  {
  }

  lemma ScanGroup2(s: Scan, a: Byte, b: Byte)
    requires Ready(s)
    ensures var t := ScanAll(s, Letters(Group2(a, b))); t.stop && t.nbits == 0 && t.out == s.out + [a, b]
  {
    var g := Group2(a, b);
    Rejoin2(a, b);
    hide Group2;
    LettersFour(g);
    ScanFour(s, Ascii(g[0]), Ascii(g[1]), Ascii(g[2]), Ascii(g[3]));
    AsciiSextet(64);
    hide Step, Take, Ascii, Sextet, ScanAll, Letters;
    var t := ScanFirstTwo(s, g[0], g[1]);
    var u := ScanThird(t, g[2]);
    PadAt2(u);
    assert s.out + [a] + [b] == s.out + [a, b];
  }

  lemma ScanGroup1(s: Scan, a: Byte)
    requires Ready(s)
    ensures var t := ScanAll(s, Letters(Group1(a))); t.stop && t.nbits == 0 && t.out == s.out + [a]
  {
    var g := Group1(a);
    Rejoin1(a);
    hide Group1;
    LettersFour(g);
    ScanFour(s, Ascii(g[0]), Ascii(g[1]), Ascii(g[2]), Ascii(g[3]));
    AsciiSextet(64);
    hide Step, Take, Ascii, Sextet, ScanAll, Letters;
    var t := ScanFirstTwo(s, g[0], g[1]);
    PadAt4(t);
  }

  lemma {:induction false} LettersAppend(a: seq<Byte>, b: seq<Byte>)
    ensures Letters(a + b) == Letters(a) + Letters(b)
    decreases |a|
  {
  }

  lemma {:induction false} ScanEncoded(s: Scan, d: seq<Byte>)
    requires Ready(s)
    ensures var t := ScanAll(s, Letters(Sextets(d))); t.nbits == 0 && t.out == s.out + d
    decreases |d|
  {
    if |d| >= 3 {
      var g, rest := Group3(d[0], d[1], d[2]), Sextets(d[3..]);
      assert Sextets(d) == g + rest;
      hide Letters, ScanAll, Group3, Sextets;
      LettersAppend(g, rest);
      ScanAppend(s, Letters(g), Letters(rest));
      ScanGroup3(s, d[0], d[1], d[2]);
      ScanEncoded(ScanAll(s, Letters(g)), d[3..]);
      Regroup(s.out, d);
    } else {
      ScanTail(s, d);
    }
  }

  lemma Regroup(out: seq<Byte>, d: seq<Byte>)
    requires |d| >= 3
    ensures out + [d[0], d[1], d[2]] + d[3..] == out + d
  {
  }

  lemma ScanTail(s: Scan, d: seq<Byte>)
    requires Ready(s) && |d| < 3
    ensures var t := ScanAll(s, Letters(Sextets(d))); t.nbits == 0 && t.out == s.out + d
  {
    if |d| == 2 {
      hide Letters, ScanAll, Group2;
      ScanGroup2(s, d[0], d[1]);
      assert d == [d[0], d[1]];
    } else if |d| == 1 {
      hide Letters, ScanAll, Group1;
      ScanGroup1(s, d[0]);
      assert d == [d[0]];
    } else {
      assert s.out + d == s.out;
    }
  }

  /** Decoding undoes encoding, for every byte string. */
  lemma RoundTrip(d: seq<Byte>)
    ensures Decoded(Encoded(d)) == Ok(d)
  {
    hide Letters, Sextets;
    ScanEncoded(START, d);
    ScanAppend(START, Letters(Sextets(d)), [NEWLINE]);
    var t := ScanAll(START, Letters(Sextets(d)));
    assert [NEWLINE][1..] == [];
    assert ScanAll(t, [NEWLINE]) == ScanAll(Step(t, NEWLINE), []);
    assert [] + d == d;
  }

  /** So does decoding any text that differs from it only in skipped characters. */
  lemma RoundTripSkipping(d: seq<Byte>, text: seq<Byte>)
    requires Without(text) == Without(Encoded(d))
    ensures Decoded(text) == Ok(d)
  {
    hide Encoded, ScanAll, Without;
    RoundTrip(d);
    SkippedIrrelevant(START, text);
    SkippedIrrelevant(START, Encoded(d));
  }

  // ----- When decoding fails

  function Letters64(text: seq<Byte>): nat {
    if text == [] then 0
    else (if Sextet(text[|text| - 1]) >= 0 then 1 else 0) + Letters64(text[..|text| - 1])
  }

  /** Six bits a letter: whole bytes are out, the others wait. */
  predicate Counted(s: Scan, n: nat) {
    if s.stop then s.nbits == 0 else s.nbits == 6 * n % 8 && |s.out| == 6 * n / 8
  }

  /** Six bits a letter, eight a byte: they come out even every four letters. */
  lemma SixMod(n: nat)
    ensures 6 * n / 8 == n / 4 * 3 + n % 4 * 6 / 8 && 6 * n % 8 == n % 4 * 6 % 8
  {
    var q, r := n / 4, n % 4;
    assert 6 * n == 8 * (3 * q) + 6 * r;
    DivMod(3 * q + r * 6 / 8, 8, r * 6 % 8);
  }

  lemma NextLetter(n: nat)
    ensures (n + 1) / 4 == (if n % 4 == 3 then n / 4 + 1 else n / 4)
    ensures (n + 1) % 4 == (if n % 4 == 3 then 0 else n % 4 + 1)
  {
  }

  lemma SixMore(n: nat)
    ensures 6 * n % 8 + 6 >= 8 ==> 6 * (n + 1) % 8 == 6 * n % 8 - 2 && 6 * (n + 1) / 8 == 6 * n / 8 + 1
    ensures 6 * n % 8 + 6 < 8 ==> 6 * (n + 1) % 8 == 6 * n % 8 + 6 && 6 * (n + 1) / 8 == 6 * n / 8
  {
    SixMod(n);
    SixMod(n + 1);
    NextLetter(n);
  }

  lemma StepCounts(s: Scan, ch: Byte, n: nat)
    requires Counted(s, n)
    ensures Counted(Step(s, ch), n + if Sextet(ch) >= 0 then 1 else 0)
  {
    PadSextet();
    SixMore(n);
    hide Sextet, Low;
  }

  lemma ScanOne(s: Scan, ch: Byte)
    ensures ScanAll(s, [ch]) == Step(s, ch)
  {
    hide Step;
    assert [ch][1..] == [];
  }

  lemma ScanLast(text: seq<Byte>)
    requires text != []
    ensures ScanAll(START, text) == Step(ScanAll(START, text[..|text| - 1]), text[|text| - 1])
  {
    hide ScanAll, Step;
    var init, ch := text[..|text| - 1], text[|text| - 1];
    ScanAppend(START, init, [ch]);
    assert init + [ch] == text;
    ScanOne(ScanAll(START, init), ch);
  }

  lemma {:induction false} ScanCounts(text: seq<Byte>)
    ensures Counted(ScanAll(START, text), Letters64(text))
    decreases |text|
  {
    if text != [] {
      hide ScanAll, Sextet, Step, Counted;
      var init, ch := text[..|text| - 1], text[|text| - 1];
      ScanCounts(init);
      ScanLast(text);
      StepCounts(ScanAll(START, init), ch, Letters64(init));
    }
  }

  /** A pad stands in the text with no letter after it. */
  predicate PadSince(text: seq<Byte>) {
    text != [] && (text[|text| - 1] == PAD || (Sextet(text[|text| - 1]) < 0 && PadSince(text[..|text| - 1])))
  }

  /** The pad at `i` completes the last group: the second pad after two of its
      letters, or any pad after three. */
  predicate Completes(text: seq<Byte>, i: nat) {
    i < |text| && text[i] == PAD &&
    (Letters64(text[..i]) % 4 == 3 || (Letters64(text[..i]) % 4 == 2 && PadSince(text[..i])))
  }

  ghost predicate Completed(text: seq<Byte>) { exists i: nat :: Completes(text, i) }

  lemma CompletedLast(text: seq<Byte>)
    requires text != []
    ensures Completed(text) <==> Completed(text[..|text| - 1]) || Completes(text, |text| - 1)
  {
    hide Letters64, PadSince;
    var init := text[..|text| - 1];
    forall i: nat | i < |init| ensures Completes(text, i) <==> Completes(init, i) {
      assert text[..i] == init[..i];
    }
    if Completed(init) {
      var i: nat :| Completes(init, i);
      assert Completes(text, i);
    }
  }

  /** What the scan remembers of the text. */
  ghost predicate Remembers(s: Scan, text: seq<Byte>) {
    (s.stop <==> Completed(text)) && (!s.stop ==> (s.hadpad <==> PadSince(text)))
  }

  lemma StepRemembers(s: Scan, text: seq<Byte>)
    requires text != [] && Remembers(s, text[..|text| - 1]) && Counted(s, Letters64(text[..|text| - 1]))
    ensures Remembers(Step(s, text[|text| - 1]), text)
  {
    hide Completed, Sextet, Letters64, Low;
    CompletedLast(text);
    PadSextet();
    SixMod(Letters64(text[..|text| - 1]));
  }

  lemma {:induction false} ScanRemembers(text: seq<Byte>)
    ensures Remembers(ScanAll(START, text), text)
    decreases |text|
  {
    if text != [] {
      hide *;
      ScanRemembers(text[..|text| - 1]);
      ScanCounts(text[..|text| - 1]);
      ScanLast(text);
      StepRemembers(ScanAll(START, text[..|text| - 1]), text);
    }
  }

  /** Decoding fails exactly when no pad completes the text and its letters do
      not come in fours. */
  lemma FailsIffIncomplete(text: seq<Byte>)
    ensures Decoded(text).IncorrectPadding? <==> !Completed(text) && Letters64(text) % 4 != 0
  {
    ScanCounts(text);
    ScanRemembers(text);
    SixMod(Letters64(text));
    hide ScanAll, Completed, Letters64, PadSince;
  }

  // ----- The two functions

  // ----- Room for the output

  /** The bytes mod_binascii_a2b_base64 allocates. */
  function Room(text: seq<Byte>): nat { |text| / 4 * 3 + 1 }

  lemma {:induction false} LettersAtMost(text: seq<Byte>)
    ensures Letters64(text) <= |text|
    decreases |text|
  {
    if text != [] {
      LettersAtMost(text[..|text| - 1]);
    }
  }

  lemma SixMono(m: nat, n: nat)
    requires m <= n
    ensures 6 * m / 8 <= 6 * n / 8
  {
  }

  /** No more bytes than the letters have bits for, padding or not. */
  lemma {:induction false} OutAtMost(text: seq<Byte>)
    ensures |ScanAll(START, text).out| <= 6 * Letters64(text) / 8
    decreases |text|
  {
    if text != [] {
      hide ScanAll, Sextet, Take;
      var init, ch := text[..|text| - 1], text[|text| - 1];
      var s := ScanAll(START, init);
      OutAtMost(init);
      ScanLast(text);
      SixMono(Letters64(init), Letters64(text));
      PadSextet();
      if !s.stop && Sextet(ch) >= 0 {
        ScanCounts(init);
        StepCounts(s, ch, Letters64(init));
      }
    }
  }

  /** A text of letters is scanned to its end. */
  lemma {:induction false} LettersDoNotStop(text: seq<Byte>)
    requires Letters64(text) == |text|
    ensures !ScanAll(START, text).stop
    decreases |text|
  {
    if text != [] {
      hide ScanAll, Sextet, Take;
      LettersAtMost(text[..|text| - 1]);
      LettersDoNotStop(text[..|text| - 1]);
      ScanLast(text);
      PadSextet();
      TakeGoesOn(ScanAll(START, text[..|text| - 1]), Sextet(text[|text| - 1]));
    }
  }

  lemma TakeGoesOn(s: Scan, v: nat)
    ensures Take(s, v).stop == s.stop
  {
  }

  /** The output is longer than the room made for it exactly for texts of letters only whose
      last group has three of them. */
  lemma OutgrowsIff(text: seq<Byte>)
    ensures |ScanAll(START, text).out| > Room(text) <==> |text| % 4 == 3 && Letters64(text) == |text|
  {
    hide ScanAll, Letters64;
    var n, m := |text|, Letters64(text);
    LettersAtMost(text);
    SixMod(n);
    if m == n {
      LettersDoNotStop(text);
      ScanCounts(text);
    } else {
      OutAtMost(text);
      SixMono(m, n - 1);
      SixMod(n - 1);
      NextLetter(n - 1);
    }
  }

  /** Three letters: two bytes for a room of one. */
  lemma ThreeLetters()
    ensures |ScanAll(START, [65, 65, 65]).out| == 2 && Room([65, 65, 65]) == 1
  {
    var t := [65, 65, 65];
    assert t[..2] == [65, 65] && [65, 65][..1] == [65] && [65][..0] == [];
    assert Sextet(65) >= 0;
    assert Letters64([65]) == 1 && Letters64([65, 65]) == 2 && Letters64(t) == 3;
    hide ScanAll, Letters64, Sextet;
    LettersDoNotStop(t);
    ScanCounts(t);
  }

  /** mod_binascii_a2b_base64. */
  method A2b(input: seq<Byte>) returns (r: Result)
    ensures r == Decoded(input)
  {
    hide Take, Sextet;
    var shift, nbits, hadpad, out := 0, 0, false, [];
    var i := 0;
    assert input[0..] == input;
    while i < |input|
      invariant 0 <= i <= |input| && 0 <= shift && 0 <= nbits
      invariant ScanAll(START, input) == ScanAll(Scan(shift, nbits, hadpad, out, false), input[i..])
    {
      ghost var s := Scan(shift, nbits, hadpad, out, false);
      assert input[i..][1..] == input[i + 1..];
      if input[i] == PAD {
        if nbits == 2 || (nbits == 4 && hadpad) {
          nbits := 0;
          Stopped(s.(nbits := 0, stop := true), input[i + 1..]);
          break;
        }
        hadpad := true;
      }
      var sextet := Sextet(input[i]);
      PadSextet();
      if sextet >= 0 {
        shift, nbits, out := TakeSextet(shift, nbits, sextet, out, hadpad);
        hadpad := false;
      }
      i := i + 1;
    }
    if nbits != 0 {
      return IncorrectPadding;
    }
    return Ok(out);
  }

  method TakeSextet(shift0: nat, nbits0: nat, sextet: nat, out0: seq<Byte>, ghost hadpad: bool)
      returns (shift: nat, nbits: nat, out: seq<Byte>)
    ensures Scan(shift, nbits, false, out, false) == Take(Scan(shift0, nbits0, hadpad, out0, false), sextet)
  {
    shift := (shift0 * 64 + sextet) % WORD;
    nbits := nbits0 + 6;
    out := out0;
    if nbits >= 8 {
      nbits := nbits - 8;
      out := out + [Low(shift, nbits)];
    }
  }

  lemma PadSextet()
    ensures Sextet(PAD) == -1
  {
  }

  lemma {:induction false} Stopped(s: Scan, text: seq<Byte>)
    requires s.stop
    ensures ScanAll(s, text) == s
    decreases |text|
  {
    if text != [] {
      Stopped(s, text[1..]);
    }
  }

  /** mod_binascii_b2a_base64: values first, then letters in place. */
  method B2a(d: seq<Byte>) returns (r: array<Byte>)
    ensures fresh(r) && r[..] == Encoded(d)
  {
    var n := if |d| != 0 then ((|d| - 1) / 3 + 1) * 4 else 0;
    var vals := FirstPass(d);
    assert |vals| == n;
    r := new Byte[n + 1](i requires 0 <= i < n + 1 => if i < n then vals[i] else 0);
    assert r[..n] == vals;
    SecondPass(r, n, vals);
    r[n] := NEWLINE;
    assert r[..] == r[..n] + [NEWLINE];
  }

  method FirstPass(d: seq<Byte>) returns (vals: seq<Byte>)
    ensures vals == Sextets(d)
  {
    hide Group3, Group2, Group1, Sextets;
    vals := [];
    var k := 0;
    assert d[0..] == d;
    while |d| - k >= 3
      invariant 0 <= k <= |d|
      invariant Sextets(d) == vals + Sextets(d[k..])
    {
      var g := Group3(d[k], d[k + 1], d[k + 2]);
      SextetsNext(d, k);
      Assoc(vals, g, Sextets(d[k + 3..]));
      vals := vals + g;
      k := k + 3;
    }
    var i := |d| - k;
    SextetsLast(d, k);
    if i == 2 {
      vals := vals + Group2(d[k], d[k + 1]);
    } else if i == 1 {
      vals := vals + Group1(d[k]);
    }
  }

  lemma SextetsNext(d: seq<Byte>, k: nat)
    requires k + 3 <= |d|
    ensures Sextets(d[k..]) == Group3(d[k], d[k + 1], d[k + 2]) + Sextets(d[k + 3..])
  {
    DropDrop(d, k, 3);
    hide Group3;
  }

  lemma SextetsLast(d: seq<Byte>, k: nat)
    requires k <= |d| < k + 3
    ensures Sextets(d[k..])
      == if |d| == k + 2 then Group2(d[k], d[k + 1]) else if |d| == k + 1 then Group1(d[k]) else []
  {
    hide Group2, Group1;
  }

  /** Letters in place of the values, from the front. */
  method SecondPass(out: array<Byte>, n: nat, ghost vals: seq<Byte>)
    requires n < out.Length && out[..n] == vals
    modifies out
    ensures out[..n] == Letters(vals)
  {
    hide Ascii;
    var j := 0;
    while j < n
      invariant 0 <= j <= n
      invariant forall i :: 0 <= i < j ==> out[i] == Ascii(vals[i])
      invariant forall i :: j <= i < n ==> out[i] == vals[i]
    {
      out[j] := Ascii(out[j]);
      j := j + 1;
    }
  }
}
