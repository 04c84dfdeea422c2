/** The loader as the source writes it: one pass over the stream, with a
    cursor, a string buffer, a stack of open containers and one pending key. */
module JsonLoader {
  import opened Json
  import opened JsonGrammar
  import opened JsonTrees
  import JsonAccepts
  import opened Wrappers

  lemma CurAt(text: string, pos: nat)
    requires pos <= |text|
    ensures Cur(text[pos..]) == if pos < |text| then text[pos] else EOF
    ensures Next(text[pos..]) == text[if pos < |text| then pos + 1 else pos..]
  {
  }

  /** S_CUR at a cursor position. */
  function At(text: string, pos: nat): (c: char)
    requires pos <= |text|
    ensures c == Cur(text[pos..])
  {
    if pos < |text| then text[pos] else EOF
  }

  /** S_NEXT as a cursor move. */
  function Advance(text: string, pos: nat): (q: nat)
    requires pos <= |text|
    ensures pos <= q <= |text| && text[q..] == Next(text[pos..])
  {
    CurAt(text, pos);
    if pos < |text| then pos + 1 else pos
  }

  /** The loop over the digits of a \u escape, from its letter. */
  method LoadUnicode(text: string, start: nat) returns (num: nat, pos: nat)
    requires start <= |text|
    ensures start <= pos <= |text| && num < 0x11_0000
    ensures HexRun(text[start..], 0, 4) == (num, text[pos..])
  {
    num, pos := 0, start;
    for i := 0 to 4
      invariant start <= pos <= |text| && num < UnitBound(i)
      invariant HexRun(text[pos..], num, 4 - i) == HexRun(text[start..], 0, 4)
    {
      hide ShiftIn, HexNibble, UnitBound;
      var p := Advance(text, pos);
      ShiftBound(num, HexNibble(At(text, p)), i);
      pos, num := p, ShiftIn(num, HexNibble(At(text, p)));
    }
  }

  /** One character of a string, as the specification consumes it. */
  lemma ScanUnfold(text: string, pos: nat, acc: string)
    requires pos < |text| && At(text, pos) != EOF && At(text, pos) != '"'
    ensures At(text, pos) != '\\' ==> ScanString(text[pos..], acc) == ScanString(text[pos + 1..], acc + [At(text, pos)])
    ensures At(text, pos) == '\\' && At(text, pos + 1) != 'u' ==>
      ScanString(text[pos..], acc) == ScanString(Next(text[pos + 1..]), acc + [Unescape(At(text, pos + 1))])
    ensures At(text, pos) == '\\' && At(text, pos + 1) == 'u' ==>
      var (num, last) := HexRun(text[pos + 1..], 0, 4);
      ScanString(text[pos..], acc) == ScanString(Next(last), acc + Utf8(num))
  {
  }

  /** The loop over a string literal, from behind its opening quote. */
  method LoadString(text: string, start: nat) returns (vstr: string, pos: nat, ok: bool)
    requires start <= |text|
    ensures ok ==> pos <= |text| && ScanString(text[start..], "") == Some((vstr, text[pos..]))
    ensures !ok ==> ScanString(text[start..], "") == None
  {
    vstr, pos := "", start;
    while At(text, pos) != EOF && At(text, pos) != '"'
      invariant start <= pos <= |text|
      invariant ScanString(text[pos..], vstr) == ScanString(text[start..], "")
      decreases |text| - pos
    {
      hide ScanString, Utf8, HexRun, Unescape;
      var c := At(text, pos);
      ScanUnfold(text, pos, vstr);
      if c == '\\' {
        pos := Advance(text, pos);
        c := At(text, pos);
        if c == 'u' {
          var num;
          num, pos := LoadUnicode(text, pos);
          vstr := vstr + Utf8(num);
          pos := Advance(text, pos);
          continue;
        }
        c := Unescape(c);
      }
      vstr := vstr + [c];
      pos := Advance(text, pos);
    }
    ok := At(text, pos) != EOF;
    if ok {
      assert text[pos..][1..] == text[pos + 1..];
      pos := pos + 1;
    }
  }

  /** The loop over a number, from its second character. */
  method LoadNumber(text: string, start: nat, first: char) returns (vstr: string, pos: nat, flt: bool)
    requires start <= |text| && (first == '-' || IsDigit(first))
    ensures pos <= |text| && ScanNumber(text[start..], [first]) == (vstr, text[pos..])
    ensures flt == LooksFloat(vstr)
  {
    flt, vstr, pos := false, [first], start;
    while pos < |text| && IsNumberChar(text[pos])
      invariant start <= pos <= |text| && |vstr| > 0
      invariant ScanNumber(text[pos..], vstr) == ScanNumber(text[start..], [first])
      invariant flt == LooksFloat(vstr)
    {
      ghost var before := vstr;
      var cur := text[pos];
      if cur == '.' || cur == 'E' || cur == 'e' {
        flt := true;
      }
      vstr := vstr + [cur];
      assert text[pos..][0] == cur && text[pos..][1..] == text[pos + 1..];
      FloatGrows(before, cur);
      pos := pos + 1;
    }
  }

  lemma FloatGrows(s: string, c: char)
    requires s != ""
    ensures LooksFloat(s + [c]) <==> LooksFloat(s) || c == '.' || c == 'E' || c == 'e'
  {
    var t := s + [c];
    if LooksFloat(s) {
      var i :| 0 < i < |s| && (s[i] == '.' || s[i] == 'E' || s[i] == 'e');
      assert t[i] == s[i];
    }
    assert t[|s|] == c;
  }

  lemma KeywordAt(text: string, pos: nat, word: string)
    requires pos + |word| <= |text|
    ensures word <= text[pos..] <==> text[pos..pos + |word|] == word
    ensures text[pos..][|word|..] == text[pos + |word|..]
  {
  }

  /** One of the three keywords, compared character by character. */
  method LoadKeyword(text: string, start: nat, word: string) returns (ok: bool, pos: nat)
    requires start <= |text|
    ensures start <= pos <= |text| && (ok <==> word <= text[start..])
    ensures ok ==> text[pos..] == text[start..][|word|..]
  {
    pos := start;
    var i := 0;
    while i < |word|
      invariant 0 <= i <= |word| && pos == start + i <= |text|
      invariant text[start..pos] == word[..i]
    {
      if pos >= |text| || text[pos] != word[i] {
        ok := false;
        return;
      }
      pos, i := pos + 1, i + 1;
    }
    assert word[..i] == word;
    KeywordAt(text, start, word);
    ok := true;
  }

  /** One token at the cursor. */
  method NextToken(text: string, start: nat) returns (t: Token, pos: nat)
    requires start < |text| && text[start] != EOF
    ensures t == Lex(text[start..])
    ensures start <= pos <= |text| && (!t.Bad? ==> start < pos && t.rest == text[pos..])
  {
    hide ScanString, ScanNumber, LooksFloat;
    ghost var rest := text[start..];
    assert rest[0] == text[start] && rest[1..] == text[start + 1..];
    var cur := text[start];
    pos := start + 1;
    var ok;
    if IsSkipped(cur) {
      t := Skip(text[pos..]);
    } else if cur == 'n' {
      ok, pos := LoadKeyword(text, start, "null");
      t := if ok then Scalar(Null, text[pos..]) else Bad;
    } else if cur == 'f' {
      ok, pos := LoadKeyword(text, start, "false");
      t := if ok then Scalar(Bool(false), text[pos..]) else Bad;
    } else if cur == 't' {
      ok, pos := LoadKeyword(text, start, "true");
      t := if ok then Scalar(Bool(true), text[pos..]) else Bad;
    } else if cur == '"' {
      var vstr;
      vstr, pos, ok := LoadString(text, start + 1);
      if !ok {
        t, pos := Bad, start;
      } else {
        LexShrinks(rest);
        t := Scalar(Str(vstr), text[pos..]);
      }
    } else if cur == '-' || IsDigit(cur) {
      var vstr, flt;
      vstr, pos, flt := LoadNumber(text, start + 1, cur);
      LexShrinks(rest);
      t := Scalar(Num(vstr, flt), text[pos..]);
    } else if cur == '[' {
      t := Open(false, text[pos..]);
    } else if cur == '{' {
      t := Open(true, text[pos..]);
    } else if cur == '}' || cur == ']' {
      t := Close(text[pos..]);
    } else {
      t := Bad;
    }
  }

  /** The whitespace loop behind the label `success`. */
  method EatSpace(text: string, start: nat) returns (pos: nat)
    requires start <= |text|
    ensures start <= pos <= |text| && text[pos..] == SkipSpace(text[start..])
  {
    pos := start;
    while pos < |text| && IsSpace(text[pos])
      invariant start <= pos <= |text|
      invariant SkipSpace(text[pos..]) == SkipSpace(text[start..])
    {
      assert text[pos..][0] == text[pos] && text[pos..][1..] == text[pos + 1..];
      pos := pos + 1;
    }
  }

  /** One more round of the main loop. */
  lemma RunUnfold(rest: string, s: State)
    requires Sane(s) && rest != "" && rest[0] != EOF
    ensures !Lex(rest).End?
    ensures Apply(Lex(rest), s) == Fail ==> Run(rest, s) == SyntaxError
    ensures Apply(Lex(rest), s).Success? ==>
      !Lex(rest).Bad? && Run(rest, s) == Finish(Lex(rest).rest, Apply(Lex(rest), s).s)
    ensures Apply(Lex(rest), s).Again? ==>
      !Lex(rest).Bad? && Sane(Apply(Lex(rest), s).s) && Run(rest, s) == Run(Lex(rest).rest, Apply(Lex(rest), s).s)
  {
    hide ScanString, ScanNumber, Finish;
  }

  /** mod_ujson_load.  The loop computes `Run`; so for every valid document it
      returns an object that denotes the document's value. */
  method Load(text: string) returns (r: Result)
    ensures r == Run(text, START)
    ensures forall d: Doc :: ValidDoc(d) && DocText(d) == text ==>
      && r.Loaded? && WellLinked(r.heap) && RefOk(r.root, -1, |r.heap|)
      && Tree(r.heap, r.root) == Meaning(d.value)
    ensures r.Loaded? <==> exists n: nat :: JsonAccepts.Reads(text, n) && JsonAccepts.EndsWell(text, n)
  {
    JsonAccepts.LoadsIff(text);
    hide JsonAccepts.Reads, JsonAccepts.EndsWell;
    forall d: Doc | ValidDoc(d) && DocText(d) == text
      ensures var q := Run(text, START);
        && q.Loaded? && WellLinked(q.heap) && RefOk(q.root, -1, |q.heap|)
        && Tree(q.heap, q.root) == Meaning(d.value)
    {
      LoadCorrect(d);
    }
    r := LoadLoop(text);
  }

  method LoadLoop(text: string) returns (r: Result)
    ensures r == Run(text, START)
  {
    var heap: Heap, stack: seq<nat>, top: Option<Value>, key: Option<Prim> := [], [], None, None;
    var pos := 0;
    assert text[0..] == text;
    while pos < |text| && text[pos] != EOF
      invariant pos <= |text|
      invariant Sane(State(heap, stack, top, key))
      invariant Run(text[pos..], State(heap, stack, top, key)) == Run(text, START)
      decreases |text| - pos
    {
      hide Run, Lex;
      ghost var s := State(heap, stack, top, key);
      assert text[pos..][0] == text[pos];
      RunUnfold(text[pos..], s);
      var t;
      t, pos := NextToken(text, pos);
      match t {
        case Skip(_) =>
        case Bad =>
          return SyntaxError;
        case Close(_) =>
          if top.None? {
            return SyntaxError;
          }
          if |stack| == 0 {
            r := FinishAt(text, pos, heap, stack, top, key);
            return;
          }
          var last := |stack| - 1;
          top, stack := Some(Ref(stack[last])), stack[..last];
        case Scalar(prim, _) =>
          if top.None? {
            top := Some(P(prim));
            r := FinishAt(text, pos, heap, stack, top, key);
            return;
          }
          var a := top.value.addr;
          if heap[a].List? {
            heap := heap[a := List(heap[a].items + [P(prim)])];
          } else if key.None? {
            key := Some(prim);
          } else {
            heap := heap[a := Dict(heap[a].entries[key.value := P(prim)])];
            key := None;
          }
        case Open(isDict, _) =>
          var child := |heap|;
          heap := heap + [Empty(isDict)];
          if top.None? {
            top := Some(Ref(child));
          } else {
            var a := top.value.addr;
            if heap[a].List? {
              heap := heap[a := List(heap[a].items + [Ref(child)])];
            } else {
              if key.None? {
                return SyntaxError;
              }
              heap := heap[a := Dict(heap[a].entries[key.value := Ref(child)])];
              key := None;
            }
            stack := stack + [a];
            top := Some(Ref(child));
          }
      }
      assert Apply(t, s) == Again(State(heap, stack, top, key));
    }
    r := FinishAt(text, pos, heap, stack, top, key);
  }

  method FinishAt(text: string, start: nat, heap: Heap, stack: seq<nat>, top: Option<Value>, key: Option<Prim>)
      returns (r: Result)
    requires start <= |text|
    ensures r == Finish(text[start..], State(heap, stack, top, key))
  {
    var pos := EatSpace(text, start);
    CurAt(text, pos);
    if pos < |text| && text[pos] != EOF {
      return SyntaxError;
    }
    if top.None? || |stack| != 0 {
      return SyntaxError;
    }
    r := Loaded(heap, top.value);
  }
}
