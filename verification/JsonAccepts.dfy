/** Exactly which texts the loader takes, valid or not: its tokens are counted,
    and nothing else is looked at. */
module JsonAccepts {
  import opened Json
  import opened JsonGrammar
  import opened JsonKeys
  import opened Wrappers

  /** No token starts here: a misspelled keyword, a string without an end, or a
      character that starts nothing. */
  ghost predicate Unreadable(rest: string)
    requires rest != ""
  {
    match rest[0]
    case 'n' => !("null" <= rest)
    case 'f' => !("false" <= rest)
    case 't' => !("true" <= rest)
    case '"' => ScanString(rest[1..], "").None?
    case c => c !in ",: \t\n\r-0123456789[]{}"
  }

  lemma BadIff(rest: string)
    ensures Lex(rest).Bad? <==> rest != "" && rest[0] != '\0' && Unreadable(rest)
  {
    hide ScanString, ScanNumber, LooksFloat;
  }

  predicate InDict(nest: seq<Level>) { nest != [] && nest[|nest| - 1].isDict }

  /** How many of the first `n` tokens put something directly into a dictionary. */
  function Puts(text: string, n: nat): nat {
    if n == 0 then 0
    else
      var t := TokenAt(text, n - 1);
      Puts(text, n - 1) + if (t.Scalar? || t.Open?) && InDict(Nest(text, n - 1)) then 1 else 0
  }

  /** The load goes on behind `t`.  A container in a dictionary needs a key, which is
      there if the dictionaries have got an odd number of things so far. */
  predicate Continues(nest: seq<Level>, puts: nat, t: Token) {
    match t
    case Skip(_) => true
    case Scalar(_, _) => nest != []
    case Open(_, _) => !InDict(nest) || puts % 2 == 1
    case Close(_) => |nest| >= 2
    case End => false
    case Bad => false
  }

  predicate Reads(text: string, n: nat) {
    n == 0 || (Reads(text, n - 1) && Continues(Nest(text, n - 1), Puts(text, n - 1), TokenAt(text, n - 1)))
  }

  /** Nothing but white space, up to the end or a NUL. */
  ghost predicate Blank(rest: string) {
    exists k: nat :: White(rest, k) && (k == |rest| || rest[k] == '\0')
  }

  /** The first `k` characters are white space. */
  predicate White(rest: string, k: nat) {
    k <= |rest| && forall i :: 0 <= i < k ==> rest[i] == ' ' || 9 <= rest[i] as int <= 13
  }

  /** The load ends well at token `n`: the one value is complete and only white space
      follows, or the text is over with one container open. */
  ghost predicate EndsWell(text: string, n: nat) {
    match TokenAt(text, n)
    case Scalar(_, rest) => Nest(text, n) == [] && Blank(rest)
    case Close(rest) => |Nest(text, n)| == 1 && Blank(rest)
    case End => |Nest(text, n)| == 1
    case _ => false
  }

  // ----- The rounds

  /** The state is where the tokens say. */
  ghost predicate Tracks(s: State, nest: seq<Level>, puts: nat)
    requires Sane(s)
  {
    Matches(s, nest) && (s.key.Some? <==> puts % 2 == 1)
  }

  lemma StartTracks()
    ensures Tracks(START, [], 0)
  {
  }

  lemma TopIs(s: State, nest: seq<Level>)
    requires Sane(s) && Matches(s, nest)
    ensures s.top.None? <==> nest == []
    ensures s.top.Some? ==> |nest| == |s.stack| + 1 && (s.heap[s.top.value.addr].Dict? <==> InDict(nest))
  {
    if s.top.Some? {
      assert s.heap[Address(s, |nest| - 1)].Dict? <==> nest[|nest| - 1].isDict;
    }
  }

  lemma AgainIffContinues(s: State, nest: seq<Level>, puts: nat, t: Token)
    requires Sane(s) && Tracks(s, nest, puts) && !t.End?
    ensures Apply(t, s).Again? <==> Continues(nest, puts, t)
  {
    TopIs(s, nest);
    hide Matches;
  }

  lemma RoundTracks(s: State, nest: seq<Level>, puts: nat, t: Token)
    requires Sane(s) && Tracks(s, nest, puts) && !t.End? && Apply(t, s).Again?
    ensures Tracks(Apply(t, s).s, Nested(nest, t), puts + if (t.Scalar? || t.Open?) && InDict(nest) then 1 else 0)
  {
    hide Matches, PutScalar, Enter, Leave, Bump;
    TopIs(s, nest);
    var s' := Apply(t, s).s;
    match t {
      case Skip(_) =>
      case Scalar(p, _) =>
        ScalarMatches(s, nest, p, s');
        ScalarKey(s, p, s');
      case Open(isDict, _) =>
        OpenMatches(s, nest, isDict, s');
        EnterKey(s, nest, isDict, s');
      case Close(_) =>
        CloseMatches(s, nest, s');
        LeaveKey(s, s');
    }
  }

  lemma ScalarKey(s: State, p: Prim, s': State)
    requires Sane(s) && PutScalar(s, p) == Again(s')
    ensures s.top.Some?
    ensures s'.key.Some? == (if s.heap[s.top.value.addr].Dict? then s.key.None? else s.key.Some?)
  {
  }

  lemma LeaveKey(s: State, s': State)
    requires Sane(s) && Leave(s) == Again(s')
    ensures s'.key == s.key
  {
  }

  /** The tokens alone say how far the loader gets and whether a key is pending. */
  lemma {:induction false} RoundsTrack(text: string, n: nat)
    ensures Rounds(text, n).Some? <==> Reads(text, n)
    ensures Reads(text, n) ==> Tracks(Rounds(text, n).value, Nest(text, n), Puts(text, n))
    decreases n
  {
    hide Lex, Tracks, Apply, Nested, Continues;
    if n == 0 {
      StartTracks();
    } else {
      RoundsTrack(text, n - 1);
      var t, nest, puts := TokenAt(text, n - 1), Nest(text, n - 1), Puts(text, n - 1);
      EndStopsHere(nest, puts, t);
      if Reads(text, n - 1) && !t.End? {
        AgainIffContinues(Rounds(text, n - 1).value, nest, puts, t);
        if Continues(nest, puts, t) {
          RoundTracks(Rounds(text, n - 1).value, nest, puts, t);
        }
      }
    }
  }

  lemma EndStopsHere(nest: seq<Level>, puts: nat, t: Token)
    ensures t.End? ==> !Continues(nest, puts, t)
  {
  }

  // ----- The end

  lemma {:induction false} BlankIff(rest: string)
    ensures Blank(rest) <==> Cur(SkipSpace(rest)) == EOF
    decreases |rest|
  {
    if rest == "" {
      assert White(rest, 0);
    } else if IsSpace(rest[0]) {
      BlankIff(rest[1..]);
      BlankMore(rest);
    } else {
      BlankHere(rest);
    }
  }

  lemma BlankMore(rest: string)
    requires rest != "" && (rest[0] == ' ' || 9 <= rest[0] as int <= 13)
    ensures Blank(rest) <==> Blank(rest[1..])
  {
    if Blank(rest) {
      var k: nat :| White(rest, k) && (k == |rest| || rest[k] == '\0');
      assert White(rest[1..], k - 1);
    }
    if Blank(rest[1..]) {
      var k: nat :| White(rest[1..], k) && (k == |rest| - 1 || rest[1..][k] == '\0');
      WhiteMore(rest, k);
    }
  }

  lemma WhiteMore(rest: string, k: nat)
    requires rest != "" && (rest[0] == ' ' || 9 <= rest[0] as int <= 13) && White(rest[1..], k)
    ensures White(rest, k + 1)
  {
    forall i | 0 <= i < k + 1 ensures rest[i] == ' ' || 9 <= rest[i] as int <= 13 {
      if i > 0 {
        assert rest[1..][i - 1] == rest[i];
      }
    }
  }

  lemma BlankHere(rest: string)
    requires rest != "" && !(rest[0] == ' ' || 9 <= rest[0] as int <= 13)
    ensures Blank(rest) <==> rest[0] == '\0'
  {
    if rest[0] == '\0' {
      assert White(rest, 0);
    }
  }

  lemma EndRest(rest: string)
    requires Lex(rest).End?
    ensures Cur(SkipSpace(rest)) == EOF
  {
    assert Cur(rest) == EOF;
  }

  /** A round that is not followed by another. */
  lemma OneRound(rest: string, s: State)
    requires Sane(s) && (!Lex(rest).End? ==> !Apply(Lex(rest), s).Again?)
    ensures var t := Lex(rest);
      Run(rest, s).Loaded? <==>
        match t
        case End => s.top.Some? && s.stack == []
        case Scalar(_, r) => s.top.None? && Cur(SkipSpace(r)) == EOF
        case Close(r) => s.top.Some? && s.stack == [] && Cur(SkipSpace(r)) == EOF
        case _ => false
  {
    var t := Lex(rest);
    if t.End? {
      EndRest(rest);
    }
    hide Lex, SkipSpace, Attach;
  }

  /** What the last round gives. */
  lemma LastRound(text: string, n: nat)
    requires Rounds(text, n).Some? && !Rounds(text, n + 1).Some?
    ensures Run(text, START).Loaded? <==> EndsWell(text, n)
  {
    RoundsRun(text, n);
    RoundsTrack(text, n);
    RoundStops(text, n);
    hide Lex, Blank, SkipSpace, Matches, Nest, Rounds, Run, Apply, RestAt;
    var s := Rounds(text, n).value;
    OneRound(RestAt(text, n), s);
    TopIs(s, Nest(text, n));
    match TokenAt(text, n) {
      case Scalar(_, r) => BlankIff(r);
      case Close(r) => BlankIff(r);
      case _ =>
    }
  }

  lemma RoundStops(text: string, n: nat)
    requires Rounds(text, n).Some? && !Rounds(text, n + 1).Some?
    ensures !TokenAt(text, n).End? ==> !Apply(TokenAt(text, n), Rounds(text, n).value).Again?
  {
    hide Lex, Apply;
  }

  /** The rounds come to an end. */
  lemma {:induction false} SomeLast(text: string, n: nat) returns (m: nat)
    requires Rounds(text, n).Some?
    ensures Rounds(text, m).Some? && Rounds(text, m + 1).None?
    decreases |RestAt(text, n)|
  {
    hide Lex, Apply;
    if Rounds(text, n + 1).None? {
      m := n;
    } else {
      GoesFurther(text, n);
      m := SomeLast(text, n + 1);
    }
  }

  lemma GoesFurther(text: string, n: nat)
    requires Rounds(text, n + 1).Some?
    ensures |RestAt(text, n + 1)| < |RestAt(text, n)|
  {
    LexShrinks(RestAt(text, n));
    hide Lex;
  }

  /** A well-ended token is the last. */
  lemma EndIsLast(text: string, n: nat)
    requires EndsWell(text, n)
    ensures Rounds(text, n + 1).None?
  {
    hide *;
    RoundsTrack(text, n + 1);
    ReadsStep(text, n);
    WellEndStops(text, n);
  }

  lemma ReadsStep(text: string, n: nat)
    ensures Reads(text, n + 1) ==> Continues(Nest(text, n), Puts(text, n), TokenAt(text, n))
  {
    hide Nest, Puts, TokenAt, Continues;
  }

  lemma WellEndStops(text: string, n: nat)
    requires EndsWell(text, n)
    ensures !Continues(Nest(text, n), Puts(text, n), TokenAt(text, n))
  {
    hide Nest, Puts, TokenAt, Blank;
  }

  /** For every text: it is loaded exactly if all its tokens up to some one let the load go
      on, and it ends well there.  Anything else is a syntax error. */
  lemma LoadsIff(text: string)
    ensures Run(text, START).Loaded? <==> exists n: nat :: Reads(text, n) && EndsWell(text, n)
  {
    hide Rounds, EndsWell, Run, Reads;
    RoundsStart(text);
    var m := SomeLast(text, 0);
    LastRound(text, m);
    RoundsTrack(text, m);
    if n: nat :| Reads(text, n) && EndsWell(text, n) {
      RoundsTrack(text, n);
      EndIsLast(text, n);
      LastRound(text, n);
    }
  }

  lemma RoundsStart(text: string)
    ensures Rounds(text, 0).Some?
  {
  }
}
