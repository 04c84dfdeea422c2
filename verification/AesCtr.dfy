/** AES counter mode over the block cipher, as extmod/moducryptolib.c builds it
    when the library has none. */
module AesCtr {
  import opened Arith
  import opened Bytes

  type Block = b: seq<Byte> | |b| == 16 witness [0, 0, 0, 0, 0, 0, 0, 0, 0, 0, 0, 0, 0, 0, 0, 0]

  // ----- Big-endian counters

  /** The number that big-endian bytes stand for. */
  function Value(c: seq<Byte>): nat {
    if c == [] then 0 else 256 * Value(c[..|c| - 1]) + c[|c| - 1]
  }

  /** The low `k` bytes of a number, big-endian. */
  function Encode(n: nat, k: nat): (c: seq<Byte>)
    ensures |c| == k
    decreases k
  {
    if k == 0 then [] else Encode(n / 256, k - 1) + [n % 256]
  }

  /** Add one, with carry from the last byte. */
  function Inc(c: seq<Byte>): (r: seq<Byte>)
    ensures |r| == |c|
  {
    if c == [] then []
    else
      var last := |c| - 1;
      if c[last] < 255 then c[last := c[last] + 1] else Inc(c[..last]) + [0]
  }

  lemma {:induction false} EncodeValue(c: seq<Byte>)
    ensures Encode(Value(c), |c|) == c
    decreases |c|
  {
    if c != [] {
      var last := |c| - 1;
      EncodeValue(c[..last]);
      assert Value(c) / 256 == Value(c[..last]) && Value(c) % 256 == c[last];
      assert c == c[..last] + [c[last]];
    }
  }

  /** The carry chain adds one, modulo the counter's size. */
  lemma {:induction false} IncEncode(n: nat, k: nat)
    ensures Inc(Encode(n, k)) == Encode(n + 1, k)
    decreases k
  {
    if k > 0 {
      var c := Encode(n, k);
      assert c[..k - 1] == Encode(n / 256, k - 1) && c[k - 1] == n % 256;
      if n % 256 < 255 {
        assert (n + 1) / 256 == n / 256 && (n + 1) % 256 == n % 256 + 1;
        assert c[k - 1 := n % 256 + 1] == c[..k - 1] + [n % 256 + 1];
      } else {
        assert (n + 1) / 256 == n / 256 + 1 && (n + 1) % 256 == 0;
        IncEncode(n / 256, k - 1);
      }
    }
  }

  function Pow256(k: nat): (p: nat)
    ensures p > 0
  {
    if k == 0 then 1 else 256 * Pow256(k - 1)
  }

  lemma {:induction false} ValueBound(c: seq<Byte>)
    ensures Value(c) < Pow256(|c|)
    decreases |c|
  {
    if c != [] {
      ValueBound(c[..|c| - 1]);
    }
  }

  /** Counters wrap: numbers that differ by the counter's range look the same. */
  lemma {:induction false} EncodeWraps(n: nat, k: nat)
    ensures Encode(n + Pow256(k), k) == Encode(n, k)
    decreases k
  {
    if k > 0 {
      var p := Pow256(k - 1);
      assert (n + 256 * p) / 256 == n / 256 + p && (n + 256 * p) % 256 == n % 256;
      EncodeWraps(n / 256, k - 1);
    }
  }

  /** Big-endian: byte `i` of `k` has the weight 256 to the k - 1 - i. */
  lemma {:induction false} EncodeDigit(n: nat, k: nat, i: nat)
    requires i < k
    ensures Encode(n, k)[i] == n / Pow256(k - 1 - i) % 256
    decreases k
  {
    if i < k - 1 {
      EncodeDigit(n / 256, k - 1, i);
      DivDiv(n, 256, Pow256(k - 2 - i));
    }
  }

  // ----- The key stream

  /** Byte `p` of the key stream: byte p mod 16 of encrypted counter p div 16. */
  function Key(cipher: Block -> Block, c0: nat, p: nat): Byte {
    cipher(Encode(c0 + p / 16, 16))[p % 16]
  }

  /** Text from stream position `p` on, encrypted or decrypted. */
  function Stream(cipher: Block -> Block, c0: nat, p: nat, text: seq<Byte>): (r: seq<Byte>)
    ensures |r| == |text|
    decreases |text|
  {
    if text == [] then [] else [Xor(text[0], Key(cipher, c0, p))] + Stream(cipher, c0, p + 1, text[1..])
  }

  /** However the text is split over calls, the result is the same. */
  lemma {:induction false} StreamSplits(cipher: Block -> Block, c0: nat, p: nat, a: seq<Byte>, b: seq<Byte>)
    ensures Stream(cipher, c0, p, a + b) == Stream(cipher, c0, p, a) + Stream(cipher, c0, p + |a|, b)
    decreases |a|
  {
    hide Key, Xor;
    if a == [] {
      assert a + b == b;
    } else {
      assert (a + b)[1..] == a[1..] + b;
      StreamSplits(cipher, c0, p + 1, a[1..], b);
    }
  }

  /** Decrypting from the same counter gives the text back. */
  lemma {:induction false} StreamTwice(cipher: Block -> Block, c0: nat, p: nat, text: seq<Byte>)
    ensures Stream(cipher, c0, p, Stream(cipher, c0, p, text)) == text
    decreases |text|
  {
    hide Key, Xor;
    if text != [] {
      XorTwice(text[0], Key(cipher, c0, p));
      StreamTwice(cipher, c0, p + 1, text[1..]);
      var t := Stream(cipher, c0, p, text);
      assert t[1..] == Stream(cipher, c0, p + 1, text[1..]);
    }
  }

  /** Every byte is combined with its own byte of the encrypted counters: byte
      p + i of the stream is byte (p + i) mod 16 of counter c0 + (p + i) div 16. */
  lemma {:induction false} StreamAt(cipher: Block -> Block, c0: nat, p: nat, text: seq<Byte>, i: nat)
    requires i < |text|
    ensures Stream(cipher, c0, p, text)[i] == Xor(text[i], cipher(Encode(c0 + (p + i) / 16, 16))[(p + i) % 16])
    decreases i
  {
    hide Encode, Xor;
    if i > 0 {
      StreamAt(cipher, c0, p + 1, text[1..], i - 1);
    }
  }

  lemma StreamNone(cipher: Block -> Block, c0: nat, p: nat)
    ensures Stream(cipher, c0, p, []) == []
  {
  }

  lemma StreamLast(cipher: Block -> Block, c0: nat, p: nat, text: seq<Byte>, x: Byte)
    ensures Stream(cipher, c0, p, text + [x]) == Stream(cipher, c0, p, text) + [Xor(x, Key(cipher, c0, p + |text|))]
  {
    hide Key, Xor;
    StreamSplits(cipher, c0, p, text, [x]);
    assert [x][1..] == [];
  }

  /** How the position moves on. */
  lemma NextPosition(p: nat)
    ensures (p + 1) % 16 == (p % 16 + 1) % 16
    ensures (p + 16) / 16 == p / 16 + 1
    ensures p % 16 == 0 ==> (p + 15) / 16 == p / 16
    ensures p % 16 != 0 ==> (p + 15) / 16 == p / 16 + 1
    ensures (p + 1) % 16 != 0 ==> (p + 1) / 16 == p / 16
  {
  }

  // ----- The object

  class Ctr {
    const counter: array<Byte>
    const encrypted: array<Byte>
    var offset: nat
    const cipher: Block -> Block

    /** `p` bytes from counter `c0` have been processed. */
    ghost predicate At(c0: nat, p: nat)
      reads this, counter, encrypted
    {
      && counter.Length == 16 && encrypted.Length == 16 && counter != encrypted
      && offset == p % 16
      && counter[..] == Encode(c0 + (p + 15) / 16, 16)
      && (offset != 0 ==> encrypted[..] == cipher(Encode(c0 + p / 16, 16)))
    }

    constructor (cipher: Block -> Block, iv: Block)
      ensures fresh(counter) && fresh(encrypted) && this.cipher == cipher
      ensures At(Value(iv), 0)
    {
      this.cipher := cipher;
      counter := new Byte[16](i requires 0 <= i < 16 => iv[i]);
      encrypted := new Byte[16](_ => 0);
      offset := 0;
      new;
      EncodeValue(iv);
      assert counter[..] == iv;
    }

    /** The carry loop. */
    method Increment()
      requires counter.Length == 16
      modifies counter
      ensures counter[..] == Inc(old(counter[..]))
    {
      ghost var c := counter[..];
      assert c[..16] == c && counter[16..] == [];
      var i := 15;
      while i >= 0
        invariant -1 <= i <= 15
        invariant counter[..i + 1] == c[..i + 1]
        invariant Inc(c) == Inc(c[..i + 1]) + counter[i + 1..]
      {
        ghost var low := c[..i + 1];
        ghost var rest := counter[i + 1..];
        var v: int := counter[i];
        counter[i] := (v + 1) % 256;
        assert counter[i + 1..] == rest && counter[..i] == c[..i];
        assert low[..i] == c[..i];
        if counter[i] != 0 {
          assert counter[..] == low[i := low[i] + 1] + rest;
          return;
        }
        assert counter[i..] == [0] + rest;
        assert Inc(low) + rest == Inc(low[..i]) + ([0] + rest);
        i := i - 1;
      }
    }

    /** The key byte of one round of aes_process_ctr_impl. */
    method NextKey(ghost c0: nat, ghost p: nat) returns (k: Byte)
      requires At(c0, p)
      modifies this, counter, encrypted
      ensures At(c0, p + 1) && k == Key(cipher, c0, p)
    {
      NextPosition(p);
      hide Encode;
      var n := offset;
      if n == 0 {
        EncryptCounter();
        IncEncode(c0 + p / 16, 16);
        Increment();
      }
      k := encrypted[n];
      offset := (n + 1) % 16;
    }

    /** aes_process_ecb_impl of the counter. */
    method EncryptCounter()
      requires counter.Length == 16 && encrypted.Length == 16 && counter != encrypted
      modifies encrypted
      ensures encrypted[..] == cipher(counter[..])
    {
      ghost var c := counter[..];
      var e := cipher(counter[..]);
      forall i | 0 <= i < 16 { encrypted[i] := e[i]; }
      assert encrypted[..] == e && counter[..] == c;
    }

    /** Byte `i` of aes_process_ctr_impl. */
    method OneByte(input: array<Byte>, out: array<Byte>, i: nat, ghost text: seq<Byte>, ghost c0: nat, ghost p: nat)
      requires At(c0, p + i) && i < |text| == input.Length <= out.Length && input[i] == text[i]
      requires out != counter && out != encrypted && input != counter && input != encrypted
      requires out[..i] == Stream(cipher, c0, p, text[..i])
      modifies this, counter, encrypted, out
      ensures At(c0, p + i + 1)
      ensures out[..i + 1] == Stream(cipher, c0, p, text[..i + 1])
      ensures forall j :: i < j < out.Length ==> out[j] == old(out[j])
      ensures forall j :: i < j < input.Length ==> input[j] == old(input[j])
    {
      hide Encode, At, Key, Xor, Stream;
      ghost var done := out[..i];
      var k := NextKey(c0, p + i);
      var v := Xor(input[i], k);
      assert out[..i] == done;
      out[i] := v;
      assert out[..i + 1] == done + [v];
      StreamLast(cipher, c0, p, text[..i], text[i]);
      assert text[..i + 1] == text[..i] + [text[i]];
    }

    /** aes_process_ctr_impl, possibly in place. */
    method Process(input: array<Byte>, out: array<Byte>, ghost c0: nat, ghost p: nat)
      requires At(c0, p) && input.Length <= out.Length
      requires out != counter && out != encrypted && input != counter && input != encrypted
      modifies this, counter, encrypted, out
      ensures At(c0, p + input.Length)
      ensures out[..input.Length] == Stream(cipher, c0, p, old(input[..]))
      ensures forall j :: input.Length <= j < out.Length ==> out[j] == old(out[j])
    {
      hide *;
      ghost var text := input[..];
      var i := 0;
      StreamNone(cipher, c0, p);
      assert text[..0] == [] && out[..0] == [];
      while i < input.Length
        invariant 0 <= i <= input.Length
        invariant At(c0, p + i)
        invariant forall j :: i <= j < input.Length ==> input[j] == text[j]
        invariant out[..i] == Stream(cipher, c0, p, text[..i])
        invariant forall j :: input.Length <= j < out.Length ==> out[j] == old(out[j])
      {
        OneByte(input, out, i, text, c0, p);
        i := i + 1;
      }
      assert text[..i] == text == old(input[..]);
    }
  }
}
