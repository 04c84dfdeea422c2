/** Octets and their bitwise exclusive or. */
module Bytes {

  type Byte = b: int | 0 <= b < 256

  /** `a ^ b` on the low `n` bits. */
  function XorBits(a: nat, b: nat, n: nat): (r: nat) {
    if n == 0 then 0 else (a + b) % 2 + 2 * XorBits(a / 2, b / 2, n - 1)
  }

  lemma {:induction false} XorBitsBound(a: nat, b: nat, n: nat)
    ensures n <= 8 ==> XorBits(a, b, n) < 256
    ensures XorBits(a, b, n) <= Ones(n)
  {
    if n > 0 {
      XorBitsBound(a / 2, b / 2, n - 1);
    }
    OnesBound(n);
  }

  function Ones(n: nat): nat {
    if n == 0 then 0 else 1 + 2 * Ones(n - 1)
  }

  lemma {:induction false} OnesBound(n: nat)
    ensures n <= 8 ==> Ones(n) < 256
  {
    assert Ones(0) == 0 && Ones(1) == 1 && Ones(2) == 3 && Ones(3) == 7;
    assert Ones(4) == 15 && Ones(5) == 31 && Ones(6) == 63 && Ones(7) == 127 && Ones(8) == 255;
  }

  function Xor(a: Byte, b: Byte): (r: Byte) {
    XorBitsBound(a, b, 8);
    XorBits(a, b, 8)
  }

  lemma Parity(a: nat, b: nat, y: nat)
    ensures ((a + b) % 2 + 2 * y) / 2 == y
    ensures ((a + b) % 2 + 2 * y + b) % 2 == a % 2
  {
  }

  lemma XorBitsStep(a: nat, b: nat, n: nat)
    requires n > 0
    ensures XorBits(a, b, n) == (a + b) % 2 + 2 * XorBits(a / 2, b / 2, n - 1)
  {
  }

  lemma {:induction false} XorBitsTwice(a: nat, b: nat, n: nat)
    requires a <= Ones(n) && b <= Ones(n)
    ensures XorBits(XorBits(a, b, n), b, n) == a
  {
    hide XorBits;
    XorBitsNone(a, b);
    if n > 0 {
      var y := XorBits(a / 2, b / 2, n - 1);
      XorBitsStep(a, b, n);
      XorBitsStep((a + b) % 2 + 2 * y, b, n);
      Parity(a, b, y);
      XorBitsTwice(a / 2, b / 2, n - 1);
    } else {
      XorBitsNone(XorBits(a, b, 0), b);
    }
  }

  lemma XorBitsNone(a: nat, b: nat)
    ensures XorBits(a, b, 0) == 0
  {
  }

  lemma XorTwice(a: Byte, b: Byte)
    ensures Xor(Xor(a, b), b) == a
  {
    assert Ones(8) == 255;
    XorBitsTwice(a, b, 8);
  }

  lemma {:induction false} XorBitsZero(a: nat, n: nat)
    requires a <= Ones(n)
    ensures XorBits(a, 0, n) == a
  {
    if n > 0 {
      XorBitsZero(a / 2, n - 1);
    }
  }

  lemma XorZero(a: Byte)
    ensures Xor(a, 0) == a
  {
    assert Ones(8) == 255;
    XorBitsZero(a, 8);
  }
}
