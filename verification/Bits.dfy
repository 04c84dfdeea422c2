/** Bitwise operations on naturals, bit by bit. */
module Bits {

  function Pow2(k: nat): (p: nat)
    ensures p > 0
  {
    if k == 0 then 1 else 2 * Pow2(k - 1)
  }

  /** `x & ~m`. */
  function AndNot(x: nat, m: nat): nat {
    if x == 0 then 0 else (if m % 2 == 1 then 0 else x % 2) + 2 * AndNot(x / 2, m / 2)
  }

  /** `x | y`. */
  function Or(x: nat, y: nat): nat
    decreases x + y
  {
    if x == 0 && y == 0 then 0 else (if x % 2 == 1 || y % 2 == 1 then 1 else 0) + 2 * Or(x / 2, y / 2)
  }

  lemma AndNotDouble(x: nat, m: nat)
    ensures AndNot(x, 2 * m) == x % 2 + 2 * AndNot(x / 2, m)
    ensures AndNot(x, 2 * m + 1) == 2 * AndNot(x / 2, m)
  {
    hide *;
    Halves(m, 0);
    Halves(m, 1);
    AndNotStep(x, 2 * m);
    AndNotStep(x, 2 * m + 1);
  }

  lemma AndNotStep(x: nat, m: nat)
    ensures AndNot(x, m) == (if m % 2 == 1 then 0 else x % 2) + 2 * AndNot(x / 2, m / 2)
  {
  }

  lemma OrStep(x: nat, y: nat)
    ensures Or(x, y) == (if x % 2 == 1 || y % 2 == 1 then 1 else 0) + 2 * Or(x / 2, y / 2)
  {
  }

  lemma OrDouble(x: nat, b: nat, y: nat)
    requires b < 2
    ensures Or(b + 2 * x, 2 * y) == b + 2 * Or(x, y)
  {
    hide *;
    Halves(x, b);
    Halves(y, 0);
    OrStep(b + 2 * x, 2 * y);
  }

  lemma Halves(x: nat, b: nat)
    requires b < 2
    ensures (2 * x + b) / 2 == x && (2 * x + b) % 2 == b
  {
  }

  lemma {:induction false} AndNotZero(x: nat)
    ensures AndNot(x, 0) == x
    decreases x
  {
    if x != 0 {
      AndNotZero(x / 2);
    }
  }

  lemma {:induction false} OrZero(x: nat)
    ensures Or(x, 0) == x
    decreases x
  {
    if x != 0 {
      OrZero(x / 2);
    }
  }

  lemma {:induction false} ZeroOr(y: nat)
    ensures Or(0, y) == y
    decreases y
  {
    if y != 0 {
      ZeroOr(y / 2);
    }
  }

  /** Bits above those of the right operand stay. */
  lemma {:induction false} OrLow(q: nat, x: nat, y: nat, k: nat)
    requires x < Pow2(k) && y < Pow2(k)
    ensures Or(x, y) < Pow2(k) && Or(q * Pow2(k) + x, y) == q * Pow2(k) + Or(x, y)
    decreases k
  {
    hide Or;
    if k == 0 {
      OrZero(q);
      OrZero(0);
    } else {
      var p := Pow2(k - 1);
      OrLow(q, x / 2, y / 2, k - 1);
      Twice(q, p);
      Halves(q * p + x / 2, x % 2);
      OrStep(q * Pow2(k) + x, y);
      OrStep(x, y);
    }
  }

  /** Clearing bits takes away at most the mask. */
  lemma {:induction false} AndNotFacts(x: nat, m: nat)
    ensures x - m <= AndNot(x, m) <= x
    ensures m % 2 == 1 ==> AndNot(x, m) % 2 == 0
    decreases x
  {
    if x != 0 {
      AndNotFacts(x / 2, m / 2);
    }
  }

  /** Clearing the low `k` bits leaves a multiple of their power. */
  lemma {:induction false} AndNotOnes(x: nat, k: nat) returns (q: nat)
    ensures AndNot(x, Pow2(k) - 1) == q * Pow2(k)
    decreases k
  {
    if k == 0 {
      AndNotZero(x);
      q := x;
    } else {
      var p := Pow2(k - 1);
      q := AndNotOnes(x / 2, k - 1);
      assert Pow2(k) - 1 == 2 * (p - 1) + 1;
      AndNotDouble(x, p - 1);
      Twice(q, p);
    }
  }

  lemma Twice(q: nat, p: nat)
    ensures 2 * (q * p) == q * (2 * p)
  {
  }
}
