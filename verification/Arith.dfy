/** Facts about products, quotients and remainders with a variable divisor. */
module Arith {

  lemma MulLess(b: nat, m: int, q: int)
    requires m < q
    ensures b * m + b <= b * q
  {
    assert b * (m + 1) == b * m + b;
    MulMono(b, m + 1, q);
  }

  lemma {:induction false} MulMono(b: nat, m: int, q: int)
    requires m <= q
    ensures b * m <= b * q
    decreases q - m
  {
  }

  lemma QuotientUnique(b: nat, m: int, t: nat, q: int, r: nat)
    requires t < b && r < b && b * m + t == b * q + r
    ensures m == q && t == r
  {
    if m < q {
      MulLess(b, m, q);
    } else if q < m {
      MulLess(b, q, m);
    }
  }

  lemma DivMod(q: nat, b: nat, r: nat)
    requires r < b
    ensures (r + b * q) / b == q && (r + b * q) % b == r
    ensures q * b + r == r + b * q
  {
    var n := r + b * q;
    assert n == b * (n / b) + n % b;
    QuotientUnique(b, n / b, n % b, q, r);
  }

  lemma DivBound(u: nat, b: nat, p: nat)
    requires b > 0 && u < b * p
    ensures u / b < p
  {
  }

  lemma MulBound(r: nat, b: nat, q: nat, p: nat)
    requires r < b && q < p
    ensures r + b * q < b * p
  {
    MulLess(b, q, p);
  }

  lemma MulAssoc(y: nat, n: nat, m: nat)
    ensures y * (n * m) == n * (y * m)
  {
  }

  lemma MulDistrib(n: nat, a: nat, b: nat)
    ensures n * (a + b) == n * a + n * b
  {
  }

  /** A row of `s` cells splits a flat position. */
  lemma FlatParts(x: nat, y: nat, s: nat)
    requires x < s
    ensures (x + y * s) / s == y && (x + y * s) % s == x
  {
    DivMod(y, s, x);
  }

  lemma FlatJoin(p: nat, s: nat)
    requires s > 0
    ensures p == p % s + p / s * s && p % s < s
  {
  }

  lemma RowSlot(x: nat, y: nat, s: nat, n: nat)
    requires n > 0 && s % n == 0
    ensures (x + y * s) % n == x % n
    ensures (x + y * s) / n == x / n + y * (s / n)
  {
    var m := s / n;
    assert s == n * m;
    MulAssoc(y, n, m);
    MulDistrib(n, x / n, y * m);
    DivMod(x / n + y * m, n, x % n);
    assert x == n * (x / n) + x % n;
  }

  /** Dividing twice. */
  lemma DivDiv(u: nat, b: nat, p: nat)
    requires b > 0 && p > 0
    ensures b * p > 0 && u / (b * p) == u / b / p
  {
    var q := u / b;
    Split(u, b);
    Split(q, p);
    DivNested(b, p, q / p, q % p, u % b);
  }

  lemma DivNested(b: nat, p: nat, q: nat, s: nat, r: nat)
    requires r < b && s < p
    ensures b * p > 0 && (r + b * (s + p * q)) / (b * p) == q
  {
    MulBound(r, b, s, p);
    Nested(b, p, q, s, r);
    DivMod(q, b * p, r + b * s);
  }

  lemma Split(u: nat, b: nat)
    requires b > 0
    ensures u == u % b + b * (u / b)
  {
  }

  lemma Nested(b: nat, p: nat, q: nat, s: nat, r: nat)
    ensures r + b * (s + p * q) == r + b * s + (b * p) * q
  {
    MulDistrib(b, s, p * q);
    MulGroup(b, p, q);
  }

  lemma MulGroup(a: nat, b: nat, c: nat)
    ensures a * (b * c) == a * b * c
  {
  }
}
