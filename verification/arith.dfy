/** Division with remainder over the naturals. */
module Arith {

  lemma {:induction false} MulNonNegative(a: nat, b: nat)
    ensures a * b >= 0
  {
  }

  lemma {:induction false} Distribute(a: int, b: int, c: int)
    ensures (a + b) * c == a * c + b * c
    ensures (a - b) * c == a * c - b * c
  {
  }

  lemma {:induction false} MulMonotone(a: nat, b: nat, c: nat)
    requires a <= b
    ensures a * c <= b * c
  {
    MulNonNegative(b - a, c);
    Distribute(b, a, c);
  }

  /** Quotient and remainder are determined by `x == q * c + r` with `r < c`. */
  lemma {:induction false} DivModUnique(x: nat, c: nat, q: nat, r: nat)
    requires c > 0 && x == q * c + r && r < c
    ensures x / c == q && x % c == r
  {
    var p, s := x / c, x % c;
    assert x == p * c + s;
    if p < q {
      MulMonotone(p + 1, q, c);
      Distribute(p, 1, c);
    } else if q < p {
      MulMonotone(q + 1, p, c);
      Distribute(q, 1, c);
    }
  }

  lemma {:induction false} ModAddMultiple(x: nat, q: nat, c: nat)
    requires c > 0
    ensures x + q * c >= 0 && (x + q * c) % c == x % c
  {
    MulNonNegative(q, c);
    Distribute(x / c, q, c);
    DivModUnique(x + q * c, c, x / c + q, x % c);
  }

  /** Reducing by a multiple of the modulus first changes nothing. */
  lemma {:induction false} ModOfMod(x: nat, m: nat, c: nat)
    requires m > 0 && c > 0 && m * c > 0
    ensures (x % (m * c)) % c == x % c
  {
    var q, low := x / (m * c), x % (m * c);
    assert x == q * (m * c) + low;
    assert q * (m * c) == (q * m) * c;
    MulNonNegative(q, m);
    ModAddMultiple(low, q * m, c);
  }

  lemma {:induction false} NextMultiple(u: nat, p: nat, q: nat)
    requires p < q
    ensures p * u + u <= q * u
  {
    MulMonotone(p + 1, q, u);
    Distribute(p, 1, u);
  }

  lemma {:induction false} SameQuotient(u: nat, p: nat, q: nat, r: nat)
    requires p * u + r < q * u + r + u && q * u + r < p * u + r + u
    ensures p == q
  {
    if p < q { NextMultiple(u, p, q); } else if q < p { NextMultiple(u, q, p); }
  }

  lemma {:induction false} SameResidue(u: nat, v: nat, w: nat)
    requires u > 0 && v % u == w % u && v < w + u && w < v + u
    ensures v == w
  {
    SameQuotient(u, v / u, w / u, v % u);
  }

  /** Any `u` consecutive numbers include every residue. */
  lemma {:induction false} ResidueFrom(u: nat, r: nat, low: nat) returns (v: nat)
    requires r < u
    ensures low <= v < low + u && v % u == r
  {
    var q, s := low / u, low % u;
    assert low == q * u + s;
    MulNonNegative(q, u);
    Distribute(q, 1, u);
    v := if r >= s then q * u + r else (q + 1) * u + r;
    if r >= s { DivModUnique(v, u, q, r); } else { DivModUnique(v, u, q + 1, r); }
  }

  lemma {:induction false} ModSum(a: nat, b: nat, n: nat)
    requires n > 0
    ensures (a + b) % n == (a % n + b % n) % n
  {
    var q, r := a / n, b / n;
    assert a == q * n + a % n && b == r * n + b % n;
    Distribute(q, r, n);
    ModAddMultiple(a % n + b % n, q + r, n);
  }
}
