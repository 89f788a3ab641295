/** Division facts with a variable divisor. */
module Arith {

  lemma {:induction false} MulStep(b: nat, x: nat, y: nat)
    requires x < y
    ensures b * x + b <= b * y
  {
    var d := y - x - 1;
    assert b * y == b * x + b * d + b;
  }

  lemma {:induction false} MulMono(b: nat, x: nat, y: nat)
    requires x <= y
    ensures b * x <= b * y
  {
    if x < y { MulStep(b, x, y); }
  }

  /** Quotient and remainder are unique. */
  lemma {:induction false} DivUnique(b: nat, q: nat, r: nat, x: nat)
    requires r < b && x == b * q + r
    ensures x / b == q && x % b == r
  {
    var p, s := x / b, x % b;
    assert x == b * p + s;
    if p < q { MulStep(b, p, q); }
    if q < p { MulStep(b, q, p); }
  }

  lemma {:induction false} DivExact(b: nat, q: nat)
    requires b > 0
    ensures (b * q) / b == q && (b * q) % b == 0
  {
    DivUnique(b, q, 0, b * q);
  }

  lemma {:induction false} DivMultiples(b: nat, p: nat, q: nat)
    requires b > 0 && q <= p
    ensures b * q <= b * p && (b * p - b * q) / b == p - q
  {
    MulMono(b, q, p);
    assert b * p - b * q == b * (p - q) + 0;
    DivUnique(b, p - q, 0, b * p - b * q);
  }

  /** A multiple of b beyond another multiple y is y plus whole steps. */
  lemma {:induction false} DivDifference(b: nat, x: nat, y: nat)
    requires b > 0 && x % b == 0 && y % b == 0 && y <= x
    ensures x == y + b * ((x - y) / b)
  {
    var p, q := x / b, y / b;
    assert x == b * p && y == b * q;
    if p < q { MulStep(b, p, q); }
    DivMultiples(b, p, q);
    assert b * (p - q) == b * p - b * q;
  }

  lemma {:induction false} HalfOfQuotient(x: nat, p: nat)
    requires p > 0
    ensures x / (2 * p) == x / 2 / p && x % (2 * p) == 2 * (x / 2 % p) + x % 2
  {
    var q, r := x / 2 / p, x / 2 % p;
    assert x / 2 == p * q + r;
    assert x == 2 * p * q + (2 * r + x % 2);
    DivUnique(2 * p, q, 2 * r + x % 2, x);
  }
}
