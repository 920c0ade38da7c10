/** Powers of two and division facts the solver needs spelled out. */
module Arithmetic {

  function Pow2(k: nat): (p: nat)
    ensures p > 0
  {
    if k == 0 then 1 else 2 * Pow2(k - 1)
  }

  lemma MulSteps(d: int, k: int)
    requires d > 0
    ensures k >= 1 ==> d * k >= d
    ensures k <= -1 ==> d * k <= -d
  {
    assert k >= 1 ==> d * (k - 1) >= 0;
    assert k <= -1 ==> d * (k + 1) <= 0;
  }

  lemma DivNat(a: nat, d: nat)
    requires d > 0
    ensures a / d >= 0
  {
  }

  lemma MulNat(a: nat, b: nat)
    ensures a * b >= 0
  {
  }

  /** The largest multiple of `d` not above `a`. */
  function RoundDown(a: nat, d: nat): nat
    requires d > 0
  {
    DivNat(a, d);
    var q: nat := a / d;
    MulNat(q, d);
    q * d
  }

  lemma DivUnique(a: nat, d: nat, q: nat, r: nat)
    requires d > 0 && r < d && a == d * q + r
    ensures a / d == q
  {
    var k := a / d - q;
    assert a == d * (a / d) + a % d;
    assert d * k == r - a % d by { assert d * (a / d) - d * q == d * k; }
    MulSteps(d, k);
  }

  lemma Compose(a: nat, b: nat, c: nat, q: nat, r: nat, h: nat, s: nat)
    requires b > 0 && r < b && s < c && a == b * q + r && q == c * h + s
    ensures a == (b * c) * h + (b * s + r) && b * s + r < b * c
  {
    assert b * q == b * (c * h) + b * s;
    assert b * (c * h) == (b * c) * h;
    MulSteps(b, c - s);
    assert b * (c - s) == b * c - b * s;
  }

  lemma DivDiv(a: nat, b: nat, c: nat)
    requires b > 0 && c > 0
    ensures b * c > 0 && a / b / c == a / (b * c)
  {
    var q, r := a / b, a % b;
    var h, s := q / c, q % c;
    MulSteps(b, c);
    MulNat(b, s);
    Compose(a, b, c, q, r, h, s);
    var d, x := b * c, b * s + r;
    assert a == d * h + x;
    DivUnique(a, d, h, x);
  }

  lemma DivMonotone(a: nat, b: nat, d: nat)
    requires a <= b && d > 0
    ensures a / d <= b / d
  {
    assert a == d * (a / d) + a % d;
    assert b == d * (b / d) + b % d;
    MulSteps(d, a / d - b / d);
    assert d * (a / d - b / d) == d * (a / d) - d * (b / d);
  }
}
