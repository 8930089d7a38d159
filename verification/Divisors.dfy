/** Greatest common divisors, as combinations of the two numbers. */
module Divisors {
  function Gcd(a: nat, b: nat): nat
    decreases b
  {
    if b == 0 then a else Gcd(b, a % b)
  }

  lemma GcdStep(a: nat, b: nat)
    ensures Gcd(a, b) == if b == 0 then a else Gcd(b, a % b)
  {}

  lemma {:induction false} Bezout(a: nat, b: nat) returns (u: int, v: int)
    ensures u * a + v * b == Gcd(a, b)
    decreases b
  {
    hide Gcd;
    GcdStep(a, b);
    if b == 0 {
      u, v := 1, 0;
    } else {
      var x, y := Bezout(b, a % b);
      u, v := y, x - y * (a / b);
      Rearrange(x, y, a / b, a, b, a % b);
    }
  }

  lemma Rearrange(x: int, y: int, q: int, a: int, b: int, r: int)
    requires a == q * b + r
    ensures y * a + (x - y * q) * b == x * b + y * r
  {
    assert y * (q * b) == (y * q) * b;
    assert y * a == y * (q * b) + y * r;
    assert (x - y * q) * b == x * b - (y * q) * b;
  }

  lemma {:induction false} GcdDivides(a: nat, b: nat) returns (n: nat, m: nat)
    ensures a == Gcd(a, b) * n && b == Gcd(a, b) * m && (a + b > 0 ==> Gcd(a, b) > 0)
    decreases b
  {
    hide Gcd;
    GcdStep(a, b);
    if b == 0 {
      n, m := 1, 0;
    } else {
      var q, r := a / b, a % b;
      var k, l := GcdDivides(b, r);
      n, m := q * k + l, k;
      Combine(Gcd(b, r), q, k, l, a, b, r);
    }
  }

  lemma Combine(g: nat, q: nat, k: nat, l: nat, a: nat, b: nat, r: nat)
    requires a == q * b + r && b == g * k && r == g * l
    ensures a == g * (q * k + l)
  {
    assert q * (g * k) == g * (q * k);
  }
}
