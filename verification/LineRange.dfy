/** When every value gfx_line computes fits an int: exactly, line by line. */
module LineRange {
  import opened Divisors
  import opened LineSteps
  import Division

  predicate Int(n: int) { -0x8000_0000 <= n < 0x8000_0000 }

  /** Everything iteration k computes: the doubled error, and the error after each of its two updates. */
  predicate IterationFits(dx: int, dy: int, k: nat) {
    var p := Steps(dx, dy, k);
    var e := Error(dx, dy, p.0, p.1);
    var e1 := if 2 * e > -dy then e - dy else e;
    Int(2 * e) && Int(e1) && (2 * e < dx ==> Int(e1 + dx))
  }

  /** No overflow anywhere in the loop. */
  ghost predicate RunFits(dx: nat, dy: nat) {
    && Int(dx) && Int(dy)
    && forall k: nat :: k < Max(dx, dy) ==> IterationFits(dx, dy, k)
  }

  /** The condition on the two extents alone. */
  predicate LineFits(dx: nat, dy: nat) {
    && Int(dx) && Int(dy)
    && if dx >= dy then dx == 0 || WideFits(dx, dy, Gcd(dx, dy)) else TallFits(dx, dy, Gcd(dx, dy))
  }

  predicate WideFits(dx: int, dy: int, g: int) {
    g > 0 && 2 * (g * ((dx / g - 1) / 2) + dx - dy) < 0x8000_0000 && g * ((dx / g + 1) / 2) - 2 * dy >= -0x8000_0000
  }

  predicate TallFits(dx: int, dy: int, g: int) {
    g > 0 && 2 * (dx - dy - g * ((dy / g - 1) / 2)) >= -0x8000_0000 && -(g * ((dy / g - 1) / 2)) - dy >= -0x8000_0000
  }

  // ---- the deviations a line takes ---------------------------------------------------------

  /** The deviation after k iterations. */
  function Deviation(dx: int, dy: int, k: nat): int {
    var p := Steps(dx, dy, k);
    p.1 * dx - p.0 * dy
  }

  /** It is a multiple of any common divisor. */
  lemma DeviationMultiple(dx: int, dy: int, g: int, n: int, m: int, k: nat) returns (c: int)
    requires dx == g * n && dy == g * m
    ensures Deviation(dx, dy, k) == g * c
  {
    hide Steps;
    var p := Steps(dx, dy, k);
    c := p.1 * n - p.0 * m;
    Factor(g, p.1, n, p.0, m);
  }

  lemma Factor(g: int, a: int, n: int, b: int, m: int)
    ensures a * (g * n) - b * (g * m) == g * (a * n - b * m)
  {
    assert a * (g * n) == g * (a * n);
    assert b * (g * m) == g * (b * m);
    assert g * (a * n - b * m) == g * (a * n) - g * (b * m);
  }

  /** Cancelling g > 0 from bounds on a multiple of it. */
  lemma Cancel(g: int, x: int, y: int)
    requires g > 0
    ensures g * x < g * y <==> x < y
    ensures g * x <= g * y <==> x <= y
  {
    assert g * (y - x) == g * y - g * x;
    assert y - x > 0 ==> g * (y - x) > 0;
    assert y - x < 0 ==> g * (y - x) < 0;
  }

  /** Within half the wider extent, the steps along which are k. */
  lemma DeviationRange(dx: int, dy: int, k: nat)
    requires 0 <= dx && 0 <= dy && k <= Max(dx, dy)
    ensures dx >= dy ==> -dx <= 2 * Deviation(dx, dy, k) <= dx && Deviation(dx, dy, k) == Steps(dx, dy, k).1 * dx - k * dy
    ensures dx >= dy && dx > 0 ==> 2 * Deviation(dx, dy, k) < dx
    ensures dx < dy ==> -dy < 2 * Deviation(dx, dy, k) <= dy && Deviation(dx, dy, k) == k * dx - Steps(dx, dy, k).0 * dy
  {
    StepsKeep(dx, dy, k);
  }

  lemma PositiveFactor(g: int, n: int)
    requires g > 0 && g * n > 0
    ensures n > 0
  {
    assert n <= 0 ==> g * n <= 0;
  }

  /** On a wide line: at least -(n/2) g and at most ((n-1)/2) g. */
  lemma WideBounds(dx: int, dy: int, g: int, n: int, m: int, k: nat)
    requires dx >= dy >= 0 && dx > 0 && g > 0 && dx == g * n && dy == g * m && k <= dx
    ensures n > 0 && -(g * (n / 2)) <= Deviation(dx, dy, k) <= g * ((n - 1) / 2)
  {
    hide Steps, Deviation;
    DeviationRange(dx, dy, k);
    var c := DeviationMultiple(dx, dy, g, n, m, k);
    PositiveFactor(g, n);
    MultipleBounds(g, n, c);
  }

  lemma MultipleBounds(g: int, n: int, c: int)
    requires g > 0 && n > 0 && -(g * n) <= 2 * (g * c) < g * n
    ensures -(g * (n / 2)) <= g * c <= g * ((n - 1) / 2)
  {
    assert 2 * (g * c) == g * (2 * c) && -(g * n) == g * -n;
    Cancel(g, -n, 2 * c);
    Cancel(g, 2 * c, n);
    Cancel(g, -(n / 2), c);
    Cancel(g, c, (n - 1) / 2);
    assert g * -(n / 2) == -(g * (n / 2));
  }

  /** On a tall one: at least -((n-1)/2) g. */
  lemma TallBounds(dx: int, dy: int, g: int, n: int, m: int, k: nat)
    requires 0 <= dx < dy && g > 0 && dx == g * m && dy == g * n && k <= dy
    ensures n > 0 && -(g * ((n - 1) / 2)) <= Deviation(dx, dy, k)
  {
    hide Steps, Deviation;
    DeviationRange(dx, dy, k);
    var c := DeviationMultiple(dx, dy, g, m, n, k);
    PositiveFactor(g, n);
    assert g * -c == -(g * c);
    MultipleBounds(g, n, -c);
  }

  // ---- and takes all of them -----------------------------------------------------------------

  /** Two numbers that differ by a multiple of n and by less than n are equal. */
  lemma SameResidue(x: int, y: int, n: int, z: int)
    requires n > 0 && x - y == n * z && -n < x - y < n
    ensures x == y
  {
    assert z >= 1 ==> n * z >= n;
    assert z <= -1 ==> n * z <= -n;
  }

  lemma WideAttains(dx: int, dy: int, g: int, c: int) returns (k: nat)
    requires dx >= dy >= 0 && dx > 0 && g == Gcd(dx, dy) && -dx <= 2 * (g * c) < dx
    ensures k < dx && Deviation(dx, dy, k) == g * c
  {
    hide Steps, Deviation, Gcd;
    var u, v := Bezout(dx, dy);
    var q;
    k, q := Residue(-(c * v), dx);
    DeviationRange(dx, dy, k);
    var j := Steps(dx, dy, k).1;
    WideAlgebra(dx, dy, c, u, v, k, q, j, g);
    SameResidue(Deviation(dx, dy, k), g * c, dx, j - c * u + q * dy);
  }

  lemma Residue(x: int, n: int) returns (k: nat, q: int)
    requires n > 0
    ensures k < n && k == x - q * n
  {
    k, q := x % n, x / n;
  }

  lemma WideAlgebra(dx: int, dy: int, c: int, u: int, v: int, k: int, q: int, j: int, g: int)
    requires k == -(c * v) - q * dx && u * dx + v * dy == g
    ensures j * dx - k * dy - g * c == dx * (j - c * u + q * dy)
  {
    assert k * dy == -(c * v) * dy - q * dx * dy;
    assert (c * v) * dy == c * (v * dy);
    assert c * (u * dx + v * dy) == c * (u * dx) + c * (v * dy);
    assert c * (u * dx) == dx * (c * u);
    assert dx * (j - c * u + q * dy) == dx * j - dx * (c * u) + dx * (q * dy);
  }

  lemma TallAttains(dx: int, dy: int, g: int, c: int) returns (k: nat)
    requires 0 <= dx < dy && g == Gcd(dx, dy) && -dy < 2 * (g * c) <= dy
    ensures k < dy && Deviation(dx, dy, k) == g * c
  {
    hide Steps, Deviation, Gcd;
    var u, v := Bezout(dx, dy);
    var q;
    k, q := Residue(c * u, dy);
    DeviationRange(dx, dy, k);
    var i := Steps(dx, dy, k).0;
    TallAlgebra(dx, dy, c, u, v, k, q, i, g);
    SameResidue(Deviation(dx, dy, k), g * c, dy, -(c * v) - q * dx - i);
  }

  lemma TallAlgebra(dx: int, dy: int, c: int, u: int, v: int, k: int, q: int, i: int, g: int)
    requires k == c * u - q * dy && u * dx + v * dy == g
    ensures k * dx - i * dy - g * c == dy * (-(c * v) - q * dx - i)
  {
    assert k * dx == (c * u) * dx - q * dy * dx;
    assert (c * u) * dx == c * (u * dx);
    assert c * (u * dx + v * dy) == c * (u * dx) + c * (v * dy);
    assert c * (v * dy) == dy * (c * v);
    assert dy * (-(c * v) - q * dx - i) == -(dy * (c * v)) - dy * (q * dx) - dy * i;
  }

  // ---- the two directions -----------------------------------------------------------------------

  /** What an iteration of a wide line computes, in terms of deviations. */
  lemma WideIteration(dx: int, dy: int, k: nat)
    requires dx >= dy >= 0 && k < dx
    ensures var d, next := Deviation(dx, dy, k), Deviation(dx, dy, k + 1);
      IterationFits(dx, dy, k) <==>
      Int(2 * (d + dx - dy)) && Int(d + dx - 2 * dy) && (2 * (d + dx - dy) < dx ==> Int(next + dx - dy))
  {
    StepsKeep(dx, dy, k);
    var p := Steps(dx, dy, k);
    StepWide(dx, dy, p.0, p.1);
    hide Balanced;
    NextDeviation(dx, dy, k);
  }

  lemma NextDeviation(dx: int, dy: int, k: nat)
    ensures var p := Steps(dx, dy, k);
      var e := Error(dx, dy, p.0, p.1);
      && e == Deviation(dx, dy, k) + dx - dy
      && Deviation(dx, dy, k + 1) ==
         Deviation(dx, dy, k) - (if 2 * e > -dy then dy else 0) + (if 2 * e < dx then dx else 0)
  {
    hide Steps;
    var p := Steps(dx, dy, k);
    NextStep(dx, dy, k);
    assert (p.0 + 1) * dy == p.0 * dy + dy && (p.1 + 1) * dx == p.1 * dx + dx;
  }

  lemma TallIteration(dx: int, dy: int, k: nat)
    requires 0 <= dx < dy && k < dy
    ensures var d, next := Deviation(dx, dy, k), Deviation(dx, dy, k + 1);
      IterationFits(dx, dy, k) <==>
      && Int(2 * (d + dx - dy)) && Int(next + dx - dy)
      && (if next == d + dx - dy then Int(next - dy) else Int(d + dx - dy))
    ensures Deviation(dx, dy, k + 1) == Deviation(dx, dy, k) + dx - dy || Deviation(dx, dy, k + 1) == Deviation(dx, dy, k) + dx
  {
    StepsKeep(dx, dy, k);
    var p := Steps(dx, dy, k);
    StepTall(dx, dy, p.0, p.1);
    hide Balanced;
    NextDeviation(dx, dy, k);
  }

  lemma WideSuffices(dx: int, dy: int, k: nat)
    requires dx >= dy >= 0 && k < dx && Int(dx) && WideFits(dx, dy, Gcd(dx, dy))
    ensures IterationFits(dx, dy, k)
  {
    hide IterationFits, Deviation, Gcd;
    var n, m := GcdDivides(dx, dy);
    var g := Gcd(dx, dy);
    WideIteration(dx, dy, k);
    WideBounds(dx, dy, g, n, m, k);
    WideBounds(dx, dy, g, n, m, k + 1);
    DeviationRange(dx, dy, k);
    DeviationRange(dx, dy, k + 1);
    Quotient(g, n, dx);
    Halves(g, n);
  }

  lemma Quotient(g: int, n: int, x: int)
    requires g > 0 && x == g * n
    ensures x / g == n
  {
    Division.Unique(x, g, n, 0);
  }

  lemma Halves(g: int, n: int)
    ensures g * ((n + 1) / 2) == g * n - g * (n / 2)
  {
    assert (n + 1) / 2 == n - n / 2;
  }

  lemma WideNeeded(dx: int, dy: int)
    requires dx >= dy >= 0 && dx > 0 && forall k: nat :: k < dx ==> IterationFits(dx, dy, k)
    ensures WideFits(dx, dy, Gcd(dx, dy))
  {
    hide IterationFits, Deviation, Gcd;
    var n, m := GcdDivides(dx, dy);
    var g := Gcd(dx, dy);
    PositiveFactor(g, n);
    Quotient(g, n, dx);
    Halves(g, n);
    HalfInside(g, n);
    var k := WideAttains(dx, dy, g, (n - 1) / 2);
    WideIteration(dx, dy, k);
    var half: int := n / 2;
    var l := WideAttains(dx, dy, g, -half);
    WideIteration(dx, dy, l);
    assert IterationFits(dx, dy, k) && IterationFits(dx, dy, l);
  }

  lemma HalfInside(g: int, n: int)
    requires g > 0 && n > 0
    ensures -(g * n) <= 2 * (g * ((n - 1) / 2)) < g * n
    ensures -(g * n) <= 2 * (g * -(n / 2)) < g * n
    ensures -(g * n) < 2 * (g * -((n - 1) / 2)) <= g * n
    ensures g * -(n / 2) == -(g * (n / 2)) && g * -((n - 1) / 2) == -(g * ((n - 1) / 2))
  {
    var a, b := (n - 1) / 2, n / 2;
    Cancel(g, 2 * a, n);
    Cancel(g, 2 * b, n);
    assert g * (2 * a) == 2 * (g * a) && g * (2 * b) == 2 * (g * b);
    assert g * a >= 0 && g * b >= 0;
  }

  lemma TallSuffices(dx: int, dy: int, k: nat)
    requires 0 <= dx < dy && k < dy && Int(dy) && TallFits(dx, dy, Gcd(dx, dy))
    ensures IterationFits(dx, dy, k)
  {
    hide IterationFits, Deviation, Gcd;
    var m, n := GcdDivides(dx, dy);
    var g := Gcd(dx, dy);
    TallIteration(dx, dy, k);
    TallBounds(dx, dy, g, n, m, k);
    TallBounds(dx, dy, g, n, m, k + 1);
    DeviationRange(dx, dy, k);
    DeviationRange(dx, dy, k + 1);
    Quotient(g, n, dy);
  }

  lemma TallNeeded(dx: int, dy: int)
    requires 0 <= dx < dy && Int(dy) && forall k: nat :: k < dy ==> IterationFits(dx, dy, k)
    ensures TallFits(dx, dy, Gcd(dx, dy))
  {
    hide IterationFits, Deviation, Gcd;
    var m, n := GcdDivides(dx, dy);
    var g := Gcd(dx, dy);
    PositiveFactor(g, n);
    Quotient(g, n, dy);
    HalfInside(g, n);
    var half: int := (n - 1) / 2;
    var k := TallAttains(dx, dy, g, -half);
    TallIteration(dx, dy, k);
    assert IterationFits(dx, dy, k);
    var before := if k > 0 then k - 1 else dy - 1;
    TallIteration(dx, dy, before);
    assert IterationFits(dx, dy, before);
    TallBounds(dx, dy, g, n, m, before);
    if k == 0 { EndDeviation(dx, dy); }
    if dx == 0 { AxisOnly(dy); }
  }

  lemma EndDeviation(dx: int, dy: int)
    requires 0 <= dx && 0 <= dy
    ensures Deviation(dx, dy, 0) == 0 && Deviation(dx, dy, Max(dx, dy)) == 0
  {
    StepsKeep(dx, dy, Max(dx, dy));
  }

  lemma AxisOnly(dy: nat)
    ensures Gcd(0, dy) == dy
  {}

  /** No value gfx_line computes overflows if and only if this condition on the extents holds. */
  lemma RunFitsIff(dx: nat, dy: nat)
    ensures RunFits(dx, dy) <==> LineFits(dx, dy)
  {
    hide IterationFits, WideFits, TallFits, Gcd;
    if dx >= dy {
      if RunFits(dx, dy) && dx > 0 { WideNeeded(dx, dy); }
      if LineFits(dx, dy) {
        forall k: nat | k < dx ensures IterationFits(dx, dy, k) { WideSuffices(dx, dy, k); }
      }
    } else {
      if RunFits(dx, dy) { TallNeeded(dx, dy); }
      if LineFits(dx, dy) {
        forall k: nat | k < dy ensures IterationFits(dx, dy, k) { TallSuffices(dx, dy, k); }
      }
    }
  }

  // ---- one bound for all lines ----------------------------------------------------------------------

  /** The largest extent for which no line overflows. */
  const SAFE_EXTENT := 715827883

  lemma ShortFits(dx: nat, dy: nat)
    requires dx <= SAFE_EXTENT && dy <= SAFE_EXTENT
    ensures LineFits(dx, dy)
  {
    hide Gcd, WideFits, TallFits;
    if dx + dy > 0 {
      var n, m := GcdDivides(dx, dy);
      if dx >= dy {
        if dy == 0 { LevelGcd(dx); }
        ShortWide(dx, dy, Gcd(dx, dy), n);
      } else {
        ShortTall(dx, dy, Gcd(dx, dy), m);
      }
    }
  }

  lemma ShortWide(dx: nat, dy: nat, g: nat, n: nat)
    requires dy <= dx <= SAFE_EXTENT && 0 < g && 0 < dx == g * n && (dy == 0 ==> g == dx)
    ensures WideFits(dx, dy, g)
  {
    PositiveFactor(g, n);
    Quotient(g, n, dx);
    HalfInside(g, n);
  }

  lemma ShortTall(dx: nat, dy: nat, g: nat, m: nat)
    requires dx < dy <= SAFE_EXTENT && 0 < g && dy == g * m
    ensures TallFits(dx, dy, g)
  {
    PositiveFactor(g, m);
    Quotient(g, m, dy);
    HalfInside(g, m);
  }

  lemma LevelGcd(dx: nat)
    ensures Gcd(dx, 0) == dx && (dx > 0 ==> dx / dx == 1)
  {}

  /** All lines with extents up to b are drawn without overflow if and only if b is at most that. */
  lemma SafeExtentIff(b: nat)
    ensures (forall dx: nat, dy: nat :: dx <= b && dy <= b ==> LineFits(dx, dy)) <==> b <= SAFE_EXTENT
  {
    if b <= SAFE_EXTENT {
      forall dx: nat, dy: nat | dx <= b && dy <= b ensures LineFits(dx, dy) { ShortFits(dx, dy); }
    } else {
      SlopeOne(SAFE_EXTENT + 1);
      assert !LineFits(SAFE_EXTENT + 1, 1);
    }
  }

  lemma SlopeOne(dx: nat)
    requires dx > 1
    ensures Gcd(dx, 1) == 1 && LineFits(dx, 1) == (Int(dx) && 2 * ((dx - 1) / 2 + dx - 1) < 0x8000_0000 && (dx + 1) / 2 - 2 >= -0x8000_0000)
  {
    assert dx % 1 == 0;
    assert Gcd(1, 0) == 1;
  }
}
