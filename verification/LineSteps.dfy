/** The run of gfx_line's loop, user/lib/gfx.h, in exact arithmetic: Bresenham's line. */
module LineSteps {
  import Division

  function Abs(n: int): int { if n < 0 then -n else n }

  function Max(a: int, b: int): int { if a < b then b else a }

  function Min(a: int, b: int): int { if a < b then a else b }

  /** n steps from a in the direction of b. */
  function Along(a: int, b: int, n: int): int { if a < b then a + n else a - n }

  /** (x, y) is within half a pixel, along the minor axis, of the ideal line. */
  predicate HalfPixel(x0: int, y0: int, x1: int, y1: int, x: int, y: int) {
    2 * Abs((y - y0) * (x1 - x0) - (x - x0) * (y1 - y0)) <= Max(Abs(x1 - x0), Abs(y1 - y0))
  }

  /**
   Where i steps in x and j in y have led: the deviation d from the ideal line
   is within half a pixel, and a tie is broken to one fixed side.
   */
  predicate Balanced(dx: int, dy: int, i: int, j: int) {
    var d := j * dx - i * dy;
    && 0 <= dx && 0 <= dy && 0 <= i && 0 <= j
    && if dx >= dy then -dx <= 2 * d <= dx && (dx > 0 ==> 2 * d < dx) && i <= dx
       else -dy < 2 * d <= dy && j <= dy
  }

  // ---- one step -----------------------------------------------------------------------

  /** A multiple of n within n/2 of 0 is 0. */
  lemma Whole(k: int, n: int)
    requires n > 0 && -n <= 2 * (k * n) <= n
    ensures k == 0
  {
    assert k >= 1 ==> k * n >= n;
    assert k <= -1 ==> k * n <= -n;
  }

  /** Before the end, the wider axis always steps, and the other keeps the balance. */
  lemma StepWide(dx: int, dy: int, i: int, j: int)
    requires dx >= dy && Balanced(dx, dy, i, j) && i < dx
    ensures var err := dx - dy - i * dy + j * dx;
      && 2 * err > -dy
      && Balanced(dx, dy, i + 1, if 2 * err < dx then j + 1 else j)
  {
    var d := j * dx - i * dy;
    assert (j + 1) * dx - (i + 1) * dy == d + dx - dy;
    assert j * dx - (i + 1) * dy == d - dy;
    if dx == dy {
      assert d == (j - i) * dx;
      Whole(j - i, dx);
    }
  }

  lemma StepTall(dx: int, dy: int, i: int, j: int)
    requires dx < dy && Balanced(dx, dy, i, j) && j < dy
    ensures var err := dx - dy - i * dy + j * dx;
      && 2 * err < dx
      && Balanced(dx, dy, if 2 * err > -dy then i + 1 else i, j + 1)
  {
    var d := j * dx - i * dy;
    assert (j + 1) * dx - (i + 1) * dy == d + dx - dy;
    assert (j + 1) * dx - i * dy == d + dx;
  }

  /** m * n is at most k * n, up to half of n: then m is at most k. */
  lemma AtMost(m: int, k: int, n: int)
    requires n > 0 && 2 * (m * n - k * n) <= n
    ensures m <= k
  {
    assert (m - k) * n == m * n - k * n;
    assert m - k >= 1 ==> (m - k) * n >= n;
  }

  /** The narrower coordinate stays in range, and ends exactly when the wider one does. */
  lemma WideInRange(dx: int, dy: int, i: int, j: int)
    requires dx >= dy && Balanced(dx, dy, i, j)
    ensures dx > 0 ==> j <= dy
    ensures i == dx && dx > 0 ==> j == dy
  {
    if dx > 0 {
      assert i * dy <= dx * dy;
      AtMost(j, dy, dx);
      if i == dx {
        assert j * dx - i * dy == (j - dy) * dx;
        Whole(j - dy, dx);
      }
    }
  }

  lemma TallInRange(dx: int, dy: int, i: int, j: int)
    requires dx < dy && Balanced(dx, dy, i, j)
    ensures i <= dx
    ensures j == dy ==> i == dx
  {
    assert j * dx <= dy * dx;
    AtMost(i, dx, dy);
    if j == dy {
      assert j * dx - i * dy == (dx - i) * dy;
      Whole(dx - i, dy);
    }
  }

  // ---- the run of the loop --------------------------------------------------------------

  function Error(dx: int, dy: int, i: int, j: int): int { dx - dy - i * dy + j * dx }

  /** One iteration, on the numbers of steps taken along each axis. */
  function Next(dx: int, dy: int, p: (int, int)): (int, int) {
    var e2 := 2 * Error(dx, dy, p.0, p.1);
    (if e2 > -dy then p.0 + 1 else p.0, if e2 < dx then p.1 + 1 else p.1)
  }

  function Steps(dx: int, dy: int, k: nat): (int, int) {
    if k == 0 then (0, 0) else Next(dx, dy, Steps(dx, dy, k - 1))
  }

  lemma NextStep(dx: int, dy: int, k: nat)
    ensures Steps(dx, dy, k + 1) == Next(dx, dy, Steps(dx, dy, k))
  {}

  /** For as long as the loop runs: balanced, in range, and one step along the wider axis an iteration. */
  lemma {:induction false} StepsKeep(dx: int, dy: int, k: nat)
    requires 0 <= dx && 0 <= dy && k <= Max(dx, dy)
    ensures var p := Steps(dx, dy, k);
      && Balanced(dx, dy, p.0, p.1)
      && p.0 <= dx && p.1 <= dy
      && (if dx >= dy then p.0 else p.1) == k
      && (p == (dx, dy) <==> k == Max(dx, dy))
  {
    if k > 0 {
      StepsKeep(dx, dy, k - 1);
      NextKeeps(dx, dy, Steps(dx, dy, k - 1));
    }
    assert k == 0 ==> Balanced(dx, dy, 0, 0);
    hide Balanced, Next;
    var p := Steps(dx, dy, k);
    if dx >= dy { WideInRange(dx, dy, p.0, p.1); } else { TallInRange(dx, dy, p.0, p.1); }
  }

  lemma NextKeeps(dx: int, dy: int, p: (int, int))
    requires Balanced(dx, dy, p.0, p.1) && if dx >= dy then p.0 < dx else p.1 < dy
    ensures var q := Next(dx, dy, p);
      && Balanced(dx, dy, q.0, q.1)
      && if dx >= dy then q.0 == p.0 + 1 else q.1 == p.1 + 1
  {
    hide Balanced;
    if dx >= dy { StepWide(dx, dy, p.0, p.1); } else { StepTall(dx, dy, p.0, p.1); }
  }

  /** m * l / n rounded to the nearest whole number, down on a tie. */
  function Nearest(m: int, l: int, n: int): int
    requires n > 0
  {
    (2 * (m * l) + n - 1) / (2 * n)
  }

  lemma NearestIs(m: int, l: int, n: int, q: int)
    requires n > 0 && -n <= 2 * (q * n - m * l) < n
    ensures q == Nearest(m, l, n)
  {
    assert q * (2 * n) == 2 * (q * n);
    Division.Unique(2 * (m * l) + n - 1, 2 * n, q, 2 * (m * l) + n - 1 - 2 * (q * n));
  }

  /** Where the run is after k iterations, without a loop: k along the wider axis, and the nearest pixel beside it. */
  lemma StepsClosed(dx: int, dy: int, k: nat)
    requires 0 <= dx && 0 <= dy && k <= Max(dx, dy)
    ensures Steps(dx, dy, k) ==
      if dx == 0 == dy then (0, 0) else if dx >= dy then (k, Nearest(k, dy, dx)) else (Nearest(k, dx, dy), k)
  {
    hide Steps, Nearest;
    StepsKeep(dx, dy, k);
    var p := Steps(dx, dy, k);
    if dx == 0 == dy {
      assert Steps(0, 0, 0) == (0, 0) by { Origin(0, 0); }
    } else if dx >= dy {
      NearestIs(k, dy, dx, p.1);
    } else {
      NearestIs(k, dx, dy, p.0);
    }
  }

  lemma Origin(dx: int, dy: int)
    ensures Steps(dx, dy, 0) == (0, 0)
  {}
}
