/** gfx_line of user/lib/gfx.h on 32-bit signed integers. */
module Line {
  import opened LineSteps
  import opened LineRange

  newtype int32 = x: int | -0x8000_0000 <= x < 0x8000_0000

  function Extent(a: int32, b: int32): nat { Abs(b as int - a as int) }

  // ---- what the drawn points are ------------------------------------------------------------

  /** Negating a coordinate mirrors the line: the distance is the same. */
  lemma MirroredHalfPixel(x0: int, y0: int, x1: int, y1: int, i: int, j: int)
    requires Balanced(Abs(x1 - x0), Abs(y1 - y0), i, j)
    ensures HalfPixel(x0, y0, x1, y1, Along(x0, x1, i), Along(y0, y1, j))
  {
    var d := j * Abs(x1 - x0) - i * Abs(y1 - y0);
    var u, v := Along(x0, x1, i) - x0, Along(y0, y1, j) - y0;
    assert v * (x1 - x0) - u * (y1 - y0) == d || v * (x1 - x0) - u * (y1 - y0) == -d by {
      hide Balanced;
      Product(v, x1 - x0, j, Abs(x1 - x0));
      Product(u, y1 - y0, i, Abs(y1 - y0));
    }
  }

  lemma Product(a: int, b: int, m: int, n: int)
    requires (a == m || a == -m) && (b == n || b == -n)
    ensures a == m && b == n ==> a * b == m * n
    ensures a == m && b == -n ==> a * b == -(m * n)
    ensures a == -m && b == n ==> a * b == -(m * n)
    ensures a == -m && b == -n ==> a * b == m * n
  {
  }

  datatype Rect = Rect(x: int32, y: int32, w: int32, h: int32)

  /** The point is off the top or left edge, or inside the rectangle. */
  predicate Covered(r: Rect, x: int, y: int) {
    x >= 0 && y >= 0 ==>
      && r.x as int <= x < r.x as int + r.w as int
      && r.y as int <= y < r.y as int + r.h as int
  }

  /** The k-th point is where k iterations lead. */
  predicate Plotted(x0: int, y0: int, x1: int, y1: int, k: nat, x: int, y: int) {
    var p := Steps(Abs(x1 - x0), Abs(y1 - y0), k);
    x == Along(x0, x1, p.0) && y == Along(y0, y1, p.1)
  }

  predicate AllPlotted(x0: int, y0: int, x1: int, y1: int, points: seq<(int32, int32)>) {
    forall k :: 0 <= k < |points| ==> Plotted(x0, y0, x1, y1, k, points[k].0 as int, points[k].1 as int)
  }

  lemma NonePlotted(x0: int, y0: int, x1: int, y1: int)
    ensures AllPlotted(x0, y0, x1, y1, [])
  {
  }

  lemma PlotOne(x0: int, y0: int, x1: int, y1: int, points: seq<(int32, int32)>, x: int32, y: int32, p: (int, int))
    requires AllPlotted(x0, y0, x1, y1, points) && p == Steps(Abs(x1 - x0), Abs(y1 - y0), |points|)
    requires x as int == Along(x0, x1, p.0) && y as int == Along(y0, y1, p.1)
    ensures AllPlotted(x0, y0, x1, y1, points + [(x, y)])
  {
  }

  lemma PlottedPoint(x0: int, y0: int, x1: int, y1: int, k: nat, x: int, y: int)
    requires Plotted(x0, y0, x1, y1, k, x, y) && k <= Max(Abs(x1 - x0), Abs(y1 - y0))
    ensures HalfPixel(x0, y0, x1, y1, x, y)
    ensures k == 0 ==> (x, y) == (x0, y0)
    ensures (x, y) == (x1, y1) <==> k == Max(Abs(x1 - x0), Abs(y1 - y0))
    ensures Min(x0, x1) <= x <= Min(x0, x1) + Abs(x1 - x0)
    ensures Min(y0, y1) <= y <= Min(y0, y1) + Abs(y1 - y0)
  {
    StepsKeep(Abs(x1 - x0), Abs(y1 - y0), k);
    var p := Steps(Abs(x1 - x0), Abs(y1 - y0), k);
    MirroredHalfPixel(x0, y0, x1, y1, p.0, p.1);
  }

  /** An iteration that is not the last, in the program's own arithmetic, within the bounds of an int. */
  lemma Iterate(dx: nat, dy: nat, k: nat)
    requires RunFits(dx, dy) && k < Max(dx, dy)
    ensures var p, q := Steps(dx, dy, k), Steps(dx, dy, k + 1);
      var e := Error(dx, dy, p.0, p.1);
      var e1 := if 2 * e > 0 - dy then e - dy else e;
      && q.0 == (if 2 * e > 0 - dy then p.0 + 1 else p.0)
      && q.1 == (if 2 * e < dx then p.1 + 1 else p.1)
      && Error(dx, dy, q.0, q.1) == e1 + (if 2 * e < dx then dx else 0)
      && Int(2 * e) && Int(e1) && (2 * e < dx ==> Int(e1 + dx))
      && 0 <= p.0 <= q.0 <= dx && 0 <= p.1 <= q.1 <= dy
      && p != (dx, dy)
  {
    hide Steps, Error, RunFits, IterationFits;
    NextStep(dx, dy, k);
    StepError(dx, dy, Steps(dx, dy, k));
    IterationIsInt(dx, dy, k);
    InExtents(dx, dy, k);
    InExtents(dx, dy, k + 1);
  }

  lemma IterationIsInt(dx: nat, dy: nat, k: nat)
    requires RunFits(dx, dy) && k < Max(dx, dy)
    ensures var p := Steps(dx, dy, k);
      var e := Error(dx, dy, p.0, p.1);
      var e1 := if 2 * e > 0 - dy then e - dy else e;
      Int(2 * e) && Int(e1) && (2 * e < dx ==> Int(e1 + dx))
  {
    hide Steps, Error;
    assert IterationFits(dx, dy, k);
  }

  lemma InExtents(dx: nat, dy: nat, k: nat)
    requires k <= Max(dx, dy)
    ensures var p := Steps(dx, dy, k); 0 <= p.0 <= dx && 0 <= p.1 <= dy && (k < Max(dx, dy) ==> p != (dx, dy))
  {
    hide Steps, Balanced;
    StepsKeep(dx, dy, k);
    NonNegative(dx, dy, Steps(dx, dy, k).0, Steps(dx, dy, k).1);
  }

  lemma NonNegative(dx: int, dy: int, i: int, j: int)
    requires Balanced(dx, dy, i, j)
    ensures 0 <= i && 0 <= j
  {
  }

  lemma StepError(dx: int, dy: int, p: (int, int))
    ensures var e, q := Error(dx, dy, p.0, p.1), Next(dx, dy, p);
      Error(dx, dy, q.0, q.1) == e - (if 2 * e > -dy then dy else 0) + (if 2 * e < dx then dx else 0)
  {
    assert (p.0 + 1) * dy == p.0 * dy + dy && (p.1 + 1) * dx == p.1 * dx + dx;
  }

  lemma Ends(dx: int, dy: int, k: nat)
    requires 0 <= dx && 0 <= dy && k <= Max(dx, dy)
    ensures Steps(dx, dy, k) == (dx, dy) <==> k == Max(dx, dy)
    ensures 0 <= Steps(dx, dy, k).0 <= dx && 0 <= Steps(dx, dy, k).1 <= dy
  {
    StepsKeep(dx, dy, k);
  }

  lemma Begins(dx: int, dy: int)
    ensures Steps(dx, dy, 0) == (0, 0) && Error(dx, dy, 0, 0) == dx - dy
  {
  }

  lemma LineIsInt(dx: nat, dy: nat)
    requires LineFits(dx, dy)
    ensures Int(dx) && Int(dy)
  {}

  /** The chain of pixels plotted. */
  method PlotLine(x0: int32, y0: int32, x1: int32, y1: int32) returns (points: seq<(int32, int32)>)
    requires LineFits(Extent(x0, x1), Extent(y0, y1))
    ensures |points| == Max(Extent(x0, x1), Extent(y0, y1)) + 1
    ensures AllPlotted(x0 as int, y0 as int, x1 as int, y1 as int, points)
  {
    hide Steps, Error, AllPlotted, RunFits, LineFits;
    LineIsInt(Extent(x0, x1), Extent(y0, y1));
    RunFitsIff(Extent(x0, x1), Extent(y0, y1));
    var dx := if x1 > x0 then x1 - x0 else x0 - x1;
    var sx: int32 := if x0 < x1 then 1 else -1;
    var dy := if y1 > y0 then y1 - y0 else y0 - y1;
    var sy: int32 := if y0 < y1 then 1 else -1;
    var err := dx - dy;
    var x, y := x0, y0;
    points := [];
    ghost var dX: nat, dY: nat, p := dx as int, dy as int, (0, 0);
    Begins(dX, dY);
    NonePlotted(x0 as int, y0 as int, x1 as int, y1 as int);
    while true
      invariant |points| <= Max(dX, dY)
      invariant p == Steps(dX, dY, |points|)
      invariant x as int == Along(x0 as int, x1 as int, p.0)
      invariant y as int == Along(y0 as int, y1 as int, p.1)
      invariant err as int == Error(dX, dY, p.0, p.1)
      invariant AllPlotted(x0 as int, y0 as int, x1 as int, y1 as int, points)
      decreases Max(dX, dY) - |points|
    {
      Ends(dX, dY, |points|);
      PlotOne(x0 as int, y0 as int, x1 as int, y1 as int, points, x, y, p);
      points := points + [(x, y)];
      if x == x1 && y == y1 {
        break;
      }
      Iterate(dX, dY, |points| - 1);
      p := Steps(dX, dY, |points|);
      var e2 := 2 * err;
      if e2 > -dy {
        err := err - dy;
        x := x + sx;
      }
      if e2 < dx {
        err := err + dx;
        y := y + sy;
      }
    }
  }

  /** gfx_line: an unbroken chain of pixels from end to end along the ideal line, all of it marked dirty. */
  method DrawLine(x0: int32, y0: int32, x1: int32, y1: int32) returns (points: seq<(int32, int32)>, dirty: Rect)
    requires LineFits(Extent(x0, x1), Extent(y0, y1)) && Extent(x0, x1) < 0x7FFF_FFFF && Extent(y0, y1) < 0x7FFF_FFFF
    ensures |points| == Max(Extent(x0, x1), Extent(y0, y1)) + 1
    ensures points[0] == (x0, y0) && points[|points| - 1] == (x1, y1)
    ensures AllPlotted(x0 as int, y0 as int, x1 as int, y1 as int, points)
    ensures forall k :: 0 < k < |points| ==> Adjacent(points[k - 1], points[k])
    ensures forall k :: 0 <= k < |points| ==>
      HalfPixel(x0 as int, y0 as int, x1 as int, y1 as int, points[k].0 as int, points[k].1 as int)
    ensures forall k :: 0 <= k < |points| ==> Covered(dirty, points[k].0 as int, points[k].1 as int)
    ensures dirty.w as int == Extent(x0, x1) + 1 && dirty.h as int == Extent(y0, y1) + 1
    ensures dirty.x as int == Max(0, Min(x0 as int, x1 as int)) && dirty.y as int == Max(0, Min(y0 as int, y1 as int))
  {
    points := PlotLine(x0, y0, x1, y1);
    var left := if x0 < x1 then x0 else x1;
    var top := if y0 < y1 then y0 else y1;
    dirty := Rect(
      if left < 0 then 0 else left, if top < 0 then 0 else top,
      (if x1 > x0 then x1 - x0 else x0 - x1) + 1, (if y1 > y0 then y1 - y0 else y0 - y1) + 1);
    ghost var X0, Y0, X1, Y1 := x0 as int, y0 as int, x1 as int, y1 as int;
    forall k | 0 < k < |points| ensures Adjacent(points[k - 1], points[k]) {
      NextAdjacent(X0, Y0, X1, Y1, k, points[k - 1], points[k]);
    }
    hide Plotted, HalfPixel;
    forall k | 0 <= k < |points|
      ensures HalfPixel(X0, Y0, X1, Y1, points[k].0 as int, points[k].1 as int)
      ensures Covered(dirty, points[k].0 as int, points[k].1 as int)
    {
      PlottedPoint(X0, Y0, X1, Y1, k, points[k].0 as int, points[k].1 as int);
    }
    PlottedPoint(X0, Y0, X1, Y1, 0, points[0].0 as int, points[0].1 as int);
    var last := |points| - 1;
    PlottedPoint(X0, Y0, X1, Y1, last, points[last].0 as int, points[last].1 as int);
  }

  predicate Adjacent(p: (int32, int32), q: (int32, int32)) {
    Abs(q.0 as int - p.0 as int) <= 1 && Abs(q.1 as int - p.1 as int) <= 1
  }

  lemma NextAdjacent(x0: int, y0: int, x1: int, y1: int, k: nat, p: (int32, int32), q: (int32, int32))
    requires k > 0
    requires Plotted(x0, y0, x1, y1, k - 1, p.0 as int, p.1 as int)
    requires Plotted(x0, y0, x1, y1, k, q.0 as int, q.1 as int)
    ensures Adjacent(p, q)
  {
  }
}
