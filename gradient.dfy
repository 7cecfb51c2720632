/** The gradient-magnitude pipelines of tutorial3_gradient.py (no boundary
    handling, output shrunk by one pixel) and tutorial4_gradientClamped.py
    (clamped input, full-size output), as the pixels each stage reads.

    The values (differences, squares, square roots) are floating point and
    are not modelled; what decides whether a realization is safe is only
    which coordinates are read. */
module Gradient {
  import opened Geometry
  import opened Clamping

  /* ---------------------------------------------------------------------
     tutorial3: forward differences on the raw input
     --------------------------------------------------------------------- */

  /** gx(x, y) = input(x + 1, y) - input(x, y). */
  function ForwardGxReads(p: Point): seq<Point>
  {
    [Point(p.x + 1, p.y), p]
  }

  /** gy(x, y) = input(x, y + 1) - input(x, y). */
  function ForwardGyReads(p: Point): seq<Point>
  {
    [Point(p.x, p.y + 1), p]
  }

  /** The input pixels gradientMagnitude at `p` depends on: it reads gx and
      gy at (x, y) only. */
  function ForwardInputReads(p: Point): seq<Point>
  {
    ForwardGxReads(p) + ForwardGyReads(p)
  }

  /** gradientMagnitude at `p` reads the input only inside the width x height
      image exactly when `p` lies in the (width - 1) x (height - 1) region
      that tutorial3 realizes. */
  lemma ForwardInBounds(width: int, height: int, p: Point)
    ensures (forall r :: r in ForwardInputReads(p) ==> Box(0, width, 0, height).Contains(r))
        <==> Box(0, width - 1, 0, height - 1).Contains(p)
  {
    assert ForwardInputReads(p) == [Point(p.x + 1, p.y), p, Point(p.x, p.y + 1), p];
    assert Point(p.x + 1, p.y) in ForwardInputReads(p) && Point(p.x, p.y + 1) in ForwardInputReads(p);
  }

  /** Realizing the full width x height output would read column `width`:
      gradientMagnitude at the last pixel reads one past the image. */
  lemma ForwardFullSizeOverruns(width: int, height: int)
    requires width >= 1 && height >= 1
    ensures Box(0, width, 0, height).Contains(Point(width - 1, height - 1))
    ensures Point(width, height - 1) in ForwardInputReads(Point(width - 1, height - 1))
    ensures !Box(0, width, 0, height).Contains(Point(width, height - 1))
  {
    assert ForwardInputReads(Point(width - 1, height - 1))[0] == Point(width, height - 1);
  }

  /** Every input pixel gradientMagnitude reads at `p` is `p` itself or its
      right or lower neighbour. */
  lemma ForwardNeighbours(p: Point, r: Point)
    ensures r in ForwardInputReads(p) <==> r == p || r == Point(p.x + 1, p.y) || r == Point(p.x, p.y + 1)
  {
    assert ForwardInputReads(p) == [Point(p.x + 1, p.y), p, Point(p.x, p.y + 1), p];
  }

  /* ---------------------------------------------------------------------
     tutorial4: backward differences on the clamped input
     --------------------------------------------------------------------- */

  /** gx(x, y) = clamped(x, y) - clamped(x - 1, y). */
  function BackwardGxReads(p: Point): seq<Point>
  {
    [p, Point(p.x - 1, p.y)]
  }

  /** gy(x, y) = clamped(x, y) - clamped(x, y - 1). */
  function BackwardGyReads(p: Point): seq<Point>
  {
    [p, Point(p.x, p.y - 1)]
  }

  /** The input pixels behind the clamped values at `pts`. */
  function ClampAll(width: int, height: int, pts: seq<Point>): (r: seq<Point>)
    ensures |r| == |pts|
    ensures forall k :: 0 <= k < |pts| ==> r[k] == ClampPoint(width, height, pts[k])
  {
    seq(|pts|, k requires 0 <= k < |pts| => ClampPoint(width, height, pts[k]))
  }

  /** The input pixels gradientMagnitude at `p` depends on, through clamped. */
  function ClampedInputReads(width: int, height: int, p: Point): seq<Point>
  {
    ClampAll(width, height, BackwardGxReads(p) + BackwardGyReads(p))
  }

  /** For any pixel at all, every input pixel read lies inside a non-empty
      image: realizing the full width x height output is safe. */
  lemma ClampedInBounds(width: int, height: int, p: Point)
    requires width >= 1 && height >= 1
    ensures forall r :: r in ClampedInputReads(width, height, p) ==> Box(0, width, 0, height).Contains(r)
  {
    var pts := BackwardGxReads(p) + BackwardGyReads(p);
    forall r | r in ClampedInputReads(width, height, p)
      ensures Box(0, width, 0, height).Contains(r)
    {
      var k :| 0 <= k < |pts| && ClampedInputReads(width, height, p)[k] == r;
      ClampPointInside(width, height, pts[k]);
    }
  }

  /** Away from the top and left borders clamping changes nothing: gx and gy
      read the pixel and its left and upper neighbours. */
  lemma ClampedInterior(width: int, height: int, p: Point)
    requires Box(1, width, 1, height).Contains(p)
    ensures ClampedInputReads(width, height, p) == [p, Point(p.x - 1, p.y), p, Point(p.x, p.y - 1)]
  {
    ClampPointInside(width, height, p);
    ClampPointInside(width, height, Point(p.x - 1, p.y));
    ClampPointInside(width, height, Point(p.x, p.y - 1));
  }

  /** On the left border the missing left neighbour is replaced by the
      border pixel itself, and on the top border the missing upper one. */
  lemma ClampedBorder(width: int, height: int, p: Point)
    requires Box(0, width, 0, height).Contains(p)
    ensures p.x == 0 ==> ClampedInputReads(width, height, p)[1] == p
    ensures p.y == 0 ==> ClampedInputReads(width, height, p)[3] == p
  {
    ClampPointInside(width, height, p);
  }

  /* ---------------------------------------------------------------------
     The numpy `clamped` helper of tutorial4's exercise
     --------------------------------------------------------------------- */

  /** The helper as written clamps the row index to `shape[0]` and the
      column index to `shape[1]`, one past the last valid index. */
  function ClampPointAsWritten(width: int, height: int, p: Point): Point
  {
    Point(Clamp(p.x, 0, width), Clamp(p.y, 0, height))
  }

  /** As written, the helper stays inside the image exactly for pixels left
      of column `width` and above row `height`: any pixel below the last
      row or right of the last column is looked up out of range. */
  lemma ClampPointAsWrittenOverruns(width: int, height: int, p: Point)
    requires width >= 1 && height >= 1
    ensures Box(0, width, 0, height).Contains(ClampPointAsWritten(width, height, p))
        <==> p.x < width && p.y < height
  {
    ClampCases(p.x, 0, width);
    ClampCases(p.y, 0, height);
  }
}
