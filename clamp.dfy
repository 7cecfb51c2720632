/** The coordinate clamp used by every boundary-handling stage
    (tutorial4_gradientClamped.py, tutorial10_convolutionSchedule.py). */
module Clamping {
  import opened Geometry

  /** `clamp(a, mini, maxi)`: first raise `a` to `mini`, then lower it to
      `maxi`.  When the bounds cross (`mini > maxi`) the second step wins. */
  function Clamp(a: int, mini: int, maxi: int): (r: int)
    ensures mini <= maxi ==> mini <= r <= maxi
    ensures mini > maxi ==> r == maxi
  {
    var raised := if a < mini then mini else a;
    if raised > maxi then maxi else raised
  }

  /** Below the range gives `mini`, above gives `maxi`, inside is unchanged. */
  lemma ClampCases(a: int, mini: int, maxi: int)
    requires mini <= maxi
    ensures a < mini ==> Clamp(a, mini, maxi) == mini
    ensures a > maxi ==> Clamp(a, mini, maxi) == maxi
    ensures mini <= a <= maxi ==> Clamp(a, mini, maxi) == a
  {
  }

  /** Clamping an already clamped value changes nothing. */
  lemma ClampIdempotent(a: int, mini: int, maxi: int)
    ensures Clamp(Clamp(a, mini, maxi), mini, maxi) == Clamp(a, mini, maxi)
  {
  }

  /** Clamping preserves the order of coordinates. */
  lemma ClampMonotone(a: int, b: int, mini: int, maxi: int)
    requires a <= b
    ensures Clamp(a, mini, maxi) <= Clamp(b, mini, maxi)
  {
  }

  /** `input[clamp(x, 0, width - 1), clamp(y, 0, height - 1)]`: the pixel a
      boundary stage reads for (x, y), replicating the nearest edge. */
  function ClampPoint(width: int, height: int, p: Point): Point
  {
    Point(Clamp(p.x, 0, width - 1), Clamp(p.y, 0, height - 1))
  }

  /** On a non-empty image a clamped pixel is always inside it, and clamping
      leaves exactly the pixels inside unchanged. */
  lemma ClampPointInside(width: int, height: int, p: Point)
    requires width >= 1 && height >= 1
    ensures Box(0, width, 0, height).Contains(ClampPoint(width, height, p))
    ensures ClampPoint(width, height, p) == p <==> Box(0, width, 0, height).Contains(p)
  {
    ClampCases(p.x, 0, width - 1);
    ClampCases(p.y, 0, height - 1);
  }
}
