/** The 5x5 box blur with clamped borders of tutorial10_convolutionSchedule.py.

    clamped(x, y)      = input at (x, y) clamped to the image;
    blur_x(x, y)       = the sum of clamped at x - 2 .. x + 2 on row y;
    clampedBlurx(x, y) = blur_x at (x, y) clamped to the image;
    blur_y(x, y)       = the sum of clampedBlurx at rows y - 2 .. y + 2 in column x;
    blur(x, y)         = blur_y(x, y) / 25.

    Both clamped and clampedBlurx read their producer at `ClampPoint`.

    The schedules only place clampedBlurx relative to blur, so the traces
    record those two stages; blur_y is pointwise in blur and is computed
    with it. */
module Convolution {
  import opened Sequences
  import opened Geometry
  import opened Clamping
  import opened LoopNests
  import opened Events
  import opened Schedules

  const KernelWidth: nat := 5

  /** `kernel_width/2` on Python integers. */
  const Radius: nat := KernelWidth / 2

  /** blur(x, y) reads clampedBlurx in column x, rows y - 2 .. y + 2. */
  const ConvPipe: Pipe := Pipe(ClampedBlurX, Blur, -(Radius as int), KernelWidth - 1)

  /** The input pixels blur_x at `p` reads through clamped, in the order of
      its reduction over rx. */
  function BlurXInputReads(width: int, height: int, p: Point): seq<Point>
  {
    seq(KernelWidth, rx => ClampPoint(width, height, Point(p.x + rx - Radius, p.y)))
  }

  /** Iteration ry of blur_y's reduction: the input pixels behind the
      clampedBlurx value at row y + ry - 2. */
  function BlurInputRows(width: int, height: int, p: Point): nat -> seq<Point>
  {
    (ry: nat) => BlurXInputReads(width, height, ClampPoint(width, height, Point(p.x, p.y + ry - Radius)))
  }

  /** All the input pixels blur at `p` depends on, in evaluation order. */
  function BlurInputReads(width: int, height: int, p: Point): seq<Point>
  {
    Concat(KernelWidth, BlurInputRows(width, height, p))
  }

  /* ---------------------------------------------------------------------
     Footprints
     --------------------------------------------------------------------- */

  /** blur reads clampedBlurx in its own column, two rows above to two rows
      below. */
  lemma BlurTaps(p: Point, q: Point)
    ensures q in Taps(ConvPipe, p) <==> q.x == p.x && p.y - 2 <= q.y <= p.y + 2
  {
    TapsMembership(ConvPipe, p, q);
  }

  /** Whatever pixel blur is evaluated at, every input pixel it depends on is
      inside the image: the full width x height output is safe to realize. */
  lemma InputReadsInBounds(width: int, height: int, p: Point)
    requires width >= 1 && height >= 1
    ensures forall r :: r in BlurInputReads(width, height, p) ==> Box(0, width, 0, height).Contains(r)
  {
    forall r | r in BlurInputReads(width, height, p)
      ensures Box(0, width, 0, height).Contains(r)
    {
      var rows := BlurInputRows(width, height, p);
      var ry := InConcatWitness(KernelWidth, rows, r);
      var c := ClampPoint(width, height, Point(p.x, p.y + ry - Radius));
      assert rows(ry) == BlurXInputReads(width, height, c);
      var rx :| 0 <= rx < KernelWidth && BlurXInputReads(width, height, c)[rx] == r;
      ClampPointInside(width, height, Point(c.x + rx - Radius, c.y));
    }
  }

  /** Two pixels or more away from the border, blur depends on exactly the
      5x5 box of input pixels centred on it. */
  lemma InteriorFootprint(width: int, height: int, p: Point, r: Point)
    requires Box(Radius, width - Radius, Radius, height - Radius).Contains(p)
    ensures r in BlurInputReads(width, height, p) <==> Box(p.x - 2, p.x + 3, p.y - 2, p.y + 3).Contains(r)
  {
    if r in BlurInputReads(width, height, p) {
      InteriorReadInside(width, height, p, r);
    }
    if Box(p.x - 2, p.x + 3, p.y - 2, p.y + 3).Contains(r) {
      InteriorPixelRead(width, height, p, r);
    }
  }

  lemma InteriorReadInside(width: int, height: int, p: Point, r: Point)
    requires Box(Radius, width - Radius, Radius, height - Radius).Contains(p)
    requires r in BlurInputReads(width, height, p)
    ensures Box(p.x - 2, p.x + 3, p.y - 2, p.y + 3).Contains(r)
  {
    var rows := BlurInputRows(width, height, p);
    var ry := InConcatWitness(KernelWidth, rows, r);
    var c := Point(p.x, p.y + ry - Radius);
    ClampPointInside(width, height, c);
    assert rows(ry) == BlurXInputReads(width, height, c);
    InteriorRowRead(width, height, c, r);
  }

  /** Away from the left and right borders, blur_x on a row of the image
      reads that row, two columns left to two columns right. */
  lemma InteriorRowRead(width: int, height: int, c: Point, r: Point)
    requires Box(Radius, width - Radius, 0, height).Contains(c)
    requires r in BlurXInputReads(width, height, c)
    ensures r.y == c.y && c.x - 2 <= r.x <= c.x + 2
  {
    var rx :| 0 <= rx < KernelWidth && BlurXInputReads(width, height, c)[rx] == r;
    ClampPointInside(width, height, Point(c.x + rx - Radius, c.y));
  }

  lemma InteriorPixelRead(width: int, height: int, p: Point, r: Point)
    requires Box(Radius, width - Radius, Radius, height - Radius).Contains(p)
    requires Box(p.x - 2, p.x + 3, p.y - 2, p.y + 3).Contains(r)
    ensures r in BlurInputReads(width, height, p)
  {
    var rows := BlurInputRows(width, height, p);
    var ry: nat, rx: nat := r.y - p.y + 2, r.x - p.x + 2;
    var c := Point(p.x, r.y);
    ClampPointInside(width, height, c);
    ClampPointInside(width, height, r);
    assert rows(ry) == BlurXInputReads(width, height, c);
    assert BlurXInputReads(width, height, c)[rx] == r;
    InConcat(KernelWidth, rows, ry, r);
  }

  /* ---------------------------------------------------------------------
     Schedules
     --------------------------------------------------------------------- */

  /** The `indexOfSchedule` chain of `boxBlur`:
      1 computes clampedBlurx at root; 2 to 5 tile blur and compute
      clampedBlurx per tile (parallel and vector variants share one serial
      order); 6 computes clampedBlurx at root and tiles blur; any other
      index keeps the default, which recomputes clampedBlurx inside blur.
      The tiled schedules are modelled for tiles that divide the output. */
  function Schedule(index: int, width: nat, height: nat, tileX: nat, tileY: nat): seq<Event>
    requires tileX > 0 && tileY > 0
    requires 2 <= index <= 6 ==> width % tileX == 0 && height % tileY == 0
  {
    if index == 1 then RootTrace(ConvPipe, width, height)
    else if 2 <= index <= 5 then TiledTrace(ConvPipe, width, height, tileX, tileY)
    else if index == 6 then RootThenTrace(ConvPipe, width, height, Tiled(width, height, tileX, tileY))
    else InlineTrace(ConvPipe, width, height)
  }

  /** Every schedule computes each blur value of the width x height output
      exactly once, after the clampedBlurx values it reads. */
  lemma ScheduleCorrect(index: int, width: nat, height: nat, tileX: nat, tileY: nat)
    requires tileX > 0 && tileY > 0
    requires 2 <= index <= 6 ==> width % tileX == 0 && height % tileY == 0
    ensures ReadsAvailable(ConvPipe, Schedule(index, width, height, tileX, tileY))
    ensures CoversOnce(Project(Blur, Schedule(index, width, height, tileX, tileY)), Box(0, width, 0, height))
  {
    var t := Schedule(index, width, height, tileX, tileY);
    var out := Box(0, width, 0, height);
    if index == 1 {
      RootAvailable(ConvPipe, width, height);
      RootConsumer(ConvPipe, width, height);
      BlockCovers(0, 0, width, height);
    } else if 2 <= index <= 5 {
      TiledAvailable(ConvPipe, width, height, tileX, tileY);
      TiledConsumer(ConvPipe, width, height, tileX, tileY);
      TiledCovers(width, height, tileX, tileY);
    } else if index == 6 {
      var order := Tiled(width, height, tileX, tileY);
      assert CoversOnce(order, out) by {
        TiledCovers(width, height, tileX, tileY);
      }
      forall p | p in order
        ensures out.Contains(p)
      {
        CoversMembership(order, out, p);
      }
      RootThenAvailable(ConvPipe, width, height, order);
      UnitProjections(ConvPipe, Footprint(ConvPipe, 0, 0, width, height), order);
    } else {
      InlineAvailable(ConvPipe, width, height);
      InlineConsumer(ConvPipe, width, height);
      BlockCovers(0, 0, width, height);
    }
  }

  /** Schedules 1 and 6: clampedBlurx is produced once over all of the
      columns of the output and two more rows above and below, before any
      blur value. */
  lemma RootProducesFirst(index: int, width: nat, height: nat, tileX: nat, tileY: nat)
    requires tileX > 0 && tileY > 0 && (index == 1 || index == 6)
    requires index == 6 ==> width % tileX == 0 && height % tileY == 0
    ensures CoversOnce(Project(ClampedBlurX, Schedule(index, width, height, tileX, tileY)), Box(0, width, -2, height + 2))
    ensures forall i, j :: 0 <= i < j < |Schedule(index, width, height, tileX, tileY)|
              && Schedule(index, width, height, tileX, tileY)[i].stage == Blur
              ==> Schedule(index, width, height, tileX, tileY)[j].stage == Blur
  {
    var t := Schedule(index, width, height, tileX, tileY);
    var region := Footprint(ConvPipe, 0, 0, width, height);
    var order := if index == 1 then Block(0, 0, width, height) else Tiled(width, height, tileX, tileY);
    assert t == Unit(ConvPipe, region, order);
    assert Project(ClampedBlurX, t) == region by {
      UnitProjections(ConvPipe, region, order);
    }
    assert CoversOnce(region, Box(0, width, -2, height + 2)) by {
      FootprintCovers(ConvPipe, 0, 0, width, height);
    }
    UnitOrder(ConvPipe, region, order);
  }

  /** Schedules 2 to 5: per tile, clampedBlurx covers the tile's columns and
      its rows widened by two on each side, then blur covers the tile. */
  lemma TileFootprint(tileX: nat, tileY: nat, xo: nat, yo: nat)
    ensures TileUnits(ConvPipe, tileX, tileY, yo)(xo)
         == Unit(ConvPipe, Footprint(ConvPipe, xo * tileX, yo * tileY, tileX, tileY), Tile(tileX, tileY, xo, yo))
    ensures CoversOnce(Footprint(ConvPipe, xo * tileX, yo * tileY, tileX, tileY),
                       Box(xo * tileX, xo * tileX + tileX, yo * tileY - 2, yo * tileY + tileY + 2))
  {
    FootprintCovers(ConvPipe, xo * tileX, yo * tileY, tileX, tileY);
  }

  /** How many clampedBlurx values each schedule computes: once per needed
      value at root, once per tile-row pass when tiled, five times per
      output pixel by default. */
  lemma ScheduleWork(index: int, width: nat, height: nat, tileX: nat, tileY: nat)
    requires tileX > 0 && tileY > 0
    requires 2 <= index <= 6 ==> width % tileX == 0 && height % tileY == 0
    ensures |Project(ClampedBlurX, Schedule(index, width, height, tileX, tileY))|
         == if index == 1 || index == 6 then width * (height + 4)
            else if 2 <= index <= 5 then (height / tileY) * ((width / tileX) * (tileX * (tileY + 4)))
            else height * (width * 5)
  {
    if index == 1 {
      RootWork(ConvPipe, width, height);
    } else if 2 <= index <= 5 {
      TiledWork(ConvPipe, width, height, tileX, tileY);
    } else if index == 6 {
      UnitProjections(ConvPipe, Footprint(ConvPipe, 0, 0, width, height), Tiled(width, height, tileX, tileY));
      FootprintCovers(ConvPipe, 0, 0, width, height);
    } else {
      InlineWork(ConvPipe, width, height);
    }
  }
}
