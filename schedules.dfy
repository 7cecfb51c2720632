/** The producer/consumer schedules of a two-stage pipeline, as traces.

    In Halide the consumer's loop nest drives the pipeline, and
    `producer.compute_at(consumer, v)` places the producer's computation
    inside the consumer's loop over `v`: at each iteration the producer is
    computed over the region that iteration of the consumer reads (bounds
    inference), then the consumer runs.  Each schedule is therefore a
    `Concat` of `Unit`s, one per iteration of the loop the producer is
    computed at:

      * root (`compute_root`):        one unit over the whole output;
      * inline / `compute_at(c, x)`:  one unit per consumer pixel;
      * `tile` + `compute_at(c, xo)`: one unit per tile;
      * `tile` + `compute_at(c, yo)`: one unit per row of tiles;
      * `compute_at(c, y)`:           one unit per consumer scanline.

    The lemmas state for each schedule that every read is available, which
    pixels the consumer computes and in which order, and how many producer
    values it computes (its redundancy). */
module Schedules {
  import opened Sequences
  import opened Geometry
  import opened Clamping
  import opened LoopNests
  import opened Events

  /** The producer region a consumer box at (x0, y0) of size w x h reads:
      the same columns, with rows widened by the stencil. */
  function Footprint(pipe: Pipe, x0: int, y0: int, w: nat, h: nat): seq<Point>
  {
    Block(x0, y0 + pipe.lo, w, h + pipe.halo)
  }

  /** The producer over the footprint of a box, then the consumer over it. */
  function BoxUnit(pipe: Pipe, x0: int, y0: int, w: nat, h: nat): seq<Event>
  {
    Unit(pipe, Footprint(pipe, x0, y0, w, h), Block(x0, y0, w, h))
  }

  /** Both stages `compute_root`: the producer over everything the w x h
      output reads, then the consumer row by row. */
  function RootTrace(pipe: Pipe, w: nat, h: nat): seq<Event>
  {
    BoxUnit(pipe, 0, 0, w, h)
  }

  /** Producer computed at root, consumer walking the output in `order`. */
  function RootThenTrace(pipe: Pipe, w: nat, h: nat, order: seq<Point>): seq<Event>
  {
    Unit(pipe, Footprint(pipe, 0, 0, w, h), order)
  }

  /** Iteration x of the consumer's x loop in scanline y, with the producer
      inlined (or computed at x): the producer values of the stencil, then
      the consumer value. */
  function PixelUnits(pipe: Pipe, y: int): nat -> seq<Event>
  {
    (x: nat) => Unit(pipe, Taps(pipe, Point(x, y)), [Point(x, y)])
  }

  function PixelRows(pipe: Pipe, w: nat): nat -> seq<Event>
  {
    (y: nat) => Concat(w, PixelUnits(pipe, y))
  }

  /** The producer inlined into the consumer, or computed at the consumer's
      innermost loop: one unit per output pixel, row by row. */
  function InlineTrace(pipe: Pipe, w: nat, h: nat): seq<Event>
  {
    Concat(h, PixelRows(pipe, w))
  }

  /** Iteration xo of the tile loop in tile row yo. */
  function TileUnits(pipe: Pipe, tw: nat, th: nat, yo: nat): nat -> seq<Event>
  {
    (xo: nat) => BoxUnit(pipe, xo * tw, yo * th, tw, th)
  }

  function TileUnitRows(pipe: Pipe, tw: nat, th: nat, ntx: nat): nat -> seq<Event>
  {
    (yo: nat) => Concat(ntx, TileUnits(pipe, tw, th, yo))
  }

  /** `consumer.tile(x, y, xo, yo, xi, yi, tw, th)` with
      `producer.compute_at(consumer, xo)`: per tile, the producer over the
      tile's footprint, then the consumer over the tile. */
  function TiledTrace(pipe: Pipe, w: nat, h: nat, tw: nat, th: nat): seq<Event>
    requires tw > 0 && th > 0
  {
    Concat(h / th, TileUnitRows(pipe, tw, th, w / tw))
  }

  /** Iteration yo of the tile-row loop: the producer over the footprint of
      the whole row of tiles, then the consumer tile by tile. */
  function BandUnits(pipe: Pipe, w: nat, tw: nat, th: nat): nat -> seq<Event>
    requires tw > 0
  {
    (yo: nat) => Unit(pipe, Footprint(pipe, 0, yo * th, w, th), TileRows(tw, th, w / tw)(yo))
  }

  /** `consumer.tile(x, y, xo, yo, xi, yi, tw, th)` with
      `producer.compute_at(consumer, yo)`. */
  function BandTrace(pipe: Pipe, w: nat, h: nat, tw: nat, th: nat): seq<Event>
    requires tw > 0 && th > 0
  {
    Concat(h / th, BandUnits(pipe, w, tw, th))
  }

  /** Iteration y of the consumer's y loop: the producer over what one
      scanline reads, then the scanline. */
  function ScanlineUnits(pipe: Pipe, w: nat): nat -> seq<Event>
  {
    (y: nat) => BoxUnit(pipe, 0, y, w, 1)
  }

  /** `producer.compute_at(consumer, y)`. */
  function ScanlineTrace(pipe: Pipe, w: nat, h: nat): seq<Event>
  {
    Concat(h, ScanlineUnits(pipe, w))
  }

  /* ---------------------------------------------------------------------
     Footprints
     --------------------------------------------------------------------- */

  /** The footprint of a box is walked row by row, each value once. */
  lemma FootprintCovers(pipe: Pipe, x0: int, y0: int, w: nat, h: nat)
    ensures CoversOnce(Footprint(pipe, x0, y0, w, h), Box(x0, x0 + w, y0 + pipe.lo, y0 + pipe.lo + h + pipe.halo))
    ensures |Footprint(pipe, x0, y0, w, h)| == w * (h + pipe.halo)
  {
    BlockCovers(x0, y0 + pipe.lo, w, h + pipe.halo);
    BlockLength(x0, y0 + pipe.lo, w, h + pipe.halo);
  }

  /** Every value a pixel of the box reads lies in the footprint. */
  lemma FootprintHolds(pipe: Pipe, x0: int, y0: int, w: nat, h: nat)
    ensures forall p, q :: p in Block(x0, y0, w, h) && q in Taps(pipe, p) ==> q in Footprint(pipe, x0, y0, w, h)
  {
    forall p, q | p in Block(x0, y0, w, h) && q in Taps(pipe, p)
      ensures q in Footprint(pipe, x0, y0, w, h)
    {
      InBlock(x0, y0, w, h, p);
      TapsMembership(pipe, p, q);
      InBlock(x0, y0 + pipe.lo, w, h + pipe.halo, q);
    }
  }

  /** The footprint of a non-empty box holds nothing else: each of its values
      is read by some pixel of the box. */
  lemma FootprintExact(pipe: Pipe, x0: int, y0: int, w: nat, h: nat, q: Point)
    requires w > 0 && h > 0
    ensures q in Footprint(pipe, x0, y0, w, h) <==> exists p :: p in Block(x0, y0, w, h) && q in Taps(pipe, p)
  {
    FootprintHolds(pipe, x0, y0, w, h);
    if q in Footprint(pipe, x0, y0, w, h) {
      InBlock(x0, y0 + pipe.lo, w, h + pipe.halo, q);
      var p := Point(q.x, Clamp(q.y - pipe.lo, y0, y0 + h - 1));
      InBlock(x0, y0, w, h, p);
      TapsMembership(pipe, p, q);
    }
  }

  /* ---------------------------------------------------------------------
     Every read is available
     --------------------------------------------------------------------- */

  lemma BoxUnitAvailable(pipe: Pipe, x0: int, y0: int, w: nat, h: nat)
    requires pipe.producer != pipe.consumer
    ensures ReadsAvailable(pipe, BoxUnit(pipe, x0, y0, w, h))
  {
    FootprintHolds(pipe, x0, y0, w, h);
    UnitAvailable(pipe, Footprint(pipe, x0, y0, w, h), Block(x0, y0, w, h));
  }

  lemma RootAvailable(pipe: Pipe, w: nat, h: nat)
    requires pipe.producer != pipe.consumer
    ensures ReadsAvailable(pipe, RootTrace(pipe, w, h))
  {
    BoxUnitAvailable(pipe, 0, 0, w, h);
  }

  /** Whatever order the consumer walks the output in, computing the
      producer at root first makes every read available. */
  lemma RootThenAvailable(pipe: Pipe, w: nat, h: nat, order: seq<Point>)
    requires pipe.producer != pipe.consumer
    requires forall p :: p in order ==> Box(0, w, 0, h).Contains(p)
    ensures ReadsAvailable(pipe, RootThenTrace(pipe, w, h, order))
  {
    FootprintHolds(pipe, 0, 0, w, h);
    forall p, q | p in order && q in Taps(pipe, p)
      ensures q in Footprint(pipe, 0, 0, w, h)
    {
      InBlock(0, 0, w, h, p);
    }
    UnitAvailable(pipe, Footprint(pipe, 0, 0, w, h), order);
  }

  lemma InlineAvailable(pipe: Pipe, w: nat, h: nat)
    requires pipe.producer != pipe.consumer
    ensures ReadsAvailable(pipe, InlineTrace(pipe, w, h))
  {
    forall y: nat | y < h
      ensures ReadsAvailable(pipe, PixelRows(pipe, w)(y))
    {
      forall x: nat | x < w
        ensures ReadsAvailable(pipe, PixelUnits(pipe, y)(x))
      {
        UnitAvailable(pipe, Taps(pipe, Point(x, y)), [Point(x, y)]);
      }
      ConcatAvailable(pipe, w, PixelUnits(pipe, y));
    }
    ConcatAvailable(pipe, h, PixelRows(pipe, w));
  }

  lemma TiledAvailable(pipe: Pipe, w: nat, h: nat, tw: nat, th: nat)
    requires pipe.producer != pipe.consumer && tw > 0 && th > 0
    ensures ReadsAvailable(pipe, TiledTrace(pipe, w, h, tw, th))
  {
    var ntx := w / tw;
    forall yo: nat | yo < h / th
      ensures ReadsAvailable(pipe, TileUnitRows(pipe, tw, th, ntx)(yo))
    {
      forall xo: nat | xo < ntx
        ensures ReadsAvailable(pipe, TileUnits(pipe, tw, th, yo)(xo))
      {
        BoxUnitAvailable(pipe, xo * tw, yo * th, tw, th);
      }
      ConcatAvailable(pipe, ntx, TileUnits(pipe, tw, th, yo));
    }
    ConcatAvailable(pipe, h / th, TileUnitRows(pipe, tw, th, ntx));
  }

  lemma BandAvailable(pipe: Pipe, w: nat, h: nat, tw: nat, th: nat)
    requires pipe.producer != pipe.consumer && tw > 0 && th > 0
    ensures ReadsAvailable(pipe, BandTrace(pipe, w, h, tw, th))
  {
    var ntx := w / tw;
    FusedParts(w, tw);
    assert ntx * tw <= w;
    forall yo: nat | yo < h / th
      ensures ReadsAvailable(pipe, BandUnits(pipe, w, tw, th)(yo))
    {
      var tiles := TileRows(tw, th, ntx)(yo);
      TileRowCovers(tw, th, yo, ntx);
      FootprintHolds(pipe, 0, yo * th, w, th);
      forall p, q | p in tiles && q in Taps(pipe, p)
        ensures q in Footprint(pipe, 0, yo * th, w, th)
      {
        CoversMembership(tiles, Box(0, ntx * tw, yo * th, yo * th + th), p);
        InBlock(0, yo * th, w, th, p);
      }
      UnitAvailable(pipe, Footprint(pipe, 0, yo * th, w, th), tiles);
    }
    ConcatAvailable(pipe, h / th, BandUnits(pipe, w, tw, th));
  }

  lemma ScanlineAvailable(pipe: Pipe, w: nat, h: nat)
    requires pipe.producer != pipe.consumer
    ensures ReadsAvailable(pipe, ScanlineTrace(pipe, w, h))
  {
    forall y: nat | y < h
      ensures ReadsAvailable(pipe, ScanlineUnits(pipe, w)(y))
    {
      BoxUnitAvailable(pipe, 0, y, w, 1);
    }
    ConcatAvailable(pipe, h, ScanlineUnits(pipe, w));
  }

  /* ---------------------------------------------------------------------
     What the consumer computes, and in which order
     --------------------------------------------------------------------- */

  /** Root: the consumer walks the output row by row, after every producer
      value. */
  lemma RootConsumer(pipe: Pipe, w: nat, h: nat)
    requires pipe.producer != pipe.consumer
    ensures Project(pipe.consumer, RootTrace(pipe, w, h)) == RowMajor(w, h)
    ensures Project(pipe.producer, RootTrace(pipe, w, h)) == Footprint(pipe, 0, 0, w, h)
    ensures forall i, j :: 0 <= i < j < |RootTrace(pipe, w, h)| && RootTrace(pipe, w, h)[i].stage == pipe.consumer
              ==> RootTrace(pipe, w, h)[j].stage == pipe.consumer
  {
    UnitProjections(pipe, Footprint(pipe, 0, 0, w, h), Block(0, 0, w, h));
  }

  /** Inline: the consumer still walks the output row by row. */
  lemma InlineConsumer(pipe: Pipe, w: nat, h: nat)
    requires pipe.producer != pipe.consumer
    ensures Project(pipe.consumer, InlineTrace(pipe, w, h)) == RowMajor(w, h)
  {
    var rows := PixelRows(pipe, w);
    ProjectConcat(pipe.consumer, h, rows);
    forall y: nat | y < h
      ensures Projected(pipe.consumer, rows)(y) == Scanline(0, 0, w)(y)
    {
      var units := PixelUnits(pipe, y);
      ProjectConcat(pipe.consumer, w, units);
      forall x: nat | x < w
        ensures Projected(pipe.consumer, units)(x) == [Span(0, w, y)[x]]
      {
        UnitProjections(pipe, Taps(pipe, Point(x, y)), [Point(x, y)]);
      }
      ConcatSingletons(w, Projected(pipe.consumer, units), Span(0, w, y));
    }
    ConcatCongruent(h, Projected(pipe.consumer, rows), Scanline(0, 0, w));
  }

  /** Tiled: the consumer walks the tiles in the `tile` order of the
      consumer's own schedule. */
  lemma TiledConsumer(pipe: Pipe, w: nat, h: nat, tw: nat, th: nat)
    requires pipe.producer != pipe.consumer && tw > 0 && th > 0
    ensures Project(pipe.consumer, TiledTrace(pipe, w, h, tw, th)) == Tiled(w, h, tw, th)
  {
    var ntx := w / tw;
    var rows := TileUnitRows(pipe, tw, th, ntx);
    ProjectConcat(pipe.consumer, h / th, rows);
    forall yo: nat | yo < h / th
      ensures Projected(pipe.consumer, rows)(yo) == TileRows(tw, th, ntx)(yo)
    {
      var units := TileUnits(pipe, tw, th, yo);
      ProjectConcat(pipe.consumer, ntx, units);
      forall xo: nat | xo < ntx
        ensures Projected(pipe.consumer, units)(xo) == TilesAcross(tw, th, yo)(xo)
      {
        UnitProjections(pipe, Footprint(pipe, xo * tw, yo * th, tw, th), Block(xo * tw, yo * th, tw, th));
      }
      ConcatCongruent(ntx, Projected(pipe.consumer, units), TilesAcross(tw, th, yo));
    }
    ConcatCongruent(h / th, Projected(pipe.consumer, rows), TileRows(tw, th, ntx));
  }

  /** Tile rows: the consumer order is the same tiled order. */
  lemma BandConsumer(pipe: Pipe, w: nat, h: nat, tw: nat, th: nat)
    requires pipe.producer != pipe.consumer && tw > 0 && th > 0
    ensures Project(pipe.consumer, BandTrace(pipe, w, h, tw, th)) == Tiled(w, h, tw, th)
  {
    var units := BandUnits(pipe, w, tw, th);
    ProjectConcat(pipe.consumer, h / th, units);
    forall yo: nat | yo < h / th
      ensures Projected(pipe.consumer, units)(yo) == TileRows(tw, th, w / tw)(yo)
    {
      UnitProjections(pipe, Footprint(pipe, 0, yo * th, w, th), TileRows(tw, th, w / tw)(yo));
    }
    ConcatCongruent(h / th, Projected(pipe.consumer, units), TileRows(tw, th, w / tw));
  }

  /** Scanlines: the consumer walks the output row by row. */
  lemma ScanlineConsumer(pipe: Pipe, w: nat, h: nat)
    requires pipe.producer != pipe.consumer
    ensures Project(pipe.consumer, ScanlineTrace(pipe, w, h)) == RowMajor(w, h)
  {
    var units := ScanlineUnits(pipe, w);
    ProjectConcat(pipe.consumer, h, units);
    forall y: nat | y < h
      ensures Projected(pipe.consumer, units)(y) == Scanline(0, 0, w)(y)
    {
      UnitProjections(pipe, Footprint(pipe, 0, y, w, 1), Block(0, y, w, 1));
      OneRowBlock(0, y, w);
    }
    ConcatCongruent(h, Projected(pipe.consumer, units), Scanline(0, 0, w));
  }

  /* ---------------------------------------------------------------------
     How many producer values each schedule computes
     --------------------------------------------------------------------- */

  /** Root computes each producer value the output reads exactly once, and
      no other. */
  lemma RootComputesOnce(pipe: Pipe, w: nat, h: nat, q: Point)
    requires pipe.producer != pipe.consumer && w > 0 && h > 0
    ensures multiset(Project(pipe.producer, RootTrace(pipe, w, h)))[q]
         == if exists p :: p in RowMajor(w, h) && q in Taps(pipe, p) then 1 else 0
    ensures |Project(pipe.producer, RootTrace(pipe, w, h))| == w * (h + pipe.halo)
  {
    RootConsumer(pipe, w, h);
    FootprintCovers(pipe, 0, 0, w, h);
    FootprintExact(pipe, 0, 0, w, h, q);
    InBlock(0, pipe.lo, w, h + pipe.halo, q);
  }

  /** Number of scanlines y < n whose stencil reaches row `qy`. */
  function Hits(pipe: Pipe, n: nat, qy: int): nat
  {
    if n == 0 then 0
    else Hits(pipe, n - 1, qy) + (if n - 1 + pipe.lo <= qy <= n - 1 + pipe.lo + pipe.halo then 1 else 0)
  }

  function Max(a: int, b: int): int
  {
    if a < b then b else a
  }

  /** The number of integers in [lo, hi]. */
  function Between(lo: int, hi: int): nat
  {
    if lo <= hi then hi - lo + 1 else 0
  }

  /** Row qy is reached by the scanlines y < n with qy - lo - halo <= y <= qy - lo. */
  lemma {:induction false} HitsClosed(pipe: Pipe, n: nat, qy: int)
    ensures Hits(pipe, n, qy) == Between(Max(0, qy - pipe.lo - pipe.halo), Min(n - 1, qy - pipe.lo))
  {
    if n > 0 {
      HitsClosed(pipe, n - 1, qy);
    }
  }

  /** Away from the top and bottom, every producer row is reached by halo + 1
      scanlines; outside the footprint by none; never by more than halo + 1. */
  lemma HitsBounds(pipe: Pipe, n: nat, qy: int)
    ensures pipe.lo + pipe.halo <= qy < pipe.lo + n ==> Hits(pipe, n, qy) == pipe.halo + 1
    ensures qy < pipe.lo || pipe.lo + n + pipe.halo <= qy ==> Hits(pipe, n, qy) == 0
    ensures Hits(pipe, n, qy) <= pipe.halo + 1
  {
    HitsClosed(pipe, n, qy);
  }

  /** The producer values computed for one scanline of an inlined consumer
      of width n: a box n wide and halo + 1 high, each value once. */
  lemma {:induction false} InlineRowCovers(pipe: Pipe, y: int, n: nat)
    requires pipe.producer != pipe.consumer
    ensures CoversOnce(Concat(n, Projected(pipe.producer, PixelUnits(pipe, y))),
                       Box(0, n, y + pipe.lo, y + pipe.lo + pipe.halo + 1))
  {
    if n > 0 {
      var units := Projected(pipe.producer, PixelUnits(pipe, y));
      var top, bottom := y + pipe.lo, y + pipe.lo + pipe.halo + 1;
      var left := Concat(n - 1, units);
      var right := units(n - 1);
      assert CoversOnce(left, Box(0, n - 1, top, bottom)) by {
        InlineRowCovers(pipe, y, n - 1);
      }
      PixelTapsCover(pipe, y, n - 1);
      BesideCovers(left, right, 0, n - 1, n, top, bottom);
    }
  }

  /** The producer values computed for consumer pixel (x, y): its stencil,
      halo + 1 values of column x, each once. */
  lemma PixelTapsCover(pipe: Pipe, y: int, x: nat)
    requires pipe.producer != pipe.consumer
    ensures CoversOnce(Projected(pipe.producer, PixelUnits(pipe, y))(x), Box(x, x + 1, y + pipe.lo, y + pipe.lo + pipe.halo + 1))
    ensures |Projected(pipe.producer, PixelUnits(pipe, y))(x)| == pipe.halo + 1
  {
    UnitProjections(pipe, Taps(pipe, Point(x, y)), [Point(x, y)]);
    TapsCover(pipe, Point(x, y));
  }

  /** Each consumer pixel computes halo + 1 producer values. */
  lemma InlineRowLength(pipe: Pipe, y: int, w: nat)
    requires pipe.producer != pipe.consumer
    ensures forall x :: 0 <= x < w ==> |Projected(pipe.producer, PixelUnits(pipe, y))(x)| == pipe.halo + 1
  {
    forall x: nat | x < w
      ensures |Projected(pipe.producer, PixelUnits(pipe, y))(x)| == pipe.halo + 1
    {
      PixelTapsCover(pipe, y, x);
    }
  }

  lemma {:induction false} InlineCounts(pipe: Pipe, w: nat, n: nat, q: Point)
    requires pipe.producer != pipe.consumer
    ensures multiset(Concat(n, Projected(pipe.producer, PixelRows(pipe, w))))[q]
         == if 0 <= q.x < w then Hits(pipe, n, q.y) else 0
  {
    if n > 0 {
      var rows := Projected(pipe.producer, PixelRows(pipe, w));
      var y := n - 1;
      InlineCounts(pipe, w, y, q);
      assert multiset(rows(y))[q] == if Box(0, w, y + pipe.lo, y + pipe.lo + pipe.halo + 1).Contains(q) then 1 else 0 by {
        ProjectConcat(pipe.producer, w, PixelUnits(pipe, y));
        InlineRowCovers(pipe, y, w);
      }
      assert multiset(Concat(n, rows))[q] == multiset(Concat(y, rows))[q] + multiset(rows(y))[q];
    }
  }

  /** Inline recomputes a producer value once for every consumer pixel that
      reads it: halo + 1 times away from the border of the output. */
  lemma InlineRecomputes(pipe: Pipe, w: nat, h: nat, q: Point)
    requires pipe.producer != pipe.consumer
    ensures multiset(Project(pipe.producer, InlineTrace(pipe, w, h)))[q]
         == if 0 <= q.x < w then Hits(pipe, h, q.y) else 0
  {
    ProjectConcat(pipe.producer, h, PixelRows(pipe, w));
    InlineCounts(pipe, w, h, q);
  }

  /** Inline computes halo + 1 producer values per consumer pixel. */
  lemma InlineWork(pipe: Pipe, w: nat, h: nat)
    requires pipe.producer != pipe.consumer
    ensures |Project(pipe.producer, InlineTrace(pipe, w, h))| == h * (w * (pipe.halo + 1))
  {
    var rows := Projected(pipe.producer, PixelRows(pipe, w));
    ProjectConcat(pipe.producer, h, PixelRows(pipe, w));
    forall y: nat | y < h
      ensures |rows(y)| == w * (pipe.halo + 1)
    {
      ProjectConcat(pipe.producer, w, PixelUnits(pipe, y));
      InlineRowLength(pipe, y, w);
      ConcatLength(w, Projected(pipe.producer, PixelUnits(pipe, y)), pipe.halo + 1);
    }
    ConcatLength(h, rows, w * (pipe.halo + 1));
  }

  /** Tiled: each tile computes its own footprint, tw x (th + halo) values. */
  lemma TiledWork(pipe: Pipe, w: nat, h: nat, tw: nat, th: nat)
    requires pipe.producer != pipe.consumer && tw > 0 && th > 0
    ensures |Project(pipe.producer, TiledTrace(pipe, w, h, tw, th))| == (h / th) * ((w / tw) * (tw * (th + pipe.halo)))
  {
    var ntx := w / tw;
    var rows := TileUnitRows(pipe, tw, th, ntx);
    ProjectConcat(pipe.producer, h / th, rows);
    forall yo: nat | yo < h / th
      ensures |Projected(pipe.producer, rows)(yo)| == ntx * (tw * (th + pipe.halo))
    {
      var units := TileUnits(pipe, tw, th, yo);
      ProjectConcat(pipe.producer, ntx, units);
      forall xo: nat | xo < ntx
        ensures |Projected(pipe.producer, units)(xo)| == tw * (th + pipe.halo)
      {
        UnitProjections(pipe, Footprint(pipe, xo * tw, yo * th, tw, th), Block(xo * tw, yo * th, tw, th));
        FootprintCovers(pipe, xo * tw, yo * th, tw, th);
      }
      ConcatLength(ntx, Projected(pipe.producer, units), tw * (th + pipe.halo));
    }
    ConcatLength(h / th, Projected(pipe.producer, rows), ntx * (tw * (th + pipe.halo)));
  }

  /** Tile rows: each row of tiles computes its footprint, w x (th + halo). */
  lemma BandWork(pipe: Pipe, w: nat, h: nat, tw: nat, th: nat)
    requires pipe.producer != pipe.consumer && tw > 0 && th > 0
    ensures |Project(pipe.producer, BandTrace(pipe, w, h, tw, th))| == (h / th) * (w * (th + pipe.halo))
  {
    var units := BandUnits(pipe, w, tw, th);
    ProjectConcat(pipe.producer, h / th, units);
    forall yo: nat | yo < h / th
      ensures |Projected(pipe.producer, units)(yo)| == w * (th + pipe.halo)
    {
      UnitProjections(pipe, Footprint(pipe, 0, yo * th, w, th), TileRows(tw, th, w / tw)(yo));
      FootprintCovers(pipe, 0, yo * th, w, th);
    }
    ConcatLength(h / th, Projected(pipe.producer, units), w * (th + pipe.halo));
  }

  /** Scanlines: each scanline computes w x (1 + halo) producer values. */
  lemma ScanlineWork(pipe: Pipe, w: nat, h: nat)
    requires pipe.producer != pipe.consumer
    ensures |Project(pipe.producer, ScanlineTrace(pipe, w, h))| == h * (w * (pipe.halo + 1))
  {
    var units := ScanlineUnits(pipe, w);
    ProjectConcat(pipe.producer, h, units);
    forall y: nat | y < h
      ensures |Projected(pipe.producer, units)(y)| == w * (pipe.halo + 1)
    {
      UnitProjections(pipe, Footprint(pipe, 0, y, w, 1), Block(0, y, w, 1));
      FootprintCovers(pipe, 0, y, w, 1);
    }
    ConcatLength(h, Projected(pipe.producer, units), w * (pipe.halo + 1));
  }

  /** ntx tiles of width tw across a row of width w = ntx * tw. */
  lemma TilesAcrossWork(w: nat, th: nat, halo: nat, tw: nat, ntx: nat, nty: nat)
    requires ntx * tw == w
    ensures nty * (ntx * (tw * (th + halo))) == nty * (w * (th + halo))
  {
    assert ntx * (tw * (th + halo)) == (ntx * tw) * (th + halo);
  }

  /** nty rows of tiles of height th, each widened by the halo. */
  lemma TileRowsWork(w: nat, h: nat, halo: nat, th: nat, nty: nat)
    requires nty * th == h
    ensures nty * (w * (th + halo)) == w * (h + nty * halo)
  {
    assert nty * (w * (th + halo)) == w * (nty * th + nty * halo);
  }

  /** Multiplying by a natural number preserves order. */
  lemma MulLe(a: int, b: int, c: nat)
    requires a <= b
    ensures a * c <= b * c
  {
    ScaledBound(b - a, c);
    assert (b - a) * c == b * c - a * c;
  }

  /** At least one row of tiles: tiling recomputes at least root's halo. */
  lemma RootBelowTiled(w: nat, h: nat, halo: nat, th: nat)
    requires th > 0 && h % th == 0 && h > 0
    ensures w * (h + halo) <= w * (h + (h / th) * halo)
  {
    var nty := h / th;
    assert nty * th == h by {
      FusedParts(h, th);
    }
    assert 1 <= nty;
    assert halo <= nty * halo by {
      MulLe(1, nty, halo);
    }
    assert (h + halo) * w <= (h + nty * halo) * w by {
      MulLe(h + halo, h + nty * halo, w);
    }
  }

  /** At most h rows of tiles: tiling recomputes at most inline's h * halo. */
  lemma TiledBelowInline(w: nat, h: nat, halo: nat, th: nat)
    requires th > 0 && h % th == 0
    ensures w * (h + (h / th) * halo) <= h * (w * (halo + 1))
  {
    var nty := h / th;
    assert nty * th == h by {
      FusedParts(h, th);
    }
    assert nty <= h by {
      MulLe(1, th, nty);
    }
    assert nty * halo <= h * halo by {
      MulLe(nty, h, halo);
    }
    assert (h + nty * halo) * w <= (h + h * halo) * w by {
      MulLe(h + nty * halo, h + h * halo, w);
    }
    assert h * (w * (halo + 1)) == (h + h * halo) * w;
  }

  /** Redundancy of the schedules over a w x h output that the tiles divide:
      root computes the least, inline and compute_at(y) the most, and the two
      tiled placements (at xo or at yo) compute the same amount in between. */
  lemma Redundancy(pipe: Pipe, w: nat, h: nat, tw: nat, th: nat)
    requires pipe.producer != pipe.consumer && tw > 0 && th > 0 && w % tw == 0 && h % th == 0 && h > 0
    ensures |Project(pipe.producer, RootTrace(pipe, w, h))|
         <= |Project(pipe.producer, TiledTrace(pipe, w, h, tw, th))|
         == |Project(pipe.producer, BandTrace(pipe, w, h, tw, th))|
         <= |Project(pipe.producer, InlineTrace(pipe, w, h))|
         == |Project(pipe.producer, ScanlineTrace(pipe, w, h))|
  {
    var divided := w * (h + (h / th) * pipe.halo);
    var perPixel := h * (w * (pipe.halo + 1));
    assert |Project(pipe.producer, RootTrace(pipe, w, h))| <= divided by {
      RootWork(pipe, w, h);
      RootBelowTiled(w, h, pipe.halo, th);
    }
    assert |Project(pipe.producer, TiledTrace(pipe, w, h, tw, th))| == divided
        && |Project(pipe.producer, BandTrace(pipe, w, h, tw, th))| == divided by {
      DividedWork(pipe, w, h, tw, th);
    }
    assert divided <= perPixel by {
      TiledBelowInline(w, h, pipe.halo, th);
    }
    assert |Project(pipe.producer, InlineTrace(pipe, w, h))| == perPixel by {
      InlineWork(pipe, w, h);
    }
    assert |Project(pipe.producer, ScanlineTrace(pipe, w, h))| == perPixel by {
      ScanlineWork(pipe, w, h);
    }
  }

  /** Root computes the footprint of the whole output, w x (h + halo). */
  lemma RootWork(pipe: Pipe, w: nat, h: nat)
    requires pipe.producer != pipe.consumer
    ensures |Project(pipe.producer, RootTrace(pipe, w, h))| == w * (h + pipe.halo)
  {
    RootConsumer(pipe, w, h);
    FootprintCovers(pipe, 0, 0, w, h);
  }

  /** When the tiles divide the output, both tiled placements compute
      w x (h + nty * halo) producer values: each of the nty rows of tiles
      recomputes the halo. */
  lemma DividedWork(pipe: Pipe, w: nat, h: nat, tw: nat, th: nat)
    requires pipe.producer != pipe.consumer && tw > 0 && th > 0 && w % tw == 0 && h % th == 0
    ensures |Project(pipe.producer, TiledTrace(pipe, w, h, tw, th))| == w * (h + (h / th) * pipe.halo)
    ensures |Project(pipe.producer, BandTrace(pipe, w, h, tw, th))| == w * (h + (h / th) * pipe.halo)
  {
    var ntx, nty := w / tw, h / th;
    assert ntx * tw == w && nty * th == h by {
      FusedParts(w, tw);
      FusedParts(h, th);
    }
    TiledWork(pipe, w, h, tw, th);
    BandWork(pipe, w, h, tw, th);
    TilesAcrossWork(w, th, pipe.halo, tw, ntx, nty);
    TileRowsWork(w, h, pipe.halo, th, nty);
  }
}
