/** The loop nests that Halide's scheduling primitives generate for the
    single-stage gradient `gradient[x, y] = x + y`
    (tutorial5_schedule_smoothGradient.py).

    Each "equivalent Python" loop nest of the tutorial is a method that appends
    the pixels it evaluates, in order, to `visits`.  Each method is proved
    against a traversal function built from `Concat`, and the lemmas state
    what the tutorial promises about that traversal: which pixels it visits,
    how often, and in which order compared with the default row-major walk. */
module LoopNests {
  import opened Sequences
  import opened Geometry

  /** The value the gradient Func computes at a pixel. */
  function Gradient(p: Point): int
  {
    p.x + p.y
  }

  /* ---------------------------------------------------------------------
     Default order and reorder
     --------------------------------------------------------------------- */

  /** `for y in xrange(h): for x in xrange(w)`: the default schedule. */
  method DefaultOrder(w: nat, h: nat) returns (visits: seq<Point>)
    ensures visits == RowMajor(w, h)
  {
    visits := [];
    var y := 0;
    while y < h
      invariant y <= h
      invariant visits == Block(0, 0, w, y)
    {
      var x := 0;
      while x < w
        invariant x <= w
        invariant visits == Block(0, 0, w, y) + Span(0, x, y)
      {
        visits := visits + [Point(x, y)];
        x := x + 1;
      }
      assert Scanline(0, 0, w)(y) == Span(0, w, y);
      y := y + 1;
    }
  }

  /** The default order visits every pixel of the w x h region exactly once,
      and pixel (x, y) is visited at step y * w + x. */
  lemma DefaultVisitsEachPixelOnce(w: nat, h: nat, x: nat, y: nat)
    requires x < w && y < h
    ensures CoversOnce(RowMajor(w, h), Box(0, w, 0, h))
    ensures |RowMajor(w, h)| == w * h
    ensures y * w + x < w * h && RowMajor(w, h)[y * w + x] == Point(x, y)
  {
    BlockCovers(0, 0, w, h);
    BlockAt(0, 0, w, h, y, x);
  }

  /** Iteration `x` of the outer loop after `reorder(y, x)`: column `x`. */
  function ColumnsFrom(h: nat): nat -> seq<Point>
  {
    (x: nat) => Column(x, 0, h)
  }

  /** `for x in xrange(w): for y in xrange(h)`: column-major order. */
  function ColumnMajor(w: nat, h: nat): seq<Point>
  {
    Concat(w, ColumnsFrom(h))
  }

  /** `gradient.reorder(y, x)` makes y the innermost loop. */
  method ReorderedOrder(w: nat, h: nat) returns (visits: seq<Point>)
    ensures visits == ColumnMajor(w, h)
  {
    visits := [];
    var x := 0;
    while x < w
      invariant x <= w
      invariant visits == Concat(x, ColumnsFrom(h))
    {
      var y := 0;
      while y < h
        invariant y <= h
        invariant visits == Concat(x, ColumnsFrom(h)) + Column(x, 0, y)
      {
        visits := visits + [Point(x, y)];
        y := y + 1;
      }
      assert ColumnsFrom(h)(x) == Column(x, 0, h);
      x := x + 1;
    }
  }

  lemma {:induction false} ColumnsCover(w: nat, h: nat)
    ensures CoversOnce(Concat(w, ColumnsFrom(h)), Box(0, w, 0, h))
  {
    if w > 0 {
      ColumnsCover(w - 1, h);
      ColumnCovers(w - 1, 0, h);
      assert ColumnsFrom(h)(w - 1) == Column(w - 1, 0, h);
      BesideCovers(Concat(w - 1, ColumnsFrom(h)), Column(w - 1, 0, h), 0, w - 1, w, 0, h);
    }
  }

  /** After `reorder(y, x)` the same pixels are evaluated, each exactly
      once: the column-major order is a permutation of the default one. */
  lemma ReorderVisitsSamePixels(w: nat, h: nat)
    ensures CoversOnce(ColumnMajor(w, h), Box(0, w, 0, h))
    ensures multiset(ColumnMajor(w, h)) == multiset(RowMajor(w, h))
  {
    ColumnsCover(w, h);
    BlockCovers(0, 0, w, h);
    SameVisits(ColumnMajor(w, h), RowMajor(w, h), Box(0, w, 0, h));
  }

  /** After `reorder(y, x)` pixel (x, y) is visited at step x * h + y. */
  lemma ColumnMajorAt(w: nat, h: nat, x: nat, y: nat)
    requires x < w && y < h
    ensures x * h + y < |ColumnMajor(w, h)| && ColumnMajor(w, h)[x * h + y] == Point(x, y)
  {
    forall k: nat | k < w
      ensures |ColumnsFrom(h)(k)| == h
    {
      assert ColumnsFrom(h)(k) == Column(k, 0, h);
    }
    ConcatAt(w, ColumnsFrom(h), h, x, y);
    assert ColumnsFrom(h)(x) == Column(x, 0, h);
  }

  /** As soon as the region is at least 2 x 2, the reordered walk is not the
      default one: its second visit is (0, 1) instead of (1, 0). */
  lemma ReorderChangesOrder(w: nat, h: nat)
    requires w >= 2 && h >= 2
    ensures ColumnMajor(w, h) != RowMajor(w, h)
  {
    ColumnMajorAt(w, h, 0, 1);
    BlockAt(0, 0, w, h, 0, 1);
    assert ColumnMajor(w, h)[1] != RowMajor(w, h)[1];
  }

  /* ---------------------------------------------------------------------
     Split, fuse
     --------------------------------------------------------------------- */

  /** Appending the next `b` pixels of a scanline. */
  lemma SpanAppend(x0: int, a: nat, b: nat, y: int)
    ensures Span(x0, a, y) + Span(x0 + a, b, y) == Span(x0, a + b, y)
  {
  }

  /** `outer < n` and `inner < f` place `outer * f + inner` below `n * f`. */
  lemma SplitIndexBound(outer: nat, inner: nat, f: nat, n: nat)
    requires outer < n && inner < f
    ensures outer * f + inner < n * f
  {
    assert outer * f + f == (outer + 1) * f;
    assert (outer + 1) * f <= n * f;
  }

  /** With `f` dividing `w`, chunk `outer < w / f` of size `f` ends inside
      [0, w), and the last chunk ends exactly at `w`. */
  lemma ChunkFits(outer: nat, f: nat, w: nat)
    requires f > 0 && w % f == 0 && outer < w / f
    ensures outer * f + f == (outer + 1) * f <= w
    ensures outer + 1 == w / f ==> (outer + 1) * f == w
  {
    assert w == (w / f) * f;
    assert (w / f - (outer + 1)) * f == w - (outer + 1) * f;
    ScaledBound(w / f - (outer + 1), f);
  }

  /** `gradient.split(x, x_outer, x_inner, f)` with `f` dividing the width:
      x_outer runs over [0, w / f), x_inner over [0, f) and
      x = x_outer * f + x_inner.  The order of evaluation does not change. */
  method SplitOrder(w: nat, h: nat, f: nat) returns (visits: seq<Point>)
    requires f > 0 && w % f == 0
    ensures visits == RowMajor(w, h)
  {
    visits := [];
    var y := 0;
    while y < h
      invariant y <= h
      invariant visits == Block(0, 0, w, y)
    {
      ghost var done := Block(0, 0, w, y);
      var xOuter := 0;
      while xOuter < w / f
        invariant xOuter <= w / f
        invariant visits == done + Span(0, xOuter * f, y)
      {
        ChunkFits(xOuter, f, w);
        ghost var chunks := visits;
        var xInner := 0;
        while xInner < f
          invariant xInner <= f
          invariant visits == chunks + Span(xOuter * f, xInner, y)
        {
          var x := xOuter * f + xInner;
          visits := visits + [Point(x, y)];
          xInner := xInner + 1;
        }
        SpanAppend(0, xOuter * f, f, y);
        xOuter := xOuter + 1;
      }
      assert (w / f) * f == w;
      assert Scanline(0, 0, w)(y) == Span(0, w, y);
      y := y + 1;
    }
  }

  /** Position `k` of a w x h row-major walk is the fused index `k`. */
  lemma FusedIndex(w: nat, h: nat, k: nat)
    requires k < w * h
    ensures w > 0 && k / w < h && k == (k / w) * w + k % w
  {
    var q := k / w;
    assert q * w <= k;
    assert (h - q) * w == h * w - q * w;
    ScaledBound(h - q, w);
  }

  /** `gradient.fuse(x, y, fused)`: one loop over [0, w * h) with
      y = fused / w and x = fused % w.  Step `k` of the default order is
      pixel (k % w, k / w), so fusing does not change the order. */
  method FusedOrder(w: nat, h: nat) returns (visits: seq<Point>)
    ensures visits == RowMajor(w, h)
  {
    visits := [];
    var fused := 0;
    while fused < w * h
      invariant fused <= w * h
      invariant |visits| == fused
      invariant forall k :: 0 <= k < fused ==> w > 0 && visits[k] == Point(k % w, k / w)
    {
      FusedIndex(w, h, fused);
      var y := fused / w;
      var x := fused % w;
      visits := visits + [Point(x, y)];
      fused := fused + 1;
    }
    BlockLength(0, 0, w, h);
    forall k | 0 <= k < w * h
      ensures visits[k] == RowMajor(w, h)[k]
    {
      FusedIndex(w, h, k);
      BlockAt(0, 0, w, h, k / w, k % w);
    }
  }

  /* ---------------------------------------------------------------------
     Vectorize, unroll
     --------------------------------------------------------------------- */

  /** `split(x, x_outer, x_inner, lanes).vectorize(x_inner)`: the loop over
      x_inner becomes one vector of `lanes` pixels per x_outer, evaluated
      lane by lane in the same order as the scalar loop. */
  method VectorizedOrder(w: nat, h: nat, lanes: nat) returns (visits: seq<Point>)
    requires lanes > 0 && w % lanes == 0
    ensures visits == RowMajor(w, h)
  {
    visits := [];
    var y := 0;
    while y < h
      invariant y <= h
      invariant visits == Block(0, 0, w, y)
    {
      ghost var done := Block(0, 0, w, y);
      var xOuter := 0;
      while xOuter < w / lanes
        invariant xOuter <= w / lanes
        invariant visits == done + Span(0, xOuter * lanes, y)
      {
        ghost var start := xOuter * lanes;
        var xVec := seq(lanes, i => xOuter * lanes + i);
        var lanesAt := seq(lanes, i requires 0 <= i < lanes => Point(xVec[i], y));
        assert lanesAt == Span(start, lanes, y);
        SpanAppend(0, start, lanes, y);
        visits := visits + lanesAt;
        ChunkFits(xOuter, lanes, w);
        xOuter := xOuter + 1;
      }
      assert Scanline(0, 0, w)(y) == Span(0, w, y);
      y := y + 1;
    }
  }

  /** `split(x, x_outer, x_inner, 2).unroll(x_inner)`: the loop over x_inner
      is replaced by two copies of its body, x_inner = 0 and x_inner = 1. */
  method UnrolledOrder(w: nat, h: nat) returns (visits: seq<Point>)
    requires w % 2 == 0
    ensures visits == RowMajor(w, h)
  {
    visits := [];
    var y := 0;
    while y < h
      invariant y <= h
      invariant visits == Block(0, 0, w, y)
    {
      var xOuter := 0;
      while xOuter < w / 2
        invariant xOuter <= w / 2
        invariant visits == Block(0, 0, w, y) + Span(0, xOuter * 2, y)
      {
        var xInner := 0;
        var x := xOuter * 2 + xInner;
        visits := visits + [Point(x, y)];
        xInner := 1;
        x := xOuter * 2 + xInner;
        visits := visits + [Point(x, y)];
        assert Span(0, xOuter * 2, y) + [Point(xOuter * 2, y), Point(xOuter * 2 + 1, y)]
            == Span(0, xOuter * 2 + 2, y);
        xOuter := xOuter + 1;
      }
      assert Scanline(0, 0, w)(y) == Span(0, w, y);
      y := y + 1;
    }
  }

  /* ---------------------------------------------------------------------
     Tiles, and tiles with fused tile indices
     --------------------------------------------------------------------- */

  /** Tile (xo, yo) of a tiling by tw x th tiles, walked row by row. */
  function Tile(tw: nat, th: nat, xo: nat, yo: nat): seq<Point>
  {
    Block(xo * tw, yo * th, tw, th)
  }

  /** Iteration `xo` of the x_outer loop in tile row `yo`. */
  function TilesAcross(tw: nat, th: nat, yo: nat): nat -> seq<Point>
  {
    (xo: nat) => Tile(tw, th, xo, yo)
  }

  /** Iteration `yo` of the y_outer loop: tile row `yo`, `ntx` tiles wide. */
  function TileRows(tw: nat, th: nat, ntx: nat): nat -> seq<Point>
  {
    (yo: nat) => Concat(ntx, TilesAcross(tw, th, yo))
  }

  /** `tile(x, y, x_outer, y_outer, x_inner, y_inner, tw, th)` over a w x h
      region: y_outer, x_outer, y_inner, x_inner from outermost to innermost. */
  function Tiled(w: nat, h: nat, tw: nat, th: nat): seq<Point>
    requires tw > 0 && th > 0
  {
    Concat(h / th, TileRows(tw, th, w / tw))
  }

  method TiledOrder(w: nat, h: nat, tw: nat, th: nat) returns (visits: seq<Point>)
    requires tw > 0 && th > 0 && w % tw == 0 && h % th == 0
    ensures visits == Tiled(w, h, tw, th)
  {
    visits := [];
    var yOuter := 0;
    while yOuter < h / th
      invariant yOuter <= h / th
      invariant visits == Concat(yOuter, TileRows(tw, th, w / tw))
    {
      var row := TileRowWalk(tw, th, w / tw, yOuter);
      visits := visits + row;
      yOuter := yOuter + 1;
    }
  }

  /** One iteration of y_outer: the x_outer loop over the `ntx` tiles of
      tile row `yOuter`. */
  method TileRowWalk(tw: nat, th: nat, ntx: nat, yOuter: nat) returns (visits: seq<Point>)
    ensures visits == TileRows(tw, th, ntx)(yOuter)
  {
    visits := [];
    var xOuter := 0;
    while xOuter < ntx
      invariant xOuter <= ntx
      invariant visits == Concat(xOuter, TilesAcross(tw, th, yOuter))
    {
      var tile := TileWalk(tw, th, xOuter, yOuter);
      visits := visits + tile;
      xOuter := xOuter + 1;
    }
  }

  /** The two inner loops of a tiled schedule: y_inner, then x_inner, over
      tile (x_outer, y_outer). */
  method TileWalk(tw: nat, th: nat, xOuter: nat, yOuter: nat) returns (visits: seq<Point>)
    ensures visits == Tile(tw, th, xOuter, yOuter)
  {
    visits := [];
    var yInner := 0;
    while yInner < th
      invariant yInner <= th
      invariant visits == Block(xOuter * tw, yOuter * th, tw, yInner)
    {
      var xInner := 0;
      while xInner < tw
        invariant xInner <= tw
        invariant visits == Block(xOuter * tw, yOuter * th, tw, yInner)
                            + Span(xOuter * tw, xInner, yOuter * th + yInner)
      {
        var x := xOuter * tw + xInner;
        var y := yOuter * th + yInner;
        visits := visits + [Point(x, y)];
        xInner := xInner + 1;
      }
      assert Scanline(xOuter * tw, yOuter * th, tw)(yInner)
          == Span(xOuter * tw, tw, yOuter * th + yInner);
      yInner := yInner + 1;
    }
  }

  lemma {:induction false} TileRowCovers(tw: nat, th: nat, yo: nat, n: nat)
    ensures CoversOnce(Concat(n, TilesAcross(tw, th, yo)), Box(0, n * tw, yo * th, yo * th + th))
  {
    if n > 0 {
      TileRowCovers(tw, th, yo, n - 1);
      BlockCovers((n - 1) * tw, yo * th, tw, th);
      assert TilesAcross(tw, th, yo)(n - 1) == Block((n - 1) * tw, yo * th, tw, th);
      assert (n - 1) * tw + tw == n * tw;
      ScaledBound(n - 1, tw);
      BesideCovers(Concat(n - 1, TilesAcross(tw, th, yo)), Block((n - 1) * tw, yo * th, tw, th),
                   0, (n - 1) * tw, n * tw, yo * th, yo * th + th);
    }
  }

  lemma {:induction false} TileRowsCover(tw: nat, th: nat, ntx: nat, n: nat)
    ensures CoversOnce(Concat(n, TileRows(tw, th, ntx)), Box(0, ntx * tw, 0, n * th))
  {
    if n > 0 {
      TileRowsCover(tw, th, ntx, n - 1);
      TileRowCovers(tw, th, n - 1, ntx);
      assert TileRows(tw, th, ntx)(n - 1) == Concat(ntx, TilesAcross(tw, th, n - 1));
      StackRow(Concat(n - 1, TileRows(tw, th, ntx)), TileRows(tw, th, ntx)(n - 1), ntx * tw, th, n);
    }
  }

  /** Stacking tile row `n - 1`, of height `th`, below the rows above it. */
  lemma StackRow(above: seq<Point>, row: seq<Point>, width: int, th: nat, n: nat)
    requires n > 0
    requires CoversOnce(above, Box(0, width, 0, (n - 1) * th))
    requires CoversOnce(row, Box(0, width, (n - 1) * th, (n - 1) * th + th))
    ensures CoversOnce(above + row, Box(0, width, 0, n * th))
  {
    assert (n - 1) * th + th == n * th;
    ScaledBound(n - 1, th);
    StackCovers(above, row, 0, width, 0, (n - 1) * th, n * th);
  }

  /** Tiling evaluates every pixel of the region exactly once. */
  lemma TiledCovers(w: nat, h: nat, tw: nat, th: nat)
    requires tw > 0 && th > 0 && w % tw == 0 && h % th == 0
    ensures CoversOnce(Tiled(w, h, tw, th), Box(0, w, 0, h))
  {
    TileRowsCover(tw, th, w / tw, h / th);
    assert Box(0, (w / tw) * tw, 0, (h / th) * th) == Box(0, w, 0, h);
  }

  /** The tiled order is a permutation of the default one. */
  lemma TiledVisitsEachPixelOnce(w: nat, h: nat, tw: nat, th: nat)
    requires tw > 0 && th > 0 && w % tw == 0 && h % th == 0
    ensures multiset(Tiled(w, h, tw, th)) == multiset(RowMajor(w, h))
    ensures |Tiled(w, h, tw, th)| == w * h
  {
    var tiled := Tiled(w, h, tw, th);
    TiledCovers(w, h, tw, th);
    BlockCovers(0, 0, w, h);
    SameVisits(tiled, RowMajor(w, h), Box(0, w, 0, h));
    BlockLength(0, 0, w, h);
    assert |tiled| == |multiset(tiled)| == |multiset(RowMajor(w, h))| == |RowMajor(w, h)|;
  }

  /** Iteration `t` of the fused tile loop: tile (t % ntx, t / ntx). */
  function FusedTiles(tw: nat, th: nat, ntx: nat): nat -> seq<Point>
    requires ntx > 0
  {
    (t: nat) => Tile(tw, th, t % ntx, t / ntx)
  }

  /** Fusing the two tile loops into one loop over `ntx * nty` tile indices
      keeps the order of the tiles. */
  lemma TiledFused(w: nat, h: nat, tw: nat, th: nat)
    requires tw > 0 && th > 0 && w / tw > 0
    ensures Tiled(w, h, tw, th) == Concat((w / tw) * (h / th), FusedTiles(tw, th, w / tw))
  {
    var ntx := w / tw;
    assert (h / th) * ntx == ntx * (h / th);
    forall i | 0 <= i < h / th
      ensures TileRows(tw, th, ntx)(i) == Concat(ntx, Shifted(FusedTiles(tw, th, ntx), i * ntx))
    {
      forall k | 0 <= k < ntx
        ensures TilesAcross(tw, th, i)(k) == Shifted(FusedTiles(tw, th, ntx), i * ntx)(k)
      {
        DivModOfSum(i, k, ntx);
      }
      ConcatCongruent(ntx, TilesAcross(tw, th, i), Shifted(FusedTiles(tw, th, ntx), i * ntx));
    }
    ConcatFuse(h / th, ntx, TileRows(tw, th, ntx), FusedTiles(tw, th, ntx));
  }

  /** The fused-tile schedule with `parallel(tile_index)` run serially:
      tile_index runs over [0, ntx * nty), y_outer = tile_index / ntx and
      x_outer = tile_index % ntx, then the pixels of the tile row by row.
      It evaluates exactly the tiled order. */
  method FusedTileOrder(w: nat, h: nat, tw: nat, th: nat) returns (visits: seq<Point>)
    requires tw > 0 && th > 0 && w % tw == 0 && h % th == 0
    ensures visits == Tiled(w, h, tw, th)
  {
    var ntx, nty := w / tw, h / th;
    visits := [];
    var tileIndex := 0;
    while tileIndex < ntx * nty
      invariant tileIndex <= ntx * nty
      invariant ntx > 0 ==> visits == Concat(tileIndex, FusedTiles(tw, th, ntx))
      invariant ntx == 0 ==> visits == []
    {
      FusedParts(tileIndex, ntx);
      var yOuter := tileIndex / ntx;
      var xOuter := tileIndex % ntx;
      var tile := TileWalk(tw, th, xOuter, yOuter);
      assert FusedTiles(tw, th, ntx)(tileIndex) == tile;
      visits := visits + tile;
      tileIndex := tileIndex + 1;
    }
    if ntx > 0 {
      TiledFused(w, h, tw, th);
    } else {
      NoTilesAcross(w, h, tw, th);
    }
  }

  /** A region narrower than one tile has no tiles. */
  lemma NoTilesAcross(w: nat, h: nat, tw: nat, th: nat)
    requires tw > 0 && th > 0 && w % tw == 0 && h % th == 0 && w / tw == 0
    ensures Tiled(w, h, tw, th) == []
  {
    TiledVisitsEachPixelOnce(w, h, tw, th);
    assert w == (w / tw) * tw;
  }

  /** Every tile has tw * th pixels. */
  lemma FusedTilesLength(tw: nat, th: nat, ntx: nat, n: nat)
    requires ntx > 0
    ensures forall k :: 0 <= k < n ==> |FusedTiles(tw, th, ntx)(k)| == tw * th
  {
    forall k | 0 <= k < n
      ensures |FusedTiles(tw, th, ntx)(k)| == tw * th
    {
      BlockLength((k % ntx) * tw, (k / ntx) * th, tw, th);
    }
  }

  /** Visit number of pixel (xi, yi) of tile (xo, yo) in a tiling with
      `ntx` tiles across: all earlier tiles come first, whole. */
  function TiledIndex(ntx: nat, tw: nat, th: nat, xo: nat, yo: nat, xi: nat, yi: nat): nat
  {
    (yo * ntx + xo) * (tw * th) + (yi * tw + xi)
  }

  /** Tiles are visited one after the other, row of tiles by row of tiles,
      and the pixels of a tile in row-major order. */
  lemma TiledAt(w: nat, h: nat, tw: nat, th: nat, xo: nat, yo: nat, xi: nat, yi: nat)
    requires tw > 0 && th > 0 && w % tw == 0 && h % th == 0
    requires xo < w / tw && yo < h / th && xi < tw && yi < th
    ensures TiledIndex(w / tw, tw, th, xo, yo, xi, yi) < |Tiled(w, h, tw, th)|
    ensures Tiled(w, h, tw, th)[TiledIndex(w / tw, tw, th, xo, yo, xi, yi)] == Point(xo * tw + xi, yo * th + yi)
  {
    var ntx, nty := w / tw, h / th;
    TiledFused(w, h, tw, th);
    var tiles := FusedTiles(tw, th, ntx);
    var t := yo * ntx + xo;
    SplitIndexBound(yo, xo, ntx, nty);
    assert nty * ntx == ntx * nty;
    FusedTilesLength(tw, th, ntx, ntx * nty);
    SplitIndexBound(yi, xi, tw, th);
    assert th * tw == tw * th;
    ConcatAt(ntx * nty, tiles, tw * th, t, yi * tw + xi);
    DivModOfSum(yo, xo, ntx);
    assert tiles(t) == Block(xo * tw, yo * th, tw, th);
    BlockAt(xo * tw, yo * th, tw, th, yi, xi);
  }

  /** With two tiles across and tiles two rows high, the tiled order is not
      the default one: visit number tw is the start of the first tile's
      second row, not pixel (tw, 0). */
  lemma TiledNotDefault(w: nat, h: nat, tw: nat, th: nat)
    requires tw > 0 && th > 0 && w % tw == 0 && h % th == 0
    requires tw < w && 2 <= th <= h
    ensures Tiled(w, h, tw, th) != RowMajor(w, h)
  {
    assert 1 <= w / tw by {
      DivLowerBound(w, 1, tw);
    }
    assert 1 <= h / th by {
      DivLowerBound(h, 1, th);
    }
    TiledAt(w, h, tw, th, 0, 0, 0, 1);
    BlockAt(0, 0, w, h, 0, tw);
    assert Tiled(w, h, tw, th)[tw] != RowMajor(w, h)[tw];
  }

  /* ---------------------------------------------------------------------
     Splitting by a factor that does not divide the extent
     --------------------------------------------------------------------- */

  function Min(a: int, b: int): int
  {
    if a <= b then a else b
  }

  /** Trip count of x_outer when [x_min, x_min + extent) is split by `f`. */
  function SplitCount(extent: nat, f: nat): nat
    requires f > 0
  {
    (extent + f - 1) / f
  }

  /** Start of chunk `xo`, relative to x_min: the last chunk is shifted left
      so that it ends at the end of the extent. */
  function SplitBase(xo: nat, f: nat, extent: nat): int
  {
    Min(xo * f, extent - f)
  }

  /** Iteration `xo` of the x_outer loop on scanline `y`. */
  function ClampedChunks(xMin: int, extent: nat, f: nat, y: int): nat -> seq<Point>
  {
    (xo: nat) => Span(xMin + SplitBase(xo, f, extent), f, y)
  }

  /** Iteration `y` of the y loop: all chunks of scanline `y`. */
  function ClampedScanlines(xMin: int, extent: nat, f: nat): nat -> seq<Point>
    requires f > 0
  {
    (y: nat) => Concat(SplitCount(extent, f), ClampedChunks(xMin, extent, f, y))
  }

  /** The general rule for `split(x, x_outer, x_inner, f)` over
      [x_min, x_min + extent) x [0, h): x_outer runs over
      [0, (extent + f - 1) / f), x_inner over [0, f), and
      x = min(x_outer * f, extent - f) + x_inner + x_min. */
  function ClampedSplit(xMin: int, extent: nat, h: nat, f: nat): seq<Point>
    requires f > 0
  {
    Concat(h, ClampedScanlines(xMin, extent, f))
  }

  /** The loop nest of the 5 x 4 example, for any extent, height and factor. */
  method ClampedSplitOrder(xMin: int, extent: nat, h: nat, f: nat) returns (visits: seq<Point>)
    requires f > 0
    ensures visits == ClampedSplit(xMin, extent, h, f)
  {
    visits := [];
    var y := 0;
    while y < h
      invariant y <= h
      invariant visits == Concat(y, ClampedScanlines(xMin, extent, f))
    {
      var row := ClampedScanline(xMin, extent, f, y);
      visits := visits + row;
      y := y + 1;
    }
  }

  /** One iteration of the y loop: x_outer over the chunks of scanline `y`,
      x_inner over the pixels of a chunk. */
  method ClampedScanline(xMin: int, extent: nat, f: nat, y: nat) returns (visits: seq<Point>)
    requires f > 0
    ensures visits == ClampedScanlines(xMin, extent, f)(y)
  {
    visits := [];
    var xOuter := 0;
    while xOuter < (extent + f - 1) / f
      invariant xOuter <= SplitCount(extent, f)
      invariant visits == Concat(xOuter, ClampedChunks(xMin, extent, f, y))
    {
      ghost var chunks := visits;
      var xInner := 0;
      while xInner < f
        invariant xInner <= f
        invariant visits == chunks + Span(xMin + SplitBase(xOuter, f, extent), xInner, y)
      {
        var x := xOuter * f;
        if x > extent - f {
          x := extent - f;
        }
        x := x + xInner + xMin;
        visits := visits + [Point(x, y)];
        xInner := xInner + 1;
      }
      assert ClampedChunks(xMin, extent, f, y)(xOuter)
          == Span(xMin + SplitBase(xOuter, f, extent), f, y);
      xOuter := xOuter + 1;
    }
  }

  /** Each scanline gets `(extent + f - 1) / f` chunks of `f` pixels. */
  lemma ClampedSplitLength(xMin: int, extent: nat, h: nat, f: nat)
    requires f > 0
    ensures |ClampedSplit(xMin, extent, h, f)| == h * (SplitCount(extent, f) * f)
  {
    var n := SplitCount(extent, f);
    forall y: nat | y < h
      ensures |ClampedScanlines(xMin, extent, f)(y)| == n * f
    {
      forall xo: nat | xo < n
        ensures |ClampedChunks(xMin, extent, f, y)(xo)| == f
      {
        assert ClampedChunks(xMin, extent, f, y)(xo) == Span(xMin + SplitBase(xo, f, extent), f, y);
      }
      ConcatLength(n, ClampedChunks(xMin, extent, f, y), f);
    }
    ConcatLength(h, ClampedScanlines(xMin, extent, f), n * f);
  }

  /** When the factor is no larger than the extent, the split loop never
      leaves [x_min, x_min + extent) x [0, h). */
  lemma ClampedSplitInBounds(xMin: int, extent: nat, h: nat, f: nat, p: Point)
    requires 0 < f <= extent
    requires p in ClampedSplit(xMin, extent, h, f)
    ensures Box(xMin, xMin + extent, 0, h).Contains(p)
  {
    var y := InConcatWitness(h, ClampedScanlines(xMin, extent, f), p);
    assert ClampedScanlines(xMin, extent, f)(y)
        == Concat(SplitCount(extent, f), ClampedChunks(xMin, extent, f, y));
    var xo := InConcatWitness(SplitCount(extent, f), ClampedChunks(xMin, extent, f, y), p);
    assert ClampedChunks(xMin, extent, f, y)(xo) == Span(xMin + SplitBase(xo, f, extent), f, y);
    InSpan(xMin + SplitBase(xo, f, extent), f, y, p);
  }

  /** Whatever the factor, every pixel of [x_min, x_min + extent) x [0, h)
      is evaluated. */
  lemma ClampedSplitCovers(xMin: int, extent: nat, h: nat, f: nat, p: Point)
    requires f > 0
    requires Box(xMin, xMin + extent, 0, h).Contains(p)
    ensures p in ClampedSplit(xMin, extent, h, f)
  {
    var y: nat := p.y;
    var xo, i := ChunkOf(p.x - xMin, extent, f);
    var chunk := ClampedChunks(xMin, extent, f, y);
    assert chunk(xo) == Span(xMin + SplitBase(xo, f, extent), f, y);
    assert chunk(xo)[i] == p;
    InConcat(SplitCount(extent, f), chunk, xo, p);
    assert ClampedScanlines(xMin, extent, f)(y) == Concat(SplitCount(extent, f), chunk);
    InConcat(h, ClampedScanlines(xMin, extent, f), y, p);
  }

  /** The chunk `xo` and lane `i` at which offset `offset` of the extent is
      evaluated. */
  lemma ChunkOf(offset: nat, extent: nat, f: nat) returns (xo: nat, i: nat)
    requires f > 0 && offset < extent
    ensures xo < SplitCount(extent, f) && i < f
    ensures SplitBase(xo, f, extent) + i == offset
  {
    xo := offset / f;
    OuterIndexBound(offset, extent, f);
    assert xo * f + offset % f == offset;
    if xo * f <= extent - f {
      i := offset % f;
    } else {
      i := offset - (extent - f);
    }
  }

  /** When `f` does not divide the extent (and is smaller than it), the last
      two chunks of a scanline overlap: pixel x_min + extent - f of every
      scanline is evaluated at least twice. */
  lemma ClampedSplitRecomputes(xMin: int, extent: nat, h: nat, f: nat, y: nat)
    requires 0 < f < extent && extent % f != 0 && y < h
    ensures multiset(ClampedSplit(xMin, extent, h, f))[Point(xMin + extent - f, y)] >= 2
  {
    var target := Point(xMin + extent - f, y);
    var lines := ClampedScanlines(xMin, extent, f);
    ScanlineRecomputes(xMin, extent, f, y);
    assert lines(y) == Concat(SplitCount(extent, f), ClampedChunks(xMin, extent, f, y));
    ConcatCount(h, lines, y, target);
  }

  lemma ScanlineRecomputes(xMin: int, extent: nat, f: nat, y: int)
    requires 0 < f < extent && extent % f != 0
    ensures multiset(Concat(SplitCount(extent, f), ClampedChunks(xMin, extent, f, y)))[Point(xMin + extent - f, y)] >= 2
  {
    var previous, r := LastTwoChunks(extent, f);
    var last := previous + 1;
    var target := Point(xMin + extent - f, y);
    var chunk := ClampedChunks(xMin, extent, f, y);
    assert chunk(last) == Span(xMin + (extent - f), f, y);
    assert chunk(last)[0] == target;
    assert chunk(previous) == Span(xMin + (extent - f - r), f, y);
    assert chunk(previous)[r] == target;
    assert Concat(last + 1, chunk) == Concat(previous, chunk) + chunk(previous) + chunk(last);
    assert multiset(Concat(last + 1, chunk))
        == multiset(Concat(previous, chunk)) + multiset(chunk(previous)) + multiset(chunk(last));
  }

  /** When `f` does not divide the extent, the last chunk is shifted back by
      `f - r` (with r = extent % f) and the chunk before it is not shifted. */
  lemma LastTwoChunks(extent: nat, f: nat) returns (previous: nat, r: nat)
    requires 0 < f < extent && extent % f != 0
    ensures SplitCount(extent, f) == previous + 2
    ensures 0 < r < f
    ensures SplitBase(previous + 1, f, extent) == extent - f
    ensures SplitBase(previous, f, extent) == extent - f - r
  {
    var q := extent / f;
    r := extent % f;
    assert q * f + r == extent;
    ScaledBound(q, f);
    DivModOfSum(q + 1, r - 1, f);
    assert (q + 1) * f + (r - 1) == extent + f - 1;
    previous := q - 1;
    assert (q - 1) * f == q * f - f;
  }

  /** The first `k` chunks of a scanline, when `f` divides the extent, are
      the first `k * f` pixels of that scanline. */
  lemma {:induction false} DividingChunks(xMin: int, extent: nat, f: nat, y: int, k: nat)
    requires f > 0 && extent % f == 0 && k <= extent / f
    ensures Concat(k, ClampedChunks(xMin, extent, f, y)) == Span(xMin, k * f, y)
  {
    if k > 0 {
      DividingChunks(xMin, extent, f, y, k - 1);
      DividingChunkStart(k, f, extent);
      assert ClampedChunks(xMin, extent, f, y)(k - 1) == Span(xMin + (k - 1) * f, f, y);
      SpanAppend(xMin, (k - 1) * f, f, y);
    }
  }

  /** With `f` dividing the extent no chunk is shifted. */
  lemma DividingChunkStart(k: nat, f: nat, extent: nat)
    requires f > 0 && extent % f == 0 && 0 < k <= extent / f
    ensures SplitBase(k - 1, f, extent) == (k - 1) * f
    ensures (k - 1) * f + f == k * f
  {
    assert extent == (extent / f) * f;
    ScaledBound(extent / f - k, f);
    assert (extent / f - k) * f == extent - k * f;
    assert (k - 1) * f == k * f - f;
  }

  /** When `f` divides the extent the split changes nothing: the loop nest
      is the row-major walk of [x_min, x_min + extent) x [0, h). */
  lemma ClampedSplitDividing(xMin: int, extent: nat, h: nat, f: nat)
    requires f > 0 && extent % f == 0
    ensures SplitCount(extent, f) == extent / f
    ensures ClampedSplit(xMin, extent, h, f) == Block(xMin, 0, extent, h)
  {
    var q := extent / f;
    assert q * f + 0 == extent;
    DivModOfSum(q, f - 1, f);
    forall y | 0 <= y < h
      ensures ClampedScanlines(xMin, extent, f)(y) == Scanline(xMin, 0, extent)(y)
    {
      DividingChunks(xMin, extent, f, y, q);
    }
    ConcatCongruent(h, ClampedScanlines(xMin, extent, f), Scanline(xMin, 0, extent));
  }

  /* ---------------------------------------------------------------------
     Putting it all together: 256 x 256 fused parallel tiles, each walked
     in 4 x 2 subtiles, vectorized across x and unrolled across y
     --------------------------------------------------------------------- */

  const TileSize: nat := 256
  const VectorWidth: nat := 4
  const UnrollRows: nat := 2

  /** Number of tiles along an extent (the last one shifted back inside). */
  function TileCount(extent: nat): nat
  {
    (extent + TileSize - 1) / TileSize
  }

  /** An extent of at least one tile has at least one tile. */
  lemma TileCountPositive(extent: nat)
    requires TileSize <= extent
    ensures TileCount(extent) >= 1
  {
    DivLowerBound(extent + TileSize - 1, 1, TileSize);
  }

  /** `min(outer * 256, extent - 256)`: start of tile `outer`. */
  function TileStart(outer: nat, extent: nat): int
  {
    Min(outer * TileSize, extent - TileSize)
  }

  /** The 4 x 2 subtile at (x, yBase): one vector for row yBase (y_pairs = 0),
      then one vector for row yBase + 1 (y_pairs = 1). */
  function Subtile(x: int, yBase: int): seq<Point>
  {
    Span(x, VectorWidth, yBase) + Span(x, VectorWidth, yBase + 1)
  }

  /** Iteration `xio` of the x_inner_outer loop. */
  function SubtilesAcross(left: int, top: int, yio: nat): nat -> seq<Point>
  {
    (xio: nat) => Subtile(left + xio * VectorWidth, top + yio * UnrollRows)
  }

  /** Iteration `yio` of the y_inner_outer loop of the tile at (left, top). */
  function SubtileRows(left: int, top: int): nat -> seq<Point>
  {
    (yio: nat) => Concat(TileSize / VectorWidth, SubtilesAcross(left, top, yio))
  }

  /** Iteration `t` of the fused tile_index loop over a w x h output with
      `ntx` tiles across: tile (t % ntx, t / ntx). */
  function FastTile(w: nat, h: nat, ntx: nat): nat -> seq<Point>
    requires ntx > 0
  {
    (t: nat) => Concat(TileSize / UnrollRows, SubtileRows(TileStart(t % ntx, w), TileStart(t / ntx, h)))
  }

  /** The whole `gradient_fast` traversal of a w x h output. */
  function FastTraversal(w: nat, h: nat): seq<Point>
    requires TileSize <= w && TileSize <= h
  {
    TileCountPositive(w);
    Concat(TileCount(w) * TileCount(h), FastTile(w, h, TileCount(w)))
  }

  /** The body of the subtile loops: `x_vec` holds the four lanes x .. x + 3,
      and the y_pairs loop is unrolled into row yBase, then row yBase + 1. */
  method UnrolledVectors(x: int, yBase: int) returns (visits: seq<Point>)
    ensures visits == Subtile(x, yBase)
  {
    var xVec := seq(VectorWidth, i => x + i);
    var y := yBase + 0;
    visits := seq(VectorWidth, i requires 0 <= i < VectorWidth => Point(xVec[i], y));
    y := yBase + 1;
    visits := visits + seq(VectorWidth, i requires 0 <= i < VectorWidth => Point(xVec[i], y));
  }

  /** One iteration of the parallel tile_index loop: y_outer and x_outer
      from the fused tile index, then the 256 x 256 tile (x_outer, y_outer),
      shifted back inside the w x h output, in 4 x 2 subtiles. */
  method FastTileOrder(w: nat, h: nat, ntx: nat, tileIndex: nat) returns (visits: seq<Point>)
    requires ntx > 0
    ensures visits == FastTile(w, h, ntx)(tileIndex)
  {
    FusedParts(tileIndex, ntx);
    var yOuter := tileIndex / ntx;
    var xOuter := tileIndex % ntx;
    visits := [];
    var yInnerOuter := 0;
    while yInnerOuter < TileSize / UnrollRows
      invariant yInnerOuter <= TileSize / UnrollRows
      invariant visits == Concat(yInnerOuter, SubtileRows(TileStart(xOuter, w), TileStart(yOuter, h)))
    {
      var row := FastSubtileRow(w, h, xOuter, yOuter, yInnerOuter);
      visits := visits + row;
      yInnerOuter := yInnerOuter + 1;
    }
  }

  /** One iteration of y_inner_outer: the x_inner_outer loop over the 64
      subtiles of a row of subtiles. */
  method FastSubtileRow(w: nat, h: nat, xOuter: nat, yOuter: nat, yInnerOuter: nat) returns (visits: seq<Point>)
    ensures visits == SubtileRows(TileStart(xOuter, w), TileStart(yOuter, h))(yInnerOuter)
  {
    ghost var left, top := TileStart(xOuter, w), TileStart(yOuter, h);
    visits := [];
    var xInnerOuter := 0;
    while xInnerOuter < TileSize / VectorWidth
      invariant xInnerOuter <= TileSize / VectorWidth
      invariant visits == Concat(xInnerOuter, SubtilesAcross(left, top, yInnerOuter))
    {
      var x := Min(xOuter * TileSize, w - TileSize) + xInnerOuter * VectorWidth;
      var yBase := Min(yOuter * TileSize, h - TileSize) + yInnerOuter * UnrollRows;
      var subtile := UnrolledVectors(x, yBase);
      visits := visits + subtile;
      assert SubtilesAcross(left, top, yInnerOuter)(xInnerOuter)
          == Subtile(left + xInnerOuter * VectorWidth, top + yInnerOuter * UnrollRows);
      xInnerOuter := xInnerOuter + 1;
    }
  }

  /** The serial equivalent of `gradient_fast.realize(w, h)`; the tutorial
      runs it for w = 800 and h = 600, where tile_index runs over 4 * 3 tiles. */
  method FastOrder(w: nat, h: nat) returns (visits: seq<Point>)
    requires TileSize <= w && TileSize <= h
    ensures visits == FastTraversal(w, h)
  {
    var ntx, nty := TileCount(w), TileCount(h);
    TileCountPositive(w);
    visits := [];
    var tileIndex := 0;
    while tileIndex < ntx * nty
      invariant 0 < ntx
      invariant tileIndex <= ntx * nty
      invariant visits == Concat(tileIndex, FastTile(w, h, ntx))
    {
      var tile := FastTileOrder(w, h, ntx, tileIndex);
      visits := visits + tile;
      tileIndex := tileIndex + 1;
    }
  }

  /** A tile starts inside the extent, at least one tile before its end. */
  lemma TileStartRange(outer: nat, extent: nat)
    requires TileSize <= extent
    ensures 0 <= TileStart(outer, extent) <= extent - TileSize
  {
    ScaledBound(outer, TileSize);
  }

  /** A tile start lies in [0, extent - 256], and the tile holding
      coordinate `c` starts at most 256 before it and not after it. */
  lemma TileStartFits(c: nat, extent: nat)
    requires TileSize <= extent && c < extent
    ensures 0 <= TileStart(c / TileSize, extent) <= c < TileStart(c / TileSize, extent) + TileSize
    ensures c / TileSize < TileCount(extent)
  {
    OuterIndexBound(c, extent, TileSize);
  }

  /** Every pixel the fast schedule evaluates lies inside the w x h output:
      the shifted last tiles never reach past its right or bottom edge. */
  lemma FastInBounds(w: nat, h: nat, p: Point)
    requires TileSize <= w && TileSize <= h
    requires p in FastTraversal(w, h)
    ensures Box(0, w, 0, h).Contains(p)
  {
    var ntx := TileCount(w);
    TileCountPositive(w);
    var t := InConcatWitness(ntx * TileCount(h), FastTile(w, h, ntx), p);
    FusedParts(t, ntx);
    var left, top := TileStart(t % ntx, w), TileStart(t / ntx, h);
    assert FastTile(w, h, ntx)(t) == Concat(TileSize / UnrollRows, SubtileRows(left, top));
    FastTileBounds(left, top, p);
    TileStartRange(t % ntx, w);
    TileStartRange(t / ntx, h);
  }

  /** Whatever a tile's walk evaluates lies in the 256 x 256 square from
      the tile start. */
  lemma FastTileBounds(left: int, top: int, p: Point)
    requires p in Concat(TileSize / UnrollRows, SubtileRows(left, top))
    ensures left <= p.x < left + TileSize && top <= p.y < top + TileSize
  {
    var yio := InConcatWitness(TileSize / UnrollRows, SubtileRows(left, top), p);
    assert SubtileRows(left, top)(yio) == Concat(TileSize / VectorWidth, SubtilesAcross(left, top, yio));
    var xio := InConcatWitness(TileSize / VectorWidth, SubtilesAcross(left, top, yio), p);
    var x, yBase := left + xio * VectorWidth, top + yio * UnrollRows;
    assert SubtilesAcross(left, top, yio)(xio) == Subtile(x, yBase);
    if p in Span(x, VectorWidth, yBase) {
      InSpan(x, VectorWidth, yBase, p);
    } else {
      InSpan(x, VectorWidth, yBase + 1, p);
    }
  }

  /** Every pixel of the w x h output is evaluated by the fast schedule. */
  lemma FastCovers(w: nat, h: nat, p: Point)
    requires TileSize <= w && TileSize <= h
    requires Box(0, w, 0, h).Contains(p)
    ensures p in FastTraversal(w, h)
  {
    var ntx, nty := TileCount(w), TileCount(h);
    var px, py: nat := p.x, p.y;
    var tx, ty := px / TileSize, py / TileSize;
    TileStartFits(px, w);
    TileStartFits(py, h);
    var left, top := TileStart(tx, w), TileStart(ty, h);
    InFastTile(left, top, p);
    var t := ty * ntx + tx;
    DivModOfSum(ty, tx, ntx);
    SplitIndexBound(ty, tx, ntx, nty);
    assert nty * ntx == ntx * nty;
    assert FastTile(w, h, ntx)(t) == Concat(TileSize / UnrollRows, SubtileRows(left, top));
    InConcat(ntx * nty, FastTile(w, h, ntx), t, p);
  }

  /** A pixel at most 255 right of and below a tile start is evaluated
      while that tile is walked. */
  lemma InFastTile(left: int, top: int, p: Point)
    requires left <= p.x < left + TileSize && top <= p.y < top + TileSize
    ensures p in Concat(TileSize / UnrollRows, SubtileRows(left, top))
  {
    var ox, oy: nat := p.x - left, p.y - top;
    var xio, lane := ox / VectorWidth, ox % VectorWidth;
    var yio, pair := oy / UnrollRows, oy % UnrollRows;
    var subtile := Subtile(left + xio * VectorWidth, top + yio * UnrollRows);
    if pair == 0 {
      assert subtile[lane] == p;
    } else {
      assert subtile[VectorWidth + lane] == p;
    }
    assert SubtilesAcross(left, top, yio)(xio) == subtile;
    InConcat(TileSize / VectorWidth, SubtilesAcross(left, top, yio), xio, p);
    assert SubtileRows(left, top)(yio) == Concat(TileSize / VectorWidth, SubtilesAcross(left, top, yio));
    InConcat(TileSize / UnrollRows, SubtileRows(left, top), yio, p);
  }

  /** Each tile evaluates 256 x 256 pixels. */
  lemma FastLength(w: nat, h: nat)
    requires TileSize <= w && TileSize <= h
    ensures |FastTraversal(w, h)| == TileCount(w) * TileCount(h) * (TileSize * TileSize)
  {
    var rowLength := (TileSize / VectorWidth) * (2 * VectorWidth);
    var ntx := TileCount(w);
    TileCountPositive(w);
    forall t: nat | t < TileCount(w) * TileCount(h)
      ensures |FastTile(w, h, ntx)(t)| == TileSize * TileSize
    {
      var left, top := TileStart(t % ntx, w), TileStart(t / ntx, h);
      forall yio: nat | yio < TileSize / UnrollRows
        ensures |SubtileRows(left, top)(yio)| == rowLength
      {
        forall xio: nat | xio < TileSize / VectorWidth
          ensures |SubtilesAcross(left, top, yio)(xio)| == 2 * VectorWidth
        {
          assert SubtilesAcross(left, top, yio)(xio)
              == Subtile(left + xio * VectorWidth, top + yio * UnrollRows);
        }
        ConcatLength(TileSize / VectorWidth, SubtilesAcross(left, top, yio), 2 * VectorWidth);
      }
      ConcatLength(TileSize / UnrollRows, SubtileRows(left, top), rowLength);
    }
    ConcatLength(ntx * TileCount(h), FastTile(w, h, ntx), TileSize * TileSize);
  }

  /** The 800 x 600 run of the tutorial: a 4 x 3 grid of tiles (the
      `xrange(4 * 3)` loop), exactly the output pixels are evaluated, and
      since neither extent is a multiple of 256 the shifted edge tiles
      overlap their neighbours, so more evaluations happen than there are
      pixels. */
  lemma Fast800x600(p: Point)
    ensures TileCount(800) == 4 && TileCount(600) == 3
    ensures p in FastTraversal(800, 600) <==> Box(0, 800, 0, 600).Contains(p)
    ensures |FastTraversal(800, 600)| == 12 * 65536 > 800 * 600
  {
    if p in FastTraversal(800, 600) {
      FastInBounds(800, 600, p);
    }
    if Box(0, 800, 0, 600).Contains(p) {
      FastCovers(800, 600, p);
    }
    FastLength(800, 600);
  }

  /* ---------------------------------------------------------------------
     The realized image
     --------------------------------------------------------------------- */

  /** The output buffer after evaluating `gradient` at `visits` in order:
      each evaluation stores x + y at its pixel. */
  function Realize(visits: seq<Point>): (image: map<Point, int>)
    ensures forall p :: p in image <==> p in visits
    ensures forall p :: p in image ==> image[p] == Gradient(p)
  {
    if visits == [] then map[]
    else
      var last := visits[|visits| - 1];
      Realize(visits[..|visits| - 1])[last := Gradient(last)]
  }

  /** Since `gradient` is pure, the image depends only on which pixels are
      evaluated, not on their order or on how often each one is. */
  lemma SameImage(s: seq<Point>, t: seq<Point>)
    requires forall p :: p in s <==> p in t
    ensures Realize(s) == Realize(t)
  {
    assert Realize(s).Keys == Realize(t).Keys;
  }

  /** Every schedule of the tutorial produces the image of the default
      schedule over the same w x h region: reordering, tiling, splitting by
      a factor that does not divide the width (which evaluates some pixels
      twice), and the 256 x 256 fast schedule. */
  lemma SchedulesAgree(w: nat, h: nat, f: nat, tw: nat, th: nat)
    requires 0 < f <= w
    requires tw > 0 && th > 0 && w % tw == 0 && h % th == 0
    ensures Realize(ColumnMajor(w, h)) == Realize(RowMajor(w, h))
    ensures Realize(Tiled(w, h, tw, th)) == Realize(RowMajor(w, h))
    ensures Realize(ClampedSplit(0, w, h, f)) == Realize(RowMajor(w, h))
    ensures TileSize <= w && TileSize <= h ==> Realize(FastTraversal(w, h)) == Realize(RowMajor(w, h))
  {
    var region := Box(0, w, 0, h);
    BlockCovers(0, 0, w, h);
    ColumnsCover(w, h);
    TiledCovers(w, h, tw, th);
    forall p
      ensures p in ColumnMajor(w, h) <==> p in RowMajor(w, h)
      ensures p in Tiled(w, h, tw, th) <==> p in RowMajor(w, h)
      ensures p in ClampedSplit(0, w, h, f) <==> p in RowMajor(w, h)
      ensures TileSize <= w && TileSize <= h ==> (p in FastTraversal(w, h) <==> p in RowMajor(w, h))
    {
      CoversMembership(RowMajor(w, h), region, p);
      CoversMembership(ColumnMajor(w, h), region, p);
      CoversMembership(Tiled(w, h, tw, th), region, p);
      if p in ClampedSplit(0, w, h, f) {
        ClampedSplitInBounds(0, w, h, f, p);
      }
      if region.Contains(p) {
        ClampedSplitCovers(0, w, h, f, p);
      }
      if TileSize <= w && TileSize <= h {
        if p in FastTraversal(w, h) {
          FastInBounds(w, h, p);
        }
        if region.Contains(p) {
          FastCovers(w, h, p);
        }
      }
    }
    SameImage(ColumnMajor(w, h), RowMajor(w, h));
    SameImage(Tiled(w, h, tw, th), RowMajor(w, h));
    SameImage(ClampedSplit(0, w, h, f), RowMajor(w, h));
    if TileSize <= w && TileSize <= h {
      SameImage(FastTraversal(w, h), RowMajor(w, h));
    }
  }
}
