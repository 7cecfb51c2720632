/** The separable 3x3 box blur of tutorial6_3x3box_schedule.py and the
    schedule exercises of a11.py.

    blur_x(x, y) averages the input at (x, y), (x + 1, y), (x + 2, y);
    blur_y(x, y) averages blur_x at (x, y), (x, y + 1), (x, y + 2).  The
    kernels are not centred, so blur_y is realized over (width - 2) x
    (height - 2) of an input of size width x height.

    Each schedule is a method whose nested loops append one `(stage, x, y)`
    triplet per computation, in evaluation order, as a11.py asks; each is
    proved equal to the trace of `Schedules` it implements, and the lemmas
    of `Schedules` give its availability, order and redundancy. */
module BoxBlur {
  import opened Sequences
  import opened Geometry
  import opened LoopNests
  import opened Events
  import opened Schedules

  /** blur_y(x, y) reads blur_x in column x, rows y .. y + 2. */
  const Box3: Pipe := Pipe(BlurX, BlurY, 0, 2)

  /** blur_x(x, y) reads the input on row y, columns x .. x + 2. */
  function BlurXReads(p: Point): seq<Point>
  {
    Span(p.x, 3, p.y)
  }

  /** The input pixels that blur_y at `p` depends on all lie in the
      width x height input exactly when `p` lies in the
      (width - 2) x (height - 2) region blur_y is realized over. */
  lemma InputFootprint(width: int, height: int, p: Point)
    ensures (forall q, r :: q in Taps(Box3, p) && r in BlurXReads(q) ==> Box(0, width, 0, height).Contains(r))
        <==> Box(0, width - 2, 0, height - 2).Contains(p)
  {
    if Box(0, width - 2, 0, height - 2).Contains(p) {
      forall q, r | q in Taps(Box3, p) && r in BlurXReads(q)
        ensures Box(0, width, 0, height).Contains(r)
      {
        TapsMembership(Box3, p, q);
        InSpan(q.x, 3, q.y, r);
      }
    } else {
      var top, bottom := p, Point(p.x, p.y + 2);
      var first, last := p, Point(p.x + 2, p.y + 2);
      TapsMembership(Box3, p, top);
      TapsMembership(Box3, p, bottom);
      assert BlurXReads(top)[0] == first;
      assert BlurXReads(bottom)[2] == last;
      assert !Box(0, width, 0, height).Contains(first) || !Box(0, width, 0, height).Contains(last);
    }
  }

  /* ---------------------------------------------------------------------
     Schedule 1: root
     --------------------------------------------------------------------- */

  /** `blur_y.compute_root(); blur_x.compute_root()`: blur_x over all the
      width x (height + 2) values blur_y reads, then blur_y row by row. */
  method RootSchedule(width: nat, height: nat) returns (trace: seq<Event>)
    ensures trace == RootTrace(Box3, width, height)
  {
    var tmp := EmitBlock(BlurX, 0, 0 + Box3.lo, width, height + Box3.halo);
    var out := EmitBlock(BlurY, 0, 0, width, height);
    trace := tmp + out;
  }

  /** The root loops as written compute blur_x over `height` rows only. */
  function RootAsWritten(width: nat, height: nat): seq<Event>
  {
    Unit(Box3, RowMajor(width, height), RowMajor(width, height))
  }

  /** As written, blur_y on the last row reads blur_x two rows below any row
      the first loop computed. */
  lemma RootAsWrittenMissesRows(width: nat, height: nat)
    requires width > 0 && height > 0
    ensures !ReadsAvailable(Box3, RootAsWritten(width, height))
  {
    var t := RootAsWritten(width, height);
    var rows := RowMajor(width, height);
    var p, q := Point(0, height - 1), Point(0, height + 1);
    BlockAt(0, 0, width, height, height - 1, 0);
    var i := |rows| + (height - 1) * width;
    assert t[i] == Event(BlurY, p.x, p.y);
    TapsMembership(Box3, p, q);
    InBlock(0, 0, width, height, q);
    InTag(BlurX, rows, q);
    assert Event(BlurX, q.x, q.y) !in Tag(BlurY, rows);
    NeverProduced(Box3, t, i, q);
  }

  /* ---------------------------------------------------------------------
     Schedule 2: inline (and exercise schedule 5: blur_x at blur_y's x)
     --------------------------------------------------------------------- */

  /** `blur_x.compute_inline()`, or `blur_x.compute_at(blur_y, x)`: for each
      output pixel in row-major order, the three blur_x values it reads, then
      the pixel. */
  method InlineSchedule(width: nat, height: nat) returns (trace: seq<Event>)
    ensures trace == InlineTrace(Box3, width, height)
  {
    trace := [];
    var y := 0;
    while y < height
      invariant y <= height
      invariant trace == Concat(y, PixelRows(Box3, width))
    {
      var row := InlineRowSchedule(width, y);
      ConcatStep(y, PixelRows(Box3, width));
      trace := trace + row;
      y := y + 1;
    }
  }

  /** One iteration of y: the pixels of one output row, each after its
      stencil. */
  method InlineRowSchedule(width: nat, y: int) returns (row: seq<Event>)
    ensures row == Concat(width, PixelUnits(Box3, y))
  {
    row := [];
    var x := 0;
    while x < width
      invariant x <= width
      invariant row == Concat(x, PixelUnits(Box3, y))
    {
      var stencil := EmitBlock(BlurX, x, y + Box3.lo, 1, Box3.halo + 1);
      PixelStep(x, y);
      ConcatStep(x, PixelUnits(Box3, y));
      row := row + (stencil + [Event(BlurY, x, y)]);
      x := x + 1;
    }
  }

  /** One pixel of the inline schedule: its stencil, then the pixel. */
  lemma PixelStep(x: nat, y: int)
    ensures PixelUnits(Box3, y)(x) == Tag(BlurX, Block(x, y + Box3.lo, 1, Box3.halo + 1)) + [Event(BlurY, x, y)]
  {
    assert Tag(BlurY, [Point(x, y)]) == [Event(BlurY, x, y)];
  }

  /** Schedule 5: every blur_y triplet comes right after the three blur_x
      triplets of its column, rows y, y + 1 and y + 2. */
  lemma InlineOrderAt(width: nat, height: nat, x: nat, y: nat)
    requires x < width && y < height
    ensures y * (width * 4) + x * 4 + 4 <= |InlineTrace(Box3, width, height)|
    ensures InlineTrace(Box3, width, height)[y * (width * 4) + x * 4 .. y * (width * 4) + x * 4 + 4]
         == [Event(BlurX, x, y), Event(BlurX, x, y + 1), Event(BlurX, x, y + 2), Event(BlurY, x, y)]
  {
    var t := InlineTrace(Box3, width, height);
    var start := y * (width * 4);
    InlineRowAt(width, height, y);
    PixelUnitsLength(y, width);
    ConcatSlice(width, PixelUnits(Box3, y), 4, x);
    PixelUnitEvents(x, y);
    SliceOfSlice(t, start, width * 4, x * 4, 4);
  }

  /** Output row y is the y-th block of 4 * width triplets of the trace. */
  lemma InlineRowAt(width: nat, height: nat, y: nat)
    requires y < height
    ensures y * (width * 4) + width * 4 <= |InlineTrace(Box3, width, height)|
    ensures InlineTrace(Box3, width, height)[y * (width * 4) .. y * (width * 4) + width * 4] == PixelRows(Box3, width)(y)
  {
    PixelRowsLength(width, height);
    ConcatSlice(height, PixelRows(Box3, width), width * 4, y);
  }

  /** A piece of a piece of a sequence is a piece of the sequence. */
  lemma SliceOfSlice<T>(s: seq<T>, a: nat, n: nat, b: nat, m: nat)
    requires a + n <= |s| && b + m <= n
    ensures s[a .. a + n][b .. b + m] == s[a + b .. a + b + m]
  {
    var inner := s[a .. a + n];
    var outer := inner[b .. b + m];
    forall k | 0 <= k < m
      ensures outer[k] == s[a + b + k]
    {
      assert outer[k] == inner[b + k];
    }
  }

  /** The three blur_x triplets a blur_y pixel reads, then the pixel. */
  lemma PixelUnitEvents(x: nat, y: int)
    ensures PixelUnits(Box3, y)(x) == [Event(BlurX, x, y), Event(BlurX, x, y + 1), Event(BlurX, x, y + 2), Event(BlurY, x, y)]
  {
    var taps := Taps(Box3, Point(x, y));
    BlockLength(x, y, 1, 3);
    BlockAt(x, y, 1, 3, 0, 0);
    BlockAt(x, y, 1, 3, 1, 0);
    BlockAt(x, y, 1, 3, 2, 0);
    assert taps == [Point(x, y), Point(x, y + 1), Point(x, y + 2)];
  }

  /** Each output pixel contributes four triplets. */
  lemma PixelUnitsLength(y: int, width: nat)
    ensures forall k :: 0 <= k < width ==> |PixelUnits(Box3, y)(k)| == 4
  {
    forall k: nat | k < width
      ensures |PixelUnits(Box3, y)(k)| == 4
    {
      TapsCover(Box3, Point(k, y));
    }
  }

  /** Each output row contributes four triplets per pixel. */
  lemma PixelRowsLength(width: nat, height: nat)
    ensures forall k :: 0 <= k < height ==> |PixelRows(Box3, width)(k)| == width * 4
  {
    forall k: nat | k < height
      ensures |PixelRows(Box3, width)(k)| == width * 4
    {
      PixelUnitsLength(k, width);
      ConcatLength(width, PixelUnits(Box3, k), 4);
    }
  }

  /** Inline computes each blur_x value once per blur_y value that reads it:
      three times for every row but the first two and the last two. */
  lemma InlineTriples(width: nat, height: nat, q: Point)
    ensures Box(0, width, 2, height).Contains(q) ==> multiset(Project(BlurX, InlineTrace(Box3, width, height)))[q] == 3
    ensures !Box(0, width, 0, height + 2).Contains(q) ==> multiset(Project(BlurX, InlineTrace(Box3, width, height)))[q] == 0
    ensures |Project(BlurX, InlineTrace(Box3, width, height))| == 3 * (width * height)
  {
    InlineRecomputes(Box3, width, height, q);
    HitsBounds(Box3, height, q.y);
    assert |Project(BlurX, InlineTrace(Box3, width, height))| == 3 * (width * height) by {
      InlineWork(Box3, width, height);
      ThreePerPixel(width, height);
    }
  }

  lemma ThreePerPixel(width: nat, height: nat)
    ensures height * (width * (Box3.halo + 1)) == 3 * (width * height)
  {
  }

  /* ---------------------------------------------------------------------
     Schedule 3: tiles, blur_x at blur_y's xo
     --------------------------------------------------------------------- */

  /** `blur_y.tile(x, y, xo, yo, xi, yi, tw, th); blur_x.compute_at(blur_y, xo)`:
      per tile, blur_x over the tile widened by two rows below, then blur_y
      over the tile. */
  method TiledSchedule(width: nat, height: nat, tw: nat, th: nat) returns (trace: seq<Event>)
    requires tw > 0 && th > 0 && width % tw == 0 && height % th == 0
    ensures trace == TiledTrace(Box3, width, height, tw, th)
  {
    trace := [];
    var yo := 0;
    while yo < height / th
      invariant yo <= height / th
      invariant trace == Concat(yo, TileUnitRows(Box3, tw, th, width / tw))
    {
      var row := TiledRowSchedule(tw, th, width / tw, yo);
      trace := trace + row;
      yo := yo + 1;
    }
  }

  /** One iteration of yo: the tiles of one row of tiles. */
  method TiledRowSchedule(tw: nat, th: nat, ntx: nat, yo: nat) returns (trace: seq<Event>)
    ensures trace == TileUnitRows(Box3, tw, th, ntx)(yo)
  {
    trace := [];
    var xo := 0;
    while xo < ntx
      invariant xo <= ntx
      invariant trace == Concat(xo, TileUnits(Box3, tw, th, yo))
    {
      var tmp := EmitBlock(BlurX, xo * tw, yo * th + Box3.lo, tw, th + Box3.halo);
      var out := EmitBlock(BlurY, xo * tw, yo * th, tw, th);
      trace := trace + (tmp + out);
      xo := xo + 1;
    }
  }

  /** Iteration yi of the loops as written: `xrange(256/8)` columns, with
      coordinates clamped to the width and height themselves. */
  function AsWrittenRow(width: nat, height: nat, xo: nat, yo: nat, yi: nat): seq<Point>
  {
    seq(256 / 8, xi => Point(Min(xo * 256 + xi, width), Min(yo * 32 + yi, height)))
  }

  function AsWrittenRows(width: nat, height: nat, xo: nat, yo: nat): nat -> seq<Point>
  {
    (yi: nat) => AsWrittenRow(width, height, xo, yo, yi)
  }

  function AsWrittenTile(width: nat, height: nat, xo: nat, yo: nat): seq<Point>
  {
    Concat(32, AsWrittenRows(width, height, xo, yo))
  }

  function AsWrittenTiles(width: nat, height: nat, yo: nat): nat -> seq<Event>
  {
    (xo: nat) => Unit(Box3, AsWrittenTile(width, height, xo, yo), AsWrittenTile(width, height, xo, yo))
  }

  function AsWrittenTileRows(width: nat, height: nat): nat -> seq<Event>
  {
    (yo: nat) => Concat(SplitCount(width, 256), AsWrittenTiles(width, height, yo))
  }

  /** The tiled loops as written: both loop nests walk the same 32 x 32
      positions of each 256 x 32 tile. */
  function TiledAsWritten(width: nat, height: nat): seq<Event>
  {
    Concat(SplitCount(height, 32), AsWrittenTileRows(width, height))
  }

  /** A pixel of one row as written has a clamped x, or one of the first 32
      columns of a 256-wide tile, and a clamped y at most `height`. */
  lemma InAsWrittenRow(width: nat, height: nat, xo: nat, yo: nat, yi: nat, p: Point)
    requires p in AsWrittenRow(width, height, xo, yo, yi)
    ensures p.x == width || p.x % 256 < 32
    ensures p.y <= height
  {
    var xi :| 0 <= xi < 32 && AsWrittenRow(width, height, xo, yo, yi)[xi] == p;
    if xo * 256 + xi <= width {
      DivModOfSum(xo, xi, 256);
    }
  }

  /** Every triplet of the loops as written has a clamped x, or one of the
      first 32 columns of a 256-wide tile, and a clamped y at most `height`. */
  lemma AsWrittenVisits(width: nat, height: nat, e: Event)
    requires e in TiledAsWritten(width, height)
    ensures e.x == width || e.x % 256 < 32
    ensures e.y <= height
  {
    var yo := InConcatWitness(SplitCount(height, 32), AsWrittenTileRows(width, height), e);
    var xo := InConcatWitness(SplitCount(width, 256), AsWrittenTiles(width, height, yo), e);
    var tile := AsWrittenTile(width, height, xo, yo);
    assert e in Tag(BlurX, tile) + Tag(BlurY, tile);
    var p := Point(e.x, e.y);
    if e in Tag(BlurX, tile) {
      InTagStage(BlurX, tile, e);
    } else {
      InTagStage(BlurY, tile, e);
    }
    var yi := InConcatWitness(32, AsWrittenRows(width, height, xo, yo), p);
    InAsWrittenRow(width, height, xo, yo, yi, p);
  }

  /** As written, a 256 x 32 output misses column 32 ... */
  lemma TiledAsWrittenMissesColumns()
    ensures Box(0, 256, 0, 32).Contains(Point(32, 0))
    ensures Point(32, 0) !in Project(BlurY, TiledAsWritten(256, 32))
  {
    if Event(BlurY, 32, 0) in TiledAsWritten(256, 32) {
      AsWrittenVisits(256, 32, Event(BlurY, 32, 0));
    }
  }

  /** ... writes blur_y one column past a 10-pixel-wide output ... */
  lemma TiledAsWrittenOverruns()
    ensures !Box(0, 10, 0, 32).Contains(Point(10, 0))
    ensures Point(10, 0) in Project(BlurY, TiledAsWritten(10, 32))
  {
    var tile := AsWrittenTile(10, 32, 0, 0);
    var row := AsWrittenRow(10, 32, 0, 0, 0);
    assert row[10] == Point(Min(0 * 256 + 10, 10), Min(0 * 32 + 0, 32));
    InConcat(32, AsWrittenRows(10, 32, 0, 0), 0, Point(10, 0));
    InTag(BlurY, tile, Point(10, 0));
    InConcat(SplitCount(10, 256), AsWrittenTiles(10, 32, 0), 0, Event(BlurY, 10, 0));
    InConcat(SplitCount(32, 32), AsWrittenTileRows(10, 32), 0, Event(BlurY, 10, 0));
  }

  /** ... and, with no rows added below the tile, blur_y on row 31 reads a
      blur_x row the loops never compute. */
  lemma TiledAsWrittenMissesRows()
    ensures !ReadsAvailable(Box3, TiledAsWritten(256, 32))
  {
    var t := TiledAsWritten(256, 32);
    var p, q := Point(0, 31), Point(0, 33);
    AsWrittenComputesRow31();
    var i :| 0 <= i < |t| && t[i] == Event(BlurY, p.x, p.y);
    TapsMembership(Box3, p, q);
    if Event(BlurX, q.x, q.y) in t {
      AsWrittenVisits(256, 32, Event(BlurX, q.x, q.y));
    }
    NeverProduced(Box3, t, i, q);
  }

  /** The loops as written do compute blur_y at (0, 31) of a 256 x 32 output. */
  lemma AsWrittenComputesRow31()
    ensures Event(BlurY, 0, 31) in TiledAsWritten(256, 32)
  {
    var tile := AsWrittenTile(256, 32, 0, 0);
    var p := Point(0, 31);
    var row := AsWrittenRow(256, 32, 0, 0, 31);
    assert row[0] == Point(Min(0 * 256 + 0, 256), Min(0 * 32 + 31, 32));
    InConcat(32, AsWrittenRows(256, 32, 0, 0), 31, p);
    InTag(BlurY, tile, p);
    InConcat(SplitCount(256, 256), AsWrittenTiles(256, 32, 0), 0, Event(BlurY, 0, 31));
    InConcat(SplitCount(32, 32), AsWrittenTileRows(256, 32), 0, Event(BlurY, 0, 31));
  }

  /* ---------------------------------------------------------------------
     Exercise schedule 6: tiles, blur_x at blur_y's yo
     --------------------------------------------------------------------- */

  /** `blur_y.tile(x, y, xo, yo, xi, yi, tw, th); blur_x.compute_at(blur_y, yo)`:
      per row of tiles, blur_x over the full width and the th + 2 rows the
      row of tiles reads, then blur_y tile by tile. */
  method TileRowSchedule(width: nat, height: nat, tw: nat, th: nat) returns (trace: seq<Event>)
    requires tw > 0 && th > 0 && width % tw == 0 && height % th == 0
    ensures trace == BandTrace(Box3, width, height, tw, th)
  {
    trace := [];
    var yo := 0;
    while yo < height / th
      invariant yo <= height / th
      invariant trace == Concat(yo, BandUnits(Box3, width, tw, th))
    {
      var tmp := EmitBlock(BlurX, 0, yo * th + Box3.lo, width, th + Box3.halo);
      var out := TileRowOutputs(tw, th, width / tw, yo);
      BandStep(width, tw, th, yo);
      trace := trace + (tmp + out);
      yo := yo + 1;
    }
  }

  /** One row of tiles: blur_x over the band, then blur_y tile by tile. */
  lemma BandStep(width: nat, tw: nat, th: nat, yo: nat)
    requires tw > 0
    ensures BandUnits(Box3, width, tw, th)(yo)
         == Tag(BlurX, Block(0, yo * th + Box3.lo, width, th + Box3.halo)) + Tag(BlurY, Concat(width / tw, TilesAcross(tw, th, yo)))
  {
    assert TileRows(tw, th, width / tw)(yo) == Concat(width / tw, TilesAcross(tw, th, yo));
  }

  /** The xo, yi, xi loops of one row of tiles, computing blur_y. */
  method TileRowOutputs(tw: nat, th: nat, ntx: nat, yo: nat) returns (out: seq<Event>)
    ensures out == Tag(BlurY, Concat(ntx, TilesAcross(tw, th, yo)))
  {
    out := [];
    var xo := 0;
    while xo < ntx
      invariant xo <= ntx
      invariant out == Tag(BlurY, Concat(xo, TilesAcross(tw, th, yo)))
    {
      var tile := EmitBlock(BlurY, xo * tw, yo * th, tw, th);
      TagAppend(BlurY, Concat(xo, TilesAcross(tw, th, yo)), Tile(tw, th, xo, yo));
      out := out + tile;
      xo := xo + 1;
    }
  }

  /* ---------------------------------------------------------------------
     Exercise schedule 7: x split, blur_x at blur_y's y
     --------------------------------------------------------------------- */

  /** `blur_y.split(x, xo, xi, f); blur_x.compute_at(blur_y, y)`: per output
      row, blur_x over the three rows it reads, then the row of blur_y by
      chunks of f. */
  method ScanlineSchedule(width: nat, height: nat, f: nat) returns (trace: seq<Event>)
    requires f > 0 && width % f == 0
    ensures trace == ScanlineTrace(Box3, width, height)
  {
    trace := [];
    var y := 0;
    while y < height
      invariant y <= height
      invariant trace == Concat(y, ScanlineUnits(Box3, width))
    {
      var tmp := EmitBlock(BlurX, 0, y + Box3.lo, width, 1 + Box3.halo);
      var out := SplitRowOutputs(width, f, y);
      OneRowBlock(0, y, width);
      trace := trace + (tmp + out);
      y := y + 1;
    }
  }

  /** The xo, xi loops of one output row, computing blur_y. */
  method SplitRowOutputs(width: nat, f: nat, y: int) returns (out: seq<Event>)
    requires f > 0 && width % f == 0
    ensures out == Tag(BlurY, Span(0, width, y))
  {
    out := [];
    var xo := 0;
    while xo < width / f
      invariant xo <= width / f
      invariant out == Tag(BlurY, Span(0, xo * f, y))
    {
      ChunkFits(xo, f, width);
      var chunk := EmitBlock(BlurY, xo * f, y, f, 1);
      ChunkStep(xo * f, f, y);
      out := out + chunk;
      xo := xo + 1;
    }
    FusedParts(width, f);
  }

  /** One chunk of f pixels extends the row computed so far. */
  lemma ChunkStep(start: nat, f: nat, y: int)
    ensures Tag(BlurY, Span(0, start + f, y)) == Tag(BlurY, Span(0, start, y)) + Tag(BlurY, Block(start, y, f, 1))
  {
    OneRowBlock(start, y, f);
    SpanAppend(0, start, f, y);
    TagAppend(BlurY, Span(0, start, y), Span(start, f, y));
  }

  /* ---------------------------------------------------------------------
     What every schedule guarantees
     --------------------------------------------------------------------- */

  /** Every schedule computes each blur_y value of the output exactly once,
      after the blur_x values it reads. */
  lemma EveryScheduleIsCorrect(width: nat, height: nat, tw: nat, th: nat)
    requires tw > 0 && th > 0 && width % tw == 0 && height % th == 0
    ensures CoversOnce(Project(BlurY, RootTrace(Box3, width, height)), Box(0, width, 0, height))
    ensures CoversOnce(Project(BlurY, InlineTrace(Box3, width, height)), Box(0, width, 0, height))
    ensures CoversOnce(Project(BlurY, TiledTrace(Box3, width, height, tw, th)), Box(0, width, 0, height))
    ensures CoversOnce(Project(BlurY, BandTrace(Box3, width, height, tw, th)), Box(0, width, 0, height))
    ensures CoversOnce(Project(BlurY, ScanlineTrace(Box3, width, height)), Box(0, width, 0, height))
    ensures ReadsAvailable(Box3, RootTrace(Box3, width, height))
    ensures ReadsAvailable(Box3, InlineTrace(Box3, width, height))
    ensures ReadsAvailable(Box3, TiledTrace(Box3, width, height, tw, th))
    ensures ReadsAvailable(Box3, BandTrace(Box3, width, height, tw, th))
    ensures ReadsAvailable(Box3, ScanlineTrace(Box3, width, height))
  {
    BlockCovers(0, 0, width, height);
    TiledCovers(width, height, tw, th);
    RootConsumer(Box3, width, height);
    InlineConsumer(Box3, width, height);
    TiledConsumer(Box3, width, height, tw, th);
    BandConsumer(Box3, width, height, tw, th);
    ScanlineConsumer(Box3, width, height);
    RootAvailable(Box3, width, height);
    InlineAvailable(Box3, width, height);
    TiledAvailable(Box3, width, height, tw, th);
    BandAvailable(Box3, width, height, tw, th);
    ScanlineAvailable(Box3, width, height);
  }
}
