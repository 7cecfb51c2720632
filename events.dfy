/** Evaluation traces of a two-stage pipeline.

    A schedule of a producer/consumer pipeline is described by the ordered
    list of computations it performs, one `(stage, x, y)` triplet per value
    computed -- the list that a11.py asks its `pythonCodeForBoxSchedule`
    functions to return.  A `Pipe` says which producer values one consumer
    value reads: a vertical stencil in column x, rows y + lo .. y + lo + halo.
    `ReadsAvailable` is the property every schedule must have: no consumer
    value is computed before the producer values it reads. */
module Events {
  import opened Sequences
  import opened Geometry

  /** blur_x -> blur_y is the separable 3x3 box blur; clampedBlurx -> blur
      the 5x5 box blur with clamped borders. */
  datatype Stage = BlurX | BlurY | ClampedBlurX | Blur

  /** One computation: `stage` evaluated at (x, y). */
  datatype Event = Event(stage: Stage, x: int, y: int)

  /** The consumer value at (x, y) reads the producer in column x, rows
      y + lo .. y + lo + halo. */
  datatype Pipe = Pipe(producer: Stage, consumer: Stage, lo: int, halo: nat)

  /** The producer values one consumer value at `p` reads, in the order the
      producer's own loop nest (y outer, x inner) computes them. */
  function Taps(pipe: Pipe, p: Point): seq<Point>
  {
    Block(p.x, p.y + pipe.lo, 1, pipe.halo + 1)
  }

  /** The events of `stage` computing the pixels of `pts`, in order. */
  function Tag(stage: Stage, pts: seq<Point>): seq<Event>
  {
    seq(|pts|, i requires 0 <= i < |pts| => Event(stage, pts[i].x, pts[i].y))
  }

  /** The pixels computed by `stage`, in the order the trace computes them:
      a trace read back as the triplets of one function name. */
  function Project(stage: Stage, t: seq<Event>): (r: seq<Point>)
    ensures forall p :: p in r <==> Event(stage, p.x, p.y) in t
  {
    if t == [] then []
    else
      var last := t[|t| - 1];
      assert t == t[..|t| - 1] + [last];
      Project(stage, t[..|t| - 1]) + (if last.stage == stage then [Point(last.x, last.y)] else [])
  }

  /** A producer computed over `region`, then the consumer over `order`: one
      iteration of the loop at which the producer is scheduled. */
  function Unit(pipe: Pipe, region: seq<Point>, order: seq<Point>): seq<Event>
  {
    Tag(pipe.producer, region) + Tag(pipe.consumer, order)
  }

  /** Event `e` is a consumer computation that reads producer value `q`. */
  predicate Needs(pipe: Pipe, e: Event, q: Point)
  {
    e.stage == pipe.consumer && q in Taps(pipe, Point(e.x, e.y))
  }

  /** No consumer value is computed before the producer values it reads. */
  ghost predicate ReadsAvailable(pipe: Pipe, t: seq<Event>)
  {
    forall i, q :: 0 <= i < |t| && Needs(pipe, t[i], q) ==> Event(pipe.producer, q.x, q.y) in t[..i]
  }

  /* ---------------------------------------------------------------------
     Stencil taps
     --------------------------------------------------------------------- */

  /** A consumer value reads its own column, rows y + lo .. y + lo + halo. */
  lemma TapsMembership(pipe: Pipe, p: Point, q: Point)
    ensures q in Taps(pipe, p) <==> q.x == p.x && p.y + pipe.lo <= q.y <= p.y + pipe.lo + pipe.halo
  {
    BlockCovers(p.x, p.y + pipe.lo, 1, pipe.halo + 1);
    CoversMembership(Taps(pipe, p), Box(p.x, p.x + 1, p.y + pipe.lo, p.y + pipe.lo + pipe.halo + 1), q);
  }

  /** A stencil tap is computed exactly once by the producer's loop nest. */
  lemma TapsCover(pipe: Pipe, p: Point)
    ensures CoversOnce(Taps(pipe, p), Box(p.x, p.x + 1, p.y + pipe.lo, p.y + pipe.lo + pipe.halo + 1))
    ensures |Taps(pipe, p)| == pipe.halo + 1
  {
    BlockCovers(p.x, p.y + pipe.lo, 1, pipe.halo + 1);
    BlockLength(p.x, p.y + pipe.lo, 1, pipe.halo + 1);
  }

  /* ---------------------------------------------------------------------
     Tagging and projecting
     --------------------------------------------------------------------- */

  lemma TagAppend(stage: Stage, a: seq<Point>, b: seq<Point>)
    ensures Tag(stage, a + b) == Tag(stage, a) + Tag(stage, b)
  {
  }

  /** A pixel is computed by the tagged events exactly when it is listed. */
  lemma InTag(stage: Stage, pts: seq<Point>, q: Point)
    ensures Event(stage, q.x, q.y) in Tag(stage, pts) <==> q in pts
  {
    if q in pts {
      var k :| 0 <= k < |pts| && pts[k] == q;
      assert Tag(stage, pts)[k] == Event(stage, q.x, q.y);
    }
    if Event(stage, q.x, q.y) in Tag(stage, pts) {
      var k :| 0 <= k < |pts| && Tag(stage, pts)[k] == Event(stage, q.x, q.y);
      assert pts[k] == q;
    }
  }

  /** An event among the tagged ones is of the tagged stage, at a listed pixel. */
  lemma InTagStage(stage: Stage, pts: seq<Point>, e: Event)
    requires e in Tag(stage, pts)
    ensures e.stage == stage && Point(e.x, e.y) in pts
  {
    var k :| 0 <= k < |pts| && Tag(stage, pts)[k] == e;
    assert pts[k] == Point(e.x, e.y);
  }

  lemma {:induction false} ProjectAppend(stage: Stage, a: seq<Event>, b: seq<Event>)
    ensures Project(stage, a + b) == Project(stage, a) + Project(stage, b)
  {
    if b == [] {
      assert a + b == a;
    } else {
      var init, last := b[..|b| - 1], b[|b| - 1];
      var tail := if last.stage == stage then [Point(last.x, last.y)] else [];
      ProjectAppend(stage, a, init);
      assert (a + b)[..|a + b| - 1] == a + init;
      assert Project(stage, a + b) == Project(stage, a + init) + tail;
      assert Project(stage, b) == Project(stage, init) + tail;
    }
  }

  /** Reading back the triplets of the stage that was tagged gives the
      pixels in their order; any other stage finds nothing. */
  lemma {:induction false} ProjectTag(stage: Stage, other: Stage, pts: seq<Point>)
    ensures Project(other, Tag(stage, pts)) == if stage == other then pts else []
  {
    if pts != [] {
      var init, last := pts[..|pts| - 1], pts[|pts| - 1];
      var t := Tag(stage, pts);
      ProjectTag(stage, other, init);
      assert t[..|t| - 1] == Tag(stage, init);
      assert t[|t| - 1] == Event(stage, last.x, last.y);
      assert Project(other, t) == Project(other, Tag(stage, init)) + (if stage == other then [last] else []);
      assert pts == init + [last];
    }
  }

  /** Iteration `k` of a loop, read back as the triplets of `stage`. */
  function Projected(stage: Stage, f: nat -> seq<Event>): nat -> seq<Point>
  {
    (k: nat) => Project(stage, f(k))
  }

  /** Reading back a loop is reading back each iteration, in order. */
  lemma {:induction false} ProjectConcat(stage: Stage, n: nat, f: nat -> seq<Event>)
    ensures Project(stage, Concat(n, f)) == Concat(n, Projected(stage, f))
  {
    if n > 0 {
      ProjectConcat(stage, n - 1, f);
      ProjectAppend(stage, Concat(n - 1, f), f(n - 1));
    }
  }

  /** One loop iteration, read back as either stage. */
  lemma UnitProjections(pipe: Pipe, region: seq<Point>, order: seq<Point>)
    requires pipe.producer != pipe.consumer
    ensures Project(pipe.producer, Unit(pipe, region, order)) == region
    ensures Project(pipe.consumer, Unit(pipe, region, order)) == order
  {
    ProjectAppend(pipe.producer, Tag(pipe.producer, region), Tag(pipe.consumer, order));
    ProjectAppend(pipe.consumer, Tag(pipe.producer, region), Tag(pipe.consumer, order));
    ProjectTag(pipe.producer, pipe.producer, region);
    ProjectTag(pipe.consumer, pipe.producer, order);
    ProjectTag(pipe.producer, pipe.consumer, region);
    ProjectTag(pipe.consumer, pipe.consumer, order);
  }

  /** Within one loop iteration, once the consumer has started, only
      consumer values follow. */
  lemma UnitOrder(pipe: Pipe, region: seq<Point>, order: seq<Point>)
    requires pipe.producer != pipe.consumer
    ensures forall i, j :: 0 <= i < j < |Unit(pipe, region, order)| && Unit(pipe, region, order)[i].stage == pipe.consumer
              ==> Unit(pipe, region, order)[j].stage == pipe.consumer
  {
    var t := Unit(pipe, region, order);
    forall i, j | 0 <= i < j < |t| && t[i].stage == pipe.consumer
      ensures t[j].stage == pipe.consumer
    {
      assert t[j] == Tag(pipe.consumer, order)[j - |region|];
    }
  }

  /* ---------------------------------------------------------------------
     Availability of the values a consumer reads
     --------------------------------------------------------------------- */

  /** Computing the producer over a region that holds every value the
      consumer order reads, before the consumer, makes every read available. */
  lemma UnitAvailable(pipe: Pipe, region: seq<Point>, order: seq<Point>)
    requires pipe.producer != pipe.consumer
    requires forall p, q :: p in order && q in Taps(pipe, p) ==> q in region
    ensures ReadsAvailable(pipe, Unit(pipe, region, order))
  {
    var t := Unit(pipe, region, order);
    var produced := Tag(pipe.producer, region);
    forall i, q | 0 <= i < |t| && Needs(pipe, t[i], q)
      ensures Event(pipe.producer, q.x, q.y) in t[..i]
    {
      assert i >= |region|;
      var p := order[i - |region|];
      assert t[i] == Event(pipe.consumer, p.x, p.y);
      assert p == Point(t[i].x, t[i].y);
      InTag(pipe.producer, region, q);
      assert t[..i] == produced + t[|region|..i];
    }
  }

  /** Running one available trace after another keeps every read available. */
  lemma AppendAvailable(pipe: Pipe, a: seq<Event>, b: seq<Event>)
    requires ReadsAvailable(pipe, a) && ReadsAvailable(pipe, b)
    ensures ReadsAvailable(pipe, a + b)
  {
    var t := a + b;
    forall i, q | 0 <= i < |t| && Needs(pipe, t[i], q)
      ensures Event(pipe.producer, q.x, q.y) in t[..i]
    {
      if i < |a| {
        assert t[i] == a[i];
        assert t[..i] == a[..i];
      } else {
        var j := i - |a|;
        assert t[i] == b[j];
        assert Event(pipe.producer, q.x, q.y) in b[..j];
        assert t[..i] == a + b[..j];
      }
    }
  }

  /** A loop whose every iteration is available is available. */
  lemma {:induction false} ConcatAvailable(pipe: Pipe, n: nat, f: nat -> seq<Event>)
    requires forall k :: 0 <= k < n ==> ReadsAvailable(pipe, f(k))
    ensures ReadsAvailable(pipe, Concat(n, f))
  {
    if n > 0 {
      ConcatAvailable(pipe, n - 1, f);
      AppendAvailable(pipe, Concat(n - 1, f), f(n - 1));
    }
  }

  /** A consumer event reading a value that no event of the trace produces
      breaks availability. */
  lemma NeverProduced(pipe: Pipe, t: seq<Event>, i: nat, q: Point)
    requires i < |t| && Needs(pipe, t[i], q)
    requires Event(pipe.producer, q.x, q.y) !in t
    ensures !ReadsAvailable(pipe, t)
  {
    assert Event(pipe.producer, q.x, q.y) !in t[..i];
  }

  /* ---------------------------------------------------------------------
     A stage's own loop nest
     --------------------------------------------------------------------- */

  /** A stage evaluated over the box at (x0, y0) of size w x h by its own
      loop nest: y outer, x inner, one triplet per pixel. */
  method EmitBlock(stage: Stage, x0: int, y0: int, w: nat, h: nat) returns (events: seq<Event>)
    ensures events == Tag(stage, Block(x0, y0, w, h))
  {
    events := [];
    var y := 0;
    while y < h
      invariant y <= h
      invariant events == Tag(stage, Block(x0, y0, w, y))
    {
      ghost var done := events;
      var x := 0;
      while x < w
        invariant x <= w
        invariant events == done + Tag(stage, Span(x0, x, y0 + y))
      {
        events := events + [Event(stage, x0 + x, y0 + y)];
        assert Span(x0, x + 1, y0 + y) == Span(x0, x, y0 + y) + [Point(x0 + x, y0 + y)];
        TagAppend(stage, Span(x0, x, y0 + y), [Point(x0 + x, y0 + y)]);
        x := x + 1;
      }
      assert Scanline(x0, y0, w)(y) == Span(x0, w, y0 + y);
      TagAppend(stage, Block(x0, y0, w, y), Span(x0, w, y0 + y));
      y := y + 1;
    }
  }
}
