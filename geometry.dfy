/** Pixel coordinates, rectangular regions and the basic traversal orders.

    A `Box` is the half-open region [x0, x1) x [y0, y1) that a `realize(w, h)`
    call or a tile asks for.  `Span`, `Column` and `Block` are the orders in
    which the innermost loops of a loop nest walk a row, a column and a box;
    `CoversOnce(s, b)` says that a traversal visits every pixel of `b` exactly
    once and nothing else. */
module Geometry {
  import opened Sequences

  datatype Point = Point(x: int, y: int)

  /** The half-open rectangle [x0, x1) x [y0, y1). */
  datatype Box = Box(x0: int, x1: int, y0: int, y1: int)
  {
    predicate Contains(p: Point)
    {
      x0 <= p.x < x1 && y0 <= p.y < y1
    }
  }

  /** `for x in xrange(x0, x0 + n): visit(x, y)`: part of a scanline. */
  function Span(x0: int, n: nat, y: int): (r: seq<Point>)
    ensures |r| == n
  {
    seq(n, i => Point(x0 + i, y))
  }

  /** `for y in xrange(y0, y0 + n): visit(x, y)`: part of a column. */
  function Column(x: int, y0: int, n: nat): (r: seq<Point>)
    ensures |r| == n
  {
    seq(n, i => Point(x, y0 + i))
  }

  /** Iteration `i` of the outer loop of `Block`: scanline `y0 + i`. */
  function Scanline(x0: int, y0: int, w: nat): nat -> seq<Point>
  {
    (i: nat) => Span(x0, w, y0 + i)
  }

  /** `for y in xrange(y0, y0 + h): for x in xrange(x0, x0 + w): visit(x, y)`. */
  function Block(x0: int, y0: int, w: nat, h: nat): seq<Point>
  {
    Concat(h, Scanline(x0, y0, w))
  }

  /** Halide's default order over a `realize(w, h)` region: y outer, x inner. */
  function RowMajor(w: nat, h: nat): seq<Point>
  {
    Block(0, 0, w, h)
  }

  /** Every pixel of `b` is visited exactly once by `s`, and nothing else is. */
  ghost predicate CoversOnce(s: seq<Point>, b: Box)
  {
    forall p :: multiset(s)[p] == if b.Contains(p) then 1 else 0
  }

  lemma {:induction false} SpanCovers(x0: int, n: nat, y: int)
    ensures CoversOnce(Span(x0, n, y), Box(x0, x0 + n, y, y + 1))
  {
    if n > 0 {
      SpanCovers(x0, n - 1, y);
      assert Span(x0, n, y) == Span(x0, n - 1, y) + [Point(x0 + n - 1, y)];
    }
  }

  lemma {:induction false} ColumnCovers(x: int, y0: int, n: nat)
    ensures CoversOnce(Column(x, y0, n), Box(x, x + 1, y0, y0 + n))
  {
    if n > 0 {
      ColumnCovers(x, y0, n - 1);
      assert Column(x, y0, n) == Column(x, y0, n - 1) + [Point(x, y0 + n - 1)];
    }
  }

  /** Visiting a box and then the box right below it visits their union once. */
  lemma StackCovers(a: seq<Point>, b: seq<Point>, x0: int, x1: int, y0: int, ym: int, y1: int)
    requires y0 <= ym <= y1
    requires CoversOnce(a, Box(x0, x1, y0, ym)) && CoversOnce(b, Box(x0, x1, ym, y1))
    ensures CoversOnce(a + b, Box(x0, x1, y0, y1))
  {
    forall p
      ensures multiset(a + b)[p] == if Box(x0, x1, y0, y1).Contains(p) then 1 else 0
    {
      assert multiset(a + b)[p] == multiset(a)[p] + multiset(b)[p];
    }
  }

  /** Visiting a box and then the box to its right visits their union once. */
  lemma BesideCovers(a: seq<Point>, b: seq<Point>, x0: int, xm: int, x1: int, y0: int, y1: int)
    requires x0 <= xm <= x1
    requires CoversOnce(a, Box(x0, xm, y0, y1)) && CoversOnce(b, Box(xm, x1, y0, y1))
    ensures CoversOnce(a + b, Box(x0, x1, y0, y1))
  {
    forall p
      ensures multiset(a + b)[p] == if Box(x0, x1, y0, y1).Contains(p) then 1 else 0
    {
      assert multiset(a + b)[p] == multiset(a)[p] + multiset(b)[p];
    }
  }

  /** The row-major walk of a box visits each of its pixels exactly once. */
  lemma {:induction false} BlockCovers(x0: int, y0: int, w: nat, h: nat)
    ensures CoversOnce(Block(x0, y0, w, h), Box(x0, x0 + w, y0, y0 + h))
  {
    if h > 0 {
      BlockCovers(x0, y0, w, h - 1);
      SpanCovers(x0, w, y0 + h - 1);
      StackCovers(Block(x0, y0, w, h - 1), Span(x0, w, y0 + h - 1), x0, x0 + w, y0, y0 + h - 1, y0 + h);
    }
  }

  /** Pixel (x0 + j, y0 + i) is the (i * w + j)-th visit of the row-major walk. */
  lemma BlockAt(x0: int, y0: int, w: nat, h: nat, i: nat, j: nat)
    requires i < h && j < w
    ensures |Block(x0, y0, w, h)| == w * h
    ensures i * w + j < w * h
    ensures Block(x0, y0, w, h)[i * w + j] == Point(x0 + j, y0 + i)
  {
    var row := Scanline(x0, y0, w);
    forall k: nat | k < h
      ensures |row(k)| == w
    {
      assert row(k) == Span(x0, w, y0 + k);
    }
    ConcatAt(h, row, w, i, j);
    assert row(i) == Span(x0, w, y0 + i);
  }

  lemma BlockLength(x0: int, y0: int, w: nat, h: nat)
    ensures |Block(x0, y0, w, h)| == w * h
  {
    var row := Scanline(x0, y0, w);
    forall k: nat | k < h
      ensures |row(k)| == w
    {
      assert row(k) == Span(x0, w, y0 + k);
    }
    ConcatLength(h, row, w);
  }

  /** Two traversals that each cover the same box once visit the same pixels
      the same number of times: one is a permutation of the other. */
  lemma SameVisits(s: seq<Point>, t: seq<Point>, b: Box)
    requires CoversOnce(s, b) && CoversOnce(t, b)
    ensures multiset(s) == multiset(t)
  {
    forall p
      ensures multiset(s)[p] == multiset(t)[p]
    {
    }
  }

  /** A traversal that covers a box once visits a pixel iff it lies in the box. */
  lemma CoversMembership(s: seq<Point>, b: Box, p: Point)
    requires CoversOnce(s, b)
    ensures p in s <==> b.Contains(p)
  {
    assert multiset(s)[p] == if b.Contains(p) then 1 else 0;
  }

  /** The row-major walk of a box visits a pixel iff it lies in the box. */
  lemma InBlock(x0: int, y0: int, w: nat, h: nat, p: Point)
    ensures p in Block(x0, y0, w, h) <==> Box(x0, x0 + w, y0, y0 + h).Contains(p)
  {
    BlockCovers(x0, y0, w, h);
    CoversMembership(Block(x0, y0, w, h), Box(x0, x0 + w, y0, y0 + h), p);
  }

  /** A box one row high is a single scanline piece. */
  lemma OneRowBlock(x0: int, y0: int, w: nat)
    ensures Block(x0, y0, w, 1) == Span(x0, w, y0)
  {
    assert Block(x0, y0, w, 1) == Concat(0, Scanline(x0, y0, w)) + Scanline(x0, y0, w)(0);
  }

  /** A pixel of a scanline piece lies on that scanline, inside the piece. */
  lemma InSpan(x0: int, n: nat, y: int, p: Point)
    requires p in Span(x0, n, y)
    ensures p.y == y && x0 <= p.x < x0 + n
  {
    var i :| 0 <= i < n && Span(x0, n, y)[i] == p;
  }
}
