/**
 * The frame buffer as a value and the drawing log.
 *
 * A frame buffer is a map from pixel cells to colours. `Put` is the effect of `drawPoint`,
 * `Paint` the effect of writing a sequence of points in order. Triangle filling is described
 * by a log of operations (`Op`): a single point written with `drawPoint`, or a span drawn with
 * `drawLine` in its default smooth mode. `Render` replays such a log over a buffer.
 */
module Raster {
  import opened Colors
  import opened Bresenham

  /** The frame buffer: the colour held by each written cell (x, y). */
  type Pixels = map<(int, int), Color>

  /** The cell a point is written to. */
  function Cell(p: Point): (int, int) {
    (p.x, p.y)
  }

  /** `drawPoint`: the point's cell takes the point's colour. */
  function Put(m: Pixels, p: Point): Pixels {
    m[Cell(p) := p.color]
  }

  /** Writing `pts` one after the other, first to last. */
  function Paint(m: Pixels, pts: seq<Point>): Pixels
    decreases |pts|
  {
    if |pts| == 0 then m else Paint(Put(m, pts[0]), pts[1..])
  }

  /** Writing two sequences one after the other is writing their concatenation. */
  lemma {:induction false} PaintAppend(m: Pixels, a: seq<Point>, b: seq<Point>)
    ensures Paint(m, a + b) == Paint(Paint(m, a), b)
    decreases |a|
  {
    if |a| > 0 {
      assert (a + b)[1..] == a[1..] + b;
      PaintAppend(Put(m, a[0]), a[1..], b);
    } else {
      assert a + b == b;
    }
  }

  /** A cell that no point of `pts` lands on keeps its content (or its absence). */
  lemma {:induction false} PaintUntouched(m: Pixels, pts: seq<Point>, c: (int, int))
    requires forall k :: 0 <= k < |pts| ==> Cell(pts[k]) != c
    ensures c in Paint(m, pts) <==> c in m
    ensures c in m ==> Paint(m, pts)[c] == m[c]
    decreases |pts|
  {
    if |pts| > 0 {
      PaintUntouched(Put(m, pts[0]), pts[1..], c);
    }
  }

  /** The last point written to a cell decides its colour. */
  lemma {:induction false} PaintLastWins(m: Pixels, pts: seq<Point>, k: nat)
    requires k < |pts|
    requires forall j :: k < j < |pts| ==> Cell(pts[j]) != Cell(pts[k])
    ensures Cell(pts[k]) in Paint(m, pts) && Paint(m, pts)[Cell(pts[k])] == pts[k].color
    decreases |pts|
  {
    if k == 0 {
      PaintUntouched(Put(m, pts[0]), pts[1..], Cell(pts[0]));
    } else {
      PaintLastWins(Put(m, pts[0]), pts[1..], k - 1);
    }
  }

  /** Every cell of a painted buffer holds either its old colour or the colour of a point written there. */
  lemma {:induction false} PaintSource(m: Pixels, pts: seq<Point>, c: (int, int))
    requires c in Paint(m, pts)
    ensures (c in m && Paint(m, pts)[c] == m[c]) ||
      exists k :: 0 <= k < |pts| && Cell(pts[k]) == c && Paint(m, pts)[c] == pts[k].color
    decreases |pts|
  {
    if |pts| > 0 {
      var m' := Put(m, pts[0]);
      PaintSource(m', pts[1..], c);
      if c in m' && Paint(m, pts)[c] == m'[c] {
        if c == Cell(pts[0]) {
          assert Cell(pts[0]) == c && Paint(m, pts)[c] == pts[0].color;
        }
      } else {
        var k :| 0 <= k < |pts[1..]| && Cell(pts[1..][k]) == c && Paint(m', pts[1..])[c] == pts[1..][k].color;
        assert Cell(pts[k + 1]) == c && Paint(m, pts)[c] == pts[k + 1].color;
      }
    }
  }

  /** One drawing operation of a triangle fill. */
  datatype Op =
    | Plot(p: Point)            // `drawPoint` of one point
    | Span(a: Point, b: Point)  // `drawLine` from a to b, smooth shading

  /** The points an operation writes, in order. */
  function OpPoints(op: Op): seq<Point> {
    match op
    case Plot(p) => [p]
    case Span(a, b) => ScanPoints(a, b, true)
  }

  /** The effect of one operation on the buffer. */
  function Apply(m: Pixels, op: Op): Pixels {
    Paint(m, OpPoints(op))
  }

  /** Replaying a log of operations, first to last. */
  function Render(m: Pixels, ops: seq<Op>): Pixels
    decreases |ops|
  {
    if |ops| == 0 then m else Render(Apply(m, ops[0]), ops[1..])
  }

  /** A log that starts with a single point writes that point, then the rest. */
  lemma RenderPlot(m: Pixels, p: Point, rest: seq<Op>)
    ensures Render(m, [Plot(p)] + rest) == Render(Put(m, p), rest)
  {
    assert ([Plot(p)] + rest)[1..] == rest;
    assert Paint(Put(m, p), [p][1..]) == Put(m, p);
  }

  /** A log that starts with a span writes the span's scan points, then the rest. */
  lemma RenderSpan(m: Pixels, a: Point, b: Point, rest: seq<Op>)
    ensures Render(m, [Span(a, b)] + rest) == Render(Paint(m, ScanPoints(a, b, true)), rest)
  {
    assert ([Span(a, b)] + rest)[1..] == rest;
  }

  /** All points written by a log, in order. */
  function Writes(ops: seq<Op>): seq<Point>
    decreases |ops|
  {
    if |ops| == 0 then [] else OpPoints(ops[0]) + Writes(ops[1..])
  }

  /** Replaying a log writes exactly its points, in order. */
  lemma {:induction false} RenderIsPaint(m: Pixels, ops: seq<Op>)
    ensures Render(m, ops) == Paint(m, Writes(ops))
    decreases |ops|
  {
    if |ops| > 0 {
      RenderIsPaint(Apply(m, ops[0]), ops[1..]);
      PaintAppend(m, OpPoints(ops[0]), Writes(ops[1..]));
    }
  }

  /** Replaying two logs one after the other is replaying their concatenation. */
  lemma {:induction false} RenderAppend(m: Pixels, a: seq<Op>, b: seq<Op>)
    ensures Render(m, a + b) == Render(Render(m, a), b)
    decreases |a|
  {
    if |a| > 0 {
      assert (a + b)[1..] == a[1..] + b;
      RenderAppend(Apply(m, a[0]), a[1..], b);
    } else {
      assert a + b == b;
    }
  }

  /** The points written by a concatenation of logs. */
  lemma {:induction false} WritesAppend(a: seq<Op>, b: seq<Op>)
    ensures Writes(a + b) == Writes(a) + Writes(b)
    decreases |a|
  {
    if |a| > 0 {
      assert (a + b)[1..] == a[1..] + b;
      WritesAppend(a[1..], b);
    } else {
      assert a + b == b;
    }
  }

  /** A point is written by a log exactly when some operation of the log writes it. */
  lemma {:induction false} WritesMember(ops: seq<Op>, p: Point)
    ensures p in Writes(ops) <==> exists i :: 0 <= i < |ops| && p in OpPoints(ops[i])
    decreases |ops|
  {
    if |ops| > 0 {
      WritesMember(ops[1..], p);
      if p in Writes(ops[1..]) {
        var i :| 0 <= i < |ops[1..]| && p in OpPoints(ops[1..][i]);
        assert p in OpPoints(ops[i + 1]);
      }
      if exists i :: 0 <= i < |ops| && p in OpPoints(ops[i]) {
        var i :| 0 <= i < |ops| && p in OpPoints(ops[i]);
        if i > 0 {
          assert p in OpPoints(ops[1..][i - 1]);
        }
      }
    }
  }
}
