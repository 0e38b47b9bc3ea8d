/**
 * What `drawTriangle` draws, as a log of drawing operations.
 *
 * A triangle with two vertices on one row (a flat pair) is filled by walking its two other
 * edges from the apex row by row (`FlatOps`): points that share a row with the next point of
 * the same edge are plotted singly, and once both edges are at the last point of a row a
 * horizontal span joins them. Any other triangle is cut at the row of its middle vertex into
 * two flat-pair triangles (`TriangleOps`). Flat shading first gives the second and third
 * vertices the first vertex's colour.
 */
module Fill {
  import opened Colors
  import opened Bresenham
  import opened Raster
  import opened Scanlines

  /**
   * The edge walk of a flat-pair triangle, from point i of edge `l1` and point j of edge
   * `l2` on: a point of `l1` whose successor is on the same row is plotted, else such a point
   * of `l2`, else the two current points are joined by a span and both edges advance.
   */
  function Walk(l1: seq<Point>, l2: seq<Point>, i: nat, j: nat): seq<Op>
    requires i <= |l1| && j <= |l2|
    decreases |l1| - i + |l2| - j
  {
    if i == |l1| || j == |l2| then []
    else if i < |l1| - 1 && l1[i].y == l1[i + 1].y then [Plot(l1[i])] + Walk(l1, l2, i + 1, j)
    else if j < |l2| - 1 && l2[j].y == l2[j + 1].y then [Plot(l2[j])] + Walk(l1, l2, i, j + 1)
    else [Span(l1[i], l2[j])] + Walk(l1, l2, i + 1, j + 1)
  }

  /** The rows of the spans of a log, in order. */
  function SpanLevels(ops: seq<Op>): seq<int>
    decreases |ops|
  {
    if |ops| == 0 then []
    else (if ops[0].Span? then [ops[0].a.y] else []) + SpanLevels(ops[1..])
  }

  lemma {:induction false} SpanLevelsAppend(a: seq<Op>, b: seq<Op>)
    ensures SpanLevels(a + b) == SpanLevels(a) + SpanLevels(b)
    decreases |a|
  {
    if |a| > 0 {
      assert (a + b)[1..] == a[1..] + b;
      SpanLevelsAppend(a[1..], b);
    } else {
      assert a + b == b;
    }
  }

  /** Every span of the log is horizontal. */
  predicate Horizontal(ops: seq<Op>) {
    forall op :: op in ops && op.Span? ==> op.a.y == op.b.y
  }

  /** Plotted points come from either edge; spans run from a point of `l1` to a point of `l2`. */
  predicate FromEdges(ops: seq<Op>, l1: seq<Point>, l2: seq<Point>) {
    forall op :: op in ops ==>
      (op.Plot? ==> op.p in l1 || op.p in l2) && (op.Span? ==> op.a in l1 && op.b in l2)
  }

  /** Everything the edge walk draws is taken from the two edges. */
  lemma {:induction false} WalkFromEdges(l1: seq<Point>, l2: seq<Point>, i: nat, j: nat)
    requires i <= |l1| && j <= |l2|
    ensures FromEdges(Walk(l1, l2, i, j), l1, l2)
    decreases |l1| - i + |l2| - j
  {
    if i == |l1| || j == |l2| {
    } else if i < |l1| - 1 && l1[i].y == l1[i + 1].y {
      WalkFromEdges(l1, l2, i + 1, j);
    } else if j < |l2| - 1 && l2[j].y == l2[j + 1].y {
      WalkFromEdges(l1, l2, i, j + 1);
    } else {
      WalkFromEdges(l1, l2, i + 1, j + 1);
    }
  }

  /**
   * Walking two edges that both run from row y0 to row y1, starting on a common row, draws
   * exactly one span per row from that row to y1, in order, and every span is horizontal.
   */
  lemma {:induction false} WalkRows(l1: seq<Point>, l2: seq<Point>, y0: int, y1: int, i: nat, j: nat)
    requires YWalk(l1, y0, y1) && YWalk(l2, y0, y1)
    requires i < |l1| && j < |l2| && l1[i].y == l2[j].y
    ensures SpanLevels(Walk(l1, l2, i, j)) == Levels(l1[i].y, y1)
    ensures Horizontal(Walk(l1, l2, i, j))
    decreases |l1| - i + |l2| - j
  {
    if i < |l1| - 1 && l1[i].y == l1[i + 1].y {
      WalkRows(l1, l2, y0, y1, i + 1, j);
      ConsOp(Plot(l1[i]), Walk(l1, l2, i + 1, j));
    } else if j < |l2| - 1 && l2[j].y == l2[j + 1].y {
      WalkRows(l1, l2, y0, y1, i, j + 1);
      ConsOp(Plot(l2[j]), Walk(l1, l2, i, j + 1));
    } else {
      RowAdvance(l1, l2, y0, y1, i, j);
      if l1[i].y != y1 {
        WalkRows(l1, l2, y0, y1, i + 1, j + 1);
      }
      ConsOp(Span(l1[i], l2[j]), Walk(l1, l2, i + 1, j + 1));
    }
  }

  /** The rows and the horizontality of a log with one more operation in front. */
  lemma ConsOp(op: Op, rest: seq<Op>)
    ensures SpanLevels([op] + rest) == (if op.Span? then [op.a.y] else []) + SpanLevels(rest)
    ensures Horizontal([op] + rest) <==> (op.Span? ==> op.a.y == op.b.y) && Horizontal(rest)
  {
    assert ([op] + rest)[1..] == rest;
  }

  /**
   * When neither edge has another point on the current row, either the current row is the
   * final one and edge 1 is at its last point, or both edges move on to the next row together.
   */
  lemma RowAdvance(l1: seq<Point>, l2: seq<Point>, y0: int, y1: int, i: nat, j: nat)
    requires YWalk(l1, y0, y1) && YWalk(l2, y0, y1)
    requires i < |l1| && j < |l2| && l1[i].y == l2[j].y
    requires !(i < |l1| - 1 && l1[i].y == l1[i + 1].y) && !(j < |l2| - 1 && l2[j].y == l2[j + 1].y)
    ensures l1[i].y == y1 ==> i == |l1| - 1
    ensures l1[i].y != y1 ==>
      i < |l1| - 1 && j < |l2| - 1 &&
      l1[i + 1].y == l1[i].y + Dir(l1[i].y, y1) && l2[j + 1].y == l1[i + 1].y &&
      Levels(l1[i].y, y1) == [l1[i].y] + Levels(l1[i + 1].y, y1)
  {
    var y := l1[i].y;
    WalkBetween(l1, y0, y1);
    WalkBetween(l2, y0, y1);
    if i < |l1| - 1 {
      assert Between(l1[i + 1].y, y, y1);
    }
    if y != y1 {
      assert Between(y, y0, y1) by {
        assert Between(l1[i].y, l1[0].y, y1);
      }
      assert Dir(y, y1) == Dir(y0, y1);
    }
  }

  /** The second edge as the fill walks it: reversed when it starts on another row than the first. */
  function Aligned(l1: seq<Point>, l2: seq<Point>): seq<Point>
    requires |l1| > 0 && |l2| > 0
  {
    if l1[0].y != l2[0].y then Reverse(l2) else l2
  }

  /**
   * The operations that fill a triangle whose vertices v1 and v2 share a row: the walk of the
   * edges v3-v1 and v3-v2.
   */
  function FlatOps(v1: Point, v2: Point, v3: Point, smooth: bool): seq<Op> {
    var l1 := ScanPoints(v3, v1, smooth);
    Walk(l1, Aligned(l1, ScanPoints(v3, v2, smooth)), 0, 0)
  }

  /** Some two vertices share a row. */
  predicate HasFlatPair(p1: Point, p2: Point, p3: Point) {
    p1.y == p2.y || p2.y == p3.y || p3.y == p1.y
  }

  /** `v` lies strictly between `a` and `b`. */
  predicate Inside(v: int, a: int, b: int) {
    (v > a && v < b) || (v < a && v > b)
  }

  /** Flat shading gives a vertex the first vertex's colour. */
  function Shade(p1: Point, q: Point, smooth: bool): (r: Point)
    ensures SameSpot(r, q)
    ensures r.color == if smooth then q.color else p1.color
  {
    if smooth then q else q.(color := p1.color)
  }

  /** The first index at or after i where the split search stops on row `target`. */
  function FirstStop(line: seq<Point>, target: int, i: nat): (k: nat)
    requires exists k :: i <= k < |line| && IsStop(line, target, k)
    ensures i <= k < |line| && IsStop(line, target, k)
    ensures forall j :: i <= j < k ==> !IsStop(line, target, j)
    decreases |line| - i
  {
    if IsStop(line, target, i) then i else FirstStop(line, target, i + 1)
  }

  /**
   * Where the edge a-b (scanned with smooth shading) is cut at row `target`: the last of its
   * scan points on that row, in scan order.
   */
  function SplitPoint(a: Point, b: Point, target: int): (s: Point)
    requires Between(target, a.y, b.y)
    ensures s.y == target
    ensures s in ScanPoints(a, b, true)
  {
    var line := ScanPoints(a, b, true);
    LineYWalk(a, b, true);
    StopExists(line, line[0].y, line[|line| - 1].y, target);
    line[FirstStop(line, target, 0)]
  }

  /**
   * The operations `drawTriangle` performs for the vertices p1, p2, p3, in order. A flat pair
   * is chosen in the order (p1, p2), (p2, p3), (p3, p1); otherwise the triangle is cut at its
   * middle vertex's row along the opposite edge and both halves are drawn.
   */
  function TriangleOps(p1: Point, p2: Point, p3: Point, smooth: bool): seq<Op>
    decreases if HasFlatPair(p1, p2, p3) then 0 else 1
  {
    var q2 := Shade(p1, p2, smooth);
    var q3 := Shade(p1, p3, smooth);
    if p1.y == p2.y then FlatOps(p1, q2, q3, smooth)
    else if p2.y == p3.y then FlatOps(q2, q3, p1, smooth)
    else if p3.y == p1.y then FlatOps(q3, p1, q2, smooth)
    else if Inside(p1.y, p2.y, p3.y) then
      var s := SplitPoint(q2, q3, p1.y);
      TriangleOps(p1, q2, s, smooth) + TriangleOps(p1, q3, s, smooth)
    else if Inside(p2.y, p1.y, p3.y) then
      var s := SplitPoint(p1, q3, p2.y);
      TriangleOps(p1, q2, s, smooth) + TriangleOps(q2, q3, s, smooth)
    else
      assert Inside(p3.y, p1.y, p2.y);
      var s := SplitPoint(p1, q2, p3.y);
      TriangleOps(p1, q3, s, smooth) + TriangleOps(q3, q2, s, smooth)
  }

  function Lo3(a: int, b: int, c: int): int {
    if a <= b && a <= c then a else if b <= c then b else c
  }

  function Hi3(a: int, b: int, c: int): int {
    if a >= b && a >= c then a else if b >= c then b else c
  }

  /**
   * The edges of a flat-pair fill after the conditional reversal: the second edge starts on
   * the first one's row, and both walk from that row to the first edge's last row.
   */
  lemma AlignedWalk(v1: Point, v2: Point, v3: Point, smooth: bool)
    requires v1.y == v2.y
    ensures var l1 := ScanPoints(v3, v1, smooth);
      var l2 := Aligned(l1, ScanPoints(v3, v2, smooth));
      YWalk(l1, l1[0].y, l1[|l1| - 1].y) && YWalk(l2, l1[0].y, l1[|l1| - 1].y)
  {
    var l2 := ScanPoints(v3, v2, smooth);
    LineYWalk(v3, v1, smooth);
    LineYWalk(v3, v2, smooth);
    if ScanPoints(v3, v1, smooth)[0].y != l2[0].y {
      ReverseWalk(l2, l2[0].y, l2[|l2| - 1].y);
    }
  }

  /**
   * A flat-pair fill draws one horizontal span on every row from the apex row to the flat
   * pair's row, and none elsewhere.
   */
  lemma FlatRows(v1: Point, v2: Point, v3: Point, smooth: bool, y: int)
    requires v1.y == v2.y
    ensures multiset(SpanLevels(FlatOps(v1, v2, v3, smooth)))[y] == if Between(y, v3.y, v1.y) then 1 else 0
    ensures Horizontal(FlatOps(v1, v2, v3, smooth))
  {
    var l1 := ScanPoints(v3, v1, smooth);
    var l2 := ScanPoints(v3, v2, smooth);
    var a, b := l1[0].y, l1[|l1| - 1].y;
    LineYWalk(v3, v1, smooth);
    AlignedWalk(v1, v2, v3, smooth);
    WalkRows(l1, Aligned(l1, l2), a, b, 0, 0);
    LevelsCount(a, b, y);
  }

  /** Span counts per row add up over a concatenation of logs. */
  lemma RowsAppend(a: seq<Op>, b: seq<Op>, y: int)
    ensures multiset(SpanLevels(a + b))[y] == multiset(SpanLevels(a))[y] + multiset(SpanLevels(b))[y]
  {
    SpanLevelsAppend(a, b);
  }

  /** Row coverage of a triangle with two vertices on one row: one span on each row it spans. */
  lemma FlatPairRows(p1: Point, p2: Point, p3: Point, smooth: bool, y: int)
    requires HasFlatPair(p1, p2, p3)
    ensures multiset(SpanLevels(TriangleOps(p1, p2, p3, smooth)))[y] ==
      if Lo3(p1.y, p2.y, p3.y) <= y <= Hi3(p1.y, p2.y, p3.y) then 1 else 0
    ensures Horizontal(TriangleOps(p1, p2, p3, smooth))
  {
    var q2 := Shade(p1, p2, smooth);
    var q3 := Shade(p1, p3, smooth);
    if p1.y == p2.y {
      FlatRows(p1, q2, q3, smooth, y);
    } else if p2.y == p3.y {
      FlatRows(q2, q3, p1, smooth, y);
    } else {
      FlatRows(q3, p1, q2, smooth, y);
    }
  }

  /**
   * Row coverage of a triangle fill: every row from the lowest to the highest vertex gets
   * exactly one horizontal span, except that a cut triangle gets two on its middle vertex's
   * row (one per half); no other row gets a span.
   */
  lemma TriangleRows(p1: Point, p2: Point, p3: Point, smooth: bool, y: int)
    ensures multiset(SpanLevels(TriangleOps(p1, p2, p3, smooth)))[y] ==
      (if Lo3(p1.y, p2.y, p3.y) <= y <= Hi3(p1.y, p2.y, p3.y) then 1 else 0) +
      (if !HasFlatPair(p1, p2, p3) && y == p1.y + p2.y + p3.y - Lo3(p1.y, p2.y, p3.y) - Hi3(p1.y, p2.y, p3.y) then 1 else 0)
    ensures Horizontal(TriangleOps(p1, p2, p3, smooth))
  {
    if HasFlatPair(p1, p2, p3) {
      FlatPairRows(p1, p2, p3, smooth, y);
    } else {
      var q2 := Shade(p1, p2, smooth);
      var q3 := Shade(p1, p3, smooth);
      var a, b, s;
      if Inside(p1.y, p2.y, p3.y) {
        s := SplitPoint(q2, q3, p1.y);
        a, b := TriangleOps(p1, q2, s, smooth), TriangleOps(p1, q3, s, smooth);
        FlatPairRows(p1, q2, s, smooth, y);
        FlatPairRows(p1, q3, s, smooth, y);
      } else if Inside(p2.y, p1.y, p3.y) {
        s := SplitPoint(p1, q3, p2.y);
        a, b := TriangleOps(p1, q2, s, smooth), TriangleOps(q2, q3, s, smooth);
        FlatPairRows(p1, q2, s, smooth, y);
        FlatPairRows(q2, q3, s, smooth, y);
      } else {
        s := SplitPoint(p1, q2, p3.y);
        a, b := TriangleOps(p1, q3, s, smooth), TriangleOps(q3, q2, s, smooth);
        FlatPairRows(p1, q3, s, smooth, y);
        FlatPairRows(q3, q2, s, smooth, y);
      }
      assert TriangleOps(p1, p2, p3, smooth) == a + b;
      RowsAppend(a, b, y);
    }
  }

  /** Every point of `pts` has a colour inside the box lo..hi. */
  predicate AllWithin(pts: seq<Point>, lo: Color, hi: Color) {
    forall p :: p in pts ==> Within(p.color, lo, hi)
  }

  /**
   * A segment's colours stay in any box that holds the first endpoint's colour and, when
   * shading smoothly, the second one's.
   */
  lemma LineBox(p1: Point, p2: Point, smooth: bool, lo: Color, hi: Color)
    requires Within(p1.color, lo, hi) && (smooth ==> Within(p2.color, lo, hi))
    ensures AllWithin(ScanPoints(p1, p2, smooth), lo, hi)
  {
    if smooth {
      LineColorsWithin(p1, p2, lo, hi);
    } else {
      LineFlatColor(p1, p2);
    }
  }

  /** The points written by a log whose operations all draw inside a colour box are inside it. */
  lemma LogBox(ops: seq<Op>, lo: Color, hi: Color)
    requires forall op :: op in ops ==> AllWithin(OpPoints(op), lo, hi)
    ensures AllWithin(Writes(ops), lo, hi)
  {
    forall p | p in Writes(ops)
      ensures Within(p.color, lo, hi)
    {
      WritesMember(ops, p);
      var i :| 0 <= i < |ops| && p in OpPoints(ops[i]);
      assert ops[i] in ops;
    }
  }

  /** A flat-pair fill draws inside any colour box that holds the colours of its edge points' sources. */
  lemma FlatBox(v1: Point, v2: Point, v3: Point, smooth: bool, lo: Color, hi: Color)
    requires Within(v3.color, lo, hi)
    requires smooth ==> Within(v1.color, lo, hi) && Within(v2.color, lo, hi)
    ensures AllWithin(Writes(FlatOps(v1, v2, v3, smooth)), lo, hi)
  {
    var l1 := ScanPoints(v3, v1, smooth);
    var l2 := ScanPoints(v3, v2, smooth);
    var ops := FlatOps(v1, v2, v3, smooth);
    LineBox(v3, v1, smooth, lo, hi);
    LineBox(v3, v2, smooth, lo, hi);
    ReverseMembers(l2);
    WalkFromEdges(l1, Aligned(l1, l2), 0, 0);
    forall op | op in ops
      ensures AllWithin(OpPoints(op), lo, hi)
    {
      if op.Span? {
        LineColorsWithin(op.a, op.b, lo, hi);
      }
    }
    LogBox(ops, lo, hi);
  }

  /**
   * Colour bounds of a triangle fill: every point drawn has a colour inside any box holding
   * the first vertex's colour and, when shading smoothly, the other two vertices' colours.
   */
  lemma TriangleBox(p1: Point, p2: Point, p3: Point, smooth: bool, lo: Color, hi: Color)
    requires Within(p1.color, lo, hi)
    requires smooth ==> Within(p2.color, lo, hi) && Within(p3.color, lo, hi)
    ensures AllWithin(Writes(TriangleOps(p1, p2, p3, smooth)), lo, hi)
    decreases if HasFlatPair(p1, p2, p3) then 0 else 1
  {
    var q2 := Shade(p1, p2, smooth);
    var q3 := Shade(p1, p3, smooth);
    if p1.y == p2.y {
      FlatBox(p1, q2, q3, smooth, lo, hi);
    } else if p2.y == p3.y {
      FlatBox(q2, q3, p1, smooth, lo, hi);
    } else if p3.y == p1.y {
      FlatBox(q3, p1, q2, smooth, lo, hi);
    } else {
      var a, b, s;
      if Inside(p1.y, p2.y, p3.y) {
        s := SplitPoint(q2, q3, p1.y);
        LineColorsWithin(q2, q3, lo, hi);
        a, b := TriangleOps(p1, q2, s, smooth), TriangleOps(p1, q3, s, smooth);
        TriangleBox(p1, q2, s, smooth, lo, hi);
        TriangleBox(p1, q3, s, smooth, lo, hi);
      } else if Inside(p2.y, p1.y, p3.y) {
        s := SplitPoint(p1, q3, p2.y);
        LineColorsWithin(p1, q3, lo, hi);
        a, b := TriangleOps(p1, q2, s, smooth), TriangleOps(q2, q3, s, smooth);
        TriangleBox(p1, q2, s, smooth, lo, hi);
        TriangleBox(q2, q3, s, smooth, lo, hi);
      } else {
        s := SplitPoint(p1, q2, p3.y);
        LineColorsWithin(p1, q2, lo, hi);
        a, b := TriangleOps(p1, q3, s, smooth), TriangleOps(q3, q2, s, smooth);
        TriangleBox(p1, q3, s, smooth, lo, hi);
        TriangleBox(q3, q2, s, smooth, lo, hi);
      }
      assert TriangleOps(p1, p2, p3, smooth) == a + b;
      WritesAppend(a, b);
    }
  }

  /** Flat shading: every point drawn has the first vertex's colour. */
  lemma TriangleFlatColor(p1: Point, p2: Point, p3: Point)
    ensures forall p :: p in Writes(TriangleOps(p1, p2, p3, false)) ==> p.color == p1.color
  {
    TriangleBox(p1, p2, p3, false, p1.color, p1.color);
  }

  /**
   * On the buffer: after a triangle fill every cell either keeps its old colour or holds a
   * colour inside the vertex colour box.
   */
  lemma TrianglePixels(m: Pixels, p1: Point, p2: Point, p3: Point, smooth: bool, lo: Color, hi: Color)
    requires Within(p1.color, lo, hi)
    requires smooth ==> Within(p2.color, lo, hi) && Within(p3.color, lo, hi)
    ensures forall c :: c in Render(m, TriangleOps(p1, p2, p3, smooth)) ==>
      (c in m && Render(m, TriangleOps(p1, p2, p3, smooth))[c] == m[c]) ||
      Within(Render(m, TriangleOps(p1, p2, p3, smooth))[c], lo, hi)
  {
    var ops := TriangleOps(p1, p2, p3, smooth);
    TriangleBox(p1, p2, p3, smooth, lo, hi);
    RenderIsPaint(m, ops);
    forall c | c in Render(m, ops)
      ensures (c in m && Render(m, ops)[c] == m[c]) || Within(Render(m, ops)[c], lo, hi)
    {
      PaintSource(m, Writes(ops), c);
    }
  }
}
