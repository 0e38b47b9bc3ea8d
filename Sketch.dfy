/**
 * The drawing routines of Sketch.py over a frame buffer that they update in place.
 *
 * `Canvas` stands for the buffer passed to `drawPoint`, `drawLine` and `drawTriangle`; its
 * `pixels` field is the buffer's content. Each drawing method is proved to leave exactly the
 * buffer its specification in `Raster` and `Fill` describes.
 */
module Sketch {
  import opened Colors
  import opened Bresenham
  import opened Raster
  import opened Scanlines
  import opened Fill

  /**
   * A triangle the source can draw: with smooth shading, three vertices on one row where the
   * third shares a cell with one of the others make `pointsOnLine` divide by zero.
   */
  predicate Drawable(p1: Point, p2: Point, p3: Point, smooth: bool) {
    !(smooth && p1.y == p2.y && p2.y == p3.y && (SameSpot(p3, p1) || SameSpot(p3, p2)))
  }

  /**
   * The search of `drawTriangle` for the cut point on `line`: skip points followed by a point
   * on the same row, stop at the first remaining point on row `target`.
   */
  method SplitSearch(line: seq<Point>, target: int) returns (i: nat)
    requires exists k :: 0 <= k < |line| && IsStop(line, target, k)
    ensures i < |line| && i == FirstStop(line, target, 0)
  {
    i := 0;
    while true
      invariant i < |line|
      invariant exists k :: i <= k < |line| && IsStop(line, target, k)
      invariant forall k :: 0 <= k < i ==> !IsStop(line, target, k)
      decreases |line| - i
    {
      if i < |line| - 1 {
        if line[i].y == line[i + 1].y {
          i := i + 1;
          continue;
        }
      }
      if line[i].y == target {
        assert IsStop(line, target, i);
        return;
      }
      i := i + 1;
    }
  }

  class Canvas {
    var pixels: Pixels

    constructor (initial: Pixels)
      ensures pixels == initial
    {
      pixels := initial;
    }

    /** `drawPoint`: write the point's colour to its cell. */
    method DrawPoint(p: Point)
      modifies this
      ensures pixels == Put(old(pixels), p)
    {
      pixels := pixels[(p.x, p.y) := p.color];
    }

    /** The shallow branch of `drawLine`: x runs from `l` to `r`, y follows the error term. */
    method DrawShallow(l: Point, r: Point, first: Color, smooth: bool)
      requires l.x <= r.x && Abs(r.y - l.y) <= r.x - l.x
      modifies this
      ensures pixels == Paint(old(pixels), ShallowRun(l, r, first, smooth))
    {
      var dx := r.x - l.x;
      var dy := r.y - l.y;
      var step := 1;
      if dy < 0 {
        step := -1;
        dy := -dy;
      }
      var err := 2 * dy - dx;
      var y := l.y;
      assert dy == Abs(r.y - l.y) && step == Unit(r.y - l.y);
      ghost var whole := ShallowFrom(l, r, first, smooth, l.x, y, err);
      for x := l.x to r.x + 1
        invariant Paint(pixels, ShallowFrom(l, r, first, smooth, x, y, err)) == Paint(old(pixels), whole)
      {
        var color;
        if smooth {
          var t := if dx == 0 then 1.0 else (x - l.x) as real / dx as real;
          color := Lerp(l.color, r.color, t);
        } else {
          color := first;
        }
        ghost var y0, err0 := y, err;
        DrawPoint(Point(x, y, color));
        if err > 0 {
          y := y + step;
          err := err + 2 * dy - 2 * dx;
        } else {
          err := err + 2 * dy;
        }
        assert Paint(pixels, ShallowFrom(l, r, first, smooth, x + 1, y, err)) == Paint(old(pixels), whole) by {
          assert color == Tint(l, r, first, x - l.x, dx, smooth);
          ShallowAdvance(l, r, first, smooth, x, y0, err0, y, err);
        }
      }
      ShallowLoopRun(l, r, first, smooth);
    }

    /** The steep branch of `drawLine`: y runs from `l` to `r`, x follows the error term. */
    method DrawSteep(l: Point, r: Point, first: Color, smooth: bool)
      requires l.y < r.y && Abs(r.x - l.x) <= r.y - l.y
      modifies this
      ensures pixels == Paint(old(pixels), SteepRun(l, r, first, smooth))
    {
      var dy := r.y - l.y;
      var dx := r.x - l.x;
      var step := 1;
      if dx < 0 {
        step := -1;
        dx := -dx;
      }
      var err := 2 * dx - dy;
      var x := l.x;
      assert dx == Abs(r.x - l.x) && step == Unit(r.x - l.x);
      ghost var whole := SteepFrom(l, r, first, smooth, l.y, x, err);
      for y := l.y to r.y + 1
        invariant Paint(pixels, SteepFrom(l, r, first, smooth, y, x, err)) == Paint(old(pixels), whole)
      {
        var color;
        if smooth {
          var t := (y - l.y) as real / dy as real;
          color := Lerp(l.color, r.color, t);
        } else {
          color := first;
        }
        ghost var x0, err0 := x, err;
        DrawPoint(Point(x, y, color));
        if err > 0 {
          x := x + step;
          err := err + 2 * dx - 2 * dy;
        } else {
          err := err + 2 * dx;
        }
        assert Paint(pixels, SteepFrom(l, r, first, smooth, y + 1, x, err)) == Paint(old(pixels), whole) by {
          assert color == Tint(l, r, first, y - l.y, dy, smooth);
          SteepAdvance(l, r, first, smooth, y, x0, err0, x, err);
        }
      }
      SteepLoopRun(l, r, first, smooth);
    }

    /**
     * `drawLine`: write the scan points of p1-p2 in order along the dominant axis. Unlike
     * `pointsOnLine` it guards the zero-length case, so every segment can be drawn.
     */
    method DrawLine(p1: Point, p2: Point, smooth: bool)
      modifies this
      ensures pixels == Paint(old(pixels), ScanPoints(p1, p2, smooth))
    {
      if Abs(p2.y - p1.y) <= Abs(p2.x - p1.x) {
        var l, r := p2, p1;
        if p1.x < p2.x {
          l, r := p1, p2;
        }
        DrawShallow(l, r, p1.color, smooth);
      } else {
        var l, r := p2, p1;
        if p1.y < p2.y {
          l, r := p1, p2;
        }
        DrawSteep(l, r, p1.color, smooth);
      }
    }

    /**
     * The loop of the flat-pair fill: walk two edges row by row, plotting a point that is
     * followed by another on its row, and joining the two edges with one span per row.
     */
    method WalkEdges(line1: seq<Point>, line2: seq<Point>)
      modifies this
      ensures pixels == Render(old(pixels), Walk(line1, line2, 0, 0))
    {
      var i, j := 0, 0;
      while i != |line1| && j != |line2|
        invariant 0 <= i <= |line1| && 0 <= j <= |line2|
        invariant Render(pixels, Walk(line1, line2, i, j)) == Render(old(pixels), Walk(line1, line2, 0, 0))
        decreases |line1| - i + |line2| - j
      {
        if i < |line1| - 1 {
          if line1[i].y == line1[i + 1].y {
            RenderPlot(pixels, line1[i], Walk(line1, line2, i + 1, j));
            DrawPoint(line1[i]);
            i := i + 1;
            continue;
          }
        }
        if j < |line2| - 1 {
          if line2[j].y == line2[j + 1].y {
            RenderPlot(pixels, line2[j], Walk(line1, line2, i, j + 1));
            DrawPoint(line2[j]);
            j := j + 1;
            continue;
          }
        }
        RenderSpan(pixels, line1[i], line2[j], Walk(line1, line2, i + 1, j + 1));
        DrawLine(line1[i], line2[j], true);
        i := i + 1;
        j := j + 1;
      }
    }

    /**
     * The fill of a flat-pair triangle (the tail of `drawTriangle`): compute the edges v3-v1
     * and v3-v2, turn the second to start on the first one's row, and walk them.
     */
    method FillFlat(v1: Point, v2: Point, v3: Point, smooth: bool)
      requires !(smooth && (SameSpot(v3, v1) || SameSpot(v3, v2)))
      modifies this
      ensures pixels == Render(old(pixels), FlatOps(v1, v2, v3, smooth))
    {
      var line1 := PointsOnLine(v3, v1, smooth);
      var line2 := PointsOnLine(v3, v2, smooth);
      if line1[0].y != line2[0].y {
        line2 := Reverse(line2);
      }
      WalkEdges(line1, line2);
    }

    /**
     * `drawTriangle`: fill the triangle p1 p2 p3, with the first vertex's colour when `smooth`
     * is false, blending vertex colours otherwise. Flat shading recolours the caller's second
     * and third vertices; `r2` and `r3` are those vertices as the caller holds them afterwards.
     */
    method DrawTriangle(p1: Point, p2: Point, p3: Point, smooth: bool) returns (r2: Point, r3: Point)
      requires Drawable(p1, p2, p3, smooth)
      modifies this
      ensures pixels == Render(old(pixels), TriangleOps(p1, p2, p3, smooth))
      ensures r2 == Shade(p1, p2, smooth) && r3 == Shade(p1, p3, smooth)
      decreases if HasFlatPair(p1, p2, p3) then 0 else 2
    {
      r2, r3 := p2, p3;
      if !smooth {
        r2 := r2.(color := p1.color);
        r3 := r3.(color := p1.color);
      }
      if p1.y == p2.y {
        FillFlat(p1, r2, r3, smooth);
      } else if p2.y == p3.y {
        FillFlat(r2, r3, p1, smooth);
      } else if p3.y == p1.y {
        FillFlat(r3, p1, r2, smooth);
      } else if Inside(p1.y, p2.y, p3.y) {
        DrawHalves(r2, r3, p1.y, p1, r2, p1, r3, smooth);
      } else if Inside(p2.y, p1.y, p3.y) {
        DrawHalves(p1, r3, p2.y, p1, r2, r2, r3, smooth);
      } else if Inside(p3.y, p1.y, p2.y) {
        DrawHalves(p1, r2, p3.y, p1, r3, r3, r2, smooth);
      }
    }

    /**
     * The cut of `drawTriangle`: search the scan points of the edge e1-e2 for the cut point on
     * row `target`, then draw the triangles (a1, b1, cut) and (a2, b2, cut) in turn. Each
     * half has a vertex on row `target` besides the cut point, so it has a flat pair.
     */
    method DrawHalves(e1: Point, e2: Point, target: int, a1: Point, b1: Point, a2: Point, b2: Point, smooth: bool)
      requires Inside(target, e1.y, e2.y)
      requires (a1.y == target || b1.y == target) && a1.y != b1.y
      requires (a2.y == target || b2.y == target) && a2.y != b2.y
      modifies this
      ensures var cut := SplitPoint(e1, e2, target);
        pixels == Render(old(pixels), TriangleOps(a1, b1, cut, smooth) + TriangleOps(a2, b2, cut, smooth))
      decreases 1
    {
      var line := PointsOnLine(e1, e2, true);
      LineYWalk(e1, e2, true);
      StopExists(line, line[0].y, line[|line| - 1].y, target);
      var i := SplitSearch(line, target);
      ghost var first := TriangleOps(a1, b1, line[i], smooth);
      var _, _ := DrawTriangle(a1, b1, line[i], smooth);
      var _, _ := DrawTriangle(a2, b2, line[i], smooth);
      RenderAppend(old(pixels), first, TriangleOps(a2, b2, line[i], smooth));
    }
  }
}
