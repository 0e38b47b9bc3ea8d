# Bresenham triangles in Dafny

This project models the integer rasteriser of `Sketch.py`, a teaching sketch program. The
rasteriser has four routines:

- `drawPoint` writes one coloured point into the frame buffer.
- `drawLine` draws a segment with Bresenham's midpoint algorithm. It works in every octant,
  with flat or smooth (linearly interpolated) colour.
- `pointsOnLine` runs the same algorithm but returns the list of points instead of drawing
  them.
- `drawTriangle` fills a triangle:
  - it picks two vertices on one row, or cuts the triangle at its middle vertex's row along
    the opposite edge;
  - it walks the two remaining edges row by row;
  - it plots repeated-row points singly and draws one horizontal span per row.

The model has five modules:

- `Colors`: colours are triples of reals; `Lerp` is smooth shading's channel blend.
- `Bresenham`:
  - `ScanPoints` is the specification of a segment's points. It is a closed form: at step k
    the minor offset from the left (or lower) endpoint is the nearest integer to k·|rise|/run,
    applied in the direction of the rise; an exact half rounds toward the left endpoint's row
    (or column), as the source's `D > 0` test does.
  - The lemmas prove the segment's length, endpoints, unit steps, nearest-pixel accuracy,
    colours and distinct pixels.
  - `ShallowFrom`/`SteepFrom` mirror the source's loop. They are a point, then the error-term
    update, then the rest of the run. `ShallowLoopRun`/`SteepLoopRun` prove that the loop
    produces the closed form.
  - The methods `ShallowPoints` and `SteepPoints` are the two `for` loops of `pointsOnLine`.
    They are proved to return `ShallowRun` and `SteepRun`, the shallow and steep branches of
    `ScanPoints`. Their loop invariants tie the minor coordinate and `D` to `Track`.
  - `PointsOnLine` orders the endpoints and runs one of the two loops. It is proved to return
    `ScanPoints`.
- `Raster`: the frame buffer as a map from cells to colours.
  - `Put` is a pixel write; `Paint` writes a sequence of points in order.
  - `Op` and `Render` give a log of point writes and spans, replayed over a buffer.
- `Scanlines`: how the y values of an edge's points walk from row to row. It also covers the
  stop condition of the split search and list reversal.
- `Fill`: `TriangleOps` is the specification of what `drawTriangle` draws, as a log of
  operations. Its lemmas cover:
  - one horizontal span per row (two on the cut row of a split triangle);
  - colours staying inside the vertex colour box;
  - flat colour in flat mode;
  - what the buffer holds afterwards.
- `Sketch`:
  - the class `Canvas`, whose `pixels` field stands for the buffer;
  - `DrawPoint`, `DrawLine` (with its shallow and steep loops), `WalkEdges`, `FillFlat`, the
    recursive `DrawTriangle` and `DrawHalves`, its cut along the opposite edge. Each is proved to leave exactly the buffer the matching
    specification describes.
  - `SplitSearch`, the `while True` search for the cut point.

## Model

| member | source | states |
|---|---|---|
| Colors.Lerp | Sketch.py:326-331 | the smooth blend gives the left colour at t = 0, the right colour at t = 1, and that colour when both ends agree |
| Colors.LerpWithin | Sketch.py:456-463 | a blend with weight in [0, 1] stays in every colour box holding both end colours |
| Bresenham.IsShallow | Sketch.py:283 | definition: a segment is shallow, with x as the dominant axis, when abs(dy) <= abs(dx), the test that opens both `drawLine` and `pointsOnLine` (line 417) |
| Bresenham.Ends | Sketch.py:417-432 | endpoints ordered along the dominant axis: by x when shallow (p2 first on a tie), by strictly increasing y when steep; always a reordering of (p1, p2) |
| Bresenham.MinorNearest | Sketch.py:446-474 | the closed-form minor offset m at step k satisfies (2m-1)·n < 2kd <= (2m+1)·n, i.e. it is the nearest integer to k·d/n |
| Bresenham.MinorUnique | Sketch.py:446-474 | that characterisation determines the offset uniquely |
| Bresenham.MinorStep | Sketch.py:470-474 | from one step to the next the closed-form offset grows by 0 or 1 |
| Bresenham.ErrorStep | Sketch.py:470-474 | with D = 2(k+1)d - (2m+1)n, a positive D means the next offset is m+1 and the update D + 2d - 2n restores the invariant; otherwise the offset stays and D + 2d does |
| Bresenham.Tint | Sketch.py:456-466 | definition: the colour of step k: p1's colour when flat; when smooth the blend of the left and right colours at t = k/n, or the right colour when n = 0 (`drawLine`'s guard at 322-323) |
| Bresenham.Track | Sketch.py:450-474 | definition: the minor offset and error term D after k iterations of the source's update rule, starting from D = 2d - n |
| Bresenham.ScanPoints | Sketch.py:417-533 | definition of the output of `pointsOnLine` and of what `drawLine` writes: endpoints ordered by `Ends`, then the closed-form shallow or steep run; never empty |
| Bresenham.ShallowFrom | Sketch.py:454-474 | definition: what the shallow loop emits from x on, given its current y and D: one point, then the D > 0 step rule |
| Bresenham.SteepFrom | Sketch.py:514-533 | definition: what the steep loop emits from y on, given its current x and D: one point, then the D > 0 step rule |
| Bresenham.TrackMinor | Sketch.py:446-474 | the offset and error term tracked by the source's update rule equal the closed form and keep D = 2(k+1)d - (2m+1)n |
| Bresenham.MinorEnds | Sketch.py:452-454 | the offset is 0 at the first step and the full minor delta at the last |
| Bresenham.LineDominant | Sketch.py:417-454 | a shallow segment yields abs(dx)+1 points with x = left x + k; a steep one abs(dy)+1 points with y = lower y + k |
| Bresenham.LineEndpoints | Sketch.py:419-454 | the first point lies on the endpoint first in dominant order, the last on the other endpoint |
| Bresenham.LineMinorSteps | Sketch.py:442-474 | each step moves the minor coordinate by 0 or by the sign of the minor delta, never more |
| Bresenham.LineNearest | Sketch.py:446-474 | every point is within half a pixel of the true segment along the minor axis |
| Bresenham.LineFlatColor | Sketch.py:464-466 | with flat shading every point has p1's colour whatever the reordering |
| Bresenham.LineSmoothEndColors | Sketch.py:456-463 | with smooth shading the first point has the left colour and the last the right colour |
| Bresenham.LineColorsWithin | Sketch.py:456-463 | smooth colours stay inside every box holding both endpoint colours |
| Bresenham.LineSinglePoint | Sketch.py:319-336 | a zero-length segment yields exactly p1 with p1's colour, in both shading modes |
| Bresenham.LineDistinct | Sketch.py:454-468 | no two points of a segment share a pixel |
| Bresenham.ShallowFromRun | Sketch.py:450-474 | from step k on, the shallow loop's remaining output equals the closed form's suffix |
| Bresenham.ShallowLoopRun | Sketch.py:450-474 | the shallow loop started with D = 2dy - dx and j = left y produces exactly the closed-form run |
| Bresenham.SteepFromRun | Sketch.py:511-533 | from step k on, the steep loop's remaining output equals the closed form's suffix |
| Bresenham.SteepLoopRun | Sketch.py:511-533 | the steep loop started with D = 2dx - dy and i = lower x produces exactly the closed-form run |
| Bresenham.ShallowPoints | Sketch.py:434-474 | the shallow `for` loop returns `ShallowRun`, the shallow branch of `ScanPoints` |
| Bresenham.SteepPoints | Sketch.py:495-533 | the steep `for` loop returns `SteepRun`, the steep branch of `ScanPoints` |
| Bresenham.PointsOnLine | Sketch.py:408-534 | `pointsOnLine` returns exactly the scan points of the segment |
| Raster.Put | Sketch.py:246-251 | definition: `drawPoint` stores the point's colour at its (x, y) cell |
| Raster.Paint | Sketch.py:319-336 | definition: the buffer after `drawPoint` writes a sequence of points first to last, as the loops of `drawLine` do (here and at 396) |
| Raster.PaintUntouched | Sketch.py:246-251 | a cell no written point lands on keeps its old content |
| Raster.PaintLastWins | Sketch.py:246-251 | the last point written to a cell decides its colour |
| Raster.PaintSource | Sketch.py:246-251 | every cell holds its old colour or the colour of a point written there |
| Raster.OpPoints | Sketch.py:654-666 | definition: the points one logged call writes: a `drawPoint` writes its point, a `drawLine` in its default smooth mode writes the span's scan points |
| Raster.Render | Sketch.py:645-670 | definition: the buffer after a fill's `drawPoint` and `drawLine` calls, replayed in order, each on the buffer the previous one left |
| Raster.RenderIsPaint | Sketch.py:645-670 | replaying a drawing log writes exactly the log's points in order |
| Raster.RenderAppend | Sketch.py:605-607 | drawing two logs in turn is drawing their concatenation |
| Raster.WritesMember | Sketch.py:645-670 | a point is written by a log iff one of its operations writes it |
| Scanlines.StepsMonotone | Sketch.py:470-474 | unit steps in a fixed direction make the minor coordinate monotone |
| Scanlines.WalkBounds | Sketch.py:639-644 | every point of an edge lies between the edge's end rows |
| Scanlines.LineYWalk | Sketch.py:639-644 | the y values of any segment's points run from one endpoint's row to the other's, one row at a time |
| Scanlines.IsStop | Sketch.py:599-604 | definition: the split search stops at index k when point k is on the target row and the next point, if there is one, is on another row |
| Scanlines.StopExists | Sketch.py:594-608 | the split search's stop condition holds somewhere on an edge for every row between its ends |
| Scanlines.Reverse | Sketch.py:643-644 | definition: `line2.reverse()`, the same points in the opposite order |
| Scanlines.ReverseInvolution | Sketch.py:643-644 | `list.reverse` applied twice gives the list back, and it keeps every point with its multiplicity |
| Scanlines.ReverseWalk | Sketch.py:641-644 | a reversed edge walks the same rows in the other direction |
| Scanlines.ReverseMembers | Sketch.py:643-644 | reversal keeps the same points |
| Scanlines.LevelsCount | Sketch.py:647-670 | the rows from a to b contain each row between them exactly once |
| Fill.Walk | Sketch.py:645-670 | definition: the operations of the dual-edge loop from indices i, j: plot a point of edge 1 followed on its row, else such a point of edge 2, else a span joining both and advance both |
| Fill.Aligned | Sketch.py:641-644 | definition: the second edge, reversed when its first row differs from the first edge's |
| Fill.AlignedWalk | Sketch.py:639-644 | after the conditional reversal both edges start on the first edge's row and walk one row at a time to its last row |
| Fill.FlatOps | Sketch.py:638-644 | definition: the fill of a flat pair v1, v2 with apex v3: the walk of the edges v3-v1 and aligned v3-v2 |
| Fill.TriangleOps | Sketch.py:567-636 | definition of what `drawTriangle` draws: flat-shading recolouring, the flat pair chosen in the order (p1, p2), (p2, p3), (p3, p1), otherwise the cut at the middle vertex's row on the opposite edge and both halves in the source's order |
| Fill.WalkFromEdges | Sketch.py:645-670 | the edge walk plots only edge points, and each span joins a point of edge 1 to a point of edge 2 |
| Fill.WalkRows | Sketch.py:645-670 | walking two edges from a common row draws one span per row, in order, to the final row; every span is horizontal |
| Fill.Shade | Sketch.py:572-574 | flat shading gives a vertex p1's colour and keeps its position |
| Fill.FirstStop | Sketch.py:594-608 | the index where the split search stops: a stop on the target row with none before it |
| Fill.SplitPoint | Sketch.py:593-607 | the cut point lies on the target row and on the opposite edge |
| Fill.FlatRows | Sketch.py:638-670 | a flat-pair fill draws one horizontal span on each row from apex to base and none elsewhere |
| Fill.FlatPairRows | Sketch.py:576-589 | whichever flat pair is chosen, the fill covers each row of the triangle once |
| Fill.TriangleRows | Sketch.py:576-671 | every row of the triangle gets one horizontal span; a cut triangle also gets a second span on its middle row; no other row gets one |
| Fill.LineBox | Sketch.py:456-466 | a segment's colours lie in any box holding p1's colour and, when smooth, p2's |
| Fill.FlatBox | Sketch.py:638-670 | a flat-pair fill draws only colours inside the vertex colour box |
| Fill.TriangleBox | Sketch.py:536-671 | a triangle fill draws only colours inside the box of p1's colour and, when smooth, p2's and p3's |
| Fill.TriangleFlatColor | Sketch.py:572-574 | with flat shading every point drawn has p1's colour |
| Fill.TrianglePixels | Sketch.py:536-671 | afterwards every cell keeps its old colour or holds a colour inside the vertex colour box |
| Sketch.Drawable | Sketch.py:536-671 | definition: the inputs `drawTriangle` handles without `ZeroDivisionError`: not a smooth triangle on one row whose third vertex shares a cell with another |
| Sketch.SplitSearch | Sketch.py:595-608 | the `while True` search stays in bounds and stops at the first point that ends its row on the target row |
| Sketch.Canvas.DrawPoint | Sketch.py:236-251 | the point's cell takes the point's colour; nothing else changes |
| Sketch.Canvas.DrawShallow | Sketch.py:283-342 | the shallow loop of `drawLine` writes the closed-form shallow run, in order |
| Sketch.Canvas.DrawSteep | Sketch.py:345-402 | the steep loop of `drawLine` writes the closed-form steep run, in order |
| Sketch.Canvas.DrawLine | Sketch.py:254-403 | `drawLine` writes exactly the scan points `pointsOnLine` returns, in order, and touches no other cell |
| Sketch.Canvas.WalkEdges | Sketch.py:645-670 | the dual-edge loop performs exactly the edge-walk log |
| Sketch.Canvas.FillFlat | Sketch.py:638-670 | the flat-pair fill performs exactly the flat-pair log |
| Sketch.Canvas.DrawHalves | Sketch.py:590-636 | the cut of a triangle with no flat pair: it searches the opposite edge's `pointsOnLine(..., True)` for the cut point and then draws the two halves in the source's order; the buffer becomes the two halves' logs replayed one after the other |
| Sketch.Canvas.DrawTriangle | Sketch.py:536-671 | `drawTriangle` performs exactly the triangle log and leaves the caller's second and third vertices recoloured by flat shading |

## Left out

- The wxPython canvas, event handlers, `main` and the debug driver are UI plumbing and are not
  modelled.
- Texture loading, `queryTextureBuffPoint` and the `Buff` class depend on foreign libraries. The
  buffer is a map from (x, y) to a colour, with no size bound and no wrap-around of negative
  numpy indices.
- `doAA`, `doAAlevel` and `doTexture` are accepted but never used, so they are not parameters.
- The test-case generators, `randomColor` and the `random` module are not modelled. They build
  inputs from floating-point trigonometry and randomness.
- Colours are exact reals. The model has no floating-point rounding in the blend and no `* 255`
  conversion to `uint8` in `drawPoint`.
- The caller's `Point` objects are values. Flat shading's in-place recolouring of `p2` and `p3`
  is modelled by `DrawTriangle` returning those vertices as the caller holds them afterwards.
  Aliasing of the caller's points is not modelled.
- Bresenham.PointsOnLine: requires that a smooth segment has distinct endpoints. In that case
  `pointsOnLine` divides by a zero run length and raises `ZeroDivisionError`. `drawLine`
  guards the same case with t = 1, and `ScanPoints` follows `drawLine`.
- Bresenham.ShallowPoints: requires a positive run when smooth, for the same division.
- Sketch.Canvas.FillFlat: requires, when smooth, that the apex shares no cell with a base
  vertex. Otherwise the edge's `pointsOnLine` divides by zero.
- Sketch.Canvas.DrawTriangle: requires `Drawable`. This excludes a smooth triangle whose three
  vertices share a row and whose third vertex sits on one of the others, where the source
  raises `ZeroDivisionError`.
