/**
 * The integer Bresenham (midpoint) scan-point generator shared by line drawing and
 * triangle filling (`pointsOnLine` and the loops of `drawLine` in Sketch.py).
 *
 * `ScanPoints` is the reference definition of the generated sequence, written in closed
 * form: the k-th point is k steps along the dominant axis from the "left" endpoint, and
 * `Minor` steps along the minor axis, the integer nearest to the true segment.
 * `PointsOnLine` is the source's incremental loop with its error term, proved to produce
 * exactly that sequence.
 */
module Bresenham {
  import opened Colors

  /** A pixel position with its colour. */
  datatype Point = Point(x: int, y: int, color: Color)

  /** Two points at the same pixel position, whatever their colours. */
  predicate SameSpot(p: Point, q: Point) {
    p.x == q.x && p.y == q.y
  }

  function Abs(n: int): nat {
    if n < 0 then -n else n
  }

  /** A segment is shallow (x is the dominant axis) when |dy| <= |dx|, steep otherwise. */
  predicate IsShallow(p1: Point, p2: Point) {
    Abs(p2.y - p1.y) <= Abs(p2.x - p1.x)
  }

  /**
   * The endpoints ordered along the dominant axis, as (left, right). On a tie in the
   * shallow case (a zero-length segment) the second endpoint comes first.
   */
  function Ends(p1: Point, p2: Point): (e: (Point, Point))
    ensures (e.0 == p1 && e.1 == p2) || (e.0 == p2 && e.1 == p1)
    ensures IsShallow(p1, p2) ==> e.0.x <= e.1.x && (p1.x == p2.x ==> e.0 == p2)
    ensures !IsShallow(p1, p2) ==> e.0.y < e.1.y
  {
    if IsShallow(p1, p2) then
      (if p1.x < p2.x then (p1, p2) else (p2, p1))
    else
      (if p1.y < p2.y then (p1, p2) else (p2, p1))
  }

  /** Integer quotient a / b by repeated subtraction. */
  function Quot(a: nat, b: nat): nat
    requires b > 0
    decreases a
  {
    if a < b then 0 else 1 + Quot(a - b, b)
  }

  /** `Quot` is the floor of a / b: b * q <= a < b * q + b. */
  lemma {:induction false} QuotBounds(a: nat, b: nat)
    requires b > 0
    ensures b * Quot(a, b) <= a < b * Quot(a, b) + b
    decreases a
  {
    if a >= b {
      QuotBounds(a - b, b);
    }
  }

  /**
   * The minor-axis offset after `k` major steps of a run `n` long that rises `d`: the
   * integer nearest to k * d / n, an exact half rounding down.
   */
  function Minor(k: nat, n: nat, d: nat): nat
    requires d <= n
  {
    if n == 0 then 0 else Quot(2 * k * d + n - 1, 2 * n)
  }

  /** `Minor` is the nearest integer to k * d / n: (2m - 1) n < 2kd <= (2m + 1) n. */
  lemma MinorNearest(k: nat, n: nat, d: nat)
    requires 0 < n && d <= n
    ensures (2 * Minor(k, n, d) - 1) * n < 2 * k * d <= (2 * Minor(k, n, d) + 1) * n
  {
    var m := Minor(k, n, d);
    QuotBounds(2 * k * d + n - 1, 2 * n);
    Distribute(m, n);
  }

  lemma Distribute(m: int, n: int)
    ensures (2 * m - 1) * n == 2 * n * m - n
    ensures (2 * m + 1) * n == 2 * n * m + n
  {
  }

  lemma MulLe(a: int, b: int, n: int)
    requires a <= b && n >= 0
    ensures a * n <= b * n
  {
  }

  /** The nearest-integer condition of `Minor` has one solution only. */
  lemma MinorUnique(k: nat, n: nat, d: nat, m: int)
    requires 0 < n && d <= n
    requires (2 * m - 1) * n < 2 * k * d <= (2 * m + 1) * n
    ensures m == Minor(k, n, d)
  {
    var q := Minor(k, n, d);
    MinorNearest(k, n, d);
    if m < q {
      MulLe(2 * m + 1, 2 * q - 1, n);
    } else if q < m {
      MulLe(2 * q + 1, 2 * m - 1, n);
    }
  }

  /**
   * The midpoint decision: with the error term 2(k+1)d - (2m+1)n at offset m = Minor(k, n, d),
   * the next offset is m + 1 exactly when the error term is positive.
   */
  lemma {:induction false} MinorStep(k: nat, n: nat, d: nat)
    requires 0 < n && d <= n
    ensures Minor(k + 1, n, d) ==
      if 2 * (k + 1) * d - (2 * Minor(k, n, d) + 1) * n > 0 then Minor(k, n, d) + 1 else Minor(k, n, d)
  {
    var m := Minor(k, n, d);
    MinorNearest(k, n, d);
    assert 2 * (k + 1) * d == 2 * k * d + 2 * d;
    assert (2 * (m + 1) + 1) * n == (2 * m + 1) * n + 2 * n;
    assert (2 * (m + 1) - 1) * n == (2 * m + 1) * n;
    if 2 * (k + 1) * d - (2 * m + 1) * n > 0 {
      MinorUnique(k + 1, n, d, m + 1);
    } else {
      MinorUnique(k + 1, n, d, m);
    }
  }

  /**
   * One step of the loop's error term: keeping err == 2(k+1)d - (2m+1)n at offset
   * m = Minor(k, n, d), the source's update of m and err keeps it at step k + 1.
   */
  lemma ErrorStep(k: nat, n: nat, d: nat, err: int)
    requires d <= n
    requires err == 2 * (k + 1) * d - (2 * Minor(k, n, d) + 1) * n
    ensures err > 0 ==> (Minor(k + 1, n, d) == Minor(k, n, d) + 1 &&
      err + 2 * d - 2 * n == 2 * (k + 2) * d - (2 * Minor(k + 1, n, d) + 1) * n)
    ensures err <= 0 ==> (Minor(k + 1, n, d) == Minor(k, n, d) &&
      err + 2 * d == 2 * (k + 2) * d - (2 * Minor(k + 1, n, d) + 1) * n)
  {
    var m := Minor(k, n, d);
    if n > 0 {
      MinorStep(k, n, d);
      NextError(k, n, d, m);
    } else {
      assert d == 0 && m == 0;
    }
  }

  /** The error term for the next step, written as a shift of the current one. */
  lemma NextError(k: nat, n: nat, d: nat, m: int)
    ensures 2 * (k + 2) * d - (2 * m + 1) * n == 2 * (k + 1) * d - (2 * m + 1) * n + 2 * d
    ensures 2 * (k + 2) * d - (2 * (m + 1) + 1) * n == 2 * (k + 1) * d - (2 * m + 1) * n + 2 * d - 2 * n
  {
  }

  /**
   * The loop state after k major steps: the minor offset and the error term, advanced by
   * the source's update rule (step the offset when the error is positive).
   */
  function Track(k: nat, n: nat, d: nat): (int, int)
    decreases k
  {
    if k == 0 then (0, 2 * d - n)
    else
      var (m, err) := Track(k - 1, n, d);
      if err > 0 then (m + 1, err + 2 * d - 2 * n) else (m, err + 2 * d)
  }

  /**
   * The update rule computes the closed form: after k steps the offset is Minor(k, n, d) and
   * the error term is 2(k+1)d - (2m+1)n.
   */
  lemma {:induction false} TrackMinor(k: nat, n: nat, d: nat)
    requires d <= n
    ensures Track(k, n, d).0 == Minor(k, n, d)
    ensures Track(k, n, d).1 == 2 * (k + 1) * d - (2 * Minor(k, n, d) + 1) * n
    decreases k
  {
    if k == 0 {
      MinorEnds(n, d);
    } else {
      TrackMinor(k - 1, n, d);
      ErrorStep(k - 1, n, d, Track(k - 1, n, d).1);
    }
  }

  /** The offset half of `TrackMinor`, without the error term. */
  lemma TrackOffset(k: nat, n: nat, d: nat)
    requires d <= n
    ensures Track(k, n, d).0 == Minor(k, n, d)
  {
    TrackMinor(k, n, d);
  }

  /** The walk starts on the left endpoint's minor coordinate and ends on the right one's. */
  lemma MinorEnds(n: nat, d: nat)
    requires d <= n
    ensures Minor(0, n, d) == 0
    ensures Minor(n, n, d) == d
  {
    if n > 0 {
      MinorUnique(0, n, d, 0);
      MinorUnique(n, n, d, d);
    }
  }

  /**
   * The colour of point k of n + 1 from `l` to `r`: the first caller-supplied endpoint's
   * colour when flat; otherwise the blend at t = k / n, taking t = 1 for a single point.
   */
  function Tint(l: Point, r: Point, first: Color, k: int, n: int, smooth: bool): Color {
    if !smooth then first
    else if n == 0 then r.color
    else Lerp(l.color, r.color, (k as real) / (n as real))
  }

  /** The minor-axis step of a walk whose minor delta is `rise` (upwards when `rise` is 0). */
  function Unit(rise: int): int {
    if rise < 0 then -1 else 1
  }

  /** `m` steps from `base` in the direction of `rise` (upwards when `rise` is 0). */
  function Toward(base: int, rise: int, m: int): int {
    if rise < 0 then base - m else base + m
  }

  /** The points of a shallow run from `l` rightwards to `r`: x advances by one per point. */
  function ShallowRun(l: Point, r: Point, first: Color, smooth: bool): seq<Point>
    requires l.x <= r.x && Abs(r.y - l.y) <= r.x - l.x
  {
    var n := r.x - l.x;
    seq(n + 1, k requires 0 <= k <= n =>
      Point(l.x + k, Toward(l.y, r.y - l.y, Minor(k, n, Abs(r.y - l.y))), Tint(l, r, first, k, n, smooth)))
  }

  /** The points of a steep run from `l` upwards to `r`: y advances by one per point. */
  function SteepRun(l: Point, r: Point, first: Color, smooth: bool): seq<Point>
    requires l.y <= r.y && Abs(r.x - l.x) <= r.y - l.y
  {
    var n := r.y - l.y;
    seq(n + 1, k requires 0 <= k <= n =>
      Point(Toward(l.x, r.x - l.x, Minor(k, n, Abs(r.x - l.x))), l.y + k, Tint(l, r, first, k, n, smooth)))
  }

  /**
   * The scan points of the segment p1-p2, in order along the dominant axis. Flat shading
   * colours every point with p1's colour; smooth shading blends from the left endpoint's
   * colour to the right one's. A zero-length smooth segment takes t = 1, as `drawLine` does.
   */
  function ScanPoints(p1: Point, p2: Point, smooth: bool): (pts: seq<Point>)
    ensures |pts| > 0
  {
    var e := Ends(p1, p2);
    if IsShallow(p1, p2) then ShallowRun(e.0, e.1, p1.color, smooth)
    else SteepRun(e.0, e.1, p1.color, smooth)
  }

  /** The index of the last element of a non-empty sequence. */
  function LastIndex(pts: seq<Point>): nat
    requires |pts| > 0
  {
    |pts| - 1
  }

  /**
   * Length and dominant axis: a shallow segment yields |dx| + 1 points whose x runs from the
   * left endpoint's x in steps of +1; a steep one yields |dy| + 1 points whose y does.
   */
  lemma LineDominant(p1: Point, p2: Point, smooth: bool)
    ensures IsShallow(p1, p2) ==>
      |ScanPoints(p1, p2, smooth)| == Abs(p2.x - p1.x) + 1 &&
      forall k :: 0 <= k < |ScanPoints(p1, p2, smooth)| ==> ScanPoints(p1, p2, smooth)[k].x == Ends(p1, p2).0.x + k
    ensures !IsShallow(p1, p2) ==>
      |ScanPoints(p1, p2, smooth)| == Abs(p2.y - p1.y) + 1 &&
      forall k :: 0 <= k < |ScanPoints(p1, p2, smooth)| ==> ScanPoints(p1, p2, smooth)[k].y == Ends(p1, p2).0.y + k
  {
  }

  /**
   * Both endpoints are included: the first point sits on the endpoint with the smaller
   * dominant coordinate, the last on the other one.
   */
  lemma LineEndpoints(p1: Point, p2: Point, smooth: bool)
    ensures |ScanPoints(p1, p2, smooth)| > 0
    ensures SameSpot(ScanPoints(p1, p2, smooth)[0], Ends(p1, p2).0)
    ensures SameSpot(ScanPoints(p1, p2, smooth)[LastIndex(ScanPoints(p1, p2, smooth))], Ends(p1, p2).1)
  {
    var e := Ends(p1, p2);
    if IsShallow(p1, p2) {
      MinorEnds(e.1.x - e.0.x, Abs(e.1.y - e.0.y));
    } else {
      MinorEnds(e.1.y - e.0.y, Abs(e.1.x - e.0.x));
    }
  }

  /**
   * Minor-axis steps: each step moves the minor coordinate by 0 or by the fixed sign of the
   * segment's minor delta (+1 when that delta is 0), never by more.
   */
  lemma LineMinorSteps(p1: Point, p2: Point, smooth: bool)
    ensures var pts := ScanPoints(p1, p2, smooth);
      var e := Ends(p1, p2);
      forall k :: 0 <= k < |pts| - 1 ==>
        if IsShallow(p1, p2) then
          pts[k + 1].y - pts[k].y in {0, if e.1.y - e.0.y < 0 then -1 else 1}
        else
          pts[k + 1].x - pts[k].x in {0, if e.1.x - e.0.x < 0 then -1 else 1}
  {
    var pts := ScanPoints(p1, p2, smooth);
    var e := Ends(p1, p2);
    forall k | 0 <= k < |pts| - 1
      ensures if IsShallow(p1, p2) then
          pts[k + 1].y - pts[k].y in {0, if e.1.y - e.0.y < 0 then -1 else 1}
        else
          pts[k + 1].x - pts[k].x in {0, if e.1.x - e.0.x < 0 then -1 else 1}
    {
      if IsShallow(p1, p2) {
        MinorStep(k, e.1.x - e.0.x, Abs(e.1.y - e.0.y));
      } else {
        MinorStep(k, e.1.y - e.0.y, Abs(e.1.x - e.0.x));
      }
    }
  }

  /**
   * The offset chosen by `Minor`, signed like the rise, is within half a step of k * rise / n;
   * `major` and `minor` are the point's offsets from the left endpoint.
   */
  lemma NearestOffset(k: nat, n: nat, d: nat, rise: int, major: int, minor: int)
    requires d <= n && (rise == d || rise == -(d as int))
    requires major == k && minor == Toward(0, rise, Minor(k, n, d))
    ensures Abs(2 * minor * n - 2 * major * rise) <= n
  {
    var m := Minor(k, n, d);
    if n > 0 {
      MinorNearest(k, n, d);
    }
    if rise < 0 {
      assert 2 * (-m) * n - 2 * k * rise == -(2 * m * n - 2 * k * d);
    }
  }

  /**
   * Nearest pixel: every point lies within half a pixel of the true segment along the minor
   * axis, i.e. |2 * (minor offset) * run - 2 * (major offset) * rise| <= run.
   */
  lemma LineNearest(p1: Point, p2: Point, smooth: bool)
    ensures var pts := ScanPoints(p1, p2, smooth);
      var l, r := Ends(p1, p2).0, Ends(p1, p2).1;
      forall k :: 0 <= k < |pts| ==>
        if IsShallow(p1, p2) then
          Abs(2 * (pts[k].y - l.y) * (r.x - l.x) - 2 * (pts[k].x - l.x) * (r.y - l.y)) <= r.x - l.x
        else
          Abs(2 * (pts[k].x - l.x) * (r.y - l.y) - 2 * (pts[k].y - l.y) * (r.x - l.x)) <= r.y - l.y
  {
    var pts := ScanPoints(p1, p2, smooth);
    var l, r := Ends(p1, p2).0, Ends(p1, p2).1;
    forall k | 0 <= k < |pts|
      ensures if IsShallow(p1, p2) then
          Abs(2 * (pts[k].y - l.y) * (r.x - l.x) - 2 * (pts[k].x - l.x) * (r.y - l.y)) <= r.x - l.x
        else
          Abs(2 * (pts[k].x - l.x) * (r.y - l.y) - 2 * (pts[k].y - l.y) * (r.x - l.x)) <= r.y - l.y
    {
      if IsShallow(p1, p2) {
        NearestOffset(k, r.x - l.x, Abs(r.y - l.y), r.y - l.y, pts[k].x - l.x, pts[k].y - l.y);
      } else {
        NearestOffset(k, r.y - l.y, Abs(r.x - l.x), r.x - l.x, pts[k].y - l.y, pts[k].x - l.x);
      }
    }
  }

  /** Flat shading: every point carries the first caller-supplied endpoint's colour. */
  lemma LineFlatColor(p1: Point, p2: Point)
    ensures forall k :: 0 <= k < |ScanPoints(p1, p2, false)| ==> ScanPoints(p1, p2, false)[k].color == p1.color
  {
  }

  lemma FractionBounds(k: nat, n: nat)
    requires 0 < n && k <= n
    ensures 0.0 <= (k as real) / (n as real) <= 1.0
    ensures k == 0 ==> (k as real) / (n as real) == 0.0
    ensures k == n ==> (k as real) / (n as real) == 1.0
  {
    var t := (k as real) / (n as real);
    assert t * (n as real) == k as real;
  }

  /**
   * Smooth shading: the last point takes the right endpoint's colour and the first the left
   * endpoint's (the right one's for a single-point segment).
   */
  lemma LineSmoothEndColors(p1: Point, p2: Point)
    ensures var pts := ScanPoints(p1, p2, true);
      var e := Ends(p1, p2);
      |pts| > 0 &&
      pts[0].color == (if |pts| == 1 then e.1.color else e.0.color) &&
      pts[|pts| - 1].color == e.1.color
  {
    var e := Ends(p1, p2);
    var n := if IsShallow(p1, p2) then e.1.x - e.0.x else e.1.y - e.0.y;
    if n > 0 {
      FractionBounds(0, n);
      FractionBounds(n, n);
    }
  }

  /** Smooth shading never leaves a colour box that holds both endpoint colours. */
  lemma LineColorsWithin(p1: Point, p2: Point, lo: Color, hi: Color)
    requires Within(p1.color, lo, hi) && Within(p2.color, lo, hi)
    ensures forall k :: 0 <= k < |ScanPoints(p1, p2, true)| ==> Within(ScanPoints(p1, p2, true)[k].color, lo, hi)
  {
    var pts := ScanPoints(p1, p2, true);
    var e := Ends(p1, p2);
    var n := if IsShallow(p1, p2) then e.1.x - e.0.x else e.1.y - e.0.y;
    forall k | 0 <= k < |pts|
      ensures Within(pts[k].color, lo, hi)
    {
      assert pts[k].color == Tint(e.0, e.1, p1.color, k, n, true);
      if n > 0 {
        FractionBounds(k, n);
        LerpWithin(e.0.color, e.1.color, lo, hi, (k as real) / (n as real));
      }
    }
  }

  /** A zero-length segment yields the single point p1, with p1's colour, in both modes. */
  lemma LineSinglePoint(p1: Point, p2: Point, smooth: bool)
    requires SameSpot(p1, p2)
    ensures ScanPoints(p1, p2, smooth) == [p1]
  {
  }

  /** No two points of a segment share a pixel. */
  lemma LineDistinct(p1: Point, p2: Point, smooth: bool)
    ensures forall i, j :: 0 <= i < j < |ScanPoints(p1, p2, smooth)| ==>
      !SameSpot(ScanPoints(p1, p2, smooth)[i], ScanPoints(p1, p2, smooth)[j])
  {
  }
  /**
   * The points the shallow loop writes from x on, when it enters that pass with minor
   * coordinate `y` and error term `err`: one point per x, then the source's update rule.
   */
  function ShallowFrom(l: Point, r: Point, first: Color, smooth: bool, x: int, y: int, err: int): seq<Point>
    decreases r.x + 1 - x
  {
    if x > r.x then []
    else
      var p := Point(x, y, Tint(l, r, first, x - l.x, r.x - l.x, smooth));
      if err > 0 then [p] + ShallowFrom(l, r, first, smooth, x + 1, y + Unit(r.y - l.y), err + 2 * Abs(r.y - l.y) - 2 * (r.x - l.x))
      else [p] + ShallowFrom(l, r, first, smooth, x + 1, y, err + 2 * Abs(r.y - l.y))
  }

  /**
   * The points the steep loop writes from y on, when it enters that pass with minor
   * coordinate `x` and error term `err`: one point per y, then the source's update rule.
   */
  function SteepFrom(l: Point, r: Point, first: Color, smooth: bool, y: int, x: int, err: int): seq<Point>
    decreases r.y + 1 - y
  {
    if y > r.y then []
    else
      var p := Point(x, y, Tint(l, r, first, y - l.y, r.y - l.y, smooth));
      if err > 0 then [p] + SteepFrom(l, r, first, smooth, y + 1, x + Unit(r.x - l.x), err + 2 * Abs(r.x - l.x) - 2 * (r.y - l.y))
      else [p] + SteepFrom(l, r, first, smooth, y + 1, x, err + 2 * Abs(r.x - l.x))
  }

  /** Point k of a shallow run, with its minor offset as the loop's update rule tracks it. */
  lemma ShallowAt(l: Point, r: Point, first: Color, smooth: bool, k: nat)
    requires l.x <= r.x && Abs(r.y - l.y) <= r.x - l.x && k <= r.x - l.x
    ensures ShallowRun(l, r, first, smooth)[k] == Point(l.x + k, Toward(l.y, r.y - l.y, Track(k, r.x - l.x, Abs(r.y - l.y)).0), Tint(l, r, first, k, r.x - l.x, smooth))
  {
    TrackOffset(k, r.x - l.x, Abs(r.y - l.y));
  }

  /**
   * The inductive step behind `ShallowFromRun`: if point k of the run is the one the loop
   * writes at step k, and the loop from the updated state writes the rest of the run, then
   * the loop from step k writes the run from k on.
   */
  lemma ShallowFromStep(l: Point, r: Point, first: Color, smooth: bool, run: seq<Point>, k: nat, m: int, err: int, m1: int, err1: int)
    requires l.x <= r.x && Abs(r.y - l.y) <= r.x - l.x && k <= r.x - l.x && k < |run|
    requires run[k] == Point(l.x + k, m, Tint(l, r, first, k, r.x - l.x, smooth))
    requires m1 == if err > 0 then m + Unit(r.y - l.y) else m
    requires err1 == if err > 0 then err + 2 * Abs(r.y - l.y) - 2 * (r.x - l.x) else err + 2 * Abs(r.y - l.y)
    requires ShallowFrom(l, r, first, smooth, l.x + (k + 1), m1, err1) == run[k + 1..]
    ensures ShallowFrom(l, r, first, smooth, l.x + k, m, err) == run[k..]
  {
    var at := l.x + k;
    assert at + 1 == l.x + (k + 1) && at - l.x == k;
    ShallowAdvance(l, r, first, smooth, at, m, err, m1, err1);
    assert run[k..] == [run[k]] + run[k + 1..];
  }

  /**
   * The shallow loop, entered after k passes in the state the update rule reaches after k
   * steps, writes exactly the rest of the closed-form run.
   */
  lemma {:induction false} ShallowFromRun(l: Point, r: Point, first: Color, smooth: bool, k: nat)
    requires l.x <= r.x && Abs(r.y - l.y) <= r.x - l.x && k <= r.x - l.x + 1
    ensures var t := Track(k, r.x - l.x, Abs(r.y - l.y));
      ShallowFrom(l, r, first, smooth, l.x + k, Toward(l.y, r.y - l.y, t.0), t.1) == ShallowRun(l, r, first, smooth)[k..]
    decreases r.x - l.x + 1 - k
  {
    var n, d := r.x - l.x, Abs(r.y - l.y);
    var t, t1 := Track(k, n, d), Track(k + 1, n, d);
    if k <= n {
      ShallowFromRun(l, r, first, smooth, k + 1);
      ShallowAt(l, r, first, smooth, k);
      assert Toward(l.y, r.y - l.y, t1.0) == if t.1 > 0 then Toward(l.y, r.y - l.y, t.0) + Unit(r.y - l.y) else Toward(l.y, r.y - l.y, t.0);
      ShallowFromStep(l, r, first, smooth, ShallowRun(l, r, first, smooth), k, Toward(l.y, r.y - l.y, t.0), t.1, Toward(l.y, r.y - l.y, t1.0), t1.1);
    } else {
      assert ShallowRun(l, r, first, smooth)[k..] == [];
    }
  }

  /** Point k of a steep run, with its minor offset as the loop's update rule tracks it. */
  lemma SteepAt(l: Point, r: Point, first: Color, smooth: bool, k: nat)
    requires l.y <= r.y && Abs(r.x - l.x) <= r.y - l.y && k <= r.y - l.y
    ensures SteepRun(l, r, first, smooth)[k] == Point(Toward(l.x, r.x - l.x, Track(k, r.y - l.y, Abs(r.x - l.x)).0), l.y + k, Tint(l, r, first, k, r.y - l.y, smooth))
  {
    TrackOffset(k, r.y - l.y, Abs(r.x - l.x));
  }

  /**
   * The inductive step behind `SteepFromRun`: if point k of the run is the one the loop
   * writes at step k, and the loop from the updated state writes the rest of the run, then
   * the loop from step k writes the run from k on.
   */
  lemma SteepFromStep(l: Point, r: Point, first: Color, smooth: bool, run: seq<Point>, k: nat, m: int, err: int, m1: int, err1: int)
    requires l.y <= r.y && Abs(r.x - l.x) <= r.y - l.y && k <= r.y - l.y && k < |run|
    requires run[k] == Point(m, l.y + k, Tint(l, r, first, k, r.y - l.y, smooth))
    requires m1 == if err > 0 then m + Unit(r.x - l.x) else m
    requires err1 == if err > 0 then err + 2 * Abs(r.x - l.x) - 2 * (r.y - l.y) else err + 2 * Abs(r.x - l.x)
    requires SteepFrom(l, r, first, smooth, l.y + (k + 1), m1, err1) == run[k + 1..]
    ensures SteepFrom(l, r, first, smooth, l.y + k, m, err) == run[k..]
  {
    var at := l.y + k;
    assert at + 1 == l.y + (k + 1) && at - l.y == k;
    SteepAdvance(l, r, first, smooth, at, m, err, m1, err1);
    assert run[k..] == [run[k]] + run[k + 1..];
  }

  /**
   * The steep loop, entered after k passes in the state the update rule reaches after k
   * steps, writes exactly the rest of the closed-form run.
   */
  lemma {:induction false} SteepFromRun(l: Point, r: Point, first: Color, smooth: bool, k: nat)
    requires l.y <= r.y && Abs(r.x - l.x) <= r.y - l.y && k <= r.y - l.y + 1
    ensures var t := Track(k, r.y - l.y, Abs(r.x - l.x));
      SteepFrom(l, r, first, smooth, l.y + k, Toward(l.x, r.x - l.x, t.0), t.1) == SteepRun(l, r, first, smooth)[k..]
    decreases r.y - l.y + 1 - k
  {
    var n, d := r.y - l.y, Abs(r.x - l.x);
    var t, t1 := Track(k, n, d), Track(k + 1, n, d);
    if k <= n {
      SteepFromRun(l, r, first, smooth, k + 1);
      SteepAt(l, r, first, smooth, k);
      assert Toward(l.x, r.x - l.x, t1.0) == if t.1 > 0 then Toward(l.x, r.x - l.x, t.0) + Unit(r.x - l.x) else Toward(l.x, r.x - l.x, t.0);
      SteepFromStep(l, r, first, smooth, SteepRun(l, r, first, smooth), k, Toward(l.x, r.x - l.x, t.0), t.1, Toward(l.x, r.x - l.x, t1.0), t1.1);
    } else {
      assert SteepRun(l, r, first, smooth)[k..] == [];
    }
  }

  /**
   * One pass of the shallow loop body: the point written at x with minor coordinate y0 and
   * error err0, followed by the writes from the updated state, continues the same sequence.
   */
  lemma ShallowAdvance(l: Point, r: Point, first: Color, smooth: bool, x: int, y0: int, err0: int, y1: int, err1: int)
    requires x <= r.x
    requires y1 == if err0 > 0 then y0 + Unit(r.y - l.y) else y0
    requires err1 == if err0 > 0 then err0 + 2 * Abs(r.y - l.y) - 2 * (r.x - l.x) else err0 + 2 * Abs(r.y - l.y)
    ensures ShallowFrom(l, r, first, smooth, x, y0, err0) == [Point(x, y0, Tint(l, r, first, x - l.x, r.x - l.x, smooth))] + ShallowFrom(l, r, first, smooth, x + 1, y1, err1)
  {
  }

  /** The whole shallow loop, from its initial state, writes the closed-form run. */
  lemma ShallowLoopRun(l: Point, r: Point, first: Color, smooth: bool)
    requires l.x <= r.x && Abs(r.y - l.y) <= r.x - l.x
    ensures ShallowFrom(l, r, first, smooth, l.x, l.y, 2 * Abs(r.y - l.y) - (r.x - l.x)) == ShallowRun(l, r, first, smooth)
  {
    ShallowFromRun(l, r, first, smooth, 0);
  }

  /**
   * One pass of the steep loop body: the point written at y with minor coordinate x0 and
   * error err0, followed by the writes from the updated state, continues the same sequence.
   */
  lemma SteepAdvance(l: Point, r: Point, first: Color, smooth: bool, y: int, x0: int, err0: int, x1: int, err1: int)
    requires y <= r.y
    requires x1 == if err0 > 0 then x0 + Unit(r.x - l.x) else x0
    requires err1 == if err0 > 0 then err0 + 2 * Abs(r.x - l.x) - 2 * (r.y - l.y) else err0 + 2 * Abs(r.x - l.x)
    ensures SteepFrom(l, r, first, smooth, y, x0, err0) == [Point(x0, y, Tint(l, r, first, y - l.y, r.y - l.y, smooth))] + SteepFrom(l, r, first, smooth, y + 1, x1, err1)
  {
  }

  /** The whole steep loop, from its initial state, writes the closed-form run. */
  lemma SteepLoopRun(l: Point, r: Point, first: Color, smooth: bool)
    requires l.y <= r.y && Abs(r.x - l.x) <= r.y - l.y
    ensures SteepFrom(l, r, first, smooth, l.y, l.x, 2 * Abs(r.x - l.x) - (r.y - l.y)) == SteepRun(l, r, first, smooth)
  {
    SteepFromRun(l, r, first, smooth, 0);
  }

  /**
   * The shallow branch of `pointsOnLine`: x runs from `l` to `r`, y follows the error term.
   * Smooth shading divides by dx, so it needs a segment of positive length.
   */
  method ShallowPoints(l: Point, r: Point, first: Color, smooth: bool) returns (pts: seq<Point>)
    requires l.x <= r.x && Abs(r.y - l.y) <= r.x - l.x
    requires smooth ==> l.x < r.x
    ensures pts == ShallowRun(l, r, first, smooth)
  {
    pts := [];
    var dx := r.x - l.x;
    var dy := r.y - l.y;
    var step := 1;
    if dy < 0 {
      step := -1;
      dy := -dy;
    }
    var err := 2 * dy - dx;
    var y := l.y;
    assert dy == Abs(r.y - l.y) && step == Unit(r.y - l.y);
    ghost var run := ShallowRun(l, r, first, smooth);
    for x := l.x to r.x + 1
      invariant y == Toward(l.y, r.y - l.y, Track(x - l.x, dx, dy).0)
      invariant err == Track(x - l.x, dx, dy).1
      invariant pts == run[..x - l.x]
    {
      var color;
      if smooth {
        color := Lerp(l.color, r.color, (x - l.x) as real / dx as real);
      } else {
        color := first;
      }
      ShallowAt(l, r, first, smooth, x - l.x);
      assert Point(x, y, color) == run[x - l.x];
      pts := pts + [Point(x, y, color)];
      assert pts == run[..x + 1 - l.x];
      if err > 0 {
        y := y + step;
        err := err + 2 * dy - 2 * dx;
      } else {
        err := err + 2 * dy;
      }
    }
    assert run[..r.x + 1 - l.x] == run;
  }

  /** The steep branch of `pointsOnLine`: y runs from `l` to `r`, x follows the error term. */
  method SteepPoints(l: Point, r: Point, first: Color, smooth: bool) returns (pts: seq<Point>)
    requires l.y < r.y && Abs(r.x - l.x) <= r.y - l.y
    ensures pts == SteepRun(l, r, first, smooth)
  {
    pts := [];
    var dy := r.y - l.y;
    var dx := r.x - l.x;
    var step := 1;
    if dx < 0 {
      step := -1;
      dx := -dx;
    }
    var err := 2 * dx - dy;
    var x := l.x;
    assert dx == Abs(r.x - l.x) && step == Unit(r.x - l.x);
    ghost var run := SteepRun(l, r, first, smooth);
    for y := l.y to r.y + 1
      invariant x == Toward(l.x, r.x - l.x, Track(y - l.y, dy, dx).0)
      invariant err == Track(y - l.y, dy, dx).1
      invariant pts == run[..y - l.y]
    {
      var color;
      if smooth {
        color := Lerp(l.color, r.color, (y - l.y) as real / dy as real);
      } else {
        color := first;
      }
      SteepAt(l, r, first, smooth, y - l.y);
      assert Point(x, y, color) == run[y - l.y];
      pts := pts + [Point(x, y, color)];
      assert pts == run[..y + 1 - l.y];
      if err > 0 {
        x := x + step;
        err := err + 2 * dx - 2 * dy;
      } else {
        err := err + 2 * dx;
      }
    }
    assert run[..r.y + 1 - l.y] == run;
  }

  /**
   * `pointsOnLine`: order the endpoints along the dominant axis and run the matching branch.
   * The source divides by the dominant delta when shading smoothly and has no guard for a
   * zero-length segment, so a smooth call on a single spot is excluded.
   */
  method PointsOnLine(p1: Point, p2: Point, smooth: bool) returns (pts: seq<Point>)
    requires !(smooth && SameSpot(p1, p2))
    ensures pts == ScanPoints(p1, p2, smooth)
  {
    if Abs(p2.y - p1.y) <= Abs(p2.x - p1.x) {
      var l, r := p2, p1;
      if p1.x < p2.x {
        l, r := p1, p2;
      }
      pts := ShallowPoints(l, r, p1.color, smooth);
    } else {
      var l, r := p2, p1;
      if p1.y < p2.y {
        l, r := p1, p2;
      }
      pts := SteepPoints(l, r, p1.color, smooth);
    }
  }
}
