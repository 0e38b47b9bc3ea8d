/**
 * Scan points seen row by row. The triangle fill walks the two long edges of a flat-sided
 * triangle one y level at a time; this module states what makes that walk work: the y values
 * of an edge's scan points move monotonically, by 0 or 1 row per point, from one end to the
 * other, so every row between the ends is met, in order.
 */
module Scanlines {
  import opened Colors
  import opened Bresenham

  /** `v` lies between `a` and `b`, inclusive, in either order. */
  predicate Between(v: int, a: int, b: int) {
    (a <= v <= b) || (b <= v <= a)
  }

  /** The row direction from `a` towards `b` (upwards when they are equal). */
  function Dir(a: int, b: int): int {
    if b < a then -1 else 1
  }

  /** Consecutive points differ in y by 0 or by `d`. */
  predicate Steps(s: seq<Point>, d: int) {
    forall k :: 0 <= k < |s| - 1 ==> s[k + 1].y == s[k].y || s[k + 1].y == s[k].y + d
  }

  /** `s` runs from row `y0` to row `y1`, moving one row at a time towards `y1`. */
  predicate YWalk(s: seq<Point>, y0: int, y1: int) {
    |s| > 0 && s[0].y == y0 && s[|s| - 1].y == y1 && Steps(s, Dir(y0, y1))
  }

  /** Steps in a fixed direction make y monotone in that direction. */
  lemma {:induction false} StepsMonotone(s: seq<Point>, d: int, i: nat, j: nat)
    requires Steps(s, d) && i <= j < |s|
    ensures d >= 0 ==> s[i].y <= s[j].y
    ensures d <= 0 ==> s[j].y <= s[i].y
    decreases j - i
  {
    if i < j {
      StepsMonotone(s, d, i, j - 1);
    }
  }

  /** From any point on, a walk stays between that point's row and its final row. */
  lemma WalkBetween(s: seq<Point>, y0: int, y1: int)
    requires YWalk(s, y0, y1)
    ensures forall i, j :: 0 <= i <= j < |s| ==> Between(s[j].y, s[i].y, y1)
  {
    forall i, j | 0 <= i <= j < |s|
      ensures Between(s[j].y, s[i].y, y1)
    {
      StepsMonotone(s, Dir(y0, y1), i, j);
      StepsMonotone(s, Dir(y0, y1), j, |s| - 1);
    }
  }

  /** Every point of a walk lies between its two end rows. */
  lemma WalkBounds(s: seq<Point>, y0: int, y1: int)
    requires YWalk(s, y0, y1)
    ensures forall k :: 0 <= k < |s| ==> Between(s[k].y, y0, y1)
  {
    WalkBetween(s, y0, y1);
    assert forall k :: 0 <= k < |s| ==> Between(s[k].y, s[0].y, y1);
  }

  /**
   * Index k is where the fill stops on row `target` when it searches `line`: the point is on
   * that row and is the last of its row (the next point, if any, is on another row).
   */
  predicate IsStop(line: seq<Point>, target: int, k: int)
    requires 0 <= k < |line|
  {
    line[k].y == target && (k == |line| - 1 || line[k].y != line[k + 1].y)
  }

  /** A walk has a stop on every row between the row of point i and its last row, at or after i. */
  lemma {:induction false} StopFrom(s: seq<Point>, y0: int, y1: int, target: int, i: nat)
    requires YWalk(s, y0, y1) && i < |s| && Between(target, s[i].y, y1)
    ensures exists k :: i <= k < |s| && IsStop(s, target, k)
    decreases |s| - i
  {
    if i == |s| - 1 {
      assert IsStop(s, target, i);
    } else if IsStop(s, target, i) {
    } else {
      WalkBetween(s, y0, y1);
      assert Between(s[i + 1].y, s[i].y, y1);
      StopFrom(s, y0, y1, target, i + 1);
    }
  }

  /** A walk has a stop on every row between its ends. */
  lemma StopExists(s: seq<Point>, y0: int, y1: int, target: int)
    requires YWalk(s, y0, y1) && Between(target, y0, y1)
    ensures exists k :: 0 <= k < |s| && IsStop(s, target, k)
  {
    StopFrom(s, y0, y1, target, 0);
  }

  /** `s` in reverse order (Python's `list.reverse`). */
  function Reverse(s: seq<Point>): (r: seq<Point>)
    ensures |r| == |s|
    ensures forall k :: 0 <= k < |s| ==> r[k] == s[|s| - 1 - k]
  {
    seq(|s|, k requires 0 <= k < |s| => s[|s| - 1 - k])
  }

  /** Reversing twice gives the sequence back, and reversal keeps every point with its multiplicity. */
  lemma ReverseInvolution(s: seq<Point>)
    ensures Reverse(Reverse(s)) == s
    ensures multiset(Reverse(s)) == multiset(s)
  {
    ReverseTwice(s);
    ReverseMultiset(s);
  }

  lemma {:induction false} ReverseMultiset(s: seq<Point>)
    ensures multiset(Reverse(s)) == multiset(s)
    decreases |s|
  {
    if |s| > 0 {
      var r1 := Reverse(s[1..]);
      ReverseMultiset(s[1..]);
      ReverseCons(s);
      assert multiset(r1 + [s[0]]) == multiset(r1) + multiset{s[0]};
      assert s == [s[0]] + s[1..];
    }
  }

  lemma ReverseTwice(s: seq<Point>)
    ensures Reverse(Reverse(s)) == s
  {
    var rr := Reverse(Reverse(s));
    assert |rr| == |s|;
    forall k | 0 <= k < |s|
      ensures rr[k] == s[k]
    {
    }
  }

  /** The reversal of a non-empty sequence ends with its first element. */
  lemma ReverseCons(s: seq<Point>)
    requires |s| > 0
    ensures Reverse(s) == Reverse(s[1..]) + [s[0]]
  {
    var r, r1 := Reverse(s), Reverse(s[1..]);
    assert |r| == |r1| + 1;
    forall k | 0 <= k < |r|
      ensures r[k] == (r1 + [s[0]])[k]
    {
    }
  }

  /** Reversing a walk gives the walk between the same rows in the other direction. */
  lemma ReverseWalk(s: seq<Point>, y0: int, y1: int)
    requires YWalk(s, y0, y1)
    ensures YWalk(Reverse(s), y1, y0)
  {
    var r := Reverse(s);
    WalkBounds(s, y0, y1);
    if y0 == y1 {
      assert forall k :: 0 <= k < |s| ==> s[k].y == y0;
    } else {
      forall k | 0 <= k < |r| - 1
        ensures r[k + 1].y == r[k].y || r[k + 1].y == r[k].y + Dir(y1, y0)
      {
        assert r[k] == s[|s| - 1 - k] && r[k + 1] == s[|s| - 2 - k];
      }
    }
  }

  /** Reversal keeps the points. */
  lemma ReverseMembers(s: seq<Point>)
    ensures forall p :: p in Reverse(s) <==> p in s
  {
    var r := Reverse(s);
    forall p | p in s
      ensures p in r
    {
      var k :| 0 <= k < |s| && s[k] == p;
      assert r[|s| - 1 - k] == p;
    }
  }

  /** A non-empty sequence moving by 0 or by a fixed unit step is a walk between its end rows. */
  lemma UnitStepsWalk(s: seq<Point>, d: int)
    requires |s| > 0 && (d == 1 || d == -1) && Steps(s, d)
    ensures YWalk(s, s[0].y, s[|s| - 1].y)
  {
    StepsMonotone(s, d, 0, |s| - 1);
    if s[0].y == s[|s| - 1].y {
      forall k | 0 <= k < |s| - 1
        ensures s[k + 1].y == s[k].y
      {
        StepsMonotone(s, d, 0, k);
        StepsMonotone(s, d, k + 1, |s| - 1);
      }
    }
  }

  /**
   * The scan points of any segment form a walk from the row of one endpoint to the row of
   * the other.
   */
  lemma LineYWalk(p1: Point, p2: Point, smooth: bool)
    ensures var s := ScanPoints(p1, p2, smooth);
      |s| > 0 && YWalk(s, s[0].y, s[|s| - 1].y) &&
      ((s[0].y == p1.y && s[|s| - 1].y == p2.y) || (s[0].y == p2.y && s[|s| - 1].y == p1.y))
  {
    var s := ScanPoints(p1, p2, smooth);
    var e := Ends(p1, p2);
    LineEndpoints(p1, p2, smooth);
    if IsShallow(p1, p2) {
      LineMinorSteps(p1, p2, smooth);
      UnitStepsWalk(s, if e.1.y - e.0.y < 0 then -1 else 1);
    } else {
      LineDominant(p1, p2, smooth);
      UnitStepsWalk(s, 1);
    }
  }

  /** The rows from `a` to `b` inclusive, in walking order. */
  function Levels(a: int, b: int): seq<int>
    decreases Abs(b - a)
  {
    if a == b then [a] else [a] + Levels(a + Dir(a, b), b)
  }

  /** Each row between `a` and `b` occurs in `Levels(a, b)` exactly once, and no other row does. */
  lemma {:induction false} LevelsCount(a: int, b: int, y: int)
    ensures multiset(Levels(a, b))[y] == if Between(y, a, b) then 1 else 0
    decreases Abs(b - a)
  {
    if a != b {
      LevelsCount(a + Dir(a, b), b, y);
    }
  }
}
