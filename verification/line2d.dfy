/**
 * Line segments from A to B (`Line2D`) and the points visited when walking
 * from A towards B with fixed horizontal and vertical step sizes.
 */
module Line2D {
  import opened Numeric
  import opened Coord2D

  datatype Line = Line(a: Coord, b: Coord)

  /** The signed step along one axis: the step size towards the target, or 0 when already level. */
  function Inc(from: int, to: int, step: nat): (r: int)
    ensures r == 0 || r == step || r == -(step as int)
  {
    var s: int := step;
    if to - from == 0 then 0 else if to - from >= 0 then s else -s
  }

  /** The number of whole steps that fit between the two ends along one axis. */
  function Steps(from: int, to: int, step: nat): nat
    requires step >= 1
  {
    WholeSteps(Abs(to - from), step)
  }

  /** How many times `step` can be taken off `d` while at least `step` is left. */
  function WholeSteps(d: nat, step: nat): nat
    requires step >= 1
    decreases d
  {
    if d < step then 0 else 1 + WholeSteps(d - step, step)
  }

  /** The step count is the quotient: that many steps fit into d, and one more would not. */
  lemma {:induction false} WholeStepsQuotient(d: nat, step: nat)
    requires step >= 1
    ensures WholeSteps(d, step) * step <= d < WholeSteps(d, step) * step + step
    decreases d
  {
    if d >= step {
      WholeStepsQuotient(d - step, step);
      var rest := WholeSteps(d - step, step);
      assert (rest + 1) * step == rest * step + step;
    }
  }

  /**
   * The i-th point of the walk in closed form: each axis advances one step
   * per point until its steps are used up, then stays put.
   */
  function PointAt(l: Line, dx: nat, dy: nat, i: nat): Coord
    requires dx >= 1 && dy >= 1
  {
    Coord(l.a.x + Min(i, Steps(l.a.x, l.b.x, dx)) * Inc(l.a.x, l.b.x, dx),
          l.a.y + Min(i, Steps(l.a.y, l.b.y, dy)) * Inc(l.a.y, l.b.y, dy))
  }

  /** One axis of the walk, step by step: advance while a whole step still fits. */
  function AxisAt(from: int, to: int, step: nat, i: nat): int
    requires step >= 1
  {
    if i == 0 then from
    else AxisAt(from, to, step, i - 1) + (if i - 1 < Steps(from, to, step) then Inc(from, to, step) else 0)
  }

  lemma {:induction false} AxisClosed(from: int, to: int, step: nat, i: nat)
    requires step >= 1
    ensures AxisAt(from, to, step, i) == from + Min(i, Steps(from, to, step)) * Inc(from, to, step)
  {
    if i > 0 {
      AxisClosed(from, to, step, i - 1);
      var m, c := Min(i - 1, Steps(from, to, step)), Inc(from, to, step);
      assert (m + 1) * c == m * c + c;
    }
  }

  /**
   * After k of its steps an axis is `|to - from| - k * step` from its
   * target, still between the two ends, and another step fits exactly while
   * k is below the step count.
   */
  lemma AxisProgress(from: int, to: int, step: nat, k: nat)
    requires step >= 1 && k <= Steps(from, to, step)
    ensures Abs(to - (from + k * Inc(from, to, step))) == Abs(to - from) - k * step
    ensures Min(from, to) <= from + k * Inc(from, to, step) <= Max(from, to)
    ensures Abs(to - (from + k * Inc(from, to, step))) >= step <==> k < Steps(from, to, step)
  {
    var d, q := Abs(to - from), Steps(from, to, step);
    var ks := k * step;
    StepsFit(d, step, k);
    assert ks <= d;
    assert d - ks >= step <==> k < q;
    var c := Inc(from, to, step);
    if to - from > 0 {
      assert k * c == ks;
    } else if to - from < 0 {
      assert k * c == -ks;
    } else {
      assert k * c == 0;
    }
  }

  /** k whole steps fit into d up to the step count, and one more fits while k is below it. */
  lemma StepsFit(d: nat, step: nat, k: nat)
    requires step >= 1 && k <= WholeSteps(d, step)
    ensures k * step <= d
    ensures d - k * step >= step <==> k < WholeSteps(d, step)
  {
    var q := WholeSteps(d, step);
    WholeStepsQuotient(d, step);
    MulMono(k, q, step);
    if k < q {
      MulMono(k + 1, q, step);
    }
  }

  lemma MulMono(a: nat, b: nat, c: nat)
    requires a <= b
    ensures a * c <= b * c
  {
  }

  /** Where the walk stands on one axis after i points: a step fits iff i is below the step count. */
  lemma AxisRemaining(from: int, to: int, step: nat, i: nat)
    requires step >= 1
    ensures Abs(to - AxisAt(from, to, step, i)) >= step <==> i < Steps(from, to, step)
    ensures Min(from, to) <= AxisAt(from, to, step, i) <= Max(from, to)
  {
    AxisClosed(from, to, step, i);
    AxisProgress(from, to, step, Min(i, Steps(from, to, step)));
  }

  /**
   * `getPoints(deltax, deltay)`: start at A and, while either axis is at
   * least one step from B, advance every axis that still is. A zero step
   * would never finish, so both must be non-zero. The walk visits
   * `max(steps x, steps y) + 1` points, the i-th being `PointAt(i)`, and it
   * stops less than one step from B on both axes.
   */
  method GetPoints(l: Line, deltax: int, deltay: int) returns (points: seq<Coord>)
    requires deltax != 0 && deltay != 0
    ensures |points| == Max(Steps(l.a.x, l.b.x, Abs(deltax)), Steps(l.a.y, l.b.y, Abs(deltay))) + 1
    ensures forall i :: 0 <= i < |points| ==> points[i] == PointAt(l, Abs(deltax), Abs(deltay), i)
    ensures points[0] == l.a
    ensures Abs(l.b.x - points[|points| - 1].x) < Abs(deltax) && Abs(l.b.y - points[|points| - 1].y) < Abs(deltay)
  {
    var dx, dy := Abs(deltax), Abs(deltay);
    points := Walk(l, dx, dy);
    WalkClosed(l, dx, dy, points);
  }

  /** The loop of `getPoints`, with the i-th point stated axis by axis. */
  method Walk(l: Line, dx: nat, dy: nat) returns (points: seq<Coord>)
    requires dx >= 1 && dy >= 1
    ensures |points| == Max(Steps(l.a.x, l.b.x, dx), Steps(l.a.y, l.b.y, dy)) + 1
    ensures forall i {:trigger points[i]} :: 0 <= i < |points| ==>
              points[i] == Coord(AxisAt(l.a.x, l.b.x, dx, i), AxisAt(l.a.y, l.b.y, dy, i))
    ensures Abs(l.b.x - points[|points| - 1].x) < dx && Abs(l.b.y - points[|points| - 1].y) < dy
  {
    ghost var nx, ny := Steps(l.a.x, l.b.x, dx), Steps(l.a.y, l.b.y, dy);
    ghost var n := Max(nx, ny);
    var x, y := l.a.x, l.a.y;
    points := [Coord(x, y)];
    ghost var k: nat := 0;
    AxisRemaining(l.a.x, l.b.x, dx, 0);
    AxisRemaining(l.a.y, l.b.y, dy, 0);
    while Abs(l.b.x - x) >= dx || Abs(l.b.y - y) >= dy
      invariant k <= n
      invariant x == AxisAt(l.a.x, l.b.x, dx, k) && y == AxisAt(l.a.y, l.b.y, dy, k)
      invariant Abs(l.b.x - x) >= dx <==> k < nx
      invariant Abs(l.b.y - y) >= dy <==> k < ny
      invariant |points| == k + 1 && points[k] == Coord(x, y)
      invariant forall i {:trigger points[i]} :: 0 <= i < |points| ==>
                  points[i] == Coord(AxisAt(l.a.x, l.b.x, dx, i), AxisAt(l.a.y, l.b.y, dy, i))
      decreases n - k
    {
      x, y := StepAxes(l, dx, dy, k, x, y);
      k := k + 1;
      points := points + [Coord(x, y)];
    }
  }

  /** One iteration of the walk: every axis that still has a whole step left advances by it. */
  method StepAxes(l: Line, dx: nat, dy: nat, ghost k: nat, x: int, y: int) returns (x': int, y': int)
    requires dx >= 1 && dy >= 1
    requires x == AxisAt(l.a.x, l.b.x, dx, k) && y == AxisAt(l.a.y, l.b.y, dy, k)
    ensures x' == AxisAt(l.a.x, l.b.x, dx, k + 1) && y' == AxisAt(l.a.y, l.b.y, dy, k + 1)
    ensures Abs(l.b.x - x') >= dx <==> k + 1 < Steps(l.a.x, l.b.x, dx)
    ensures Abs(l.b.y - y') >= dy <==> k + 1 < Steps(l.a.y, l.b.y, dy)
  {
    AxisRemaining(l.a.x, l.b.x, dx, k);
    AxisRemaining(l.a.y, l.b.y, dy, k);
    x', y' := x, y;
    if Abs(l.b.x - x) >= dx {
      x' := x + Inc(l.a.x, l.b.x, dx);
    }
    if Abs(l.b.y - y) >= dy {
      y' := y + Inc(l.a.y, l.b.y, dy);
    }
    AxisRemaining(l.a.x, l.b.x, dx, k + 1);
    AxisRemaining(l.a.y, l.b.y, dy, k + 1);
  }

  lemma WalkClosed(l: Line, dx: nat, dy: nat, points: seq<Coord>)
    requires dx >= 1 && dy >= 1
    requires forall i {:trigger points[i]} :: 0 <= i < |points| ==>
               points[i] == Coord(AxisAt(l.a.x, l.b.x, dx, i), AxisAt(l.a.y, l.b.y, dy, i))
    ensures forall i :: 0 <= i < |points| ==> points[i] == PointAt(l, dx, dy, i)
  {
    forall i | 0 <= i < |points|
      ensures points[i] == PointAt(l, dx, dy, i)
    {
      AxisClosed(l.a.x, l.b.x, dx, i);
      AxisClosed(l.a.y, l.b.y, dy, i);
    }
  }

  /**
   * Each step moves every axis by its signed step size or leaves it, and
   * never past B: every point stays between A and B on both axes.
   */
  lemma PointSteps(l: Line, dx: nat, dy: nat, i: nat)
    requires dx >= 1 && dy >= 1
    ensures var p, q := PointAt(l, dx, dy, i), PointAt(l, dx, dy, i + 1);
            (q.x - p.x == 0 || q.x - p.x == Inc(l.a.x, l.b.x, dx))
            && (q.y - p.y == 0 || q.y - p.y == Inc(l.a.y, l.b.y, dy))
    ensures var p := PointAt(l, dx, dy, i);
            Min(l.a.x, l.b.x) <= p.x <= Max(l.a.x, l.b.x) && Min(l.a.y, l.b.y) <= p.y <= Max(l.a.y, l.b.y)
  {
    AxisClosed(l.a.x, l.b.x, dx, i);
    AxisClosed(l.a.y, l.b.y, dy, i);
    AxisClosed(l.a.x, l.b.x, dx, i + 1);
    AxisClosed(l.a.y, l.b.y, dy, i + 1);
    AxisRemaining(l.a.x, l.b.x, dx, i);
    AxisRemaining(l.a.y, l.b.y, dy, i);
  }

  /** `getPoints()` walks with step 1: it ends exactly at B after `max(|dx|, |dy|) + 1` points. */
  method GetPointsUnit(l: Line) returns (points: seq<Coord>)
    ensures |points| == Max(Abs(l.b.x - l.a.x), Abs(l.b.y - l.a.y)) + 1
    ensures points[0] == l.a && points[|points| - 1] == l.b
    ensures forall i :: 0 <= i < |points| ==> points[i] == PointAt(l, 1, 1, i)
  {
    points := GetPoints(l, 1, 1);
  }

  /** `getPoints(delta)`: the same step size on both axes. */
  method GetPointsStep(l: Line, delta: int) returns (points: seq<Coord>)
    requires delta != 0
    ensures |points| == Max(Steps(l.a.x, l.b.x, Abs(delta)), Steps(l.a.y, l.b.y, Abs(delta))) + 1
    ensures points[0] == l.a
    ensures Abs(l.b.x - points[|points| - 1].x) < Abs(delta) && Abs(l.b.y - points[|points| - 1].y) < Abs(delta)
  {
    points := GetPoints(l, delta, delta);
  }

  /** With larger steps B can be missed: from (0,0) to (3,0) in steps of 2 the walk ends at (2,0). */
  lemma OvershootExample()
    ensures PointAt(Line(Coord(0, 0), Coord(3, 0)), 2, 2, 1) == Coord(2, 0)
    ensures Steps(0, 3, 2) == 1 && Steps(0, 0, 2) == 0
  {
  }

  predicate IsHorizontal(l: Line)
  {
    l.a.y == l.b.y
  }

  predicate IsVertical(l: Line)
  {
    l.a.x == l.b.x
  }

  /** A line is horizontal exactly when every point of its unit walk stays in A's row (vertical: column). */
  lemma HorizontalWalk(l: Line)
    ensures IsHorizontal(l) <==> forall i: nat :: PointAt(l, 1, 1, i).y == l.a.y
    ensures IsVertical(l) <==> forall i: nat :: PointAt(l, 1, 1, i).x == l.a.x
  {
    var ny, nx := Steps(l.a.y, l.b.y, 1), Steps(l.a.x, l.b.x, 1);
    AxisProgress(l.a.y, l.b.y, 1, ny);
    AxisProgress(l.a.x, l.b.x, 1, nx);
    assert PointAt(l, 1, 1, ny).y == l.b.y;
    assert PointAt(l, 1, 1, nx).x == l.b.x;
  }
}
