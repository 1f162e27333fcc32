/**
 * Integer points in the plane (`Coord2D`). Equality is structural: two
 * coordinates are equal exactly when their x and y agree.
 */
module Coord2D {
  import opened Wrappers
  import opened Numeric

  datatype Coord = Coord(x: int, y: int)

  /** Translation by (dx, dy). */
  function Move(c: Coord, dx: int, dy: int): Coord
  {
    Coord(c.x + dx, c.y + dy)
  }

  /** `other - c`: the vector that leads from `c` to `other`. */
  function Diff(c: Coord, other: Coord): Coord
  {
    Coord(other.x - c.x, other.y - c.y)
  }

  /** Componentwise absolute value of `Diff`. */
  function DiffAbs(c: Coord, other: Coord): Coord
  {
    Coord(Abs(other.x - c.x), Abs(other.y - c.y))
  }

  /** `Diff` and `Move` undo each other; `DiffAbs` is the symmetric, non-negative form of `Diff`. */
  lemma DiffMoveInverse(c: Coord, other: Coord, dx: int, dy: int)
    ensures Diff(c, Move(c, dx, dy)) == Coord(dx, dy)
    ensures Move(c, Diff(c, other).x, Diff(c, other).y) == other
    ensures Diff(other, c) == Coord(-Diff(c, other).x, -Diff(c, other).y)
    ensures DiffAbs(c, other) == DiffAbs(other, c)
    ensures DiffAbs(c, other).x == Abs(Diff(c, other).x) && DiffAbs(c, other).y == Abs(Diff(c, other).y)
  {
  }

  function CMax(a: Coord, b: Coord): (r: Coord)
    ensures r.x >= a.x && r.x >= b.x && (r.x == a.x || r.x == b.x)
    ensures r.y >= a.y && r.y >= b.y && (r.y == a.y || r.y == b.y)
  {
    Coord(Max(a.x, b.x), Max(a.y, b.y))
  }

  function CMin(a: Coord, b: Coord): (r: Coord)
    ensures r.x <= a.x && r.x <= b.x && (r.x == a.x || r.x == b.x)
    ensures r.y <= a.y && r.y <= b.y && (r.y == a.y || r.y == b.y)
  {
    Coord(Min(a.x, b.x), Min(a.y, b.y))
  }

  /** The four compass angles the library supports. */
  predicate IsMajorAngle(d: int)
  {
    d == 0 || d == 90 || d == 180 || d == 270
  }

  /**
   * Moves `distance` steps towards an angle measured clockwise from north
   * (y grows downwards). The angle is reduced with Java's `%`, so a negative
   * angle that is not a multiple of 360 is rejected.
   */
  function MoveDir(c: Coord, direction: int, distance: int): (r: Result<Coord>)
    ensures r.Ok? <==> IsMajorAngle(TRem(direction, 360))
    ensures r.Err? ==> r.error == IllegalArgument
    ensures r.Ok? ==> Manhattan(c, r.value) == Abs(distance)
    ensures r.Ok? ==> (r.value.x == c.x <==> (TRem(direction, 360) % 180 == 0 || distance == 0))
  {
    var d := TRem(direction, 360);
    if d == 0 then Ok(Move(c, 0, -distance))
    else if d == 90 then Ok(Move(c, distance, 0))
    else if d == 180 then Ok(Move(c, 0, distance))
    else if d == 270 then Ok(Move(c, -distance, 0))
    else Err(IllegalArgument)
  }

  /**
   * Rotation about the origin by a multiple of 90 degrees; the angle is
   * first shifted by 360 and reduced with Java's `%`.
   */
  function Rotate(c: Coord, degrees: int): (r: Result<Coord>)
    ensures r.Ok? <==> IsMajorAngle(TRem(degrees + 360, 360))
    ensures r.Err? ==> r.error == IllegalArgument
    ensures r.Ok? ==> Manhattan(Coord(0, 0), r.value) == Manhattan(Coord(0, 0), c)
  {
    var d := TRem(degrees + 360, 360);
    if d == 0 then Ok(Move(c, 0, 0))
    else if d == 90 then Ok(Coord(-c.y, c.x))
    else if d == 180 then Ok(Coord(-c.x, -c.y))
    else if d == 270 then Ok(Coord(c.y, -c.x))
    else Err(IllegalArgument)
  }

  function Manhattan(a: Coord, b: Coord): nat
  {
    Abs(b.x - a.x) + Abs(b.y - a.y)
  }

  /** Manhattan distance is a metric on the grid. */
  lemma ManhattanMetric(a: Coord, b: Coord, c: Coord)
    ensures Manhattan(a, b) == Manhattan(b, a)
    ensures Manhattan(a, b) == 0 <==> a == b
    ensures Manhattan(a, c) <= Manhattan(a, b) + Manhattan(b, c)
  {
  }

  /** Moving back by the opposite compass direction returns to the start. */
  lemma MoveDirReturns(c: Coord, direction: int, distance: int)
    requires 0 <= direction < 180 && IsMajorAngle(direction)
    ensures MoveDir(c, direction, distance).Ok?
    ensures MoveDir(MoveDir(c, direction, distance).value, direction + 180, distance) == Ok(c)
  {
    if direction == 0 {
      NorthAndBack(c, distance);
    } else {
      EastAndBack(c, distance);
    }
  }

  lemma NorthAndBack(c: Coord, distance: int)
    ensures MoveDir(c, 0, distance) == Ok(Move(c, 0, -distance))
    ensures MoveDir(Move(c, 0, -distance), 180, distance) == Ok(c)
  {
    assert TRem(0, 360) == 0 && TRem(180, 360) == 180;
  }

  lemma EastAndBack(c: Coord, distance: int)
    ensures MoveDir(c, 90, distance) == Ok(Move(c, distance, 0))
    ensures MoveDir(Move(c, distance, 0), 270, distance) == Ok(c)
  {
    assert TRem(90, 360) == 90 && TRem(270, 360) == 270;
  }

  /** A compass move is the northward step of the same length, turned clockwise by the move's angle. */
  lemma MoveDirIsTurnedNorth(c: Coord, direction: int, distance: int)
    requires MoveDir(c, direction, distance).Ok?
    ensures Rotate(Coord(0, -distance), TRem(direction, 360)).Ok?
    ensures Diff(c, MoveDir(c, direction, distance).value) == Rotate(Coord(0, -distance), TRem(direction, 360)).value
  {
    var d := TRem(direction, 360);
    assert TRem(d + 360, 360) == d;
  }

  /** Four quarter turns give the starting point back, and a quarter turn is undone by three more. */
  lemma RotateFourTimes(c: Coord)
    ensures Rotate(c, 90).Ok?
    ensures Rotate(Rotate(c, 90).value, 270) == Ok(c)
    ensures Rotate(Rotate(Rotate(Rotate(c, 90).value, 90).value, 90).value, 90) == Ok(c)
  {
  }

  /** A negative quarter turn is the same as three positive ones. */
  lemma RotateNegative(c: Coord)
    ensures Rotate(c, -90) == Rotate(c, 270)
    ensures Rotate(c, -360) == Ok(c)
  {
    TruncatingAgreesOnNatural(270, 360);
    TruncatingAgreesOnNatural(630, 360);
    TruncatingAgreesOnNatural(0, 360);
  }

  /**
   * The four orthogonal neighbours (left, right, up, down), followed by the
   * four diagonal ones when requested.
   */
  function Adjacent(c: Coord, diagonals: bool): (r: seq<Coord>)
    ensures |r| == if diagonals then 8 else 4
    ensures forall i :: 0 <= i < |r| ==> r[i] != c && Abs(r[i].x - c.x) <= 1 && Abs(r[i].y - c.y) <= 1
    ensures forall i :: 0 <= i < |r| ==> (i < 4 <==> Manhattan(c, r[i]) == 1)
    ensures forall i, j :: 0 <= i < j < |r| ==> r[i] != r[j]
  {
    var orth := [Move(c, -1, 0), Move(c, 1, 0), Move(c, 0, -1), Move(c, 0, 1)];
    if !diagonals then orth
    else orth + [Move(c, -1, -1), Move(c, -1, 1), Move(c, 1, -1), Move(c, 1, 1)]
  }

  /** Every cell at distance one per axis is listed: the orthogonal ones always, the rest when diagonals are asked for. */
  lemma AdjacentComplete(c: Coord, n: Coord, diagonals: bool)
    requires n != c && Abs(n.x - c.x) <= 1 && Abs(n.y - c.y) <= 1
    requires !diagonals ==> Manhattan(c, n) == 1
    ensures n in Adjacent(c, diagonals)
  {
    var r := Adjacent(c, diagonals);
    if n.x == c.x - 1 && n.y == c.y { assert n == r[0]; }
    else if n.x == c.x + 1 && n.y == c.y { assert n == r[1]; }
    else if n.x == c.x && n.y == c.y - 1 { assert n == r[2]; }
    else if n.x == c.x && n.y == c.y + 1 { assert n == r[3]; }
    else if n.x == c.x - 1 && n.y == c.y - 1 { assert n == r[4]; }
    else if n.x == c.x - 1 && n.y == c.y + 1 { assert n == r[5]; }
    else if n.x == c.x + 1 && n.y == c.y - 1 { assert n == r[6]; }
    else { assert n == r[7]; }
  }
}
