/**
 * Three-dimensional integer coordinates (`Coord3D`). In the library a
 * `Coord3D` is a `CoordND` with three values; its arithmetic is delegated to
 * the N-dimensional operations and converted back.
 */
module Coord3D {
  import opened Wrappers
  import opened Numeric
  import CoordND

  datatype Coord3D = Coord3D(x: int, y: int, z: int)

  /** The N-dimensional coordinate a `Coord3D` is built on. */
  function ToND(c: Coord3D): (r: CoordND.CoordND)
    ensures |r.values| == 3
  {
    CoordND.CoordND([c.x, c.y, c.z])
  }

  /** `fromND`: reads the first three values. */
  function FromND(c: CoordND.CoordND): (r: Coord3D)
    requires |c.values| >= 3
    ensures ToND(r).values == c.values[..3]
  {
    Coord3D(c.values[0], c.values[1], c.values[2])
  }

  /**
   * The array constructor reads indices 0, 1 and 2, so a shorter array is out
   * of bounds. A longer array is kept whole by the N-dimensional constructor:
   * the object has more than three dimensions, which no `Coord3D` value of
   * this model has, so the model refuses it with the `IllegalArgument` that
   * its first `move`, `add` or `diff` raises (see `LongerArrayKeepsAll`).
   */
  function FromArray(values: seq<int>): (r: Result<Coord3D>)
    ensures r.Ok? <==> |values| == 3
    ensures |values| < 3 ==> r == Err(IndexOutOfBounds)
    ensures |values| > 3 ==> r == Err(IllegalArgument)
    ensures r.Ok? ==> ToND(r.value).values == values
  {
    if |values| < 3 then Err(IndexOutOfBounds)
    else if |values| > 3 then Err(IllegalArgument)
    else Ok(FromND(CoordND.CoordND(values)))
  }

  /**
   * What the array constructor builds from a longer array: an N-dimensional
   * point with every value, whose three-delta `move` and whose `diff` against
   * a 3D point fail, and which equals no 3D point.
   */
  lemma LongerArrayKeepsAll(values: seq<int>, dx: int, dy: int, dz: int, c: Coord3D, absolute: bool)
    requires |values| > 3
    ensures CoordND.Move(CoordND.CoordND(values), [dx, dy, dz]) == Err(IllegalArgument)
    ensures CoordND.Diff(CoordND.CoordND(values), ToND(c), absolute) == Err(IllegalArgument)
    ensures CoordND.CoordND(values) != ToND(c)
  {
  }

  lemma ToFromND(c: Coord3D)
    ensures FromND(ToND(c)) == c
    ensures FromArray(ToND(c).values) == Ok(c)
  {
  }

  /** `move(dx, dy, dz)`, computed through the N-dimensional `move`. */
  function Move(c: Coord3D, dx: int, dy: int, dz: int): (r: Coord3D)
    ensures r == Coord3D(c.x + dx, c.y + dy, c.z + dz)
  {
    var m := CoordND.Move(ToND(c), [dx, dy, dz]);
    assert m.Ok?;
    var v := m.value.values;
    assert v[0] == c.x + dx && v[1] == c.y + dy && v[2] == c.z + dz;
    FromND(m.value)
  }

  /** `add(coord)` is `move` by the other coordinate's values. */
  function Add(c: Coord3D, d: Coord3D): (r: Coord3D)
    ensures r == Coord3D(c.x + d.x, c.y + d.y, c.z + d.z)
  {
    Move(c, d.x, d.y, d.z)
  }

  /** `diff(coord, absolute)`: `this - coord` per axis, computed through `CoordND.diff`. */
  function Diff(c: Coord3D, d: Coord3D, absolute: bool): (r: Coord3D)
    ensures !absolute ==> r == Coord3D(c.x - d.x, c.y - d.y, c.z - d.z)
    ensures absolute ==> r == Coord3D(Abs(c.x - d.x), Abs(c.y - d.y), Abs(c.z - d.z))
  {
    var m := CoordND.Diff(ToND(c), ToND(d), absolute);
    assert m.Ok?;
    var v := m.value.values;
    assert v[0] == (if absolute then Abs(c.x - d.x) else c.x - d.x);
    assert v[1] == (if absolute then Abs(c.y - d.y) else c.y - d.y);
    assert v[2] == (if absolute then Abs(c.z - d.z) else c.z - d.z);
    FromND(m.value)
  }

  /** `negate`: every axis flipped. */
  function Negate(c: Coord3D): (r: Coord3D)
    ensures Add(c, r) == Coord3D(0, 0, 0)
  {
    Coord3D(-c.x, -c.y, -c.z)
  }

  /** Negating twice is the identity; `diff` is adding the negation, and `add` undoes it. */
  lemma NegateInvolution(c: Coord3D, d: Coord3D)
    ensures Negate(Negate(c)) == c
    ensures Diff(c, d, false) == Add(c, Negate(d))
    ensures Add(d, Diff(c, d, false)) == c
    ensures Diff(c, d, true) == Diff(d, c, true)
  {
  }
}
