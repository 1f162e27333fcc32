/**
 * Coordinates on a hexagonal grid (`HexCoord`) stored as columns and rows:
 * every column is a vertical stack of hexagons, and diagonal moves change
 * the row depending on the parity of the column.
 */
module HexCoord {
  import opened Numeric

  datatype HexDir = NW | N | NE | SW | S | SE

  datatype Hex = Hex(x: int, y: int)

  function XInc(d: HexDir): (r: int)
    ensures -1 <= r <= 1
  {
    match d
    case NW => -1
    case SW => -1
    case N => 0
    case S => 0
    case NE => 1
    case SE => 1
  }

  function YInc(d: HexDir): (r: int)
    ensures r == -1 || r == 1
  {
    match d
    case NW => -1
    case N => -1
    case NE => -1
    case SW => 1
    case S => 1
    case SE => 1
  }

  /** The direction that undoes a move. */
  function Opposite(d: HexDir): (r: HexDir)
    ensures XInc(r) == -XInc(d) && YInc(r) == -YInc(d)
  {
    match d
    case NW => SE
    case N => S
    case NE => SW
    case SW => NE
    case S => N
    case SE => NW
  }

  /**
   * `move`: the column changes by the direction's x increment. A straight
   * move changes the row by its y increment; a diagonal northward move goes
   * up one row from an odd column, a diagonal southward move goes down one
   * row from an even column, and otherwise the row stays.
   */
  function Move(h: Hex, d: HexDir): (r: Hex)
    ensures r.x == h.x + XInc(d)
    ensures XInc(d) == 0 ==> r.y == h.y + YInc(d)
    ensures XInc(d) != 0 ==> r.y == h.y || r.y == h.y + YInc(d)
  {
    var newx := h.x + XInc(d);
    var newy := if XInc(d) == 0 then h.y + YInc(d)
                else h.y + (if YInc(d) == -1 then -(Abs(h.x) % 2) else Abs(h.x + 1) % 2);
    Hex(newx, newy)
  }

  lemma ParityFlips(x: int)
    ensures Abs(x + 1) % 2 == 1 - Abs(x) % 2
  {
    if x >= 0 {
      assert Abs(x + 1) == x + 1;
    } else {
      assert Abs(x) == Abs(x + 1) + 1;
    }
  }

  /** A diagonal move changes the row exactly when the column parity calls for it. */
  lemma DiagonalRow(h: Hex, d: HexDir)
    requires XInc(d) != 0
    ensures Move(h, d).y != h.y <==> (YInc(d) == -1 <==> Abs(h.x) % 2 == 1)
  {
    ParityFlips(h.x);
  }

  /** Moving in a direction and then in the opposite one returns to the start. */
  lemma MoveBack(h: Hex, d: HexDir)
    ensures Move(Move(h, d), Opposite(d)) == h
  {
    ParityFlips(h.x);
    ParityFlips(h.x - 1);
  }

  /** The southward step of `dist` from `c` towards column `tx`. */
  function Southward(c: Hex, tx: int): HexDir
  {
    if c.x == tx then S else if c.x > tx then SW else SE
  }

  function Northward(c: Hex, tx: int): HexDir
  {
    if c.x == tx then N else if c.x > tx then NW else NE
  }

  /**
   * `dist`: walk south (or north) towards the other row, stepping
   * diagonally towards its column while the columns differ, and add the
   * column distance that remains. Each loop iteration is one recursive step.
   */
  function Dist(c: Hex, hex: Hex): (r: nat)
    ensures Max(Abs(hex.x - c.x), Abs(hex.y - c.y)) <= r <= Abs(hex.x - c.x) + Abs(hex.y - c.y)
    decreases Abs(hex.y - c.y), Abs(hex.x - c.x)
  {
    if c.y < hex.y then 1 + Dist(Move(c, Southward(c, hex.x)), hex)
    else if c.y > hex.y then 1 + Dist(Move(c, Northward(c, hex.x)), hex)
    else Abs(hex.x - c.x)
  }

  /** Distance from a cell to itself is zero and to each of its six neighbours one. */
  lemma DistNeighbours(h: Hex, d: HexDir)
    ensures Dist(h, h) == 0
    ensures Dist(h, Move(h, d)) == 1
  {
    var t := Move(h, d);
    ParityFlips(h.x);
    if t.y < h.y {
      var c := Move(h, Northward(h, t.x));
      assert c == t;
    } else if t.y > h.y {
      var c := Move(h, Southward(h, t.x));
      assert c == t;
    }
  }
}
