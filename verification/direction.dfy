/**
 * The four compass directions (`Direction`), in the declaration order North,
 * East, South, West that the ordinal arithmetic relies on.
 */
module Direction {
  import opened Wrappers
  import opened Numeric
  import Coord2D

  datatype Direction = North | East | South | West

  /** The enum's `values()` array. */
  const Values: seq<Direction> := [North, East, South, West]

  function Ordinal(d: Direction): (r: nat)
    ensures r < 4 && Values[r] == d
  {
    match d
    case North => 0
    case East => 1
    case South => 2
    case West => 3
  }

  /** `getRotation`: 90 degrees per ordinal, clockwise from north. */
  function Rotation(d: Direction): (r: int)
    ensures Coord2D.IsMajorAngle(r)
    ensures r == 90 * Ordinal(d)
  {
    Ordinal(d) * 90
  }

  /** The rotation is the angle `Coord2D.moveDir` accepts for the same compass point. */
  lemma RotationMovesThatWay(d: Direction, c: Coord2D.Coord)
    ensures Coord2D.MoveDir(c, Rotation(d), 1) == Ok(match d
      case North => Coord2D.Coord(c.x, c.y - 1)
      case East => Coord2D.Coord(c.x + 1, c.y)
      case South => Coord2D.Coord(c.x, c.y + 1)
      case West => Coord2D.Coord(c.x - 1, c.y))
  {
    TruncatingAgreesOnNatural(Rotation(d), 360);
  }

  /**
   * Java's `toUpperCase` on a one-character string, for the characters whose
   * upper case can start a direction name: the ASCII letters, and the long s
   * U+017F, which upper-cases to 'S'. Any other character keeps no match.
   */
  function UpperCase(c: char): char
  {
    if 'a' <= c <= 'z' then (c as int - 32) as char
    else if c == 'ſ' then 'S'
    else c
  }

  /** The first letter of each direction's name. */
  function Initial(d: Direction): char
  {
    match d
    case North => 'N'
    case East => 'E'
    case South => 'S'
    case West => 'W'
  }

  /** `fromLetter`: the first direction whose initial equals the upper-cased letter. */
  function FromLetter(letter: char): (r: Result<Direction>)
    ensures r.Ok? <==> exists d: Direction :: Initial(d) == UpperCase(letter)
    ensures r.Ok? ==> Initial(r.value) == UpperCase(letter)
    ensures r.Err? ==> r.error == IllegalArgument
  {
    FindInitial(Values, UpperCase(letter))
  }

  function FindInitial(ds: seq<Direction>, c: char): (r: Result<Direction>)
    ensures r.Ok? ==> r.value in ds && Initial(r.value) == c
    ensures r.Err? ==> r.error == IllegalArgument && forall d :: d in ds ==> Initial(d) != c
  {
    if ds == [] then Err(IllegalArgument)
    else if Initial(ds[0]) == c then Ok(ds[0])
    else FindInitial(ds[1..], c)
  }

  /** Exactly the letters n, e, s, w in either case (and the long s) are accepted, and each gives back its direction. */
  lemma FromLetterRoundTrip(d: Direction, letter: char)
    ensures FromLetter(Initial(d)) == Ok(d)
    ensures FromLetter((Initial(d) as int + 32) as char) == Ok(d)
    ensures FromLetter(letter).Ok? <==> letter in "NESWneswſ"
  {
    FromInitial(d);
    FromLetterAccepts(letter);
  }

  lemma FromInitial(d: Direction)
    ensures FromLetter(Initial(d)) == Ok(d)
    ensures FromLetter((Initial(d) as int + 32) as char) == Ok(d)
  {
    match d {
      case North =>
      case East =>
      case South =>
      case West =>
    }
  }

  lemma FromLetterAccepts(letter: char)
    ensures FromLetter(letter).Ok? <==> letter in "NESWneswſ"
  {
    var u := UpperCase(letter);
    if u == 'N' {
      assert Initial(North) == u;
    } else if u == 'E' {
      assert Initial(East) == u;
    } else if u == 'S' {
      assert Initial(South) == u;
    } else if u == 'W' {
      assert Initial(West) == u;
    } else {
      assert forall e: Direction :: Initial(e) != u;
    }
    assert u in "NESW" <==> letter in "NESWneswſ";
  }

  /**
   * `turn(r)`: the direction at index `(ordinal + r) % 4` with Java's `%`;
   * a negative index (ordinal + r negative and not a multiple of four) is out
   * of bounds.
   */
  function Turn(d: Direction, r: int): (res: Result<Direction>)
    ensures res.Err? <==> Ordinal(d) + r < 0 && (Ordinal(d) + r) % 4 != 0
    ensures res.Err? ==> res.error == IndexOutOfBounds
    ensures res.Ok? ==> Ordinal(res.value) == (Ordinal(d) + r) % 4
  {
    TRemMagnitude(Ordinal(d) + r, 4);
    var i := TRem(Ordinal(d) + r, 4);
    if i < 0 then Err(IndexOutOfBounds) else Ok(Values[i])
  }

  /** Turning by a non-negative amount adds that many quarter turns to the rotation. */
  lemma TurnRotates(d: Direction, r: nat)
    ensures Turn(d, r).Ok?
    ensures Rotation(Turn(d, r).value) == (Rotation(d) + 90 * r) % 360
  {
    QuarterTurns(Ordinal(d) + r);
  }

  lemma QuarterTurns(n: nat)
    ensures (90 * n) % 360 == 90 * (n % 4)
  {
    var q, m := n / 4, n % 4;
    assert 90 * n == 360 * q + 90 * m;
  }

  /**
   * Four quarter turns, or one turn of four, give the starting direction
   * back; a turn of minus four only works from North.
   */
  lemma TurnFour(d: Direction)
    ensures Turn(d, 4) == Ok(d)
    ensures Turn(Turn(Turn(Turn(d, 1).value, 1).value, 1).value, 1) == Ok(d)
    ensures Turn(d, -4).Ok? <==> d == North
  {
    TurnByFour(d);
    var e := QuarterTurn(d);
    var f := QuarterTurn(e);
    var g := QuarterTurn(f);
    var h := QuarterTurn(g);
    OrdinalOfValue(Ordinal(d));
    TurnBackByFour(d);
  }

  lemma TurnByFour(d: Direction)
    ensures Turn(d, 4) == Ok(d)
  {
    match d {
      case North => assert TRem(4, 4) == 0;
      case East => assert TRem(5, 4) == 1;
      case South => assert TRem(6, 4) == 2;
      case West => assert TRem(7, 4) == 3;
    }
  }

  lemma TurnBackByFour(d: Direction)
    ensures Turn(d, -4).Ok? <==> d == North
  {
    match d {
      case North => assert TRem(-4, 4) == 0;
      case East => assert TRem(-3, 4) == -3;
      case South => assert TRem(-2, 4) == -2;
      case West => assert TRem(-1, 4) == -1;
    }
  }

  /** A turn that does not go below index zero picks the direction at the index modulo four. */
  lemma TurnForward(d: Direction, r: int)
    requires Ordinal(d) + r >= 0
    ensures Turn(d, r) == Ok(Values[(Ordinal(d) + r) % 4])
  {
    TruncatingAgreesOnNatural(Ordinal(d) + r, 4);
  }

  /** One quarter turn, with the ordinal it lands on. */
  lemma QuarterTurn(d: Direction) returns (e: Direction)
    ensures Turn(d, 1) == Ok(e) && Ordinal(e) == if Ordinal(d) == 3 then 0 else Ordinal(d) + 1
  {
    TurnForward(d, 1);
    e := Values[(Ordinal(d) + 1) % 4];
    OrdinalOfValue((Ordinal(d) + 1) % 4);
  }

  lemma OrdinalOfValue(i: int)
    requires 0 <= i < 4
    ensures Ordinal(Values[i]) == i
  {
  }

  /** Turns compose while the amounts are non-negative. */
  lemma TurnCompose(d: Direction, r1: nat, r2: nat)
    ensures Turn(d, r1).Ok?
    ensures Turn(Turn(d, r1).value, r2) == Turn(d, r1 + r2)
  {
  }

  /**
   * A negative turn count leaves a negative Java remainder for North, which
   * indexes `values()` at −1 and throws ArrayIndexOutOfBoundsException.
   */
  lemma TurnNegativeFails()
    ensures Turn(North, -1) == Err(IndexOutOfBounds)
    ensures Turn(West, -1) == Ok(South)
  {
  }
}
