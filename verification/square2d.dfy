/**
 * Axis-aligned rectangles of integer points (`Square2D`), kept as a
 * `Window2D.Box` from the top-left to the bottom-right corner, both
 * inclusive. `getOverlap` and `subtract` build their results with the four
 * values in the order (xmin, xmax, ymin, ymax), but the constructor reads
 * them as (x1, y1, x2, y2); the `...AsWritten` members keep that order and
 * the others use the one the documentation describes.
 */
module Square2D {
  import opened Wrappers
  import opened Numeric
  import opened Coord2D
  import opened Window2D
  import Coord3D

  /** The constructor `(x1, y1, x2, y2)`: the corners are ordered per axis. */
  function Make(x1: int, y1: int, x2: int, y2: int): (r: Box)
    ensures Ordered(r)
    ensures x1 <= x2 && y1 <= y2 ==> r == Box(Coord(x1, y1), Coord(x2, y2))
  {
    Box(Coord(Min(x1, x2), Min(y1, y2)), Coord(Max(x1, x2), Max(y1, y2)))
  }

  /** `area`: computed from the absolute corner difference. */
  function Area(s: Box): (r: int)
    ensures Ordered(s) ==> r == (s.hi.x - s.lo.x + 1) * (s.hi.y - s.lo.y + 1)
  {
    var d := DiffAbs(s.hi, s.lo);
    (d.x + 1) * (d.y + 1)
  }

  /** The area is the number of points of the rectangle, at least one. */
  lemma AreaCountsPoints(s: Box)
    requires Ordered(s)
    ensures Area(s) == |RowMajor(s)| >= 1
  {
    var w, h := s.hi.x - s.lo.x + 1, s.hi.y - s.lo.y + 1;
    assert w * h >= 1;
  }

  /** `contains` takes a three-dimensional coordinate and ignores its z. */
  function Contains(s: Box, p: Coord3D.Coord3D): (r: bool)
    ensures r <==> InBox(s, Coord(p.x, p.y))
  {
    p.x >= s.lo.x && p.y >= s.lo.y && p.x <= s.hi.x && p.y <= s.hi.y
  }

  function Overlaps(a: Box, b: Box): bool
  {
    if b.hi.x < a.lo.x || b.lo.x > a.hi.x then false
    else if b.hi.y < a.lo.y || b.lo.y > a.hi.y then false
    else true
  }

  /** Two rectangles overlap exactly when they share a point; the test is symmetric. */
  lemma OverlapsMeansSharedPoint(a: Box, b: Box)
    requires Ordered(a) && Ordered(b)
    ensures Overlaps(a, b) == Overlaps(b, a)
    ensures Overlaps(a, b) <==> exists c :: InBox(a, c) && InBox(b, c)
  {
    if Overlaps(a, b) {
      var c := Coord(Max(a.lo.x, b.lo.x), Max(a.lo.y, b.lo.y));
      assert InBox(a, c) && InBox(b, c);
    }
  }

  /** `getOverlap` as written: the intersection bounds reach the constructor in the wrong order. */
  function GetOverlapAsWritten(a: Box, b: Box): (r: Option<Box>)
    ensures r.None? <==> !Overlaps(a, b)
  {
    if !Overlaps(a, b) then None
    else Some(Make(Max(a.lo.x, b.lo.x), Min(a.hi.x, b.hi.x), Max(a.lo.y, b.lo.y), Min(a.hi.y, b.hi.y)))
  }

  /**
   * A rectangle overlapping itself: the as-written overlap of
   * x in [0, 10], y in [100, 110] with itself spans x in [0, 100],
   * y in [10, 110] and contains (50, 50), which neither rectangle does.
   */
  lemma GetOverlapAsWrittenCounterexample()
    ensures Make(0, 100, 10, 110) == Box(Coord(0, 100), Coord(10, 110))
    ensures GetOverlapAsWritten(Make(0, 100, 10, 110), Make(0, 100, 10, 110)) == Some(Box(Coord(0, 10), Coord(100, 110)))
    ensures InBox(GetOverlapAsWritten(Make(0, 100, 10, 110), Make(0, 100, 10, 110)).value, Coord(50, 50))
    ensures !InBox(Make(0, 100, 10, 110), Coord(50, 50))
  {
  }

  /** `getOverlap` as documented: none without overlap, otherwise the intersection. */
  function GetOverlap(a: Box, b: Box): (r: Option<Box>)
    ensures r.None? <==> !Overlaps(a, b)
    ensures r.Some? && Ordered(a) && Ordered(b) ==> forall c :: InBox(r.value, c) <==> InBox(a, c) && InBox(b, c)
  {
    if !Overlaps(a, b) then None
    else Some(Make(Max(a.lo.x, b.lo.x), Max(a.lo.y, b.lo.y), Min(a.hi.x, b.hi.x), Min(a.hi.y, b.hi.y)))
  }

  /**
   * The pieces of `subtract` as written, in the order the source adds them.
   * The source collects them in a HashSet; this sequence does not collapse
   * equal pieces, so it stands for that set only through its elements.
   */
  function SubtractAsWritten(a: Box, b: Box): seq<Box>
  {
    if !Overlaps(a, b) then [a]
    else
      var xmin, xmax := Max(a.lo.x, b.lo.x), Min(a.hi.x, b.hi.x);
      (if a.lo.x < b.lo.x then [Make(a.lo.x, b.lo.x - 1, a.lo.y, a.hi.y)] else [])
      + (if a.hi.x > b.hi.x then [Make(b.hi.x + 1, a.hi.x, a.lo.y, a.hi.y)] else [])
      + (if a.lo.y < b.lo.y then [Make(xmin, xmax, a.lo.y, b.lo.y - 1)] else [])
      + (if a.hi.y > b.hi.y then [Make(xmin, xmax, b.hi.y + 1, a.hi.y)] else [])
  }

  /**
   * Removing x in [5, 20], y in [0, 10] from x in [0, 10], y in [0, 10]
   * should leave x in [0, 4]; as written the only piece is the column
   * x = 0, y in [4, 10], so (1, 0) is lost.
   */
  lemma SubtractAsWrittenCounterexample()
    ensures SubtractAsWritten(Make(0, 0, 10, 10), Make(5, 0, 20, 10)) == [Box(Coord(0, 4), Coord(0, 10))]
    ensures InBox(Make(0, 0, 10, 10), Coord(1, 0)) && !InBox(Make(5, 0, 20, 10), Coord(1, 0))
    ensures forall q :: q in SubtractAsWritten(Make(0, 0, 10, 10), Make(5, 0, 20, 10)) ==> !InBox(q, Coord(1, 0))
  {
    var a, b := Make(0, 0, 10, 10), Make(5, 0, 20, 10);
    assert a == Box(Coord(0, 0), Coord(10, 10)) && b == Box(Coord(5, 0), Coord(20, 10));
    assert Make(0, 4, 0, 10) == Box(Coord(0, 4), Coord(0, 10));
    assert SubtractAsWritten(a, b) == [Make(0, 4, 0, 10)] + [] + [] + [];
  }

  /** The k-th candidate piece of the documented `subtract` (0/1: left/right; 2/3: above/below within the shared x range). */
  function Slot(a: Box, b: Box, k: nat): Option<Box>
  {
    var xmin, xmax := Max(a.lo.x, b.lo.x), Min(a.hi.x, b.hi.x);
    if k == 0 then
      if a.lo.x < b.lo.x then Some(Make(a.lo.x, a.lo.y, b.lo.x - 1, a.hi.y)) else None
    else if k == 1 then
      if a.hi.x > b.hi.x then Some(Make(b.hi.x + 1, a.lo.y, a.hi.x, a.hi.y)) else None
    else if k == 2 then
      if a.lo.y < b.lo.y then Some(Make(xmin, a.lo.y, xmax, b.lo.y - 1)) else None
    else if k == 3 then
      if a.hi.y > b.hi.y then Some(Make(xmin, b.hi.y + 1, xmax, a.hi.y)) else None
    else None
  }

  function Pieces(a: Box, b: Box, k: nat): seq<Box>
    decreases 4 - k
  {
    if k >= 4 then []
    else (if Slot(a, b, k).Some? then [Slot(a, b, k).value] else []) + Pieces(a, b, k + 1)
  }

  /**
   * `subtract` as documented: the rectangle itself without overlap, otherwise
   * the present pieces. For ordered rectangles they are pairwise distinct
   * (`SubtractDisjoint`), so the sequence holds exactly the elements of the
   * source's HashSet.
   */
  function Subtract(a: Box, b: Box): seq<Box>
  {
    if !Overlaps(a, b) then [a] else Pieces(a, b, 0)
  }

  /** Without overlap the as-written and the documented `subtract` both return the rectangle itself. */
  lemma SubtractAgreesWhenDisjoint(a: Box, b: Box)
    requires !Overlaps(a, b)
    ensures SubtractAsWritten(a, b) == Subtract(a, b) == [a]
  {
  }

  /** Where a point lies relative to `b`: 0/1 left/right, 2/3 above/below within its x range, 4 inside. */
  function Region(c: Coord, b: Box): (r: nat)
    ensures r <= 4
    ensures Ordered(b) ==> (r == 4 <==> InBox(b, c))
  {
    if c.x < b.lo.x then 0
    else if c.x > b.hi.x then 1
    else if c.y < b.lo.y then 2
    else if c.y > b.hi.y then 3
    else 4
  }

  lemma SlotRegion(a: Box, b: Box, k: nat, c: Coord)
    requires Ordered(a) && Ordered(b) && Overlaps(a, b)
    requires Slot(a, b, k).Some? && InBox(Slot(a, b, k).value, c)
    ensures k < 4 && Ordered(Slot(a, b, k).value)
    ensures InBox(a, c) && Region(c, b) == k
  {
  }

  lemma SlotCovers(a: Box, b: Box, c: Coord)
    requires Ordered(a) && Ordered(b) && Overlaps(a, b)
    requires InBox(a, c) && !InBox(b, c)
    ensures Region(c, b) < 4
    ensures Slot(a, b, Region(c, b)).Some? && InBox(Slot(a, b, Region(c, b)).value, c)
  {
  }

  lemma {:induction false} PiecesMembers(a: Box, b: Box, k: nat)
    ensures forall q :: q in Pieces(a, b, k) <==> exists j :: k <= j < 4 && Slot(a, b, j) == Some(q)
    decreases 4 - k
  {
    if k < 4 {
      PiecesMembers(a, b, k + 1);
      forall q | q in Pieces(a, b, k)
        ensures exists j :: k <= j < 4 && Slot(a, b, j) == Some(q)
      {
        if Slot(a, b, k) != Some(q) {
          assert q in Pieces(a, b, k + 1);
        }
      }
      forall q, j | k <= j < 4 && Slot(a, b, j) == Some(q)
        ensures q in Pieces(a, b, k)
      {
        if j > k {
          assert q in Pieces(a, b, k + 1);
        }
      }
    }
  }

  /** Every region tag of the pieces is at least `k`, below 4, and the tags strictly increase along the list. */
  predicate TaggedFrom(ps: seq<Box>, b: Box, k: nat)
  {
    (forall i :: 0 <= i < |ps| ==> k <= Region(ps[i].lo, b) < 4) &&
    (forall i, j :: 0 <= i < j < |ps| ==> Region(ps[i].lo, b) < Region(ps[j].lo, b))
  }

  /** Pieces are listed by strictly increasing region of their minimum corner. */
  lemma {:induction false} PiecesTagged(a: Box, b: Box, k: nat)
    requires Ordered(a) && Ordered(b) && Overlaps(a, b)
    ensures TaggedFrom(Pieces(a, b, k), b, k)
    decreases 4 - k
  {
    if k < 4 {
      PiecesTagged(a, b, k + 1);
      if Slot(a, b, k).Some? {
        SlotRegion(a, b, k, Slot(a, b, k).value.lo);
      }
      TaggedStep(Pieces(a, b, k), Slot(a, b, k), Pieces(a, b, k + 1), b, k);
    }
  }

  lemma TaggedStep(ps: seq<Box>, s: Option<Box>, rest: seq<Box>, b: Box, k: nat)
    requires ps == (if s.Some? then [s.value] else []) + rest
    requires TaggedFrom(rest, b, k + 1) && k < 4
    requires s.Some? ==> Region(s.value.lo, b) == k
    ensures TaggedFrom(ps, b, k)
  {
    if s.Some? {
      ConsTagged(s.value, rest, b, k);
    } else {
      assert ps == rest;
    }
  }

  lemma ConsTagged(q: Box, rest: seq<Box>, b: Box, k: nat)
    requires TaggedFrom(rest, b, k + 1) && Region(q.lo, b) == k < 4
    ensures TaggedFrom([q] + rest, b, k)
  {
    var ps := [q] + rest;
    forall i | 0 <= i < |ps| ensures k <= Region(ps[i].lo, b) < 4 {
      if i > 0 {
        assert ps[i] == rest[i - 1];
      }
    }
    forall i, j | 0 <= i < j < |ps| ensures Region(ps[i].lo, b) < Region(ps[j].lo, b) {
      assert ps[j] == rest[j - 1];
      if i > 0 {
        assert ps[i] == rest[i - 1];
      }
    }
  }

  /** Each piece is a well-formed part of `a` that avoids `b`. */
  lemma SubtractInside(a: Box, b: Box, q: Box, c: Coord)
    requires Ordered(a) && Ordered(b)
    requires q in Subtract(a, b) && InBox(q, c)
    ensures Ordered(q) && InBox(a, c) && !InBox(b, c)
  {
    if Overlaps(a, b) {
      PiecesMembers(a, b, 0);
      var k :| 0 <= k < 4 && Slot(a, b, k) == Some(q);
      SlotRegion(a, b, k, c);
    } else {
      OverlapsMeansSharedPoint(a, b);
    }
  }

  /** Every point of `a` outside `b` lies in some piece. */
  lemma SubtractCovers(a: Box, b: Box, c: Coord)
    requires Ordered(a) && Ordered(b)
    requires InBox(a, c) && !InBox(b, c)
    ensures exists q :: q in Subtract(a, b) && InBox(q, c)
  {
    if Overlaps(a, b) {
      SlotCovers(a, b, c);
      PiecesMembers(a, b, 0);
      var q := Slot(a, b, Region(c, b)).value;
      assert q in Subtract(a, b);
    } else {
      assert a in Subtract(a, b);
    }
  }

  /** No point lies in two different pieces, and the pieces are pairwise distinct. */
  lemma SubtractDisjoint(a: Box, b: Box, i: int, j: int, c: Coord)
    requires Ordered(a) && Ordered(b)
    requires 0 <= i < j < |Subtract(a, b)|
    ensures Subtract(a, b)[i] != Subtract(a, b)[j]
    ensures InBox(Subtract(a, b)[i], c) ==> !InBox(Subtract(a, b)[j], c)
  {
    var r := Subtract(a, b);
    assert Overlaps(a, b);
    assert r == Pieces(a, b, 0);
    PiecesTagged(a, b, 0);
    PieceRegion(a, b, r[i], c);
    PieceRegion(a, b, r[j], c);
  }

  /** Every point of a piece lies in the region of `b` that the piece's minimum corner lies in. */
  lemma PieceRegion(a: Box, b: Box, q: Box, c: Coord)
    requires Ordered(a) && Ordered(b) && Overlaps(a, b)
    requires q in Pieces(a, b, 0)
    ensures InBox(q, c) ==> Region(c, b) == Region(q.lo, b)
  {
    PiecesMembers(a, b, 0);
    var k :| 0 <= k < 4 && Slot(a, b, k) == Some(q);
    SlotRegion(a, b, k, q.lo);
    if InBox(q, c) {
      SlotRegion(a, b, k, c);
    }
  }


  function SumAreas(ss: seq<Box>): int
  {
    if ss == [] then 0 else Area(ss[0]) + SumAreas(ss[1..])
  }

  function SlotArea(a: Box, b: Box, k: nat): int
  {
    if Slot(a, b, k).Some? then Area(Slot(a, b, k).value) else 0
  }

  lemma PiecesArea(a: Box, b: Box, k: nat)
    requires k < 4
    ensures SumAreas(Pieces(a, b, k)) == SlotArea(a, b, k) + SumAreas(Pieces(a, b, k + 1))
  {
    var rest := Pieces(a, b, k + 1);
    if Slot(a, b, k).Some? {
      assert Pieces(a, b, k) == [Slot(a, b, k).value] + rest;
      assert Pieces(a, b, k)[1..] == rest;
    } else {
      assert Pieces(a, b, k) == rest;
    }
  }

  function SlotSum(a: Box, b: Box, k: nat): int
    decreases 4 - k
  {
    if k >= 4 then 0 else SlotArea(a, b, k) + SlotSum(a, b, k + 1)
  }

  lemma {:induction false} PiecesSum(a: Box, b: Box, k: nat)
    ensures SumAreas(Pieces(a, b, k)) == SlotSum(a, b, k)
    decreases 4 - k
  {
    if k < 4 {
      PiecesArea(a, b, k);
      PiecesSum(a, b, k + 1);
    }
  }

  lemma SumOfSlots(a: Box, b: Box)
    ensures SumAreas(Pieces(a, b, 0)) == SlotArea(a, b, 0) + SlotArea(a, b, 1) + SlotArea(a, b, 2) + SlotArea(a, b, 3)
  {
    PiecesSum(a, b, 0);
    assert SlotSum(a, b, 2) == SlotArea(a, b, 2) + SlotArea(a, b, 3);
  }

  /** With `l = d0 + o + d1` on both axes, the strips add up to the whole minus the core. */
  lemma StripAlgebra(lx: int, ly: int, ox: int, oy: int, dx0: int, dx1: int, dy0: int, dy1: int)
    requires lx == dx0 + ox + dx1 && ly == dy0 + oy + dy1
    ensures dx0 * ly + dx1 * ly + ox * dy0 + ox * dy1 == lx * ly - ox * oy
  {
    assert dx0 * ly + dx1 * ly == (lx - ox) * ly;
    assert ox * dy0 + ox * dy1 == ox * (ly - oy);
  }

  lemma SlotAreasX(a: Box, b: Box)
    requires Ordered(a) && Ordered(b) && Overlaps(a, b)
    ensures SlotArea(a, b, 0) == Below(a.lo.x, b.lo.x) * (a.hi.y - a.lo.y + 1)
    ensures SlotArea(a, b, 1) == Above(a.hi.x, b.hi.x) * (a.hi.y - a.lo.y + 1)
  {
    if Slot(a, b, 0).Some? {
      assert Slot(a, b, 0).value == Box(Coord(a.lo.x, a.lo.y), Coord(b.lo.x - 1, a.hi.y));
    }
    if Slot(a, b, 1).Some? {
      assert Slot(a, b, 1).value == Box(Coord(b.hi.x + 1, a.lo.y), Coord(a.hi.x, a.hi.y));
    }
  }

  lemma SlotAreasY(a: Box, b: Box)
    requires Ordered(a) && Ordered(b) && Overlaps(a, b)
    ensures SlotArea(a, b, 2) == Shared(a.lo.x, a.hi.x, b.lo.x, b.hi.x) * Below(a.lo.y, b.lo.y)
    ensures SlotArea(a, b, 3) == Shared(a.lo.x, a.hi.x, b.lo.x, b.hi.x) * Above(a.hi.y, b.hi.y)
  {
    var xmin, xmax := Max(a.lo.x, b.lo.x), Min(a.hi.x, b.hi.x);
    if Slot(a, b, 2).Some? {
      assert Slot(a, b, 2).value == Box(Coord(xmin, a.lo.y), Coord(xmax, b.lo.y - 1));
    }
    if Slot(a, b, 3).Some? {
      assert Slot(a, b, 3).value == Box(Coord(xmin, b.hi.y + 1), Coord(xmax, a.hi.y));
    }
  }

  lemma OverlapArea(a: Box, b: Box)
    requires Ordered(a) && Ordered(b) && Overlaps(a, b)
    ensures Area(GetOverlap(a, b).value) == Shared(a.lo.x, a.hi.x, b.lo.x, b.hi.x) * Shared(a.lo.y, a.hi.y, b.lo.y, b.hi.y)
  {
    assert GetOverlap(a, b).value ==
      Box(Coord(Max(a.lo.x, b.lo.x), Max(a.lo.y, b.lo.y)), Coord(Min(a.hi.x, b.hi.x), Min(a.hi.y, b.hi.y)));
  }

  /** The piece areas add up to the area of `a` minus the area of its overlap with `b`. */
  lemma SubtractArea(a: Box, b: Box)
    requires Ordered(a) && Ordered(b)
    ensures GetOverlap(a, b).Some? ==> SumAreas(Subtract(a, b)) == Area(a) - Area(GetOverlap(a, b).value)
    ensures GetOverlap(a, b).None? ==> SumAreas(Subtract(a, b)) == Area(a)
  {
    if Overlaps(a, b) {
      OverlapSubtractArea(a, b);
    } else {
      assert Subtract(a, b)[1..] == [];
    }
  }

  lemma OverlapSubtractArea(a: Box, b: Box)
    requires Ordered(a) && Ordered(b) && Overlaps(a, b)
    ensures GetOverlap(a, b).Some? && SumAreas(Subtract(a, b)) == Area(a) - Area(GetOverlap(a, b).value)
  {
    SumOfSlots(a, b);
    SlotAreasX(a, b);
    SlotAreasY(a, b);
    var ox, oy := Shared(a.lo.x, a.hi.x, b.lo.x, b.hi.x), Shared(a.lo.y, a.hi.y, b.lo.y, b.hi.y);
    OverlapArea(a, b);
    AxisSplit(a.lo.x, a.hi.x, b.lo.x, b.hi.x);
    AxisSplit(a.lo.y, a.hi.y, b.lo.y, b.hi.y);
    StripAlgebra(a.hi.x - a.lo.x + 1, a.hi.y - a.lo.y + 1, ox, oy,
                 Below(a.lo.x, b.lo.x), Above(a.hi.x, b.hi.x), Below(a.lo.y, b.lo.y), Above(a.hi.y, b.hi.y));
  }

  /**
   * The iterator: every point once, in row-major order from the top-left to
   * the bottom-right corner, `area()` points in total.
   */
  method Iterate(s: Box) returns (cs: seq<Coord>)
    requires Ordered(s)
    ensures cs == RowMajor(s)
    ensures |cs| == Area(s)
    ensures forall c :: c in cs <==> InBox(s, c)
  {
    cs := IterateBox(s);
    AreaCountsPoints(s);
  }

  /** `equals`: another rectangle with the same corners. */
  function Equals(s: Box, obj: Option<Box>): (r: bool)
    ensures r <==> obj == Some(s)
  {
    match obj
    case None => false
    case Some(t) => s.lo == t.lo && s.hi == t.hi
  }
}
