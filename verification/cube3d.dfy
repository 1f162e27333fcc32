/**
 * Axis-aligned cuboids of integer points (`Cube3D`): a minimum and a maximum
 * corner, both inclusive. Subtracting one cuboid from another cuts the first
 * into at most six pieces: the slabs left and right of the other cuboid in
 * x, then, within the shared x range, the slabs before and after it in y,
 * then, within the shared x and y ranges, the slabs below and above it in z.
 */
module Cube3D {
  import opened Wrappers
  import opened Numeric
  import Coord3D

  type Point = Coord3D.Coord3D

  datatype Cube = Cube(lo: Point, hi: Point)

  /** Every cuboid the constructor builds has its corners ordered per axis. */
  predicate Valid(c: Cube)
  {
    c.lo.x <= c.hi.x && c.lo.y <= c.hi.y && c.lo.z <= c.hi.z
  }

  predicate Contains(c: Cube, p: Point)
  {
    c.lo.x <= p.x <= c.hi.x && c.lo.y <= p.y <= c.hi.y && c.lo.z <= p.z <= c.hi.z
  }

  /** The six-value constructor: each axis pair may be given in either order. */
  function Make(x1: int, x2: int, y1: int, y2: int, z1: int, z2: int): (r: Cube)
    ensures Valid(r)
    ensures x1 <= x2 && y1 <= y2 && z1 <= z2 ==>
              r == Cube(Coord3D.Coord3D(x1, y1, z1), Coord3D.Coord3D(x2, y2, z2))
  {
    Cube(Coord3D.Coord3D(Min(x1, x2), Min(y1, y2), Min(z1, z2)),
         Coord3D.Coord3D(Max(x1, x2), Max(y1, y2), Max(z1, z2)))
  }

  /** The order of the two values of an axis does not matter. */
  lemma MakeSymmetric(x1: int, x2: int, y1: int, y2: int, z1: int, z2: int)
    ensures Make(x1, x2, y1, y2, z1, z2) == Make(x2, x1, y2, y1, z2, z1)
    ensures forall p :: Contains(Make(x1, x2, y1, y2, z1, z2), p) <==>
              Min(x1, x2) <= p.x <= Max(x1, x2) && Min(y1, y2) <= p.y <= Max(y1, y2) && Min(z1, z2) <= p.z <= Max(z1, z2)
  {
  }

  /** The radius constructor: `[-radius, radius]` on every axis. */
  function Around(radius: int): (r: Cube)
    ensures Valid(r)
    ensures forall p :: Contains(r, p) <==> Abs(p.x) <= Abs(radius) && Abs(p.y) <= Abs(radius) && Abs(p.z) <= Abs(radius)
  {
    Make(-radius, radius, -radius, radius, -radius, radius)
  }

  /** `overlaps`: fails as soon as one axis has disjoint intervals. */
  function Overlaps(a: Cube, b: Cube): bool
  {
    if b.hi.x < a.lo.x || b.lo.x > a.hi.x then false
    else if b.hi.y < a.lo.y || b.lo.y > a.hi.y then false
    else if b.hi.z < a.lo.z || b.lo.z > a.hi.z then false
    else true
  }

  /** Two cuboids overlap exactly when they share a point; the test is symmetric. */
  lemma OverlapsMeansSharedPoint(a: Cube, b: Cube)
    requires Valid(a) && Valid(b)
    ensures Overlaps(a, b) == Overlaps(b, a)
    ensures Overlaps(a, b) <==> exists p :: Contains(a, p) && Contains(b, p)
  {
    if Overlaps(a, b) {
      var p := Coord3D.Coord3D(Max(a.lo.x, b.lo.x), Max(a.lo.y, b.lo.y), Max(a.lo.z, b.lo.z));
      assert Contains(a, p) && Contains(b, p);
    }
  }

  /** `getOverlap`: none without overlap, otherwise the per-axis intersection. */
  function GetOverlap(a: Cube, b: Cube): (r: Option<Cube>)
    ensures r.None? <==> !Overlaps(a, b)
    ensures r.Some? ==> Valid(r.value)
    ensures r.Some? && Valid(a) && Valid(b) ==>
              r.value == Cube(Coord3D.Coord3D(Max(a.lo.x, b.lo.x), Max(a.lo.y, b.lo.y), Max(a.lo.z, b.lo.z)),
                              Coord3D.Coord3D(Min(a.hi.x, b.hi.x), Min(a.hi.y, b.hi.y), Min(a.hi.z, b.hi.z)))
    ensures r.Some? && Valid(a) && Valid(b) ==> forall p :: Contains(r.value, p) <==> Contains(a, p) && Contains(b, p)
  {
    if !Overlaps(a, b) then None
    else Some(Make(Max(a.lo.x, b.lo.x), Min(a.hi.x, b.hi.x),
                   Max(a.lo.y, b.lo.y), Min(a.hi.y, b.hi.y),
                   Max(a.lo.z, b.lo.z), Min(a.hi.z, b.hi.z)))
  }

  /**
   * The k-th candidate piece of `subtract`, in the order the source adds
   * them (0/1: left/right in x; 2/3: before/after in y within the shared x
   * range; 4/5: below/above in z within the shared x and y ranges); none
   * when that side of `a` does not stick out of `b`.
   */
  function Slot(a: Cube, b: Cube, k: nat): Option<Cube>
  {
    var xmin, xmax := Max(a.lo.x, b.lo.x), Min(a.hi.x, b.hi.x);
    var ymin, ymax := Max(a.lo.y, b.lo.y), Min(a.hi.y, b.hi.y);
    if k == 0 then
      if a.lo.x < b.lo.x then Some(Make(a.lo.x, b.lo.x - 1, a.lo.y, a.hi.y, a.lo.z, a.hi.z)) else None
    else if k == 1 then
      if a.hi.x > b.hi.x then Some(Make(b.hi.x + 1, a.hi.x, a.lo.y, a.hi.y, a.lo.z, a.hi.z)) else None
    else if k == 2 then
      if a.lo.y < b.lo.y then Some(Make(xmin, xmax, a.lo.y, b.lo.y - 1, a.lo.z, a.hi.z)) else None
    else if k == 3 then
      if a.hi.y > b.hi.y then Some(Make(xmin, xmax, b.hi.y + 1, a.hi.y, a.lo.z, a.hi.z)) else None
    else if k == 4 then
      if a.lo.z < b.lo.z then Some(Make(xmin, xmax, ymin, ymax, a.lo.z, b.lo.z - 1)) else None
    else if k == 5 then
      if a.hi.z > b.hi.z then Some(Make(xmin, xmax, ymin, ymax, b.hi.z + 1, a.hi.z)) else None
    else None
  }

  /** The present pieces among slots k..5, in slot order. */
  function Pieces(a: Cube, b: Cube, k: nat): seq<Cube>
    decreases 6 - k
  {
    if k >= 6 then []
    else (if Slot(a, b, k).Some? then [Slot(a, b, k).value] else []) + Pieces(a, b, k + 1)
  }

  /**
   * `subtract`: the cuboid itself when the two do not overlap, otherwise the
   * present pieces. The source collects them in a hash set; they are
   * pairwise distinct (`SubtractDisjoint`), so the set holds all of them.
   */
  function Subtract(a: Cube, b: Cube): seq<Cube>
  {
    if !Overlaps(a, b) then [a] else Pieces(a, b, 0)
  }

  /**
   * Where a point lies relative to `b`: 0/1 left/right of it in x, 2/3
   * before/after it in y (inside its x range), 4/5 below/above it in z
   * (inside its x and y ranges), 6 inside it.
   */
  function Region(p: Point, b: Cube): (r: nat)
    ensures r <= 6
    ensures Valid(b) ==> (r == 6 <==> Contains(b, p))
  {
    if p.x < b.lo.x then 0
    else if p.x > b.hi.x then 1
    else if p.y < b.lo.y then 2
    else if p.y > b.hi.y then 3
    else if p.z < b.lo.z then 4
    else if p.z > b.hi.z then 5
    else 6
  }

  /** A point of the k-th piece lies in `a` and in region k of `b`. */
  lemma SlotRegion(a: Cube, b: Cube, k: nat, p: Point)
    requires Valid(a) && Valid(b) && Overlaps(a, b)
    requires Slot(a, b, k).Some? && Contains(Slot(a, b, k).value, p)
    ensures k < 6 && Valid(Slot(a, b, k).value)
    ensures Contains(a, p) && Region(p, b) == k
  {
    if k == 0 {
    } else if k == 1 {
    } else if k == 2 {
    } else if k == 3 {
    } else if k == 4 {
    } else {
    }
  }

  /** A point of `a` outside `b` lies in the piece named by its region. */
  lemma SlotCovers(a: Cube, b: Cube, p: Point)
    requires Valid(a) && Valid(b) && Overlaps(a, b)
    requires Contains(a, p) && !Contains(b, p)
    ensures Region(p, b) < 6
    ensures Slot(a, b, Region(p, b)).Some? && Contains(Slot(a, b, Region(p, b)).value, p)
  {
  }

  lemma {:induction false} PiecesMembers(a: Cube, b: Cube, k: nat)
    ensures forall q :: q in Pieces(a, b, k) <==> exists j :: k <= j < 6 && Slot(a, b, j) == Some(q)
    decreases 6 - k
  {
    if k < 6 {
      PiecesMembers(a, b, k + 1);
      forall q | q in Pieces(a, b, k)
        ensures exists j :: k <= j < 6 && Slot(a, b, j) == Some(q)
      {
        if Slot(a, b, k) != Some(q) {
          assert q in Pieces(a, b, k + 1);
        }
      }
      forall q, j | k <= j < 6 && Slot(a, b, j) == Some(q)
        ensures q in Pieces(a, b, k)
      {
        if j > k {
          assert q in Pieces(a, b, k + 1);
        }
      }
    }
  }

  /** Every region tag of the pieces is at least `k`, below 6, and the tags strictly increase along the list. */
  predicate TaggedFrom(ps: seq<Cube>, b: Cube, k: nat)
  {
    (forall i :: 0 <= i < |ps| ==> k <= Region(ps[i].lo, b) < 6) &&
    (forall i, j :: 0 <= i < j < |ps| ==> Region(ps[i].lo, b) < Region(ps[j].lo, b))
  }

  /** Pieces are listed by strictly increasing region of their minimum corner. */
  lemma {:induction false} PiecesTagged(a: Cube, b: Cube, k: nat)
    requires Valid(a) && Valid(b) && Overlaps(a, b)
    ensures TaggedFrom(Pieces(a, b, k), b, k)
    decreases 6 - k
  {
    if k < 6 {
      PiecesTagged(a, b, k + 1);
      if Slot(a, b, k).Some? {
        SlotRegion(a, b, k, Slot(a, b, k).value.lo);
      }
      TaggedStep(Pieces(a, b, k), Slot(a, b, k), Pieces(a, b, k + 1), b, k);
    }
  }

  lemma TaggedStep(ps: seq<Cube>, s: Option<Cube>, rest: seq<Cube>, b: Cube, k: nat)
    requires ps == (if s.Some? then [s.value] else []) + rest
    requires TaggedFrom(rest, b, k + 1) && k < 6
    requires s.Some? ==> Region(s.value.lo, b) == k
    ensures TaggedFrom(ps, b, k)
  {
    if s.Some? {
      ConsTagged(s.value, rest, b, k);
    } else {
      assert ps == rest;
    }
  }

  lemma ConsTagged(q: Cube, rest: seq<Cube>, b: Cube, k: nat)
    requires TaggedFrom(rest, b, k + 1) && Region(q.lo, b) == k < 6
    ensures TaggedFrom([q] + rest, b, k)
  {
    var ps := [q] + rest;
    forall i | 0 <= i < |ps| ensures k <= Region(ps[i].lo, b) < 6 {
      if i > 0 {
        assert ps[i] == rest[i - 1];
      }
    }
    forall i, j | 0 <= i < j < |ps| ensures Region(ps[i].lo, b) < Region(ps[j].lo, b) {
      assert ps[j] == rest[j - 1];
      if i > 0 {
        assert ps[i] == rest[i - 1];
      }
    }
  }

  /** Each piece is a well-formed part of `a` that avoids `b`. */
  lemma SubtractInside(a: Cube, b: Cube, q: Cube, p: Point)
    requires Valid(a) && Valid(b)
    requires q in Subtract(a, b) && Contains(q, p)
    ensures Valid(q) && Contains(a, p) && !Contains(b, p)
  {
    if Overlaps(a, b) {
      PiecesMembers(a, b, 0);
      var k :| 0 <= k < 6 && Slot(a, b, k) == Some(q);
      SlotRegion(a, b, k, p);
    } else {
      OverlapsMeansSharedPoint(a, b);
    }
  }

  /** Every point of `a` outside `b` lies in some piece. */
  lemma SubtractCovers(a: Cube, b: Cube, p: Point)
    requires Valid(a) && Valid(b)
    requires Contains(a, p) && !Contains(b, p)
    ensures exists q :: q in Subtract(a, b) && Contains(q, p)
  {
    if Overlaps(a, b) {
      SlotCovers(a, b, p);
      PiecesMembers(a, b, 0);
      var q := Slot(a, b, Region(p, b)).value;
      assert q in Subtract(a, b);
    } else {
      assert a in Subtract(a, b);
    }
  }

  /**
   * No point lies in two different pieces, and no two pieces share their
   * minimum corner, which is all that the source's `equals` compares.
   */
  lemma SubtractDisjoint(a: Cube, b: Cube, i: int, j: int, p: Point)
    requires Valid(a) && Valid(b)
    requires 0 <= i < j < |Subtract(a, b)|
    ensures Subtract(a, b)[i].lo != Subtract(a, b)[j].lo
    ensures Contains(Subtract(a, b)[i], p) ==> !Contains(Subtract(a, b)[j], p)
  {
    var r := Subtract(a, b);
    assert Overlaps(a, b);
    assert r == Pieces(a, b, 0);
    PiecesTagged(a, b, 0);
    PieceRegion(a, b, r[i], p);
    PieceRegion(a, b, r[j], p);
  }

  /** Every point of a piece lies in the region of `b` that the piece's minimum corner lies in. */
  lemma PieceRegion(a: Cube, b: Cube, q: Cube, p: Point)
    requires Valid(a) && Valid(b) && Overlaps(a, b)
    requires q in Pieces(a, b, 0)
    ensures Contains(q, p) ==> Region(p, b) == Region(q.lo, b)
  {
    PiecesMembers(a, b, 0);
    var k :| 0 <= k < 6 && Slot(a, b, k) == Some(q);
    SlotRegion(a, b, k, q.lo);
    if Contains(q, p) {
      SlotRegion(a, b, k, p);
    }
  }


  /** `size`: the number of points along each axis. */
  function Size(c: Cube): (r: Point)
    ensures Valid(c) <==> r.x >= 1 && r.y >= 1 && r.z >= 1
    ensures Coord3D.Add(c.lo, r) == Coord3D.Move(c.hi, 1, 1, 1)
  {
    Coord3D.Coord3D(c.hi.x - c.lo.x + 1, c.hi.y - c.lo.y + 1, c.hi.z - c.lo.z + 1)
  }

  /** `volume`: the product of the sizes. */
  function Volume(c: Cube): (r: int)
    ensures Valid(c) ==> r >= 1
  {
    var s := Size(c);
    if Valid(c) then PositiveProduct(s.x, s.y, s.z); s.x * s.y * s.z
    else s.x * s.y * s.z
  }

  lemma PositiveProduct(x: int, y: int, z: int)
    requires x >= 1 && y >= 1 && z >= 1
    ensures x * y * z >= 1
  {
    assert x * y >= 1;
  }

  function SumVolumes(cs: seq<Cube>): int
  {
    if cs == [] then 0 else Volume(cs[0]) + SumVolumes(cs[1..])
  }

  /** The volume of a slot, zero when the slot is empty. */
  function SlotVolume(a: Cube, b: Cube, k: nat): int
  {
    if Slot(a, b, k).Some? then Volume(Slot(a, b, k).value) else 0
  }

  lemma SlotValid(a: Cube, b: Cube, k: nat)
    requires Slot(a, b, k).Some?
    ensures Valid(Slot(a, b, k).value)
  {
  }

  lemma PiecesVolume(a: Cube, b: Cube, k: nat)
    requires k < 6
    ensures SumVolumes(Pieces(a, b, k)) == SlotVolume(a, b, k) + SumVolumes(Pieces(a, b, k + 1))
  {
    var rest := Pieces(a, b, k + 1);
    if Slot(a, b, k).Some? {
      assert Pieces(a, b, k) == [Slot(a, b, k).value] + rest;
      assert Pieces(a, b, k)[1..] == rest;
    } else {
      assert Pieces(a, b, k) == rest;
    }
  }

  lemma {:induction false} PiecesValid(a: Cube, b: Cube, k: nat)
    ensures forall i :: 0 <= i < |Pieces(a, b, k)| ==> Valid(Pieces(a, b, k)[i])
    decreases 6 - k
  {
    if k < 6 {
      PiecesValid(a, b, k + 1);
      if Slot(a, b, k).Some? {
        SlotValid(a, b, k);
      }
    }
  }

  /**
   * The algebra behind the volume of `subtract`: with `l = d0 + o + d1` on
   * every axis, the slabs add up to the whole minus the core.
   */
  lemma SlabAlgebra(lx: int, ly: int, lz: int, ox: int, oy: int, oz: int,
                    dx0: int, dx1: int, dy0: int, dy1: int, dz0: int, dz1: int)
    requires lx == dx0 + ox + dx1 && ly == dy0 + oy + dy1 && lz == dz0 + oz + dz1
    ensures dx0 * ly * lz + dx1 * ly * lz + ox * dy0 * lz + ox * dy1 * lz + ox * oy * dz0 + ox * oy * dz1
            == lx * ly * lz - ox * oy * oz
  {
    var ylz, zoxoy := ly * lz, ox * oy;
    assert dx0 * ly * lz + dx1 * ly * lz == (lx - ox) * ylz;
    assert ox * dy0 * lz + ox * dy1 * lz == ox * (ly - oy) * lz;
    assert ox * oy * dz0 + ox * oy * dz1 == zoxoy * (lz - oz);
    assert ox * (ly - oy) * lz == ox * ylz - zoxoy * lz;
  }

  lemma SlotVolume0(a: Cube, b: Cube)
    requires Valid(a) && Valid(b) && Overlaps(a, b)
    ensures SlotVolume(a, b, 0) == Below(a.lo.x, b.lo.x) * Size(a).y * Size(a).z
  {
    if Slot(a, b, 0).Some? {
      assert Size(Slot(a, b, 0).value) == Coord3D.Coord3D(Below(a.lo.x, b.lo.x), Size(a).y, Size(a).z);
    }
  }

  lemma SlotVolume1(a: Cube, b: Cube)
    requires Valid(a) && Valid(b) && Overlaps(a, b)
    ensures SlotVolume(a, b, 1) == Above(a.hi.x, b.hi.x) * Size(a).y * Size(a).z
  {
    if Slot(a, b, 1).Some? {
      assert Size(Slot(a, b, 1).value) == Coord3D.Coord3D(Above(a.hi.x, b.hi.x), Size(a).y, Size(a).z);
    }
  }

  lemma SlotVolume2(a: Cube, b: Cube)
    requires Valid(a) && Valid(b) && Overlaps(a, b)
    ensures SlotVolume(a, b, 2) == Shared(a.lo.x, a.hi.x, b.lo.x, b.hi.x) * Below(a.lo.y, b.lo.y) * Size(a).z
  {
    if Slot(a, b, 2).Some? {
      assert Size(Slot(a, b, 2).value) ==
        Coord3D.Coord3D(Shared(a.lo.x, a.hi.x, b.lo.x, b.hi.x), Below(a.lo.y, b.lo.y), Size(a).z);
    }
  }

  lemma SlotVolume3(a: Cube, b: Cube)
    requires Valid(a) && Valid(b) && Overlaps(a, b)
    ensures SlotVolume(a, b, 3) == Shared(a.lo.x, a.hi.x, b.lo.x, b.hi.x) * Above(a.hi.y, b.hi.y) * Size(a).z
  {
    if Slot(a, b, 3).Some? {
      assert Size(Slot(a, b, 3).value) ==
        Coord3D.Coord3D(Shared(a.lo.x, a.hi.x, b.lo.x, b.hi.x), Above(a.hi.y, b.hi.y), Size(a).z);
    }
  }

  lemma SlotVolume4(a: Cube, b: Cube)
    requires Valid(a) && Valid(b) && Overlaps(a, b)
    ensures SlotVolume(a, b, 4) ==
              Shared(a.lo.x, a.hi.x, b.lo.x, b.hi.x) * Shared(a.lo.y, a.hi.y, b.lo.y, b.hi.y) * Below(a.lo.z, b.lo.z)
  {
    if Slot(a, b, 4).Some? {
      assert Size(Slot(a, b, 4).value) ==
        Coord3D.Coord3D(Shared(a.lo.x, a.hi.x, b.lo.x, b.hi.x), Shared(a.lo.y, a.hi.y, b.lo.y, b.hi.y), Below(a.lo.z, b.lo.z));
    }
  }

  lemma SlotVolume5(a: Cube, b: Cube)
    requires Valid(a) && Valid(b) && Overlaps(a, b)
    ensures SlotVolume(a, b, 5) ==
              Shared(a.lo.x, a.hi.x, b.lo.x, b.hi.x) * Shared(a.lo.y, a.hi.y, b.lo.y, b.hi.y) * Above(a.hi.z, b.hi.z)
  {
    if Slot(a, b, 5).Some? {
      assert Size(Slot(a, b, 5).value) ==
        Coord3D.Coord3D(Shared(a.lo.x, a.hi.x, b.lo.x, b.hi.x), Shared(a.lo.y, a.hi.y, b.lo.y, b.hi.y), Above(a.hi.z, b.hi.z));
    }
  }

  /** The slot volumes from slot k on. */
  function SlotSum(a: Cube, b: Cube, k: nat): int
    decreases 6 - k
  {
    if k >= 6 then 0 else SlotVolume(a, b, k) + SlotSum(a, b, k + 1)
  }

  lemma {:induction false} PiecesSum(a: Cube, b: Cube, k: nat)
    ensures SumVolumes(Pieces(a, b, k)) == SlotSum(a, b, k)
    decreases 6 - k
  {
    if k < 6 {
      PiecesVolume(a, b, k);
      PiecesSum(a, b, k + 1);
    }
  }

  lemma SumOfSlots(a: Cube, b: Cube)
    ensures SumVolumes(Pieces(a, b, 0)) == SlotVolume(a, b, 0) + SlotVolume(a, b, 1) + SlotVolume(a, b, 2)
                                         + SlotVolume(a, b, 3) + SlotVolume(a, b, 4) + SlotVolume(a, b, 5)
  {
    PiecesSum(a, b, 0);
    assert SlotSum(a, b, 4) == SlotVolume(a, b, 4) + SlotVolume(a, b, 5);
    assert SlotSum(a, b, 2) == SlotVolume(a, b, 2) + SlotVolume(a, b, 3) + SlotSum(a, b, 4);
  }

  lemma OverlapVolume(a: Cube, b: Cube)
    requires Valid(a) && Valid(b) && Overlaps(a, b)
    ensures Volume(GetOverlap(a, b).value) ==
              Shared(a.lo.x, a.hi.x, b.lo.x, b.hi.x) * Shared(a.lo.y, a.hi.y, b.lo.y, b.hi.y) * Shared(a.lo.z, a.hi.z, b.lo.z, b.hi.z)
  {
    assert Size(GetOverlap(a, b).value) ==
      Coord3D.Coord3D(Shared(a.lo.x, a.hi.x, b.lo.x, b.hi.x), Shared(a.lo.y, a.hi.y, b.lo.y, b.hi.y), Shared(a.lo.z, a.hi.z, b.lo.z, b.hi.z));
  }

  /**
   * The piece volumes add up to the volume of `a` minus the volume of its
   * overlap with `b` (all of `a` when they are disjoint).
   */
  lemma SubtractVolume(a: Cube, b: Cube)
    requires Valid(a) && Valid(b)
    ensures GetOverlap(a, b).Some? ==> SumVolumes(Subtract(a, b)) == Volume(a) - Volume(GetOverlap(a, b).value)
    ensures GetOverlap(a, b).None? ==> SumVolumes(Subtract(a, b)) == Volume(a)
  {
    if Overlaps(a, b) {
      SumOfSlots(a, b);
      SlotVolume0(a, b);
      SlotVolume1(a, b);
      SlotVolume2(a, b);
      SlotVolume3(a, b);
      SlotVolume4(a, b);
      SlotVolume5(a, b);
      OverlapVolume(a, b);
      AxisSplit(a.lo.x, a.hi.x, b.lo.x, b.hi.x);
      AxisSplit(a.lo.y, a.hi.y, b.lo.y, b.hi.y);
      AxisSplit(a.lo.z, a.hi.z, b.lo.z, b.hi.z);
      var s := Size(a);
      SlabAlgebra(s.x, s.y, s.z,
                  Shared(a.lo.x, a.hi.x, b.lo.x, b.hi.x), Shared(a.lo.y, a.hi.y, b.lo.y, b.hi.y),
                  Shared(a.lo.z, a.hi.z, b.lo.z, b.hi.z),
                  Below(a.lo.x, b.lo.x), Above(a.hi.x, b.hi.x),
                  Below(a.lo.y, b.lo.y), Above(a.hi.y, b.hi.y),
                  Below(a.lo.z, b.lo.z), Above(a.hi.z, b.hi.z));
    } else {
      assert Subtract(a, b) == [a];
      assert Subtract(a, b)[1..] == [];
    }
  }

  /**
   * `equals` as written: a missing object is unequal; otherwise only the
   * minimum corners are compared, because the maximum corner is compared
   * with itself.
   */
  function EqualsAsWritten(a: Cube, obj: Option<Cube>): (r: bool)
    ensures r <==> obj.Some? && obj.value.lo == a.lo
  {
    match obj
    case None => false
    case Some(b) => a.lo == b.lo && a.hi == a.hi
  }

  /** Two different cuboids with the same minimum corner are equal as written. */
  lemma EqualsAsWrittenCounterexample()
    ensures Make(0, 1, 0, 1, 0, 1) != Make(0, 2, 0, 2, 0, 2)
    ensures EqualsAsWritten(Make(0, 1, 0, 1, 0, 1), Some(Make(0, 2, 0, 2, 0, 2)))
  {
  }

  /** `equals` as documented: the other object is a cuboid with the same corners. */
  function Equals(a: Cube, obj: Option<Cube>): (r: bool)
    ensures r <==> obj == Some(a)
    ensures r ==> EqualsAsWritten(a, obj)
  {
    match obj
    case None => false
    case Some(b) => a.lo == b.lo && a.hi == b.hi
  }
}
