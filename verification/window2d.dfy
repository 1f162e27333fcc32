/**
 * A rectangular window of integer coordinates (`Window2D`). A window is
 * either empty (no corners) or spans an inclusive box from `lo` to `hi`.
 * Fixed windows never change size; dynamic ones grow with `Include` and
 * shrink with `Resize`.
 */
module Window2D {
  import opened Wrappers
  import opened Numeric
  import opened Coord2D

  datatype Box = Box(lo: Coord, hi: Coord)

  datatype Window = Window(box: Option<Box>, fixed: bool)

  predicate InBox(b: Box, c: Coord)
  {
    b.lo.x <= c.x <= b.hi.x && b.lo.y <= c.y <= b.hi.y
  }

  /** Both corners are in componentwise order, so the box is not degenerate. */
  predicate Ordered(b: Box)
  {
    b.lo.x <= b.hi.x && b.lo.y <= b.hi.y
  }

  predicate IsEmpty(w: Window)
  {
    w.box.None?
  }

  // ---------------------------------------------------------------- bounds of a set

  lemma HasInt(xs: set<int>)
    requires xs != {}
    ensures exists v :: v in xs
  {
    if forall v :: v !in xs {
      assert false;
    }
  }

  lemma HasCoord(cs: set<Coord>)
    requires cs != {}
    ensures exists c :: c in cs
  {
    if forall c :: c !in cs {
      assert false;
    }
  }

  predicate IsLeast(m: int, xs: set<int>)
  {
    m in xs && forall v :: v in xs ==> m <= v
  }

  lemma {:induction false} LeastExists(xs: set<int>)
    requires xs != {}
    ensures exists m :: IsLeast(m, xs)
    decreases |xs|
  {
    HasInt(xs);
    var v :| v in xs;
    var rest := xs - {v};
    if rest == {} {
      assert IsLeast(v, xs) by {
        forall u | u in xs ensures v <= u {
          assert u !in rest;
        }
      }
    } else {
      LeastExists(rest);
      var m :| IsLeast(m, rest);
      var least := if v < m then v else m;
      assert IsLeast(least, xs) by {
        forall u | u in xs ensures least <= u {
          if u != v {
            assert u in rest;
          }
        }
      }
    }
  }

  /** The least element of a non-empty finite set. */
  function SetMin(xs: set<int>): (m: int)
    requires xs != {}
    ensures m in xs && forall v :: v in xs ==> m <= v
  {
    LeastExists(xs);
    var m :| IsLeast(m, xs); m
  }

  /** The greatest element of a non-empty finite set. */
  function SetMax(xs: set<int>): (m: int)
    requires xs != {}
    ensures m in xs && forall v :: v in xs ==> v <= m
  {
    HasInt(xs);
    var v :| v in xs;
    var negated := set u | u in xs :: -u;
    assert -v in negated;
    var least := SetMin(negated);
    assert -least in xs;
    assert forall u | u in xs :: u <= -least by {
      forall u | u in xs ensures u <= -least {
        assert -u in negated;
      }
    }
    -least
  }

  function Xs(cs: set<Coord>): set<int>
  {
    set c | c in cs :: c.x
  }

  function Ys(cs: set<Coord>): set<int>
  {
    set c | c in cs :: c.y
  }

  lemma ProjectionsNonEmpty(cs: set<Coord>)
    requires cs != {}
    ensures Xs(cs) != {} && Ys(cs) != {}
  {
    HasCoord(cs);
    var c :| c in cs;
    assert c.x in Xs(cs) && c.y in Ys(cs);
  }

  /**
   * `b` is the bounding box of `cs`: it holds every coordinate of `cs` and
   * each of its four sides is touched by one of them.
   */
  predicate IsBoundingBox(cs: set<Coord>, b: Box)
  {
    (forall c :: c in cs ==> InBox(b, c)) &&
    (exists c :: c in cs && c.x == b.lo.x) &&
    (exists c :: c in cs && c.y == b.lo.y) &&
    (exists c :: c in cs && c.x == b.hi.x) &&
    (exists c :: c in cs && c.y == b.hi.y)
  }

  /** A set has at most one bounding box, and it is ordered. */
  lemma BoundingBoxUnique(cs: set<Coord>, b1: Box, b2: Box)
    requires IsBoundingBox(cs, b1) && IsBoundingBox(cs, b2)
    ensures b1 == b2 && Ordered(b1)
  {
    var a :| a in cs && a.x == b1.lo.x;
    var b :| b in cs && b.x == b2.lo.x;
    var c :| c in cs && c.y == b1.lo.y;
    var d :| d in cs && d.y == b2.lo.y;
    var e :| e in cs && e.x == b1.hi.x;
    var f :| f in cs && f.x == b2.hi.x;
    var g :| g in cs && g.y == b1.hi.y;
    var h :| h in cs && h.y == b2.hi.y;
    assert InBox(b1, a) && InBox(b1, b) && InBox(b2, a) && InBox(b2, b);
    assert InBox(b1, c) && InBox(b1, d) && InBox(b2, c) && InBox(b2, d);
    assert InBox(b1, e) && InBox(b1, f) && InBox(b2, e) && InBox(b2, f);
    assert InBox(b1, g) && InBox(b1, h) && InBox(b2, g) && InBox(b2, h);
  }

  /** The bounding box of a non-empty set of coordinates. */
  function BoundingBox(cs: set<Coord>): (b: Box)
    requires cs != {}
    ensures IsBoundingBox(cs, b)
  {
    ProjectionsNonEmpty(cs);
    var b := Box(Coord(SetMin(Xs(cs)), SetMin(Ys(cs))), Coord(SetMax(Xs(cs)), SetMax(Ys(cs))));
    assert forall c :: c in cs ==> c.x in Xs(cs) && c.y in Ys(cs);
    b
  }

  // ---------------------------------------------------------------- construction

  /** `new Window2D()`: empty and dynamic. */
  function NewDynamic(): (w: Window)
    ensures IsEmpty(w) && !w.fixed
  {
    Window(None, false)
  }

  /** `new Window2D(xmin, ymin, xmax, ymax)`: fixed, corners taken as given (not reordered). */
  function NewBounds(xmin: int, ymin: int, xmax: int, ymax: int): (w: Window)
    ensures w.fixed && w.box.Some?
    ensures MinCoord(w) == Ok(Coord(xmin, ymin)) && MaxCoord(w) == Ok(Coord(xmax, ymax))
  {
    Window(Some(Box(Coord(xmin, ymin), Coord(xmax, ymax))), true)
  }

  /** `new Window2D(width, height)`: fixed, spanning (0,0) to (width-1, height-1). */
  function NewSized(width: int, height: int): (w: Window)
    ensures w.fixed
    ensures forall c :: Contains(w, c) == Ok(0 <= c.x < width && 0 <= c.y < height)
    ensures Count(w) == Ok(width * height)
  {
    NewBounds(0, 0, width - 1, height - 1)
  }

  /** `new Window2D(c1, c2)`: fixed, the smallest box holding both corners. */
  function Spanning(c1: Coord, c2: Coord): (w: Window)
    ensures w.fixed && w.box.Some? && Ordered(w.box.value)
    ensures IsBoundingBox({c1, c2}, w.box.value)
  {
    NewBounds(Min(c1.x, c2.x), Min(c1.y, c2.y), Max(c1.x, c2.x), Max(c1.y, c2.y))
  }

  // ---------------------------------------------------------------- resizing

  /** The box of `w` grown to hold `c`, or just `c` when `w` is empty. */
  function Grow(box: Option<Box>, c: Coord): (b: Box)
    ensures InBox(b, c)
    ensures box.Some? ==> forall d :: InBox(box.value, d) ==> InBox(b, d)
  {
    match box
    case None => Box(c, c)
    case Some(b) => Box(CMin(b.lo, c), CMax(b.hi, c))
  }

  /** `include`: a dynamic window grows to hold `c`; a fixed one is untouched. */
  function Include(w: Window, c: Coord): (r: Window)
    ensures r.fixed == w.fixed
    ensures w.fixed ==> r == w
    ensures !w.fixed ==> Contains(r, c) == Ok(true)
    ensures !w.fixed && w.box.Some? ==> forall d :: InBox(w.box.value, d) ==> InBox(r.box.value, d)
  {
    if w.fixed then w else Window(Some(Grow(w.box, c)), false)
  }

  /** Including a coordinate in the bounding box of a set gives the bounding box of the larger set. */
  lemma GrowBoundingBox(cs: set<Coord>, c: Coord)
    ensures (cs + {c}) != {}
    ensures Grow(if cs == {} then None else Some(BoundingBox(cs)), c) == BoundingBox(cs + {c})
  {
    var all := cs + {c};
    assert c in all;
    var g := Grow(if cs == {} then None else Some(BoundingBox(cs)), c);
    if cs == {} {
      assert all == {c};
    } else {
      var b := BoundingBox(cs);
      assert forall d :: d in all ==> d in cs || d == c;
      assert forall d :: d in all ==> InBox(g, d);
      var a :| a in cs && a.x == b.lo.x;
      assert a in all && (a.x == g.lo.x || c.x == g.lo.x);
      var e :| e in cs && e.y == b.lo.y;
      assert e in all && (e.y == g.lo.y || c.y == g.lo.y);
      var f :| f in cs && f.x == b.hi.x;
      assert f in all && (f.x == g.hi.x || c.x == g.hi.x);
      var h :| h in cs && h.y == b.hi.y;
      assert h in all && (h.y == g.hi.y || c.y == g.hi.y);
    }
    BoundingBoxUnique(all, g, BoundingBox(all));
  }

  /**
   * `resize` as the source writes it: the maxima are seeded with -1 rather
   * than with the least integer, so a maximum below -1 comes out as -1.
   */
  function ResizeAsWritten(w: Window, cs: set<Coord>): (r: Window)
    ensures r.fixed == w.fixed
    ensures w.fixed ==> r == w
    ensures !w.fixed ==> (IsEmpty(r) <==> cs == {})
    ensures !w.fixed && cs != {} ==> forall c :: c in cs ==> InBox(r.box.value, c)
  {
    if w.fixed then w
    else if cs == {} then Clear(w)
    else
      ProjectionsNonEmpty(cs);
      assert forall c :: c in cs ==> c.x in Xs(cs) && c.y in Ys(cs);
      Window(Some(Box(Coord(SetMin(Xs(cs)), SetMin(Ys(cs))),
                      Coord(Max(-1, SetMax(Xs(cs))), Max(-1, SetMax(Ys(cs)))))), false)
  }

  /** `resize` with the maxima computed over the set: a dynamic window becomes the bounding box. */
  function Resize(w: Window, cs: set<Coord>): (r: Window)
    ensures r.fixed == w.fixed
    ensures w.fixed ==> r == w
    ensures !w.fixed ==> (IsEmpty(r) <==> cs == {})
    ensures !w.fixed && cs != {} ==> IsBoundingBox(cs, r.box.value)
  {
    if w.fixed then w
    else if cs == {} then Clear(w)
    else Window(Some(BoundingBox(cs)), false)
  }

  /** Some coordinate reaches `bound` on the x axis exactly when the largest x does. */
  lemma MaxReaches(cs: set<Coord>, bound: int)
    requires cs != {}
    ensures Xs(cs) != {} && Ys(cs) != {}
    ensures (exists c :: c in cs && c.x >= bound) <==> SetMax(Xs(cs)) >= bound
    ensures (exists c :: c in cs && c.y >= bound) <==> SetMax(Ys(cs)) >= bound
  {
    ProjectionsNonEmpty(cs);
    assert forall c :: c in cs ==> c.x in Xs(cs) && c.y in Ys(cs);
  }

  /** The bounding box is the box of the extreme projections. */
  lemma BoundingBoxCorners(cs: set<Coord>)
    requires cs != {}
    ensures Xs(cs) != {} && Ys(cs) != {}
    ensures BoundingBox(cs) == Box(Coord(SetMin(Xs(cs)), SetMin(Ys(cs))), Coord(SetMax(Xs(cs)), SetMax(Ys(cs))))
  {
    ProjectionsNonEmpty(cs);
  }

  /**
   * The source's `resize` agrees with the bounding-box one exactly when the
   * window is fixed, the set is empty, or some coordinate has x at least -1
   * and some coordinate has y at least -1.
   */
  lemma ResizeAsWrittenAgrees(w: Window, cs: set<Coord>)
    ensures ResizeAsWritten(w, cs) == Resize(w, cs) <==>
      (w.fixed || cs == {} ||
       ((exists c :: c in cs && c.x >= -1) && (exists c :: c in cs && c.y >= -1)))
  {
    if !w.fixed && cs != {} {
      MaxReaches(cs, -1);
      BoundingBoxCorners(cs);
    }
  }

  /** A single key at (-3,-3): the source's window reaches up to (-1,-1) and so holds cells no key is near. */
  lemma ResizeAsWrittenCounterexample()
    ensures ResizeAsWritten(NewDynamic(), {Coord(-3, -3)}).box == Some(Box(Coord(-3, -3), Coord(-1, -1)))
    ensures Contains(ResizeAsWritten(NewDynamic(), {Coord(-3, -3)}), Coord(-1, -1)) == Ok(true)
    ensures Resize(NewDynamic(), {Coord(-3, -3)}).box == Some(Box(Coord(-3, -3), Coord(-3, -3)))
  {
    var cs := {Coord(-3, -3)};
    assert Xs(cs) == {-3} && Ys(cs) == {-3};
    BoundingBoxUnique(cs, BoundingBox(cs), Box(Coord(-3, -3), Coord(-3, -3)));
  }

  /** Removing a coordinate that is not on the border of a set's bounding box keeps that box. */
  lemma BoundingBoxRemoveInside(cs: set<Coord>, c: Coord)
    requires cs != {}
    requires !OnBorderOf(BoundingBox(cs), c)
    ensures cs - {c} != {}
    ensures BoundingBox(cs - {c}) == BoundingBox(cs)
  {
    var b := BoundingBox(cs);
    var rest := cs - {c};
    var a :| a in cs && a.x == b.lo.x;
    var e :| e in cs && e.y == b.lo.y;
    var f :| f in cs && f.x == b.hi.x;
    var h :| h in cs && h.y == b.hi.y;
    assert a in rest && e in rest && f in rest && h in rest;
    BoundingBoxUnique(rest, b, BoundingBox(rest));
  }

  /** `clear`: the window becomes empty (fixed or not). */
  function Clear(w: Window): (r: Window)
    ensures IsEmpty(r) && r.fixed == w.fixed
  {
    Window(None, w.fixed)
  }

  // ---------------------------------------------------------------- queries

  /** `contains`: membership in the box; an empty window throws. */
  function Contains(w: Window, c: Coord): (r: Result<bool>)
    ensures r.Err? <==> IsEmpty(w)
    ensures r.Err? ==> r.error == Runtime
    ensures r.Ok? ==> (r.value <==> InBox(w.box.value, c))
  {
    match w.box
    case None => Err(Runtime)
    case Some(b) => Ok(b.lo.x <= c.x && b.lo.y <= c.y && c.x <= b.hi.x && c.y <= b.hi.y)
  }

  predicate OnBorderOf(b: Box, c: Coord)
  {
    c.x == b.lo.x || c.y == b.lo.y || c.x == b.hi.x || c.y == b.hi.y
  }

  /** `onBorder`: the coordinate shares a row or column with a side; an empty window throws. */
  function OnBorder(w: Window, c: Coord): (r: Result<bool>)
    ensures r.Err? <==> IsEmpty(w)
    ensures r.Err? ==> r.error == Runtime
    ensures r.Ok? ==> (r.value <==>
      c.x == w.box.value.lo.x || c.y == w.box.value.lo.y || c.x == w.box.value.hi.x || c.y == w.box.value.hi.y)
    ensures r.Ok? && Contains(w, c) == Ok(true) ==>
      (!r.value <==> InBox(Box(Move(w.box.value.lo, 1, 1), Move(w.box.value.hi, -1, -1)), c))
  {
    match w.box
    case None => Err(Runtime)
    case Some(b) => Ok(OnBorderOf(b, c))
  }

  /** `size`: the extent per axis, absent for an empty window. */
  function Size(w: Window): (r: Option<Coord>)
    ensures r.None? <==> IsEmpty(w)
    ensures r.Some? && Ordered(w.box.value) ==> r.value.x >= 1 && r.value.y >= 1
  {
    match w.box
    case None => None
    case Some(b) => Some(Coord(b.hi.x - b.lo.x + 1, b.hi.y - b.lo.y + 1))
  }

  /** `count`: width times height; on an empty window `size()` is null and the call throws. */
  function Count(w: Window): (r: Result<int>)
    ensures r.Err? <==> IsEmpty(w)
    ensures r.Err? ==> r.error == NullPointer
    ensures r.Ok? && Ordered(w.box.value) ==> r.value >= 1
  {
    match Size(w)
    case None => Err(NullPointer)
    case Some(s) => Ok(s.x * s.y)
  }

  /** `getMinCoord` (and through it `getMinX`, `getMinY`). */
  function MinCoord(w: Window): (r: Result<Coord>)
    ensures r.Err? <==> IsEmpty(w)
    ensures r.Err? ==> r.error == Runtime
    ensures r.Ok? ==> forall c :: Contains(w, c) == Ok(true) ==> r.value.x <= c.x && r.value.y <= c.y
    ensures r.Ok? && Ordered(w.box.value) ==> Contains(w, r.value) == Ok(true)
  {
    match w.box
    case None => Err(Runtime)
    case Some(b) => Ok(b.lo)
  }

  /** `getMaxCoord` (and through it `getMaxX`, `getMaxY`). */
  function MaxCoord(w: Window): (r: Result<Coord>)
    ensures r.Err? <==> IsEmpty(w)
    ensures r.Err? ==> r.error == Runtime
    ensures r.Ok? ==> forall c :: Contains(w, c) == Ok(true) ==> c.x <= r.value.x && c.y <= r.value.y
    ensures r.Ok? && Ordered(w.box.value) ==> Contains(w, r.value) == Ok(true)
  {
    match w.box
    case None => Err(Runtime)
    case Some(b) => Ok(b.hi)
  }

  // ---------------------------------------------------------------- iteration

  /** Row `y` from column `x0` to column `x1`, left to right. */
  function Row(y: int, x0: int, x1: int): (r: seq<Coord>)
    ensures |r| == if x0 <= x1 then x1 - x0 + 1 else 0
    ensures forall i :: 0 <= i < |r| ==> r[i] == Coord(x0 + i, y)
  {
    if x0 > x1 then [] else seq(x1 - x0 + 1, i => Coord(x0 + i, y))
  }

  /** Rows `y0` to `y1`, each from `x0` to `x1`, top to bottom. */
  function Rows(x0: int, x1: int, y0: int, y1: int): seq<Coord>
    decreases y1 - y0
  {
    if y1 < y0 then [] else Rows(x0, x1, y0, y1 - 1) + Row(y1, x0, x1)
  }

  /** Row-major order: by row, then by column. */
  predicate Before(a: Coord, b: Coord)
  {
    a.y < b.y || (a.y == b.y && a.x < b.x)
  }

  lemma {:induction false} RowsLength(x0: int, x1: int, y0: int, y1: int)
    requires x0 <= x1
    ensures |Rows(x0, x1, y0, y1)| == if y0 <= y1 then (x1 - x0 + 1) * (y1 - y0 + 1) else 0
    decreases y1 - y0
  {
    if y0 <= y1 {
      RowsLength(x0, x1, y0, y1 - 1);
      var w := x1 - x0 + 1;
      assert w * (y1 - y0) + w == w * (y1 - y0 + 1);
    }
  }

  lemma {:induction false} RowsMembers(x0: int, x1: int, y0: int, y1: int)
    ensures forall c :: c in Rows(x0, x1, y0, y1) <==> x0 <= c.x <= x1 && y0 <= c.y <= y1
    decreases y1 - y0
  {
    if y0 <= y1 {
      RowsMembers(x0, x1, y0, y1 - 1);
      var row := Row(y1, x0, x1);
      forall c: Coord | x0 <= c.x <= x1 && c.y == y1 ensures c in row {
        assert c == row[c.x - x0];
      }
    }
  }

  lemma {:induction false} RowsOrdered(x0: int, x1: int, y0: int, y1: int)
    ensures forall i, j :: 0 <= i < j < |Rows(x0, x1, y0, y1)| ==>
      Before(Rows(x0, x1, y0, y1)[i], Rows(x0, x1, y0, y1)[j])
    decreases y1 - y0
  {
    if y0 <= y1 {
      RowsOrdered(x0, x1, y0, y1 - 1);
      RowsMembers(x0, x1, y0, y1 - 1);
      var prefix := Rows(x0, x1, y0, y1 - 1);
      var row := Row(y1, x0, x1);
      var all := prefix + row;
      forall i, j | 0 <= i < j < |all| ensures Before(all[i], all[j]) {
        if j < |prefix| {
          assert all[i] == prefix[i] && all[j] == prefix[j];
        } else if i >= |prefix| {
          assert all[i] == row[i - |prefix|] && all[j] == row[j - |prefix|];
        } else {
          assert all[i] == prefix[i] && prefix[i] in prefix;
          assert all[j] == row[j - |prefix|];
        }
      }
    }
  }

  /** All coordinates of an ordered box in row-major order. */
  function RowMajor(b: Box): (r: seq<Coord>)
    requires Ordered(b)
    ensures |r| == (b.hi.x - b.lo.x + 1) * (b.hi.y - b.lo.y + 1)
    ensures forall c :: c in r <==> InBox(b, c)
    ensures forall i, j :: 0 <= i < j < |r| ==> Before(r[i], r[j])
  {
    var r := Rows(b.lo.x, b.hi.x, b.lo.y, b.hi.y);
    RowsLength(b.lo.x, b.hi.x, b.lo.y, b.hi.y);
    assert |r| == (b.hi.x - b.lo.x + 1) * (b.hi.y - b.lo.y + 1);
    RowsMembers(b.lo.x, b.hi.x, b.lo.y, b.hi.y);
    assert forall c :: c in r <==> InBox(b, c);
    RowsOrdered(b.lo.x, b.hi.x, b.lo.y, b.hi.y);
    r
  }

  /** One `next()` of the source's iterator: one step right, or back to the first column of the next row. */
  function IterNext(b: Box, curr: Coord): Coord
  {
    if curr.x < b.hi.x then Move(curr, 1, 0) else Coord(b.lo.x, curr.y + 1)
  }

  /** The coordinate after k calls of `next()` from curr. */
  function IterSteps(b: Box, curr: Coord, k: nat): Coord
  {
    if k == 0 then curr else IterNext(b, IterSteps(b, curr, k - 1))
  }

  /** On the unordered box from (0,0) to (-1,1) every call after the first moves one row down in column 0. */
  lemma {:induction false} IterStepsUnordered(k: nat)
    requires k >= 1
    ensures IterSteps(Box(Coord(0, 0), Coord(-1, 1)), Coord(-1, 0), k) == Coord(0, k)
  {
    var b := Box(Coord(0, 0), Coord(-1, 1));
    if k > 1 {
      IterStepsUnordered(k - 1);
      assert IterSteps(b, Coord(-1, 0), k) == IterNext(b, Coord(0, k - 1));
    } else {
      assert IterSteps(b, Coord(-1, 0), 1) == IterNext(b, Coord(-1, 0));
    }
  }

  /**
   * `new Window2D(0, 2)` spans (0,0) to (-1,1), whose corners are not
   * ordered; its iterator never reaches the maximum corner, so `hasNext()`
   * stays true forever.
   */
  lemma IterateUnorderedNeverEnds()
    ensures NewSized(0, 2).box == Some(Box(Coord(0, 0), Coord(-1, 1)))
    ensures !Ordered(Box(Coord(0, 0), Coord(-1, 1)))
    ensures forall k: nat :: IterSteps(Box(Coord(0, 0), Coord(-1, 1)), Coord(-1, 0), k) != Coord(-1, 1)
  {
    assert NewSized(0, 2) == NewBounds(0, 0, -1, 1);
    IterUnorderedMisses();
  }

  lemma IterUnorderedMisses()
    ensures forall k: nat :: IterSteps(Box(Coord(0, 0), Coord(-1, 1)), Coord(-1, 0), k) != Coord(-1, 1)
  {
    forall k: nat
      ensures IterSteps(Box(Coord(0, 0), Coord(-1, 1)), Coord(-1, 0), k) != Coord(-1, 1)
    {
      if k >= 1 {
        IterStepsUnordered(k);
      }
    }
  }

  /**
   * The boxes whose iterator stops: an ordered box, and the crossed box whose
   * maximum corner is the iterator's starting point one left of the minimum
   * corner, as `new Window2D(0, 1)` builds. Every other box iterates forever
   * (`IterateNeverEnds`).
   */
  predicate Stops(b: Box)
  {
    Ordered(b) || b.hi == Move(b.lo, -1, 0)
  }

  /** What the iterator of a stopping box yields: the row-major cells, or nothing. */
  function IterOrder(b: Box): seq<Coord>
    requires Stops(b)
  {
    if Ordered(b) then RowMajor(b) else []
  }

  /** A crossed box's iterator never reaches the maximum corner unless it starts there. */
  lemma IterateNeverEnds(b: Box, k: nat)
    requires !Stops(b)
    ensures IterSteps(b, Move(b.lo, -1, 0), k) != b.hi
  {
    if b.hi.x < b.lo.x {
      if k >= 1 {
        StepsPastColumn(b, k);
      }
    } else {
      StepsStayBelow(b, k);
    }
  }

  /** With the maximum column left of the minimum one, every `next()` goes down the minimum column. */
  lemma {:induction false} StepsPastColumn(b: Box, k: nat)
    requires b.hi.x < b.lo.x && k >= 1
    ensures IterSteps(b, Move(b.lo, -1, 0), k) == Coord(b.lo.x, b.lo.y + k)
  {
    if k > 1 {
      StepsPastColumn(b, k - 1);
    }
  }

  /** The iterator never moves above the row of the minimum corner. */
  lemma {:induction false} StepsStayBelow(b: Box, k: nat)
    ensures IterSteps(b, Move(b.lo, -1, 0), k).y >= b.lo.y
  {
    if k > 0 {
      StepsStayBelow(b, k - 1);
    }
  }

  /**
   * The iterator of a window, run to exhaustion: it starts one left of the
   * minimum corner and calls `next()` while the current coordinate is not
   * the maximum corner. On an ordered box this yields every coordinate once,
   * in row-major order; on the zero-width box of `new Window2D(0, 1)` it
   * stops at once; either way it yields `count()` coordinates. An empty
   * window yields nothing.
   */
  method Iterate(w: Window) returns (cs: seq<Coord>)
    requires w.box.Some? ==> Stops(w.box.value)
    ensures IsEmpty(w) ==> cs == []
    ensures !IsEmpty(w) && Ordered(w.box.value) ==> cs == RowMajor(w.box.value)
    ensures !IsEmpty(w) && !Ordered(w.box.value) ==> cs == []
    ensures !IsEmpty(w) ==> Count(w) == Ok(|cs|)
  {
    if w.box.None? {
      return [];
    }
    var b := w.box.value;
    cs := IterateBox(b);
  }

  /** The iterator loop over a stopping box; shared with `Square2D`. */
  method IterateBox(b: Box) returns (cs: seq<Coord>)
    requires Stops(b)
    ensures Ordered(b) ==> cs == RowMajor(b)
    ensures !Ordered(b) ==> cs == []
  {
    var x0, x1, y0 := b.lo.x, b.hi.x, b.lo.y;
    var curr := Move(b.lo, -1, 0);
    cs := [];
    while curr != b.hi
      invariant y0 <= curr.y <= b.hi.y
      invariant cs == [] ==> curr == Coord(x0 - 1, y0)
      invariant cs != [] ==> x0 <= curr.x <= x1 && cs == Rows(x0, x1, y0, curr.y - 1) + Row(curr.y, x0, curr.x)
      decreases b.hi.y - curr.y, x1 - curr.x
    {
      var next := IterNext(b, curr);
      if cs == [] {
        assert Rows(x0, x1, y0, y0 - 1) == [];
        assert [next] == Row(y0, x0, x0);
      } else if curr.x < x1 {
        assert Row(curr.y, x0, curr.x + 1) == Row(curr.y, x0, curr.x) + [next];
      } else {
        assert Row(next.y, x0, x0) == [next];
      }
      cs := cs + [next];
      curr := next;
    }
  }
}
