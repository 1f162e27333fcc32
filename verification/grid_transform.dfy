/**
 * The operations of `CoordGrid` that build a new grid from an old one by
 * moving keys: `copyEmpty`, `extract`, `copy`, `rotate` and `flip`.
 *
 * The source builds each result with a loop over the keys (in hash order)
 * or over the window (in row-major order) that calls `set` and `unset`.
 * Each operation is defined here by what it stores, and a lemma shows that
 * the source's loop, in any key order, builds exactly that grid.
 */
module GridTransform {
  import opened Wrappers
  import opened Coord2D
  import W = Window2D
  import opened CoordGrid

  // ---------------------------------------------------------------- coordinate changes

  /**
   * The changes of coordinates the grid operations use: a shift by `delta`
   * (`extract`, `insert`, `insertColumns`, `insertRows`), the three
   * clockwise turns of `rotate` within a grid of size `s`, and the two
   * mirrors of `flip`.
   */
  datatype Remap =
    | Shift(delta: Coord)
    | QuarterTurn(s: Coord)
    | HalfTurn(s: Coord)
    | ThreeQuarterTurn(s: Coord)
    | Mirror(s: Coord, horizontal: bool)

  /** Where `t` sends `c`. */
  function Fwd(t: Remap, c: Coord): Coord
  {
    match t
    case Shift(delta) => Move(c, delta.x, delta.y)
    case QuarterTurn(s) => Coord(s.y - 1 - c.y, c.x)
    case HalfTurn(s) => Coord(s.x - 1 - c.x, s.y - 1 - c.y)
    case ThreeQuarterTurn(s) => Coord(c.y, s.x - 1 - c.x)
    case Mirror(s, horizontal) => if horizontal then Coord(s.x - 1 - c.x, c.y) else Coord(c.x, s.y - 1 - c.y)
  }

  /** What `t` sends to `d`. */
  function Bwd(t: Remap, d: Coord): Coord
  {
    match t
    case Shift(delta) => Move(d, -delta.x, -delta.y)
    case QuarterTurn(s) => Coord(d.y, s.y - 1 - d.x)
    case HalfTurn(s) => Coord(s.x - 1 - d.x, s.y - 1 - d.y)
    case ThreeQuarterTurn(s) => Coord(s.x - 1 - d.y, d.x)
    case Mirror(s, horizontal) => if horizontal then Coord(s.x - 1 - d.x, d.y) else Coord(d.x, s.y - 1 - d.y)
  }

  /** Every remap is a bijection of the plane: `t` sends `c` to `d` exactly when `d` comes from `c`. */
  lemma Inverse(t: Remap, c: Coord, d: Coord)
    ensures Fwd(t, c) == d <==> Bwd(t, d) == c
  {
  }

  /** The remap that undoes `t`: the opposite shift, the opposite turn (of the turned size), the same mirror. */
  function Inv(t: Remap): Remap
  {
    match t
    case Shift(delta) => Shift(Coord(-delta.x, -delta.y))
    case QuarterTurn(s) => ThreeQuarterTurn(Coord(s.y, s.x))
    case HalfTurn(s) => HalfTurn(s)
    case ThreeQuarterTurn(s) => QuarterTurn(Coord(s.y, s.x))
    case Mirror(s, horizontal) => Mirror(s, horizontal)
  }

  lemma InvIsInverse(t: Remap, d: Coord)
    ensures Fwd(Inv(t), d) == Bwd(t, d) && Bwd(Inv(t), d) == Fwd(t, d)
  {
  }

  /** The coordinates `t` sends the elements of `cs` to. */
  function Image(cs: set<Coord>, t: Remap): set<Coord>
  {
    set c | c in cs :: Fwd(t, c)
  }

  /** The entries of `m` whose key passes `keep`. */
  function Restrict<V>(m: map<Coord, V>, keep: Coord -> bool): (r: map<Coord, V>)
    ensures forall c :: c in r <==> c in m && keep(c)
    ensures forall c :: c in r ==> r[c] == m[c]
  {
    map c | c in m && keep(c) :: m[c]
  }

  /** `m` with every key moved by `t`; each value stays with its key. */
  function Remapped<V>(m: map<Coord, V>, t: Remap): (r: map<Coord, V>)
    ensures forall d :: d in r <==> Bwd(t, d) in m
    ensures forall d :: d in r ==> r[d] == m[Bwd(t, d)]
  {
    var image := Image(m.Keys, t);
    assert forall d :: d in image <==> Bwd(t, d) in m by {
      forall d ensures d in image <==> Bwd(t, d) in m {
        Inverse(t, Bwd(t, d), d);
        if d in image {
          var c :| c in m && d == Fwd(t, c);
          Inverse(t, c, d);
        }
      }
    }
    map d | d in image :: m[Bwd(t, d)]
  }

  /** The value at `c` is found at its image under `t`. */
  lemma RemappedAt<V>(m: map<Coord, V>, t: Remap, c: Coord)
    requires c in m
    ensures Fwd(t, c) in Remapped(m, t) && Remapped(m, t)[Fwd(t, c)] == m[c]
  {
    Inverse(t, c, Fwd(t, c));
  }

  /** The keys of the moved map are the image of the keys. */
  lemma RemappedKeys<V>(m: map<Coord, V>, t: Remap)
    ensures Remapped(m, t).Keys == Image(m.Keys, t)
  {
    var r := Remapped(m, t);
    forall d ensures d in r.Keys <==> d in Image(m.Keys, t) {
      Inverse(t, Bwd(t, d), d);
      if d in Image(m.Keys, t) {
        var c :| c in m && d == Fwd(t, c);
        Inverse(t, c, d);
      }
    }
  }

  /** Moving keys by `t` and then by its inverse restores them. */
  lemma RemappedBack<V>(m: map<Coord, V>, t: Remap)
    ensures Remapped(Remapped(m, t), Inv(t)) == m
  {
    MovedBack(m, Remapped(m, t), Remapped(Remapped(m, t), Inv(t)), t);
  }

  /** `RemappedBack` stated over the characterisation of the two moved maps only. */
  lemma MovedBack<V>(m: map<Coord, V>, r1: map<Coord, V>, r: map<Coord, V>, t: Remap)
    requires forall d :: d in r1 <==> Bwd(t, d) in m
    requires forall d :: d in r1 ==> r1[d] == m[Bwd(t, d)]
    requires forall d :: d in r <==> Bwd(Inv(t), d) in r1
    requires forall d :: d in r ==> r[d] == r1[Bwd(Inv(t), d)]
    ensures r == m
  {
    forall c ensures (c in r <==> c in m) && (c in r ==> r[c] == m[c]) {
      InvIsInverse(t, c);
      Inverse(t, c, Fwd(t, c));
    }
    MapsEqual(r, m);
  }

  /** Maps with the same keys and the same value at each key are equal. */
  lemma MapsEqual<K, V>(a: map<K, V>, b: map<K, V>)
    requires forall k :: (k in a <==> k in b) && (k in a ==> a[k] == b[k])
    ensures a == b
  {
  }

  /** A grid holding `cells`, with the default and window kind of `g` and the window the invariant asks for. */
  function Rebuild<V>(g: Grid<V>, cells: map<Coord, V>): (r: Grid<V>)
    ensures Valid(r) && r.cells == cells && r.default == g.default
    ensures r.window.fixed == g.window.fixed
    ensures g.window.fixed ==> r.window == g.window
  {
    Grid(cells, g.default, W.Resize(g.window, cells.Keys))
  }

  /** Two valid grids with the same cells, default and window kind, whose fixed windows agree, are equal. */
  lemma ValidDetermined<V>(a: Grid<V>, b: Grid<V>)
    requires Valid(a) && Valid(b)
    requires a.cells == b.cells && a.default == b.default && a.window.fixed == b.window.fixed
    requires a.window.fixed ==> a.window == b.window
    ensures a == b
  {
  }

  // ---------------------------------------------------------------- the copy loop

  /**
   * The loop of `extract`, `rotate` and `flip`: for each key of `src` in
   * the given order that passes `keep`, its value is `set` at the key's
   * image under `t`.
   */
  function CopyLoop<V>(g: Grid<V>, src: map<Coord, V>, order: seq<Coord>, t: Remap, keep: Coord -> bool): (r: Grid<V>)
    requires forall i :: 0 <= i < |order| ==> order[i] in src
    ensures r.default == g.default && r.window.fixed == g.window.fixed
    ensures g.window.fixed ==> r.window == g.window
    ensures Valid(g) ==> Valid(r)
    decreases |order|
  {
    if order == [] then g
    else
      var c := order[0];
      var next := if keep(c) then Put(g, Fwd(t, c), src[c]) else g;
      CopyLoop(next, src, order[1..], t, keep)
  }

  lemma {:induction false} CopyLoopCells<V>(g: Grid<V>, src: map<Coord, V>, order: seq<Coord>, t: Remap, keep: Coord -> bool)
    requires forall i :: 0 <= i < |order| ==> order[i] in src
    ensures forall d :: d in CopyLoop(g, src, order, t, keep).cells <==>
      d in g.cells || (Bwd(t, d) in order && keep(Bwd(t, d)))
    ensures forall d :: d in CopyLoop(g, src, order, t, keep).cells ==>
      CopyLoop(g, src, order, t, keep).cells[d] ==
        if Bwd(t, d) in order && keep(Bwd(t, d)) then src[Bwd(t, d)] else g.cells[d]
    decreases |order|
  {
    if order != [] {
      var c := order[0];
      var next := if keep(c) then Put(g, Fwd(t, c), src[c]) else g;
      CopyLoopCells(next, src, order[1..], t, keep);
      assert forall d :: Bwd(t, d) in order <==> Bwd(t, d) == c || Bwd(t, d) in order[1..];
      forall d ensures Bwd(t, d) == c <==> d == Fwd(t, c) {
        Inverse(t, c, d);
      }
    }
  }

  /** With every key of `src` visited, the copy loop from no cells stores exactly the kept entries moved by `t`. */
  lemma CopyLoopStores<V>(e: Grid<V>, src: map<Coord, V>, order: seq<Coord>, t: Remap, keep: Coord -> bool)
    requires e.cells == map[]
    requires forall i :: 0 <= i < |order| ==> order[i] in src
    requires forall c :: c in src ==> c in order
    ensures CopyLoop(e, src, order, t, keep).cells == Remapped(Restrict(src, keep), t)
  {
    var r := CopyLoop(e, src, order, t, keep).cells;
    var m := Remapped(Restrict(src, keep), t);
    forall d ensures (d in r <==> d in m) && (d in r ==> r[d] == m[d]) {
      CopyLoopCells(e, src, order, t, keep);
      assert Bwd(t, d) in order <==> Bwd(t, d) in src;
    }
    MapsEqual(r, m);
  }

  /**
   * Whatever order the keys are visited in, the copy loop started on an
   * empty valid grid builds the rebuilt grid of the kept entries, moved by `t`.
   */
  lemma CopyLoopBuilds<V>(e: Grid<V>, src: map<Coord, V>, order: seq<Coord>, t: Remap, keep: Coord -> bool)
    requires Valid(e) && e.cells == map[]
    requires forall i :: 0 <= i < |order| ==> order[i] in src
    requires forall c :: c in src ==> c in order
    ensures CopyLoop(e, src, order, t, keep) == Rebuild(e, Remapped(Restrict(src, keep), t))
  {
    CopyLoopStores(e, src, order, t, keep);
    ValidDetermined(CopyLoop(e, src, order, t, keep), Rebuild(e, Remapped(Restrict(src, keep), t)));
  }

  // ---------------------------------------------------------------- copies

  /**
   * `copyEmpty`: the same default and no values; a fixed window is fixed
   * again from its corners (which orders them), a dynamic window starts
   * empty. Fixing an empty window throws.
   */
  function CopyEmpty<V>(g: Grid<V>): (r: Result<Grid<V>>)
    ensures r.Err? <==> W.IsEmpty(g.window)
    ensures r.Err? ==> r.error == Runtime
    ensures r.Ok? ==> Valid(r.value) && r.value.cells == map[] && r.value.default == g.default
    ensures r.Ok? ==> r.value.window.fixed == g.window.fixed
    ensures r.Ok? && !g.window.fixed ==> W.IsEmpty(r.value.window)
    ensures r.Ok? && g.window.fixed && W.Ordered(g.window.box.value) ==> r.value.window == g.window
  {
    match g.window.box
    case None => Err(Runtime)
    case Some(b) =>
      if g.window.fixed then Ok(Grid(map[], g.default, W.Spanning(b.lo, b.hi)))
      else Ok(NewGrid(g.default))
  }

  /** The window `extract` starts from: fixed only when the parent is, and then sized from (0,0) when relative. */
  function ExtractWindow<V>(g: Grid<V>, box: W.Box, relative: bool): W.Window
  {
    if !g.window.fixed then W.NewDynamic()
    else if relative then W.NewSized(box.hi.x - box.lo.x + 1, box.hi.y - box.lo.y + 1)
    else W.Window(Some(box), true)
  }

  /** The rectangle `extract` keeps: the smallest box holding both corners. */
  function ExtractBox(topLeft: Coord, bottomRight: Coord): W.Box
  {
    W.Spanning(topLeft, bottomRight).box.value
  }

  /** How `extract` re-keys: by `-topleft` when relative, not at all otherwise. */
  function ExtractShift(topLeft: Coord, relative: bool): Remap
  {
    if relative then Shift(Coord(-topLeft.x, -topLeft.y)) else Shift(Coord(0, 0))
  }

  /** The window test of `extract`'s loop. */
  function Inside(box: W.Box): Coord -> bool
  {
    (c: Coord) => W.InBox(box, c)
  }

  /**
   * `extract(topleft, bottomright, relative)`: the entries inside the
   * inclusive rectangle spanned by the two corners, moved by `-topleft`
   * when relative. The result is fixed exactly when the parent is.
   */
  function Extract<V>(g: Grid<V>, topLeft: Coord, bottomRight: Coord, relative: bool): (r: Grid<V>)
    ensures Valid(r) && r.default == g.default && r.window.fixed == g.window.fixed
  {
    var box := ExtractBox(topLeft, bottomRight);
    var e := Grid(map[], g.default, ExtractWindow(g, box, relative));
    Rebuild(e, Remapped(Restrict(g.cells, Inside(box)), ExtractShift(topLeft, relative)))
  }

  /** Without re-keying, `extract` keeps exactly the entries inside the rectangle, with their values. */
  lemma ExtractKeeps<V>(g: Grid<V>, topLeft: Coord, bottomRight: Coord)
    ensures forall c :: c in Extract(g, topLeft, bottomRight, false).cells <==>
      c in g.cells && W.InBox(ExtractBox(topLeft, bottomRight), c)
    ensures forall c :: c in Extract(g, topLeft, bottomRight, false).cells ==>
      Extract(g, topLeft, bottomRight, false).cells[c] == g.cells[c]
  {
    var box := ExtractBox(topLeft, bottomRight);
    var kept := Restrict(g.cells, Inside(box));
    assert Extract(g, topLeft, bottomRight, false).cells == Remapped(kept, Shift(Coord(0, 0)));
    UnshiftedKeeps(kept);
    forall c ensures c in kept <==> c in g.cells && W.InBox(box, c) {
      assert Inside(box)(c) == W.InBox(box, c);
    }
  }

  /** Moving keys by the zero shift changes nothing. */
  lemma UnshiftedKeeps<V>(m: map<Coord, V>)
    ensures Remapped(m, Shift(Coord(0, 0))) == m
  {
    var r := Remapped(m, Shift(Coord(0, 0)));
    forall d ensures Bwd(Shift(Coord(0, 0)), d) == d {
    }
    MapsEqual(r, m);
  }

  /** With re-keying, the entry at `c` inside the rectangle is found at `c - topleft`, and nothing else is stored. */
  lemma ExtractRelative<V>(g: Grid<V>, topLeft: Coord, bottomRight: Coord)
    ensures forall c :: Diff(topLeft, c) in Extract(g, topLeft, bottomRight, true).cells <==>
      c in g.cells && W.InBox(ExtractBox(topLeft, bottomRight), c)
    ensures forall c :: Diff(topLeft, c) in Extract(g, topLeft, bottomRight, true).cells ==>
      Extract(g, topLeft, bottomRight, true).cells[Diff(topLeft, c)] == g.cells[c]
  {
    var box := ExtractBox(topLeft, bottomRight);
    assert Extract(g, topLeft, bottomRight, true).cells == Remapped(Restrict(g.cells, Inside(box)), ExtractShift(topLeft, true));
    RelativeInside(g.cells, Extract(g, topLeft, bottomRight, true).cells, topLeft, box);
  }

  /** The keys kept inside `box` and moved by `-topleft` are found again by `Diff`. */
  lemma RelativeInside<V>(src: map<Coord, V>, r: map<Coord, V>, topLeft: Coord, box: W.Box)
    requires r == Remapped(Restrict(src, Inside(box)), ExtractShift(topLeft, true))
    ensures forall c {:trigger Diff(topLeft, c)} :: Diff(topLeft, c) in r <==> c in src && W.InBox(box, c)
    ensures forall c {:trigger Diff(topLeft, c)} :: Diff(topLeft, c) in r ==> r[Diff(topLeft, c)] == src[c]
  {
    RelativeAll(Restrict(src, Inside(box)), r, topLeft);
  }

  /** Keys moved by `-topleft` are found again by `Diff`. */
  lemma RelativeAll<V>(m: map<Coord, V>, r: map<Coord, V>, topLeft: Coord)
    requires forall d :: d in r <==> Bwd(ExtractShift(topLeft, true), d) in m
    requires forall d :: d in r ==> r[d] == m[Bwd(ExtractShift(topLeft, true), d)]
    ensures forall c {:trigger Diff(topLeft, c)} :: Diff(topLeft, c) in r <==> c in m
    ensures forall c {:trigger Diff(topLeft, c)} :: Diff(topLeft, c) in r ==> r[Diff(topLeft, c)] == m[c]
  {
    forall c ensures Bwd(ExtractShift(topLeft, true), Diff(topLeft, c)) == c {
    }
  }

  /** The source's `extract` loop, in any key order, builds `Extract`. */
  lemma ExtractLoop<V>(g: Grid<V>, topLeft: Coord, bottomRight: Coord, relative: bool, order: seq<Coord>)
    requires forall i :: 0 <= i < |order| ==> order[i] in g.cells
    requires forall c :: c in g.cells ==> c in order
    ensures CopyLoop(Grid(map[], g.default, ExtractWindow(g, ExtractBox(topLeft, bottomRight), relative)),
                     g.cells, order, ExtractShift(topLeft, relative), Inside(ExtractBox(topLeft, bottomRight)))
            == Extract(g, topLeft, bottomRight, relative)
  {
    var box := ExtractBox(topLeft, bottomRight);
    var e := Grid(map[], g.default, ExtractWindow(g, box, relative));
    CopyLoopBuilds(e, g.cells, order, ExtractShift(topLeft, relative), Inside(box));
  }

  /** `copy()`: `extract` of the whole window; an empty window throws. */
  function Copy<V>(g: Grid<V>): (r: Result<Grid<V>>)
    ensures r.Err? <==> W.IsEmpty(g.window)
    ensures r.Err? ==> r.error == Runtime
    ensures r.Ok? && W.Ordered(g.window.box.value) ==>
      forall c :: c in r.value.cells <==> c in g.cells && W.Contains(g.window, c) == Ok(true)
  {
    match g.window.box
    case None => Err(Runtime)
    case Some(b) =>
      assert W.Ordered(b) ==> ExtractBox(b.lo, b.hi) == b;
      Ok(Extract(g, b.lo, b.hi, false))
  }

  /** Copying a valid grid whose keys lie in its ordered window gives the grid back. */
  lemma CopyIsIdentity<V>(g: Grid<V>)
    requires Valid(g) && g.window.box.Some? && W.Ordered(g.window.box.value)
    requires forall c :: c in g.cells ==> W.InBox(g.window.box.value, c)
    ensures Copy(g) == Ok(g)
  {
    var b := g.window.box.value;
    assert ExtractBox(b.lo, b.hi) == b;
    var r := Copy(g).value;
    ExtractKeeps(g, b.lo, b.hi);
    assert r.cells == g.cells;
    ValidDetermined(r, g);
  }

  // ---------------------------------------------------------------- rotate and flip

  /** The clockwise turn by `k` quarters (`k` in 1..3, anything else above 2 counting as 3) of a grid of size `s`. */
  function Turn(s: Coord, k: int): Remap
  {
    if k == 1 then QuarterTurn(s) else if k == 2 then HalfTurn(s) else ThreeQuarterTurn(s)
  }

  /**
   * The body of `rotate` once the remainder `r` is known: 0 copies; 1 and 2
   * turn by one or two quarters; every other value turns by three. Sizes are
   * those of the source window; the window is that of `copyEmpty`.
   */
  function RotateBy<V>(g: Grid<V>, r: int): (res: Result<Grid<V>>)
    ensures res.Err? <==> W.IsEmpty(g.window)
    ensures res.Err? ==> res.error == Runtime
    ensures res.Ok? ==> Valid(res.value) && res.value.default == g.default
    ensures res.Ok? && r != 0 ==> res.value.window.fixed == g.window.fixed
  {
    if r == 0 then Copy(g)
    else match CopyEmpty(g)
      case Err(e) => Err(e)
      case Ok(e) => Ok(Rebuild(e, Remapped(g.cells, Turn(Size(g).value, r))))
  }

  /** `rotate(rotations)` as written: the remainder is Java's `%`, negative for a negative count. */
  function RotateAsWritten<V>(g: Grid<V>, rotations: int): (r: Result<Grid<V>>)
    ensures r.Err? <==> W.IsEmpty(g.window)
  {
    RotateBy(g, Numeric.TRem(rotations, 4))
  }

  /** `rotate(rotations)` with the remainder taken in 0..3, so a negative count turns counter-clockwise. */
  function Rotate<V>(g: Grid<V>, rotations: int): (r: Result<Grid<V>>)
    ensures r.Err? <==> W.IsEmpty(g.window)
    ensures r.Err? ==> r.error == Runtime
    ensures r.Ok? ==> Valid(r.value) && r.value.default == g.default
  {
    RotateBy(g, rotations % 4)
  }

  /** For a non-negative count the source's remainder is the intended one. */
  lemma RotateAsWrittenAgrees<V>(g: Grid<V>, rotations: int)
    requires rotations >= 0
    ensures RotateAsWritten(g, rotations) == Rotate(g, rotations)
  {
    Numeric.TruncatingAgreesOnNatural(rotations, 4);
  }

  /** Away from 0, `RotateBy` stores exactly the turned cells. */
  lemma RotateByCells<V>(g: Grid<V>, r: int)
    requires r != 0 && !W.IsEmpty(g.window)
    ensures RotateBy(g, r).Ok? && RotateBy(g, r).value.cells == Remapped(g.cells, Turn(Size(g).value, r))
  {
  }

  /** A count of 0 to 3 turns by itself. */
  lemma RotateSmall<V>(g: Grid<V>, k: int)
    requires 0 <= k < 4
    ensures Rotate(g, k) == RotateBy(g, k)
  {
    assert k % 4 == k;
  }

  /** A count of 1 to 3 stores exactly the cells moved by the matching turn. */
  lemma RotateCells<V>(g: Grid<V>, k: int)
    requires 0 < k < 4 && !W.IsEmpty(g.window)
    ensures Rotate(g, k).Ok? && Rotate(g, k).value.cells == Remapped(g.cells, Turn(Size(g).value, k))
  {
    RotateSmall(g, k);
    RotateByCells(g, k);
  }

  /** Turning moves the value at `c` to the key's image under the turn, and stores nothing else. */
  lemma RotateMoves<V>(g: Grid<V>, rotations: int, c: Coord, d: Coord)
    requires rotations % 4 != 0 && !W.IsEmpty(g.window) && c in g.cells
    ensures Rotate(g, rotations).Ok?
    ensures Fwd(Turn(Size(g).value, rotations % 4), c) in Rotate(g, rotations).value.cells
    ensures Rotate(g, rotations).value.cells[Fwd(Turn(Size(g).value, rotations % 4), c)] == g.cells[c]
    ensures d in Rotate(g, rotations).value.cells <==> Bwd(Turn(Size(g).value, rotations % 4), d) in g.cells
  {
    RotateByCells(g, rotations % 4);
    RemappedAt(g.cells, Turn(Size(g).value, rotations % 4), c);
  }

  /**
   * On a 2x1 grid holding (0,0), `rotate(-2)` as written turns three
   * quarters and stores the value at (0,1); a half turn stores it at (1,0).
   */
  lemma RotateAsWrittenCounterexample(g: Grid<int>)
    requires g.cells == map[Coord(0, 0) := 7] && g.window.box == Some(W.Box(Coord(0, 0), Coord(1, 0)))
    ensures RotateAsWritten(g, -2).Ok? && Coord(0, 1) in RotateAsWritten(g, -2).value.cells
    ensures Rotate(g, -2).Ok? && Coord(1, 0) in Rotate(g, -2).value.cells
    ensures Coord(0, 1) !in Rotate(g, -2).value.cells
  {
    var o := Coord(0, 0);
    TwoByOne(g);
    OnlyOrigin(g, o);
    TurnsOfOrigin(Size(g).value, o, -2, 2);
    RemainderOfMinusTwo();
    ThreeQuartersStores(g, o);
    HalfStores(g, o);
  }

  lemma ThreeQuartersStores(g: Grid<int>, o: Coord)
    requires !W.IsEmpty(g.window) && o in g.cells
    requires Fwd(Turn(Size(g).value, -2), o) == Coord(0, 1)
    requires Numeric.TRem(-2, 4) == -2
    ensures RotateAsWritten(g, -2).Ok? && Coord(0, 1) in RotateAsWritten(g, -2).value.cells
  {
    RotateByStores(g, -2, o);
  }

  lemma HalfStores(g: Grid<int>, o: Coord)
    requires !W.IsEmpty(g.window) && o in g.cells && Coord(1, -1) !in g.cells
    requires Fwd(Turn(Size(g).value, 2), o) == Coord(1, 0)
    requires Bwd(Turn(Size(g).value, 2), Coord(0, 1)) == Coord(1, -1)
    requires -2 % 4 == 2
    ensures Rotate(g, -2).Ok? && Coord(1, 0) in Rotate(g, -2).value.cells
    ensures Coord(0, 1) !in Rotate(g, -2).value.cells
  {
    RotateByStores(g, 2, o);
    RotateByCells(g, 2);
  }

  lemma TwoByOne(g: Grid<int>)
    requires g.window.box == Some(W.Box(Coord(0, 0), Coord(1, 0)))
    ensures !W.IsEmpty(g.window) && Size(g) == Some(Coord(2, 1))
  {
  }

  lemma OnlyOrigin(g: Grid<int>, o: Coord)
    requires g.cells == map[o := 7] && o == Coord(0, 0)
    ensures o in g.cells && Coord(1, -1) !in g.cells
  {
  }

  lemma TurnsOfOrigin(s: Coord, o: Coord, three: int, two: int)
    requires s == Coord(2, 1) && o == Coord(0, 0) && three == -2 && two == 2
    ensures Fwd(Turn(s, three), o) == Coord(0, 1)
    ensures Fwd(Turn(s, two), o) == Coord(1, 0)
    ensures Bwd(Turn(s, two), Coord(0, 1)) == Coord(1, -1)
  {
  }

  lemma RemainderOfMinusTwo()
    ensures Numeric.TRem(-2, 4) == -2 && -2 % 4 == 2
  {
  }

  /** Turning by `r` moves the value at `c` to the key's image under the turn. */
  lemma RotateByStores<V>(g: Grid<V>, r: int, c: Coord)
    requires r != 0 && !W.IsEmpty(g.window) && c in g.cells
    ensures RotateBy(g, r).Ok? && Fwd(Turn(Size(g).value, r), c) in RotateBy(g, r).value.cells
    ensures RotateBy(g, r).value.cells[Fwd(Turn(Size(g).value, r), c)] == g.cells[c]
  {
    RotateByCells(g, r);
    RemappedAt(g.cells, Turn(Size(g).value, r), c);
  }

  /** `flip(horizontal)`: every key is mirrored within the window's size; an empty window throws. */
  function Flip<V>(g: Grid<V>, horizontal: bool): (r: Result<Grid<V>>)
    ensures r.Err? <==> W.IsEmpty(g.window)
    ensures r.Err? ==> r.error == Runtime
    ensures r.Ok? ==> Valid(r.value) && r.value.default == g.default && r.value.window.fixed == g.window.fixed
  {
    match CopyEmpty(g)
    case Err(e) => Err(e)
    case Ok(e) => Ok(Rebuild(e, Remapped(g.cells, Mirror(Size(g).value, horizontal))))
  }

  /** `Flip` stores exactly the mirrored cells. */
  lemma FlipCells<V>(g: Grid<V>, horizontal: bool)
    requires !W.IsEmpty(g.window)
    ensures Flip(g, horizontal).Ok? && Flip(g, horizontal).value.cells == Remapped(g.cells, Mirror(Size(g).value, horizontal))
  {
  }

  /** Flipping moves the value at `c` to its mirror image, and stores nothing else. */
  lemma FlipMoves<V>(g: Grid<V>, horizontal: bool, c: Coord, d: Coord)
    requires !W.IsEmpty(g.window) && c in g.cells
    ensures Flip(g, horizontal).Ok?
    ensures Fwd(Mirror(Size(g).value, horizontal), c) in Flip(g, horizontal).value.cells
    ensures Flip(g, horizontal).value.cells[Fwd(Mirror(Size(g).value, horizontal), c)] == g.cells[c]
    ensures d in Flip(g, horizontal).value.cells <==> Bwd(Mirror(Size(g).value, horizontal), d) in g.cells
  {
    FlipCells(g, horizontal);
    RemappedAt(g.cells, Mirror(Size(g).value, horizontal), c);
  }

  /** The source's `rotate` and `flip` loops, in any key order, build `RotateBy` and `Flip`. */
  lemma TurnLoop<V>(g: Grid<V>, t: Remap, order: seq<Coord>)
    requires !W.IsEmpty(g.window)
    requires forall i :: 0 <= i < |order| ==> order[i] in g.cells
    requires forall c :: c in g.cells ==> c in order
    ensures CopyLoop(CopyEmpty(g).value, g.cells, order, t, (c: Coord) => true) == Rebuild(CopyEmpty(g).value, Remapped(g.cells, t))
  {
    var e := CopyEmpty(g).value;
    CopyLoopBuilds(e, g.cells, order, t, (c: Coord) => true);
    assert Restrict(g.cells, (c: Coord) => true) == g.cells;
  }

  // ---------------------------------------------------------------- turning back

  /** The size of a box: its width and height. */
  function BoxSize(b: W.Box): Coord
  {
    Coord(b.hi.x - b.lo.x + 1, b.hi.y - b.lo.y + 1)
  }

  /** On a valid dynamic grid with values, the window is the keys' bounding box. */
  lemma DynamicWindow<V>(g: Grid<V>)
    requires Valid(g) && !g.window.fixed && !W.IsEmpty(g.window)
    ensures g.cells.Keys != {}
    ensures W.IsBoundingBox(g.cells.Keys, g.window.box.value)
    ensures Size(g) == Some(BoxSize(g.window.box.value))
  {
  }

  /** A valid dynamic grid whose keys have bounding box `b` has window `b`. */
  lemma WindowOfBox<V>(g: Grid<V>, b: W.Box)
    requires Valid(g) && !g.window.fixed && W.IsBoundingBox(g.cells.Keys, b)
    ensures g.window.box == Some(b) && Size(g) == Some(BoxSize(b))
  {
    var keys := g.cells.Keys;
    var c :| c in keys;
    W.BoundingBoxUnique(keys, b, W.BoundingBox(keys));
  }

  /** The box `b` mirrored within size `s`. */
  function MirrorBoxOf(s: Coord, horizontal: bool, b: W.Box): W.Box
  {
    if horizontal then W.Box(Coord(s.x - 1 - b.hi.x, b.lo.y), Coord(s.x - 1 - b.lo.x, b.hi.y))
    else W.Box(Coord(b.lo.x, s.y - 1 - b.hi.y), Coord(b.hi.x, s.y - 1 - b.lo.y))
  }

  lemma QuarterTurnBox(cs: set<Coord>, b: W.Box, s: Coord)
    requires W.IsBoundingBox(cs, b)
    ensures W.IsBoundingBox(Image(cs, QuarterTurn(s)), W.Box(Coord(s.y - 1 - b.hi.y, b.lo.x), Coord(s.y - 1 - b.lo.y, b.hi.x)))
  {
    var t := QuarterTurn(s);
    var ds := Image(cs, t);
    var a :| a in cs && a.y == b.hi.y;
    var e :| e in cs && e.x == b.lo.x;
    var k :| k in cs && k.y == b.lo.y;
    var l :| l in cs && l.x == b.hi.x;
    assert Fwd(t, a) in ds && Fwd(t, e) in ds && Fwd(t, k) in ds && Fwd(t, l) in ds;
  }

  lemma HalfTurnBox(cs: set<Coord>, b: W.Box, s: Coord)
    requires W.IsBoundingBox(cs, b)
    ensures W.IsBoundingBox(Image(cs, HalfTurn(s)), W.Box(Coord(s.x - 1 - b.hi.x, s.y - 1 - b.hi.y), Coord(s.x - 1 - b.lo.x, s.y - 1 - b.lo.y)))
  {
    var t := HalfTurn(s);
    var ds := Image(cs, t);
    var a :| a in cs && a.x == b.hi.x;
    var e :| e in cs && e.y == b.hi.y;
    var k :| k in cs && k.x == b.lo.x;
    var l :| l in cs && l.y == b.lo.y;
    assert Fwd(t, a) in ds && Fwd(t, e) in ds && Fwd(t, k) in ds && Fwd(t, l) in ds;
  }

  lemma MirrorBox(cs: set<Coord>, b: W.Box, s: Coord, horizontal: bool)
    requires W.IsBoundingBox(cs, b)
    ensures W.IsBoundingBox(Image(cs, Mirror(s, horizontal)), MirrorBoxOf(s, horizontal, b))
  {
    var t := Mirror(s, horizontal);
    var ds := Image(cs, t);
    var a :| a in cs && a.x == b.lo.x;
    var e :| e in cs && e.y == b.lo.y;
    var k :| k in cs && k.x == b.hi.x;
    var l :| l in cs && l.y == b.hi.y;
    assert Fwd(t, a) in ds && Fwd(t, e) in ds && Fwd(t, k) in ds && Fwd(t, l) in ds;
  }

  /** A valid dynamic grid holding the quarter-turned keys of a box `b` has the turned size. */
  lemma QuarterTurnWindow<V>(g1: Grid<V>, cs: set<Coord>, b: W.Box, s: Coord)
    requires Valid(g1) && !g1.window.fixed
    requires W.IsBoundingBox(cs, b) && s == BoxSize(b)
    requires g1.cells.Keys == Image(cs, QuarterTurn(s))
    ensures Size(g1) == Some(Coord(s.y, s.x))
  {
    QuarterTurnBox(cs, b, s);
    WindowOfBox(g1, W.Box(Coord(s.y - 1 - b.hi.y, b.lo.x), Coord(s.y - 1 - b.lo.y, b.hi.x)));
  }

  lemma HalfTurnWindow<V>(g1: Grid<V>, cs: set<Coord>, b: W.Box, s: Coord)
    requires Valid(g1) && !g1.window.fixed
    requires W.IsBoundingBox(cs, b) && s == BoxSize(b)
    requires g1.cells.Keys == Image(cs, HalfTurn(s))
    ensures Size(g1) == Some(s)
  {
    HalfTurnBox(cs, b, s);
    WindowOfBox(g1, W.Box(Coord(s.x - 1 - b.hi.x, s.y - 1 - b.hi.y), Coord(s.x - 1 - b.lo.x, s.y - 1 - b.lo.y)));
  }

  lemma MirrorWindow<V>(g1: Grid<V>, cs: set<Coord>, b: W.Box, s: Coord, horizontal: bool)
    requires Valid(g1) && !g1.window.fixed
    requires W.IsBoundingBox(cs, b) && s == BoxSize(b)
    requires g1.cells.Keys == Image(cs, Mirror(s, horizontal))
    ensures Size(g1) == Some(s)
  {
    MirrorBox(cs, b, s, horizontal);
    WindowOfBox(g1, MirrorBoxOf(s, horizontal, b));
  }

  /** The keys after turning by `k` quarters are the turned keys. */
  lemma RotateKeys<V>(g: Grid<V>, k: int)
    requires 0 < k < 4 && !W.IsEmpty(g.window)
    ensures Rotate(g, k).Ok? && Rotate(g, k).value.cells.Keys == Image(g.cells.Keys, Turn(Size(g).value, k))
  {
    RotateCells(g, k);
    RemappedKeys(g.cells, Turn(Size(g).value, k));
  }

  /** A quarter turn of a valid dynamic grid with values swaps its width and height. */
  lemma QuarterTurnSize<V>(g: Grid<V>)
    requires Valid(g) && !g.window.fixed && !W.IsEmpty(g.window)
    ensures Rotate(g, 1).Ok? && !Rotate(g, 1).value.window.fixed
    ensures Size(Rotate(g, 1).value) == Some(Coord(Size(g).value.y, Size(g).value.x))
  {
    DynamicWindow(g);
    RotateKeys(g, 1);
    QuarterTurnWindow(Rotate(g, 1).value, g.cells.Keys, g.window.box.value, Size(g).value);
  }

  /** On a dynamic grid, turning one quarter and then three quarters gives the grid back. */
  lemma RotateQuarterBack<V>(g: Grid<V>)
    requires Valid(g) && !g.window.fixed && !W.IsEmpty(g.window)
    ensures Rotate(g, 1).Ok? && Rotate(Rotate(g, 1).value, 3) == Ok(g)
  {
    QuarterTurnSize(g);
    QuarterBackFrom(g, Rotate(g, 1).value);
  }

  lemma QuarterBackFrom<V>(g: Grid<V>, g1: Grid<V>)
    requires Valid(g) && !g.window.fixed && !W.IsEmpty(g.window)
    requires Rotate(g, 1) == Ok(g1) && !g1.window.fixed
    requires Size(g1) == Some(Coord(Size(g).value.y, Size(g).value.x))
    ensures Rotate(g1, 3) == Ok(g)
  {
    RotateCells(g, 1);
    RotateCells(g1, 3);
    var s := Size(g).value;
    var t := QuarterTurn(s);
    assert Turn(s, 1) == t && Turn(Size(g1).value, 3) == ThreeQuarterTurn(Coord(s.y, s.x));
    QuarterTurnInverse(s);
    TurnedBack(g, g1, Rotate(g1, 3).value, t, ThreeQuarterTurn(Coord(s.y, s.x)));
  }

  lemma QuarterTurnInverse(s: Coord)
    ensures Inv(QuarterTurn(s)) == ThreeQuarterTurn(Coord(s.y, s.x))
  {
  }

  /** A grid whose cells were moved by `t` and then by `u`, the inverse of `t`, is the grid again. */
  lemma TurnedBack<V>(g: Grid<V>, g1: Grid<V>, g2: Grid<V>, t: Remap, u: Remap)
    requires Valid(g) && Valid(g2) && g2.default == g.default && g2.window.fixed == g.window.fixed
    requires g.window.fixed ==> g2.window == g.window
    requires g1.cells == Remapped(g.cells, t) && g2.cells == Remapped(g1.cells, u) && u == Inv(t)
    ensures g2 == g
  {
    RemappedBack(g.cells, t);
    ValidDetermined(g2, g);
  }

  /** A half turn keeps the size of a valid grid with an ordered window. */
  lemma HalfTurnSize<V>(g: Grid<V>)
    requires Valid(g) && !W.IsEmpty(g.window) && W.Ordered(g.window.box.value)
    ensures Rotate(g, 2).Ok? && Size(Rotate(g, 2).value) == Size(g)
    ensures Rotate(g, 2).value.window.fixed == g.window.fixed
    ensures g.window.fixed ==> Rotate(g, 2).value.window == g.window
  {
    RotateSmall(g, 2);
    if !g.window.fixed {
      HalfTurnDynamic(g);
    }
  }

  lemma HalfTurnDynamic<V>(g: Grid<V>)
    requires Valid(g) && !g.window.fixed && !W.IsEmpty(g.window)
    ensures Rotate(g, 2).Ok? && Size(Rotate(g, 2).value) == Size(g) && !Rotate(g, 2).value.window.fixed
  {
    RotateSmall(g, 2);
    DynamicWindow(g);
    RotateKeys(g, 2);
    HalfTurnWindow(Rotate(g, 2).value, g.cells.Keys, g.window.box.value, Size(g).value);
  }

  /** Two half turns give the grid back, fixed or dynamic. */
  lemma RotateHalfTwice<V>(g: Grid<V>)
    requires Valid(g) && !W.IsEmpty(g.window) && W.Ordered(g.window.box.value)
    ensures Rotate(g, 2).Ok? && Rotate(Rotate(g, 2).value, 2) == Ok(g)
  {
    HalfTurnSize(g);
    HalfBackFrom(g, Rotate(g, 2).value);
  }

  lemma HalfBackFrom<V>(g: Grid<V>, g1: Grid<V>)
    requires Valid(g) && !W.IsEmpty(g.window)
    requires Rotate(g, 2) == Ok(g1) && Size(g1) == Size(g) && g1.window.fixed == g.window.fixed
    requires g.window.fixed ==> g1.window == g.window
    ensures Rotate(g1, 2) == Ok(g)
  {
    HalfTurnFacts(g, g1);
    TurnFacts(g1, 2);
    var t := HalfTurn(Size(g).value);
    assert Turn(Size(g).value, 2) == t && Turn(Size(g1).value, 2) == t;
    HalfTurnSelfInverse(Size(g).value);
    TurnedBack(g, g1, Rotate(g1, 2).value, t, t);
  }

  lemma HalfTurnSelfInverse(s: Coord)
    ensures Inv(HalfTurn(s)) == HalfTurn(s)
  {
  }

  /** A half turn moves the cells by the turn, and a fixed grid comes out with an ordered window. */
  lemma HalfTurnFacts<V>(g: Grid<V>, g1: Grid<V>)
    requires !W.IsEmpty(g.window) && Rotate(g, 2) == Ok(g1)
    ensures g1.cells == Remapped(g.cells, Turn(Size(g).value, 2))
    ensures g.window.fixed ==> W.Ordered(g1.window.box.value)
  {
    RotateCells(g, 2);
    if g.window.fixed {
      TurnedFixedOrdered(g, 2);
    }
  }

  /** Turning a fixed grid leaves it with the spanned, hence ordered, window. */
  lemma TurnedFixedOrdered<V>(g: Grid<V>, k: int)
    requires 0 < k < 4 && g.window.fixed && !W.IsEmpty(g.window)
    ensures Rotate(g, k).Ok? && Rotate(g, k).value.window == W.Spanning(g.window.box.value.lo, g.window.box.value.hi)
  {
    RotateSmall(g, k);
    var e := CopyEmpty(g).value;
    assert e.window == W.Spanning(g.window.box.value.lo, g.window.box.value.hi);
  }

  /** What a turn by 1 to 3 quarters stores, and which window it keeps. */
  lemma TurnFacts<V>(g: Grid<V>, k: int)
    requires 0 < k < 4 && !W.IsEmpty(g.window)
    ensures Rotate(g, k).Ok? && Rotate(g, k).value.cells == Remapped(g.cells, Turn(Size(g).value, k))
    ensures Rotate(g, k).value.window.fixed == g.window.fixed
    ensures g.window.fixed && W.Ordered(g.window.box.value) ==> Rotate(g, k).value.window == g.window
  {
    RotateCells(g, k);
    RotateKeepsKind(g, k);
    if g.window.fixed && W.Ordered(g.window.box.value) {
      RotateKeepsFixed(g, k);
    }
  }

  /** A turn keeps the grid fixed or dynamic. */
  lemma RotateKeepsKind<V>(g: Grid<V>, k: int)
    requires 0 < k < 4 && !W.IsEmpty(g.window)
    ensures Rotate(g, k).Ok? && Rotate(g, k).value.window.fixed == g.window.fixed
  {
    RotateSmall(g, k);
  }

  /** A turn of a fixed grid with an ordered window keeps the window. */
  lemma RotateKeepsFixed<V>(g: Grid<V>, k: int)
    requires 0 < k < 4 && g.window.fixed && !W.IsEmpty(g.window) && W.Ordered(g.window.box.value)
    ensures Rotate(g, k).Ok? && Rotate(g, k).value.window == g.window
  {
    RotateSmall(g, k);
  }

  /** A flip keeps the size of a valid grid with an ordered window. */
  lemma MirrorSize<V>(g: Grid<V>, horizontal: bool)
    requires Valid(g) && !W.IsEmpty(g.window) && W.Ordered(g.window.box.value)
    ensures Flip(g, horizontal).Ok? && Size(Flip(g, horizontal).value) == Size(g)
    ensures g.window.fixed ==> Flip(g, horizontal).value.window == g.window
  {
    if !g.window.fixed {
      DynamicWindow(g);
      FlipCells(g, horizontal);
      RemappedKeys(g.cells, Mirror(Size(g).value, horizontal));
      MirrorWindow(Flip(g, horizontal).value, g.cells.Keys, g.window.box.value, Size(g).value, horizontal);
    }
  }

  /** Flipping twice the same way gives the grid back. */
  lemma FlipTwice<V>(g: Grid<V>, horizontal: bool)
    requires Valid(g) && !W.IsEmpty(g.window) && W.Ordered(g.window.box.value)
    ensures Flip(g, horizontal).Ok? && Flip(Flip(g, horizontal).value, horizontal) == Ok(g)
  {
    MirrorSize(g, horizontal);
    FlipCells(g, horizontal);
    var g1 := Flip(g, horizontal).value;
    FlipCells(g1, horizontal);
    TurnedBack(g, g1, Flip(g1, horizontal).value, Mirror(Size(g).value, horizontal), Mirror(Size(g1).value, horizontal));
  }
}
