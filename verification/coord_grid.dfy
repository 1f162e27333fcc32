/**
 * A sparse grid (`CoordGrid`): a map from coordinates to values, a default
 * value read for every unmapped coordinate, and a window. A dynamic window
 * tracks the bounding box of the mapped coordinates; a fixed one does not
 * move.
 */
module CoordGrid {
  import opened Wrappers
  import opened Coord2D
  import W = Window2D
  import Text

  datatype Grid<V> = Grid(cells: map<Coord, V>, default: V, window: W.Window)

  /**
   * The grid invariant: the window is what `resize` over the stored keys
   * would make it, i.e. a dynamic window is empty exactly when no key is
   * stored and is otherwise the keys' bounding box.
   */
  predicate Valid<V>(g: Grid<V>)
  {
    g.window == W.Resize(g.window, g.cells.Keys)
  }

  /** `new CoordGrid(default)`: no values, an empty dynamic window. */
  function NewGrid<V>(default: V): (g: Grid<V>)
    ensures Valid(g) && g.cells == map[] && W.IsEmpty(g.window) && !g.window.fixed
  {
    Grid(map[], default, W.NewDynamic())
  }

  /** `new CoordGrid(width, height, default)`: no values, a fixed window from (0,0) to (width-1, height-1). */
  function NewSizedGrid<V>(width: int, height: int, default: V): (g: Grid<V>)
    ensures Valid(g) && g.cells == map[] && g.window.fixed
    ensures forall c :: W.Contains(g.window, c) == Ok(0 <= c.x < width && 0 <= c.y < height)
  {
    Grid(map[], default, W.NewSized(width, height))
  }

  /** `get(coord, valDefault)`: the stored value, or the supplied fallback. The window is not consulted. */
  function GetOr<V>(g: Grid<V>, c: Coord, fallback: V): (r: V)
    ensures c in g.cells ==> r == g.cells[c]
    ensures c !in g.cells ==> r == fallback
  {
    if c in g.cells then g.cells[c] else fallback
  }

  /** `get(coord)`: the stored value, or the grid's default. */
  function Get<V>(g: Grid<V>, c: Coord): (r: V)
    ensures c in g.cells ==> r == g.cells[c]
    ensures c !in g.cells ==> r == g.default
  {
    GetOr(g, c, g.default)
  }

  /** `hasValue`. */
  predicate HasValue<V>(g: Grid<V>, c: Coord)
  {
    c in g.cells
  }

  /** The successful path of `set`: store the value and let the window include the coordinate. */
  function Put<V>(g: Grid<V>, c: Coord, v: V): (r: Grid<V>)
    ensures r.cells == g.cells[c := v] && r.default == g.default
    ensures r.window.fixed == g.window.fixed
    ensures Valid(g) ==> Valid(r)
  {
    PutKeepsValid(g, c, v);
    Grid(g.cells[c := v], g.default, W.Include(g.window, c))
  }

  lemma PutKeepsValid<V>(g: Grid<V>, c: Coord, v: V)
    ensures Valid(g) ==> Valid(Grid(g.cells[c := v], g.default, W.Include(g.window, c)))
  {
    if Valid(g) && !g.window.fixed {
      assert g.cells[c := v].Keys == g.cells.Keys + {c};
      W.GrowBoundingBox(g.cells.Keys, c);
    }
  }

  /**
   * `set(coord, value)`: a null value throws; otherwise the value is stored,
   * the previous value (if any) is returned, and a dynamic window grows to
   * include the coordinate.
   */
  function Set<V>(g: Grid<V>, c: Coord, value: Option<V>): (r: Result<(Grid<V>, Option<V>)>)
    ensures r.Err? <==> value.None?
    ensures r.Err? ==> r.error == NullPointer
    ensures r.Ok? ==> r.value.1 == (if c in g.cells then Some(g.cells[c]) else None)
    ensures r.Ok? ==> Get(r.value.0, c) == value.value
    ensures r.Ok? ==> forall d :: d != c ==> Get(r.value.0, d) == Get(g, d) && (HasValue(r.value.0, d) <==> HasValue(g, d))
    ensures r.Ok? && !g.window.fixed ==> W.Contains(r.value.0.window, c) == Ok(true)
    ensures r.Ok? && g.window.fixed ==> r.value.0.window == g.window
    ensures r.Ok? && Valid(g) ==> Valid(r.value.0)
  {
    match value
    case None => Err(NullPointer)
    case Some(v) => Ok((Put(g, c, v), if c in g.cells then Some(g.cells[c]) else None))
  }

  /**
   * `unset(coord)`: the value is removed and returned; when the coordinate
   * lies on the border of a non-empty window the window is resized to the
   * remaining keys.
   */
  function Unset<V>(g: Grid<V>, c: Coord): (r: (Grid<V>, Option<V>))
    ensures r.1 == (if c in g.cells then Some(g.cells[c]) else None)
    ensures r.0.cells == g.cells - {c} && r.0.default == g.default
    ensures r.0.window.fixed == g.window.fixed
    ensures g.window.fixed ==> r.0.window == g.window
    ensures Valid(g) ==> Valid(r.0)
  {
    UnsetKeepsValid(g, c);
    (Grid(g.cells - {c}, g.default, UnsetWindow(g, c)), if c in g.cells then Some(g.cells[c]) else None)
  }

  /** The window after `unset`: resized only when the coordinate is on the border of a non-empty window. */
  function UnsetWindow<V>(g: Grid<V>, c: Coord): W.Window
  {
    if !W.IsEmpty(g.window) && W.OnBorder(g.window, c) == Ok(true)
    then W.Resize(g.window, (g.cells - {c}).Keys) else g.window
  }

  lemma UnsetKeepsValid<V>(g: Grid<V>, c: Coord)
    ensures Valid(g) ==> Valid(Grid(g.cells - {c}, g.default, UnsetWindow(g, c)))
  {
    var cells := g.cells - {c};
    assert cells.Keys == g.cells.Keys - {c};
    if Valid(g) && !g.window.fixed {
      if W.IsEmpty(g.window) {
        assert cells.Keys == {};
      } else if W.OnBorder(g.window, c) != Ok(true) {
        W.BoundingBoxRemoveInside(g.cells.Keys, c);
      }
    }
  }

  /** Whether `unset` resizes: the coordinate lies on the border of a non-empty window. */
  predicate UnsetResizes<V>(g: Grid<V>, c: Coord)
  {
    !W.IsEmpty(g.window) && W.OnBorder(g.window, c) == Ok(true)
  }

  /**
   * `unset` with the source's `resize` (see `Window2D.ResizeAsWritten`):
   * the same removal, but a resized dynamic window has its maximum corner
   * raised to at least (-1, -1).
   */
  function UnsetAsWritten<V>(g: Grid<V>, c: Coord): (r: (Grid<V>, Option<V>))
    ensures r.1 == Unset(g, c).1 && r.0.cells == Unset(g, c).0.cells && r.0.default == g.default
    ensures g.window.fixed ==> r.0.window == g.window
    ensures !UnsetResizes(g, c) ==> r.0.window == g.window
  {
    var w := if UnsetResizes(g, c) then W.ResizeAsWritten(g.window, (g.cells - {c}).Keys) else g.window;
    (Grid(g.cells - {c}, g.default, w), if c in g.cells then Some(g.cells[c]) else None)
  }

  /** Some remaining key reaches -1 on both axes: the condition under which the source's resize is exact. */
  predicate ReachesMinusOne(cs: set<Coord>)
  {
    (exists c :: c in cs && c.x >= -1) && (exists c :: c in cs && c.y >= -1)
  }

  /**
   * The source's `unset` gives the modelled grid exactly when it does not
   * resize, the window is fixed, no key remains, or the remaining keys reach
   * -1 on both axes.
   */
  lemma UnsetAsWrittenAgrees<V>(g: Grid<V>, c: Coord)
    ensures UnsetAsWritten(g, c) == Unset(g, c) <==>
      (!UnsetResizes(g, c) || g.window.fixed || (g.cells - {c}).Keys == {} || ReachesMinusOne((g.cells - {c}).Keys))
  {
    W.ResizeAsWrittenAgrees(g.window, (g.cells - {c}).Keys);
  }

  /**
   * Keys (-3,-3) and (-5,-5) with their bounding box as the window: unsetting
   * (-5,-5) leaves the source's window at (-3,-3)-(-1,-1), while the
   * modelled one is the single cell (-3,-3).
   */
  lemma UnsetAsWrittenCounterexample(g: Grid<int>)
    requires g == Grid(map[Coord(-3, -3) := 1, Coord(-5, -5) := 2], 0,
                       W.Window(Some(W.Box(Coord(-5, -5), Coord(-3, -3))), false))
    ensures UnsetAsWritten(g, Coord(-5, -5)).0.window.box == Some(W.Box(Coord(-3, -3), Coord(-1, -1)))
    ensures Unset(g, Coord(-5, -5)).0.window.box == Some(W.Box(Coord(-3, -3), Coord(-3, -3)))
    ensures Valid(g)
  {
    var cs := {Coord(-3, -3), Coord(-5, -5)};
    assert g.cells.Keys == cs;
    W.BoundingBoxUnique(cs, W.BoundingBox(cs), W.Box(Coord(-5, -5), Coord(-3, -3)));
    var rest := (g.cells - {Coord(-5, -5)}).Keys;
    assert rest == {Coord(-3, -3)};
    assert W.Xs(rest) == {-3} && W.Ys(rest) == {-3};
    W.BoundingBoxUnique(rest, W.BoundingBox(rest), W.Box(Coord(-3, -3), Coord(-3, -3)));
    assert UnsetResizes(g, Coord(-5, -5));
  }

  /** `unsetAll(coords)`: every listed value is removed, then the window is resized to the remaining keys. */
  function UnsetAll<V>(g: Grid<V>, cs: set<Coord>): (r: Grid<V>)
    ensures r.cells == g.cells - cs && r.default == g.default
    ensures g.window.fixed ==> r.window == g.window
    ensures Valid(r)
  {
    Grid(g.cells - cs, g.default, W.Resize(g.window, (g.cells - cs).Keys))
  }

  /** `unsetAll` with the source's `resize`: the same removal, the window resized as written. */
  function UnsetAllAsWritten<V>(g: Grid<V>, cs: set<Coord>): (r: Grid<V>)
    ensures r.cells == UnsetAll(g, cs).cells && r.default == g.default
    ensures g.window.fixed ==> r.window == g.window
    ensures !g.window.fixed ==> forall c :: c in r.cells ==> W.Contains(r.window, c) == Ok(true)
  {
    Grid(g.cells - cs, g.default, W.ResizeAsWritten(g.window, (g.cells - cs).Keys))
  }

  /** The source's `unsetAll` gives the modelled grid exactly when the window is fixed or the remaining keys are empty or reach -1 on both axes. */
  lemma UnsetAllAsWrittenAgrees<V>(g: Grid<V>, cs: set<Coord>)
    ensures UnsetAllAsWritten(g, cs) == UnsetAll(g, cs) <==>
      (g.window.fixed || (g.cells - cs).Keys == {} || ReachesMinusOne((g.cells - cs).Keys))
  {
    W.ResizeAsWrittenAgrees(g.window, (g.cells - cs).Keys);
  }

  /** `update(coord, f)`: sets the coordinate to `f` of its current value (default included). */
  function Update<V>(g: Grid<V>, c: Coord, f: V -> V): (r: (Grid<V>, Option<V>))
    ensures Get(r.0, c) == f(Get(g, c))
    ensures r.1 == (if c in g.cells then Some(g.cells[c]) else None)
    ensures forall d :: d != c ==> Get(r.0, d) == Get(g, d)
    ensures Valid(g) ==> Valid(r.0)
  {
    (Put(g, c, f(Get(g, c))), if c in g.cells then Some(g.cells[c]) else None)
  }

  /** `find(value)`: the coordinates storing the value (the source returns them in hash order). */
  function Find<V(==)>(g: Grid<V>, v: V): (r: set<Coord>)
    ensures forall c :: c in r <==> c in g.cells && g.cells[c] == v
  {
    set c | c in g.cells && g.cells[c] == v
  }

  /**
   * `count(value)`: the stored occurrences of the value, plus, when it is the
   * default, the window's cell count minus the number of stored entries. A
   * null value throws, and so does counting the default on an empty window.
   */
  function Count<V(==)>(g: Grid<V>, value: Option<V>): (r: Result<int>)
    ensures r.Err? <==> value.None? || (value.value == g.default && W.IsEmpty(g.window))
    ensures r.Err? ==> r.error == NullPointer
    ensures r.Ok? && value.value != g.default ==> r.value == |Find(g, value.value)|
  {
    match value
    case None => Err(NullPointer)
    case Some(v) =>
      var stored := |Find(g, v)|;
      if v != g.default then Ok(stored)
      else match W.Count(g.window)
        case Err(e) => Err(e)
        case Ok(n) => Ok(stored + n - |g.cells|)
  }

  /** The number of elements of `s` that satisfy `p`. */
  function CountWhere<T>(s: seq<T>, p: T -> bool): (n: nat)
    ensures n <= |s|
  {
    if |s| == 0 then 0 else CountWhere(s[..|s| - 1], p) + (if p(s[|s| - 1]) then 1 else 0)
  }

  /**
   * `countIf(condition)`: the window coordinates, in iteration order, that
   * satisfy the condition; an empty window, and the zero-width window of
   * `new CoordGrid(0, 1, d)`, have none.
   */
  function CountIf<V>(g: Grid<V>, cond: Coord -> bool): (n: nat)
    requires g.window.box.Some? ==> W.Stops(g.window.box.value)
    ensures W.IsEmpty(g.window) ==> n == 0
    ensures g.window.box.Some? && !W.Ordered(g.window.box.value) ==> n == 0
    ensures W.Count(g.window).Ok? ==> n <= W.Count(g.window).value
  {
    match g.window.box
    case None => 0
    case Some(b) => CountWhere(W.IterOrder(b), cond)
  }

  /** `new CoordGrid(0, 1, d)` has the zero-width window from (0,0) to (-1,0), and `countIf` on it is 0. */
  lemma CountIfZeroWidth<V>(d: V, cond: Coord -> bool)
    ensures NewSizedGrid(0, 1, d).window.box == Some(W.Box(Coord(0, 0), Coord(-1, 0)))
    ensures CountIf(NewSizedGrid(0, 1, d), cond) == 0
  {
    assert W.NewSized(0, 1) == W.NewBounds(0, 0, -1, 0);
  }

  /** `contains(coord)`: window membership; an empty window throws. */
  function Contains<V>(g: Grid<V>, c: Coord): (r: Result<bool>)
    ensures r == W.Contains(g.window, c)
  {
    W.Contains(g.window, c)
  }

  /** `getRelative(coord)`: the coordinate measured from the window's minimum corner; an empty window throws. */
  function GetRelative<V>(g: Grid<V>, c: Coord): (r: Result<Coord>)
    ensures r.Err? <==> W.IsEmpty(g.window)
    ensures r.Ok? ==> Move(g.window.box.value.lo, r.value.x, r.value.y) == c
  {
    match W.MinCoord(g.window)
    case Err(e) => Err(e)
    case Ok(lo) => Ok(Coord(c.x - lo.x, c.y - lo.y))
  }

  /** `size()`: the window's extent per axis. */
  function Size<V>(g: Grid<V>): Option<Coord>
  {
    W.Size(g.window)
  }

  /**
   * `getNeighbours(coord, diagonal, valid)`: the adjacent coordinates, minus
   * those outside a fixed window and those the optional predicate rejects.
   * A coordinate outside the window is refused; an empty window throws.
   */
  function Neighbours<V>(g: Grid<V>, c: Coord, diagonal: bool, valid: Option<Coord -> bool>): (r: Result<set<Coord>>)
    ensures r.Err? <==> W.Contains(g.window, c) != Ok(true)
    ensures r.Err? ==> r.error == (if W.IsEmpty(g.window) then Runtime else IllegalArgument)
    ensures r.Ok? ==> forall n :: n in r.value ==> n != c && Manhattan(c, n) <= 2 && n in Adjacent(c, diagonal)
    ensures r.Ok? ==> forall n :: n in r.value ==> (valid.Some? ==> valid.value(n))
    ensures r.Ok? && g.window.fixed ==> forall n :: n in r.value ==> W.Contains(g.window, n) == Ok(true)
    ensures r.Ok? && !g.window.fixed && valid.None? ==> forall n :: n in Adjacent(c, diagonal) ==> n in r.value
    ensures r.Ok? ==> forall n :: n in r.value <==>
      n in Adjacent(c, diagonal) && (g.window.fixed ==> W.Contains(g.window, n) == Ok(true)) && (valid.None? || valid.value(n))
  {
    match W.Contains(g.window, c)
    case Err(e) => Err(e)
    case Ok(inside) =>
      if !inside then Err(IllegalArgument)
      else
        var adj := Adjacent(c, diagonal);
        Ok(set n | n in adj && (!g.window.fixed || W.InBox(g.window.box.value, n))
                             && (valid.None? || valid.value(n)))
  }

  // ---------------------------------------------------------------- parsing

  /**
   * The cells of one input row: with no separator each character is a cell
   * (Java's `split("")`, where the empty row is one empty cell); otherwise
   * `split` on the separator character.
   */
  function RowCells(row: string, sep: Option<char>): (r: seq<string>)
    ensures sep.None? ==> |r| == if |row| == 0 then 1 else |row|
    ensures sep.None? && |row| > 0 ==> forall i :: 0 <= i < |r| ==> r[i] == [row[i]]
  {
    match sep
    case None => if |row| == 0 then [""] else seq(|row|, i requires 0 <= i < |row| => [row[i]])
    case Some(ch) => Text.Split(row, ch)
  }

  /** Sets the cells of row `y`, columns `x` onward, skipping values equal to the default. */
  function ParseRow<V(==)>(g: Grid<V>, cells: seq<string>, x: nat, y: int, f: string -> V): (r: Grid<V>)
    requires x <= |cells|
    ensures r.default == g.default && r.window.fixed == g.window.fixed
    ensures Valid(g) ==> Valid(r)
    decreases |cells| - x
  {
    if x == |cells| then g
    else
      var v := f(cells[x]);
      ParseRow(if v != g.default then Put(g, Coord(x, y), v) else g, cells, x + 1, y, f)
  }

  /** Parses rows `y` onward. */
  function ParseRows<V(==)>(g: Grid<V>, rows: seq<string>, y: nat, sep: Option<char>, f: string -> V): (r: Grid<V>)
    requires y <= |rows|
    ensures r.default == g.default && r.window.fixed == g.window.fixed
    ensures Valid(g) ==> Valid(r)
    decreases |rows| - y
  {
    if y == |rows| then g
    else ParseRows(ParseRow(g, RowCells(rows[y], sep), 0, y, f), rows, y + 1, sep, f)
  }

  /**
   * `fromStringList(rows, separator, mapfunc, default)`: row index is y,
   * cell index is x; a cell is stored only when its mapped value differs
   * from the default. The window is dynamic.
   */
  function FromStringList<V(==)>(rows: seq<string>, sep: Option<char>, f: string -> V, default: V): (g: Grid<V>)
    ensures Valid(g) && !g.window.fixed && g.default == default
  {
    ParseRows(NewGrid(default), rows, 0, sep, f)
  }

  /** The (x, y) cell text of the input, when there is one. */
  predicate IsCell(rows: seq<string>, sep: Option<char>, c: Coord)
  {
    0 <= c.y < |rows| && 0 <= c.x < |RowCells(rows[c.y], sep)|
  }

  lemma ParseRowCells<V>(g: Grid<V>, cells: seq<string>, x: nat, y: int, f: string -> V)
    requires x <= |cells|
    requires forall c :: c in g.cells ==> c.y != y || c.x < x
    ensures forall c :: c in ParseRow(g, cells, x, y, f).cells <==>
      c in g.cells || (c.y == y && x <= c.x < |cells| && f(cells[c.x]) != g.default)
    ensures forall c :: c in ParseRow(g, cells, x, y, f).cells ==>
      ParseRow(g, cells, x, y, f).cells[c] == (if c in g.cells then g.cells[c] else f(cells[c.x]))
  {
    ParseRowKeys(g, cells, x, y, f);
    ParseRowValues(g, cells, x, y, f);
  }

  /** The cells a row adds are those whose mapped text is not the default. */
  lemma {:induction false} ParseRowKeys<V>(g: Grid<V>, cells: seq<string>, x: nat, y: int, f: string -> V)
    requires x <= |cells|
    requires forall c :: c in g.cells ==> c.y != y || c.x < x
    ensures forall c :: c in ParseRow(g, cells, x, y, f).cells <==>
      c in g.cells || (c.y == y && x <= c.x < |cells| && f(cells[c.x]) != g.default)
    decreases |cells| - x
  {
    if x < |cells| {
      var v := f(cells[x]);
      var g' := if v != g.default then Put(g, Coord(x, y), v) else g;
      ParseRowKeys(g', cells, x + 1, y, f);
      var r := ParseRow(g', cells, x + 1, y, f);
      assert ParseRow(g, cells, x, y, f) == r;
      forall c
        ensures c in r.cells <==> c in g.cells || (c.y == y && x <= c.x < |cells| && f(cells[c.x]) != g.default)
      {
        if c.y == y && c.x == x {
          assert c == Coord(x, y);
        }
      }
    }
  }

  /** A cell a row adds holds the mapped text; the cells already there keep their values. */
  lemma {:induction false} ParseRowValues<V>(g: Grid<V>, cells: seq<string>, x: nat, y: int, f: string -> V)
    requires x <= |cells|
    requires forall c :: c in g.cells ==> c.y != y || c.x < x
    ensures forall c :: c in ParseRow(g, cells, x, y, f).cells ==>
      (c in g.cells || (c.y == y && x <= c.x < |cells|)) &&
      ParseRow(g, cells, x, y, f).cells[c] == (if c in g.cells then g.cells[c] else f(cells[c.x]))
    decreases |cells| - x
  {
    if x < |cells| {
      var v := f(cells[x]);
      var g' := if v != g.default then Put(g, Coord(x, y), v) else g;
      ParseRowValues(g', cells, x + 1, y, f);
      var r := ParseRow(g', cells, x + 1, y, f);
      assert ParseRow(g, cells, x, y, f) == r;
      forall c | c in r.cells
        ensures (c in g.cells || (c.y == y && x <= c.x < |cells|)) &&
          r.cells[c] == (if c in g.cells then g.cells[c] else f(cells[c.x]))
      {
        if c !in g.cells && c in g'.cells {
          assert c == Coord(x, y);
        }
      }
    }
  }

  lemma {:induction false} ParseRowsCells<V>(g: Grid<V>, rows: seq<string>, y: nat, sep: Option<char>, f: string -> V)
    requires y <= |rows|
    requires forall c :: c in g.cells ==> c.y < y
    ensures forall c :: c in ParseRows(g, rows, y, sep, f).cells <==>
      c in g.cells || (y <= c.y && IsCell(rows, sep, c) && f(RowCells(rows[c.y], sep)[c.x]) != g.default)
    ensures forall c :: c in g.cells ==> ParseRows(g, rows, y, sep, f).cells[c] == g.cells[c]
    ensures forall c :: c in ParseRows(g, rows, y, sep, f).cells && c !in g.cells ==>
      IsCell(rows, sep, c) && ParseRows(g, rows, y, sep, f).cells[c] == f(RowCells(rows[c.y], sep)[c.x])
    decreases |rows| - y
  {
    if y < |rows| {
      var g' := ParseRow(g, RowCells(rows[y], sep), 0, y, f);
      ParseRowCells(g, RowCells(rows[y], sep), 0, y, f);
      ParseRowsCells(g', rows, y + 1, sep, f);
    }
  }

  /**
   * What `fromStringList` stores: exactly the cells whose mapped value is not
   * the default, at (column, row), with that value.
   */
  lemma FromStringListCells<V>(rows: seq<string>, sep: Option<char>, f: string -> V, default: V)
    ensures forall c :: c in FromStringList(rows, sep, f, default).cells <==>
      IsCell(rows, sep, c) && f(RowCells(rows[c.y], sep)[c.x]) != default
    ensures forall c :: c in FromStringList(rows, sep, f, default).cells ==>
      IsCell(rows, sep, c) && FromStringList(rows, sep, f, default).cells[c] == f(RowCells(rows[c.y], sep)[c.x])
  {
    ParseRowsCells(NewGrid(default), rows, 0, sep, f);
  }

  /** `fromBooleanGrid(rows, truechar)`: cells equal to the one-character string are true; the default is false. */
  function FromBooleanGrid(rows: seq<string>, trueChar: char): (g: Grid<bool>)
    ensures Valid(g) && !g.default
  {
    FromStringList(rows, None, TrueCell(trueChar), false)
  }

  /** The cell test of `fromBooleanGrid`: the cell text is the one-character string. */
  function TrueCell(trueChar: char): string -> bool
  {
    s => s == [trueChar]
  }

  /** The cell function of `fromCharGrid`: the first character (an empty cell never reaches it). */
  function FirstChar(defaultChar: char): string -> char
  {
    s => if |s| > 0 then s[0] else defaultChar
  }

  /**
   * `fromCharGrid(rows, defaultchar)`: each character is a cell; characters
   * equal to the default are not stored. An empty row splits into one empty
   * cell, whose `charAt(0)` throws.
   */
  function FromCharGrid(rows: seq<string>, defaultChar: char): (r: Result<Grid<char>>)
    ensures r.Err? <==> exists y :: 0 <= y < |rows| && rows[y] == ""
    ensures r.Err? ==> r.error == IndexOutOfBounds
    ensures r.Ok? ==> Valid(r.value) && r.value.default == defaultChar && !r.value.window.fixed
  {
    if exists y :: 0 <= y < |rows| && rows[y] == "" then Err(IndexOutOfBounds)
    else Ok(FromStringList(rows, None, FirstChar(defaultChar), defaultChar))
  }

  /** A character grid stores exactly the characters that differ from the default, at (column, row). */
  lemma FromCharGridCells(rows: seq<string>, defaultChar: char, c: Coord)
    requires FromCharGrid(rows, defaultChar).Ok?
    ensures var g := FromCharGrid(rows, defaultChar).value;
            (c in g.cells <==> 0 <= c.y < |rows| && 0 <= c.x < |rows[c.y]| && rows[c.y][c.x] != defaultChar)
            && (c in g.cells ==> g.cells[c] == rows[c.y][c.x])
  {
    FromStringListCells(rows, None, FirstChar(defaultChar), defaultChar);
    if 0 <= c.y < |rows| {
      assert rows[c.y] != "";
      var cells := RowCells(rows[c.y], None);
      if 0 <= c.x < |rows[c.y]| {
        assert cells[c.x] == [rows[c.y][c.x]];
      }
    }
  }

  /** An empty row makes `fromCharGrid` throw, even after non-empty ones. */
  lemma FromCharGridEmptyRow()
    ensures FromCharGrid(["#", ""], '.') == Err(IndexOutOfBounds)
  {
    assert ["#", ""][1] == "";
  }

  lemma ExampleRowCells()
    ensures RowCells("#.#", None) == ["#", ".", "#"]
    ensures RowCells(".#.", None) == [".", "#", "."]
  {
  }

  /** The example rows: "#.#", ".#.", "#.#". */
  function ExampleRows(): seq<string>
  {
    ["#.#", ".#.", "#.#"]
  }

  /** Which cells of the example rows are '#'. */
  lemma ExampleCellText(c: Coord)
    requires IsCell(ExampleRows(), None, c)
    ensures TrueCell('#')(RowCells(ExampleRows()[c.y], None)[c.x]) <==>
      c in {Coord(0, 0), Coord(2, 0), Coord(1, 1), Coord(0, 2), Coord(2, 2)}
  {
    ExampleRowCells();
    var row := RowCells(ExampleRows()[c.y], None);
    if c.y == 1 {
      assert row == [".", "#", "."];
    } else {
      assert row == ["#", ".", "#"];
    }
  }

  /** Parsing the example rows with '#' as true stores exactly the five '#' cells, all true. */
  lemma BooleanGridExampleCells(rows: seq<string>, g: Grid<bool>)
    requires rows == ExampleRows() && g == FromBooleanGrid(rows, '#')
    ensures g.cells.Keys == {Coord(0, 0), Coord(2, 0), Coord(1, 1), Coord(0, 2), Coord(2, 2)}
    ensures forall c :: c in g.cells ==> g.cells[c]
  {
    var expected := {Coord(0, 0), Coord(2, 0), Coord(1, 1), Coord(0, 2), Coord(2, 2)};
    var f := TrueCell('#');
    FromStringListCells(rows, None, f, false);
    ExampleTextCells(rows, expected);
    ExampleExpectedAreCells(rows, expected);
    KeysFromCells(rows, g, f, expected);
  }

  lemma ExampleTextCells(rows: seq<string>, expected: set<Coord>)
    requires rows == ExampleRows()
    requires expected == {Coord(0, 0), Coord(2, 0), Coord(1, 1), Coord(0, 2), Coord(2, 2)}
    ensures forall c :: IsCell(rows, None, c) ==> (TrueCell('#')(RowCells(rows[c.y], None)[c.x]) <==> c in expected)
  {
    forall c | IsCell(rows, None, c) ensures TrueCell('#')(RowCells(rows[c.y], None)[c.x]) <==> c in expected {
      ExampleCellText(c);
    }
  }

  lemma ExampleExpectedAreCells(rows: seq<string>, expected: set<Coord>)
    requires rows == ExampleRows()
    requires expected == {Coord(0, 0), Coord(2, 0), Coord(1, 1), Coord(0, 2), Coord(2, 2)}
    ensures forall c :: c in expected ==> IsCell(rows, None, c)
  {
    ExampleRowCells();
  }

  lemma KeysFromCells(rows: seq<string>, g: Grid<bool>, f: string -> bool, expected: set<Coord>)
    requires forall c :: c in g.cells <==> IsCell(rows, None, c) && f(RowCells(rows[c.y], None)[c.x]) != false
    requires forall c :: c in g.cells ==> IsCell(rows, None, c) && g.cells[c] == f(RowCells(rows[c.y], None)[c.x])
    requires forall c :: IsCell(rows, None, c) ==> (f(RowCells(rows[c.y], None)[c.x]) <==> c in expected)
    requires forall c :: c in expected ==> IsCell(rows, None, c)
    ensures g.cells.Keys == expected
    ensures forall c :: c in g.cells ==> g.cells[c]
  {
  }

  /** The same example counted: five true cells and four false ones in the 3x3 window. */
  lemma BooleanGridExample(rows: seq<string>, g: Grid<bool>)
    requires rows == ExampleRows() && g == FromBooleanGrid(rows, '#')
    ensures Count(g, Some(true)) == Ok(5)
    ensures Count(g, Some(false)) == Ok(4)
  {
    BooleanGridExampleCells(rows, g);
    var keys := {Coord(0, 0), Coord(2, 0), Coord(1, 1), Coord(0, 2), Coord(2, 2)};
    assert Valid(g) && !g.window.fixed && !g.default;
    ExampleWindow(g, keys);
    FiveKeys(keys);
    CountAllTrue(g, keys);
  }

  lemma FiveKeys(keys: set<Coord>)
    requires keys == {Coord(0, 0), Coord(2, 0), Coord(1, 1), Coord(0, 2), Coord(2, 2)}
    ensures |keys| == 5
  {
  }

  lemma CountAllTrue(g: Grid<bool>, keys: set<Coord>)
    requires g.cells.Keys == keys && !g.default
    requires forall c :: c in g.cells ==> g.cells[c]
    requires W.Count(g.window) == Ok(9) && |keys| == 5
    ensures Count(g, Some(true)) == Ok(5)
    ensures Count(g, Some(false)) == Ok(4)
  {
    assert Find(g, true) == keys;
    assert Find(g, false) == {};
    assert |g.cells| == |keys|;
  }

  lemma ExampleWindow(g: Grid<bool>, keys: set<Coord>)
    requires Valid(g) && !g.window.fixed
    requires keys == {Coord(0, 0), Coord(2, 0), Coord(1, 1), Coord(0, 2), Coord(2, 2)}
    requires g.cells.Keys == keys
    ensures W.Count(g.window) == Ok(9)
  {
    var box := W.Box(Coord(0, 0), Coord(2, 2));
    assert W.IsBoundingBox(keys, box) by {
      assert Coord(0, 0) in keys && Coord(2, 2) in keys;
    }
    W.BoundingBoxUnique(keys, box, W.BoundingBox(keys));
  }

  /** The cells of an ordered box, as a set. */
  function BoxCells(b: W.Box): (r: set<Coord>)
    requires W.Ordered(b)
    ensures forall c :: c in r <==> W.InBox(b, c)
    ensures |r| == (b.hi.x - b.lo.x + 1) * (b.hi.y - b.lo.y + 1)
  {
    var s := W.RowMajor(b);
    DistinctCard(s);
    set c | c in s
  }

  predicate Increasing(s: seq<Coord>)
  {
    forall i, j :: 0 <= i < j < |s| ==> W.Before(s[i], s[j])
  }

  /** An increasing sequence is its prefix and a last element the prefix does not hold. */
  lemma DropLast(s: seq<Coord>)
    requires Increasing(s) && |s| > 0
    ensures Increasing(s[..|s| - 1]) && s[|s| - 1] !in s[..|s| - 1]
    ensures s == s[..|s| - 1] + [s[|s| - 1]]
  {
    var init := s[..|s| - 1];
    forall i | 0 <= i < |init| ensures init[i] != s[|s| - 1] {
      assert W.Before(s[i], s[|s| - 1]);
    }
  }

  lemma {:induction false} DistinctCard(s: seq<Coord>)
    requires Increasing(s)
    ensures |set c | c in s| == |s|
  {
    if |s| > 0 {
      var init := s[..|s| - 1];
      DropLast(s);
      DistinctCard(init);
      assert (set c | c in s) == (set c | c in init) + {s[|s| - 1]};
    }
  }

  /** The elements of `s` that satisfy `p`, as a set. */
  function Passing<T>(s: seq<T>, p: T -> bool): set<T>
  {
    set c | c in s && p(c)
  }

  /** On a sequence without repeats, counting the elements that pass is counting the set of them. */
  lemma {:induction false} CountWhereDistinct(s: seq<Coord>, p: Coord -> bool)
    requires Increasing(s)
    ensures CountWhere(s, p) == |Passing(s, p)|
  {
    if |s| > 0 {
      var init := s[..|s| - 1];
      var last := s[|s| - 1];
      DropLast(s);
      CountWhereDistinct(init, p);
      FilterSnoc(s, p);
      assert last !in Passing(init, p);
      assert |Passing(init, p) + (if p(last) then {last} else {})| == |Passing(init, p)| + (if p(last) then 1 else 0);
    }
  }

  /** The elements of a non-empty sequence that pass are those of its prefix that pass, and its last one if it passes. */
  lemma FilterSnoc<T>(s: seq<T>, p: T -> bool)
    requires |s| > 0
    ensures Passing(s, p) == Passing(s[..|s| - 1], p) + (if p(s[|s| - 1]) then {s[|s| - 1]} else {})
  {
    var init := s[..|s| - 1];
    assert s == init + [s[|s| - 1]];
    forall c ensures c in s <==> c in init || c == s[|s| - 1] {
      if c in s && c != s[|s| - 1] {
        var i :| 0 <= i < |s| && s[i] == c;
        assert init[i] == c;
      }
    }
  }

  /** `countIf` counts each window cell that satisfies the condition exactly once. */
  lemma CountIfCells<V>(g: Grid<V>, cond: Coord -> bool)
    requires g.window.box.Some? && W.Ordered(g.window.box.value)
    ensures CountIf(g, cond) == |set c | c in BoxCells(g.window.box.value) && cond(c)|
  {
    var b := g.window.box.value;
    assert W.IterOrder(b) == W.RowMajor(b);
    CountWhereDistinct(W.RowMajor(b), cond);
    assert Passing(W.RowMajor(b), cond) == (set c | c in BoxCells(b) && cond(c));
  }

  /**
   * When every stored key lies in an ordered window (as on every valid
   * dynamic grid), `count(default)` is the number of window cells that read
   * as the default.
   */
  lemma CountDefaultIsWindowCells<V>(g: Grid<V>)
    requires g.window.box.Some? && W.Ordered(g.window.box.value)
    requires forall c :: c in g.cells ==> W.InBox(g.window.box.value, c)
    ensures Count(g, Some(g.default)) ==
      Ok(|set c | c in BoxCells(g.window.box.value) && Get(g, c) == g.default|)
  {
    var all := BoxCells(g.window.box.value);
    var keys := g.cells.Keys;
    assert keys <= all;
    ReadingSplit(g, all);
    assert |g.cells| == |keys|;
    var b := g.window.box.value;
    assert W.Count(g.window) == Ok((b.hi.x - b.lo.x + 1) * (b.hi.y - b.lo.y + 1));
  }

  lemma ReadingSplit<V>(g: Grid<V>, all: set<Coord>)
    requires g.cells.Keys <= all
    ensures |set c | c in all && Get(g, c) == g.default| == |all| - |g.cells.Keys| + |Find(g, g.default)|
  {
    var keys := g.cells.Keys;
    var storedDefault := Find(g, g.default);
    var reading := set c | c in all && Get(g, c) == g.default;
    assert reading == (all - keys) + storedDefault;
    CardDisjointUnion(all - keys, storedDefault);
    CardDifference(all, keys);
  }

  lemma CardDisjointUnion(a: set<Coord>, b: set<Coord>)
    requires a * b == {}
    ensures |a + b| == |a| + |b|
  {
  }

  lemma CardDifference(a: set<Coord>, b: set<Coord>)
    requires b <= a
    ensures |a - b| == |a| - |b|
  {
    assert a == (a - b) + b;
    CardDisjointUnion(a - b, b);
  }
}
