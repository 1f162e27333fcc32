/**
 * The operations of `CoordGrid` that write into an existing grid:
 * `insert`, which pastes another grid at an offset, and `insertColumns` /
 * `insertRows`, which open a gap by moving every key at or beyond an index.
 *
 * `insert` walks the source window in row-major order; `insertColumns` and
 * `insertRows` walk a hash set of keys, so their order is a parameter here.
 */
module GridInsert {
  import opened Wrappers
  import opened Coord2D
  import W = Window2D
  import opened CoordGrid
  import opened GridTransform

  // ---------------------------------------------------------------- insert

  /** Where `insert` puts the source key `c`: its position relative to the source window, plus the offset. */
  function PasteShift(lo: Coord, offset: Coord): Remap
  {
    Shift(Coord(offset.x - lo.x, offset.y - lo.y))
  }

  /**
   * `r` is `base` with the keys in `covered` pasted from `src` through `t`:
   * every image of a covered key holds the source's value there, or nothing
   * when the source has none; every other key keeps its value in `base`.
   */
  ghost predicate IsPasted<V>(r: map<Coord, V>, base: map<Coord, V>, src: map<Coord, V>, covered: set<Coord>, t: Remap)
  {
    && (forall d {:trigger d in r} :: d in r <==> if Bwd(t, d) in covered then Bwd(t, d) in src else d in base)
    && (forall d {:trigger r[d]} :: d in r ==> r[d] == if Bwd(t, d) in covered then src[Bwd(t, d)] else base[d])
  }

  /** The map `IsPasted` describes. */
  function Pasted<V>(base: map<Coord, V>, src: map<Coord, V>, covered: set<Coord>, t: Remap): (r: map<Coord, V>)
    ensures IsPasted(r, base, src, covered, t)
  {
    Restrict(base, (d: Coord) => Bwd(t, d) !in covered) + Remapped(Restrict(src, (c: Coord) => c in covered), t)
  }

  /** `IsPasted` pins the map down. */
  lemma PastedUnique<V>(a: map<Coord, V>, b: map<Coord, V>, base: map<Coord, V>, src: map<Coord, V>, covered: set<Coord>, t: Remap)
    requires IsPasted(a, base, src, covered, t) && IsPasted(b, base, src, covered, t)
    ensures a == b
  {
    MapsEqual(a, b);
  }

  /**
   * The loop of `insert` over the source window in the given order: the
   * target of each coordinate is unset, then given the source's value when
   * the source has one there. The unset steps use the corrected resize of
   * `CoordGrid.Unset`, so the window is the keys' bounding box; the cells are
   * those of the source's loop.
   */
  function PasteLoop<V>(g: Grid<V>, src: Grid<V>, order: seq<Coord>, offset: Coord): (r: Grid<V>)
    requires !W.IsEmpty(src.window)
    ensures r.default == g.default && r.window.fixed == g.window.fixed
    ensures g.window.fixed ==> r.window == g.window
    ensures Valid(g) ==> Valid(r)
    decreases |order|
  {
    if order == [] then g
    else
      var coord := order[0];
      var c := Move(GetRelative(src, coord).value, offset.x, offset.y);
      var u := Unset(g, c).0;
      PasteLoop(if HasValue(src, coord) then Put(u, c, Get(src, coord)) else u, src, order[1..], offset)
  }

  /** One step of `PasteLoop`, with the target written through `PasteShift`. */
  lemma PasteLoopStep<V>(g: Grid<V>, src: Grid<V>, order: seq<Coord>, offset: Coord)
    requires !W.IsEmpty(src.window) && order != []
    ensures var t := PasteShift(src.window.box.value.lo, offset);
      var c := Fwd(t, order[0]);
      var u := Unset(g, c).0;
      PasteLoop(g, src, order, offset) ==
        PasteLoop(if order[0] in src.cells then Put(u, c, src.cells[order[0]]) else u, src, order[1..], offset)
  {
    PasteTarget(src, order[0], offset);
  }

  /** The target `insert` computes through `getRelative` is the key's image under `PasteShift`. */
  lemma PasteTarget<V>(src: Grid<V>, coord: Coord, offset: Coord)
    requires !W.IsEmpty(src.window)
    ensures Move(GetRelative(src, coord).value, offset.x, offset.y) == Fwd(PasteShift(src.window.box.value.lo, offset), coord)
  {
  }

  /** One step turns the state after `done` into the state after `done + {c}`. */
  lemma PastedStep<V>(base: map<Coord, V>, src: map<Coord, V>, done: set<Coord>, t: Remap, c: Coord, before: map<Coord, V>, after: map<Coord, V>)
    requires IsPasted(before, base, src, done, t)
    requires after == if c in src then (before - {Fwd(t, c)})[Fwd(t, c) := src[c]] else before - {Fwd(t, c)}
    ensures IsPasted(after, base, src, done + {c}, t)
  {
    forall d ensures d in after <==> if Bwd(t, d) in done + {c} then Bwd(t, d) in src else d in base {
      Inverse(t, c, d);
    }
    forall d | d in after ensures after[d] == if Bwd(t, d) in done + {c} then src[Bwd(t, d)] else base[d] {
      Inverse(t, c, d);
    }
  }

  /** Run from the state where `done` has been pasted, the loop pastes the rest of `order`. */
  lemma {:induction false} PasteLoopCells<V>(g: Grid<V>, src: Grid<V>, base: map<Coord, V>, done: set<Coord>, order: seq<Coord>, offset: Coord)
    requires !W.IsEmpty(src.window)
    requires IsPasted(g.cells, base, src.cells, done, PasteShift(src.window.box.value.lo, offset))
    ensures IsPasted(PasteLoop(g, src, order, offset).cells, base, src.cells, done + Elems(order), PasteShift(src.window.box.value.lo, offset))
    decreases |order|
  {
    if order == [] {
      assert done + Elems(order) == done;
    } else {
      var t := PasteShift(src.window.box.value.lo, offset);
      var c := Fwd(t, order[0]);
      var u := Unset(g, c).0;
      var next := if order[0] in src.cells then Put(u, c, src.cells[order[0]]) else u;
      PasteLoopStep(g, src, order, offset);
      PastedStep(base, src.cells, done, t, order[0], g.cells, next.cells);
      PasteLoopCells(next, src, base, done + {order[0]}, order[1..], offset);
      DoneStep(done, order);
    }
  }

  /** The whole paste loop, started on `g`, pastes the cells of its order over `g`. */
  lemma LoopPasted<V>(g: Grid<V>, src: Grid<V>, order: seq<Coord>, offset: Coord)
    requires !W.IsEmpty(src.window)
    ensures IsPasted(PasteLoop(g, src, order, offset).cells, g.cells, src.cells, Elems(order), PasteShift(src.window.box.value.lo, offset))
  {
    PasteLoopCells(g, src, g.cells, {}, order, offset);
    assert {} + Elems(order) == Elems(order);
  }

  /**
   * `insert(offset, grid)`: every coordinate of the source window, moved to
   * its position relative to the window's minimum corner plus `offset`, is
   * cleared and then given the source's value where it has one. Other keys
   * keep their values. An empty source window, and the zero-width window of
   * `new CoordGrid(0, 1, d)` whose iterator yields nothing, change nothing.
   * The window is that of the corrected resize, as in `PasteLoop`.
   */
  function Insert<V>(g: Grid<V>, offset: Coord, src: Grid<V>): (r: Grid<V>)
    requires Valid(g)
    requires src.window.box.Some? ==> W.Stops(src.window.box.value)
    ensures Valid(r) && r.default == g.default && r.window.fixed == g.window.fixed
    ensures g.window.fixed ==> r.window == g.window
    ensures W.IsEmpty(src.window) ==> r == g
    ensures src.window.box.Some? && !W.Ordered(src.window.box.value) ==> r == g
  {
    match src.window.box
    case None => g
    case Some(b) =>
      if W.Ordered(b) then Rebuild(g, Pasted(g.cells, src.cells, Elems(W.RowMajor(b)), PasteShift(b.lo, offset)))
      else g
  }

  /** The source's loop over the window's iteration builds `Insert`. */
  lemma InsertIsLoop<V>(g: Grid<V>, offset: Coord, src: Grid<V>)
    requires Valid(g)
    requires src.window.box.Some? && W.Stops(src.window.box.value)
    ensures PasteLoop(g, src, W.IterOrder(src.window.box.value), offset) == Insert(g, offset, src)
  {
    var b := src.window.box.value;
    if W.Ordered(b) {
      var t := PasteShift(b.lo, offset);
      var covered := Elems(W.RowMajor(b));
      LoopPasted(g, src, W.RowMajor(b), offset);
      PastedAgree(g, PasteLoop(g, src, W.RowMajor(b), offset), Pasted(g.cells, src.cells, covered, t), src.cells, covered, t);
    }
  }

  /** A valid grid holding the pasted keys, with the settings of `g`, is `g` rebuilt over them. */
  lemma PastedAgree<V>(g: Grid<V>, r: Grid<V>, m: map<Coord, V>, src: map<Coord, V>, covered: set<Coord>, t: Remap)
    requires Valid(g) && Valid(r) && r.default == g.default && r.window.fixed == g.window.fixed
    requires g.window.fixed ==> r.window == g.window
    requires IsPasted(r.cells, g.cells, src, covered, t) && IsPasted(m, g.cells, src, covered, t)
    ensures r == Rebuild(g, m)
  {
    PastedUnique(r.cells, m, g.cells, src, covered, t);
    ValidDetermined(r, Rebuild(g, m));
  }

  /**
   * After `insert`, the key `c` of the source window is found at its
   * relative position plus the offset exactly when the source has a value
   * there, with that value; a key whose relative position is outside the
   * source window keeps its old value.
   */
  lemma InsertAt<V>(g: Grid<V>, offset: Coord, src: Grid<V>, c: Coord, d: Coord)
    requires Valid(g)
    requires src.window.box.Some? && W.Ordered(src.window.box.value)
    requires W.InBox(src.window.box.value, c)
    requires !W.InBox(src.window.box.value, Bwd(PasteShift(src.window.box.value.lo, offset), d))
    ensures var p := Move(GetRelative(src, c).value, offset.x, offset.y);
      (p in Insert(g, offset, src).cells <==> c in src.cells) &&
      (c in src.cells ==> Insert(g, offset, src).cells[p] == src.cells[c])
    ensures (d in Insert(g, offset, src).cells <==> d in g.cells) &&
      (d in g.cells ==> Insert(g, offset, src).cells[d] == g.cells[d])
  {
    var b := src.window.box.value;
    var t := PasteShift(b.lo, offset);
    Inverse(t, c, Fwd(t, c));
    assert Move(GetRelative(src, c).value, offset.x, offset.y) == Fwd(t, c);
  }

  // ---------------------------------------------------------------- insertColumns / insertRows

  /** The coordinate along which keys move: x for columns, y for rows. */
  function Axis(c: Coord, columns: bool): int
  {
    if columns then c.x else c.y
  }

  /** The move of `insertColumns` (by `size` along x) or `insertRows` (by `size` along y). */
  function LineShift(size: int, columns: bool): Remap
  {
    if columns then Shift(Coord(size, 0)) else Shift(Coord(0, size))
  }

  /** The keys that move: those at or beyond `idx` along the axis. */
  function ToMove(keys: set<Coord>, idx: int, columns: bool): (r: set<Coord>)
    ensures forall c :: c in r <==> c in keys && Axis(c, columns) >= idx
  {
    set c | c in keys && Axis(c, columns) >= idx
  }

  /**
   * `r` is `orig` after the keys in `done` have been moved by `t`: the keys
   * not in `done` stay where they are, the ones in `done` are found at their
   * image, and a moved value wins over one that stayed.
   */
  ghost predicate IsMoved<V>(r: map<Coord, V>, orig: map<Coord, V>, done: set<Coord>, t: Remap)
  {
    && (forall d {:trigger d in r} :: d in r <==> (d in orig && d !in done) || (Bwd(t, d) in orig && Bwd(t, d) in done))
    && (forall d {:trigger r[d]} :: d in r && Bwd(t, d) in orig && Bwd(t, d) in done ==> r[d] == orig[Bwd(t, d)])
    && (forall d {:trigger r[d]} :: d in r && !(Bwd(t, d) in orig && Bwd(t, d) in done) ==> r[d] == orig[d])
  }

  /** The map `IsMoved` describes. */
  function Moved<V>(orig: map<Coord, V>, done: set<Coord>, t: Remap): (r: map<Coord, V>)
    ensures IsMoved(r, orig, done, t)
  {
    Restrict(orig, (c: Coord) => c !in done) + Remapped(Restrict(orig, (c: Coord) => c in done), t)
  }

  /** `IsMoved` pins the map down. */
  lemma MovedUnique<V>(a: map<Coord, V>, b: map<Coord, V>, orig: map<Coord, V>, done: set<Coord>, t: Remap)
    requires IsMoved(a, orig, done, t) && IsMoved(b, orig, done, t)
    ensures a == b
  {
    MapsEqual(a, b);
  }

  /** Nothing moved yet: the map itself. */
  lemma MovedNone<V>(orig: map<Coord, V>, t: Remap)
    ensures Moved(orig, {}, t) == orig
  {
    MovedUnique(Moved(orig, {}, t), orig, orig, {}, t);
  }

  /**
   * The loop of `insertColumns` and `insertRows` over the keys to move, in
   * the given order: each key is unset and its returned value is set at the
   * key's image. `set` throws on a missing value, so the loop can fail.
   */
  function ShiftLoop<V>(g: Grid<V>, order: seq<Coord>, t: Remap): (r: Result<Grid<V>>)
    ensures r.Err? ==> r.error == NullPointer
    ensures r.Ok? ==> r.value.default == g.default && r.value.window.fixed == g.window.fixed
    ensures r.Ok? && g.window.fixed ==> r.value.window == g.window
    ensures r.Ok? && Valid(g) ==> Valid(r.value)
    decreases |order|
  {
    if order == [] then Ok(g)
    else
      var u := Unset(g, order[0]);
      match Set(u.0, Fwd(t, order[0]), u.1)
      case Err(e) => Err(e)
      case Ok(s) => ShiftLoop(s.0, order[1..], t)
  }

  /**
   * An order is safe for `t` when no key is processed after the key that
   * `t` moves onto it: then every key still holds its own value when its
   * turn comes.
   */
  predicate SafeOrder(order: seq<Coord>, t: Remap)
  {
    forall i, j :: 0 <= i < j < |order| ==> Fwd(t, order[i]) != order[j]
  }

  predicate Distinct(order: seq<Coord>)
  {
    forall i, j :: 0 <= i < j < |order| ==> order[i] != order[j]
  }

  /** One step of the loop turns the state after `done` into the state after `done + {c}`. */
  lemma MovedStep<V>(orig: map<Coord, V>, done: set<Coord>, t: Remap, c: Coord, before: map<Coord, V>, after: map<Coord, V>)
    requires c in orig && c !in done && Bwd(t, c) !in done
    requires IsMoved(before, orig, done, t)
    requires c in before && after == (before - {c})[Fwd(t, c) := before[c]]
    ensures before[c] == orig[c]
    ensures IsMoved(after, orig, done + {c}, t)
  {
    Inverse(t, c, Fwd(t, c));
    forall d ensures d in after <==> (d in orig && d !in done + {c}) || (Bwd(t, d) in orig && Bwd(t, d) in done + {c}) {
      Inverse(t, c, d);
    }
    forall d | d in after ensures after[d] == if Bwd(t, d) in orig && Bwd(t, d) in done + {c} then orig[Bwd(t, d)] else orig[d] {
      Inverse(t, c, d);
    }
  }

  /** The coordinates listed in `order`. */
  function Elems(order: seq<Coord>): (r: set<Coord>)
    ensures forall c :: c in r <==> c in order
  {
    set c | c in order
  }

  /** Marking the first key of `order` done, then the rest, marks all of `order` done. */
  lemma DoneStep(done: set<Coord>, order: seq<Coord>)
    requires order != []
    ensures done + {order[0]} + Elems(order[1..]) == done + Elems(order)
  {
    assert forall c :: c in order <==> c == order[0] || c in order[1..];
  }

  /** One step of `ShiftLoop` on a key that is present. */
  lemma ShiftLoopStep<V>(g: Grid<V>, order: seq<Coord>, t: Remap)
    requires order != [] && order[0] in g.cells
    ensures ShiftLoop(g, order, t) == ShiftLoop(Put(Unset(g, order[0]).0, Fwd(t, order[0]), g.cells[order[0]]), order[1..], t)
  {
  }

  /** After the first key of a safe order is done, the rest are still pending. */
  lemma RestPending<V>(orig: map<Coord, V>, done: set<Coord>, order: seq<Coord>, t: Remap)
    requires order != []
    requires forall i :: 0 <= i < |order| ==> order[i] in orig && order[i] !in done
    requires forall i :: 0 <= i < |order| ==> Bwd(t, order[i]) !in done
    requires Distinct(order) && SafeOrder(order, t)
    ensures forall i :: 0 <= i < |order| - 1 ==> order[1..][i] in orig && order[1..][i] !in done + {order[0]}
    ensures forall i :: 0 <= i < |order| - 1 ==> Bwd(t, order[1..][i]) !in done + {order[0]}
    ensures Distinct(order[1..]) && SafeOrder(order[1..], t)
  {
    forall i | 0 <= i < |order| - 1 ensures Bwd(t, order[1..][i]) != order[0] {
      Inverse(t, order[0], order[1..][i]);
    }
  }

  /**
   * Run from the state where `done` has moved, a safe order of the remaining
   * keys succeeds and moves them all.
   */
  lemma {:induction false} ShiftLoopMoves<V>(g: Grid<V>, orig: map<Coord, V>, done: set<Coord>, order: seq<Coord>, t: Remap)
    requires IsMoved(g.cells, orig, done, t)
    requires forall i :: 0 <= i < |order| ==> order[i] in orig && order[i] !in done
    requires forall i :: 0 <= i < |order| ==> Bwd(t, order[i]) !in done
    requires Distinct(order) && SafeOrder(order, t)
    ensures ShiftLoop(g, order, t).Ok?
    ensures IsMoved(ShiftLoop(g, order, t).value.cells, orig, done + Elems(order), t)
    decreases |order|
  {
    if order == [] {
      assert done + Elems(order) == done;
    } else {
      var c := order[0];
      var rest := order[1..];
      var s := Put(Unset(g, c).0, Fwd(t, c), g.cells[c]);
      ShiftLoopStep(g, order, t);
      MovedStep(orig, done, t, c, g.cells, (g.cells - {c})[Fwd(t, c) := g.cells[c]]);
      RestPending(orig, done, order, t);
      ShiftLoopMoves(s, orig, done + {c}, rest, t);
      DoneStep(done, order);
    }
  }

  // ---------------------------------------------------------------- the two operations

  /** The keys of `g` after a gap of `size` lines has been opened at `idx`. */
  function InsertLines<V>(g: Grid<V>, idx: int, size: int, columns: bool): (r: Grid<V>)
    ensures Valid(r) && r.default == g.default && r.window.fixed == g.window.fixed
    ensures g.window.fixed ==> r.window == g.window
  {
    Rebuild(g, Moved(g.cells, ToMove(g.cells.Keys, idx, columns), LineShift(size, columns)))
  }

  /**
   * `insertColumns(colidx, colsize)` with the intended outcome: every key
   * with x at least `colidx` moves `colsize` to the right.
   */
  function InsertColumns<V>(g: Grid<V>, colidx: int, colsize: int): (r: Grid<V>)
    ensures Valid(r) && r.default == g.default && r.window.fixed == g.window.fixed
    ensures g.window.fixed ==> r.window == g.window
  {
    InsertLines(g, colidx, colsize, true)
  }

  /** `insertRows(rowidx, rowsize)` with the intended outcome: every key with y at least `rowidx` moves `rowsize` down. */
  function InsertRows<V>(g: Grid<V>, rowidx: int, rowsize: int): (r: Grid<V>)
    ensures Valid(r) && r.default == g.default && r.window.fixed == g.window.fixed
    ensures g.window.fixed ==> r.window == g.window
  {
    InsertLines(g, rowidx, rowsize, false)
  }

  /**
   * For a non-negative size, keys before `idx` keep their place and value,
   * keys from `idx` on are found `size` further along with their value, and
   * the `size` lines from `idx` on are left empty.
   */
  lemma InsertLinesAt<V>(g: Grid<V>, idx: int, size: int, columns: bool, c: Coord)
    requires size >= 0
    ensures c in g.cells && Axis(c, columns) < idx ==>
      c in InsertLines(g, idx, size, columns).cells && InsertLines(g, idx, size, columns).cells[c] == g.cells[c]
    ensures c in g.cells && Axis(c, columns) >= idx ==>
      var d := Fwd(LineShift(size, columns), c);
      d in InsertLines(g, idx, size, columns).cells && InsertLines(g, idx, size, columns).cells[d] == g.cells[c]
    ensures c in InsertLines(g, idx, size, columns).cells <==>
      ((c in g.cells && Axis(c, columns) < idx) ||
       (Bwd(LineShift(size, columns), c) in g.cells && Axis(c, columns) >= idx + size))
  {
    var t := LineShift(size, columns);
    var m := InsertLines(g, idx, size, columns).cells;
    LinesAt(g.cells, ToMove(g.cells.Keys, idx, columns), m, idx, size, columns, c);
  }

  /** `InsertLinesAt` over the characterisation of the moved map. */
  lemma LinesAt<V>(orig: map<Coord, V>, done: set<Coord>, m: map<Coord, V>, idx: int, size: int, columns: bool, c: Coord)
    requires size >= 0
    requires done == ToMove(orig.Keys, idx, columns) && IsMoved(m, orig, done, LineShift(size, columns))
    ensures c in orig && Axis(c, columns) < idx ==> c in m && m[c] == orig[c]
    ensures c in orig && Axis(c, columns) >= idx ==>
      Fwd(LineShift(size, columns), c) in m && m[Fwd(LineShift(size, columns), c)] == orig[c]
    ensures c in m <==> ((c in orig && Axis(c, columns) < idx) ||
      (Bwd(LineShift(size, columns), c) in orig && Axis(c, columns) >= idx + size))
  {
    var t := LineShift(size, columns);
    Inverse(t, c, Fwd(t, c));
  }

  /**
   * The loop of `insertColumns` and `insertRows` as written, over the keys
   * to move in the hash set's order, given here as `order`.
   */
  function InsertLinesAsWritten<V>(g: Grid<V>, idx: int, size: int, columns: bool, order: seq<Coord>): (r: Result<Grid<V>>)
    requires Distinct(order) && Elems(order) == ToMove(g.cells.Keys, idx, columns)
    ensures r.Ok? ==> r.value.default == g.default && r.value.window.fixed == g.window.fixed
    ensures r.Ok? && Valid(g) ==> Valid(r.value)
  {
    ShiftLoop(g, order, LineShift(size, columns))
  }

  function InsertColumnsAsWritten<V>(g: Grid<V>, colidx: int, colsize: int, order: seq<Coord>): (r: Result<Grid<V>>)
    requires Distinct(order) && Elems(order) == ToMove(g.cells.Keys, colidx, true)
    ensures r.Ok? ==> r.value.default == g.default && r.value.window.fixed == g.window.fixed
  {
    InsertLinesAsWritten(g, colidx, colsize, true, order)
  }

  function InsertRowsAsWritten<V>(g: Grid<V>, rowidx: int, rowsize: int, order: seq<Coord>): (r: Result<Grid<V>>)
    requires Distinct(order) && Elems(order) == ToMove(g.cells.Keys, rowidx, false)
    ensures r.Ok? ==> r.value.default == g.default && r.value.window.fixed == g.window.fixed
  {
    InsertLinesAsWritten(g, rowidx, rowsize, false, order)
  }

  /** In a safe order, the source's loop builds the intended grid. */
  lemma SafeOrderAgrees<V>(g: Grid<V>, idx: int, size: int, columns: bool, order: seq<Coord>)
    requires Valid(g)
    requires Distinct(order) && Elems(order) == ToMove(g.cells.Keys, idx, columns)
    requires SafeOrder(order, LineShift(size, columns))
    ensures InsertLinesAsWritten(g, idx, size, columns, order) == Ok(InsertLines(g, idx, size, columns))
  {
    var t := LineShift(size, columns);
    var done := ToMove(g.cells.Keys, idx, columns);
    IsMovedNone(g.cells, t);
    ShiftLoopMoves(g, g.cells, {}, order, t);
    assert {} + Elems(order) == done;
    AgreesFrom(g, ShiftLoop(g, order, t).value, Moved(g.cells, done, t), done, t);
  }

  lemma IsMovedNone<V>(orig: map<Coord, V>, t: Remap)
    ensures IsMoved(orig, orig, {}, t)
  {
  }

  /** A valid grid holding the moved keys, with the settings of `g`, is `g` rebuilt over them. */
  lemma AgreesFrom<V>(g: Grid<V>, r: Grid<V>, m: map<Coord, V>, done: set<Coord>, t: Remap)
    requires Valid(g) && Valid(r) && r.default == g.default && r.window.fixed == g.window.fixed
    requires g.window.fixed ==> r.window == g.window
    requires IsMoved(r.cells, g.cells, done, t) && IsMoved(m, g.cells, done, t)
    ensures r == Rebuild(g, m)
  {
    MovedUnique(r.cells, m, g.cells, done, t);
    ValidDetermined(r, Rebuild(g, m));
  }

  /** The keys in order of decreasing x (columns) or y (rows). */
  predicate Descending(order: seq<Coord>, columns: bool)
  {
    forall i, j :: 0 <= i < j < |order| ==> Axis(order[i], columns) >= Axis(order[j], columns)
  }

  /** Moving by a non-negative size, processing the furthest keys first is safe. */
  lemma DescendingIsSafe(order: seq<Coord>, size: int, columns: bool)
    requires size >= 0 && Distinct(order) && Descending(order, columns)
    ensures SafeOrder(order, LineShift(size, columns))
  {
  }

  /** `insertColumns` over the keys in order of decreasing x moves every key as documented. */
  lemma InsertColumnsDescending<V>(g: Grid<V>, colidx: int, colsize: int, order: seq<Coord>)
    requires Valid(g) && colsize >= 0
    requires Distinct(order) && Elems(order) == ToMove(g.cells.Keys, colidx, true) && Descending(order, true)
    ensures InsertColumnsAsWritten(g, colidx, colsize, order) == Ok(InsertColumns(g, colidx, colsize))
  {
    DescendingIsSafe(order, colsize, true);
    SafeOrderAgrees(g, colidx, colsize, true, order);
  }

  /** `insertRows` over the keys in order of decreasing y moves every key as documented. */
  lemma InsertRowsDescending<V>(g: Grid<V>, rowidx: int, rowsize: int, order: seq<Coord>)
    requires Valid(g) && rowsize >= 0
    requires Distinct(order) && Elems(order) == ToMove(g.cells.Keys, rowidx, false) && Descending(order, false)
    ensures InsertRowsAsWritten(g, rowidx, rowsize, order) == Ok(InsertRows(g, rowidx, rowsize))
  {
    DescendingIsSafe(order, rowsize, false);
    SafeOrderAgrees(g, rowidx, rowsize, false, order);
  }

  /**
   * On a row holding 1 at (2,0) and 2 at (3,0), opening one column at 2
   * visits (2,0) first, as a 16-bucket hash set of these keys does (the
   * hashes of "(2,0)" and "(3,0)" fall in buckets 0 and 1). It moves 1 onto
   * (3,0) before 2 is moved: 2 is lost and 1 ends at (4,0), the only key
   * left. The intended result keeps both.
   */
  lemma InsertColumnsAscendingLoses(g: Grid<int>)
    requires g.cells == map[Coord(2, 0) := 1, Coord(3, 0) := 2]
    ensures Distinct([Coord(2, 0), Coord(3, 0)]) && Elems([Coord(2, 0), Coord(3, 0)]) == ToMove(g.cells.Keys, 2, true)
    ensures InsertColumnsAsWritten(g, 2, 1, [Coord(2, 0), Coord(3, 0)]).Ok?
    ensures forall d :: d in InsertColumnsAsWritten(g, 2, 1, [Coord(2, 0), Coord(3, 0)]).value.cells <==> d == Coord(4, 0)
    ensures InsertColumnsAsWritten(g, 2, 1, [Coord(2, 0), Coord(3, 0)]).value.cells[Coord(4, 0)] == 1
    ensures Coord(3, 0) in InsertColumns(g, 2, 1).cells && InsertColumns(g, 2, 1).cells[Coord(3, 0)] == 1
    ensures Coord(4, 0) in InsertColumns(g, 2, 1).cells && InsertColumns(g, 2, 1).cells[Coord(4, 0)] == 2
  {
    var order := [Coord(2, 0), Coord(3, 0)];
    AscendingOrder(g);
    AscendingLoop(g, order);
    assert InsertColumnsAsWritten(g, 2, 1, order) == ShiftLoop(g, order, LineShift(1, true));
    AscendingIntended(g);
  }

  lemma AscendingIntended(g: Grid<int>)
    requires g.cells == map[Coord(2, 0) := 1, Coord(3, 0) := 2]
    ensures Coord(3, 0) in InsertColumns(g, 2, 1).cells && InsertColumns(g, 2, 1).cells[Coord(3, 0)] == 1
    ensures Coord(4, 0) in InsertColumns(g, 2, 1).cells && InsertColumns(g, 2, 1).cells[Coord(4, 0)] == 2
  {
    IntendedMoves(g, Coord(2, 0));
    IntendedMoves(g, Coord(3, 0));
  }

  /** Opening one column at 2 moves each stored key from column 2 on one to the right with its value. */
  lemma IntendedMoves(g: Grid<int>, c: Coord)
    requires c in g.cells && c.x >= 2
    ensures Coord(c.x + 1, c.y) in InsertColumns(g, 2, 1).cells
    ensures InsertColumns(g, 2, 1).cells[Coord(c.x + 1, c.y)] == g.cells[c]
  {
    assert Axis(c, true) >= 2;
    assert Fwd(LineShift(1, true), c) == Coord(c.x + 1, c.y);
    InsertLinesAt(g, 2, 1, true, c);
  }

  lemma AscendingOrder(g: Grid<int>)
    requires g.cells == map[Coord(2, 0) := 1, Coord(3, 0) := 2]
    ensures Distinct([Coord(2, 0), Coord(3, 0)]) && Elems([Coord(2, 0), Coord(3, 0)]) == ToMove(g.cells.Keys, 2, true)
  {
    assert forall c :: c in g.cells <==> c == Coord(2, 0) || c == Coord(3, 0);
  }

  lemma AscendingLoop(g: Grid<int>, order: seq<Coord>)
    requires g.cells == map[Coord(2, 0) := 1, Coord(3, 0) := 2] && order == [Coord(2, 0), Coord(3, 0)]
    ensures ShiftLoop(g, order, LineShift(1, true)).Ok?
    ensures forall d :: d in ShiftLoop(g, order, LineShift(1, true)).value.cells <==> d == Coord(4, 0)
    ensures ShiftLoop(g, order, LineShift(1, true)).value.cells[Coord(4, 0)] == 1
  {
    var t := LineShift(1, true);
    ShiftLoopStep(g, order, t);
    var g1 := Put(Unset(g, order[0]).0, Fwd(t, order[0]), g.cells[order[0]]);
    AscendingFirst(g, order, g1);
    AscendingSecond(g1, order[1..]);
    var r := ShiftLoop(g1, order[1..], t);
    assert ShiftLoop(g, order, t) == r;
  }

  /** The first step: the value 1 moves from (2,0) onto (3,0), replacing 2. */
  lemma AscendingFirst(g: Grid<int>, order: seq<Coord>, g1: Grid<int>)
    requires g.cells == map[Coord(2, 0) := 1, Coord(3, 0) := 2] && order == [Coord(2, 0), Coord(3, 0)]
    requires g1 == Put(Unset(g, order[0]).0, Fwd(LineShift(1, true), order[0]), g.cells[order[0]])
    ensures (forall d :: d in g1.cells <==> d == Coord(3, 0)) && g1.cells[Coord(3, 0)] == 1
    ensures order[1..] == [Coord(3, 0)]
  {
  }

  /** The second step: the value 1, now at (3,0), moves on to (4,0). */
  lemma AscendingSecond(g1: Grid<int>, rest: seq<Coord>)
    requires (forall d :: d in g1.cells <==> d == Coord(3, 0)) && g1.cells[Coord(3, 0)] == 1
    requires rest == [Coord(3, 0)]
    ensures ShiftLoop(g1, rest, LineShift(1, true)).Ok?
    ensures forall d :: d in ShiftLoop(g1, rest, LineShift(1, true)).value.cells <==> d == Coord(4, 0)
    ensures ShiftLoop(g1, rest, LineShift(1, true)).value.cells[Coord(4, 0)] == 1
  {
    ShiftLoopStep(g1, rest, LineShift(1, true));
    assert rest[1..] == [];
  }
}
