/**
 * Integer points of any dimension (`CoordND`). The dimension `N` is the
 * length of the value sequence; equality is structural (same `N`, same
 * values), which is what the class's `equals` implements.
 */
module CoordND {
  import opened Wrappers
  import opened Numeric
  import Text
  import Coord2D

  datatype CoordND = CoordND(values: seq<int>)

  /** `new CoordND(dimensions, value)`: a negative dimension cannot size the array. */
  function Filled(dimensions: int, value: int): (r: Result<CoordND>)
    ensures r.Err? <==> dimensions < 0
    ensures r.Err? ==> r.error == NegativeArraySize
    ensures r.Ok? ==> |r.value.values| == dimensions
    ensures r.Ok? ==> forall i :: 0 <= i < dimensions ==> r.value.values[i] == value
  {
    if dimensions < 0 then Err(NegativeArraySize) else Ok(CoordND(seq(dimensions, _ => value)))
  }

  /** Left fold of `f` over `xs`, starting from `acc`. */
  function FoldLeft(f: (int, int) -> int, acc: int, xs: seq<int>): int
    decreases |xs|
  {
    if xs == [] then acc else FoldLeft(f, f(acc, xs[0]), xs[1..])
  }

  /** `reduce(f)`: the fold of `f` over the values; no values, no result. */
  function Reduce(c: CoordND, f: (int, int) -> int): (r: Result<int>)
    ensures r.Err? <==> |c.values| == 0
    ensures r.Err? ==> r.error == NoSuchElement
    ensures |c.values| == 1 ==> r == Ok(c.values[0])
  {
    if |c.values| == 0 then Err(NoSuchElement) else Ok(FoldLeft(f, c.values[0], c.values[1..]))
  }

  function Sum(xs: seq<int>): int
  {
    if xs == [] then 0 else xs[0] + Sum(xs[1..])
  }

  lemma {:induction false} FoldAdds(acc: int, xs: seq<int>)
    ensures FoldLeft((a, b) => a + b, acc, xs) == acc + Sum(xs)
    decreases |xs|
  {
    if xs != [] {
      FoldAdds(acc + xs[0], xs[1..]);
    }
  }

  /** Reducing with addition sums the values. */
  lemma ReduceAdds(c: CoordND)
    requires |c.values| > 0
    ensures Reduce(c, (a, b) => a + b) == Ok(Sum(c.values))
  {
    FoldAdds(c.values[0], c.values[1..]);
    assert c.values == [c.values[0]] + c.values[1..];
  }

  /** `map(f)`: `f` applied to every value. */
  function Map(c: CoordND, f: int -> int): (r: CoordND)
    ensures |r.values| == |c.values|
    ensures forall i :: 0 <= i < |c.values| ==> r.values[i] == f(c.values[i])
  {
    CoordND(seq(|c.values|, i requires 0 <= i < |c.values| => f(c.values[i])))
  }

  /** Mapping twice is mapping once with the composition. */
  lemma MapCompose(c: CoordND, f: int -> int, g: int -> int)
    ensures Map(Map(c, f), g) == Map(c, x => g(f(x)))
  {
  }

  /** `combine(coord, f)`: `f` applied componentwise; the dimensions must agree. */
  function Combine(a: CoordND, b: CoordND, f: (int, int) -> int): (r: Result<CoordND>)
    ensures r.Err? <==> |a.values| != |b.values|
    ensures r.Err? ==> r.error == IllegalArgument
    ensures r.Ok? ==> |r.value.values| == |a.values|
    ensures r.Ok? ==> forall i :: 0 <= i < |a.values| ==> r.value.values[i] == f(a.values[i], b.values[i])
  {
    if |a.values| != |b.values| then Err(IllegalArgument)
    else Ok(CoordND(seq(|a.values|, i requires 0 <= i < |a.values| => f(a.values[i], b.values[i]))))
  }

  /** `min(coord)`: the componentwise minimum. */
  function CMin(a: CoordND, b: CoordND): (r: Result<CoordND>)
  {
    Combine(a, b, Min)
  }

  /**
   * `min` is the greatest lower bound of the two coordinates, componentwise,
   * and does not depend on the order of its arguments.
   */
  lemma CMinIsMeet(a: CoordND, b: CoordND)
    ensures CMin(a, b).Err? <==> |a.values| != |b.values|
    ensures CMin(a, b).Ok? ==> forall i :: 0 <= i < |a.values| ==>
              && CMin(a, b).value.values[i] <= a.values[i]
              && CMin(a, b).value.values[i] <= b.values[i]
              && (CMin(a, b).value.values[i] == a.values[i] || CMin(a, b).value.values[i] == b.values[i])
    ensures CMin(a, b) == CMin(b, a)
  {
    if |a.values| == |b.values| {
      var l, r := CMin(a, b).value, CMin(b, a).value;
      assert l.values == r.values by {
        forall i | 0 <= i < |l.values|
          ensures l.values[i] == r.values[i]
        {
          assert l.values[i] == Min(a.values[i], b.values[i]);
          assert r.values[i] == Min(b.values[i], a.values[i]);
        }
      }
    }
  }

  /** `move(delta...)`: one delta per dimension, added componentwise. */
  function Move(c: CoordND, delta: seq<int>): (r: Result<CoordND>)
    ensures r.Err? <==> |delta| != |c.values|
    ensures r.Err? ==> r.error == IllegalArgument
  {
    if |delta| != |c.values| then Err(IllegalArgument)
    else Combine(c, CoordND(delta), (x, y) => x + y)
  }

  function Negated(xs: seq<int>): (r: seq<int>)
    ensures |r| == |xs| && forall i :: 0 <= i < |xs| ==> r[i] == -xs[i]
  {
    seq(|xs|, i requires 0 <= i < |xs| => -xs[i])
  }

  /** Moving by a delta and back by its negation returns to the start. */
  lemma MoveBack(c: CoordND, delta: seq<int>)
    requires |delta| == |c.values|
    ensures Move(c, delta).Ok? && Move(Move(c, delta).value, Negated(delta)) == Ok(c)
  {
    var m := Move(c, delta).value;
    var back := Move(m, Negated(delta)).value;
    assert back.values == c.values by {
      forall i | 0 <= i < |c.values|
        ensures back.values[i] == c.values[i]
      {
        assert m.values[i] == c.values[i] + delta[i];
        assert back.values[i] == m.values[i] + Negated(delta)[i];
      }
    }
  }

  /** `diff(coord, absolute)`: `this - coord` componentwise, made absolute on request. */
  function Diff(a: CoordND, b: CoordND, absolute: bool): (r: Result<CoordND>)
  {
    Combine(a, b, (x, y) => if absolute then Abs(x - y) else x - y)
  }

  /**
   * `diff` is the delta that moves `coord` onto `this`; its absolute form is
   * symmetric.
   */
  lemma DiffMoves(a: CoordND, b: CoordND)
    requires |a.values| == |b.values|
    ensures Diff(a, b, false).Ok? && Move(b, Diff(a, b, false).value.values) == Ok(a)
    ensures Diff(a, b, true) == Diff(b, a, true)
  {
    var d := Diff(a, b, false).value;
    var m := Move(b, d.values).value;
    assert m.values == a.values by {
      forall i | 0 <= i < |a.values|
        ensures m.values[i] == a.values[i]
      {
        assert d.values[i] == a.values[i] - b.values[i];
        assert m.values[i] == b.values[i] + d.values[i];
      }
    }
    var l, r := Diff(a, b, true).value, Diff(b, a, true).value;
    assert l.values == r.values by {
      forall i | 0 <= i < |a.values|
        ensures l.values[i] == r.values[i]
      {
        assert l.values[i] == Abs(a.values[i] - b.values[i]);
        assert r.values[i] == Abs(b.values[i] - a.values[i]);
      }
    }
  }

  /**
   * The signs of the two `diff`s disagree: `Coord2D.diff(c)` is `c - this`
   * while `CoordND.diff(c)` is `this - c`.
   */
  lemma DiffOppositeSigns(p: Coord2D.Coord, q: Coord2D.Coord)
    ensures var d := Coord2D.Diff(p, q);
            Diff(CoordND([p.x, p.y]), CoordND([q.x, q.y]), false) == Ok(CoordND([-d.x, -d.y]))
  {
    var r := Diff(CoordND([p.x, p.y]), CoordND([q.x, q.y]), false).value;
    assert r.values[0] == p.x - q.x && r.values[1] == p.y - q.y;
    assert r.values == [p.x - q.x, p.y - q.y];
  }

  /**
   * `getManhattanDist(coord)`: the dimensions must agree, and the reduction
   * over the absolute differences has nothing to reduce when `N` is 0.
   */
  function Manhattan(a: CoordND, b: CoordND): (r: Result<int>)
    ensures r.Err? <==> |a.values| != |b.values| || |a.values| == 0
    ensures |a.values| != |b.values| ==> r == Err(IllegalArgument)
    ensures r.Ok? ==> r.value >= 0
  {
    if |a.values| != |b.values| then Err(IllegalArgument)
    else
      var d := Diff(a, b, true).value;
      if |d.values| == 0 then Reduce(d, (x, y) => x + y)
      else
        ReduceAdds(d);
        assert forall i :: 0 <= i < |d.values| ==> d.values[i] == Abs(a.values[i] - b.values[i]);
        SumNonNegative(d.values);
        Reduce(d, (x, y) => x + y)
  }

  lemma {:induction false} SumNonNegative(xs: seq<int>)
    requires forall i :: 0 <= i < |xs| ==> xs[i] >= 0
    ensures Sum(xs) >= 0
  {
    if xs != [] {
      SumNonNegative(xs[1..]);
    }
  }

  /** The absolute differences of two equally long sequences. */
  function AbsDiffs(a: seq<int>, b: seq<int>): (r: seq<int>)
    requires |a| == |b|
    ensures |r| == |a| && forall i :: 0 <= i < |a| ==> r[i] == Abs(a[i] - b[i])
  {
    seq(|a|, i requires 0 <= i < |a| => Abs(a[i] - b[i]))
  }

  lemma ManhattanIsSum(a: CoordND, b: CoordND)
    requires |a.values| == |b.values| > 0
    ensures Manhattan(a, b) == Ok(Sum(AbsDiffs(a.values, b.values)))
  {
    var d := Diff(a, b, true).value;
    assert d.values == AbsDiffs(a.values, b.values) by {
      forall i | 0 <= i < |d.values|
        ensures d.values[i] == AbsDiffs(a.values, b.values)[i]
      {
        assert d.values[i] == Abs(a.values[i] - b.values[i]);
      }
    }
    ReduceAdds(d);
  }

  lemma {:induction false} SumZero(xs: seq<int>)
    requires forall i :: 0 <= i < |xs| ==> xs[i] >= 0
    ensures Sum(xs) == 0 <==> forall i :: 0 <= i < |xs| ==> xs[i] == 0
  {
    if xs != [] {
      SumZero(xs[1..]);
      SumNonNegative(xs[1..]);
    }
  }

  lemma {:induction false} SumTriangle(a: seq<int>, b: seq<int>, c: seq<int>)
    requires |a| == |b| == |c|
    ensures Sum(AbsDiffs(a, c)) <= Sum(AbsDiffs(a, b)) + Sum(AbsDiffs(b, c))
    decreases |a|
  {
    if a != [] {
      SumTriangle(a[1..], b[1..], c[1..]);
      assert AbsDiffs(a, c)[1..] == AbsDiffs(a[1..], c[1..]);
      assert AbsDiffs(a, b)[1..] == AbsDiffs(a[1..], b[1..]);
      assert AbsDiffs(b, c)[1..] == AbsDiffs(b[1..], c[1..]);
    }
  }

  /**
   * The Manhattan distance is a metric on coordinates of one dimension
   * `N >= 1`: symmetric, zero exactly between equal coordinates, and obeying
   * the triangle inequality.
   */
  lemma ManhattanMetric(a: CoordND, b: CoordND, c: CoordND)
    requires |a.values| == |b.values| == |c.values| > 0
    ensures Manhattan(a, b) == Manhattan(b, a)
    ensures Manhattan(a, b) == Ok(0) <==> a == b
    ensures Manhattan(a, c).value <= Manhattan(a, b).value + Manhattan(b, c).value
  {
    ManhattanIsSum(a, b);
    ManhattanIsSum(b, a);
    ManhattanIsSum(a, c);
    ManhattanIsSum(b, c);
    assert AbsDiffs(a.values, b.values) == AbsDiffs(b.values, a.values);
    SumZero(AbsDiffs(a.values, b.values));
    if Manhattan(a, b) == Ok(0) {
      assert a.values == b.values;
    }
    SumTriangle(a.values, b.values, c.values);
  }

  /**
   * `equals(obj)`: `None` stands for `null`; otherwise the dimensions and
   * then the values are compared one by one.
   */
  method Equals(c: CoordND, obj: Option<CoordND>) returns (eq: bool)
    ensures eq <==> obj == Some(c)
  {
    if obj.None? {
      return false;
    }
    var o := obj.value;
    if |o.values| != |c.values| {
      return false;
    }
    var i := 0;
    while i < |c.values|
      invariant 0 <= i <= |c.values|
      invariant c.values[..i] == o.values[..i]
    {
      if c.values[i] != o.values[i] {
        return false;
      }
      i := i + 1;
    }
    assert c.values == c.values[..i] && o.values == o.values[..i];
    return true;
  }

  /** `toString()`: `()` for no dimensions, otherwise the values in parentheses, comma separated. */
  function ToString(c: CoordND): (s: string)
    ensures |s| >= 2 && s[0] == '(' && s[|s| - 1] == ')'
  {
    if |c.values| == 0 then "()"
    else "(" + Text.Join(IntStrings(c.values), ',') + ")"
  }

  function IntStrings(xs: seq<int>): (r: seq<string>)
    ensures |r| == |xs| && forall i :: 0 <= i < |xs| ==> r[i] == Text.IntToString(xs[i])
  {
    seq(|xs|, i requires 0 <= i < |xs| => Text.IntToString(xs[i]))
  }

  /**
   * The text of a coordinate reads back: inside the parentheses, the pieces
   * between commas are the printed values, each parsing to its value.
   */
  lemma ToStringReadsBack(c: CoordND, lo: int, hi: int)
    requires |c.values| > 0
    requires forall i :: 0 <= i < |c.values| ==> lo <= c.values[i] <= hi
    ensures var s := ToString(c);
            var parts := Text.Split(s[1..|s| - 1], ',');
            && |parts| == |c.values|
            && forall i :: 0 <= i < |parts| ==> Text.ParseInt(parts[i], lo, hi) == Ok(c.values[i])
  {
    var s := ToString(c);
    var parts := IntStrings(c.values);
    var inner := Text.Join(parts, ',');
    assert s[1..|s| - 1] == inner;
    forall i | 0 <= i < |parts|
      ensures ',' !in parts[i] && parts[i] != ""
    {
      Text.IntToStringChars(c.values[i]);
    }
    Text.SplitOfJoin(parts, ',');
    forall i | 0 <= i < |parts|
      ensures Text.ParseInt(parts[i], lo, hi) == Ok(c.values[i])
    {
      Text.ParseIntToString(c.values[i], lo, hi);
    }
  }
}
