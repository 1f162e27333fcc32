/**
 * Bisection for the first value that passes a test (`BinarySearch`). The
 * test is a pure function of the probed value; the midpoint uses Java's
 * truncating division.
 */
module BinarySearch {
  import opened Numeric

  /** The test switches from false to true at most once on [lo, hi]. */
  ghost predicate Monotone(test: int -> bool, lo: int, hi: int)
  {
    forall x, y :: lo <= x <= y <= hi && test(x) ==> test(y)
  }

  /** The midpoint `(max + min) / 2`. */
  function Half(min: int, max: int): int
  {
    TDiv(max + min, 2)
  }

  /** For non-negative bounds the midpoint lies in [min, max) whenever min < max. */
  lemma HalfInside(min: int, max: int)
    requires 0 <= min < max
    ensures min <= Half(min, max) < max
  {
    TruncatingAgreesOnNatural(max + min, 2);
  }

  /**
   * `findFirst(min, max, test)`: halve [min, max] until it is a single
   * value, keeping the upper half when the midpoint passes. The result lies
   * in [min, max]; for a monotone test it is the least value that passes,
   * or max when none does. With min == max the loop does not run.
   */
  method FindFirst(min: int, max: int, test: int -> bool) returns (r: int)
    requires 0 <= min <= max
    ensures min <= r <= max
    ensures min == max ==> r == min
    ensures Monotone(test, min, max) ==>
              (test(r) || r == max) && forall x :: min <= x < r ==> !test(x)
    ensures Monotone(test, min, max) ==> forall w :: min <= w <= max && test(w) ==> test(r) && r <= w
  {
    var lo, hi := min, max;
    while lo != hi
      invariant min <= lo <= hi <= max
      invariant test(hi) || hi == max
      invariant Monotone(test, min, max) ==> forall x :: min <= x < lo ==> !test(x)
      decreases hi - lo
    {
      HalfInside(lo, hi);
      var half := Half(lo, hi);
      if test(half) {
        hi := half;
      } else {
        lo := half + 1;
      }
    }
    r := lo;
  }

  /**
   * Negative bounds can stall: on [-1, 0] the midpoint truncates to 0, so a
   * test that passes at 0 leaves the interval unchanged.
   */
  lemma NegativeBoundsStall()
    ensures Half(-1, 0) == 0
  {
  }
}
