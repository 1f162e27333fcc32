/**
 * Closed integer intervals `[min, max]` (`Range`). Nothing forces
 * `min <= max`: the operations are plain comparisons on the two bounds, and
 * the properties that need a non-empty interval say so.
 */
module Range {
  import opened Numeric

  datatype Range = Range(min: int, max: int)

  predicate WellFormed(r: Range)
  {
    r.min <= r.max
  }

  /** The values the range spans. */
  ghost function Values(r: Range): set<int>
  {
    set n | r.min <= n <= r.max && Spans(r, n)
  }

  /** Membership by bounds; the named predicate gives the comprehension a trigger. */
  ghost predicate Spans(r: Range, n: int)
  {
    r.min <= n <= r.max
  }

  /** `contains(n)`: the number lies between the bounds. */
  function Contains(r: Range, n: int): (b: bool)
    ensures b <==> n in Values(r)
  {
    r.min <= n && n <= r.max
  }

  /** `contains(r2)`: r2's bounds lie within this range's bounds. */
  function ContainsRange(r: Range, r2: Range): bool
  {
    r2.min >= r.min && r2.max <= r.max
  }

  /** For a non-empty r2, containing it means containing every value it spans. */
  lemma ContainsRangeIsSubset(r: Range, r2: Range)
    requires WellFormed(r2)
    ensures ContainsRange(r, r2) <==> Values(r2) <= Values(r)
  {
    if Values(r2) <= Values(r) {
      assert r2.min in Values(r2);
      assert r2.max in Values(r2);
    }
  }

  /** `overlaps`: the two ranges touch at some bound. */
  function Overlaps(r: Range, r2: Range): bool
  {
    r2.min <= r.max && r2.max >= r.min
  }

  /** Overlapping is symmetric, and for non-empty ranges means sharing a value. */
  lemma OverlapsMeansSharedValue(r: Range, r2: Range)
    ensures Overlaps(r, r2) <==> Overlaps(r2, r)
    ensures WellFormed(r) && WellFormed(r2) ==> (Overlaps(r, r2) <==> Values(r) * Values(r2) != {})
  {
    if WellFormed(r) && WellFormed(r2) && Overlaps(r, r2) {
      assert Max(r.min, r2.min) in Values(r) * Values(r2);
    }
  }

  /** `combine`: from the smaller minimum to the larger maximum, whether or not the two are adjacent. */
  function Combine(r: Range, r2: Range): (c: Range)
    ensures c.min <= r.min && c.min <= r2.min && c.max >= r.max && c.max >= r2.max
    ensures c.min == r.min || c.min == r2.min
    ensures c.max == r.max || c.max == r2.max
  {
    Range(Min(r.min, r2.min), Max(r.max, r2.max))
  }

  /** The combination contains both ranges, and every range that contains both contains it. */
  lemma CombineIsHull(r: Range, r2: Range, h: Range)
    ensures ContainsRange(Combine(r, r2), r) && ContainsRange(Combine(r, r2), r2)
    ensures ContainsRange(h, r) && ContainsRange(h, r2) ==> ContainsRange(h, Combine(r, r2))
    ensures WellFormed(r) ==> WellFormed(Combine(r, r2))
    ensures Values(r) + Values(r2) <= Values(Combine(r, r2))
  {
  }

  /** `size`: `|max - min| + 1`. */
  function Size(r: Range): (s: nat)
    ensures s >= 1
  {
    Abs(r.max - r.min) + 1
  }

  /** For a non-empty range the size counts the values it spans. */
  lemma {:induction false} SizeCountsValues(r: Range)
    requires WellFormed(r)
    ensures Size(r) == |Values(r)|
    decreases r.max - r.min
  {
    if r.min < r.max {
      var shorter := Range(r.min, r.max - 1);
      SizeCountsValues(shorter);
      assert Values(r) == Values(shorter) + {r.max};
    } else {
      assert Values(r) == {r.min};
    }
  }

  /** `compareTo`: `Long.compare` on the minima; the maxima play no part. */
  function Compare(r: Range, o: Range): (c: int)
    ensures c == -1 || c == 0 || c == 1
    ensures c < 0 <==> r.min < o.min
    ensures c == 0 <==> r.min == o.min
  {
    if r.min < o.min then -1 else if r.min == o.min then 0 else 1
  }

  /** The comparison is antisymmetric and transitive, so it is a total preorder on ranges. */
  lemma CompareOrders(a: Range, b: Range, c: Range)
    ensures Compare(a, b) == -Compare(b, a)
    ensures Compare(a, b) <= 0 && Compare(b, c) <= 0 ==> Compare(a, c) <= 0
    ensures Compare(a, Range(a.min, b.max)) == 0
  {
  }
}
