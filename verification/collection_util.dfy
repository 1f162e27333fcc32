/**
 * `CollectionUtil`: enumeration of permutations, subsets and combinations,
 * the custom Cartesian product `combineSets`, its fold over a stack of sets,
 * and `filterKeys`. A Java `Set` is visited in its (hash) iteration order;
 * the model takes that order as a sequence without repetitions, so the
 * order of the produced lists is the order the Java recursion produces
 * them in for that iteration order. A `null` validator is `None`.
 */
module CollectionUtil {
  import opened Wrappers
  import opened Numeric

  /** No element occurs twice. */
  predicate NoDup<T(==)>(s: seq<T>)
  {
    forall i, j :: 0 <= i < j < |s| ==> s[i] != s[j]
  }

  /** The elements of a sequence, as a set. */
  function Elems<T>(s: seq<T>): set<T>
  {
    set x | x in s
  }

  function Fact(n: nat): (r: nat)
    ensures r >= 1
  {
    if n == 0 then 1 else n * Fact(n - 1)
  }

  lemma NoDupConcat<T>(a: seq<T>, b: seq<T>)
    requires NoDup(a) && NoDup(b)
    requires forall x :: x in a ==> x !in b
    ensures NoDup(a + b)
  {
    var ab := a + b;
    forall i, j | 0 <= i < j < |ab|
      ensures ab[i] != ab[j]
    {
      if j >= |a| && i < |a| {
        assert ab[i] == a[i] && a[i] in a;
        assert ab[j] == b[j - |a|];
      }
    }
  }

  lemma {:induction false} NoDupCard<T>(s: seq<T>)
    requires NoDup(s)
    ensures |Elems(s)| == |s|
  {
    if |s| > 0 {
      var init := s[..|s| - 1];
      NoDupCard(init);
      assert Elems(s) == Elems(init) + {s[|s| - 1]};
      forall i | 0 <= i < |init|
        ensures init[i] != s[|s| - 1]
      {
      }
    }
  }

  /** A sequence has at most as many distinct elements as entries. */
  lemma {:induction false} ElemsAtMost<T>(s: seq<T>)
    ensures |Elems(s)| <= |s|
  {
    if |s| > 0 {
      var init := s[..|s| - 1];
      ElemsAtMost(init);
      assert Elems(s) == Elems(init) + {s[|s| - 1]};
    }
  }

  /** A repeated element leaves fewer distinct elements than entries. */
  lemma {:induction false} DupCard<T>(s: seq<T>)
    requires !NoDup(s)
    ensures |Elems(s)| < |s|
  {
    var init := s[..|s| - 1];
    assert Elems(s) == Elems(init) + {s[|s| - 1]};
    if s[|s| - 1] in init {
      ElemsAtMost(init);
      assert Elems(s) == Elems(init);
    } else {
      assert !NoDup(init) by {
        var i, j :| 0 <= i < j < |s| && s[i] == s[j];
        assert j < |s| - 1 && init[i] == init[j];
      }
      DupCard(init);
    }
  }

  /** The distinct elements number exactly the entries precisely when none repeats. */
  lemma ElemsCard<T>(s: seq<T>)
    ensures |Elems(s)| <= |s|
    ensures |Elems(s)| == |s| <==> NoDup(s)
  {
    ElemsAtMost(s);
    if NoDup(s) {
      NoDupCard(s);
    } else {
      DupCard(s);
    }
  }

  // ---------------------------------------------------------------------
  // generatePermutations
  // ---------------------------------------------------------------------

  /**
   * `p` is one way to finish the partial permutation `curr`: it starts
   * with `curr`, has one element per item, repeats none and uses only items.
   */
  ghost predicate Completes<T>(p: seq<T>, items: seq<T>, curr: seq<T>)
  {
    |p| == |items| && |curr| <= |p| && p[..|curr|] == curr && NoDup(p)
    && forall x :: x in p ==> x in items
  }

  /** A permutation of the (repetition-free) items. */
  ghost predicate IsPermutation<T>(p: seq<T>, items: seq<T>)
  {
    |p| == |items| && NoDup(p) && forall x :: x in p ==> x in items
  }

  /**
   * The recursive `generatePermutations(result, set, curr, curridx)`, with
   * `curridx` the height of the stack `curr`: a full stack is copied into
   * the result, otherwise every item not yet on it is pushed in turn.
   */
  function Permute<T(==)>(items: seq<T>, curr: seq<T>): seq<seq<T>>
    requires |curr| <= |items|
    decreases |items| - |curr|, 1
  {
    if |curr| == |items| then [curr]
    else Branch(items, curr, 0)
  }

  /** The `for (T o : set)` loop of `Permute`, from the j-th item on. */
  function Branch<T(==)>(items: seq<T>, curr: seq<T>, j: nat): seq<seq<T>>
    requires |curr| < |items| && j <= |items|
    decreases |items| - |curr|, 0, |items| - j
  {
    if j == |items| then []
    else
      var here := if items[j] in curr then [] else Permute(items, curr + [items[j]]);
      here + Branch(items, curr, j + 1)
  }

  /** The partial permutation the recursion keeps on its stack. */
  ghost predicate Partial<T>(items: seq<T>, curr: seq<T>)
  {
    NoDup(items) && NoDup(curr) && |curr| <= |items| && forall x :: x in curr ==> x in items
  }

  lemma PartialPush<T>(items: seq<T>, curr: seq<T>, x: T)
    requires Partial(items, curr) && |curr| < |items| && x in items && x !in curr
    ensures Partial(items, curr + [x]) && |curr + [x]| == |curr| + 1
  {
    var next := curr + [x];
    forall i, j | 0 <= i < j < |next|
      ensures next[i] != next[j]
    {
      if j == |curr| {
        assert next[i] == curr[i] && curr[i] in curr;
      }
    }
  }

  lemma {:induction false} PermuteMembers<T>(items: seq<T>, curr: seq<T>, p: seq<T>)
    requires Partial(items, curr)
    ensures p in Permute(items, curr) <==> Completes(p, items, curr)
    decreases |items| - |curr|, 1
  {
    if |curr| == |items| {
      if Completes(p, items, curr) {
        assert p == p[..|curr|];
      }
    } else {
      BranchMembers(items, curr, 0, p);
      if Completes(p, items, curr) {
        assert p[|curr|] in p;
      }
    }
  }

  lemma {:induction false} BranchMembers<T>(items: seq<T>, curr: seq<T>, j: nat, p: seq<T>)
    requires Partial(items, curr) && |curr| < |items| && j <= |items|
    ensures p in Branch(items, curr, j) <==> Completes(p, items, curr) && p[|curr|] in items[j..]
    decreases |items| - |curr|, 0, |items| - j
  {
    if j < |items| {
      var x := items[j];
      BranchMembers(items, curr, j + 1, p);
      assert items[j..] == [x] + items[j + 1..];
      var next := curr + [x];
      if x !in curr {
        PartialPush(items, curr, x);
        PermuteMembers(items, next, p);
        if |p| > |curr| && |p| == |items| {
          assert p[..|next|] == p[..|curr|] + [p[|curr|]];
          assert p[..|next|] == next <==> p[..|curr|] == curr && p[|curr|] == x;
        }
      } else if Completes(p, items, curr) {
        var k :| 0 <= k < |curr| && curr[k] == x;
        assert p[k] == x;
      }
    }
  }

  /** How many of the items from the j-th on are not on the stack. */
  function Fresh<T(==)>(items: seq<T>, curr: seq<T>, j: nat): nat
    requires j <= |items|
    decreases |items| - j
  {
    if j == |items| then 0
    else (if items[j] in curr then 0 else 1) + Fresh(items, curr, j + 1)
  }

  lemma {:induction false} FreshSnoc<T>(items: seq<T>, curr: seq<T>, x: T, j: nat)
    requires NoDup(items) && j <= |items| && x !in curr
    ensures Fresh(items, curr, j) == Fresh(items, curr + [x], j) + (if x in items[j..] then 1 else 0)
    decreases |items| - j
  {
    if j < |items| {
      FreshSnoc(items, curr, x, j + 1);
      assert items[j..] == [items[j]] + items[j + 1..];
      if items[j] == x {
        assert x !in items[j + 1..] by {
          forall k | j + 1 <= k < |items|
            ensures items[k] != x
          {
          }
        }
      }
    }
  }

  lemma {:induction false} FreshCount<T>(items: seq<T>, curr: seq<T>)
    requires Partial(items, curr)
    ensures Fresh(items, curr, 0) == |items| - |curr|
    decreases |curr|
  {
    if |curr| == 0 {
      FreshNone(items, 0);
    } else {
      var init := curr[..|curr| - 1];
      var x := curr[|curr| - 1];
      assert curr == init + [x];
      assert x !in init;
      FreshCount(items, init);
      FreshSnoc(items, init, x, 0);
      assert x in items && items[0..] == items;
    }
  }

  lemma {:induction false} FreshNone<T>(items: seq<T>, j: nat)
    requires j <= |items|
    ensures Fresh(items, [], j) == |items| - j
    decreases |items| - j
  {
    if j < |items| {
      FreshNone(items, j + 1);
    }
  }

  lemma {:induction false} PermuteCount<T>(items: seq<T>, curr: seq<T>)
    requires Partial(items, curr)
    ensures |Permute(items, curr)| == Fact(|items| - |curr|)
    decreases |items| - |curr|, 1
  {
    if |curr| < |items| {
      BranchCount(items, curr, 0);
      FreshCount(items, curr);
    }
  }

  lemma {:induction false} BranchCount<T>(items: seq<T>, curr: seq<T>, j: nat)
    requires Partial(items, curr) && |curr| < |items| && j <= |items|
    ensures |Branch(items, curr, j)| == Fresh(items, curr, j) * Fact(|items| - |curr| - 1)
    decreases |items| - |curr|, 0, |items| - j
  {
    if j < |items| {
      var f := Fact(|items| - |curr| - 1);
      var rest := Fresh(items, curr, j + 1);
      var later := Branch(items, curr, j + 1);
      BranchCount(items, curr, j + 1);
      assert |later| == rest * f;
      if items[j] !in curr {
        var next := curr + [items[j]];
        PartialPush(items, curr, items[j]);
        PermuteCount(items, next);
        assert |Permute(items, next)| == f;
        assert Branch(items, curr, j) == Permute(items, next) + later;
        assert Fresh(items, curr, j) == 1 + rest;
        MulSucc(rest, f);
      } else {
        assert Branch(items, curr, j) == later;
        assert Fresh(items, curr, j) == rest;
      }
    }
  }

  lemma MulSucc(a: nat, b: nat)
    ensures (1 + a) * b == b + a * b
  {
  }

  lemma {:induction false} PermuteNoDup<T>(items: seq<T>, curr: seq<T>)
    requires Partial(items, curr)
    ensures NoDup(Permute(items, curr))
    decreases |items| - |curr|, 1
  {
    if |curr| < |items| {
      BranchNoDup(items, curr, 0);
    }
  }

  lemma {:induction false} BranchNoDup<T>(items: seq<T>, curr: seq<T>, j: nat)
    requires Partial(items, curr) && |curr| < |items| && j <= |items|
    ensures NoDup(Branch(items, curr, j))
    decreases |items| - |curr|, 0, |items| - j
  {
    if j < |items| {
      var x := items[j];
      BranchNoDup(items, curr, j + 1);
      if x !in curr {
        var next := curr + [x];
        PartialPush(items, curr, x);
        PermuteNoDup(items, next);
        forall p | p in Permute(items, next)
          ensures p !in Branch(items, curr, j + 1)
        {
          PermuteMembers(items, next, p);
          BranchMembers(items, curr, j + 1, p);
          assert p[..|next|][|curr|] == x;
          assert x !in items[j + 1..] by {
            forall k | j + 1 <= k < |items|
              ensures items[k] != x
            {
            }
          }
        }
        NoDupConcat(Permute(items, next), Branch(items, curr, j + 1));
      }
    }
  }

  /**
   * `generatePermutations(Set)`, the set given in its iteration order:
   * |items|! lists, no two alike, and exactly the permutations of the items.
   */
  function GeneratePermutations<T(==,!new)>(items: seq<T>): (r: seq<seq<T>>)
    requires NoDup(items)
    ensures |r| == Fact(|items|)
    ensures NoDup(r)
    ensures forall p :: p in r <==> IsPermutation(p, items)
  {
    PermuteCount(items, []);
    PermuteNoDup(items, []);
    forall p
      ensures p in Permute(items, []) <==> IsPermutation(p, items)
    {
      PermuteMembers(items, [], p);
    }
    Permute(items, [])
  }

  /**
   * `generatePermutations(T[])`: the array is first collapsed into a set,
   * visited in the iteration order `order`. Repeated array elements are
   * therefore permuted as one.
   */
  function GeneratePermutationsOfArray<T(==,!new)>(arr: seq<T>, order: seq<T>): (r: seq<seq<T>>)
    requires NoDup(order) && Elems(order) == Elems(arr)
    ensures |r| == Fact(|Elems(arr)|)
    ensures NoDup(r)
    ensures forall p :: p in r <==>
      |p| == |Elems(arr)| && NoDup(p) && forall x :: x in p ==> x in arr
  {
    NoDupCard(order);
    assert forall x :: x in order <==> x in arr by {
      forall x
        ensures x in order <==> x in arr
      {
        assert x in order <==> x in Elems(order);
        assert x in arr <==> x in Elems(arr);
      }
    }
    GeneratePermutations(order)
  }

  // ---------------------------------------------------------------------
  // generateSubSets
  // ---------------------------------------------------------------------

  /** A subset passes a missing validator, or one that returns true. */
  predicate AcceptsSet<T>(validator: Option<set<T> -> bool>, s: set<T>)
  {
    validator.None? || validator.value(s)
  }

  /** The items from the j-th on. */
  function Rest<T>(items: seq<T>, j: nat): set<T>
  {
    set k | j <= k < |items| :: items[k]
  }

  /**
   * The recursive `generateSubSets(subsets, items, validator, curr, curridx)`:
   * past the last item the stack becomes a subset (if it validates); before
   * it, the branch that includes the item runs first, then the one that
   * leaves it out.
   */
  function SubSets<T>(items: seq<T>, validator: Option<set<T> -> bool>, curr: set<T>, j: nat): seq<set<T>>
    decreases |items| - j
  {
    if j >= |items| then (if AcceptsSet(validator, curr) then [curr] else [])
    else SubSets(items, validator, curr + {items[j]}, j + 1) + SubSets(items, validator, curr, j + 1)
  }

  lemma {:induction false} SubSetsMembers<T>(items: seq<T>, validator: Option<set<T> -> bool>, curr: set<T>, j: nat, s: set<T>)
    requires NoDup(items) && j <= |items|
    requires forall k :: j <= k < |items| ==> items[k] !in curr
    ensures s in SubSets(items, validator, curr, j) <==>
      curr <= s && s <= curr + Rest(items, j) && AcceptsSet(validator, s)
    decreases |items| - j
  {
    if j == |items| {
      assert Rest(items, j) == {};
      assert curr + Rest(items, j) == curr;
      if curr <= s && s <= curr {
        assert s == curr;
      }
    } else {
      var x := items[j];
      assert Rest(items, j) == {x} + Rest(items, j + 1);
      assert x !in Rest(items, j + 1);
      SubSetsMembers(items, validator, curr + {x}, j + 1, s);
      SubSetsMembers(items, validator, curr, j + 1, s);
    }
  }

  lemma {:induction false} SubSetsCount<T>(items: seq<T>, curr: set<T>, j: nat)
    requires j <= |items|
    ensures |SubSets(items, None, curr, j)| == Pow2(|items| - j)
    decreases |items| - j
  {
    if j < |items| {
      SubSetsCount(items, curr + {items[j]}, j + 1);
      SubSetsCount(items, curr, j + 1);
    }
  }

  lemma {:induction false} SubSetsNoDup<T>(items: seq<T>, validator: Option<set<T> -> bool>, curr: set<T>, j: nat)
    requires NoDup(items) && j <= |items|
    requires forall k :: j <= k < |items| ==> items[k] !in curr
    ensures NoDup(SubSets(items, validator, curr, j))
    decreases |items| - j
  {
    if j < |items| {
      var x := items[j];
      var with := SubSets(items, validator, curr + {x}, j + 1);
      var without := SubSets(items, validator, curr, j + 1);
      SubSetsNoDup(items, validator, curr + {x}, j + 1);
      SubSetsNoDup(items, validator, curr, j + 1);
      assert x !in Rest(items, j + 1);
      forall s | s in with
        ensures s !in without
      {
        SubSetsMembers(items, validator, curr + {x}, j + 1, s);
        SubSetsMembers(items, validator, curr, j + 1, s);
      }
      NoDupConcat(with, without);
    }
  }

  /**
   * `generateSubSets(items, validator)`, the set in its iteration order:
   * every subset of the items exactly once, keeping those the validator
   * accepts; without a validator there are 2^|items| of them.
   */
  function GenerateSubSets<T(!new)>(items: seq<T>, validator: Option<set<T> -> bool>): (r: seq<set<T>>)
    requires NoDup(items)
    ensures forall s :: s in r <==> s <= Elems(items) && AcceptsSet(validator, s)
    ensures NoDup(r)
    ensures validator.None? ==> |r| == Pow2(|items|)
  {
    assert Rest(items, 0) == Elems(items) by {
      forall x | x in Elems(items)
        ensures x in Rest(items, 0)
      {
        var k :| 0 <= k < |items| && items[k] == x;
      }
    }
    forall s
      ensures s in SubSets(items, validator, {}, 0) <==> s <= Elems(items) && AcceptsSet(validator, s)
    {
      SubSetsMembers(items, validator, {}, 0, s);
    }
    SubSetsNoDup(items, validator, {}, 0);
    SubSetsCount(items, {}, 0);
    SubSets(items, validator, {}, 0)
  }

  // ---------------------------------------------------------------------
  // generateCombinations
  // ---------------------------------------------------------------------

  /** A combination passes a missing validator, or one that returns true. */
  predicate AcceptsList<T>(validator: Option<seq<T> -> bool>, c: seq<T>)
  {
    validator.None? || validator.value(c)
  }

  /** `c` takes its k-th element from the k-th list, for every k from `from` on. */
  ghost predicate PicksFrom<T>(c: seq<T>, input: seq<seq<T>>, from: nat)
  {
    |c| == |input| && forall k :: from <= k < |c| ==> c[k] in input[k]
  }

  /**
   * The recursive `generateCombinations(results, input, validator, current, curridx)`.
   * Java keeps a stack of indices and looks the elements up when the
   * stack is full; the model keeps the looked-up elements themselves.
   */
  function Combine<T>(input: seq<seq<T>>, validator: Option<seq<T> -> bool>, prefix: seq<T>): seq<seq<T>>
    requires |prefix| <= |input|
    decreases |input| - |prefix|, 1
  {
    if |prefix| == |input| then (if AcceptsList(validator, prefix) then [prefix] else [])
    else Choose(input, validator, prefix, 0)
  }

  /** The `for (i ...)` loop of `Combine` over the next list, from the i-th element on. */
  function Choose<T>(input: seq<seq<T>>, validator: Option<seq<T> -> bool>, prefix: seq<T>, i: nat): seq<seq<T>>
    requires |prefix| < |input| && i <= |input[|prefix|]|
    decreases |input| - |prefix|, 0, |input[|prefix|]| - i
  {
    if i == |input[|prefix|]| then []
    else Combine(input, validator, prefix + [input[|prefix|][i]]) + Choose(input, validator, prefix, i + 1)
  }

  /** The product of the lengths of the lists from the k-th on. */
  function ProductFrom<T>(input: seq<seq<T>>, k: nat): nat
    decreases |input| - k
  {
    if k >= |input| then 1 else |input[k]| * ProductFrom(input, k + 1)
  }

  lemma {:induction false} CombineMembers<T>(input: seq<seq<T>>, validator: Option<seq<T> -> bool>, prefix: seq<T>, c: seq<T>)
    requires |prefix| <= |input|
    ensures c in Combine(input, validator, prefix) <==>
      PicksFrom(c, input, |prefix|) && c[..|prefix|] == prefix && AcceptsList(validator, c)
    decreases |input| - |prefix|, 1
  {
    if |prefix| == |input| {
      if PicksFrom(c, input, |prefix|) && c[..|prefix|] == prefix {
        assert c == c[..|prefix|];
      }
    } else {
      ChooseMembers(input, validator, prefix, 0, c);
    }
  }

  lemma {:induction false} ChooseMembers<T>(input: seq<seq<T>>, validator: Option<seq<T> -> bool>, prefix: seq<T>, i: nat, c: seq<T>)
    requires |prefix| < |input| && i <= |input[|prefix|]|
    ensures c in Choose(input, validator, prefix, i) <==>
      PicksFrom(c, input, |prefix|) && c[..|prefix|] == prefix && AcceptsList(validator, c)
      && c[|prefix|] in input[|prefix|][i..]
    decreases |input| - |prefix|, 0, |input[|prefix|]| - i
  {
    var n := |prefix|;
    if i < |input[n]| {
      var x := input[n][i];
      var next := prefix + [x];
      ChooseMembers(input, validator, prefix, i + 1, c);
      CombineMembers(input, validator, next, c);
      assert input[n][i..] == [x] + input[n][i + 1..];
      if |c| == |input| {
        assert c[..n + 1] == c[..n] + [c[n]];
        assert c[..n + 1] == next <==> c[..n] == prefix && c[n] == x;
      }
    }
  }

  lemma {:induction false} CombineCount<T>(input: seq<seq<T>>, prefix: seq<T>)
    requires |prefix| <= |input|
    ensures |Combine(input, None, prefix)| == ProductFrom(input, |prefix|)
    decreases |input| - |prefix|, 1
  {
    if |prefix| < |input| {
      ChooseCount(input, prefix, 0);
    }
  }

  lemma {:induction false} ChooseCount<T>(input: seq<seq<T>>, prefix: seq<T>, i: nat)
    requires |prefix| < |input| && i <= |input[|prefix|]|
    ensures |Choose(input, None, prefix, i)| == (|input[|prefix|]| - i) * ProductFrom(input, |prefix| + 1)
    decreases |input| - |prefix|, 0, |input[|prefix|]| - i
  {
    var n := |prefix|;
    if i < |input[n]| {
      ChooseCount(input, prefix, i + 1);
      CombineCount(input, prefix + [input[n][i]]);
      var p := ProductFrom(input, n + 1);
      assert (|input[n]| - i) * p == p + (|input[n]| - (i + 1)) * p;
    }
  }

  /**
   * `generateCombinations(input, validator)`, each set given as its list in
   * iteration order: exactly the validated lists that take their i-th
   * element from the i-th set; without a validator there are as many as
   * the product of the set sizes.
   */
  function GenerateCombinations<T(!new)>(input: seq<seq<T>>, validator: Option<seq<T> -> bool>): (r: seq<seq<T>>)
    ensures forall c :: c in r <==>
      |c| == |input| && (forall k :: 0 <= k < |c| ==> c[k] in input[k]) && AcceptsList(validator, c)
    ensures validator.None? ==> |r| == ProductFrom(input, 0)
  {
    forall c
      ensures c in Combine(input, validator, []) <==> PicksFrom(c, input, 0) && AcceptsList(validator, c)
    {
      CombineMembers(input, validator, [], c);
    }
    CombineCount(input, []);
    Combine(input, validator, [])
  }

  // ---------------------------------------------------------------------
  // combineSets, generateSetCombinations
  // ---------------------------------------------------------------------

  /** The custom Cartesian product: f applied to every pair. */
  ghost function Product<T>(s1: set<T>, s2: set<T>, f: (T, T) -> T): set<T>
  {
    set a, b | a in s1 && b in s2 :: f(a, b)
  }

  /** f applied to one element and every element of a set. */
  ghost function Row<T>(a: T, s2: set<T>, f: (T, T) -> T): set<T>
  {
    set b | b in s2 :: f(a, b)
  }

  /** `combineSets(s1, s2, combfunc)`: the two nested loops over both sets. */
  method CombineSets<T(==)>(s1: set<T>, s2: set<T>, f: (T, T) -> T) returns (r: set<T>)
    ensures r == Product(s1, s2, f)
  {
    r := {};
    var left := s1;
    while left != {}
      invariant left <= s1
      invariant r == Product(s1 - left, s2, f)
      decreases left
    {
      var a :| a in left;
      var right := s2;
      while right != {}
        invariant right <= s2
        invariant r == Product(s1 - left, s2, f) + Row(a, s2 - right, f)
        decreases right
      {
        var b :| b in right;
        assert Row(a, s2 - (right - {b}), f) == Row(a, s2 - right, f) + {f(a, b)};
        r := r + {f(a, b)};
        right := right - {b};
      }
      assert s2 - right == s2;
      ProductAddRow(s1 - left, a, s2, f);
      assert s1 - (left - {a}) == (s1 - left) + {a};
      left := left - {a};
    }
    assert s1 - left == s1;
  }

  lemma ProductAddRow<T>(s1: set<T>, a: T, s2: set<T>, f: (T, T) -> T)
    ensures Product(s1 + {a}, s2, f) == Product(s1, s2, f) + Row(a, s2, f)
  {
  }

  /** `c` takes its k-th element from the k-th set, for every k. */
  ghost predicate Picks<T>(c: seq<T>, input: seq<set<T>>)
  {
    |c| == |input| && forall k :: 0 <= k < |c| ==> c[k] in input[k]
  }

  /**
   * The element one choice per set yields under the stack fold: the last
   * choice first, then f(so far, next choice) down to the first one.
   */
  function Reduce<T>(c: seq<T>, f: (T, T) -> T): T
    requires |c| > 0
  {
    if |c| == 1 then c[0] else f(Reduce(c[1..], f), c[0])
  }

  /** What the stack fold leaves for the sets `s`, popping from the end. */
  ghost function Folded<T>(s: seq<set<T>>, f: (T, T) -> T): set<T>
    requires |s| > 0
  {
    if |s| == 1 then s[0] else Product(Folded(s[1..], f), s[0], f)
  }

  lemma {:induction false} FoldedMembers<T>(s: seq<set<T>>, f: (T, T) -> T, y: T)
    requires |s| > 0
    ensures y in Folded(s, f) <==> exists c :: Picks(c, s) && y == Reduce(c, f)
  {
    if |s| == 1 {
      if y in s[0] {
        assert Picks([y], s) && y == Reduce([y], f);
      }
    } else {
      if y in Folded(s, f) {
        var a, b :| a in Folded(s[1..], f) && b in s[0] && y == f(a, b);
        FoldedMembers(s[1..], f, a);
        var c' :| Picks(c', s[1..]) && a == Reduce(c', f);
        var c := [b] + c';
        assert c[1..] == c';
        assert Picks(c, s);
      }
      if exists c :: Picks(c, s) && y == Reduce(c, f) {
        var c :| Picks(c, s) && y == Reduce(c, f);
        var a := Reduce(c[1..], f);
        assert Picks(c[1..], s[1..]);
        FoldedMembers(s[1..], f, a);
        assert y == f(a, c[0]);
      }
    }
  }

  /**
   * `generateSetCombinations(input, combfunc)`: nothing for no sets;
   * otherwise the sets are pushed on a stack in collection order, the top
   * one starts the result, and each further pop is combined into it.
   * The result holds exactly the `Reduce` of every choice of one element
   * per set.
   */
  method GenerateSetCombinations<T(==)>(input: seq<set<T>>, f: (T, T) -> T) returns (r: set<T>)
    ensures |input| == 0 ==> r == {}
    ensures |input| == 1 ==> r == input[0]
    ensures |input| > 0 ==> forall y :: y in r <==> exists c :: Picks(c, input) && y == Reduce(c, f)
  {
    if |input| == 0 {
      return {};
    }
    var remaining := input;
    r := remaining[|remaining| - 1];
    remaining := remaining[..|remaining| - 1];
    while |remaining| > 0
      invariant remaining == input[..|remaining|]
      invariant r == Folded(input[|remaining|..], f)
      decreases |remaining|
    {
      var top := remaining[|remaining| - 1];
      r := CombineSets(r, top, f);
      assert input[|remaining| - 1..][1..] == input[|remaining|..];
      remaining := remaining[..|remaining| - 1];
    }
    assert input[0..] == input;
    forall y
      ensures y in r <==> exists c :: Picks(c, input) && y == Reduce(c, f)
    {
      FoldedMembers(input, f, y);
    }
  }

  // ---------------------------------------------------------------------
  // filterKeys
  // ---------------------------------------------------------------------

  /** A key survives when its value is not null and passes the filter. */
  predicate Passes<K, V>(m: map<K, Option<V>>, filter: V -> bool, k: K)
  {
    k in m && m[k].Some? && filter(m[k].value)
  }

  /** `filterKeys(map, filter)`: one pass over the key set. */
  method FilterKeys<K(==), V>(m: map<K, Option<V>>, filter: V -> bool) returns (r: set<K>)
    ensures forall k :: k in r <==> k in m && m[k].Some? && filter(m[k].value)
  {
    r := {};
    var keys := m.Keys;
    while keys != {}
      invariant keys <= m.Keys
      invariant forall k :: k in r <==> k !in keys && Passes(m, filter, k)
      decreases keys
    {
      var k :| k in keys;
      if m[k].Some? && filter(m[k].value) {
        r := r + {k};
      }
      keys := keys - {k};
    }
  }
}
