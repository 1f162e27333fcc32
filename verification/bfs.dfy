/**
 * `BreadthFirstSearch`: distances, reachability and shortest paths over an
 * implicit graph given by a successor function.
 *
 * The Java successor function returns a `Collection`; here it is a function
 * to a sequence, kept inside a finite universe `u` so that every search
 * terminates. Each wave of the Java `while` loop is one recursion step. The
 * order of the explore stack does not affect `getDistances` or
 * `getReachable`, so their frontiers are sets; `getShortestPaths` returns a
 * list whose order is observable, so its stacks are sequences.
 */
module BreadthFirstSearch {
  import opened Wrappers
  import CU = CollectionUtil

  // ------------------------------------------------- reference definitions

  /** `next` never leaves `u`. */
  ghost predicate Closed<T>(u: set<T>, next: T -> seq<T>)
  {
    forall x, y :: x in u && y in next(x) ==> y in u
  }

  /** The successors of the values in `xs`, leaving out those in `avoid`. */
  function Succ<T(==)>(next: T -> seq<T>, xs: set<T>, avoid: set<T>): (r: set<T>)
  {
    set x, y | x in xs && y in next(x) && y !in avoid :: y
  }

  /**
   * The values `s` reaches in at most `k` steps, never stepping onto a value
   * of `avoid` (the start itself is always included).
   */
  ghost function Within<T>(next: T -> seq<T>, s: T, k: nat, avoid: set<T>): set<T>
  {
    if k == 0 then {s}
    else Within(next, s, k - 1, avoid) + Succ(next, Within(next, s, k - 1, avoid), avoid)
  }

  /** The values reached in fewer than `k` steps. */
  ghost function Before<T>(next: T -> seq<T>, s: T, k: nat, avoid: set<T>): set<T>
  {
    if k == 0 then {} else Within(next, s, k - 1, avoid)
  }

  /** `p` is a non-empty chain of successors that never steps onto `avoid`. */
  ghost predicate Walk<T>(next: T -> seq<T>, p: seq<T>, avoid: set<T>)
  {
    |p| >= 1 && forall i :: 1 <= i < |p| ==> p[i] in next(p[i - 1]) && p[i] !in avoid
  }

  /** `p` is a walk from `s` to `x`. */
  ghost predicate WalkTo<T>(next: T -> seq<T>, s: T, x: T, p: seq<T>, avoid: set<T>)
  {
    Walk(next, p, avoid) && p[0] == s && p[|p| - 1] == x
  }

  /**
   * The values `s` reaches in at most `k` unrestricted steps. Quantifiers over
   * `k` range over this name rather than over `Within` itself, so that
   * unfolding `Within` does not feed them new instances.
   */
  ghost function Layer<T>(next: T -> seq<T>, s: T, k: nat): set<T>
  {
    Within(next, s, k, {})
  }

  /** Some chain of successors leads from `s` to `x`. */
  ghost predicate Reachable<T>(next: T -> seq<T>, s: T, x: T)
  {
    exists k: nat :: x in Layer(next, s, k)
  }

  /** `d` is the BFS level of `x`: reached within `d` steps but not within fewer. */
  ghost predicate IsDist<T>(next: T -> seq<T>, s: T, x: T, d: nat)
  {
    x in Within(next, s, d, {}) && x !in Before(next, s, d, {})
  }

  lemma {:induction false} WithinMono<T>(next: T -> seq<T>, s: T, j: nat, k: nat, avoid: set<T>)
    requires j <= k
    ensures Within(next, s, j, avoid) <= Within(next, s, k, avoid)
    decreases k - j
  {
    if j < k {
      WithinMono(next, s, j, k - 1, avoid);
    }
  }

  lemma SuccMono<T>(next: T -> seq<T>, a: set<T>, b: set<T>, avoid: set<T>)
    requires a <= b
    ensures Succ(next, a, avoid) <= Succ(next, b, avoid)
  {
  }

  lemma SuccUnion<T>(next: T -> seq<T>, a: set<T>, b: set<T>, avoid: set<T>)
    ensures Succ(next, a + b, avoid) == Succ(next, a, avoid) + Succ(next, b, avoid)
  {
  }

  /** With `u` closed under `next`, no layer leaves `u`. */
  lemma {:induction false} WithinInside<T>(u: set<T>, next: T -> seq<T>, s: T, k: nat, avoid: set<T>)
    requires Closed(u, next) && s in u
    ensures Within(next, s, k, avoid) <= u
  {
    if k > 0 {
      WithinInside(u, next, s, k - 1, avoid);
    }
  }

  /** Once a layer adds nothing, no later layer does. */
  lemma {:induction false} WithinStable<T>(next: T -> seq<T>, s: T, k: nat, j: nat, avoid: set<T>)
    requires Within(next, s, k + 1, avoid) == Within(next, s, k, avoid)
    ensures Within(next, s, j, avoid) <= Within(next, s, k, avoid)
  {
    if j <= k {
      WithinMono(next, s, j, k, avoid);
    } else {
      WithinStable(next, s, k, j - 1, avoid);
      SuccMono(next, Within(next, s, j - 1, avoid), Within(next, s, k, avoid), avoid);
    }
  }

  /** Every value within `k` steps ends a walk of at most `k` steps. */
  lemma {:induction false} WithinHasWalk<T>(next: T -> seq<T>, s: T, k: nat, avoid: set<T>, x: T)
    requires x in Within(next, s, k, avoid)
    ensures exists w :: WalkTo(next, s, x, w, avoid) && |w| <= k + 1
  {
    if k == 0 {
      assert WalkTo(next, s, x, [s], avoid);
    } else if x in Within(next, s, k - 1, avoid) {
      WithinHasWalk(next, s, k - 1, avoid, x);
    } else {
      var y :| y in Within(next, s, k - 1, avoid) && x in next(y);
      WithinHasWalk(next, s, k - 1, avoid, y);
      var w :| WalkTo(next, s, y, w, avoid) && |w| <= k;
      assert WalkTo(next, s, x, w + [x], avoid);
    }
  }

  /** The end of a walk of `|w| - 1` steps is within `|w| - 1` steps. */
  lemma {:induction false} WalkInWithin<T>(next: T -> seq<T>, s: T, w: seq<T>, avoid: set<T>)
    requires Walk(next, w, avoid) && w[0] == s
    ensures w[|w| - 1] in Within(next, s, |w| - 1, avoid)
  {
    if |w| > 1 {
      var v := w[..|w| - 1];
      assert Walk(next, v, avoid);
      WalkInWithin(next, s, v, avoid);
    }
  }

  /**
   * The layers describe shortest walks: `x` is at level `d` exactly when a
   * walk of `d` steps reaches it and no walk reaches it in fewer.
   */
  lemma DistIsShortestWalk<T>(next: T -> seq<T>, s: T, x: T, d: nat)
    ensures IsDist(next, s, x, d) <==>
            ((exists w :: WalkTo(next, s, x, w, {}) && |w| == d + 1) &&
             (forall w :: WalkTo(next, s, x, w, {}) ==> |w| >= d + 1))
  {
    if IsDist(next, s, x, d) {
      WithinHasWalk(next, s, d, {}, x);
      var w :| WalkTo(next, s, x, w, {}) && |w| <= d + 1;
      forall v | WalkTo(next, s, x, v, {})
        ensures |v| >= d + 1
      {
        WalkInWithin(next, s, v, {});
        if |v| < d + 1 {
          WithinMono(next, s, |v| - 1, d - 1, {});
        }
      }
    }
    if (exists w :: WalkTo(next, s, x, w, {}) && |w| == d + 1) &&
       (forall w :: WalkTo(next, s, x, w, {}) ==> |w| >= d + 1) {
      var w :| WalkTo(next, s, x, w, {}) && |w| == d + 1;
      WalkInWithin(next, s, w, {});
      if d > 0 && x in Within(next, s, d - 1, {}) {
        WithinHasWalk(next, s, d - 1, {}, x);
      }
    }
  }

  /** `x` is reachable exactly when some walk leads to it. */
  lemma ReachableIsWalk<T>(next: T -> seq<T>, s: T, x: T)
    ensures Reachable(next, s, x) <==> exists w :: WalkTo(next, s, x, w, {})
  {
    if Reachable(next, s, x) {
      var k: nat :| x in Layer(next, s, k);
      WithinHasWalk(next, s, k, {}, x);
    }
    if exists w :: WalkTo(next, s, x, w, {}) {
      var w :| WalkTo(next, s, x, w, {});
      WalkInWithin(next, s, w, {});
      assert x in Layer(next, s, |w| - 1);
    }
  }

  // ------------------------------------------------------------ getDistances

  /** Taking `newly` out of what is left of `u` shrinks it by `|newly|`. */
  lemma Shrinks<T>(u: set<T>, visited: set<T>, newly: set<T>)
    requires newly <= u && newly !! visited
    ensures |u - (visited + newly)| == |u - visited| - |newly|
  {
    assert u - visited == (u - (visited + newly)) + newly;
  }

  /** `found` with the level `dist` stored for every value of `xs`. */
  function Record<T(==)>(found: map<T, nat>, xs: set<T>, dist: nat): (r: map<T, nat>)
    ensures r.Keys == found.Keys + xs
    ensures forall t :: t in r ==> r[t] == if t in xs then dist else found[t]
  {
    found + map t | t in xs :: dist
  }

  /**
   * The waves of `getDistances` from the current one on: `visited` holds the
   * values popped in earlier waves, `frontier` the values pushed for this
   * wave, `dist` its index and `found` the distances recorded so far.
   */
  function Waves<T(==)>(u: set<T>, next: T -> seq<T>, targets: set<T>, findall: bool,
                        visited: set<T>, frontier: set<T>, dist: nat, found: map<T, nat>): (r: Result<map<T, nat>>)
    requires Closed(u, next) && visited <= u && frontier <= u
    ensures r.Err? ==> findall && r.error == Runtime
    decreases |u - visited|, |frontier|
  {
    if frontier == {} then
      if findall then Err(Runtime) else Ok(found)
    else
      var newly := frontier - visited;
      var found' := Record(found, newly * targets, dist);
      if newly * targets != {} && targets <= found'.Keys then Ok(found')
      else
        Shrinks(u, visited, newly);
        Waves(u, next, targets, findall, visited + newly, Succ(next, newly, {}), dist + 1, found')
  }

  /**
   * `getDistances(initial, targets, nextfunc, findall)`: the BFS level of every
   * target found, failing when `findall` is set and the frontier empties first.
   */
  function GetDistances<T(==)>(u: set<T>, next: T -> seq<T>, initial: T, targets: set<T>, findall: bool): (r: Result<map<T, nat>>)
    requires Closed(u, next) && initial in u
    ensures r.Err? ==> findall && r.error == Runtime
  {
    var found := if initial in targets then map[initial := 0] else map[];
    Waves(u, next, targets, findall, {}, {initial}, 0, found)
  }

  /** What holds at the start of every wave of `getDistances`. */
  ghost predicate WaveState<T>(next: T -> seq<T>, initial: T, targets: set<T>,
                               visited: set<T>, frontier: set<T>, dist: nat, found: map<T, nat>)
  {
    && visited == Before(next, initial, dist, {})
    && visited + frontier == Within(next, initial, dist, {})
    && found.Keys <= targets * Within(next, initial, dist, {})
    && targets * Before(next, initial, dist, {}) <= found.Keys
    && (forall t :: t in found ==> IsDist(next, initial, t, found[t]))
    && (targets == {} || !(targets <= Before(next, initial, dist, {})))
  }

  /** One wave pops exactly the values of level `dist` and pushes their successors. */
  lemma WaveStep<T>(next: T -> seq<T>, initial: T, visited: set<T>, frontier: set<T>, dist: nat)
    requires visited == Before(next, initial, dist, {})
    requires visited + frontier == Within(next, initial, dist, {})
    ensures frontier - visited == Within(next, initial, dist, {}) - Before(next, initial, dist, {})
    ensures visited + (frontier - visited) == Before(next, initial, dist + 1, {})
    ensures visited + (frontier - visited) + Succ(next, frontier - visited, {}) == Within(next, initial, dist + 1, {})
  {
    var w := Within(next, initial, dist, {});
    SuccUnion(next, visited, frontier - visited, {});
    assert visited + (frontier - visited) == w;
    if dist > 0 {
      assert Succ(next, visited, {}) <= w;
    }
  }

  /** The distances recorded in one wave keep `WaveState` for the next one. */
  lemma FoundStep<T>(next: T -> seq<T>, initial: T, targets: set<T>,
                     visited: set<T>, frontier: set<T>, dist: nat, found: map<T, nat>, found': map<T, nat>)
    requires WaveState(next, initial, targets, visited, frontier, dist, found)
    requires found' == Record(found, (frontier - visited) * targets, dist)
    requires (frontier - visited) * targets == {} || !(targets <= found'.Keys)
    ensures WaveState(next, initial, targets, visited + (frontier - visited),
                      Succ(next, frontier - visited, {}), dist + 1, found')
  {
    WaveStep(next, initial, visited, frontier, dist);
    WithinMono(next, initial, dist, dist + 1, {});
    var w := Within(next, initial, dist, {});
    forall t | t in found'
      ensures IsDist(next, initial, t, found'[t])
    {
      if t in frontier - visited && t in targets {
        assert found'[t] == dist;
      }
    }
    assert targets * w <= found'.Keys;
  }

  /**
   * What `getDistances` promises: a successful result maps exactly the
   * reachable targets to their BFS levels, and the search fails exactly when
   * `findall` is set and either some target is unreachable or there are no
   * targets at all.
   */
  ghost predicate DistancesOutcome<T>(next: T -> seq<T>, initial: T, targets: set<T>, findall: bool, r: Result<map<T, nat>>)
  {
    && (r.Ok? ==> forall t :: t in r.value ==> t in targets && IsDist(next, initial, t, r.value[t]))
    && (r.Ok? ==> forall t :: t in targets && Reachable(next, initial, t) ==> t in r.value)
    && (r.Err? <==> findall && (targets == {} || exists t :: t in targets && !Reachable(next, initial, t)))
  }

  /**
   * Once the frontier is empty, the values visited are all the reachable
   * ones, and some target is unreachable unless there are none.
   */
  lemma WavesEnd<T>(next: T -> seq<T>, initial: T, targets: set<T>, findall: bool, visited: set<T>, dist: nat,
                    found: map<T, nat>, r: Result<map<T, nat>>)
    requires WaveState(next, initial, targets, visited, {}, dist, found)
    requires r == if findall then Err(Runtime) else Ok(found)
    ensures DistancesOutcome(next, initial, targets, findall, r)
  {
    Ended(next, initial, targets, visited, dist, found);
    if findall && targets != {} {
      var t :| t in targets && t !in visited;
      assert !Reachable(next, initial, t);
    }
  }

  /** With the frontier empty, the visited values are exactly the reachable ones. */
  lemma Ended<T>(next: T -> seq<T>, initial: T, targets: set<T>, visited: set<T>, dist: nat, found: map<T, nat>)
    requires WaveState(next, initial, targets, visited, {}, dist, found)
    ensures forall t :: Reachable(next, initial, t) <==> t in visited
  {
    assert visited + {} == visited;
    ExhaustedAt(next, initial, visited, dist);
  }

  /** When the visited values are all those within `dist` steps and only those within fewer, they are all the reachable ones. */
  lemma ExhaustedAt<T>(next: T -> seq<T>, initial: T, visited: set<T>, dist: nat)
    requires visited == Before(next, initial, dist, {}) && visited == Within(next, initial, dist, {})
    ensures forall t :: Reachable(next, initial, t) <==> t in visited
  {
    var d := EmptyFrontier(next, initial, visited, dist);
    Exhausted(next, initial, d);
  }

  /** When the visited values are all those within `dist` steps and only those within fewer, the last layer added nothing. */
  lemma EmptyFrontier<T>(next: T -> seq<T>, s: T, visited: set<T>, dist: nat) returns (d: nat)
    requires visited == Before(next, s, dist, {}) && visited == Within(next, s, dist, {})
    ensures dist == d + 1 && visited == Within(next, s, d, {}) && Within(next, s, d + 1, {}) == visited
  {
    assert s in Within(next, s, 0, {});
    d := dist - 1;
  }

  /** Once a layer adds nothing, the values reachable at all are those within that many steps. */
  lemma Exhausted<T>(next: T -> seq<T>, initial: T, d: nat)
    requires Within(next, initial, d + 1, {}) == Within(next, initial, d, {})
    ensures forall t :: Reachable(next, initial, t) <==> t in Within(next, initial, d, {})
  {
    forall t | Reachable(next, initial, t)
      ensures t in Within(next, initial, d, {})
    {
      var k: nat :| t in Layer(next, initial, k);
      WithinStable(next, initial, d, k, {});
    }
    forall t | t in Within(next, initial, d, {})
      ensures Reachable(next, initial, t)
    {
      assert t in Layer(next, initial, d);
    }
  }

  /** When the last target is stored, every target is reachable. */
  lemma WavesExit<T>(next: T -> seq<T>, initial: T, targets: set<T>, findall: bool,
                     visited: set<T>, frontier: set<T>, dist: nat, found: map<T, nat>, found': map<T, nat>)
    requires WaveState(next, initial, targets, visited, frontier, dist, found)
    requires found' == Record(found, (frontier - visited) * targets, dist)
    requires (frontier - visited) * targets != {} && targets <= found'.Keys
    ensures DistancesOutcome(next, initial, targets, findall, Ok(found'))
  {
    forall t | t in targets
      ensures Reachable(next, initial, t) && IsDist(next, initial, t, found'[t])
    {
      assert t in Layer(next, initial, dist);
      if t in frontier - visited {
        assert found'[t] == dist;
      }
    }
  }

  /** `WaveState` inside the universe `u`: the precondition of `WavesCorrect`. */
  ghost predicate Searching<T>(u: set<T>, next: T -> seq<T>, initial: T, targets: set<T>,
                               visited: set<T>, frontier: set<T>, dist: nat, found: map<T, nat>)
  {
    && Closed(u, next) && initial in u && visited <= u && frontier <= u
    && WaveState(next, initial, targets, visited, frontier, dist, found)
  }

  /** A wave that does not return leaves a `Searching` state with less of `u` unvisited. */
  lemma Advance<T>(u: set<T>, next: T -> seq<T>, initial: T, targets: set<T>,
                   visited: set<T>, frontier: set<T>, dist: nat, found: map<T, nat>, found': map<T, nat>)
    requires Searching(u, next, initial, targets, visited, frontier, dist, found)
    requires found' == Record(found, (frontier - visited) * targets, dist)
    requires (frontier - visited) * targets == {} || !(targets <= found'.Keys)
    ensures Searching(u, next, initial, targets, visited + (frontier - visited),
                      Succ(next, frontier - visited, {}), dist + 1, found')
    ensures |u - (visited + (frontier - visited))| == |u - visited| - |frontier - visited|
    ensures frontier - visited == {} ==> Succ(next, frontier - visited, {}) == {}
  {
    FoundStep(next, initial, targets, visited, frontier, dist, found, found');
    WithinInside(u, next, initial, dist + 1, {});
    Shrinks(u, visited, frontier - visited);
  }

  /**
   * The waves of `getDistances` are correct from any wave on: a successful
   * result maps exactly the reachable targets to their BFS levels, and the
   * search fails exactly when `findall` is set and either some target is
   * unreachable or there are no targets at all (the size test at line 94 is
   * only reached after storing a target).
   */
  lemma {:induction false} WavesCorrect<T>(u: set<T>, next: T -> seq<T>, initial: T, targets: set<T>, findall: bool,
                                           visited: set<T>, frontier: set<T>, dist: nat, found: map<T, nat>)
    requires Searching(u, next, initial, targets, visited, frontier, dist, found)
    ensures DistancesOutcome(next, initial, targets, findall, Waves(u, next, targets, findall, visited, frontier, dist, found))
    decreases |u - visited|, |frontier|, 1
  {
    var r := Waves(u, next, targets, findall, visited, frontier, dist, found);
    if frontier == {} {
      WavesEnd(next, initial, targets, findall, visited, dist, found, r);
    } else {
      var found' := Record(found, (frontier - visited) * targets, dist);
      if (frontier - visited) * targets != {} && targets <= found'.Keys {
        WavesExit(next, initial, targets, findall, visited, frontier, dist, found, found');
        assert r == Ok(found');
      } else {
        WavesOn(u, next, initial, targets, findall, visited, frontier, dist, found, found');
      }
    }
  }

  /** The recursive case of `WavesCorrect`: a wave that neither ends nor returns. */
  lemma {:induction false} WavesOn<T>(u: set<T>, next: T -> seq<T>, initial: T, targets: set<T>, findall: bool,
                                      visited: set<T>, frontier: set<T>, dist: nat, found: map<T, nat>, found': map<T, nat>)
    requires Searching(u, next, initial, targets, visited, frontier, dist, found)
    requires frontier != {} && found' == Record(found, (frontier - visited) * targets, dist)
    requires (frontier - visited) * targets == {} || !(targets <= found'.Keys)
    ensures DistancesOutcome(next, initial, targets, findall, Waves(u, next, targets, findall, visited, frontier, dist, found))
    decreases |u - visited|, |frontier|, 0
  {
    var newly := frontier - visited;
    Advance(u, next, initial, targets, visited, frontier, dist, found, found');
    WavesCorrect(u, next, initial, targets, findall, visited + newly, Succ(next, newly, {}), dist + 1, found');
    WavesUnfold(u, next, targets, findall, visited, frontier, dist, found, found');
  }

  /** A wave of `getDistances` that neither ends nor returns hands over to the next one. */
  lemma WavesUnfold<T>(u: set<T>, next: T -> seq<T>, targets: set<T>, findall: bool,
                           visited: set<T>, frontier: set<T>, dist: nat, found: map<T, nat>, found': map<T, nat>)
    requires Closed(u, next) && visited <= u && frontier <= u
    requires frontier != {} && found' == Record(found, (frontier - visited) * targets, dist)
    requires (frontier - visited) * targets == {} || !(targets <= found'.Keys)
    ensures Succ(next, frontier - visited, {}) <= u
    ensures Waves(u, next, targets, findall, visited, frontier, dist, found)
         == Waves(u, next, targets, findall, visited + (frontier - visited), Succ(next, frontier - visited, {}), dist + 1, found')
  {
  }

  /**
   * `getDistances` is correct: a successful result maps exactly the reachable
   * targets to their BFS levels, and the search fails exactly when `findall`
   * is set and some target is unreachable or there are no targets.
   */
  lemma GetDistancesCorrect<T>(u: set<T>, next: T -> seq<T>, initial: T, targets: set<T>, findall: bool)
    requires Closed(u, next) && initial in u
    ensures var r := GetDistances(u, next, initial, targets, findall);
            && (r.Ok? ==> forall t :: t in r.value ==> t in targets && IsDist(next, initial, t, r.value[t]))
            && (r.Ok? ==> forall t :: t in targets && Reachable(next, initial, t) ==> t in r.value)
            && (r.Err? <==> findall && (targets == {} || exists t :: t in targets && !Reachable(next, initial, t)))
  {
    var found: map<T, nat> := if initial in targets then map[initial := 0] else map[];
    assert WaveState(next, initial, targets, {}, {initial}, 0, found);
    WavesCorrect(u, next, initial, targets, findall, {}, {initial}, 0, found);
  }

  /** An initial value that is a target gets distance 0. */
  lemma InitialTargetZero<T>(u: set<T>, next: T -> seq<T>, initial: T, targets: set<T>, findall: bool)
    requires Closed(u, next) && initial in u && initial in targets
    ensures var r := GetDistances(u, next, initial, targets, findall);
            r.Ok? ==> initial in r.value && r.value[initial] == 0
  {
    GetDistancesCorrect(u, next, initial, targets, findall);
    var r := GetDistances(u, next, initial, targets, findall);
    assert initial in Layer(next, initial, 0);
    if r.Ok? {
      StartAtZero(next, initial, r.value[initial]);
    }
  }

  // ------------------------------------- getDistances on a target collection

  /**
   * The waves of `getDistances` when the targets arrive as a collection of
   * `size` entries whose distinct values are `targets`: the early return
   * compares the number of distinct targets stored with `size`.
   */
  function WavesCounted<T(==)>(u: set<T>, next: T -> seq<T>, targets: set<T>, size: nat, findall: bool,
                               visited: set<T>, frontier: set<T>, dist: nat, found: map<T, nat>): (r: Result<map<T, nat>>)
    requires Closed(u, next) && visited <= u && frontier <= u
    ensures r.Err? ==> findall && r.error == Runtime
    decreases |u - visited|, |frontier|
  {
    if frontier == {} then
      if findall then Err(Runtime) else Ok(found)
    else
      var newly := frontier - visited;
      var found' := Record(found, newly * targets, dist);
      if newly * targets != {} && |found'.Keys| == size then Ok(found')
      else
        Shrinks(u, visited, newly);
        WavesCounted(u, next, targets, size, findall, visited + newly, Succ(next, newly, {}), dist + 1, found')
  }

  /**
   * `getDistances(initial, targets, nextfunc, findall)` with the targets as
   * the Java `Collection`, duplicates included.
   */
  function GetDistancesOf<T(==)>(u: set<T>, next: T -> seq<T>, initial: T, targets: seq<T>, findall: bool): (r: Result<map<T, nat>>)
    requires Closed(u, next) && initial in u
    ensures r.Err? ==> findall && r.error == Runtime
  {
    var ts := CU.Elems(targets);
    var found := if initial in ts then map[initial := 0] else map[];
    WavesCounted(u, next, ts, |targets|, findall, {}, {initial}, 0, found)
  }

  /** One wave of `WavesCounted` with a non-empty frontier: return at the count or hand over to the next wave. */
  lemma CountedStep<T>(u: set<T>, next: T -> seq<T>, targets: set<T>, size: nat, findall: bool,
                       visited: set<T>, frontier: set<T>, dist: nat, found: map<T, nat>)
    requires Closed(u, next) && visited <= u && frontier <= u && frontier != {}
    ensures Succ(next, frontier - visited, {}) <= u
    ensures var found' := Record(found, (frontier - visited) * targets, dist);
              WavesCounted(u, next, targets, size, findall, visited, frontier, dist, found)
              == if (frontier - visited) * targets != {} && |found'.Keys| == size then Ok(found')
                 else WavesCounted(u, next, targets, size, findall, visited + (frontier - visited),
                                   Succ(next, frontier - visited, {}), dist + 1, found')
  {
  }

  /** One wave of `Waves` with a non-empty frontier: return once all targets are stored or hand over. */
  lemma WavesStep<T>(u: set<T>, next: T -> seq<T>, targets: set<T>, findall: bool,
                     visited: set<T>, frontier: set<T>, dist: nat, found: map<T, nat>)
    requires Closed(u, next) && visited <= u && frontier <= u && frontier != {}
    ensures Succ(next, frontier - visited, {}) <= u
    ensures var found' := Record(found, (frontier - visited) * targets, dist);
              Waves(u, next, targets, findall, visited, frontier, dist, found)
              == if (frontier - visited) * targets != {} && targets <= found'.Keys then Ok(found')
                 else Waves(u, next, targets, findall, visited + (frontier - visited),
                            Succ(next, frontier - visited, {}), dist + 1, found')
  {
  }

  /** A subset is no larger, and only as large when it is the whole set. */
  lemma SubsetCard<T>(a: set<T>, b: set<T>)
    requires a <= b
    ensures |a| <= |b|
    ensures |a| == |b| <==> b <= a
  {
    assert b == a + (b - a) && a * (b - a) == {};
    if b <= a {
      assert a == b;
    }
  }

  /** When the collection has no duplicates, counting the stored targets is testing that all are stored. */
  lemma {:induction false} CountedDistinct<T>(u: set<T>, next: T -> seq<T>, targets: set<T>, findall: bool,
                                              visited: set<T>, frontier: set<T>, dist: nat, found: map<T, nat>)
    requires Closed(u, next) && visited <= u && frontier <= u
    requires found.Keys <= targets
    ensures WavesCounted(u, next, targets, |targets|, findall, visited, frontier, dist, found)
         == Waves(u, next, targets, findall, visited, frontier, dist, found)
    decreases |u - visited|, |frontier|
  {
    if frontier != {} {
      var newly := frontier - visited;
      var found' := Record(found, newly * targets, dist);
      assert found'.Keys <= targets;
      SubsetCard(found'.Keys, targets);
      CountedStep(u, next, targets, |targets|, findall, visited, frontier, dist, found);
      WavesStep(u, next, targets, findall, visited, frontier, dist, found);
      if !(newly * targets != {} && targets <= found'.Keys) {
        Shrinks(u, visited, newly);
        CountedDistinct(u, next, targets, findall, visited + newly, Succ(next, newly, {}), dist + 1, found');
      }
    }
  }

  /** Recording no values leaves the map as it was. */
  lemma RecordNothing<T>(found: map<T, nat>, xs: set<T>, dist: nat)
    requires xs == {}
    ensures Record(found, xs, dist) == found
  {
  }

  /** Once every target is stored and visited, the remaining waves store nothing new. */
  lemma {:induction false} AllFound<T>(u: set<T>, next: T -> seq<T>, targets: set<T>,
                                       visited: set<T>, frontier: set<T>, dist: nat, found: map<T, nat>)
    requires Closed(u, next) && visited <= u && frontier <= u
    requires found.Keys == targets && targets <= visited
    ensures Waves(u, next, targets, false, visited, frontier, dist, found) == Ok(found)
    decreases |u - visited|, |frontier|
  {
    if frontier != {} {
      var newly := frontier - visited;
      RecordNothing(found, newly * targets, dist);
      Shrinks(u, visited, newly);
      WavesStep(u, next, targets, false, visited, frontier, dist, found);
      AllFound(u, next, targets, visited + newly, Succ(next, newly, {}), dist + 1, found);
    }
  }

  /**
   * Without `findall`, a wave that returns because every target is stored
   * gives what the following waves would give.
   */
  lemma SettledStep<T>(u: set<T>, next: T -> seq<T>, targets: set<T>,
                       visited: set<T>, frontier: set<T>, dist: nat, found: map<T, nat>)
    requires Closed(u, next) && visited <= u && frontier <= u && frontier != {}
    requires found.Keys <= targets && found.Keys <= visited + frontier
    ensures Succ(next, frontier - visited, {}) <= u
    ensures Waves(u, next, targets, false, visited, frontier, dist, found)
         == Waves(u, next, targets, false, visited + (frontier - visited), Succ(next, frontier - visited, {}), dist + 1,
                  Record(found, (frontier - visited) * targets, dist))
  {
    var newly := frontier - visited;
    var found' := Record(found, newly * targets, dist);
    WavesStep(u, next, targets, false, visited, frontier, dist, found);
    if newly * targets != {} && targets <= found'.Keys {
      AllFound(u, next, targets, visited + newly, Succ(next, newly, {}), dist + 1, found');
    }
  }

  /**
   * With more entries than distinct targets the count is never reached, so
   * the waves run until the frontier empties and then fail under `findall`.
   */
  lemma {:induction false} CountedNeverExits<T>(u: set<T>, next: T -> seq<T>, targets: set<T>, size: nat, findall: bool,
                                                visited: set<T>, frontier: set<T>, dist: nat, found: map<T, nat>)
    requires Closed(u, next) && visited <= u && frontier <= u
    requires found.Keys <= targets && found.Keys <= visited + frontier && size > |targets|
    ensures WavesCounted(u, next, targets, size, findall, visited, frontier, dist, found)
         == if findall then Err(Runtime) else Waves(u, next, targets, false, visited, frontier, dist, found)
    decreases |u - visited|, |frontier|
  {
    if frontier != {} {
      var newly := frontier - visited;
      var found' := Record(found, newly * targets, dist);
      assert found'.Keys <= targets;
      SubsetCard(found'.Keys, targets);
      Shrinks(u, visited, newly);
      CountedStep(u, next, targets, size, findall, visited, frontier, dist, found);
      SettledStep(u, next, targets, visited, frontier, dist, found);
      CountedNeverExits(u, next, targets, size, findall, visited + newly, Succ(next, newly, {}), dist + 1, found');
    }
  }

  /**
   * `getDistances` on a collection is correct: a successful result maps
   * exactly the reachable targets to their BFS levels, and the search fails
   * exactly when `findall` is set and the collection repeats a target, is
   * empty, or holds an unreachable target.
   */
  lemma GetDistancesOfCorrect<T>(u: set<T>, next: T -> seq<T>, initial: T, targets: seq<T>, findall: bool)
    requires Closed(u, next) && initial in u
    ensures var r := GetDistancesOf(u, next, initial, targets, findall);
            && (r.Ok? ==> forall t :: t in r.value ==> t in targets && IsDist(next, initial, t, r.value[t]))
            && (r.Ok? ==> forall t :: t in targets && Reachable(next, initial, t) ==> t in r.value)
            && (r.Err? <==> findall && (!CU.NoDup(targets) || targets == []
                                        || exists t :: t in targets && !Reachable(next, initial, t)))
  {
    var ts := CU.Elems(targets);
    var found: map<T, nat> := if initial in ts then map[initial := 0] else map[];
    assert forall t :: t in ts <==> t in targets;
    assert targets == [] <==> ts == {} by {
      if targets != [] {
        assert targets[0] in ts;
      }
    }
    CU.ElemsCard(targets);
    GetDistancesCorrect(u, next, initial, ts, findall);
    GetDistancesCorrect(u, next, initial, ts, false);
    if CU.NoDup(targets) {
      CountedDistinct(u, next, ts, findall, {}, {initial}, 0, found);
    } else {
      CountedNeverExits(u, next, ts, |targets|, findall, {}, {initial}, 0, found);
    }
  }

  /** A collection that names one target twice never takes the early return and fails under `findall`. */
  lemma DuplicateTargetsFail<T>(u: set<T>, next: T -> seq<T>, initial: T)
    requires Closed(u, next) && initial in u
    ensures GetDistancesOf(u, next, initial, [initial, initial], true) == Err(Runtime)
  {
    assert [initial, initial][0] == [initial, initial][1];
    GetDistancesOfCorrect(u, next, initial, [initial, initial], true);
  }

  /**
   * `getDistance(initial, target, nextfunc)`: `getDistances` with the single
   * target and `findall` set; unboxing a missing entry would throw.
   */
  function GetDistance<T(==)>(u: set<T>, next: T -> seq<T>, initial: T, target: T): (r: Result<nat>)
    requires Closed(u, next) && initial in u
  {
    match GetDistances(u, next, initial, {target}, true)
    case Err(e) => Err(e)
    case Ok(m) => if target in m then Ok(m[target]) else Err(NullPointer)
  }

  /** `getDistance` succeeds exactly for a reachable target, with its BFS level. */
  lemma GetDistanceCorrect<T>(u: set<T>, next: T -> seq<T>, initial: T, target: T)
    requires Closed(u, next) && initial in u
    ensures var r := GetDistance(u, next, initial, target);
            && (r.Ok? <==> Reachable(next, initial, target))
            && (r.Ok? ==> IsDist(next, initial, target, r.value))
            && (r.Err? ==> r.error == Runtime)
  {
    GetDistancesCorrect(u, next, initial, {target}, true);
  }

  // ------------------------------------------------------------ getReachable

  /** The waves of `getReachable`: every value popped for the first time is stored with its wave index. */
  function Reach<T(==)>(u: set<T>, next: T -> seq<T>, visited: map<T, nat>, frontier: set<T>, dist: nat): (r: map<T, nat>)
    requires Closed(u, next) && visited.Keys <= u && frontier <= u
    decreases |u - visited.Keys|, |frontier|
  {
    if frontier == {} then visited
    else
      var newly := frontier - visited.Keys;
      Shrinks(u, visited.Keys, newly);
      Reach(u, next, Record(visited, newly, dist), Succ(next, newly, {}), dist + 1)
  }

  /** What holds at the start of every wave of `getReachable`. */
  ghost predicate ReachState<T>(u: set<T>, next: T -> seq<T>, s: T, visited: map<T, nat>, frontier: set<T>, dist: nat)
  {
    && Closed(u, next) && s in u && visited.Keys <= u && frontier <= u
    && visited.Keys == Before(next, s, dist, {})
    && visited.Keys + frontier == Within(next, s, dist, {})
    && (forall x :: x in visited ==> IsDist(next, s, x, visited[x]))
  }

  /** What `getReachable` promises: the reachable values, each with its BFS level. */
  ghost predicate ReachOutcome<T>(next: T -> seq<T>, s: T, r: map<T, nat>)
  {
    && (forall x :: x in r ==> IsDist(next, s, x, r[x]))
    && (forall k: nat :: Layer(next, s, k) <= r.Keys)
  }

  /** Once the frontier is empty every reachable value has been stored. */
  lemma ReachEnd<T>(u: set<T>, next: T -> seq<T>, s: T, visited: map<T, nat>, dist: nat)
    requires ReachState(u, next, s, visited, {}, dist)
    ensures ReachOutcome(next, s, visited)
  {
    assert visited.Keys + {} == visited.Keys;
    var d := EmptyFrontier(next, s, visited.Keys, dist);
    LayersStable(next, s, d);
  }

  /** Once a layer adds nothing, every layer lies within it. */
  lemma LayersStable<T>(next: T -> seq<T>, s: T, d: nat)
    requires Within(next, s, d + 1, {}) == Within(next, s, d, {})
    ensures forall k: nat :: Layer(next, s, k) <= Within(next, s, d, {})
  {
    forall k: nat
      ensures Layer(next, s, k) <= Within(next, s, d, {})
    {
      WithinStable(next, s, d, k, {});
    }
  }

  /** One wave of `getReachable` keeps `ReachState`. */
  lemma ReachAdvance<T>(u: set<T>, next: T -> seq<T>, s: T, visited: map<T, nat>, frontier: set<T>, dist: nat)
    requires ReachState(u, next, s, visited, frontier, dist)
    ensures ReachState(u, next, s, Record(visited, frontier - visited.Keys, dist),
                       Succ(next, frontier - visited.Keys, {}), dist + 1)
    ensures |u - (visited.Keys + (frontier - visited.Keys))| == |u - visited.Keys| - |frontier - visited.Keys|
  {
    WaveStep(next, s, visited.Keys, frontier, dist);
    WithinInside(u, next, s, dist + 1, {});
    Shrinks(u, visited.Keys, frontier - visited.Keys);
    var v' := Record(visited, frontier - visited.Keys, dist);
    forall x | x in v'
      ensures IsDist(next, s, x, v'[x])
    {
      if x in frontier - visited.Keys {
        assert v'[x] == dist;
      }
    }
  }

  /** The waves of `getReachable` are correct from any wave on. */
  lemma {:induction false} ReachCorrect<T>(u: set<T>, next: T -> seq<T>, s: T, visited: map<T, nat>, frontier: set<T>, dist: nat)
    requires ReachState(u, next, s, visited, frontier, dist)
    ensures ReachOutcome(next, s, Reach(u, next, visited, frontier, dist))
    decreases |u - visited.Keys|, |frontier|
  {
    if frontier == {} {
      ReachEnd(u, next, s, visited, dist);
    } else {
      var newly := frontier - visited.Keys;
      ReachAdvance(u, next, s, visited, frontier, dist);
      ReachCorrect(u, next, s, Record(visited, newly, dist), Succ(next, newly, {}), dist + 1);
      ReachUnfold(u, next, visited, frontier, dist);
    }
  }

  /** A wave of `getReachable` with a non-empty frontier hands over to the next one. */
  lemma ReachUnfold<T>(u: set<T>, next: T -> seq<T>, visited: map<T, nat>, frontier: set<T>, dist: nat)
    requires Closed(u, next) && visited.Keys <= u && frontier <= u && frontier != {}
    ensures Record(visited, frontier - visited.Keys, dist).Keys <= u && Succ(next, frontier - visited.Keys, {}) <= u
    ensures Reach(u, next, visited, frontier, dist)
         == Reach(u, next, Record(visited, frontier - visited.Keys, dist), Succ(next, frontier - visited.Keys, {}), dist + 1)
  {
  }

  /** `getReachable(startvalue, nextfunc)`: every value reachable from `s`, with its distance. */
  function GetReachable<T(==)>(u: set<T>, next: T -> seq<T>, s: T): (r: map<T, nat>)
    requires Closed(u, next) && s in u
  {
    Reach(u, next, map[], {s}, 0)
  }

  /** `getReachable` maps exactly the reachable values to their BFS levels, the start to 0. */
  lemma GetReachableCorrect<T>(u: set<T>, next: T -> seq<T>, s: T)
    requires Closed(u, next) && s in u
    ensures var r := GetReachable(u, next, s);
            && (forall x :: x in r <==> Reachable(next, s, x))
            && (forall x :: x in r ==> IsDist(next, s, x, r[x]))
            && s in r && r[s] == 0
  {
    assert ReachState(u, next, s, map[], {s}, 0);
    ReachCorrect(u, next, s, map[], {s}, 0);
    var r := GetReachable(u, next, s);
    assert s in Layer(next, s, 0) && Layer(next, s, 0) <= r.Keys;
    forall x | x in r
      ensures Reachable(next, s, x)
    {
      assert x in Layer(next, s, r[x]);
    }
    forall x | Reachable(next, s, x)
      ensures x in r
    {
      var k: nat :| x in Layer(next, s, k);
    }
    StartAtZero(next, s, r[s]);
  }

  /** The start is at level 0. */
  lemma StartAtZero<T>(next: T -> seq<T>, s: T, d: nat)
    requires IsDist(next, s, s, d)
    ensures d == 0
  {
    if d > 0 {
      WithinMono(next, s, 0, d - 1, {});
    }
  }

  // -------------------------------------------------------- getShortestPaths

  /** `p` leads from `s` to `t` in at least one step. */
  ghost predicate Route<T>(next: T -> seq<T>, s: T, t: T, p: seq<T>)
  {
    |p| >= 2 && WalkTo(next, s, t, p, {})
  }

  /** `p` is a route from `s` to `t` and no route is shorter. */
  ghost predicate Shortest<T(!new)>(next: T -> seq<T>, s: T, t: T, p: seq<T>)
  {
    Route(next, s, t, p) && forall q :: Route(next, s, t, q) ==> |p| <= |q|
  }

  /**
   * The paths that extend `exp` by one successor from `ys`, in order, split
   * into those that stop short of `target` and those that reach it (lines
   * 196-207).
   */
  function Extend<T(==)>(exp: seq<T>, ys: seq<T>, target: T): (seq<seq<T>>, seq<seq<T>>)
  {
    if ys == [] then ([], [])
    else
      var rest := Extend(exp, ys[1..], target);
      if ys[0] == target then (rest.0, [exp + [ys[0]]] + rest.1)
      else ([exp + [ys[0]]] + rest.0, rest.1)
  }

  /** A path `Extend` pushes is its path with one value of `ys` other than the target appended. */
  lemma {:induction false} ExtendPushed<T>(exp: seq<T>, ys: seq<T>, target: T, p: seq<T>)
    requires p in Extend(exp, ys, target).0
    ensures |p| == |exp| + 1 && p[..|exp|] == exp && p[|exp|] in ys && p[|exp|] != target
    decreases |ys|
  {
    if ys[0] == target || p != exp + [ys[0]] {
      ExtendPushed(exp, ys[1..], target, p);
    }
  }

  /** `Extend` pushes its path with each value of `ys` other than the target appended. */
  lemma {:induction false} ExtendPushesAll<T>(exp: seq<T>, ys: seq<T>, target: T, y: T)
    requires y in ys && y != target
    ensures exp + [y] in Extend(exp, ys, target).0
    decreases |ys|
  {
    if ys[0] != y {
      ExtendPushesAll(exp, ys[1..], target, y);
    }
  }

  /** The only path `Extend` reports is its path with the target appended. */
  lemma {:induction false} ExtendReported<T>(exp: seq<T>, ys: seq<T>, target: T, p: seq<T>)
    requires p in Extend(exp, ys, target).1
    ensures p == exp + [target]
    decreases |ys|
  {
    if p != exp + [ys[0]] || ys[0] != target {
      ExtendReported(exp, ys[1..], target, p);
    }
  }

  /** `Extend` reports its path with the target appended exactly when the target is among `ys`. */
  lemma {:induction false} ExtendReportsAll<T>(exp: seq<T>, ys: seq<T>, target: T)
    ensures exp + [target] in Extend(exp, ys, target).1 <==> target in ys
    decreases |ys|
  {
    if ys != [] {
      ExtendReportsAll(exp, ys[1..], target);
    }
  }

  /** The last value of every path of `explore` that is not in `visited`. */
  function Lasts<T(==)>(explore: seq<seq<T>>, visited: set<T>): set<T>
    requires forall p :: p in explore ==> |p| > 0
  {
    set p | p in explore && p[|p| - 1] !in visited :: p[|p| - 1]
  }

  /**
   * One wave of `getShortestPaths` (lines 186-208): pops the paths of
   * `explore` from the top, skips those ending in a value visited in an
   * earlier wave, and returns the paths to explore next, the paths that reach
   * the target and the values expanded in this wave.
   */
  function PathWave<T(==)>(next: T -> seq<T>, target: T, visited: set<T>, explore: seq<seq<T>>): (r: (seq<seq<T>>, seq<seq<T>>, set<T>))
    requires forall p :: p in explore ==> |p| > 0
  {
    if explore == [] then ([], [], {})
    else
      var exp := explore[|explore| - 1];
      var rest := PathWave(next, target, visited, explore[..|explore| - 1]);
      var cur := exp[|exp| - 1];
      if cur in visited then rest
      else
        var ext := Extend(exp, next(cur), target);
        (ext.0 + rest.0, ext.1 + rest.1, {cur} + rest.2)
  }

  /** A wave expands the last values of the paths of `explore` not visited before. */
  lemma {:induction false} PathWaveExpands<T>(next: T -> seq<T>, target: T, visited: set<T>, explore: seq<seq<T>>)
    requires forall p :: p in explore ==> |p| > 0
    ensures PathWave(next, target, visited, explore).2 == Lasts(explore, visited)
  {
    if explore != [] {
      PathWaveExpands(next, target, visited, explore[..|explore| - 1]);
      LastsSnoc(explore, visited);
    }
  }

  /** The last values of a stack are those of the stack below the top, and the top's if it is unvisited. */
  lemma LastsSnoc<T>(explore: seq<seq<T>>, visited: set<T>)
    requires |explore| > 0 && forall p :: p in explore ==> |p| > 0
    ensures var e := explore[|explore| - 1];
            Lasts(explore, visited)
            == Lasts(explore[..|explore| - 1], visited) + (if e[|e| - 1] in visited then {} else {e[|e| - 1]})
  {
    var front := explore[..|explore| - 1];
    assert explore == front + [explore[|explore| - 1]];
  }

  /** A path a wave pushes extends an unvisited path of `explore` by one successor other than the target. */
  lemma {:induction false} PathWavePushed<T>(next: T -> seq<T>, target: T, visited: set<T>, explore: seq<seq<T>>, p: seq<T>)
    requires forall p :: p in explore ==> |p| > 0
    requires p in PathWave(next, target, visited, explore).0
    ensures |p| >= 2 && p[..|p| - 1] in explore && p[|p| - 2] !in visited
    ensures p[|p| - 1] in next(p[|p| - 2]) && p[|p| - 1] != target
  {
    var exp := explore[|explore| - 1];
    var cur := exp[|exp| - 1];
    if cur !in visited && p in Extend(exp, next(cur), target).0 {
      ExtendPushed(exp, next(cur), target, p);
      assert p[|p| - 2] == cur;
    } else {
      PathWavePushed(next, target, visited, explore[..|explore| - 1], p);
    }
  }

  /** A wave pushes every extension of an unvisited path by a successor other than the target. */
  lemma {:induction false} PathWavePushesAll<T>(next: T -> seq<T>, target: T, visited: set<T>, explore: seq<seq<T>>, e: seq<T>, y: T)
    requires forall p :: p in explore ==> |p| > 0
    requires e in explore && e[|e| - 1] !in visited && y in next(e[|e| - 1]) && y != target
    ensures e + [y] in PathWave(next, target, visited, explore).0
  {
    if e != explore[|explore| - 1] {
      PathWavePushesAll(next, target, visited, explore[..|explore| - 1], e, y);
    } else {
      ExtendPushesAll(e, next(e[|e| - 1]), target, y);
    }
  }

  /** A path a wave reports ends in the target, one step after an unvisited path of `explore`. */
  lemma {:induction false} PathWaveReported<T>(next: T -> seq<T>, target: T, visited: set<T>, explore: seq<seq<T>>, p: seq<T>)
    requires forall p :: p in explore ==> |p| > 0
    requires p in PathWave(next, target, visited, explore).1
    ensures |p| >= 2 && p[..|p| - 1] in explore && p[|p| - 2] !in visited
    ensures p[|p| - 1] == target && target in next(p[|p| - 2])
  {
    var exp := explore[|explore| - 1];
    var cur := exp[|exp| - 1];
    if cur !in visited && p in Extend(exp, next(cur), target).1 {
      ExtendReported(exp, next(cur), target, p);
      ExtendReportsAll(exp, next(cur), target);
      assert p[..|p| - 1] == exp;
    } else {
      PathWaveReported(next, target, visited, explore[..|explore| - 1], p);
    }
  }

  /** A wave reports every unvisited path of `explore` that has the target as a successor, extended by it. */
  lemma {:induction false} PathWaveReportsAll<T>(next: T -> seq<T>, target: T, visited: set<T>, explore: seq<seq<T>>, e: seq<T>)
    requires forall p :: p in explore ==> |p| > 0
    requires e in explore && e[|e| - 1] !in visited && target in next(e[|e| - 1])
    ensures e + [target] in PathWave(next, target, visited, explore).1
  {
    if e != explore[|explore| - 1] {
      PathWaveReportsAll(next, target, visited, explore[..|explore| - 1], e);
    } else {
      ExtendReportsAll(e, next(e[|e| - 1]), target);
    }
  }

  /** A wave of `getShortestPaths` stays inside `u`, and expands something unless it pushes nothing. */
  lemma PathWaveInside<T>(u: set<T>, next: T -> seq<T>, target: T, visited: set<T>, explore: seq<seq<T>>)
    requires Closed(u, next) && visited <= u
    requires forall p :: p in explore ==> |p| > 0 && p[|p| - 1] in u
    ensures var w := PathWave(next, target, visited, explore);
            && w.2 <= u && w.2 !! visited
            && (forall p :: p in w.0 ==> |p| > 0 && p[|p| - 1] in u)
            && (w.2 == {} ==> w.0 == [])
            && |u - (visited + w.2)| == |u - visited| - |w.2|
  {
    var w := PathWave(next, target, visited, explore);
    PathWaveExpands(next, target, visited, explore);
    forall p | p in w.0
      ensures |p| > 1 && p[|p| - 1] in u && p[|p| - 2] in w.2
    {
      PathWavePushed(next, target, visited, explore, p);
      var e := p[..|p| - 1];
      assert e in explore && e[|e| - 1] == p[|p| - 2];
      assert p[|p| - 2] in u;
    }
    Shrinks(u, visited, w.2);
  }

  /**
   * The waves of `getShortestPaths` from the current one on (lines 181-218):
   * the first wave that reaches the target returns the paths it found, and
   * an empty stack means the target is unreachable.
   */
  function Paths<T(==)>(u: set<T>, next: T -> seq<T>, target: T, visited: set<T>, explore: seq<seq<T>>): (r: Result<seq<seq<T>>>)
    requires Closed(u, next) && visited <= u
    requires forall p :: p in explore ==> |p| > 0 && p[|p| - 1] in u
    ensures r.Ok? ==> r.value != []
    ensures r.Err? ==> r.error == Runtime
    decreases |u - visited|, |explore|
  {
    if explore == [] then Err(Runtime)
    else
      var w := PathWave(next, target, visited, explore);
      if w.1 != [] then Ok(w.1)
      else
        PathWaveInside(u, next, target, visited, explore);
        Paths(u, next, target, visited + w.2, w.0)
  }

  /** `getShortestPaths(startvalue, targetvalue, nextfunc)`. */
  function GetShortestPaths<T(==)>(u: set<T>, next: T -> seq<T>, start: T, target: T): (r: Result<seq<seq<T>>>)
    requires Closed(u, next) && start in u
    ensures r.Ok? ==> r.value != []
    ensures r.Err? ==> r.error == Runtime
  {
    Paths(u, next, target, {}, [[start]])
  }

  /** `getShortestPath(startvalue, targetvalue, nextfunc)`: the first of the shortest paths. */
  function GetShortestPath<T(==)>(u: set<T>, next: T -> seq<T>, start: T, target: T): (r: Result<seq<T>>)
    requires Closed(u, next) && start in u
  {
    match GetShortestPaths(u, next, start, target)
    case Err(e) => Err(e)
    case Ok(ps) => Ok(ps[0])
  }

  // ------------------------------------------------------- shortest routes

  /** Two walks joined by one step form a walk. */
  lemma WalkJoin<T>(next: T -> seq<T>, w: seq<T>, v: seq<T>, avoid: set<T>)
    requires Walk(next, w, avoid) && Walk(next, v, {}) && v[0] in next(w[|w| - 1])
    ensures Walk(next, w + v, {})
  {
    var r := w + v;
    forall i | 1 <= i < |r|
      ensures r[i] in next(r[i - 1])
    {
      if i > |w| {
        assert r[i] == v[i - |w|] && r[i - 1] == v[i - 1 - |w|];
      }
    }
  }

  /** A walk extended by a successor off `avoid` is a walk. */
  lemma WalkSnoc<T>(next: T -> seq<T>, w: seq<T>, x: T, avoid: set<T>)
    requires Walk(next, w, avoid) && x in next(w[|w| - 1]) && x !in avoid
    ensures Walk(next, w + [x], avoid) && (w + [x])[0] == w[0]
  {
    var r := w + [x];
    forall i | 1 <= i < |r|
      ensures r[i] in next(r[i - 1]) && r[i] !in avoid
    {
      if i < |w| {
        assert r[i] == w[i] && r[i - 1] == w[i - 1];
      }
    }
  }

  /** A non-empty sequence is its front followed by its last element. */
  lemma SnocLast<T>(p: seq<T>)
    requires |p| > 0
    ensures p == p[..|p| - 1] + [p[|p| - 1]]
  {
  }

  /** If there is a route, there is a shortest one. */
  lemma {:induction false} ExistsShortest<T(!new)>(next: T -> seq<T>, s: T, t: T, q: seq<T>)
    requires Route(next, s, t, q)
    ensures exists p :: Shortest(next, s, t, p)
    decreases |q|
  {
    if !Shortest(next, s, t, q) {
      var q' :| Route(next, s, t, q') && |q'| < |q|;
      ExistsShortest(next, s, t, q');
    }
  }

  /** A route cut after its `i`-th step is a route to the value there. */
  lemma PrefixRoute<T>(next: T -> seq<T>, s: T, t: T, q: seq<T>, i: nat)
    requires Route(next, s, t, q) && 1 <= i < |q|
    ensures Route(next, s, q[i], q[..i + 1])
  {
  }

  /**
   * On a shortest route the target occurs only at the end, and the value at
   * position `i` (short of the end) is first reached in exactly `i` steps when
   * the target is not stepped on.
   */
  lemma ShortestLevels<T(!new)>(next: T -> seq<T>, s: T, target: T, q: seq<T>)
    requires Shortest(next, s, target, q)
    ensures forall i :: 1 <= i < |q| - 1 ==> q[i] != target
    ensures forall i :: 0 <= i < |q| - 1 ==> q[i] !in Before(next, s, i, {target})
  {
    forall i | 1 <= i < |q| - 1
      ensures q[i] != target
    {
      PrefixRoute(next, s, target, q, i);
    }
    forall i | 0 <= i < |q| - 1
      ensures q[i] !in Before(next, s, i, {target})
    {
      if i > 0 {
        Shortcut(next, s, target, q, i);
      }
    }
  }

  /** A route whose `i`-th value is reached in fewer than `i` steps can be cut short. */
  lemma Shortcut<T>(next: T -> seq<T>, s: T, target: T, q: seq<T>, i: nat)
    requires Route(next, s, target, q) && 0 < i < |q| - 1
    ensures q[i] in Within(next, s, i - 1, {target}) ==> exists r :: Route(next, s, target, r) && |r| < |q|
  {
    if q[i] in Within(next, s, i - 1, {target}) {
      WithinHasWalk(next, s, i - 1, {target}, q[i]);
      var w :| WalkTo(next, s, q[i], w, {target}) && |w| <= i;
      var v := q[i + 1..];
      assert Walk(next, v, {});
      WalkJoin(next, w, v, {target});
      assert Route(next, s, target, w + v);
    }
  }

  /** A path the wave of index `k` must explore: a walk of `k` steps from `s` that avoids the target and meets each value at its level. */
  ghost predicate Cand<T>(next: T -> seq<T>, s: T, target: T, p: seq<T>, k: nat)
  {
    && |p| == k + 1 && Walk(next, p, {target}) && p[0] == s
    && forall i :: 0 <= i < k ==> p[i] !in Before(next, s, i, {target})
  }

  /** Every proper prefix of a shortest route is such a path. */
  lemma PrefixIsCand<T(!new)>(next: T -> seq<T>, s: T, target: T, q: seq<T>, k: nat)
    requires Shortest(next, s, target, q) && k + 2 <= |q|
    ensures Cand(next, s, target, q[..k + 1], k)
  {
    ShortestLevels(next, s, target, q);
  }

  /** Every value is first reached at some level. */
  lemma {:induction false} LevelOf<T>(next: T -> seq<T>, s: T, avoid: set<T>, k: nat, y: T)
    requires y in Within(next, s, k, avoid)
    ensures exists j: nat :: j <= k && y in Within(next, s, j, avoid) && y !in Before(next, s, j, avoid)
  {
    if k > 0 && y in Within(next, s, k - 1, avoid) {
      LevelOf(next, s, avoid, k - 1, y);
    }
  }

  /** A successor of a value within `j` steps is within `j + 1` steps. */
  lemma WithinStep<T>(next: T -> seq<T>, s: T, j: nat, avoid: set<T>, y: T, x: T)
    requires y in Within(next, s, j, avoid) && x in next(y) && x !in avoid
    ensures x in Within(next, s, j + 1, avoid)
  {
    assert x in Succ(next, Within(next, s, j, avoid), avoid);
  }

  /** A predecessor of a value first reached in `k + 1` steps is first reached in `k` steps. */
  lemma PredecessorLevel<T>(next: T -> seq<T>, s: T, target: T, k: nat, x: T, y: T)
    requires y in Within(next, s, k, {target}) && x in next(y) && x != target
    requires x !in Within(next, s, k, {target})
    ensures y !in Before(next, s, k, {target})
  {
    LevelOf(next, s, {target}, k, y);
    var j: nat :| j <= k && y in Within(next, s, j, {target}) && y !in Before(next, s, j, {target});
    StepWithin(next, s, j, k, {target}, y, x);
  }

  /** A successor of a value within `j < k` steps is within `k` steps. */
  lemma StepWithin<T>(next: T -> seq<T>, s: T, j: nat, k: nat, avoid: set<T>, y: T, x: T)
    requires j <= k && y in Within(next, s, j, avoid) && x in next(y) && x !in avoid
    ensures j < k ==> x in Within(next, s, k, avoid)
  {
    if j < k {
      WithinStep(next, s, j, avoid, y, x);
      WithinMono(next, s, j + 1, k, avoid);
    }
  }

  /** A value first reached in `k + 1` steps has a predecessor first reached in `k` steps. */
  lemma EarlierLevel<T>(next: T -> seq<T>, s: T, target: T, k: nat, x: T) returns (y: T)
    requires k > 0 && x in Within(next, s, k, {target}) && x !in Before(next, s, k, {target})
    ensures y in Within(next, s, k - 1, {target}) && y !in Before(next, s, k - 1, {target})
    ensures x in next(y) && x != target
  {
    y :| y in Within(next, s, k - 1, {target}) && x in next(y) && x != target;
    PredecessorLevel(next, s, target, k - 1, x, y);
  }

  /** Such a path extended by a successor first reached one step later is such a path. */
  lemma CandExtend<T>(next: T -> seq<T>, s: T, target: T, p: seq<T>, k: nat, x: T)
    requires Cand(next, s, target, p, k) && p[k] !in Before(next, s, k, {target})
    requires x in next(p[k]) && x != target
    ensures Cand(next, s, target, p + [x], k + 1) && (p + [x])[k + 1] == x
  {
    var p' := p + [x];
    forall i | 0 <= i < k + 1
      ensures p'[i] !in Before(next, s, i, {target})
    {
      assert p'[i] == p[i];
    }
  }

  /** Every value first reached in `k` steps ends such a path. */
  lemma {:induction false} LevelHasCand<T>(next: T -> seq<T>, s: T, target: T, k: nat, x: T)
    requires x in Within(next, s, k, {target}) && x !in Before(next, s, k, {target})
    ensures exists p :: Cand(next, s, target, p, k) && p[k] == x
  {
    if k == 0 {
      assert Cand(next, s, target, [s], 0);
    } else {
      var y := EarlierLevel(next, s, target, k, x);
      LevelHasCand(next, s, target, k - 1, y);
      CandStep(next, s, target, k - 1, k, y, x);
    }
  }

  /** A path ending in `y` at level `j` extends to one ending in its successor `x` at level `k = j + 1`. */
  lemma CandStep<T>(next: T -> seq<T>, s: T, target: T, j: nat, k: nat, y: T, x: T)
    requires k == j + 1
    requires exists p :: Cand(next, s, target, p, j) && p[j] == y
    requires y !in Before(next, s, j, {target}) && x in next(y) && x != target
    ensures exists p :: Cand(next, s, target, p, k) && p[k] == x
  {
    var p :| Cand(next, s, target, p, j) && p[j] == y;
    CandExtend(next, s, target, p, j, x);
  }

  // ------------------------------------------------- waves of shortest paths

  /** What holds at the start of the wave of index `k` of `getShortestPaths`. */
  ghost predicate PathState<T(!new)>(next: T -> seq<T>, s: T, target: T, visited: set<T>, explore: seq<seq<T>>, k: nat)
  {
    && visited == Before(next, s, k, {target})
    && (forall p :: p in explore ==> |p| == k + 1 && Walk(next, p, {target}) && p[0] == s)
    && (forall p :: Cand(next, s, target, p, k) ==> p in explore)
    && (forall q :: Route(next, s, target, q) ==> |q| > k + 1)
  }

  /** A wave expands exactly the values first reached in `k` steps. */
  lemma WaveVisits<T(!new)>(next: T -> seq<T>, s: T, target: T, visited: set<T>, explore: seq<seq<T>>, k: nat)
    requires PathState(next, s, target, visited, explore, k)
    ensures visited + Lasts(explore, visited) == Within(next, s, k, {target})
  {
    if k > 0 {
      WithinMono(next, s, k - 1, k, {target});
    }
    LastsWithin(next, s, target, visited, explore, k);
    WithinLasts(next, s, target, visited, explore, k);
  }

  /** The values a wave expands are within `k` steps. */
  lemma LastsWithin<T(!new)>(next: T -> seq<T>, s: T, target: T, visited: set<T>, explore: seq<seq<T>>, k: nat)
    requires PathState(next, s, target, visited, explore, k)
    ensures Lasts(explore, visited) <= Within(next, s, k, {target})
  {
    forall x | x in Lasts(explore, visited)
      ensures x in Within(next, s, k, {target})
    {
      var e :| e in explore && e[|e| - 1] !in visited && e[|e| - 1] == x;
      WalkInWithin(next, s, e, {target});
    }
  }

  /** A wave expands every value first reached in `k` steps. */
  lemma WithinLasts<T(!new)>(next: T -> seq<T>, s: T, target: T, visited: set<T>, explore: seq<seq<T>>, k: nat)
    requires PathState(next, s, target, visited, explore, k)
    ensures forall x :: x in Within(next, s, k, {target}) && x !in visited ==> x in Lasts(explore, visited)
  {
    forall x | x in Within(next, s, k, {target}) && x !in visited
      ensures x in Lasts(explore, visited)
    {
      LevelHasCand(next, s, target, k, x);
      var p :| Cand(next, s, target, p, k) && p[k] == x;
      assert p in explore;
    }
  }

  /** A wave reports every shortest route of `k + 1` steps. */
  lemma WaveReportsShortest<T(!new)>(next: T -> seq<T>, s: T, target: T, visited: set<T>, explore: seq<seq<T>>, k: nat, q: seq<T>)
    requires PathState(next, s, target, visited, explore, k)
    requires Shortest(next, s, target, q) && |q| == k + 2
    ensures q in PathWave(next, target, visited, explore).1
  {
    PrefixIsCand(next, s, target, q, k);
    ShortestLevels(next, s, target, q);
    var e := q[..k + 1];
    assert e in explore && e[|e| - 1] == q[k];
    PathWaveReportsAll(next, target, visited, explore, e);
    assert e + [target] == q;
  }

  /** Every path a wave reports is a route of `k + 1` steps. */
  lemma WaveReportsRoutes<T(!new)>(next: T -> seq<T>, s: T, target: T, visited: set<T>, explore: seq<seq<T>>, k: nat, p: seq<T>)
    requires PathState(next, s, target, visited, explore, k)
    requires p in PathWave(next, target, visited, explore).1
    ensures Route(next, s, target, p) && |p| == k + 2
  {
    PathWaveReported(next, target, visited, explore, p);
    var e := p[..|p| - 1];
    assert p == e + [target];
    WalkJoin(next, e, [target], {target});
  }

  /** Every path a wave pushes is one step longer and still starts at `s`. */
  lemma WavePushesWalk<T(!new)>(next: T -> seq<T>, s: T, target: T, visited: set<T>, explore: seq<seq<T>>, k: nat, p: seq<T>)
    requires PathState(next, s, target, visited, explore, k)
    requires p in PathWave(next, target, visited, explore).0
    ensures |p| == k + 2 && Walk(next, p, {target}) && p[0] == s
  {
    PathWavePushed(next, target, visited, explore, p);
    var e := p[..|p| - 1];
    assert e in explore;
    WalkSnoc(next, e, p[|p| - 1], {target});
    SnocLast(p);
  }

  /** A wave pushes every candidate of the next level. */
  lemma WavePushesCand<T(!new)>(next: T -> seq<T>, s: T, target: T, visited: set<T>, explore: seq<seq<T>>, k: nat, p: seq<T>)
    requires PathState(next, s, target, visited, explore, k)
    requires Cand(next, s, target, p, k + 1)
    ensures p in PathWave(next, target, visited, explore).0
  {
    var e := p[..k + 1];
    CandFront(next, s, target, p, k);
    PathWavePushesAll(next, target, visited, explore, e, p[k + 1]);
  }

  /** Such a path of `k + 1` steps is one of `k` steps extended by a successor other than the target. */
  lemma CandFront<T>(next: T -> seq<T>, s: T, target: T, p: seq<T>, k: nat)
    requires Cand(next, s, target, p, k + 1)
    ensures Cand(next, s, target, p[..k + 1], k) && p == p[..k + 1] + [p[k + 1]]
    ensures p[..k + 1][k] == p[k] && p[k] !in Before(next, s, k, {target})
    ensures p[k + 1] in next(p[k]) && p[k + 1] != target
  {
    var e := p[..k + 1];
    forall i | 0 <= i < k
      ensures e[i] !in Before(next, s, i, {target})
    {
      assert e[i] == p[i];
    }
  }

  /** A wave that reports nothing leaves the state of wave `k + 1`. */
  lemma WaveAdvances<T(!new)>(next: T -> seq<T>, s: T, target: T, visited: set<T>, explore: seq<seq<T>>, k: nat)
    requires PathState(next, s, target, visited, explore, k)
    requires PathWave(next, target, visited, explore).1 == []
    ensures var w := PathWave(next, target, visited, explore);
            PathState(next, s, target, visited + w.2, w.0, k + 1)
  {
    var w := PathWave(next, target, visited, explore);
    WaveVisits(next, s, target, visited, explore, k);
    PathWaveExpands(next, target, visited, explore);
    forall p | p in w.0
      ensures |p| == k + 2 && Walk(next, p, {target}) && p[0] == s
    {
      WavePushesWalk(next, s, target, visited, explore, k, p);
    }
    forall p | Cand(next, s, target, p, k + 1)
      ensures p in w.0
    {
      WavePushesCand(next, s, target, visited, explore, k, p);
    }
    forall q | Route(next, s, target, q)
      ensures |q| > k + 2
    {
      if |q| == k + 2 {
        ExistsShortest(next, s, target, q);
        var p :| Shortest(next, s, target, p);
        WaveReportsShortest(next, s, target, visited, explore, k, p);
      }
    }
  }

  /** With nothing left to explore there is no route at all. */
  lemma WaveNoRoute<T(!new)>(next: T -> seq<T>, s: T, target: T, visited: set<T>, k: nat, q: seq<T>)
    requires PathState(next, s, target, visited, [], k)
    ensures !Route(next, s, target, q)
  {
    if Route(next, s, target, q) {
      ExistsShortest(next, s, target, q);
      var p :| Shortest(next, s, target, p);
      PrefixIsCand(next, s, target, p, k);
    }
  }

  /**
   * What `getShortestPaths` promises: a successful result lists shortest
   * routes only and every one of them, and the search fails exactly when the
   * target cannot be reached in one or more steps.
   */
  ghost predicate PathsOutcome<T(!new)>(next: T -> seq<T>, s: T, target: T, r: Result<seq<seq<T>>>)
  {
    && (r.Ok? ==> forall p :: p in r.value ==> Shortest(next, s, target, p))
    && (r.Ok? ==> forall q :: Shortest(next, s, target, q) ==> q in r.value)
    && (r.Err? <==> forall q :: !Route(next, s, target, q))
  }

  /** `PathState` inside the universe `u`: the precondition of `PathsCorrect`. */
  ghost predicate PathsSearching<T(!new)>(u: set<T>, next: T -> seq<T>, s: T, target: T,
                                          visited: set<T>, explore: seq<seq<T>>, k: nat)
  {
    && Closed(u, next) && visited <= u
    && (forall p :: p in explore ==> |p| > 0 && p[|p| - 1] in u)
    && PathState(next, s, target, visited, explore, k)
  }

  /** A wave that reports routes reports exactly the shortest ones. */
  lemma PathsReport<T(!new)>(next: T -> seq<T>, s: T, target: T, visited: set<T>, explore: seq<seq<T>>, k: nat)
    requires PathState(next, s, target, visited, explore, k)
    requires PathWave(next, target, visited, explore).1 != []
    ensures PathsOutcome(next, s, target, Ok(PathWave(next, target, visited, explore).1))
  {
    var w := PathWave(next, target, visited, explore);
    forall p | p in w.1
      ensures Shortest(next, s, target, p)
    {
      WaveReportsRoutes(next, s, target, visited, explore, k, p);
    }
    WaveReportsRoutes(next, s, target, visited, explore, k, w.1[0]);
    forall q | Shortest(next, s, target, q)
      ensures q in w.1
    {
      WaveReportsShortest(next, s, target, visited, explore, k, q);
    }
  }

  /** With nothing left to explore the search fails, and rightly so. */
  lemma PathsEnd<T(!new)>(next: T -> seq<T>, s: T, target: T, visited: set<T>, k: nat)
    requires PathState(next, s, target, visited, [], k)
    ensures PathsOutcome(next, s, target, Err(Runtime))
  {
    forall q
      ensures !Route(next, s, target, q)
    {
      WaveNoRoute(next, s, target, visited, k, q);
    }
  }

  /**
   * The waves of `getShortestPaths` are correct from any wave on.
   */
  lemma {:induction false} PathsCorrect<T(!new)>(u: set<T>, next: T -> seq<T>, s: T, target: T,
                                                 visited: set<T>, explore: seq<seq<T>>, k: nat)
    requires PathsSearching(u, next, s, target, visited, explore, k)
    ensures PathsOutcome(next, s, target, Paths(u, next, target, visited, explore))
    decreases |u - visited|, |explore|, 1
  {
    if explore == [] {
      PathsEnd(next, s, target, visited, k);
    } else {
      var w := PathWave(next, target, visited, explore);
      if w.1 != [] {
        PathsReport(next, s, target, visited, explore, k);
      } else {
        PathsOn(u, next, s, target, visited, explore, k);
      }
    }
  }

  /** The recursive case of `PathsCorrect`: a wave that reports nothing. */
  lemma {:induction false} PathsOn<T(!new)>(u: set<T>, next: T -> seq<T>, s: T, target: T,
                                            visited: set<T>, explore: seq<seq<T>>, k: nat)
    requires PathsSearching(u, next, s, target, visited, explore, k)
    requires explore != [] && PathWave(next, target, visited, explore).1 == []
    ensures PathsOutcome(next, s, target, Paths(u, next, target, visited, explore))
    decreases |u - visited|, |explore|, 0
  {
    var w := PathWave(next, target, visited, explore);
    PathWaveInside(u, next, target, visited, explore);
    WaveAdvances(next, s, target, visited, explore, k);
    PathsCorrect(u, next, s, target, visited + w.2, w.0, k + 1);
    PathsUnfold(u, next, target, visited, explore);
  }

  /** A wave of `getShortestPaths` that reports nothing hands over to the next one. */
  lemma PathsUnfold<T>(u: set<T>, next: T -> seq<T>, target: T, visited: set<T>, explore: seq<seq<T>>)
    requires Closed(u, next) && visited <= u
    requires forall p :: p in explore ==> |p| > 0 && p[|p| - 1] in u
    requires explore != [] && PathWave(next, target, visited, explore).1 == []
    ensures var w := PathWave(next, target, visited, explore);
            && visited + w.2 <= u && (forall p :: p in w.0 ==> |p| > 0 && p[|p| - 1] in u)
            && Paths(u, next, target, visited, explore) == Paths(u, next, target, visited + w.2, w.0)
  {
    PathWaveInside(u, next, target, visited, explore);
  }

  /** A route leaves `s` by one of its successors, from which the target is reachable. */
  lemma RouteViaSuccessor<T>(next: T -> seq<T>, s: T, t: T)
    ensures (exists q :: Route(next, s, t, q)) <==> (exists y :: y in next(s) && Reachable(next, y, t))
  {
    if q :| Route(next, s, t, q) {
      var v := q[1..];
      assert WalkTo(next, q[1], t, v, {});
      ReachableIsWalk(next, q[1], t);
    }
    if y :| y in next(s) && Reachable(next, y, t) {
      ReachableIsWalk(next, y, t);
      var v :| WalkTo(next, y, t, v, {});
      WalkJoin(next, [s], v, {});
      assert Route(next, s, t, [s] + v);
    }
  }

  /** The state before the first wave of `getShortestPaths`. */
  lemma PathsStart<T(!new)>(u: set<T>, next: T -> seq<T>, start: T, target: T)
    requires Closed(u, next) && start in u
    ensures PathsSearching(u, next, start, target, {}, [[start]], 0)
  {
    forall p | Cand(next, start, target, p, 0)
      ensures p in [[start]]
    {
      assert p == [start];
    }
  }

  /**
   * `getShortestPaths` is correct: it fails exactly when there is no route of
   * one or more steps from `start` to `target`, and otherwise returns every
   * shortest route and nothing else, all of the same length.
   */
  lemma GetShortestPathsCorrect<T(!new)>(u: set<T>, next: T -> seq<T>, start: T, target: T)
    requires Closed(u, next) && start in u
    ensures var r := GetShortestPaths(u, next, start, target);
            && (r.Ok? ==> forall p :: p in r.value ==> Shortest(next, start, target, p))
            && (r.Ok? ==> forall q :: Shortest(next, start, target, q) ==> q in r.value)
            && (r.Ok? ==> forall p, q :: p in r.value && q in r.value ==> |p| == |q|)
            && (r.Err? <==> forall q :: !Route(next, start, target, q))
  {
    PathsStart(u, next, start, target);
    PathsCorrect(u, next, start, target, {}, [[start]], 0);
  }

  /**
   * `getShortestPath` returns a shortest route, and fails exactly when the
   * target is reachable from none of the successors of `start`.
   */
  lemma GetShortestPathCorrect<T(!new)>(u: set<T>, next: T -> seq<T>, start: T, target: T)
    requires Closed(u, next) && start in u
    ensures var r := GetShortestPath(u, next, start, target);
            && (r.Ok? ==> Shortest(next, start, target, r.value))
            && (r.Err? <==> forall y :: y in next(start) ==> !Reachable(next, y, target))
            && (r.Err? ==> r.error == Runtime)
  {
    GetShortestPathsCorrect(u, next, start, target);
    RouteViaSuccessor(next, start, target);
  }

  /**
   * Searching from a value to itself yields a cycle of at least one step,
   * never the one-element path.
   */
  lemma ShortestCycle<T(!new)>(u: set<T>, next: T -> seq<T>, start: T)
    requires Closed(u, next) && start in u
    ensures var r := GetShortestPath(u, next, start, start);
            r.Ok? ==> |r.value| >= 2 && r.value[0] == start && r.value[|r.value| - 1] == start
  {
    GetShortestPathCorrect(u, next, start, start);
  }
}
