/**
 * `Cache`: a bounded key-value map whose entries count their hits. When a
 * `set` would bring the cache to its maximum size, the cache is pruned
 * first: the entries are ranked by hits (strategies LeastHits and
 * LeastHitsRecently) or by the time of their last hit (Oldest), and only
 * the best `prunesize` survive. The wall clock is an input (`now`), and
 * the `HashMap`'s iteration order over its entries, which decides between
 * equally ranked entries, is an input (`order`) too.
 */
module Cache {
  import opened Wrappers
  import CU = CollectionUtil

  datatype Strategy = LeastHits | LeastHitsRecently | Oldest

  /** A `CacheEntry`: key, value, number of hits, clock reading of the last hit (0 when reset). */
  datatype Entry<K, V> = Entry(key: K, value: V, hits: nat, lasthit: int)

  /**
   * The cache. `prunesize` is the number of entries kept by a prune; the
   * source derives it from `maxsize` and a floating-point factor.
   */
  datatype Cache<K, V> = Cache(maxsize: int, prunesize: nat, pruning: Strategy, entries: map<K, Entry<K, V>>)

  /** Every entry is stored under its own key. */
  ghost predicate Valid<K, V>(c: Cache<K, V>)
  {
    forall k :: k in c.entries ==> c.entries[k].key == k
  }

  /** A possible iteration order of a key set: each key exactly once. */
  ghost predicate IsOrderOf<K>(order: seq<K>, keys: set<K>)
  {
    CU.NoDup(order) && (forall k :: k in order ==> k in keys) && (forall k :: k in keys ==> k in order)
  }

  /**
   * The constructor. `new HashMap<>(maxsize)` rejects a negative capacity
   * with an IllegalArgumentException.
   */
  function New<K, V>(maxsize: int, prunesize: nat, pruning: Strategy): (r: Result<Cache<K, V>>)
    ensures r.Ok? <==> maxsize >= 0
    ensures r.Err? ==> r.error == IllegalArgument
    ensures r.Ok? ==> Valid(r.value) && |r.value.entries| == 0
    ensures r.Ok? ==> r.value.maxsize == maxsize && r.value.prunesize == prunesize && r.value.pruning == pruning
  {
    if maxsize < 0 then Err(IllegalArgument)
    else Ok(Cache(maxsize, prunesize, pruning, map[]))
  }

  /** `CacheEntry.hit`: one more hit, at time `now`. */
  function Hit<K, V>(e: Entry<K, V>, now: int): (r: Entry<K, V>)
    ensures r.key == e.key && r.value == e.value
    ensures r.hits == e.hits + 1 && r.lasthit == now
  {
    e.(hits := e.hits + 1, lasthit := now)
  }

  /** `CacheEntry.reset`: the hit statistics back to zero. */
  function Reset<K, V>(e: Entry<K, V>): (r: Entry<K, V>)
    ensures r.key == e.key && r.value == e.value
    ensures r.hits == 0 && r.lasthit == 0
  {
    e.(hits := 0, lasthit := 0)
  }

  /** `contains(key)`. */
  predicate Contains<K, V>(c: Cache<K, V>, key: K)
  {
    key in c.entries
  }

  /**
   * `get(key)` at time `now`: a missing key dereferences `null`; otherwise
   * the entry's hit is recorded and its value returned.
   */
  function Get<K, V>(c: Cache<K, V>, key: K, now: int): (r: Result<(Cache<K, V>, V)>)
    ensures r.Err? <==> !Contains(c, key)
    ensures r.Err? ==> r.error == NullPointer
    ensures r.Ok? ==> var (c', v) := r.value;
      v == c.entries[key].value
      && c'.entries.Keys == c.entries.Keys
      && c'.entries[key] == Hit(c.entries[key], now)
      && (forall k :: k in c.entries && k != key ==> c'.entries[k] == c.entries[k])
      && c'.maxsize == c.maxsize && c'.prunesize == c.prunesize && c'.pruning == c.pruning
      && (Valid(c) ==> Valid(c'))
  {
    if key !in c.entries then Err(NullPointer)
    else
      var e := c.entries[key];
      Ok((c.(entries := c.entries[key := Hit(e, now)]), e.value))
  }

  // ---------------------------------------------------------------------
  // Pruning
  // ---------------------------------------------------------------------

  /** What an entry is ranked by under a strategy. */
  function Score<K, V>(e: Entry<K, V>, s: Strategy): int
  {
    if s == Oldest then e.lasthit else e.hits
  }

  /** Ranked from best to worst. */
  ghost predicate Descending<K, V>(s: seq<Entry<K, V>>, st: Strategy)
  {
    forall i, j :: 0 <= i < j < |s| ==> Score(s[i], st) >= Score(s[j], st)
  }

  /** Inserts e before the first entry ranked strictly lower, so after its equals. */
  function Insert<K, V>(e: Entry<K, V>, s: seq<Entry<K, V>>, st: Strategy): (r: seq<Entry<K, V>>)
    ensures multiset(r) == multiset(s) + multiset{e}
  {
    if |s| == 0 then [e]
    else if Score(s[0], st) < Score(e, st) then [e] + s
    else
      assert s == [s[0]] + s[1..];
      [s[0]] + Insert(e, s[1..], st)
  }

  lemma DescendingTail<K, V>(s: seq<Entry<K, V>>, st: Strategy)
    requires |s| > 0 && Descending(s, st)
    ensures Descending(s[1..], st)
    ensures forall x :: x in s[1..] ==> Score(s[0], st) >= Score(x, st)
  {
    forall i, j | 0 <= i < j < |s[1..]|
      ensures Score(s[1..][i], st) >= Score(s[1..][j], st)
    {
      assert s[1..][i] == s[i + 1] && s[1..][j] == s[j + 1];
    }
    forall x | x in s[1..]
      ensures Score(s[0], st) >= Score(x, st)
    {
      var m :| 0 <= m < |s[1..]| && s[1..][m] == x;
      assert s[m + 1] == x;
    }
  }

  /** A ranked entry placed before a list it outranks keeps the list ranked. */
  lemma DescendingCons<K, V>(x: Entry<K, V>, s: seq<Entry<K, V>>, st: Strategy)
    requires Descending(s, st)
    requires forall y :: y in s ==> Score(x, st) >= Score(y, st)
    ensures Descending([x] + s, st)
  {
    var t := [x] + s;
    forall i, j | 0 <= i < j < |t|
      ensures Score(t[i], st) >= Score(t[j], st)
    {
      assert t[j] == s[j - 1] && s[j - 1] in s;
      if i > 0 {
        assert t[i] == s[i - 1];
      }
    }
  }

  lemma {:induction false} InsertDescending<K, V>(e: Entry<K, V>, s: seq<Entry<K, V>>, st: Strategy)
    requires Descending(s, st)
    ensures Descending(Insert(e, s, st), st)
  {
    if |s| > 0 {
      DescendingTail(s, st);
      if Score(s[0], st) < Score(e, st) {
        DescendingCons(e, s, st);
      } else {
        var rest := Insert(e, s[1..], st);
        InsertDescending(e, s[1..], st);
        forall y | y in rest
          ensures Score(s[0], st) >= Score(y, st)
        {
          assert y in multiset(rest);
          if y != e {
            assert y in multiset(s[1..]);
          }
        }
        DescendingCons(s[0], rest, st);
      }
    }
  }

  /**
   * `E.sort(comparator)` on the list of entries: a stable sort from best
   * to worst rank. Java's `List.sort` is stable, and a stable sort has only
   * one possible outcome, so insertion sort gives the same list.
   */
  function SortDescending<K, V>(s: seq<Entry<K, V>>, st: Strategy): (r: seq<Entry<K, V>>)
    ensures multiset(r) == multiset(s)
    ensures Descending(r, st)
  {
    if |s| == 0 then []
    else
      assert s == s[..|s| - 1] + [s[|s| - 1]];
      var sorted := SortDescending(s[..|s| - 1], st);
      InsertDescending(s[|s| - 1], sorted, st);
      Insert(s[|s| - 1], sorted, st)
  }

  /** The keys of a list of entries. */
  function KeysOf<K, V>(s: seq<Entry<K, V>>): set<K>
  {
    set i | 0 <= i < |s| :: s[i].key
  }

  lemma {:induction false} KeysOfCard<K, V>(s: seq<Entry<K, V>>)
    ensures |KeysOf(s)| <= |s|
  {
    if |s| > 0 {
      var init := s[..|s| - 1];
      KeysOfCard(init);
      assert KeysOf(s) == KeysOf(init) + {s[|s| - 1].key} by {
        forall k | k in KeysOf(s)
          ensures k in KeysOf(init) + {s[|s| - 1].key}
        {
          var i :| 0 <= i < |s| && s[i].key == k;
          if i < |s| - 1 {
            assert init[i] == s[i];
          }
        }
        forall k | k in KeysOf(init)
          ensures k in KeysOf(s)
        {
          var i :| 0 <= i < |init| && init[i].key == k;
          assert s[i] == init[i];
        }
      }
    }
  }

  lemma KeysOfSplit<K, V>(s: seq<Entry<K, V>>, p: nat)
    requires p <= |s|
    ensures KeysOf(s) == KeysOf(s[..p]) + KeysOf(s[p..])
  {
    forall k | k in KeysOf(s)
      ensures k in KeysOf(s[..p]) + KeysOf(s[p..])
    {
      var i :| 0 <= i < |s| && s[i].key == k;
      if i < p {
        assert s[..p][i] == s[i];
      } else {
        assert s[p..][i - p] == s[i];
      }
    }
    forall k | k in KeysOf(s[..p]) + KeysOf(s[p..])
      ensures k in KeysOf(s)
    {
      if k in KeysOf(s[..p]) {
        var i :| 0 <= i < p && s[..p][i].key == k;
        assert s[i] == s[..p][i];
      } else {
        var i :| 0 <= i < |s| - p && s[p..][i].key == k;
        assert s[i + p] == s[p..][i];
      }
    }
  }

  /**
   * The pruning loop: while the sorted list is longer than `keep`, its last
   * entry is removed from it and from the map.
   */
  function Trim<K, V>(entries: map<K, Entry<K, V>>, s: seq<Entry<K, V>>, keep: nat): (r: map<K, Entry<K, V>>)
    ensures r.Keys == entries.Keys - (if keep < |s| then KeysOf(s[keep..]) else {})
    ensures forall k :: k in r ==> r[k] == entries[k]
    decreases |s|
  {
    if |s| <= keep then entries
    else
      var last := |s| - 1;
      var r := Trim(entries - {s[last].key}, s[..last], keep);
      assert keep < last ==> KeysOf(s[keep..]) == KeysOf(s[..last][keep..]) + {s[last].key} by {
        if keep < last {
          assert s[keep..] == s[..last][keep..] + [s[last]];
          KeysOfSplit(s[keep..], last - keep);
          assert s[keep..][last - keep..] == [s[last]];
          assert KeysOf([s[last]]) == {s[last].key};
          assert s[keep..][..last - keep] == s[..last][keep..];
        }
      }
      assert keep == last ==> KeysOf(s[keep..]) == {s[last].key} by {
        if keep == last {
          assert s[keep..] == [s[last]];
        }
      }
      r
  }

  /** The entries in the given order: `new ArrayList<>(entries.values())`. */
  function Listed<K, V>(entries: map<K, Entry<K, V>>, order: seq<K>): (r: seq<Entry<K, V>>)
    requires forall k :: k in order ==> k in entries
    ensures |r| == |order| && forall i :: 0 <= i < |order| ==> r[i] == entries[order[i]]
  {
    seq(|order|, i requires 0 <= i < |order| => entries[order[i]])
  }

  /** Applies `reset` to every entry, as LeastHitsRecently does after a prune. */
  function ResetAll<K, V>(entries: map<K, Entry<K, V>>): (r: map<K, Entry<K, V>>)
    ensures r.Keys == entries.Keys
    ensures forall k :: k in r ==> r[k] == Reset(entries[k])
  {
    map k | k in entries :: Reset(entries[k])
  }

  /** Facts about the sorted list a prune works on: it holds exactly the stored entries. */
  lemma SortedHoldsEntries<K, V>(c: Cache<K, V>, order: seq<K>, s: seq<Entry<K, V>>)
    requires Valid(c) && IsOrderOf(order, c.entries.Keys)
    requires multiset(s) == multiset(Listed(c.entries, order))
    ensures forall i :: 0 <= i < |s| ==> s[i].key in c.entries && c.entries[s[i].key] == s[i]
    ensures KeysOf(s) == c.entries.Keys
  {
    var l := Listed(c.entries, order);
    forall i | 0 <= i < |s|
      ensures s[i].key in c.entries && c.entries[s[i].key] == s[i]
    {
      assert s[i] in multiset(l);
      var m :| 0 <= m < |l| && l[m] == s[i];
    }
    forall k | k in c.entries
      ensures k in KeysOf(s)
    {
      var m :| 0 <= m < |order| && order[m] == k;
      assert l[m] in multiset(s);
      var i :| 0 <= i < |s| && s[i] == l[m];
    }
  }

  /**
   * `prune()`: sort the entries by strategy, drop all but the first
   * `prunesize`, and for LeastHitsRecently reset the survivors. At most
   * `prunesize` entries remain, nothing is dropped when there were no more
   * than that, and every survivor ranks at least as well as every dropped
   * entry.
   */
  function Prune<K, V>(c: Cache<K, V>, order: seq<K>): (r: Cache<K, V>)
    requires Valid(c) && IsOrderOf(order, c.entries.Keys)
    ensures Valid(r)
    ensures r.maxsize == c.maxsize && r.prunesize == c.prunesize && r.pruning == c.pruning
    ensures r.entries.Keys <= c.entries.Keys
    ensures |r.entries| <= c.prunesize
    ensures |r.entries| == if |c.entries| <= c.prunesize then |c.entries| else c.prunesize
    ensures |c.entries| <= c.prunesize ==> r.entries.Keys == c.entries.Keys
    ensures forall k :: k in r.entries ==>
      r.entries[k] == if c.pruning == LeastHitsRecently then Reset(c.entries[k]) else c.entries[k]
    ensures forall k, d :: k in r.entries && d in c.entries && d !in r.entries ==>
      Score(c.entries[k], c.pruning) >= Score(c.entries[d], c.pruning)
  {
    var listed := Listed(c.entries, order);
    var sorted := SortDescending(listed, c.pruning);
    var kept := Trim(c.entries, sorted, c.prunesize);
    PruneFacts(c, order, sorted, kept);
    c.(entries := if c.pruning == LeastHitsRecently then ResetAll(kept) else kept)
  }

  lemma PruneFacts<K, V>(c: Cache<K, V>, order: seq<K>, sorted: seq<Entry<K, V>>, kept: map<K, Entry<K, V>>)
    requires Valid(c) && IsOrderOf(order, c.entries.Keys)
    requires multiset(sorted) == multiset(Listed(c.entries, order)) && Descending(sorted, c.pruning)
    requires kept.Keys == c.entries.Keys - (if c.prunesize < |sorted| then KeysOf(sorted[c.prunesize..]) else {})
    ensures |kept| <= c.prunesize
    ensures |kept| == if |c.entries| <= c.prunesize then |c.entries| else c.prunesize
    ensures |c.entries| <= c.prunesize ==> kept.Keys == c.entries.Keys
    ensures forall k, d :: k in kept && d in c.entries && d !in kept ==>
      Score(c.entries[k], c.pruning) >= Score(c.entries[d], c.pruning)
  {
    SortedHoldsEntries(c, order, sorted);
    OrderCard(order, c.entries.Keys);
    assert |sorted| == |multiset(sorted)| == |Listed(c.entries, order)| == |c.entries|;
    assert |kept| == |kept.Keys|;
    if c.prunesize < |sorted| {
      KeptFew(sorted, c.prunesize, c.entries.Keys, kept.Keys);
      KeptEnough(sorted, c.prunesize, c.entries.Keys, kept.Keys);
      KeptBest(c.entries, sorted, c.prunesize, kept.Keys, c.pruning);
    }
  }

  lemma OrderCard<K>(order: seq<K>, keys: set<K>)
    requires IsOrderOf(order, keys)
    ensures |order| == |keys|
  {
    CU.NoDupCard(order);
    assert CU.Elems(order) == keys;
  }

  lemma KeptFew<K, V>(sorted: seq<Entry<K, V>>, p: nat, all: set<K>, kept: set<K>)
    requires p < |sorted| && KeysOf(sorted) == all
    requires kept == all - KeysOf(sorted[p..])
    ensures |kept| <= p
  {
    KeysOfSplit(sorted, p);
    KeysOfCard(sorted[..p]);
    assert kept <= KeysOf(sorted[..p]);
  }

  lemma KeptEnough<K, V>(sorted: seq<Entry<K, V>>, p: nat, all: set<K>, kept: set<K>)
    requires p < |sorted| && KeysOf(sorted) == all && |all| == |sorted|
    requires kept == all - KeysOf(sorted[p..])
    ensures |kept| >= p
  {
    KeysOfSplit(sorted, p);
    KeysOfCard(sorted[p..]);
    var dropped := KeysOf(sorted[p..]);
    assert all == kept + dropped && kept * dropped == {};
  }

  lemma KeptBest<K, V>(entries: map<K, Entry<K, V>>, sorted: seq<Entry<K, V>>, p: nat, kept: set<K>, st: Strategy)
    requires p < |sorted| && Descending(sorted, st) && KeysOf(sorted) == entries.Keys
    requires forall i :: 0 <= i < |sorted| ==> sorted[i].key in entries && entries[sorted[i].key] == sorted[i]
    requires kept == entries.Keys - KeysOf(sorted[p..])
    ensures forall k, d :: k in kept && d in entries && d !in kept ==>
      Score(entries[k], st) >= Score(entries[d], st)
  {
    KeysOfSplit(sorted, p);
    forall k, d | k in kept && d in entries && d !in kept
      ensures Score(entries[k], st) >= Score(entries[d], st)
    {
      var j :| 0 <= j < |sorted[p..]| && sorted[p..][j].key == d;
      var i :| 0 <= i < p && sorted[..p][i].key == k;
      assert sorted[p + j] == sorted[p..][j] && sorted[i] == sorted[..p][i];
    }
  }

  /**
   * `set(key, value)`: prune first when one more entry would reach
   * `maxsize`, then store a fresh entry. The cache afterwards never holds
   * more than the larger of `maxsize - 1` and `prunesize + 1` entries.
   */
  function Set<K, V>(c: Cache<K, V>, key: K, value: V, order: seq<K>): (r: Cache<K, V>)
    requires Valid(c) && IsOrderOf(order, c.entries.Keys)
    ensures Valid(r)
    ensures r.maxsize == c.maxsize && r.prunesize == c.prunesize && r.pruning == c.pruning
    ensures Contains(r, key) && r.entries[key] == Entry(key, value, 0, 0)
    ensures |r.entries| <= c.maxsize - 1 || |r.entries| <= c.prunesize + 1
    ensures |c.entries| + 1 < c.maxsize ==>
      r.entries.Keys == c.entries.Keys + {key}
      && forall k :: k in c.entries && k != key ==> r.entries[k] == c.entries[k]
  {
    var base := if |c.entries| + 1 >= c.maxsize then Prune(c, order) else c;
    Stored(c, base, key, Entry(key, value, 0, 0));
    base.(entries := base.entries[key := Entry(key, value, 0, 0)])
  }

  /** Storing a fresh entry into the cache left after the optional prune. */
  lemma Stored<K, V>(c: Cache<K, V>, base: Cache<K, V>, key: K, e: Entry<K, V>)
    requires Valid(base) && e.key == key
    requires base.maxsize == c.maxsize && base.prunesize == c.prunesize && base.pruning == c.pruning
    requires |c.entries| + 1 >= c.maxsize ==> |base.entries| <= c.prunesize
    requires |c.entries| + 1 < c.maxsize ==> base == c
    ensures var r := base.(entries := base.entries[key := e]);
            && Valid(r) && r.maxsize == c.maxsize && r.prunesize == c.prunesize && r.pruning == c.pruning
            && key in r.entries && r.entries[key] == e
            && (|r.entries| <= c.maxsize - 1 || |r.entries| <= c.prunesize + 1)
            && (|c.entries| + 1 < c.maxsize ==>
                  r.entries.Keys == c.entries.Keys + {key}
                  && forall k :: k in c.entries && k != key ==> r.entries[k] == c.entries[k])
  {
    var m := base.entries[key := e];
    assert m.Keys == base.entries.Keys + {key};
  }

  /** A value just stored is found, and read back with one hit recorded. */
  lemma SetThenGet<K, V>(c: Cache<K, V>, key: K, value: V, order: seq<K>, now: int)
    requires Valid(c) && IsOrderOf(order, c.entries.Keys)
    ensures Get(Set(c, key, value, order), key, now).Ok?
    ensures Get(Set(c, key, value, order), key, now).value.1 == value
    ensures Get(Set(c, key, value, order), key, now).value.0.entries[key] == Entry(key, value, 1, now)
  {
  }

  /** Storing under a key other than the one looked up, without a prune, does not change what is read. */
  lemma SetKeepsOthers<K, V>(c: Cache<K, V>, key: K, value: V, order: seq<K>, other: K, now: int)
    requires Valid(c) && IsOrderOf(order, c.entries.Keys)
    requires |c.entries| + 1 < c.maxsize && other != key
    ensures Get(Set(c, key, value, order), other, now).Ok? <==> Get(c, other, now).Ok?
    ensures Get(c, other, now).Ok? ==>
      Get(Set(c, key, value, order), other, now).value.1 == Get(c, other, now).value.1
  {
  }
}
