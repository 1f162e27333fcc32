/**
 * `UniquePriorityQueue` and its node class `QElement`: a priority queue that
 * holds every key at most once, ordered by value, where inserting a key that
 * is already queued can only lower its value (decrease-key).
 *
 * The doubly linked chain of nodes is a sequence, head first; `values` is the
 * queue's own map from each queued key to its current value. Values are
 * integers ordered by `<=`, standing for `V extends Comparable<V>`.
 *
 * `remove` as written never unlinks a node (it compares a node with a key),
 * so `InsertAsWritten` and `RemoveAsWritten` model the code as it stands and
 * `Insert` and `Remove` the evidently intended unlinking, on which the
 * invariant `Valid` is proved.
 */
module UniquePriorityQueue {
  import opened Wrappers
  import Text

  /** `QElement`: a key and its value, both fixed when the node is made. */
  datatype QElement<K> = QElement(key: K, value: int)

  /** The chain of nodes from the head, and the map of current values. */
  datatype Queue<K> = Queue(elems: seq<QElement<K>>, values: map<K, int>)

  /** The keys of the nodes of a chain. */
  ghost function KeysOf<K>(elems: seq<QElement<K>>): set<K>
  {
    set e | e in elems :: e.key
  }

  ghost predicate Sorted<K>(elems: seq<QElement<K>>)
  {
    forall i, j :: 0 <= i < j < |elems| ==> elems[i].value <= elems[j].value
  }

  ghost predicate UniqueKeys<K>(elems: seq<QElement<K>>)
  {
    forall i, j :: 0 <= i < j < |elems| ==> elems[i].key != elems[j].key
  }

  /**
   * The intended invariant: the chain is ordered by value, holds each key
   * once, and lists exactly the entries of `values`.
   */
  ghost predicate Valid<K>(q: Queue<K>)
  {
    && Sorted(q.elems) && UniqueKeys(q.elems)
    && (forall e :: e in q.elems ==> e.key in q.values && q.values[e.key] == e.value)
    && q.values.Keys == KeysOf(q.elems)
  }

  /** The queue of the constructor: no head and no values. */
  function Empty<K(==)>(): (q: Queue<K>)
    ensures Valid(q) && Size(q) == 0
  {
    Queue([], map[])
  }

  /** `size()`: the number of keys in the map of values. */
  function Size<K(==)>(q: Queue<K>): nat
  {
    |q.values|
  }

  /**
   * The index the insertion loop stops at for a new value `v`: the first node
   * whose key's current value is at least `v`, or the end of the chain.
   * Looking up a key that has no value fails, as comparing with `null` does.
   */
  function PlaceAt<K(==)>(elems: seq<QElement<K>>, values: map<K, int>, v: int): (r: Result<nat>)
    ensures r.Ok? ==> r.value <= |elems|
    ensures r.Ok? ==> forall j :: 0 <= j < r.value ==> elems[j].key in values && values[elems[j].key] < v
    ensures r.Ok? && r.value < |elems| ==> elems[r.value].key in values && v <= values[elems[r.value].key]
    ensures r.Err? ==> r.error == NullPointer && exists j :: 0 <= j < |elems| && elems[j].key !in values
    ensures (forall e :: e in elems ==> e.key in values) ==> r.Ok?
  {
    if elems == [] then Ok(0)
    else if elems[0].key !in values then Err(NullPointer)
    else if v > values[elems[0].key] then
      match PlaceAt(elems[1..], values, v)
      case Err(e) => Err(e)
      case Ok(i) => Ok(i + 1)
    else Ok(0)
  }

  /** Lines 58-82 of `insert`: record the value and link a new node in place. */
  function Enqueue<K(==)>(q: Queue<K>, key: K, value: int): (r: Result<Queue<K>>)
    ensures r.Ok? ==> r.value.values == q.values[key := value]
    ensures r.Ok? ==> |r.value.elems| == |q.elems| + 1
    ensures r.Err? ==> r.error == NullPointer
  {
    var values := q.values[key := value];
    match PlaceAt(q.elems, values, value)
    case Err(e) => Err(e)
    case Ok(i) => Ok(Queue(q.elems[..i] + [QElement(key, value)] + q.elems[i..], values))
  }

  /**
   * `remove(key)` as written: the key leaves the map, but the test
   * `curr.equals(key)` compares a node with a key and never holds, so no
   * node is unlinked. An empty chain fails on `curr.equals`.
   */
  function RemoveAsWritten<K(==)>(q: Queue<K>, key: K): (r: Result<Queue<K>>)
    ensures r.Err? <==> q.elems == []
    ensures r.Err? ==> r.error == NullPointer
    ensures r.Ok? ==> key !in r.value.values && r.value.values.Keys == q.values.Keys - {key}
    ensures r.Ok? ==> r.value.elems == q.elems
  {
    if q.elems == [] then Err(NullPointer) else Ok(Queue(q.elems, q.values - {key}))
  }

  /** `insert(key, value)` as written, on top of `RemoveAsWritten`. */
  function InsertAsWritten<K(==)>(q: Queue<K>, key: K, value: int): (r: Result<Queue<K>>)
    ensures r.Ok? ==> key in r.value.values && r.value.values[key] <= value
  {
    if q.elems == [] then Ok(Queue([QElement(key, value)], q.values[key := value]))
    else if key in q.values && q.values[key] <= value then Ok(q)
    else if key in q.values then
      match RemoveAsWritten(q, key)
      case Err(e) => Err(e)
      case Ok(q') => Enqueue(q', key, value)
    else Enqueue(q, key, value)
  }

  /** The chain without the nodes of `key`, in order. */
  function Without<K(==)>(elems: seq<QElement<K>>, key: K): (r: seq<QElement<K>>)
    ensures forall e :: e in r ==> e in elems
    ensures forall e :: e in elems ==> (e in r <==> e.key != key)
    ensures |r| <= |elems|
  {
    if elems == [] then []
    else (if elems[0].key == key then [] else [elems[0]]) + Without(elems[1..], key)
  }

  /** `remove(key)` as evidently intended: every node of `key` is unlinked. */
  function Remove<K(==)>(q: Queue<K>, key: K): (r: Result<Queue<K>>)
    ensures r.Err? <==> q.elems == []
    ensures r.Err? ==> r.error == NullPointer
    ensures r.Ok? ==> r.value.values.Keys == q.values.Keys - {key}
    ensures r.Ok? ==> forall e :: e in r.value.elems ==> e.key != key
  {
    if q.elems == [] then Err(NullPointer) else Ok(Queue(Without(q.elems, key), q.values - {key}))
  }

  /** `insert(key, value)` with the intended `Remove`. */
  function Insert<K(==)>(q: Queue<K>, key: K, value: int): (r: Result<Queue<K>>)
    ensures r.Ok? ==> key in r.value.values && r.value.values[key] <= value
  {
    if q.elems == [] then Ok(Queue([QElement(key, value)], q.values[key := value]))
    else if key in q.values && q.values[key] <= value then Ok(q)
    else if key in q.values then
      match Remove(q, key)
      case Err(e) => Err(e)
      case Ok(q') => Enqueue(q', key, value)
    else Enqueue(q, key, value)
  }

  /**
   * `poll()`: the head node and the queue without it; an empty map of
   * values fails with `NoSuchElementException`.
   */
  function Poll<K(==)>(q: Queue<K>): (r: Result<(QElement<K>, Queue<K>)>)
    ensures r.Err? <==> q.values == map[] || q.elems == []
    ensures q.values == map[] ==> r == Err(NoSuchElement)
    ensures r.Ok? ==> r.value.0 == q.elems[0] && r.value.1.elems == q.elems[1..]
    ensures r.Ok? ==> r.value.1.values.Keys == q.values.Keys - {q.elems[0].key}
  {
    if |q.values| == 0 then Err(NoSuchElement)
    else if q.elems == [] then Err(NullPointer)
    else Ok((q.elems[0], Queue(q.elems[1..], q.values - {q.elems[0].key})))
  }

  // ------------------------------------------------------- the invariant

  /** Distinct keys make the key set as large as the chain. */
  lemma {:induction false} KeysCount<K>(elems: seq<QElement<K>>)
    requires UniqueKeys(elems)
    ensures |KeysOf(elems)| == |elems|
  {
    if elems != [] {
      var rest := elems[1..];
      assert UniqueKeys(rest);
      KeysCount(rest);
      assert KeysOf(elems) == {elems[0].key} + KeysOf(rest);
      assert elems[0].key !in KeysOf(rest);
    }
  }

  /** In a valid queue `size()` is the length of the chain. */
  lemma SizeIsLength<K>(q: Queue<K>)
    requires Valid(q)
    ensures Size(q) == |q.elems|
  {
    KeysCount(q.elems);
  }

  /** Unlinking keeps the chain ordered and its keys distinct. */
  lemma {:induction false} WithoutKeeps<K>(elems: seq<QElement<K>>, key: K)
    requires Sorted(elems) && UniqueKeys(elems)
    ensures Sorted(Without(elems, key)) && UniqueKeys(Without(elems, key))
  {
    if elems != [] {
      var rest := elems[1..];
      WithoutKeeps(rest, key);
      var w := Without(rest, key);
      if elems[0].key != key {
        forall j | 0 <= j < |w|
          ensures elems[0].value <= w[j].value && elems[0].key != w[j].key
        {
          assert w[j] in rest;
        }
        ConsKeeps(elems[0], w);
      }
    }
  }

  /** A node not after and not sharing a key with any of `w` can go in front. */
  lemma ConsKeeps<K>(x: QElement<K>, w: seq<QElement<K>>)
    requires Sorted(w) && UniqueKeys(w)
    requires forall j :: 0 <= j < |w| ==> x.value <= w[j].value && x.key != w[j].key
    ensures Sorted([x] + w) && UniqueKeys([x] + w)
  {
    var r := [x] + w;
    forall a, b | 0 <= a < b < |r|
      ensures r[a].value <= r[b].value && r[a].key != r[b].key
    {
      assert r[b] == w[b - 1];
      if a > 0 {
        assert r[a] == w[a - 1];
      }
    }
  }

  /** A node put between smaller and not-smaller values keeps the chain ordered. */
  lemma SortedInsert<K>(w: seq<QElement<K>>, i: nat, e: QElement<K>)
    requires Sorted(w) && i <= |w|
    requires forall j :: 0 <= j < i ==> w[j].value < e.value
    requires forall j :: i <= j < |w| ==> e.value <= w[j].value
    ensures Sorted(w[..i] + [e] + w[i..])
  {
  }

  /** A node with a fresh key keeps the keys distinct. */
  lemma UniqueInsert<K>(w: seq<QElement<K>>, i: nat, e: QElement<K>)
    requires UniqueKeys(w) && i <= |w| && e.key !in KeysOf(w)
    ensures UniqueKeys(w[..i] + [e] + w[i..])
  {
    var r := w[..i] + [e] + w[i..];
    forall a, b | 0 <= a < b < |r|
      ensures r[a].key != r[b].key
    {
      if a == i {
        assert r[b] in w;
      } else if b == i {
        assert r[a] in w;
      }
    }
  }

  /** A node with an absent key, put in its place by value, keeps a queue valid. */
  lemma InsertedValid<K>(q: Queue<K>, i: nat, e: QElement<K>)
    requires Valid(q) && e.key !in q.values && i <= |q.elems|
    requires forall j :: 0 <= j < i ==> q.elems[j].value < e.value
    requires forall j :: i <= j < |q.elems| ==> e.value <= q.elems[j].value
    ensures Valid(Queue(q.elems[..i] + [e] + q.elems[i..], q.values[e.key := e.value]))
  {
    var r := q.elems[..i] + [e] + q.elems[i..];
    SortedInsert(q.elems, i, e);
    UniqueInsert(q.elems, i, e);
    assert forall x :: x in r <==> x in q.elems || x == e;
    assert KeysOf(r) == KeysOf(q.elems) + {e.key};
  }

  /** Where `Enqueue` links the new node, and that the index is in range. */
  lemma EnqueueAt<K>(q: Queue<K>, key: K, value: int)
    requires Valid(q) && key !in q.values
    ensures var p := PlaceAt(q.elems, q.values[key := value], value);
            && p.Ok? && p.value <= |q.elems|
            && Enqueue(q, key, value)
               == Ok(Queue(q.elems[..p.value] + [QElement(key, value)] + q.elems[p.value..], q.values[key := value]))
            && (forall j :: 0 <= j < p.value ==> q.elems[j].value < value)
            && (forall j :: p.value <= j < |q.elems| ==> value <= q.elems[j].value)
  {
    var values := q.values[key := value];
    var p := PlaceAt(q.elems, values, value);
    assert p.Ok? by {
      forall x | x in q.elems
        ensures x.key in values
      {
      }
    }
    var i := p.value;
    forall j | 0 <= j < |q.elems|
      ensures values[q.elems[j].key] == q.elems[j].value
    {
      assert q.elems[j] in q.elems;
    }
    forall j | i <= j < |q.elems|
      ensures value <= q.elems[j].value
    {
      assert q.elems[i].value <= q.elems[j].value;
    }
  }

  /** Linking a node for an absent key into a valid queue keeps it valid. */
  lemma EnqueueValid<K>(q: Queue<K>, key: K, value: int)
    requires Valid(q) && key !in q.values
    ensures var r := Enqueue(q, key, value);
            r.Ok? && Valid(r.value) && Size(r.value) == Size(q) + 1
  {
    EnqueueAt(q, key, value);
    var i := PlaceAt(q.elems, q.values[key := value], value).value;
    InsertedValid(q, i, QElement(key, value));
  }

  /**
   * `Enqueue` puts the new node before the first node whose value is at
   * least the new value.
   */
  lemma EnqueuePlaces<K>(q: Queue<K>, key: K, value: int)
    requires Valid(q) && key !in q.values
    ensures var r := Enqueue(q, key, value);
            && r.Ok?
            && exists i :: 0 <= i <= |q.elems| && r.value.elems == q.elems[..i] + [QElement(key, value)] + q.elems[i..]
                 && (forall j :: 0 <= j < i ==> q.elems[j].value < value)
                 && (forall j :: i <= j < |q.elems| ==> value <= q.elems[j].value)
  {
    EnqueueAt(q, key, value);
  }

  /** Unlinking a key from a valid non-empty queue keeps it valid. */
  lemma RemoveValid<K>(q: Queue<K>, key: K)
    requires Valid(q) && q.elems != []
    ensures var r := Remove(q, key);
            && r.Ok? && Valid(r.value) && r.value.values == q.values - {key}
  {
    WithoutKeeps(q.elems, key);
    var w := Without(q.elems, key);
    assert KeysOf(w) == KeysOf(q.elems) - {key} by {
      assert forall x :: x in w <==> x in q.elems && x.key != key;
    }
  }

  /**
   * The value a key holds after `insert(key, value)`: a key keeps a value
   * that is not larger, and otherwise takes the new one.
   */
  function Lowered<K(==)>(m: map<K, int>, key: K, value: int): (r: map<K, int>)
    ensures r.Keys == m.Keys + {key}
    ensures r[key] == if key in m && m[key] <= value then m[key] else value
    ensures forall k :: k in m && k != key ==> r[k] == m[k]
  {
    if key in m && m[key] <= value then m else m[key := value]
  }

  /**
   * `insert` is decrease-key: on a valid queue it succeeds, keeps the queue
   * valid, and lowers the key's value to `value` or adds the key; the size
   * grows by one exactly when the key was absent.
   */
  lemma InsertCorrect<K>(q: Queue<K>, key: K, value: int)
    requires Valid(q)
    ensures var r := Insert(q, key, value);
            && r.Ok? && Valid(r.value)
            && r.value.values == Lowered(q.values, key, value)
            && Size(r.value) == if key in q.values then Size(q) else Size(q) + 1
  {
    if q.elems == [] {
      assert q.values.Keys == {};
    } else if key in q.values && q.values[key] <= value {
    } else if key in q.values {
      InsertLowers(q, key, value);
    } else {
      EnqueueValid(q, key, value);
    }
  }

  /** The decrease-key case of `insert`: unlink the old node, link a new one. */
  lemma InsertLowers<K>(q: Queue<K>, key: K, value: int)
    requires Valid(q) && q.elems != [] && key in q.values && value < q.values[key]
    ensures var r := Insert(q, key, value);
            && r.Ok? && Valid(r.value)
            && r.value.values == q.values[key := value]
            && Size(r.value) == Size(q)
  {
    InsertUnfold(q, key, value);
    EnqueueReplaces(q, Remove(q, key).value, key, value);
  }

  /** Linking the new node after the old one is gone gives the key its new value. */
  lemma EnqueueReplaces<K>(q: Queue<K>, q': Queue<K>, key: K, value: int)
    requires Valid(q') && key in q.values && q'.values == q.values - {key}
    ensures var r := Enqueue(q', key, value);
            && r.Ok? && Valid(r.value)
            && r.value.values == q.values[key := value]
            && Size(r.value) == Size(q)
  {
    EnqueueValid(q', key, value);
    MapReplace(q.values, q'.values, key, value);
  }

  /** Taking a key out and putting it back with a new value is an update. */
  lemma MapReplace<K>(m: map<K, int>, m': map<K, int>, key: K, value: int)
    requires key in m && m' == m - {key}
    ensures m'[key := value] == m[key := value]
    ensures |m'| + 1 == |m|
  {
    assert m.Keys == m'.Keys + {key};
  }

  /** The decrease-key case of `insert` is `Enqueue` after `Remove`. */
  lemma InsertUnfold<K>(q: Queue<K>, key: K, value: int)
    requires Valid(q) && q.elems != [] && key in q.values && value < q.values[key]
    ensures Remove(q, key).Ok? && Valid(Remove(q, key).value)
    ensures Remove(q, key).value.values == q.values - {key}
    ensures Insert(q, key, value) == Enqueue(Remove(q, key).value, key, value)
  {
    RemoveValid(q, key);
  }

  /**
   * Where `insert` puts the new node: the chain without the key's old node,
   * with the new node before the first node whose value is at least the new
   * value (ties go in front of existing equals). A key whose value is already
   * not larger leaves the queue as it was.
   */
  lemma InsertPlaces<K>(q: Queue<K>, key: K, value: int)
    requires Valid(q)
    ensures var r := Insert(q, key, value);
            var w := Without(q.elems, key);
            && (key in q.values && q.values[key] <= value ==> r == Ok(q))
            && (!(key in q.values && q.values[key] <= value) ==>
                  exists i :: 0 <= i <= |w| && r.value.elems == w[..i] + [QElement(key, value)] + w[i..]
                    && (forall j :: 0 <= j < i ==> w[j].value < value)
                    && (forall j :: i <= j < |w| ==> value <= w[j].value))
  {
    if q.elems == [] {
      InsertPlacesFirst(q, key, value);
    } else if key in q.values && q.values[key] <= value {
    } else if key in q.values {
      InsertPlacesLowered(q, key, value);
    } else {
      assert KeysOf(q.elems) == q.values.Keys;
      WithoutAbsent(q.elems, key);
      EnqueuePlaces(q, key, value);
    }
  }

  /** In the decrease-key case the new node goes into the chain without the old one. */
  lemma InsertPlacesLowered<K>(q: Queue<K>, key: K, value: int)
    requires Valid(q) && q.elems != [] && key in q.values && value < q.values[key]
    ensures var r := Insert(q, key, value);
            var w := Without(q.elems, key);
            exists i :: 0 <= i <= |w| && r.value.elems == w[..i] + [QElement(key, value)] + w[i..]
              && (forall j :: 0 <= j < i ==> w[j].value < value)
              && (forall j :: i <= j < |w| ==> value <= w[j].value)
  {
    InsertUnfold(q, key, value);
    var q' := Remove(q, key).value;
    assert q'.elems == Without(q.elems, key);
    EnqueuePlaces(q', key, value);
  }

  /** Into an empty chain the new node goes alone. */
  lemma InsertPlacesFirst<K>(q: Queue<K>, key: K, value: int)
    requires q.elems == []
    ensures Insert(q, key, value).Ok?
    ensures var w := Without(q.elems, key);
            Insert(q, key, value).value.elems == w[..0] + [QElement(key, value)] + w[0..]
  {
  }

  /** Unlinking a key that has no node changes nothing. */
  lemma {:induction false} WithoutAbsent<K>(elems: seq<QElement<K>>, key: K)
    requires key !in KeysOf(elems)
    ensures Without(elems, key) == elems
  {
    if elems != [] {
      assert KeysOf(elems[1..]) <= KeysOf(elems);
      WithoutAbsent(elems[1..], key);
      assert [elems[0]] + elems[1..] == elems;
    }
  }

  /**
   * `poll` on a valid queue fails exactly when it is empty, and otherwise
   * returns an entry of least value and leaves a valid queue without its key.
   */
  lemma PollCorrect<K>(q: Queue<K>)
    requires Valid(q)
    ensures var r := Poll(q);
            && (r.Err? <==> Size(q) == 0)
            && (r.Err? ==> r.error == NoSuchElement)
            && (r.Ok? ==> r.value.0.key in q.values && q.values[r.value.0.key] == r.value.0.value)
            && (r.Ok? ==> forall k :: k in q.values ==> r.value.0.value <= q.values[k])
            && (r.Ok? ==> Valid(r.value.1) && r.value.1.values == q.values - {r.value.0.key})
            && (r.Ok? ==> Size(r.value.1) == Size(q) - 1)
  {
    SizeIsLength(q);
    if q.elems != [] {
      HeadIsLeast(q);
      TailIsValid(q);
      SizeIsLength(Queue(q.elems[1..], q.values - {q.elems[0].key}));
    }
  }

  /** The head of a valid queue holds a least value. */
  lemma HeadIsLeast<K>(q: Queue<K>)
    requires Valid(q) && q.elems != []
    ensures forall k :: k in q.values ==> q.elems[0].value <= q.values[k]
  {
    forall k | k in q.values
      ensures q.elems[0].value <= q.values[k]
    {
      var x :| x in q.elems && x.key == k;
    }
  }

  /** Dropping the head of a valid queue, and its key from the map, leaves a valid queue. */
  lemma TailIsValid<K>(q: Queue<K>)
    requires Valid(q) && q.elems != []
    ensures Valid(Queue(q.elems[1..], q.values - {q.elems[0].key}))
  {
    var e := q.elems[0];
    var rest := q.elems[1..];
    assert KeysOf(rest) == KeysOf(q.elems) - {e.key} by {
      forall x | x in rest
        ensures x.key != e.key
      {
        var j :| 0 <= j < |rest| && rest[j] == x;
        assert q.elems[j + 1] == x;
      }
      assert q.elems == [e] + rest;
    }
  }

  /**
   * `remove` as intended: on a valid non-empty queue the key leaves both the
   * map and the chain, and the rest stays as it was.
   */
  lemma RemoveCorrect<K>(q: Queue<K>, key: K)
    requires Valid(q) && q.elems != []
    ensures var r := Remove(q, key);
            && r.Ok? && Valid(r.value)
            && key !in KeysOf(r.value.elems)
            && r.value.values == q.values - {key}
            && Size(r.value) == if key in q.values then Size(q) - 1 else Size(q)
  {
    RemoveValid(q, key);
  }

  // ------------------------------------------------ remove as written

  /** Key 1 with value 5, then key 2 with value 7. */
  const TwoKeys: Queue<int> := Queue([QElement(1, 5), QElement(2, 7)], map[1 := 5, 2 := 7])

  /** Building `TwoKeys` by two inserts, which no removal is involved in. */
  lemma TwoKeysBuilt()
    ensures InsertAsWritten(Empty(), 1, 5) == Ok(Queue([QElement(1, 5)], map[1 := 5]))
    ensures InsertAsWritten(Queue([QElement(1, 5)], map[1 := 5]), 2, 7) == Ok(TwoKeys)
    ensures Insert(Empty(), 1, 5) == Ok(Queue([QElement(1, 5)], map[1 := 5]))
    ensures Insert(Queue([QElement(1, 5)], map[1 := 5]), 2, 7) == Ok(TwoKeys)
  {
    assert map[1 := 5][2 := 7] == map[1 := 5, 2 := 7];
    assert PlaceAt([QElement(1, 5)], map[1 := 5, 2 := 7], 7) == Ok(1);
    var c := [QElement(1, 5)];
    assert c[..1] + [QElement(2, 7)] + c[1..] == TwoKeys.elems;
  }

  /**
   * Because `remove` never unlinks, lowering key 1 of `TwoKeys` to value 1
   * leaves its old node `1=5` in the chain.
   */
  lemma LowerAsWritten()
    ensures InsertAsWritten(TwoKeys, 1, 1)
         == Ok(Queue([QElement(1, 1), QElement(1, 5), QElement(2, 7)], map[1 := 1, 2 := 7]))
  {
    assert map[1 := 5, 2 := 7] - {1} == map[2 := 7];
    assert map[2 := 7][1 := 1] == map[1 := 1, 2 := 7];
    assert PlaceAt([QElement(1, 5), QElement(2, 7)], map[1 := 1, 2 := 7], 1) == Ok(0);
    var c := TwoKeys.elems;
    assert c[..0] + [QElement(1, 1)] + c[0..] == [QElement(1, 1), QElement(1, 5), QElement(2, 7)];
  }

  /**
   * The stale node is then handed out: after `1=1` is polled, key 2 is the
   * only key queued, yet the next poll returns `1=5` rather than `2=7`.
   */
  lemma StalePollAsWritten()
    ensures var q := Queue([QElement(1, 1), QElement(1, 5), QElement(2, 7)], map[1 := 1, 2 := 7]);
            var p1 := Poll(q);
            && p1 == Ok((QElement(1, 1), Queue([QElement(1, 5), QElement(2, 7)], map[2 := 7])))
            && Poll(p1.value.1) == Ok((QElement(1, 5), Queue([QElement(2, 7)], map[2 := 7])))
  {
    assert map[1 := 1, 2 := 7] - {1} == map[2 := 7];
    assert map[2 := 7] - {1} == map[2 := 7];
  }

  /**
   * With the intended `remove` the same lowering unlinks `1=5`, so the two
   * polls return `1=1` and then `2=7`.
   */
  lemma LowerIntended()
    ensures Insert(TwoKeys, 1, 1) == Ok(Queue([QElement(1, 1), QElement(2, 7)], map[1 := 1, 2 := 7]))
    ensures Poll(Queue([QElement(1, 1), QElement(2, 7)], map[1 := 1, 2 := 7]))
         == Ok((QElement(1, 1), Queue([QElement(2, 7)], map[2 := 7])))
  {
    assert Without([QElement(1, 5), QElement(2, 7)], 1) == [QElement(2, 7)];
    assert map[1 := 5, 2 := 7] - {1} == map[2 := 7];
    assert map[2 := 7][1 := 1] == map[1 := 1, 2 := 7];
    assert PlaceAt([QElement(2, 7)], map[1 := 1, 2 := 7], 1) == Ok(0);
    var c := [QElement(2, 7)];
    assert c[..0] + [QElement(1, 1)] + c[0..] == [QElement(1, 1), QElement(2, 7)];
    assert map[1 := 1, 2 := 7] - {1} == map[2 := 7];
  }

  // ------------------------------------------------------------ printing

  /** `QElement.toString()`: the key as `show` prints it, `=`, the value. */
  function ElementString<K>(e: QElement<K>, show: K -> string): (s: string)
    ensures |s| > |show(e.key)| && s[|show(e.key)|] == '='
  {
    show(e.key) + "=" + Text.IntToString(e.value)
  }

  /**
   * A node's text splits at `=` into the key's text and the value's, and the
   * value reads back, provided the key prints as non-empty text without `=`.
   */
  lemma ElementStringParts<K>(e: QElement<K>, show: K -> string, lo: int, hi: int)
    requires show(e.key) != "" && '=' !in show(e.key) && lo <= e.value <= hi
    ensures var parts := Text.Split(ElementString(e, show), '=');
            && parts == [show(e.key), Text.IntToString(e.value)]
            && Text.ParseInt(parts[1], lo, hi) == Ok(e.value)
  {
    var v := Text.IntToString(e.value);
    Text.IntToStringChars(e.value);
    assert '=' !in v;
    var parts := [show(e.key), v];
    assert Text.Join(parts, '=') == ElementString(e, show) by {
      assert Text.Join(parts[1..], '=') == v;
    }
    Text.SplitOfJoin(parts, '=');
    Text.ParseIntToString(e.value, lo, hi);
  }

  /** The text of every node of a chain, from the head. */
  function ElementStrings<K>(elems: seq<QElement<K>>, show: K -> string): (r: seq<string>)
    ensures |r| == |elems|
    ensures forall i :: 0 <= i < |r| ==> r[i] == ElementString(elems[i], show)
  {
    seq(|elems|, i requires 0 <= i < |elems| => ElementString(elems[i], show))
  }

  /** `UniquePriorityQueue.toString()`: `(empty)`, or the nodes' texts joined by commas. */
  function QueueString<K>(q: Queue<K>, show: K -> string): string
  {
    if q.elems == [] then "(empty)" else Text.Join(ElementStrings(q.elems, show), ',')
  }

  /**
   * A non-empty queue's text splits at commas into one piece per node, in
   * chain order, when no key prints with a comma.
   */
  lemma QueueStringParts<K>(q: Queue<K>, show: K -> string)
    requires q.elems != []
    requires forall e :: e in q.elems ==> ',' !in show(e.key)
    ensures Text.Split(QueueString(q, show), ',') == ElementStrings(q.elems, show)
  {
    var parts := ElementStrings(q.elems, show);
    forall i | 0 <= i < |parts|
      ensures ',' !in parts[i] && parts[i] != ""
    {
      var e := q.elems[i];
      assert e in q.elems;
      Text.IntToStringChars(e.value);
      var v := Text.IntToString(e.value);
      assert parts[i] == show(e.key) + "=" + v;
    }
    Text.SplitOfJoin(parts, ',');
  }
}
