/**
 * A fixed-capacity least-recently-used cache.
 *
 * The doubly linked list between its two sentinels is modelled by the
 * sequence of its entries, most recently used first; the sentinels carry no
 * key and are left implicit. The dictionary from key to node is modelled by
 * a map from key to value, since a node holds nothing else a caller can see.
 * The two are tied together by `Valid`, which every operation preserves.
 */
module LruCache {
  import opened Wrappers

  /** One node of the recency list: a key and the value stored under it. */
  datatype Entry<K, V> = Entry(key: K, value: V)

  /**
   * The cache: `order` is the recency list without its sentinels, most
   * recently used first; `index` is the dictionary; `capacity` is the size
   * fixed at construction.
   */
  datatype Cache<K, V> = Cache(order: seq<Entry<K, V>>, index: map<K, V>, capacity: nat)

  /** No key occurs twice in the list. */
  predicate DistinctKeys<K(==), V>(es: seq<Entry<K, V>>)
  {
    forall i, j :: 0 <= i < j < |es| ==> es[i].key != es[j].key
  }

  /** No node of the list carries `key`. */
  predicate Absent<K(==), V>(es: seq<Entry<K, V>>, key: K)
  {
    forall i :: 0 <= i < |es| ==> es[i].key != key
  }

  /**
   * The list and the dictionary agree: the list holds each key at most
   * once, every node's key is in the dictionary with the node's value, every
   * key of the dictionary has its node in the list, and the size never
   * exceeds a positive capacity.
   */
  predicate Valid<K(==), V(==)>(c: Cache<K, V>)
  {
    && c.capacity >= 1
    && |c.order| <= c.capacity
    && DistinctKeys(c.order)
    && (forall i :: 0 <= i < |c.order| ==> c.order[i].key in c.index && c.index[c.order[i].key] == c.order[i].value)
    && (forall k :: k in c.index ==> Entry(k, c.index[k]) in c.order)
  }

  /** A list of distinct keys, all in `s`, that meets every key of `s`, is as long as `s` is large. */
  lemma {:induction false} KeyCount<K, V>(es: seq<Entry<K, V>>, s: set<K>)
    requires DistinctKeys(es)
    requires forall i :: 0 <= i < |es| ==> es[i].key in s
    requires forall k :: k in s ==> exists i :: 0 <= i < |es| && es[i].key == k
    ensures |s| == |es|
    decreases |es|
  {
    if |es| == 0 {
      assert s == {};
    } else {
      var rest := es[1..];
      var k0 := es[0].key;
      forall k | k in s - {k0} ensures exists i :: 0 <= i < |rest| && rest[i].key == k {
        var i :| 0 <= i < |es| && es[i].key == k;
        assert rest[i - 1].key == k;
      }
      KeyCount(rest, s - {k0});
    }
  }

  /** The dictionary holds exactly as many keys as the list has nodes. */
  lemma IndexSize<K, V>(c: Cache<K, V>)
    requires Valid(c)
    ensures |c.index| == |c.order| <= c.capacity
  {
    forall k | k in c.index.Keys ensures exists i :: 0 <= i < |c.order| && c.order[i].key == k {
      var i :| 0 <= i < |c.order| && c.order[i] == Entry(k, c.index[k]);
    }
    KeyCount(c.order, c.index.Keys);
  }

  /** The list with the node of `key` unlinked. */
  function Without<K(==), V>(es: seq<Entry<K, V>>, key: K): (r: seq<Entry<K, V>>)
    ensures Absent(r, key)
    ensures forall e :: e in r ==> e in es
    decreases |es|
  {
    if |es| == 0 then []
    else
      var rest := Without(es[1..], key);
      if es[0].key == key then rest else [es[0]] + rest
  }

  /** Unlinking a key the list does not hold changes nothing. */
  lemma {:induction false} WithoutAbsent<K, V>(es: seq<Entry<K, V>>, key: K)
    requires Absent(es, key)
    ensures Without(es, key) == es
    decreases |es|
  {
    if |es| != 0 {
      WithoutAbsent(es[1..], key);
      assert es == [es[0]] + es[1..];
    }
  }

  /**
   * Unlinking the key of node `i` from a list of distinct keys removes that
   * node and nothing else: its neighbours are joined directly.
   */
  lemma {:induction false} WithoutAt<K, V>(es: seq<Entry<K, V>>, i: nat)
    requires DistinctKeys(es) && i < |es|
    ensures Without(es, es[i].key) == es[..i] + es[i + 1..]
    decreases i
  {
    var key := es[i].key;
    if i == 0 {
      WithoutAbsent(es[1..], key);
    } else {
      WithoutAt(es[1..], i - 1);
      assert es[..i] == [es[0]] + es[1..][..i - 1];
      assert es[i + 1..] == es[1..][i..];
    }
  }

  /** Removing one node keeps the keys distinct. */
  lemma RemoveAtDistinct<K, V>(es: seq<Entry<K, V>>, i: nat)
    requires DistinctKeys(es) && i < |es|
    ensures DistinctKeys(es[..i] + es[i + 1..])
  {
    var w := es[..i] + es[i + 1..];
    forall a, b | 0 <= a < b < |w| ensures w[a].key != w[b].key {
      var a' := if a < i then a else a + 1;
      var b' := if b < i then b else b + 1;
      assert w[a] == es[a'] && w[b] == es[b'];
    }
  }

  /** The list with `key` unlinked and relinked at the front, carrying `value`. */
  function Promote<K(==), V>(es: seq<Entry<K, V>>, key: K, value: V): seq<Entry<K, V>>
  {
    [Entry(key, value)] + Without(es, key)
  }

  /** Promoting the key already at the front of a list of distinct keys moves nothing. */
  lemma PromoteFront<K, V>(es: seq<Entry<K, V>>)
    requires DistinctKeys(es) && |es| > 0
    ensures Promote(es, es[0].key, es[0].value) == es
  {
    WithoutAt(es, 0);
    assert es == [es[0]] + es[1..];
  }

  /** A new, empty cache: the head sentinel links straight to the tail one. */
  function New<K(==), V(==)>(capacity: nat): (r: Cache<K, V>)
    requires capacity >= 1
    ensures Valid(r)
    ensures r.capacity == capacity && |r.index| == 0 && |r.order| == 0
  {
    Cache([], map[], capacity)
  }

  /**
   * Relinking the node of a present key at the front, with `value` stored
   * for it, keeps the list and the dictionary in agreement, keeps the
   * number of nodes, and leaves every other node in its relative order.
   */
  lemma PromoteValid<K, V>(c: Cache<K, V>, key: K, value: V)
    requires Valid(c) && key in c.index
    ensures var d := Cache(Promote(c.order, key, value), c.index[key := value], c.capacity);
            Valid(d) && |d.order| == |c.order| && Without(d.order, key) == Without(c.order, key)
  {
    var i :| 0 <= i < |c.order| && c.order[i] == Entry(key, c.index[key]);
    var w := c.order[..i] + c.order[i + 1..];
    var p := Promote(c.order, key, value);
    var m := c.index[key := value];
    WithoutAt(c.order, i);
    RemoveAtDistinct(c.order, i);
    assert p == [Entry(key, value)] + w;
    assert DistinctKeys(p) by {
      assert Absent(w, key);
    }
    forall j | 0 <= j < |p| ensures p[j].key in m && m[p[j].key] == p[j].value {
      if j > 0 {
        assert p[j] in c.order;
      }
    }
    forall k | k in m ensures Entry(k, m[k]) in p {
      if k != key {
        assert Entry(k, m[k]) in w;
      }
    }
    WithoutAbsent(w, key);
  }

  /**
   * Looks `key` up. A missing key gives None and leaves the cache as it is;
   * a present key gives its value and moves its node to the front, keeping
   * the dictionary and the relative order of every other node.
   */
  function Get<K(==), V(==)>(c: Cache<K, V>, key: K): (r: (Option<V>, Cache<K, V>))
    requires Valid(c)
    ensures Valid(r.1)
    ensures r.0.Some? <==> key in c.index
    ensures key !in c.index ==> r.1 == c
    ensures key in c.index ==> r.0 == Some(c.index[key]) && |r.1.order| > 0 && r.1.order[0].key == key
    ensures r.1.index == c.index && r.1.capacity == c.capacity && |r.1.order| == |c.order|
    ensures Without(r.1.order, key) == Without(c.order, key)
  {
    if key !in c.index then (None, c)
    else
      var value := c.index[key];
      PromoteValid(c, key, value);
      assert c.index[key := value] == c.index;
      (Some(value), c.(order := Promote(c.order, key, value)))
  }

  /** Looking up the key already at the front moves nothing. */
  lemma GetFront<K, V>(c: Cache<K, V>)
    requires Valid(c) && |c.order| > 0
    ensures Get(c, c.order[0].key) == (Some(c.order[0].value), c)
  {
    PromoteFront(c.order);
  }

  /**
   * Stores a new value for a present key and moves its node to the front;
   * the dictionary keeps its keys and every other node keeps its place.
   */
  function Update<K(==), V(==)>(c: Cache<K, V>, key: K, value: V): (r: Cache<K, V>)
    requires Valid(c) && key in c.index
    ensures Valid(r) && r.capacity == c.capacity
    ensures r.index.Keys == c.index.Keys && r.index[key] == value
    ensures forall k :: k in c.index && k != key ==> r.index[k] == c.index[k]
    ensures r.order[0] == Entry(key, value) && |r.order| == |c.order|
    ensures Without(r.order, key) == Without(c.order, key)
  {
    PromoteValid(c, key, value);
    Cache(Promote(c.order, key, value), c.index[key := value], c.capacity)
  }

  /** The list with a node for a new key linked at the front, and the dictionary gaining that key. */
  function Prepend<K(==), V>(c: Cache<K, V>, key: K, value: V): Cache<K, V>
  {
    Cache([Entry(key, value)] + c.order, c.index[key := value], c.capacity)
  }

  /** Linking a node for a new key at the front of a cache with room keeps the list and the dictionary in agreement. */
  lemma PrependValid<K, V>(c: Cache<K, V>, key: K, value: V)
    requires Valid(c) && key !in c.index && |c.index| < c.capacity
    ensures Valid(Prepend(c, key, value))
  {
    IndexSize(c);
    var r := Prepend(c, key, value);
    assert Absent(c.order, key);
    forall k | k in r.index ensures Entry(k, r.index[k]) in r.order {
      if k != key {
        assert Entry(k, c.index[k]) in c.order;
      }
    }
  }

  /** What linking a node for a new key at the front does to the list and the dictionary. */
  lemma PrependEffect<K, V>(c: Cache<K, V>, key: K, value: V)
    requires key !in c.index
    ensures var r := Prepend(c, key, value);
            && r.capacity == c.capacity
            && r.index.Keys == c.index.Keys + {key} && r.index[key] == value
            && (forall k :: k in c.index ==> r.index[k] == c.index[k])
            && r.order == [Entry(key, value)] + c.order
            && |r.index| == |c.index| + 1
  {
  }

  /**
   * Links a node for a new key at the front of a cache that is not full;
   * the dictionary gains exactly that key.
   */
  function Insertion<K(==), V(==)>(c: Cache<K, V>, key: K, value: V): (r: Cache<K, V>)
    requires Valid(c) && key !in c.index && |c.index| < c.capacity
    ensures Valid(r) && r.capacity == c.capacity
    ensures r.index.Keys == c.index.Keys + {key} && r.index[key] == value
    ensures forall k :: k in c.index ==> r.index[k] == c.index[k]
    ensures r.order == [Entry(key, value)] + c.order
    ensures |r.index| == |c.index| + 1
  {
    PrependValid(c, key, value);
    PrependEffect(c, key, value);
    Prepend(c, key, value)
  }

  /** The last node given a new key and value, and the dictionary trading its key for the new one. */
  function OverwriteLast<K(==), V>(c: Cache<K, V>, key: K, value: V): Cache<K, V>
    requires |c.order| > 0
  {
    var n := |c.order|;
    Cache(c.order[..n - 1] + [Entry(key, value)], (c.index - {c.order[n - 1].key})[key := value], c.capacity)
  }

  /** Overwriting the last node keeps the list and the dictionary in agreement. */
  lemma OverwriteLastValid<K, V>(c: Cache<K, V>, key: K, value: V)
    requires Valid(c) && key !in c.index && |c.order| > 0
    ensures Valid(OverwriteLast(c, key, value))
  {
    var n := |c.order|;
    var last := c.order[n - 1];
    var o := OverwriteLast(c, key, value).order;
    var m := OverwriteLast(c, key, value).index;
    assert forall i :: 0 <= i < n - 1 ==> o[i] == c.order[i];
    assert DistinctKeys(o) by {
      assert forall i :: 0 <= i < n ==> c.order[i].key != key;
    }
    assert forall i :: 0 <= i < |o| ==> o[i].key in m && m[o[i].key] == o[i].value;
    forall k | k in m ensures Entry(k, m[k]) in o {
      if k != key {
        var i :| 0 <= i < n && c.order[i] == Entry(k, c.index[k]);
        assert o[i] == c.order[i];
      } else {
        assert o[n - 1] == Entry(key, value);
      }
    }
  }

  /** What overwriting the last node of a full cache does to its list and dictionary. */
  lemma OverwriteLastEffect<K, V>(c: Cache<K, V>, key: K, value: V)
    requires Valid(c) && key !in c.index && |c.index| == c.capacity
    ensures var r := OverwriteLast(c, key, value);
            var evicted := c.order[|c.order| - 1].key;
            && Valid(r) && r.capacity == c.capacity && |r.order| == |c.order| > 0
            && r.index.Keys == c.index.Keys - {evicted} + {key}
            && evicted != key && evicted in c.index && evicted !in r.index
            && r.index[key] == value
            && (forall k :: k in r.index && k != key ==> r.index[k] == c.index[k])
            && r.order[|r.order| - 1] == Entry(key, value)
            && r.order[..|r.order| - 1] == c.order[..|c.order| - 1]
            && |r.index| == |c.index|
  {
    IndexSize(c);
    var r := OverwriteLast(c, key, value);
    OverwriteLastValid(c, key, value);
    IndexSize(r);
    assert r.order[..|c.order| - 1] == c.order[..|c.order| - 1];
  }

  /**
   * Evicts from a full cache: the last, least recently used node loses its
   * key and is given the new key and value where it stands, so the new key
   * sits at the least recently used end and every other node keeps its
   * place. The dictionary trades the evicted key for the new one.
   */
  function Replace<K(==), V(==)>(c: Cache<K, V>, key: K, value: V): (r: Cache<K, V>)
    requires Valid(c) && key !in c.index && |c.index| == c.capacity
    ensures Valid(r) && r.capacity == c.capacity && |r.order| == |c.order| > 0
    ensures var evicted := c.order[|c.order| - 1].key;
            && r.index.Keys == c.index.Keys - {evicted} + {key}
            && evicted != key && evicted in c.index && evicted !in r.index
    ensures r.index[key] == value
    ensures forall k :: k in r.index && k != key ==> r.index[k] == c.index[k]
    ensures r.order[|r.order| - 1] == Entry(key, value)
    ensures r.order[..|r.order| - 1] == c.order[..|c.order| - 1]
    ensures |r.index| == |c.index|
  {
    OverwriteLastEffect(c, key, value);
    OverwriteLast(c, key, value)
  }

  /**
   * Stores `value` under `key`. A present key is updated and moved to the
   * front; a new key is linked at the front while there is room, and
   * otherwise takes over the least recently used node.
   */
  function Put<K(==), V(==)>(c: Cache<K, V>, key: K, value: V): (r: Cache<K, V>)
    requires Valid(c)
    ensures Valid(r) && r.capacity == c.capacity
    ensures key in r.index && r.index[key] == value
    ensures |r.index| == if key in c.index || |c.index| == c.capacity then |c.index| else |c.index| + 1
    ensures forall k :: k in r.index && k != key ==> k in c.index && r.index[k] == c.index[k]
    ensures forall k :: k in c.index && k !in r.index ==>
              key !in c.index && |c.index| == c.capacity && |c.order| > 0 && k == c.order[|c.order| - 1].key
    ensures key in c.index ==>
              |r.order| == |c.order| && |r.order| > 0 && r.order[0] == Entry(key, value)
              && Without(r.order, key) == Without(c.order, key)
    ensures key !in c.index && |c.index| < c.capacity ==> r.order == [Entry(key, value)] + c.order
    ensures key !in c.index && |c.index| == c.capacity ==>
              && |r.order| == |c.order| > 0
              && r.order[..|r.order| - 1] == c.order[..|c.order| - 1]
              && r.order[|r.order| - 1] == Entry(key, value)
  {
    IndexSize(c);
    if |c.index| == c.capacity then
      if key in c.index then Update(c, key, value) else Replace(c, key, value)
    else
      if key in c.index then Update(c, key, value) else Insertion(c, key, value)
  }

  /**
   * Unlinking the node of a present key and dropping its dictionary entry
   * keeps the two in agreement; the node is removed from where it stood.
   */
  lemma UnlinkValid<K, V>(c: Cache<K, V>, key: K)
    requires Valid(c) && key in c.index
    ensures Valid(Cache(Without(c.order, key), c.index - {key}, c.capacity))
    ensures exists i :: 0 <= i < |c.order| && c.order[i].key == key && Without(c.order, key) == c.order[..i] + c.order[i + 1..]
  {
    var i :| 0 <= i < |c.order| && c.order[i] == Entry(key, c.index[key]);
    WithoutAt(c.order, i);
    RemoveAtDistinct(c.order, i);
    var r := Cache(Without(c.order, key), c.index - {key}, c.capacity);
    forall k | k in r.index ensures Entry(k, r.index[k]) in r.order {
      assert Entry(k, c.index[k]) in c.order;
    }
  }

  /**
   * Removes `key`: a missing key leaves the cache as it is; a present key
   * has its node unlinked, its neighbours joined, and its dictionary entry
   * dropped, and nothing else changes.
   */
  function Delete<K(==), V(==)>(c: Cache<K, V>, key: K): (r: Cache<K, V>)
    requires Valid(c)
    ensures Valid(r) && r.capacity == c.capacity && key !in r.index
    ensures key !in c.index ==> r == c
    ensures key in c.index ==> |r.index| == |c.index| - 1
    ensures r.index.Keys == c.index.Keys - {key}
    ensures forall k :: k in r.index ==> r.index[k] == c.index[k]
    ensures key in c.index ==>
              exists i :: 0 <= i < |c.order| && c.order[i].key == key && r.order == c.order[..i] + c.order[i + 1..]
  {
    if key !in c.index then c
    else
      var r := Cache(Without(c.order, key), c.index - {key}, c.capacity);
      UnlinkValid(c, key);
      IndexSize(c);
      IndexSize(r);
      r
  }

  /**
   * The contents walked from the front to the back, most recently used
   * first: every key of the dictionary exactly once, with its value.
   */
  function Listing<K(==), V(==)>(c: Cache<K, V>): (r: seq<(K, V)>)
    requires Valid(c)
    ensures |r| == |c.order| && forall i :: 0 <= i < |r| ==> r[i] == (c.order[i].key, c.order[i].value)
    ensures |r| == |c.index|
    ensures forall i :: 0 <= i < |r| ==> r[i].0 in c.index && c.index[r[i].0] == r[i].1
    ensures forall k :: k in c.index ==> (k, c.index[k]) in r
    ensures forall i, j :: 0 <= i < j < |r| ==> r[i].0 != r[j].0
  {
    IndexSize(c);
    var r := seq(|c.order|, i requires 0 <= i < |c.order| => (c.order[i].key, c.order[i].value));
    assert forall k :: k in c.index ==> (k, c.index[k]) in r by {
      forall k | k in c.index ensures (k, c.index[k]) in r {
        var i :| 0 <= i < |c.order| && c.order[i] == Entry(k, c.index[k]);
        assert r[i] == (k, c.index[k]);
      }
    }
    r
  }

  /** Looking the same key up twice gives the same value and leaves the cache as the first lookup did. */
  lemma GetTwice<K, V>(c: Cache<K, V>, key: K)
    requires Valid(c)
    ensures Get(Get(c, key).1, key) == Get(c, key)
  {
    var d := Get(c, key).1;
    if key in c.index {
      GetFront(d);
    }
  }

  /** A value just stored is the value a lookup of its key returns. */
  lemma PutThenGet<K, V>(c: Cache<K, V>, key: K, value: V)
    requires Valid(c)
    ensures Get(Put(c, key, value), key).0 == Some(value)
  {
  }

  /** Deleting a key twice is deleting it once. */
  lemma DeleteTwice<K, V>(c: Cache<K, V>, key: K)
    requires Valid(c)
    ensures Delete(Delete(c, key), key) == Delete(c, key)
  {
  }

  /**
   * Deleting a key from a full cache frees a slot: a new key put afterwards
   * evicts nothing, and the cache is full again.
   */
  lemma DeleteFreesCapacity<K, V>(c: Cache<K, V>, key: K, other: K, value: V)
    requires Valid(c) && |c.index| == c.capacity && key in c.index
    requires other !in Delete(c, key).index
    ensures Delete(c, key).index.Keys <= Put(Delete(c, key), other, value).index.Keys
    ensures |Put(Delete(c, key), other, value).index| == c.capacity
  {
  }

  /**
   * A new key put into a full cache takes the least recently used place, so
   * the next new key put evicts it at once; it does not become the most
   * recently used entry.
   */
  lemma ReplacedKeyIsNextVictim<K, V>(c: Cache<K, V>, a: K, va: V, b: K, vb: V)
    requires Valid(c) && |c.index| == c.capacity
    requires a !in c.index && b !in c.index && a != b
    ensures a in Put(c, a, va).index
    ensures a !in Put(Put(c, a, va), b, vb).index
  {
    var c1 := Put(c, a, va);
    IndexSize(c1);
    assert c1.order[|c1.order| - 1].key == a;
  }

  /** One step of a trace: a new key put into a cache with room goes to the front. */
  lemma PutFresh<K, V>(c: Cache<K, V>, key: K, value: V)
    requires Valid(c) && key !in c.index && |c.index| < c.capacity
    ensures var r := Put(c, key, value);
            && Valid(r) && r.capacity == c.capacity
            && r.order == [Entry(key, value)] + c.order && r.index.Keys == c.index.Keys + {key}
  {
  }

  /** The listing of a cache with two nodes. */
  lemma ListingOfTwo<K, V>(c: Cache<K, V>, k1: K, v1: V, k2: K, v2: V)
    requires Valid(c) && c.order == [Entry(k1, v1), Entry(k2, v2)]
    ensures Listing(c) == [(k1, v1), (k2, v2)]
  {
  }

  /** The listing of a cache with three nodes. */
  lemma ListingOfThree<K, V>(c: Cache<K, V>, k1: K, v1: V, k2: K, v2: V, k3: K, v3: V)
    requires Valid(c) && c.order == [Entry(k1, v1), Entry(k2, v2), Entry(k3, v3)]
    ensures Listing(c) == [(k1, v1), (k2, v2), (k3, v3)]
  {
  }

  /** A second new key put into a cache of one node with room for more goes in front of it. */
  lemma PutSecond<K, V>(c: Cache<K, V>, k1: K, v1: V, k2: K, v2: V)
    requires Valid(c) && c.capacity == 3 && c.order == [Entry(k1, v1)] && c.index.Keys == {k1} && k1 != k2
    ensures var r := Put(c, k2, v2);
            && Valid(r) && r.capacity == 3 && r.order == [Entry(k2, v2), Entry(k1, v1)] && r.index.Keys == {k1, k2}
  {
    IndexSize(c);
    PutFresh(c, k2, v2);
  }

  /** A third new key put into a cache of two nodes with room for one more goes in front of them. */
  lemma PutThird<K, V>(c: Cache<K, V>, k1: K, v1: V, k2: K, v2: V, k3: K, v3: V)
    requires Valid(c) && c.capacity == 3 && c.order == [Entry(k2, v2), Entry(k1, v1)] && c.index.Keys == {k1, k2}
    requires k3 != k1 && k3 != k2
    ensures var r := Put(c, k3, v3);
            && Valid(r) && r.capacity == 3 && r.index.Keys == {k1, k2, k3}
            && r.order == [Entry(k3, v3), Entry(k2, v2), Entry(k1, v1)]
  {
    IndexSize(c);
    PutFresh(c, k3, v3);
  }

  /** Three distinct keys put into a new cache of three, the last one first. */
  lemma FillThree<K, V>(k1: K, v1: V, k2: K, v2: V, k3: K, v3: V)
    requires k1 != k2 && k1 != k3 && k2 != k3
    ensures var c3 := Put(Put(Put(New(3), k1, v1), k2, v2), k3, v3);
            && Valid(c3) && c3.capacity == 3 && c3.index.Keys == {k1, k2, k3}
            && c3.order == [Entry(k3, v3), Entry(k2, v2), Entry(k1, v1)]
  {
    var c0: Cache<K, V> := New(3);
    PutFresh(c0, k1, v1);
    var c1 := Put(c0, k1, v1);
    PutSecond(c1, k1, v1, k2, v2);
    PutThird(Put(c1, k2, v2), k1, v1, k2, v2, k3, v3);
  }

  /** Deleting the middle key of three leaves the other two in their order. */
  lemma DeleteMiddle<K, V>(c: Cache<K, V>, k1: K, v1: V, k2: K, v2: V, k3: K, v3: V)
    requires Valid(c) && c.order == [Entry(k1, v1), Entry(k2, v2), Entry(k3, v3)]
    ensures Valid(Delete(c, k2)) && Delete(c, k2).order == [Entry(k1, v1), Entry(k3, v3)]
  {
    WithoutAt(c.order, 1);
  }

  /**
   * The module's own usage, for any three distinct keys: a cache of three
   * takes three keys, loses the second by deletion, and lists the third
   * before the first.
   */
  lemma UsageExample<K, V>(k1: K, v1: V, k2: K, v2: V, k3: K, v3: V)
    requires k1 != k2 && k1 != k3 && k2 != k3
    ensures var c3 := Put(Put(Put(New(3), k1, v1), k2, v2), k3, v3);
            Listing(Delete(c3, k2)) == [(k3, v3), (k1, v1)]
  {
    var c3 := Put(Put(Put(New(3), k1, v1), k2, v2), k3, v3);
    FillThree(k1, v1, k2, v2, k3, v3);
    DeleteMiddle(c3, k3, v3, k2, v2, k1, v1);
    ListingOfTwo(Delete(c3, k2), k3, v3, k1, v1);
  }

  /** Looking up the last of three keys moves it to the front. */
  lemma GetLast<K, V>(c: Cache<K, V>, k1: K, v1: V, k2: K, v2: V, k3: K, v3: V)
    requires Valid(c) && c.order == [Entry(k1, v1), Entry(k2, v2), Entry(k3, v3)]
    ensures Get(c, k3).0 == Some(v3)
    ensures Valid(Get(c, k3).1) && Get(c, k3).1.order == [Entry(k3, v3), Entry(k1, v1), Entry(k2, v2)]
  {
    WithoutAt(c.order, 2);
  }

  /** A new key put into a full cache of three takes the place of the last key. */
  lemma PutOverLast<K, V>(c: Cache<K, V>, k1: K, v1: V, k2: K, v2: V, k3: K, v3: V, k4: K, v4: V)
    requires Valid(c) && c.capacity == 3 && c.order == [Entry(k1, v1), Entry(k2, v2), Entry(k3, v3)]
    requires k4 !in c.index
    ensures Valid(Put(c, k4, v4)) && Put(c, k4, v4).order == [Entry(k1, v1), Entry(k2, v2), Entry(k4, v4)]
  {
    IndexSize(c);
    var r := Put(c, k4, v4);
    assert r.order[..2] == c.order[..2];
  }

  /**
   * A longer trace, for any four distinct keys, with eviction as this code
   * does it: after three puts and a lookup of the first key, a fourth key
   * evicts the least recently used second key and takes its place at the
   * back; deleting the third key then leaves the first and the fourth, and
   * the third is no longer found.
   */
  lemma EvictionExample<K, V>(k1: K, v1: V, k2: K, v2: V, k3: K, v3: V, k4: K, v4: V)
    requires k1 != k2 && k1 != k3 && k1 != k4 && k2 != k3 && k2 != k4 && k3 != k4
    ensures var c3 := Put(Put(Put(New(3), k1, v1), k2, v2), k3, v3);
            var c4 := Get(c3, k1).1;
            var c5 := Put(c4, k4, v4);
            var c6 := Delete(c5, k3);
            && Get(c3, k1).0 == Some(v1)
            && Listing(c4) == [(k1, v1), (k3, v3), (k2, v2)]
            && Listing(c5) == [(k1, v1), (k3, v3), (k4, v4)]
            && Listing(c6) == [(k1, v1), (k4, v4)]
            && Get(c6, k3).0 == None
  {
    var c3 := Put(Put(Put(New(3), k1, v1), k2, v2), k3, v3);
    FillThree(k1, v1, k2, v2, k3, v3);
    GetLast(c3, k3, v3, k2, v2, k1, v1);
    var c4 := Get(c3, k1).1;
    ListingOfThree(c4, k1, v1, k3, v3, k2, v2);
    PutOverLast(c4, k1, v1, k3, v3, k2, v2, k4, v4);
    var c5 := Put(c4, k4, v4);
    ListingOfThree(c5, k1, v1, k3, v3, k4, v4);
    DeleteMiddle(c5, k1, v1, k3, v3, k4, v4);
    ListingOfTwo(Delete(c5, k3), k1, v1, k4, v4);
  }
}
