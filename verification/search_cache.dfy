/** The `SearchCache` class of searchUtils.js: a bounded cache of search
    results kept in a JavaScript `Map`, whose iteration order is insertion
    order. The map is modelled as its sequence of entries in that order.

    `get` tests the stored value for truthiness; the cached values are
    result arrays, which are always truthy, so a stored value is always a
    hit here. */
module SearchCache {
  import opened Wrappers
  import Seqs

  /** The default of the constructor's `maxSize` parameter. */
  const DefaultMaxSize: int := 50

  datatype Entry<K, V> = Entry(key: K, value: V)

  datatype Cache<K, V> = Cache(entries: seq<Entry<K, V>>, maxSize: int)

  /** `new SearchCache(maxSize)`; `new SearchCache()` uses the default. */
  function NewCache<K, V>(maxSize: int := DefaultMaxSize): (c: Cache<K, V>)
    ensures c.entries == [] && c.maxSize == maxSize
  {
    Cache([], maxSize)
  }

  /** A `Map` never holds a key twice. */
  predicate UniqueKeys<K(==), V>(es: seq<Entry<K, V>>) {
    forall i, j :: 0 <= i < j < |es| ==> es[i].key != es[j].key
  }

  predicate Valid<K(==), V>(c: Cache<K, V>) {
    UniqueKeys(c.entries)
  }

  /** Position of the entry for `k`, or -1. */
  function KeyIndex<K(==), V>(es: seq<Entry<K, V>>, k: K): (r: int)
    ensures -1 <= r < |es|
    ensures r >= 0 ==> es[r].key == k && forall i :: 0 <= i < r ==> es[i].key != k
    ensures r == -1 <==> forall i :: 0 <= i < |es| ==> es[i].key != k
  {
    if |es| == 0 then -1
    else if es[0].key == k then 0
    else
      var r := KeyIndex(es[1..], k);
      assert forall i :: 0 < i < |es| ==> es[i] == es[1..][i - 1];
      if r == -1 then -1 else r + 1
  }

  /** `Map.prototype.get`. */
  function Lookup<K(==), V>(es: seq<Entry<K, V>>, k: K): (r: Option<V>)
    ensures r.None? <==> forall i :: 0 <= i < |es| ==> es[i].key != k
    ensures r.Some? ==> exists i :: 0 <= i < |es| && es[i] == Entry(k, r.value)
  {
    var i := KeyIndex(es, k);
    if i < 0 then None else Some(es[i].value)
  }

  /** `Map.prototype.delete`. */
  function Remove<K(==), V>(es: seq<Entry<K, V>>, k: K): (r: seq<Entry<K, V>>)
    ensures forall i :: 0 <= i < |r| ==> r[i].key != k
    ensures multiset(r) <= multiset(es)
  {
    Seqs.Filter((e: Entry<K, V>) => e.key != k, es)
  }

  /** `Map.prototype.set`: an existing key keeps its position and gets the
      new value; a new key goes to the end. */
  function Put<K(==), V>(es: seq<Entry<K, V>>, k: K, v: V): (r: seq<Entry<K, V>>)
    ensures (forall i :: 0 <= i < |es| ==> es[i].key != k) ==> r == es + [Entry(k, v)]
    ensures UniqueKeys(es) && (exists i :: 0 <= i < |es| && es[i].key == k) ==>
              && |r| == |es|
              && forall i :: 0 <= i < |es| ==> r[i] == if es[i].key == k then Entry(k, v) else es[i]
  {
    var i := KeyIndex(es, k);
    if i < 0 then es + [Entry(k, v)] else es[i := Entry(k, v)]
  }

  /** `cache.get(key)`: the stored value, or None for `null`; a hit moves
      the entry to the end, which makes it the most recently used. */
  function Get<K(==), V>(c: Cache<K, V>, k: K): (r: (Option<V>, Cache<K, V>))
    ensures r.0 == Lookup(c.entries, k)
    ensures r.0.None? ==> r.1 == c
    ensures r.0.Some? ==> r.1.entries == Remove(c.entries, k) + [Entry(k, r.0.value)]
    ensures r.1.maxSize == c.maxSize
  {
    match Lookup(c.entries, k)
    case None => (None, c)
    case Some(item) =>
      var rest := Remove(c.entries, k);
      assert KeyIndex(rest, k) == -1;
      (Some(item), Cache(Put(rest, k, item), c.maxSize))
  }

  /** The key `set` evicts before storing, if any: the first key in
      insertion order once the cache holds `maxSize` entries. */
  function Evicted<K, V>(c: Cache<K, V>): Option<K> {
    if |c.entries| >= c.maxSize && |c.entries| > 0 then Some(c.entries[0].key) else None
  }

  /** `cache.set(key, value)` as written: at capacity the first entry is
      dropped, even when `key` is already stored. When the cache is empty
      `keys().next().value` is undefined and the `delete` does nothing. */
  function Set<K(==), V>(c: Cache<K, V>, k: K, v: V): (r: Cache<K, V>)
    ensures Lookup(r.entries, k) == Some(v)
    ensures r.maxSize == c.maxSize
  {
    var kept := if Evicted(c).Some? then c.entries[1..] else c.entries;
    LookupPut(kept, k, v, k);
    Cache(Put(kept, k, v), c.maxSize)
  }

  /** Where `set` leaves each entry. After the at-capacity eviction of the
      first entry, a key not yet stored is appended after the surviving
      entries in their order; a stored key keeps its position, takes the
      new value, and every other entry stays where it was. */
  lemma SetOrder<K, V>(c: Cache<K, V>, k: K, v: V)
    requires Valid(c)
    ensures var kept := if Evicted(c).Some? then c.entries[1..] else c.entries;
            var r := Set(c, k, v).entries;
            && ((forall i :: 0 <= i < |kept| ==> kept[i].key != k) ==> r == kept + [Entry(k, v)])
            && ((exists i :: 0 <= i < |kept| && kept[i].key == k) ==>
                  && |r| == |kept|
                  && forall i :: 0 <= i < |kept| ==> r[i] == if kept[i].key == k then Entry(k, v) else kept[i])
  {
    if Evicted(c).Some? {
      UniqueKeysTail(c.entries);
    }
  }

  /** `cache.clear()`. */
  function Clear<K, V>(c: Cache<K, V>): (r: Cache<K, V>)
    ensures r.entries == [] && r.maxSize == c.maxSize
  {
    Cache([], c.maxSize)
  }

  /** The first entry with key `k` is the one `KeyIndex` finds. */
  lemma KeyIndexIsFirst<K, V>(es: seq<Entry<K, V>>, k: K, n: int)
    requires 0 <= n < |es| && es[n].key == k
    requires forall i :: 0 <= i < n ==> es[i].key != k
    ensures KeyIndex(es, k) == n
  {
    var m := KeyIndex(es, k);
    assert m != -1 by { assert es[n].key == k; }
  }

  /** Storing `v` under `k` changes the lookup of `k` only. */
  lemma LookupPut<K, V>(es: seq<Entry<K, V>>, k: K, v: V, j: K)
    ensures Lookup(Put(es, k, v), j) == if j == k then Some(v) else Lookup(es, j)
  {
    var i := KeyIndex(es, k);
    var r := Put(es, k, v);
    var n := KeyIndex(es, j);
    assert forall m :: 0 <= m < |es| && m != i ==> r[m] == es[m];
    if j == k {
      if i < 0 {
        KeyIndexIsFirst(r, j, |es|);
      } else {
        KeyIndexIsFirst(r, j, i);
      }
    } else if n >= 0 {
      KeyIndexIsFirst(r, j, n);
    } else {
      assert forall m :: 0 <= m < |r| ==> r[m].key != j;
    }
  }

  /** Deleting `k` changes the lookup of `k` only. */
  lemma {:induction false} LookupRemove<K, V>(es: seq<Entry<K, V>>, k: K, j: K)
    ensures Lookup(Remove(es, k), j) == if j == k then None else Lookup(es, j)
  {
    if |es| > 0 && j != k {
      var tail := Remove(es[1..], k);
      LookupRemove(es[1..], k, j);
      LookupCons(es[0], es[1..], j);
      assert [es[0]] + es[1..] == es;
      if es[0].key == k {
        assert Remove(es, k) == tail;
      } else {
        assert Remove(es, k) == [es[0]] + tail;
        LookupCons(es[0], tail, j);
      }
    }
  }

  /** Looking up past a first entry with another key looks in the rest. */
  lemma LookupCons<K, V>(e: Entry<K, V>, es: seq<Entry<K, V>>, j: K)
    ensures Lookup([e] + es, j) == if e.key == j then Some(e.value) else Lookup(es, j)
  {
    var s := [e] + es;
    if e.key != j {
      var n := KeyIndex(es, j);
      if n >= 0 {
        KeyIndexIsFirst(s, j, n + 1);
      } else {
        assert forall i :: 0 < i < |s| ==> s[i] == es[i - 1];
      }
    }
  }

  /** Dropping the first entry of a cache without duplicate keys forgets
      that entry's key and nothing else. */
  lemma LookupDropFirst<K, V>(es: seq<Entry<K, V>>, j: K)
    requires |es| > 0 && UniqueKeys(es)
    ensures Lookup(es[1..], j) == if j == es[0].key then None else Lookup(es, j)
  {
    if j != es[0].key {
      var n := KeyIndex(es[1..], j);
      if n >= 0 {
        assert KeyIndex(es, j) == n + 1;
      }
    }
  }

  lemma PutKeepsUniqueKeys<K, V>(es: seq<Entry<K, V>>, k: K, v: V)
    requires UniqueKeys(es)
    ensures UniqueKeys(Put(es, k, v))
  {
  }

  lemma RemoveKeepsUniqueKeys<K, V>(es: seq<Entry<K, V>>, k: K)
    requires UniqueKeys(es)
    ensures UniqueKeys(Remove(es, k))
  {
    var r := Remove(es, k);
    Seqs.FilterIsSubseq((e: Entry<K, V>) => e.key != k, es);
    SubseqKeepsUniqueKeys(r, es);
  }

  lemma {:induction false} SubseqKeepsUniqueKeys<K, V>(a: seq<Entry<K, V>>, b: seq<Entry<K, V>>)
    requires Seqs.IsSubseq(a, b) && UniqueKeys(b)
    ensures UniqueKeys(a)
    ensures forall i :: 0 <= i < |a| ==> a[i] in b
  {
    if |a| > 0 && |b| > 0 {
      assert forall i :: 0 < i < |b| ==> b[i] == b[1..][i - 1];
      if a[0] == b[0] {
        SubseqKeepsUniqueKeys(a[1..], b[1..]);
        forall i | 0 < i < |a|
          ensures a[0].key != a[i].key
        {
          assert a[i] == a[1..][i - 1];
          var n :| 0 <= n < |b[1..]| && b[1..][n] == a[i];
          assert b[n + 1] == a[i];
        }
        assert forall i :: 0 < i < |a| ==> a[i] == a[1..][i - 1];
      } else {
        SubseqKeepsUniqueKeys(a, b[1..]);
      }
    }
  }

  /** A hit keeps every stored value and every key; only the order changes. */
  lemma GetPreservesContents<K, V>(c: Cache<K, V>, k: K, j: K)
    ensures Lookup(Get(c, k).1.entries, j) == Lookup(c.entries, j)
  {
    var found := Lookup(c.entries, k);
    if found.Some? {
      var rest := Remove(c.entries, k);
      LookupRemove(c.entries, k, j);
      LookupPut(rest, k, found.value, j);
    }
  }

  /** `get` keeps a well-formed cache well-formed and never changes its size. */
  lemma GetKeepsValid<K, V>(c: Cache<K, V>, k: K)
    requires Valid(c)
    ensures Valid(Get(c, k).1)
    ensures |Get(c, k).1.entries| == |c.entries|
  {
    var found := Lookup(c.entries, k);
    if found.Some? {
      var rest := Remove(c.entries, k);
      RemoveKeepsUniqueKeys(c.entries, k);
      PutKeepsUniqueKeys(rest, k, found.value);
      RemoveOneKey(c.entries, k);
    }
  }

  /** In a cache without duplicate keys a stored key occupies exactly one entry. */
  lemma {:induction false} RemoveOneKey<K, V>(es: seq<Entry<K, V>>, k: K)
    requires UniqueKeys(es) && Lookup(es, k).Some?
    ensures |Remove(es, k)| == |es| - 1
  {
    if es[0].key == k {
      assert Remove(es, k) == Remove(es[1..], k);
      HeadKeyNotInTail(es);
      RemoveAbsent(es[1..], k);
    } else {
      assert Remove(es, k) == [es[0]] + Remove(es[1..], k);
      UniqueKeysTail(es);
      LookupTail(es, k);
      RemoveOneKey(es[1..], k);
    }
  }

  lemma HeadKeyNotInTail<K, V>(es: seq<Entry<K, V>>)
    requires UniqueKeys(es) && |es| > 0
    ensures forall i :: 0 <= i < |es[1..]| ==> es[1..][i].key != es[0].key
  {
    assert forall i :: 0 <= i < |es[1..]| ==> es[1..][i] == es[i + 1];
  }

  lemma UniqueKeysTail<K, V>(es: seq<Entry<K, V>>)
    requires UniqueKeys(es) && |es| > 0
    ensures UniqueKeys(es[1..])
  {
    assert forall i :: 0 <= i < |es[1..]| ==> es[1..][i] == es[i + 1];
  }

  /** A key stored past the first entry is stored in the tail. */
  lemma LookupTail<K, V>(es: seq<Entry<K, V>>, k: K)
    requires Lookup(es, k).Some? && es[0].key != k
    ensures Lookup(es[1..], k).Some?
  {
    var j :| 0 <= j < |es| && es[j].key == k;
    assert es[1..][j - 1] == es[j];
  }

  lemma {:induction false} RemoveAbsent<K, V>(es: seq<Entry<K, V>>, k: K)
    requires forall i :: 0 <= i < |es| ==> es[i].key != k
    ensures Remove(es, k) == es
  {
    if |es| > 0 {
      assert forall i :: 0 < i < |es| ==> es[i] == es[1..][i - 1];
      RemoveAbsent(es[1..], k);
      assert es == [es[0]] + es[1..];
    }
  }

  /** `set` keeps a well-formed cache well-formed, and a cache that holds
      at most `maxSize` entries (with `maxSize` at least 1) keeps doing so. */
  lemma SetKeepsValid<K, V>(c: Cache<K, V>, k: K, v: V)
    requires Valid(c)
    ensures Valid(Set(c, k, v))
    ensures 1 <= c.maxSize && |c.entries| <= c.maxSize ==> |Set(c, k, v).entries| <= c.maxSize
  {
    var kept := if Evicted(c).Some? then c.entries[1..] else c.entries;
    assert UniqueKeys(kept);
    PutKeepsUniqueKeys(kept, k, v);
  }

  /** What `set` does to every other key, as written: it is forgotten if it
      was the evicted first key and keeps its value otherwise. */
  lemma SetFrame<K, V>(c: Cache<K, V>, k: K, v: V, j: K)
    requires Valid(c) && j != k
    ensures Lookup(Set(c, k, v).entries, j) == if Evicted(c) == Some(j) then None else Lookup(c.entries, j)
  {
    var kept := if Evicted(c).Some? then c.entries[1..] else c.entries;
    LookupPut(kept, k, v, j);
    if Evicted(c).Some? {
      LookupDropFirst(c.entries, j);
    }
  }

  /** As written, `set` at capacity evicts the oldest entry even when the
      key is already stored and the map would not grow: overwriting key 2
      in the full cache [1, 2] of size 2 forgets key 1. */
  lemma SetEvictsOnOverwrite()
    ensures var c := Cache([Entry(1, 10), Entry(2, 20)], 2);
            && Valid(c)
            && Lookup(c.entries, 1) == Some(10)
            && Lookup(c.entries, 2).Some?
            && Lookup(Set(c, 2, 30).entries, 1) == None
            && |Set(c, 2, 30).entries| == 1
  {
    var c := Cache([Entry(1, 10), Entry(2, 20)], 2);
    assert Lookup(c.entries, 2) == Some(20);
    assert c.entries[1..] == [Entry(2, 20)];
    assert Set(c, 2, 30).entries == [Entry(2, 30)];
  }

  /** `set` evicting only when a new key would push the cache past its
      capacity. */
  function SetFixed<K(==), V>(c: Cache<K, V>, k: K, v: V): (r: Cache<K, V>)
    ensures Lookup(r.entries, k) == Some(v)
    ensures r.maxSize == c.maxSize
  {
    var kept := if Evicted(c).Some? && Lookup(c.entries, k).None? then c.entries[1..] else c.entries;
    LookupPut(kept, k, v, k);
    Cache(Put(kept, k, v), c.maxSize)
  }

  /** The corrected `set` forgets another key only when it had to make room
      for a new one, keeps the cache well-formed, and keeps it within a
      capacity of at least 1. */
  lemma SetFixedFrame<K, V>(c: Cache<K, V>, k: K, v: V, j: K)
    requires Valid(c) && j != k
    ensures Lookup(SetFixed(c, k, v).entries, j)
         == if Evicted(c) == Some(j) && Lookup(c.entries, k).None? then None else Lookup(c.entries, j)
    ensures Valid(SetFixed(c, k, v))
    ensures 1 <= c.maxSize && |c.entries| <= c.maxSize ==> |SetFixed(c, k, v).entries| <= c.maxSize
  {
    var evict := Evicted(c).Some? && Lookup(c.entries, k).None?;
    var kept := if evict then c.entries[1..] else c.entries;
    LookupPut(kept, k, v, j);
    if evict {
      LookupDropFirst(c.entries, j);
    }
    assert UniqueKeys(kept);
    PutKeepsUniqueKeys(kept, k, v);
  }

  /** Overwriting a stored key with the corrected `set` keeps every other
      entry. */
  lemma SetFixedOverwriteKeepsOthers<K, V>(c: Cache<K, V>, k: K, v: V, j: K)
    requires Valid(c) && Lookup(c.entries, k).Some? && j != k
    ensures Lookup(SetFixed(c, k, v).entries, j) == Lookup(c.entries, j)
    ensures |SetFixed(c, k, v).entries| == |c.entries|
  {
    SetFixedFrame(c, k, v, j);
  }
}
