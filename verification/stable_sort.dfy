/** The ordering used by both `sortByRelevance` functions, and a stable
    sort with respect to it. `Array.prototype.sort` is stable, so elements
    whose comparator returns 0 keep their input order; an insertion sort is
    a faithful model of that observable behaviour. */
module StableSort {
  import Text

  /** What the comparators look at: the relevance score (higher first), a
      kind rank (lower first) and a name (ascending). */
  datatype SortKey = SortKey(score: int, rank: int, name: string)

  /** `a` sorts strictly before `b`: the comparator returns a negative number. */
  predicate Precedes(a: SortKey, b: SortKey) {
    || a.score > b.score
    || (a.score == b.score && a.rank < b.rank)
    || (a.score == b.score && a.rank == b.rank && Text.StrLess(a.name, b.name))
  }

  lemma PrecedesIrreflexive(a: SortKey)
    ensures !Precedes(a, a)
  {
    Text.StrLessIrreflexive(a.name);
  }

  lemma PrecedesTransitive(a: SortKey, b: SortKey, c: SortKey)
    requires Precedes(a, b) && Precedes(b, c)
    ensures Precedes(a, c)
  {
    if a.score == b.score == c.score && a.rank == b.rank == c.rank {
      Text.StrLessTransitive(a.name, b.name, c.name);
    }
  }

  lemma PrecedesTotal(a: SortKey, b: SortKey)
    requires a != b
    ensures Precedes(a, b) || Precedes(b, a)
  {
    if a.score == b.score && a.rank == b.rank {
      Text.StrLessTotal(a.name, b.name);
    }
  }

  /** "Does not sort after" is transitive. */
  lemma NotPrecedesTransitive(a: SortKey, b: SortKey, c: SortKey)
    requires !Precedes(b, a) && !Precedes(c, b)
    ensures !Precedes(c, a)
  {
    if Precedes(c, a) {
      if a == b {
      } else if b == c {
      } else {
        PrecedesTotal(a, b);
        PrecedesTotal(b, c);
        PrecedesTransitive(c, a, b);
      }
    }
  }

  /** No element sorts strictly before an element that comes earlier. */
  ghost predicate Sorted<T>(key: T -> SortKey, s: seq<T>) {
    forall i, j :: 0 <= i < j < |s| ==> !Precedes(key(s[j]), key(s[i]))
  }

  /** The elements of `s` whose key is `k`, in order. */
  function WithKey<T>(key: T -> SortKey, s: seq<T>, k: SortKey): seq<T> {
    if |s| == 0 then []
    else (if key(s[0]) == k then [s[0]] else []) + WithKey(key, s[1..], k)
  }

  /** Inserts `x` in front of the first element that does not sort strictly
      before it. */
  function Insert<T>(key: T -> SortKey, x: T, s: seq<T>): (r: seq<T>)
    ensures multiset(r) == multiset(s) + multiset{x}
  {
    if |s| == 0 then [x]
    else if Precedes(key(s[0]), key(x)) then
      assert s == [s[0]] + s[1..];
      [s[0]] + Insert(key, x, s[1..])
    else [x] + s
  }

  lemma {:induction false} InsertSorted<T>(key: T -> SortKey, x: T, s: seq<T>)
    requires Sorted(key, s)
    ensures Sorted(key, Insert(key, x, s))
  {
    if |s| > 0 {
      var r := Insert(key, x, s);
      if Precedes(key(s[0]), key(x)) {
        var t := Insert(key, x, s[1..]);
        InsertSorted(key, x, s[1..]);
        assert r == [s[0]] + t;
        forall j | 0 < j < |r|
          ensures !Precedes(key(r[j]), key(r[0]))
        {
          assert r[j] in multiset(t);
          if r[j] == x {
            if Precedes(key(x), key(s[0])) {
              PrecedesTransitive(key(x), key(s[0]), key(x));
              PrecedesIrreflexive(key(x));
            }
          } else {
            assert r[j] in multiset(s[1..]);
            var k :| 0 <= k < |s[1..]| && s[1..][k] == r[j];
            assert s[k + 1] == r[j];
          }
        }
      } else {
        assert r == [x] + s;
        forall j | 0 < j < |r|
          ensures !Precedes(key(r[j]), key(x))
        {
          if j > 1 {
            NotPrecedesTransitive(key(x), key(s[0]), key(s[j - 1]));
          }
        }
      }
    }
  }

  /** Inserting `x` adds it in front of the elements with its key and leaves
      every other key class untouched. */
  lemma {:induction false} InsertWithKey<T>(key: T -> SortKey, x: T, s: seq<T>, k: SortKey)
    ensures WithKey(key, Insert(key, x, s), k)
         == (if key(x) == k then [x] else []) + WithKey(key, s, k)
  {
    if |s| > 0 {
      if Precedes(key(s[0]), key(x)) {
        InsertWithKey(key, x, s[1..], k);
        PrecedesIrreflexive(key(x));
        var r := [s[0]] + Insert(key, x, s[1..]);
        assert r[1..] == Insert(key, x, s[1..]);
      } else {
        assert ([x] + s)[1..] == s;
      }
    } else {
      assert [x][1..] == [];
    }
  }

  /** Stable sort: a sorted permutation in which elements with equal keys
      keep their input order. */
  function Sort<T>(key: T -> SortKey, s: seq<T>): (r: seq<T>)
    ensures multiset(r) == multiset(s)
    ensures Sorted(key, r)
    ensures forall k :: WithKey(key, r, k) == WithKey(key, s, k)
  {
    if |s| == 0 then []
    else
      var t := Sort(key, s[1..]);
      InsertSorted(key, s[0], t);
      forall k ensures WithKey(key, Insert(key, s[0], t), k) == WithKey(key, s, k) {
        InsertWithKey(key, s[0], t, k);
      }
      assert s == [s[0]] + s[1..];
      Insert(key, s[0], t)
  }
}
