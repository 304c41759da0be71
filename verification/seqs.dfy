/** Sequence operations of the JavaScript standard library used by the
    search and cart code: `Array.prototype.filter`, `slice(0, n)`, and the
    insertion-ordered de-duplication performed by `Array.from(new Set(...))`. */
module Seqs {

  /** `a` occurs in `b` in order, possibly with gaps (an order-preserving
      subsequence), decided by greedy matching. */
  predicate IsSubseq<T(==)>(a: seq<T>, b: seq<T>) {
    if |a| == 0 then true
    else if |b| == 0 then false
    else if a[0] == b[0] then IsSubseq(a[1..], b[1..])
    else IsSubseq(a, b[1..])
  }

  /** `s.filter(p)`. */
  function Filter<T>(p: T -> bool, s: seq<T>): (r: seq<T>)
    ensures |r| <= |s|
    ensures forall i :: 0 <= i < |r| ==> p(r[i])
    ensures multiset(r) <= multiset(s)
  {
    if |s| == 0 then []
    else
      assert s == [s[0]] + s[1..];
      (if p(s[0]) then [s[0]] else []) + Filter(p, s[1..])
  }

  predicate NoDup<T(==)>(s: seq<T>) {
    forall i, j :: 0 <= i < j < |s| ==> s[i] != s[j]
  }

  /** Index of the first occurrence of `x` in `s`. */
  function FirstIndex<T(==)>(s: seq<T>, x: T): (r: nat)
    requires x in s
    ensures r < |s| && s[r] == x && x !in s[..r]
  {
    if s[0] == x then 0
    else
      var k := FirstIndex(s[1..], x);
      assert s[..k + 1] == [s[0]] + s[1..][..k];
      k + 1
  }

  /** `Array.from(new Set(s))`: each value once, at the position where it
      was first seen. */
  function Dedup<T(==)>(s: seq<T>): (r: seq<T>)
    ensures NoDup(r)
    ensures forall i :: 0 <= i < |r| ==> r[i] in s
    ensures forall i :: 0 <= i < |s| ==> s[i] in r
    ensures forall i, j :: 0 <= i < j < |r| ==> FirstIndex(s, r[i]) < FirstIndex(s, r[j])
  {
    if |s| == 0 then []
    else
      var init := s[..|s| - 1];
      var last := s[|s| - 1];
      var d := Dedup(init);
      assert s == init + [last];
      forall x | x in d
        ensures FirstIndex(s, x) == FirstIndex(init, x) < |init|
      {
        FirstIndexOfPrefix(init, [last], x);
      }
      if last in d then d
      else
        d + [last]
  }

  /** `s.slice(0, n)`. */
  function Take<T>(s: seq<T>, n: nat): (r: seq<T>)
    ensures |r| <= n && |r| <= |s|
    ensures r == s[..|r|]
    ensures |r| < n ==> r == s
  {
    if |s| <= n then s else s[..n]
  }

  lemma EmptyPrefix<T>(x: seq<T>, a: seq<T>, b: seq<T>)
    requires |x| == 0
    ensures x + a + b == a + b
  {
  }

  lemma AppendAssoc<T>(a: seq<T>, b: seq<T>, c: seq<T>)
    ensures a + b + c == a + (b + c)
  {
  }

  lemma FirstIndexOfPrefix<T>(a: seq<T>, b: seq<T>, x: T)
    requires x in a
    ensures FirstIndex(a + b, x) == FirstIndex(a, x)
  {
    var i := FirstIndex(a, x);
    var j := FirstIndex(a + b, x);
    assert (a + b)[i] == x;
    assert a[j] == x;
  }

  lemma {:induction false} FilterIsSubseq<T>(p: T -> bool, s: seq<T>)
    ensures IsSubseq(Filter(p, s), s)
  {
    if |s| > 0 {
      var f := Filter(p, s[1..]);
      FilterIsSubseq(p, s[1..]);
      if p(s[0]) {
        assert Filter(p, s) == [s[0]] + f;
        assert ([s[0]] + f)[1..] == f;
      } else {
        assert Filter(p, s) == f;
        SubseqOfLonger(f, s);
      }
    }
  }

  /** Dropping the first element of the longer sequence keeps a subsequence a
      subsequence of the original. */
  lemma {:induction false} SubseqOfLonger<T>(a: seq<T>, b: seq<T>)
    requires |b| > 0 && IsSubseq(a, b[1..])
    ensures IsSubseq(a, b)
  {
    if |a| > 0 && a[0] == b[0] {
      SubseqDropFirst(a, b[1..]);
    }
  }

  lemma {:induction false} SubseqDropFirst<T>(a: seq<T>, b: seq<T>)
    requires |a| > 0 && IsSubseq(a, b)
    ensures IsSubseq(a[1..], b)
  {
    if |b| > 0 && a[0] != b[0] {
      SubseqDropFirst(a, b[1..]);
      SubseqOfLonger(a[1..], b);
    } else if |b| > 0 {
      SubseqOfLonger(a[1..], b);
    }
  }

  /** Every element of a filtered sequence satisfies the filter and, in the
      other direction, every element that satisfies it is kept. */
  lemma {:induction false} FilterMembership<T>(p: T -> bool, s: seq<T>, x: T)
    ensures x in Filter(p, s) <==> x in s && p(x)
  {
    if |s| > 0 {
      FilterMembership(p, s[1..], x);
      assert x in s <==> x == s[0] || x in s[1..] by {
        assert s == [s[0]] + s[1..];
      }
      if p(s[0]) {
        assert Filter(p, s) == [s[0]] + Filter(p, s[1..]);
      } else {
        assert Filter(p, s) == Filter(p, s[1..]);
      }
    }
  }

  /** `filter` keeps every copy of a passing element and no copy of a
      failing one. */
  lemma {:induction false} FilterCount<T>(p: T -> bool, s: seq<T>, x: T)
    ensures multiset(Filter(p, s))[x] == if p(x) then multiset(s)[x] else 0
  {
    if |s| > 0 {
      FilterCount(p, s[1..], x);
      assert s == [s[0]] + s[1..];
      assert multiset(s) == multiset([s[0]]) + multiset(s[1..]);
      var head := if p(s[0]) then [s[0]] else [];
      assert Filter(p, s) == head + Filter(p, s[1..]);
      assert multiset(Filter(p, s)) == multiset(head) + multiset(Filter(p, s[1..]));
    }
  }

  /** Filtering twice with the same predicate is filtering once. */
  lemma {:induction false} FilterIdempotent<T>(p: T -> bool, s: seq<T>)
    ensures Filter(p, Filter(p, s)) == Filter(p, s)
  {
    if |s| > 0 {
      var f := Filter(p, s[1..]);
      FilterIdempotent(p, s[1..]);
      if p(s[0]) {
        assert Filter(p, s) == [s[0]] + f;
        assert ([s[0]] + f)[1..] == f;
      } else {
        assert Filter(p, s) == f;
      }
    }
  }

  /** `s.map(f)`. */
  function Map<T, U>(f: T -> U, s: seq<T>): seq<U> {
    seq(|s|, i requires 0 <= i < |s| => f(s[i]))
  }

  /** The first element of `a` sits at some index `j` of its permutation `b`,
      and the rest of `a` is a permutation of `b` without that index. */
  lemma PermutationSplit<T>(a: seq<T>, b: seq<T>) returns (j: nat)
    requires multiset(a) == multiset(b) && |a| > 0
    ensures j < |b| && b[j] == a[0]
    ensures multiset(a[1..]) == multiset(b[..j] + b[j + 1..])
  {
    assert a[0] in multiset(b);
    j :| 0 <= j < |b| && b[j] == a[0];
    var rest := b[..j] + b[j + 1..];
    assert b == b[..j] + [b[j]] + b[j + 1..];
    assert a == [a[0]] + a[1..];
    assert multiset(b) == multiset(rest) + multiset{a[0]};
    assert multiset(a) == multiset(a[1..]) + multiset{a[0]};
    assert multiset(a[1..]) == multiset(a) - multiset{a[0]};
  }

  /** Mapping a function over two permutations of each other gives two
      permutations of each other. */
  lemma {:induction false} MapPermutation<T, U>(f: T -> U, a: seq<T>, b: seq<T>)
    requires multiset(a) == multiset(b)
    ensures multiset(Map(f, a)) == multiset(Map(f, b))
    decreases |a|
  {
    if |a| == 0 {
      assert |b| == |multiset(b)| == 0;
    } else {
      var j := PermutationSplit(a, b);
      var rest := b[..j] + b[j + 1..];
      MapPermutation(f, a[1..], rest);
      assert Map(f, a) == [f(a[0])] + Map(f, a[1..]);
      assert Map(f, b) == Map(f, b[..j]) + [f(b[j])] + Map(f, b[j + 1..]);
      assert Map(f, rest) == Map(f, b[..j]) + Map(f, b[j + 1..]);
      assert multiset(Map(f, b)) == multiset(Map(f, rest)) + multiset{f(a[0])};
    }
  }

  lemma FilterSingleton<T>(p: T -> bool, x: T)
    ensures Filter(p, [x]) == if p(x) then [x] else []
  {
    assert [x][1..] == [];
  }

  /** `Filter` distributes over concatenation. */
  lemma {:induction false} FilterAppend<T>(p: T -> bool, a: seq<T>, b: seq<T>)
    ensures Filter(p, a + b) == Filter(p, a) + Filter(p, b)
  {
    if |a| == 0 {
      assert a + b == b;
    } else {
      assert (a + b)[1..] == a[1..] + b;
      FilterAppend(p, a[1..], b);
    }
  }

  /** `Filter` of a sequence cut in three places. */
  lemma {:induction false} FilterSplit<T>(p: T -> bool, s: seq<T>, lo: nat, hi: nat)
    requires lo <= hi <= |s|
    ensures Filter(p, s) == Filter(p, s[..lo]) + Filter(p, s[lo..hi]) + Filter(p, s[hi..])
  {
    var a, b, c := s[..lo], s[lo..hi], s[hi..];
    calc {
      Filter(p, s);
      { assert s == (a + b) + c; }
      Filter(p, (a + b) + c);
      { FilterAppend(p, a + b, c); }
      Filter(p, a + b) + Filter(p, c);
      { FilterAppend(p, a, b); }
      Filter(p, a) + Filter(p, b) + Filter(p, c);
    }
  }

  /** Every element of `s` survives de-duplication. */
  lemma DedupContains<T>(s: seq<T>, x: T)
    requires x in s
    ensures x in Dedup(s)
  {
    var i :| 0 <= i < |s| && s[i] == x;
  }

  /** The first `n` de-duplicated elements of `a + b` come from `a + b` in
      the order they were first seen there, and an element first seen in
      `a` is preceded only by elements first seen in `a`. */
  lemma DedupTakeOrder<T>(a: seq<T>, b: seq<T>, n: nat)
    ensures var c := a + b;
            var r := Take(Dedup(c), n);
            && (forall i :: 0 <= i < |r| ==> r[i] in c)
            && (forall i, j :: 0 <= i < j < |r| ==> FirstIndex(c, r[i]) < FirstIndex(c, r[j]))
            && (forall i, j :: 0 <= i < j < |r| && r[j] in a ==> r[i] in a)
  {
    var c := a + b;
    var d := Dedup(c);
    var r := Take(d, n);
    assert forall i :: 0 <= i < |r| ==> r[i] == d[i];
    forall i, j | 0 <= i < j < |r| && r[j] in a
      ensures r[i] in a
    {
      FirstIndexOfPrefix(a, b, r[j]);
      var fi := FirstIndex(c, r[i]);
      assert c[fi] == a[fi];
    }
  }

  /** Positions in `Dedup(c)` follow first-seen positions in `c`. */
  lemma DedupIndexOrder<T>(c: seq<T>, a: nat, b: nat)
    requires a < |Dedup(c)| && b < |Dedup(c)|
    ensures a < b <==> FirstIndex(c, Dedup(c)[a]) < FirstIndex(c, Dedup(c)[b])
  {
    var d := Dedup(c);
    if b < a {
      assert FirstIndex(c, d[b]) < FirstIndex(c, d[a]);
    }
  }

  /** The first `n` de-duplicated elements of `c` skip nothing: an element of
      `c` first seen before some kept element is kept too. */
  lemma {:induction false} DedupTakeNoSkip<T>(c: seq<T>, n: nat)
    ensures var r := Take(Dedup(c), n);
            forall x, j :: x in c && 0 <= j < |r| && FirstIndex(c, x) < FirstIndex(c, r[j]) ==> x in r
  {
    var d := Dedup(c);
    var r := Take(d, n);
    assert forall i :: 0 <= i < |r| ==> r[i] == d[i];
    forall x, j | x in c && 0 <= j < |r| && FirstIndex(c, x) < FirstIndex(c, r[j])
      ensures x in r
    {
      var i :| 0 <= i < |d| && d[i] == x;
      assert r[j] == d[j];
      DedupIndexOrder(c, i, j);
      assert r[i] == x;
    }
  }

  /** A property every element of `a` and of `b` has is had by every
      element of the first `n` de-duplicated elements of `a + b`. */
  lemma DedupTakeAll<T>(p: T -> bool, a: seq<T>, b: seq<T>, n: nat)
    requires forall i :: 0 <= i < |a| ==> p(a[i])
    requires forall i :: 0 <= i < |b| ==> p(b[i])
    ensures var r := Take(Dedup(a + b), n);
            forall i :: 0 <= i < |r| ==> p(r[i])
  {
    var c := a + b;
    var r := Take(Dedup(c), n);
    forall i | 0 <= i < |r|
      ensures p(r[i])
    {
      var k :| 0 <= k < |c| && c[k] == r[i];
      if k < |a| {
        assert a[k] == r[i];
      } else {
        assert b[k - |a|] == r[i];
      }
    }
  }

  /** Every element that passes the filter shows up, mapped, in
      `s.filter(p).map(f)`. */
  lemma MapFilterComplete<T, U>(f: T -> U, p: T -> bool, s: seq<T>, k: nat)
    requires k < |s| && p(s[k])
    ensures f(s[k]) in Map(f, Filter(p, s))
  {
    var kept := Filter(p, s);
    FilterMembership(p, s, s[k]);
    var j :| 0 <= j < |kept| && kept[j] == s[k];
    assert Map(f, kept)[j] == f(s[k]);
  }

  /** Among the first `n` de-duplicated elements of `a + b + c`, an element
      first seen in `a` is preceded only by elements first seen in `a`. */
  lemma DedupTakeFirstPart<T>(a: seq<T>, b: seq<T>, c: seq<T>, n: nat)
    ensures var r := Take(Dedup(a + b + c), n);
            forall i, j :: 0 <= i < j < |r| && r[j] in a ==> r[i] in a
  {
    assert a + b + c == a + (b + c);
    DedupTakeOrder(a, b + c, n);
  }
}
