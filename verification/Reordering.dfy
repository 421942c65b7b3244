/** Rearranging a stretch of a sequence in place. */
module Reordering {

  ghost predicate Distinct(s: seq<int>) {
    forall j, k | 0 <= j < k < |s| :: s[j] != s[k]
  }

  /** `p` holds each of 0, ..., |p| - 1 exactly once. */
  ghost predicate Permutation(p: seq<int>) {
    && Distinct(p)
    && (forall k | 0 <= k < |p| :: 0 <= p[k] < |p|)
    && (forall a | 0 <= a < |p| :: a in p)
  }

  /** `q` is `p` with the elements of [lo, hi) in some other order and nothing else changed. */
  ghost predicate Reordered(p: seq<int>, q: seq<int>, lo: int, hi: int) {
    && 0 <= lo <= hi <= |p| == |q|
    && multiset(q) == multiset(p)
    && (forall k | 0 <= k < lo || hi <= k < |p| :: q[k] == p[k])
  }

  lemma ReorderedSame(p: seq<int>, lo: int, hi: int)
    requires 0 <= lo <= hi <= |p|
    ensures Reordered(p, p, lo, hi)
  {
  }

  /** The array step every rearrangement here is made of: `a` stays a reordering of `origin`. */
  method Swap(a: array<int>, i: int, j: int, ghost origin: seq<int>, ghost lo: int, ghost hi: int)
    requires lo <= i < hi && lo <= j < hi && Reordered(origin, a[..], lo, hi)
    modifies a
    ensures Reordered(origin, a[..], lo, hi)
    ensures a[i] == old(a[j]) && a[j] == old(a[i])
    ensures forall k | 0 <= k < a.Length && k != i && k != j :: a[k] == old(a[k])
  {
    var tmp := a[i];
    a[i] := a[j];
    a[j] := tmp;
  }

  lemma {:induction false} DistinctOccursOnce(s: seq<int>, x: int)
    requires Distinct(s)
    ensures multiset(s)[x] <= 1
  {
    if s != [] {
      var n := |s| - 1;
      assert s == s[..n] + [s[n]];
      DistinctOccursOnce(s[..n], x);
      if x == s[n] {
        assert x !in s[..n];
        assert x !in multiset(s[..n]);
      }
    }
  }

  lemma DistinctAfterReordering(x: seq<int>, y: seq<int>)
    requires Distinct(x) && multiset(x) == multiset(y)
    ensures Distinct(y)
  {
    forall j, k | 0 <= j < k < |y| ensures y[j] != y[k] {
      DistinctOccursOnce(x, y[k]);
      assert y == y[..k] + [y[k]] + y[k + 1..];
      assert multiset(y)[y[k]] >= multiset(y[..k])[y[k]] + 1;
      assert y[..k][j] == y[j];
    }
  }

  lemma SameMiddle(a: seq<int>, b: seq<int>, c: seq<int>, a': seq<int>, b': seq<int>, c': seq<int>)
    requires multiset(a + b + c) == multiset(a + b' + c)
    ensures multiset(b) == multiset(b')
    ensures multiset(a' + b + c') == multiset(a' + b' + c')
  {
    assert multiset(b) == multiset(a + b + c) - multiset(a) - multiset(c);
    assert multiset(b') == multiset(a + b' + c) - multiset(a) - multiset(c);
  }

  /** Where the element now at position `k` was before. */
  lemma Source(p: seq<int>, q: seq<int>, lo: int, hi: int, k: int) returns (m: int)
    requires Reordered(p, q, lo, hi) && 0 <= k < |p|
    ensures 0 <= m < |p| && q[k] == p[m]
    ensures if lo <= k < hi then lo <= m < hi else m == k
  {
    if lo <= k < hi {
      assert p == p[..lo] + p[lo..hi] + p[hi..] && q == p[..lo] + q[lo..hi] + p[hi..];
      SameMiddle(p[..lo], p[lo..hi], p[hi..], [], q[lo..hi], []);
      assert q[lo..hi][k - lo] in multiset(q[lo..hi]);
      var i :| 0 <= i < hi - lo && p[lo..hi][i] == q[k];
      m := lo + i;
    } else {
      m := k;
    }
  }

  /** What happens to a stretch that `p` and `i` have in common may be replayed in `p`. */
  ghost function Grafted(p: seq<int>, i: seq<int>, lo: int, hi: int): (q: seq<int>)
    requires 0 <= lo <= hi <= |p| == |i|
    ensures |q| == |p| && forall k | 0 <= k < |q| :: q[k] == if lo <= k < hi then i[k] else p[k]
  {
    p[..lo] + i[lo..hi] + p[hi..]
  }

  lemma GraftedReordering(p: seq<int>, i: seq<int>, i': seq<int>, lo: int, hi: int)
    requires Reordered(i, i', lo, hi) && |p| == |i| && p[lo..hi] == i[lo..hi]
    ensures Reordered(p, Grafted(p, i', lo, hi), lo, hi)
  {
    assert i == i[..lo] + i[lo..hi] + i[hi..] && i' == i[..lo] + i'[lo..hi] + i[hi..];
    assert p == p[..lo] + i[lo..hi] + p[hi..];
    SameMiddle(i[..lo], i[lo..hi], i[hi..], p[..lo], i'[lo..hi], p[hi..]);
  }

  lemma ReorderedPermutation(p: seq<int>, q: seq<int>, lo: int, hi: int)
    requires Permutation(p) && Reordered(p, q, lo, hi)
    ensures Permutation(q)
  {
    DistinctAfterReordering(p, q);
    forall k | 0 <= k < |q| ensures 0 <= q[k] < |q| {
      assert q[k] in multiset(q);
    }
    forall a | 0 <= a < |q| ensures a in q {
      assert a in p;
      assert a in multiset(p);
    }
  }

  ghost predicate Block(c: seq<int>, lo: int, hi: int, v: int) {
    0 <= lo <= hi <= |c| && forall m | lo <= m < hi :: c[m] == v
  }

  ghost function Count(c: seq<int>, v: int): nat {
    multiset(c)[v]
  }

  lemma CountAppend(c: seq<int>, x: int, v: int)
    ensures Count(c + [x], v) == Count(c, v) + if x == v then 1 else 0
  {
  }

  /** Further elements other than `v` do not change the count of `v`. */
  lemma CountPad(c: seq<int>, d: seq<int>, v: int)
    requires v !in d
    ensures Count(d, v) == 0
    ensures Count(c + d, v) == Count(c, v)
  {
    assert v !in multiset(d);
  }

  ghost function Exchanged(c: seq<int>, a: int, b: int): (d: seq<int>)
    requires 0 <= a < |c| && 0 <= b < |c|
    ensures |d| == |c| && d[a] == c[b] && d[b] == c[a]
    ensures forall m | 0 <= m < |c| && m != a && m != b :: d[m] == c[m]
    ensures forall v :: Count(d, v) == Count(c, v)
  {
    assert multiset(c[a := c[b]][b := c[a]]) == multiset(c);
    c[a := c[b]][b := c[a]]
  }

  lemma KeepBlock(c: seq<int>, a: int, b: int, lo: int, hi: int, v: int)
    requires Block(c, lo, hi, v) && 0 <= a < |c| && 0 <= b < |c|
    requires (a < lo || hi <= a) && (b < lo || hi <= b)
    ensures Block(Exchanged(c, a, b), lo, hi, v)
  {
  }

  lemma GrowBlock(c: seq<int>, a: int, lo: int, hi: int, v: int)
    requires Block(c, lo, hi, v) && hi < |c|
    requires (0 <= a < lo || hi <= a < |c|) && c[a] == v
    ensures Block(Exchanged(c, a, hi), lo, hi + 1, v)
  {
  }

  /** When a further `v` stands outside a block of `v`s, the block is not all of them. */
  lemma {:induction false} BlockCount(c: seq<int>, lo: int, hi: int, v: int, q: int)
    requires Block(c, lo, hi, v)
    requires (0 <= q < lo || hi <= q < |c|) && c[q] == v
    ensures hi - lo < Count(c, v)
    decreases hi - lo
  {
    if lo == hi {
      assert c[q] in multiset(c);
    } else {
      var d := c[..lo] + c[lo + 1..];
      assert c == c[..lo] + [v] + c[lo + 1..];
      assert multiset(c)[v] == multiset(d)[v] + 1;
      BlockCount(d, lo, hi - 1, v, if q < lo then q else q - 1);
    }
  }
}
