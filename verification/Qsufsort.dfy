/** `qsufsort`: the bucket sort, then passes that double the sorted depth until every group is a
    singleton, and the suffix array that results. */
module Qsufsort {
  import opened Bytes
  import opened Suffixes
  import opened Reordering
  import opened SuffixSort
  import BucketSort

  /** `i` lists every suffix of `s` exactly once, in strictly increasing lexicographic order. */
  ghost predicate SuffixArray(s: seq<Byte>, i: seq<int>) {
    && |i| == |s| + 1 && Permutation(i)
    && forall j, k | 0 <= j < k < |i| :: LexLess(s[i[j]..], s[i[k]..])
  }

  // ---------------------------------------------------------------- walking over sorted runs

  /** Positions [a, m) have all been marked as sorted. */
  ghost predicate SortedRun(i: seq<int>, a: int, m: int) {
    0 <= a <= m <= |i| && forall k | a <= k < m :: i[k] < 0
  }

  lemma RunSkipped(s: seq<Byte>, h: nat, p: seq<int>, v: seq<int>, i: seq<int>, a: int, m: int)
    requires Passing(s, h, p, v, i, m) && SortedRun(i, a, m) && m < |p| && i[m] < 0
    ensures Passing(s, h, p, v, i, m - i[m]) && SortedRun(i, a, m - i[m])
  {
    assert Placed(s, h, p, v, i, m);
    forall k | m <= k < m - i[m] ensures v[p[k]] == k && i[k] < 0 {
      assert Placed(s, h, p, v, i, k);
    }
    forall j, k | 0 <= j < k < m - i[m] ensures Rising(s, 2 * h, p, v, j, k) {
      assert Rising(s, h, p, v, j, k);
      assert k < m ==> Rising(s, 2 * h, p, v, j, k);
      assert Placed(s, h, p, v, i, k);
    }
  }

  lemma RunMarked(s: seq<Byte>, h: nat, p: seq<int>, v: seq<int>, i: seq<int>, i': seq<int>, a: int, m: int)
    requires Passing(s, h, p, v, i, m) && SortedRun(i, a, m) && a < m
    requires i' == i[a := a - m]
    ensures Passing(s, h, p, v, i', m)
  {
    forall k | 0 <= k < |p| ensures Placed(s, h, p, v, i', k) {
      assert Placed(s, h, p, v, i, k);
    }
  }

  lemma PassStart(s: seq<Byte>, h: nat, p: seq<int>, v: seq<int>, i: seq<int>)
    requires Grouped(s, h, p, v, i)
    ensures Passing(s, h, p, v, i, 0)
  {
  }

  lemma PassEnd(s: seq<Byte>, h: nat, p: seq<int>, v: seq<int>, i: seq<int>)
    requires Passing(s, h, p, v, i, |p|)
    ensures Grouped(s, 2 * h, p, v, i)
  {
    forall j, k | 0 <= j < |p| && 0 <= k < |p| ensures Told(s, 2 * h, p, v, j, k) {
      assert Told(s, h, p, v, j, k);
      assert j < k ==> Rising(s, 2 * h, p, v, j, k);
      assert k < j ==> Rising(s, 2 * h, p, v, k, j);
    }
    forall k | 0 <= k < |p| ensures Placed(s, 2 * h, p, v, i, k) {
      assert Placed(s, h, p, v, i, k);
    }
  }

  lemma PassFacts(s: seq<Byte>, h: nat, p: seq<int>, v: seq<int>, i: seq<int>, m: int)
    requires Passing(s, h, p, v, i, m)
    ensures |p| == |v| == |i| == |s| + 1 && 0 <= m <= |p|
    ensures m < |p| && i[m] >= 0 ==> h <= |s|
    ensures m < |p| && i[m] < 0 ==> m - i[m] <= |i|
  {
    if m < |p| {
      assert Placed(s, h, p, v, i, m);
    }
  }

  /** One pass: afterwards groups share twice as many bytes; when `h` was larger than the text the
      whole array has become one sorted run. */
  method Pass(I: array<int>, V: array<int>, h: nat, ghost s: seq<Byte>, ghost p: seq<int>) returns (ghost q: seq<int>)
    requires I != V && I.Length == V.Length == |s| + 1 == |p| && Grouped(s, h, p, V[..], I[..])
    modifies I, V
    ensures |q| == |p| && Grouped(s, 2 * h, q, V[..], I[..])
    ensures h > |s| ==> I[0] == -(|s| + 1)
  {
    hide Grouped, Passing, Ready, Stored, Selecting, OnlyInside, SuffixList, Arranged;
    q := p;
    PassStart(s, h, p, V[..], I[..]);
    var len, i := 0, 0;
    while i < I.Length
      invariant 0 <= len <= i <= I.Length && |q| == |p|
      invariant Passing(s, h, q, V[..], I[..], i) && SortedRun(I[..], i - len, i)
      invariant h > |s| ==> len == i
    {
      PassFacts(s, h, q, V[..], I[..], i);
      if I[i] < 0 {
        RunSkipped(s, h, q, V[..], I[..], i - len, i);
        len := len - I[i];
        i := i - I[i];
      } else {
        if len != 0 {
          ghost var i0 := I[..];
          I[i - len] := -len;
          RunMarked(s, h, q, V[..], i0, I[..], i - len, i);
        }
        GroupReady(s, h, q, V[..], I[..], i);
        len := V[I[i]] + 1 - i;
        ghost var q0, v0, i0 := q, V[..], I[..];
        q := Split(I, V, i, len, h, s, q);
        SplitDone(s, h, q0, v0, i0, q, V[..], I[..], i, i + len);
        i := i + len;
        len := 0;
      }
    }
    if len != 0 {
      ghost var i0 := I[..];
      I[i - len] := -len;
      RunMarked(s, h, q, V[..], i0, I[..], i - len, i);
    }
    PassEnd(s, h, q, V[..], I[..]);
  }

  // ---------------------------------------------------------------- the whole sort

  /** A header that covers the array says that every label is the suffix's final position. */
  lemma OneRun(s: seq<Byte>, h: nat, p: seq<int>, v: seq<int>, i: seq<int>)
    requires Grouped(s, h, p, v, i) && i[0] == -|i|
    ensures |p| == |v| == |i| == |s| + 1
    ensures forall k | 0 <= k < |p| :: 0 <= p[k] < |p| && v[p[k]] == k
    ensures forall a | 0 <= a < |v| :: 0 <= v[a] < |p| && p[v[a]] == a
    ensures SuffixArray(s, p)
  {
    assert Placed(s, h, p, v, i, 0);
    forall k | 0 <= k < |p| ensures v[p[k]] == k {
      assert Placed(s, h, p, v, i, k);
    }
    forall a | 0 <= a < |v| ensures 0 <= v[a] < |p| && p[v[a]] == a {
      var k := Position(p, a);
    }
    forall j, k | 0 <= j < k < |p| ensures LexLess(s[p[j]..], s[p[k]..]) {
      assert Told(s, h, p, v, j, k);
      LessIsLexicographic(s, p[j], p[k]);
    }
  }

  /** `qsufsort`: `I` becomes the suffix array of `s`.  The main loop ends because `h` doubles. */
  method Qsufsort(I: array<int>, V: array<int>, s: seq<Byte>)
    requires I != V && I.Length == V.Length == |s| + 1
    modifies I, V
    ensures SuffixArray(s, I[..])
  {
    hide Grouped, SuffixArray;
    var buckets := new int[256];
    BucketSort.CountBytes(s, buckets);
    BucketSort.RunningTotals(s, buckets);
    BucketSort.PlaceAll(s, I, buckets);
    ghost var p := I[..];
    BucketSort.LabelBlocks(s, I, V, buckets);
    var h := 1;
    while I[0] != -(|s| + 1)
      invariant h >= 1 && |p| == |s| + 1 && Grouped(s, h, p, V[..], I[..])
      decreases if I[0] == -(|s| + 1) then 0 else if h <= |s| then |s| + 2 - h else 1
    {
      p := Pass(I, V, h, s, p);
      h := h + h;
    }
    ghost var v := V[..];
    OneRun(s, h, p, v, I[..]);
    var i := 0;
    while i < |s| + 1
      invariant 0 <= i <= |s| + 1
      invariant V[..] == v
      invariant forall k | 0 <= k < |p| && p[k] < i :: I[k] == p[k]
    {
      I[V[i]] := i;
      i := i + 1;
    }
    assert I[..] == p;
  }

  /** A text has only one suffix array, so the sort has only one possible result. */
  lemma {:induction false} SuffixArrayUnique(s: seq<Byte>, x: seq<int>, y: seq<int>, n: nat)
    requires SuffixArray(s, x) && SuffixArray(s, y) && n <= |x|
    ensures x[..n] == y[..n]
  {
    if n > 0 {
      var k := n - 1;
      SuffixArrayUnique(s, x, y, k);
      assert forall j | 0 <= j < k :: x[j] == x[..k][j] == y[..k][j] == y[j];
      if x[k] != y[k] {
        var a := Position(y, x[k]);
        var b := Position(x, y[k]);
        assert k < a && k < b;
        LessIsLexicographic(s, x[k], y[k]);
        LessIsLexicographic(s, y[k], x[k]);
        LessTotal(s, x[k], y[k]);
      }
      assert x[..n] == x[..k] + [x[k]] && y[..n] == y[..k] + [y[k]];
    }
  }
}
