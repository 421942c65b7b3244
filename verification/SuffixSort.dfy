/** The in-place suffix sort: `split` and `qsufsort`.

    The array `I` lists suffixes in their current order and `V` holds, for every suffix, the label
    of its group: the last position of the group.  A negative entry of `I` starts a run of
    positions that are already sorted, so the suffix that belongs there is no longer stored; the
    ghost permutation `p` keeps it.  `v[p[k]]` is the label found at position k. */
module SuffixSort {
  import opened Bytes
  import opened Suffixes
  import opened Reordering

  // ---------------------------------------------------------------- the refinement invariant

  /** `p` lists every suffix of `s` once. */
  ghost predicate SuffixList(s: seq<Byte>, p: seq<int>) {
    |p| == |s| + 1 && Permutation(p)
  }

  ghost predicate Arranged(s: seq<Byte>, p: seq<int>, v: seq<int>) {
    SuffixList(s, p) && |v| == |p|
  }

  /** The suffix at position `j` comes before the one at position `k`. */
  ghost predicate Before(s: seq<Byte>, p: seq<int>, j: int, k: int)
    requires SuffixList(s, p) && 0 <= j < |p| && 0 <= k < |p|
  {
    Less(s, p[j], p[k])
  }

  /** The suffixes at positions `j` and `k` share their first `h` bytes. */
  ghost predicate Share(s: seq<Byte>, p: seq<int>, j: int, k: int, h: nat)
    requires SuffixList(s, p) && 0 <= j < |p| && 0 <= k < |p|
  {
    Agree(s, p[j], p[k], h)
  }

  /** Different labels are in the order of the suffixes themselves, and equal labels mean that
      the first `h` bytes are shared. */
  ghost predicate Told(s: seq<Byte>, h: nat, p: seq<int>, v: seq<int>, j: int, k: int)
    requires Arranged(s, p, v) && 0 <= j < |p| && 0 <= k < |p|
  {
    && (v[p[j]] < v[p[k]] ==> Before(s, p, j, k))
    && (v[p[j]] == v[p[k]] ==> Share(s, p, j, k, h))
  }

  ghost predicate Labelled(s: seq<Byte>, h: nat, p: seq<int>, v: seq<int>) {
    && Arranged(s, p, v)
    && (forall k | 0 <= k < |p| :: k <= v[p[k]] < |p|)
    && (forall j, k | 0 <= j < |p| && 0 <= k < |p| :: Told(s, h, p, v, j, k))
  }

  /** What every call of `split` on [lo, hi) relies on. */
  ghost predicate Ready(s: seq<Byte>, h: nat, p: seq<int>, v: seq<int>, lo: int, hi: int) {
    && Labelled(s, h, p, v)
    && 0 <= lo <= hi <= |p|
    && (forall k | 0 <= k < lo :: v[p[k]] < lo)
    && (forall k | lo <= k < hi :: v[p[k]] == v[p[lo]])
    && (forall j, k | lo <= j < hi <= k < |p| :: Before(s, p, j, k))
    && (forall k | lo <= k < hi :: p[k] + h <= |s|)
  }

  /** The label at `k` is a position below `hi` that carries the same label. */
  ghost predicate InGroup(s: seq<Byte>, p: seq<int>, v: seq<int>, hi: int, k: int)
    requires Arranged(s, p, v) && 0 <= k < |p| && hi <= |p|
  {
    k <= v[p[k]] < hi && v[p[v[p[k]]]] == v[p[k]]
  }

  /** Position `k` is stored in `i`, or it is a singleton group marked -1. */
  ghost predicate Marked(s: seq<Byte>, g: nat, p: seq<int>, v: seq<int>, i: seq<int>, lo: int, k: int)
    requires Arranged(s, p, v) && 0 <= lo <= k < |p| == |i|
  {
    if i[k] >= 0 then i[k] == p[k] && p[k] + g <= |s|
    else i[k] == -1 && v[p[k]] == k && forall j | lo <= j < k :: v[p[j]] < k
  }

  ghost predicate Rising(s: seq<Byte>, g: nat, p: seq<int>, v: seq<int>, j: int, k: int)
    requires Arranged(s, p, v) && 0 <= j < |p| && 0 <= k < |p|
  {
    v[p[j]] <= v[p[k]] && (v[p[j]] == v[p[k]] ==> Share(s, p, j, k, g))
  }

  /** What `split` leaves behind in [lo, hi): groups whose members share `g` bytes, each
      contiguous and labelled by its last position, the singletons marked with -1. */
  ghost predicate Refined(s: seq<Byte>, g: nat, p: seq<int>, v: seq<int>, i: seq<int>, lo: int, hi: int)
    requires Arranged(s, p, v) && 0 <= lo <= hi <= |p| == |i|
  {
    && (forall k | lo <= k < hi :: InGroup(s, p, v, hi, k))
    && (forall k | lo <= k < hi :: Marked(s, g, p, v, i, lo, k))
    && (forall j, k | lo <= j < k < hi :: Rising(s, g, p, v, j, k))
  }

  // ---------------------------------------------------------------- what the keys say

  lemma Position(p: seq<int>, a: int) returns (k: int)
    requires Permutation(p) && 0 <= a < |p|
    ensures 0 <= k < |p| && p[k] == a
  {
    assert a in p;
    k :| 0 <= k < |p| && p[k] == a;
  }

  /** Two members of one group are ordered by the label of what follows their shared bytes,
      whatever relabelling has happened elsewhere in the meantime. */
  lemma KeyOrder(s: seq<Byte>, h: nat, p: seq<int>, v: seq<int>, lo: int, hi: int, j: int, k: int)
    requires Ready(s, h, p, v, lo, hi)
    requires lo <= j < hi && lo <= k < hi
    ensures v[p[j] + h] < v[p[k] + h] ==> Before(s, p, j, k)
    ensures v[p[j] + h] == v[p[k] + h] ==> Share(s, p, j, k, 2 * h)
  {
    hide Agree, Less;
    var a := Position(p, p[j] + h);
    var b := Position(p, p[k] + h);
    assert Told(s, h, p, v, j, k) && Told(s, h, p, v, a, b);
    LessAfterAgreement(s, p[j], p[k], h);
    if v[p[a]] == v[p[b]] {
      AgreeTwice(s, p[j], p[k], h, h);
    }
  }

  /** `split` may reorder its range freely before it relabels anything. */
  lemma ReadyAfterReordering(s: seq<Byte>, h: nat, p: seq<int>, q: seq<int>, v: seq<int>, lo: int, hi: int)
    requires Ready(s, h, p, v, lo, hi) && Reordered(p, q, lo, hi)
    ensures Ready(s, h, q, v, lo, hi)
  {
    ReorderedPermutation(p, q, lo, hi);
    forall k | 0 <= k < |q|
      ensures k <= v[q[k]] < |q|
      ensures if lo <= k < hi then v[q[k]] == v[p[lo]] && q[k] + h <= |s| else q[k] == p[k]
    {
      var m := Source(p, q, lo, hi, k);
      if lo <= k < hi {
        assert v[p[hi - 1]] == v[p[lo]] >= hi - 1;
      }
    }
    forall j, k | 0 <= j < |q| && 0 <= k < |q|
      ensures Told(s, h, q, v, j, k)
      ensures lo <= j < hi <= k ==> Before(s, q, j, k)
    {
      var a := Source(p, q, lo, hi, j);
      var b := Source(p, q, lo, hi, k);
      assert Told(s, h, p, v, a, b);
      assert lo <= j < hi <= k ==> Before(s, p, a, b);
    }
  }

  // ---------------------------------------------------------------- labelling one block

  /** `w` is `v` with the suffixes at positions [lo, hi) labelled hi - 1. */
  ghost predicate Relabelled(s: seq<Byte>, p: seq<int>, v: seq<int>, w: seq<int>, lo: int, hi: int) {
    && Arranged(s, p, v) && Arranged(s, p, w)
    && 0 <= lo <= hi <= |p|
    && (forall k | lo <= k < hi :: w[p[k]] == hi - 1)
    && (forall k | 0 <= k < lo || hi <= k < |p| :: w[p[k]] == v[p[k]])
  }

  /** Positions [lo, m) may become a group of their own when they share 2h bytes and come before
      the rest of the range. */
  ghost predicate Separated(s: seq<Byte>, h: nat, p: seq<int>, lo: int, m: int, hi: int)
    requires SuffixList(s, p) && 0 <= lo <= m <= hi <= |p|
  {
    && (forall j, k | lo <= j < m && lo <= k < m :: Share(s, p, j, k, 2 * h))
    && (forall j, k | lo <= j < m <= k < hi :: Before(s, p, j, k))
  }

  lemma ReadyAfterLabelling(s: seq<Byte>, h: nat, p: seq<int>, v: seq<int>, w: seq<int>, lo: int, m: int, hi: int)
    requires Ready(s, h, p, v, lo, hi) && lo < m <= hi
    requires Relabelled(s, p, v, w, lo, m) && Separated(s, h, p, lo, m, hi)
    ensures Ready(s, h, p, w, m, hi)
  {
    forall j, k | 0 <= j < |p| && 0 <= k < |p|
      ensures Told(s, h, p, w, j, k)
      ensures m <= j < hi <= k ==> Before(s, p, j, k)
    {
      assert Told(s, h, p, v, j, k) && Told(s, h, p, v, k, j) && Told(s, h, p, v, j, lo) && Told(s, h, p, v, lo, k);
      assert lo <= j < hi <= k ==> Before(s, p, j, k);
      assert lo <= k < hi <= j ==> Before(s, p, k, j);
      assert lo <= j < m <= k < hi ==> Before(s, p, j, k);
      assert lo <= k < m <= j < hi ==> Before(s, p, k, j);
    }
  }

  lemma RefinedBlock(s: seq<Byte>, h: nat, p: seq<int>, v: seq<int>, i: seq<int>, lo: int, hi: int)
    requires Arranged(s, p, v) && 0 <= lo < hi <= |p| == |i|
    requires forall k | lo <= k < hi :: v[p[k]] == hi - 1
    requires forall j, k | lo <= j < hi && lo <= k < hi :: Share(s, p, j, k, 2 * h)
    requires if lo + 1 == hi then i[lo] == -1 else forall k | lo <= k < hi :: i[k] == p[k]
    ensures Refined(s, 2 * h, p, v, i, lo, hi)
  {
    if lo + 1 < hi {
      forall k | lo <= k < hi ensures Marked(s, 2 * h, p, v, i, lo, k) {
        assert Share(s, p, if k == lo then lo + 1 else lo, k, 2 * h);
      }
    }
  }

  lemma RefinedJoin(s: seq<Byte>, g: nat, p: seq<int>, v: seq<int>, i: seq<int>, lo: int, m: int, hi: int)
    requires Arranged(s, p, v) && 0 <= lo <= m <= hi <= |p| == |i|
    requires Refined(s, g, p, v, i, lo, m) && Refined(s, g, p, v, i, m, hi)
    ensures Refined(s, g, p, v, i, lo, hi)
  {
    forall k | lo <= k < hi ensures InGroup(s, p, v, hi, k) && Marked(s, g, p, v, i, lo, k) {
      assert if k < m then InGroup(s, p, v, m, k) && Marked(s, g, p, v, i, lo, k)
             else InGroup(s, p, v, hi, k) && Marked(s, g, p, v, i, m, k);
      forall j | lo <= j < m ensures v[p[j]] < m {
        assert InGroup(s, p, v, m, j);
      }
    }
    forall j, k | lo <= j < k < hi ensures Rising(s, g, p, v, j, k) {
      assert j < m ==> InGroup(s, p, v, m, j);
      assert m <= k ==> InGroup(s, p, v, hi, k);
      assert k < m || m <= j ==> Rising(s, g, p, v, j, k);
    }
  }

  /** `Refined` speaks only of positions [lo, hi). */
  lemma RefinedElsewhere(s: seq<Byte>, g: nat, p: seq<int>, v: seq<int>, i: seq<int>,
                         q: seq<int>, w: seq<int>, i': seq<int>, lo: int, hi: int)
    requires Arranged(s, p, v) && Arranged(s, q, w) && 0 <= lo <= hi <= |p| == |i| == |i'|
    requires Refined(s, g, p, v, i, lo, hi)
    requires forall k | lo <= k < hi :: q[k] == p[k] && w[q[k]] == v[p[k]] && i'[k] == i[k]
    ensures Refined(s, g, q, w, i', lo, hi)
  {
    forall k | lo <= k < hi ensures InGroup(s, q, w, hi, k) && Marked(s, g, q, w, i', lo, k) {
      assert InGroup(s, p, v, hi, k) && Marked(s, g, p, v, i, lo, k);
    }
    forall j, k | lo <= j < k < hi ensures Rising(s, g, q, w, j, k) {
      assert Rising(s, g, p, v, j, k);
    }
  }

  // ---------------------------------------------------------------- split

  lemma SeparatedByKeys(s: seq<Byte>, h: nat, p: seq<int>, v: seq<int>, lo: int, m: int, hi: int, x: int)
    requires Ready(s, h, p, v, lo, hi) && lo <= m <= hi
    requires forall k | lo <= k < m :: v[p[k] + h] == x
    requires forall k | m <= k < hi :: v[p[k] + h] > x
    ensures Separated(s, h, p, lo, m, hi)
  {
    forall j, k | lo <= j < m && lo <= k < hi
      ensures if k < m then Share(s, p, j, k, 2 * h) else Before(s, p, j, k)
    {
      KeyOrder(s, h, p, v, lo, hi, j, k);
    }
  }

  /** Every suffix listed in [lo, hi) has a key, the label `h` bytes further on. */
  ghost predicate HasKeys(i: seq<int>, lo: int, hi: int, h: nat) {
    0 <= lo <= hi <= |i| && forall k | lo <= k < hi :: 0 <= i[k] && i[k] + h < |i|
  }

  /** The inner loop of the small case: brings the suffixes with the smallest key of [k, end) to
      the front of it. */
  method GatherSmallest(I: array<int>, V: array<int>, k: int, end: int, h: nat) returns (j: int, x: int)
    requires I != V && I.Length == V.Length && k < end && HasKeys(I[..], k, end, h)
    modifies I
    ensures 1 <= j <= end - k && Gathered(old(I[..]), I[..], V[..], h, k, k + j, end, x)
  {
    hide Reordered;
    ghost var before := I[..];
    ReorderedSame(before, k, end);
    j := 1;
    x := V[I[k] + h];
    var i := 1;
    while k + i < end
      invariant 1 <= j <= i <= end - k
      invariant Reordered(before, I[..], k, end) && HasKeys(I[..], k, end, h)
      invariant forall m | k <= m < k + j :: V[I[m] + h] == x
      invariant forall m | k + j <= m < k + i :: V[I[m] + h] > x
    {
      if V[I[k + i] + h] < x {
        x := V[I[k + i] + h];
        j := 0;
      }
      if V[I[k + i] + h] == x {
        Swap(I, k + j, k + i, before, k, end);
        j := j + 1;
      }
      i := i + 1;
    }
  }

  function Class(key: int, x: int): int {
    if key < x then -1 else if key == x then 0 else 1
  }

  /** `c` tells how the key of the suffix at position `m` compares with `x`. */
  ghost predicate InClass(I: array<int>, V: array<int>, h: nat, x: int, c: seq<int>, m: int)
    requires I.Length == V.Length == |c| && 0 <= m < I.Length
    reads I, V
  {
    0 <= I[m] && I[m] + h < V.Length && c[m] == Class(V[I[m] + h], x)
  }

  /** `I` is still a reordering of `before` on [lo, hi), and `c` classifies the suffixes there. */
  ghost predicate Dealt(I: array<int>, V: array<int>, before: seq<int>, lo: int, hi: int, h: nat, x: int, c: seq<int>)
    requires I.Length == V.Length == |c|
    reads I, V
  {
    Reordered(before, I[..], lo, hi) && forall m | lo <= m < hi :: InClass(I, V, h, x, c, m)
  }

  method Exchange(I: array<int>, V: array<int>, a: int, b: int,
                  ghost before: seq<int>, ghost lo: int, ghost hi: int, ghost h: nat, ghost x: int, ghost c: seq<int>)
    returns (ghost d: seq<int>)
    requires I != V && I.Length == V.Length == |c| && lo <= a < hi && lo <= b < hi
    requires Dealt(I, V, before, lo, hi, h, x, c)
    modifies I
    ensures |d| == |c| && d == Exchanged(c, a, b) && Dealt(I, V, before, lo, hi, h, x, d)
  {
    d := Exchanged(c, a, b);
    assert forall m | lo <= m < hi :: InClass(I, V, h, x, c, m);
    label unswapped:
    Swap(I, a, b, before, lo, hi);
    forall m | lo <= m < hi ensures InClass(I, V, h, x, d, m) {
      assert old@unswapped(InClass(I, V, h, x, c, if m == a then b else if m == b then a else m));
    }
  }

  /** How many keys of the range are smaller than, equal to and larger than the pivot. */
  ghost predicate Counts(c: seq<int>, smaller: int, equal: int, larger: int) {
    Count(c, -1) == smaller && Count(c, 0) == equal && Count(c, 1) == larger
  }

  /** How far the exchange loops have come: positions [lo, i) hold smaller keys, [jj, j) equal
      keys and [kk, k) larger keys. */
  ghost predicate Swept(c: seq<int>, lo: int, i: int, jj: int, j: int, kk: int, k: int, hi: int) {
    && lo <= i <= jj <= j <= kk <= k <= hi <= |c|
    && Counts(c, jj - lo, kk - jj, hi - kk)
    && Block(c, lo, i, -1) && Block(c, jj, j, 0) && Block(c, kk, k, 1)
  }

  lemma SweepStep(c: seq<int>, lo: int, i: int, jj: int, j: int, kk: int, k: int, hi: int)
    requires Swept(c, lo, i, jj, j, kk, k, hi) && i < jj
    ensures c[i] == -1 ==> Swept(c, lo, i + 1, jj, j, kk, k, hi)
    ensures c[i] == 0 ==> j < kk && Swept(Exchanged(c, i, j), lo, i, jj, j + 1, kk, k, hi)
    ensures c[i] == 1 ==> k < hi && Swept(Exchanged(c, i, k), lo, i, jj, j, kk, k + 1, hi)
  {
    if c[i] == 0 {
      BlockCount(c, jj, j, 0, i);
      KeepBlock(c, i, j, lo, i, -1);
      GrowBlock(c, i, jj, j, 0);
      KeepBlock(c, i, j, kk, k, 1);
    } else if c[i] == 1 {
      BlockCount(c, kk, k, 1, i);
      KeepBlock(c, i, k, lo, i, -1);
      KeepBlock(c, i, k, jj, j, 0);
      GrowBlock(c, i, kk, k, 1);
    }
  }

  lemma SweepStepEqual(c: seq<int>, lo: int, jj: int, j: int, kk: int, k: int, hi: int)
    requires Swept(c, lo, jj, jj, j, kk, k, hi) && j < kk && -1 <= c[j] <= 1
    ensures c[j] == 0 ==> Swept(c, lo, jj, jj, j + 1, kk, k, hi)
    ensures c[j] != 0 ==> k < hi && Swept(Exchanged(c, j, k), lo, jj, jj, j, kk, k + 1, hi)
  {
    if c[j] == -1 {
      BlockCount(c, lo, jj, -1, j);
    } else if c[j] == 1 {
      BlockCount(c, kk, k, 1, j);
      KeepBlock(c, j, k, lo, jj, -1);
      KeepBlock(c, j, k, jj, j, 0);
      GrowBlock(c, j, kk, k, 1);
    }
  }

  lemma SweepEnd(c: seq<int>, lo: int, jj: int, kk: int, k: int, hi: int, m: int)
    requires Swept(c, lo, jj, jj, kk, kk, k, hi) && lo <= m < hi && -1 <= c[m] <= 1
    ensures c[m] == if m < jj then -1 else if m < kk then 0 else 1
  {
    if kk <= m && c[m] == -1 {
      BlockCount(c, lo, jj, -1, m);
    } else if kk <= m && c[m] == 0 {
      BlockCount(c, jj, kk, 0, m);
    }
  }

  /** The exchange loops of `split`: smaller keys to [lo, jj), equal keys to [jj, kk), larger keys
      to [kk, hi). */
  method Distribute(I: array<int>, V: array<int>, lo: int, jj: int, kk: int, ghost hi: int, h: nat, x: int,
                    ghost c0: seq<int>)
    requires I != V && I.Length == V.Length == |c0|
    requires Dealt(I, V, I[..], lo, hi, h, x, c0) && Swept(c0, lo, lo, jj, jj, kk, kk, hi)
    modifies I
    ensures Reordered(old(I[..]), I[..], lo, hi) && HasKeys(I[..], lo, hi, h)
    ensures forall m | lo <= m < hi :: Class(V[I[m] + h], x) == if m < jj then -1 else if m < kk then 0 else 1
  {
    ghost var before, c := I[..], c0;
    var i, j, k := lo, jj, kk;
    while i < jj
      invariant |c| == |c0| && Swept(c, lo, i, jj, j, kk, k, hi)
      invariant Dealt(I, V, before, lo, hi, h, x, c)
      decreases jj - i + kk - j + hi - k
    {
      assert InClass(I, V, h, x, c, i);
      SweepStep(c, lo, i, jj, j, kk, k, hi);
      if V[I[i] + h] < x {
        i := i + 1;
      } else if V[I[i] + h] == x {
        c := Exchange(I, V, i, j, before, lo, hi, h, x, c);
        j := j + 1;
      } else {
        c := Exchange(I, V, i, k, before, lo, hi, h, x, c);
        k := k + 1;
      }
    }
    while j < kk
      invariant |c| == |c0| && Swept(c, lo, jj, jj, j, kk, k, hi)
      invariant Dealt(I, V, before, lo, hi, h, x, c)
      decreases kk - j + hi - k
    {
      assert InClass(I, V, h, x, c, j);
      SweepStepEqual(c, lo, jj, j, kk, k, hi);
      if V[I[j] + h] == x {
        j := j + 1;
      } else {
        c := Exchange(I, V, j, k, before, lo, hi, h, x, c);
        k := k + 1;
      }
    }
    forall m | lo <= m < hi
      ensures 0 <= I[m] && I[m] + h < I.Length
      ensures Class(V[I[m] + h], x) == if m < jj then -1 else if m < kk then 0 else 1
    {
      assert InClass(I, V, h, x, c, m);
      SweepEnd(c, lo, jj, kk, k, hi, m);
    }
  }

  lemma CountsAppend(c: seq<int>, d: int, smaller: int, equal: int, larger: int)
    requires Counts(c, smaller, equal, larger) && -1 <= d <= 1
    ensures Counts(c + [d], if d == -1 then smaller + 1 else smaller,
                   if d == 0 then equal + 1 else equal, if d == 1 then larger + 1 else larger)
  {
    CountAppend(c, d, -1);
    CountAppend(c, d, 0);
    CountAppend(c, d, 1);
  }

  lemma CountsPad(c: seq<int>, n: nat, smaller: int, equal: int, larger: int)
    ensures Counts(seq(n, _ => 2), 0, 0, 0)
    ensures Counts(c, smaller, equal, larger) ==> Counts(c + seq(n, _ => 2), smaller, equal, larger)
  {
    CountPad(c, seq(n, _ => 2), -1);
    CountPad(c, seq(n, _ => 2), 0);
    CountPad(c, seq(n, _ => 2), 1);
  }

  /** The counting loop of `split`. */
  method CountKeys(I: array<int>, V: array<int>, start: int, len: int, h: nat, x: int)
    returns (smaller: nat, equal: nat, ghost c: seq<int>)
    requires I.Length == V.Length && HasKeys(I[..], start, start + len, h)
    ensures |c| == I.Length && smaller + equal <= len && Counts(c, smaller, equal, len - smaller - equal)
    ensures forall m | start <= m < start + len :: InClass(I, V, h, x, c, m)
  {
    c := seq(start, _ => 2);
    CountsPad([], start, 0, 0, 0);
    smaller, equal := 0, 0;
    var i := start;
    while i < start + len
      invariant start <= i <= start + len && |c| == i && smaller + equal <= i - start
      invariant Counts(c, smaller, equal, i - start - smaller - equal)
      invariant forall m | start <= m < i :: c[m] == Class(V[I[m] + h], x)
    {
      ghost var d := Class(V[I[i] + h], x);
      CountsAppend(c, d, smaller, equal, i - start - smaller - equal);
      c := c + [d];
      if V[I[i] + h] < x { smaller := smaller + 1; }
      if V[I[i] + h] == x { equal := equal + 1; }
      i := i + 1;
    }
    CountsPad(c, I.Length - i, smaller, equal, len - smaller - equal);
    c := c + seq(I.Length - i, _ => 2);
  }

  /** The three-way partition of `split` around the key of the middle suffix. */
  method Partition(I: array<int>, V: array<int>, start: int, len: int, h: nat)
    returns (jj: int, kk: int, x: int)
    requires I != V && I.Length == V.Length && 0 < len && HasKeys(I[..], start, start + len, h)
    modifies I
    ensures start <= jj < kk <= start + len
    ensures Partitioned(old(I[..]), I[..], V[..], h, start, jj, kk, start + len, x)
  {
    x := V[I[start + len / 2] + h];
    var smaller, equal; ghost var c;
    smaller, equal, c := CountKeys(I, V, start, len, h, x);
    assert InClass(I, V, h, x, c, start + len / 2);
    BlockCount(c, 0, 0, 0, start + len / 2);
    jj, kk := start + smaller, start + smaller + equal;
    Distribute(I, V, start, jj, kk, start + len, h, x, c);
  }

  /** The labelling of a finished group [lo, hi): every member gets its last position, and a
      group of one is marked as sorted. */
  method LabelGroup(I: array<int>, V: array<int>, lo: int, hi: int, ghost s: seq<Byte>, ghost p: seq<int>)
    requires I != V && I.Length == V.Length && 0 <= lo < hi <= I.Length
    requires Arranged(s, p, V[..]) && Stored(p, I[..], lo, hi)
    modifies I, V
    ensures Relabelled(s, p, old(V[..]), V[..], lo, hi)
    ensures I[..] == if lo + 1 == hi then old(I[..])[lo := -1] else old(I[..])
  {
    var i := 0;
    while i < hi - lo
      invariant 0 <= i <= hi - lo && I[..] == old(I[..])
      invariant forall k | lo <= k < lo + i :: V[p[k]] == hi - 1
      invariant forall k | 0 <= k < lo || lo + i <= k < |p| :: V[p[k]] == old(V[..])[p[k]]
    {
      assert I[lo + i] == p[lo + i];
      V[I[lo + i]] := hi - 1;
      i := i + 1;
    }
    if lo == hi - 1 {
      I[lo] := -1;
    }
  }

  /** A call of `split` on [lo, hi) changes nothing elsewhere. */
  ghost predicate OnlyInside(p: seq<int>, v: seq<int>, i: seq<int>, q: seq<int>, w: seq<int>, i': seq<int>, lo: int,
                             hi: int)
  {
    && |p| == |v| == |i| == |q| == |w| == |i'|
    && Permutation(p) && Reordered(p, q, lo, hi)
    && forall k | 0 <= k < lo || hi <= k < |p| :: w[p[k]] == v[p[k]] && i'[k] == i[k]
  }

  ghost predicate Stored(p: seq<int>, i: seq<int>, lo: int, hi: int) {
    0 <= lo <= hi <= |p| == |i| && forall k | lo <= k < hi :: i[k] == p[k]
  }

  lemma OnlyInsideTwice(p: seq<int>, v: seq<int>, i: seq<int>, q: seq<int>, w: seq<int>, i': seq<int>,
                        r: seq<int>, u: seq<int>, i'': seq<int>, lo: int, hi: int, wlo: int, whi: int)
    requires OnlyInside(p, v, i, q, w, i', wlo, whi) && OnlyInside(q, w, i', r, u, i'', lo, hi)
    requires wlo <= lo && hi <= whi
    ensures OnlyInside(p, v, i, r, u, i'', wlo, whi)
  {
    forall k | 0 <= k < wlo || whi <= k < |p| ensures r[k] == p[k] && u[p[k]] == v[p[k]] && i''[k] == i[k] {
      assert q[k] == p[k];
    }
  }

  /** The small case between two rounds: [start, k) is done, [k, end) is still one group. */
  ghost predicate Selecting(s: seq<Byte>, h: nat, p: seq<int>, v: seq<int>, i: seq<int>, start: int, k: int, end: int) {
    && 0 <= start <= k <= end
    && Ready(s, h, p, v, k, end) && Stored(p, i, k, end)
    && Refined(s, 2 * h, p, v, i, start, k)
  }

  lemma SelectingStart(s: seq<Byte>, h: nat, p: seq<int>, v: seq<int>, i: seq<int>, start: int, end: int)
    requires Ready(s, h, p, v, start, end) && Stored(p, i, start, end)
    ensures Selecting(s, h, p, v, i, start, start, end) && OnlyInside(p, v, i, p, v, i, start, end)
  {
  }

  lemma ReadyKeys(s: seq<Byte>, h: nat, p: seq<int>, v: seq<int>, i: seq<int>, lo: int, hi: int)
    requires Ready(s, h, p, v, lo, hi) && Stored(p, i, lo, hi)
    ensures HasKeys(i, lo, hi, h)
  {
  }

  lemma SelectingKeys(s: seq<Byte>, h: nat, p: seq<int>, v: seq<int>, i: seq<int>, start: int, k: int, end: int)
    requires Selecting(s, h, p, v, i, start, k, end)
    ensures HasKeys(i, k, end, h)
  {
  }

  /** `i'` is `i` with the smallest keys of [k, end), all of them `x`, moved to [k, m). */
  ghost predicate Gathered(i: seq<int>, i': seq<int>, v: seq<int>, h: nat, k: int, m: int, end: int, x: int) {
    && Reordered(i, i', k, end) && k <= m <= end
    && forall a | k <= a < end :: 0 <= i'[a] && i'[a] + h < |v| && if a < m then v[i'[a] + h] == x else v[i'[a] + h] > x
  }

  /** Gathering the smallest keys prepares the first of them for labelling. */
  lemma GroupGathered(s: seq<Byte>, h: nat, p: seq<int>, v: seq<int>, i: seq<int>, i': seq<int>,
                      start: int, k: int, m: int, end: int, x: int)
    returns (q: seq<int>)
    requires Selecting(s, h, p, v, i, start, k, end) && Gathered(i, i', v, h, k, m, end, x)
    ensures Reordered(i, i', k, end) && Reordered(p, q, k, end)
    ensures Ready(s, h, q, v, k, end) && Separated(s, h, q, k, m, end)
    ensures Arranged(s, q, v) && Stored(q, i', k, end) && Stored(q, i', k, m)
  {
    q := Grafted(p, i', k, end);
    GraftedReordering(p, i, i', k, end);
    ReadyAfterReordering(s, h, p, q, v, k, end);
    SeparatedByKeys(s, h, q, v, k, m, end, x);
  }

  lemma GroupTaken(s: seq<Byte>, h: nat, p: seq<int>, q: seq<int>, v: seq<int>, w: seq<int>,
                   i: seq<int>, i1: seq<int>, i': seq<int>, start: int, k: int, m: int, end: int)
    requires Selecting(s, h, p, v, i, start, k, end) && k < m <= end
    requires Reordered(p, q, k, end) && Ready(s, h, q, v, k, end) && Separated(s, h, q, k, m, end)
    requires Reordered(i, i1, k, end) && Stored(q, i1, k, end)
    requires Relabelled(s, q, v, w, k, m) && i' == if k + 1 == m then i1[k := -1] else i1
    ensures OnlyInside(p, v, i, q, w, i', k, end)
    ensures Selecting(s, h, q, w, i', start, m, end)
  {
    ReadyAfterLabelling(s, h, q, v, w, k, m, end);
    RefinedElsewhere(s, 2 * h, p, v, i, q, w, i', start, k);
    RefinedBlock(s, h, q, w, i', k, m);
    RefinedJoin(s, 2 * h, q, w, i', start, k, m);
  }

  /** One round of the small case: the group with the smallest key of [k, end) is brought to the
      front and labelled. */
  method TakeSmallest(I: array<int>, V: array<int>, k: int, end: int, h: nat,
                      ghost start: int, ghost s: seq<Byte>, ghost p: seq<int>)
    returns (j: int, ghost q: seq<int>)
    requires I != V && I.Length == V.Length == |p| && k < end
    requires Selecting(s, h, p, V[..], I[..], start, k, end)
    modifies I, V
    ensures 1 <= j <= end - k && |q| == |p|
    ensures OnlyInside(p, old(V[..]), old(I[..]), q, V[..], I[..], k, end)
    ensures Selecting(s, h, q, V[..], I[..], start, k + j, end)
  {
    hide Selecting, OnlyInside, Ready, Stored, Arranged, Gathered, Separated, Relabelled, Reordered, HasKeys;
    ghost var v, i, x := V[..], I[..], 0;
    SelectingKeys(s, h, p, v, i, start, k, end);
    j, x := GatherSmallest(I, V, k, end, h);
    ghost var i1 := I[..];
    q := GroupGathered(s, h, p, v, i, i1, start, k, k + j, end, x);
    LabelGroup(I, V, k, k + j, s, q);
    GroupTaken(s, h, p, q, v, V[..], i, i1, I[..], start, k, k + j, end);
  }

  /** Small ranges: repeatedly take out the group with the smallest key. */
  method SplitSmall(I: array<int>, V: array<int>, start: int, len: int, h: nat, ghost s: seq<Byte>, ghost p: seq<int>)
    returns (ghost q: seq<int>)
    requires I != V && I.Length == V.Length == |p| && 0 <= len
    requires Ready(s, h, p, V[..], start, start + len) && Stored(p, I[..], start, start + len)
    modifies I, V
    ensures |q| == |p| && OnlyInside(p, old(V[..]), old(I[..]), q, V[..], I[..], start, start + len)
    ensures Selecting(s, h, q, V[..], I[..], start, start + len, start + len)
  {
    hide Selecting, OnlyInside, Ready, Stored;
    ghost var end, v0, i0 := start + len, V[..], I[..];
    SelectingStart(s, h, p, v0, i0, start, end);
    q := p;
    var k := start;
    while k < start + len
      invariant start <= k <= end && |q| == |p|
      invariant OnlyInside(p, v0, i0, q, V[..], I[..], start, end)
      invariant Selecting(s, h, q, V[..], I[..], start, k, end)
    {
      ghost var q0, v, i := q, V[..], I[..];
      var j;
      j, q := TakeSmallest(I, V, k, start + len, h, start, s, q);
      OnlyInsideTwice(p, v0, i0, q0, v, i, q, V[..], I[..], k, end, start, end);
      k := k + j;
    }
  }

  /** The sizes found by `Partition`: smaller keys in [lo, jj), equal ones in [jj, kk), larger
      ones in [kk, hi). */
  lemma PartitionOrders(s: seq<Byte>, h: nat, p: seq<int>, v: seq<int>, i: seq<int>, i': seq<int>,
                        lo: int, jj: int, kk: int, hi: int, x: int)
    returns (q: seq<int>)
    requires Ready(s, h, p, v, lo, hi) && Stored(p, i, lo, hi)
    requires Partitioned(i, i', v, h, lo, jj, kk, hi, x)
    ensures OnlyInside(p, v, i, q, v, i', lo, hi) && Stored(q, i', lo, jj)
    ensures Ready(s, h, q, v, lo, jj) && Ready(s, h, q, v, lo, hi) && Stored(q, i', lo, hi)
    ensures Separated(s, h, q, jj, kk, hi)
  {
    q := Grafted(p, i', lo, hi);
    GraftedReordering(p, i, i', lo, hi);
    ReadyAfterReordering(s, h, p, q, v, lo, hi);
    forall j, k | lo <= j < hi && lo <= k < hi
      ensures j < jj <= k || j < kk <= k ==> Before(s, q, j, k)
      ensures jj <= j < kk && jj <= k < kk ==> Share(s, q, j, k, 2 * h)
    {
      KeyOrder(s, h, q, v, lo, hi, j, k);
    }
  }

  ghost predicate Partitioned(i: seq<int>, i': seq<int>, v: seq<int>, h: nat, lo: int, jj: int, kk: int, hi: int,
                              x: int) {
    && Reordered(i, i', lo, hi) && lo <= jj < kk <= hi
    && forall m | lo <= m < hi :: 0 <= i'[m] && i'[m] + h < |v| && Class(v[i'[m] + h], x) == if m < jj then -1
        else if m < kk then 0 else 1
  }

  lemma LeftDone(s: seq<Byte>, h: nat, p: seq<int>, v: seq<int>, i: seq<int>, q: seq<int>, w: seq<int>, i': seq<int>,
                 start: int, jj: int, kk: int, end: int)
    requires Ready(s, h, p, v, start, end) && Stored(p, i, start, end)
    requires start <= jj <= kk <= end && Separated(s, h, p, jj, kk, end)
    requires OnlyInside(p, v, i, q, w, i', start, jj) && Selecting(s, h, q, w, i', start, jj, jj)
    ensures Selecting(s, h, q, w, i', start, jj, end) && Separated(s, h, q, jj, kk, end)
  {
    assert forall k | jj <= k < |p| :: q[k] == p[k] && w[q[k]] == v[p[k]] && i'[k] == i[k];
    forall j, k | jj <= j < end && jj <= k < |p|
      ensures end <= k ==> Before(s, q, j, k)
      ensures j < kk <= k < end ==> Before(s, q, j, k)
      ensures j < kk && k < kk ==> Share(s, q, j, k, 2 * h)
    {
      assert end <= k ==> Before(s, p, j, k);
      assert j < kk <= k < end ==> Before(s, p, j, k);
      assert j < kk && k < kk ==> Share(s, p, j, k, 2 * h);
    }
  }

  lemma RightDone(s: seq<Byte>, h: nat, p: seq<int>, v: seq<int>, i: seq<int>, q: seq<int>, w: seq<int>, i': seq<int>,
                  start: int, kk: int, end: int)
    requires Selecting(s, h, p, v, i, start, kk, end)
    requires OnlyInside(p, v, i, q, w, i', kk, end) && Selecting(s, h, q, w, i', kk, end, end)
    ensures Selecting(s, h, q, w, i', start, end, end)
  {
    RefinedElsewhere(s, 2 * h, p, v, i, q, w, i', start, kk);
    RefinedJoin(s, 2 * h, q, w, i', start, kk, end);
  }

  /** The equal keys are labelled as one group; this needs nothing of the labels that the left
      part has changed in the meantime. */
  lemma MiddleReady(s: seq<Byte>, h: nat, p: seq<int>, v: seq<int>, i: seq<int>, start: int, jj: int, kk: int, end: int)
    requires Selecting(s, h, p, v, i, start, jj, end) && jj <= kk <= end
    ensures Arranged(s, p, v) && Stored(p, i, jj, kk)
  {
  }

  lemma MiddleDone(s: seq<Byte>, h: nat, p: seq<int>, v: seq<int>, i: seq<int>, w: seq<int>, i': seq<int>,
                   start: int, jj: int, kk: int, end: int)
    requires Selecting(s, h, p, v, i, start, jj, end) && jj < kk <= end
    requires Arranged(s, p, v) && Separated(s, h, p, jj, kk, end)
    requires Relabelled(s, p, v, w, jj, kk) && i' == if jj + 1 == kk then i[jj := -1] else i
    ensures OnlyInside(p, v, i, p, w, i', jj, end)
    ensures Selecting(s, h, p, w, i', start, kk, end)
    ensures Ready(s, h, p, w, kk, end) && Stored(p, i', kk, end)
  {
    GroupTaken(s, h, p, p, v, w, i, i, i', start, jj, kk, end);
  }

  /** `split`: refines the group stored at [start, start + len), whose members share `h` bytes,
      into groups whose members share 2h bytes, and touches nothing else. */
  method Split(I: array<int>, V: array<int>, start: int, len: int, h: nat, ghost s: seq<Byte>, ghost p: seq<int>)
    returns (ghost q: seq<int>)
    requires I != V && I.Length == V.Length == |p| && 0 <= len
    requires Ready(s, h, p, V[..], start, start + len) && Stored(p, I[..], start, start + len)
    modifies I, V
    ensures |q| == |p| && OnlyInside(p, old(V[..]), old(I[..]), q, V[..], I[..], start, start + len)
    ensures Selecting(s, h, q, V[..], I[..], start, start + len, start + len)
    decreases len
  {
    hide Selecting, OnlyInside, Ready, Stored, Separated, Arranged, Relabelled, Partitioned, HasKeys, SuffixList;
    if len < 16 {
      q := SplitSmall(I, V, start, len, h, s, p);
      return;
    }
    ghost var end, v0, i0 := start + len, V[..], I[..];
    ReadyKeys(s, h, p, v0, i0, start, end);
    var jj, kk, x := Partition(I, V, start, len, h);
    ghost var i1 := I[..];
    ghost var p1 := PartitionOrders(s, h, p, v0, i0, i1, start, jj, kk, end, x);
    q := p1;
    if jj > start {
      q := Split(I, V, start, jj - start, h, s, p1);
    } else {
      SelectingStart(s, h, p1, v0, i1, start, jj);
    }
    LeftDone(s, h, p1, v0, i1, q, V[..], I[..], start, jj, kk, end);
    OnlyInsideTwice(p, v0, i0, p1, v0, i1, q, V[..], I[..], start, jj, start, end);
    MiddleReady(s, h, q, V[..], I[..], start, jj, kk, end);
    ghost var v2, i2 := V[..], I[..];
    LabelGroup(I, V, jj, kk, s, q);
    MiddleDone(s, h, q, v2, i2, V[..], I[..], start, jj, kk, end);
    OnlyInsideTwice(p, v0, i0, q, v2, i2, q, V[..], I[..], jj, end, start, end);
    if start + len > kk {
      ghost var p3, v3, i3 := q, V[..], I[..];
      q := Split(I, V, kk, start + len - kk, h, s, q);
      RightDone(s, h, p3, v3, i3, q, V[..], I[..], start, kk, end);
      OnlyInsideTwice(p, v0, i0, p3, v3, i3, q, V[..], I[..], kk, end, start, end);
    }
  }

  // ---------------------------------------------------------------- the passes of qsufsort

  /** Position `k` stores a suffix of at least `h` bytes, or starts a stretch of sorted
      singletons of the length it is marked with. */
  ghost predicate Placed(s: seq<Byte>, h: nat, p: seq<int>, v: seq<int>, i: seq<int>, k: int)
    requires Arranged(s, p, v) && 0 <= k < |p| == |i|
  {
    if i[k] >= 0 then i[k] == p[k] && p[k] + h <= |s|
    else
      && v[p[k]] == k && (forall j | 0 <= j < k :: v[p[j]] < k)
      && k - i[k] <= |i| && forall j | k <= j < k - i[k] :: i[j] < 0
  }

  /** The state between two passes. */
  ghost predicate Grouped(s: seq<Byte>, h: nat, p: seq<int>, v: seq<int>, i: seq<int>) {
    && Labelled(s, h, p, v) && |i| == |p|
    && (forall k | 0 <= k < |p| :: InGroup(s, p, v, |p|, k))
    && (forall k | 0 <= k < |p| :: Placed(s, h, p, v, i, k))
    && (forall j, k | 0 <= j < k < |p| :: Rising(s, h, p, v, j, k))
  }

  /** The state within a pass that has reached position `m`. */
  ghost predicate Passing(s: seq<Byte>, h: nat, p: seq<int>, v: seq<int>, i: seq<int>, m: int) {
    && Grouped(s, h, p, v, i) && 0 <= m <= |p|
    && (forall k | 0 <= k < m :: v[p[k]] < m && (i[k] >= 0 ==> p[k] + 2 * h <= |s|))
    && (forall j, k | 0 <= j < k < m :: Rising(s, 2 * h, p, v, j, k))
  }

  /** A stored position begins a whole stored group, on which `split` may be called. */
  lemma GroupReady(s: seq<Byte>, h: nat, p: seq<int>, v: seq<int>, i: seq<int>, m: int)
    requires Passing(s, h, p, v, i, m) && m < |p| && i[m] >= 0
    ensures i[m] == p[m] && m <= v[p[m]] < |p|
    ensures Ready(s, h, p, v, m, v[p[m]] + 1) && Stored(p, i, m, v[p[m]] + 1)
  {
    var last := v[p[m]];
    assert InGroup(s, p, v, |p|, m) && Placed(s, h, p, v, i, m);
    forall k | m <= k <= last ensures v[p[k]] == last && i[k] == p[k] && p[k] + h <= |s| {
      assert m < k ==> Rising(s, h, p, v, m, k);
      assert k < last ==> Rising(s, h, p, v, k, last);
      assert Placed(s, h, p, v, i, k);
    }
    forall j, k | m <= j <= last < k < |p| ensures Before(s, p, j, k) {
      assert Told(s, h, p, v, j, k);
    }
  }

  lemma SplitDone(s: seq<Byte>, h: nat, p: seq<int>, v: seq<int>, i: seq<int>, q: seq<int>, w: seq<int>, i': seq<int>,
                  m: int, end: int)
    requires Passing(s, h, p, v, i, m) && m < end <= |p| && Stored(p, i, m, end)
    requires OnlyInside(p, v, i, q, w, i', m, end) && Selecting(s, h, q, w, i', m, end, end)
    ensures Passing(s, h, q, w, i', end)
  {
    forall k | 0 <= k < |q|
      ensures InGroup(s, q, w, |q|, k)
      ensures k < end && i'[k] >= 0 ==> q[k] + 2 * h <= |s|
    {
      assert InGroup(s, p, v, |p|, k);
      assert m <= k < end ==> InGroup(s, q, w, end, k) && Marked(s, 2 * h, q, w, i', m, k);
    }
    forall k | 0 <= k < |q| ensures Placed(s, h, q, w, i', k) {
      if m <= k < end {
        assert InGroup(s, q, w, end, k) && Marked(s, 2 * h, q, w, i', m, k);
      } else {
        assert Placed(s, h, p, v, i, k);
      }
    }
    forall j, k | 0 <= j < k < |q|
      ensures Rising(s, h, q, w, j, k)
      ensures k < end ==> Rising(s, 2 * h, q, w, j, k)
    {
      assert Told(s, h, q, w, j, k);
      assert Rising(s, h, p, v, j, k);
      assert k < m ==> Rising(s, 2 * h, p, v, j, k);
      assert m <= j && k < end ==> Rising(s, 2 * h, q, w, j, k);
    }
  }
}
