/** The first step of `qsufsort`: suffixes sorted by their first byte with 256 counters. */
module BucketSort {
  import opened Bytes
  import opened SuffixSort

  /** How many bytes of `s` are `c`. */
  ghost function Tally(s: seq<Byte>, c: int): nat {
    multiset(s)[c]
  }

  /** How many bytes of `s` are smaller than `c`. */
  ghost function Upto(s: seq<Byte>, c: nat): nat {
    if c == 0 then 0 else Upto(s, c - 1) + Tally(s, c - 1)
  }

  /** The last position of the block of suffixes that start with byte `b`. */
  ghost function BlockEnd(s: seq<Byte>, b: nat): nat {
    Upto(s, b + 1)
  }

  /** Where the suffix at `a` is put: after all smaller first bytes and all earlier equal ones. */
  ghost function Slot(s: seq<Byte>, a: nat): nat
    requires a < |s|
  {
    Upto(s, s[a]) + Tally(s[..a], s[a]) + 1
  }

  lemma {:induction false} UptoMonotone(s: seq<Byte>, c: nat, d: nat)
    requires c <= d
    ensures Upto(s, c) <= Upto(s, d)
    decreases d
  {
    if c < d {
      UptoMonotone(s, c, d - 1);
    }
  }

  lemma {:induction false} UptoAppend(s: seq<Byte>, x: Byte, c: nat)
    ensures Upto(s + [x], c) == Upto(s, c) + if x < c then 1 else 0
  {
    if c > 0 {
      UptoAppend(s, x, c - 1);
    }
  }

  lemma {:induction false} UptoAll(s: seq<Byte>)
    ensures Upto(s, 256) == |s|
  {
    if s == [] {
      UptoEmpty(256);
    } else {
      var n := |s| - 1;
      assert s == s[..n] + [s[n]];
      UptoAppend(s[..n], s[n], 256);
      UptoAll(s[..n]);
    }
  }

  lemma {:induction false} UptoEmpty(c: nat)
    ensures Upto([], c) == 0
  {
    if c > 0 {
      UptoEmpty(c - 1);
    }
  }

  lemma PrefixCount(s: seq<Byte>, a: nat)
    requires a < |s|
    ensures Tally(s[..a + 1], s[a]) == Tally(s[..a], s[a]) + 1
    ensures forall c: Byte | c != s[a] :: Tally(s[..a + 1], c) == Tally(s[..a], c)
    ensures Tally(s[..a], s[a]) < Tally(s, s[a])
  {
    assert s[..a + 1] == s[..a] + [s[a]];
    assert s == s[..a] + [s[a]] + s[a + 1..];
  }

  /** Blocks are as long as their bytes are frequent, so those of a part of the text fit in. */
  lemma BlockSize(s: seq<Byte>, n: nat, c: nat)
    requires n <= |s|
    ensures BlockEnd(s, c) == Upto(s, c) + Tally(s, c)
    ensures Tally(s[..n], c) <= Tally(s, c)
  {
    assert s == s[..n] + s[n..];
  }

  /** Every slot lies in the block of its byte, between the smaller and the larger bytes. */
  lemma SlotInBlock(s: seq<Byte>, a: nat)
    requires a < |s|
    ensures Upto(s, s[a]) < Slot(s, a) <= BlockEnd(s, s[a]) <= |s|
  {
    PrefixCount(s, a);
    UptoMonotone(s, (s[a] as int) + 1, 256);
    UptoAll(s);
  }

  /** Slots of smaller bytes come first. */
  lemma SlotOrder(s: seq<Byte>, a: nat, b: nat)
    requires a < |s| && b < |s|
    ensures s[a] < s[b] ==> Slot(s, a) <= BlockEnd(s, s[a]) <= Upto(s, s[b]) < Slot(s, b) <= BlockEnd(s, s[b])
  {
    SlotInBlock(s, a);
    SlotInBlock(s, b);
    if s[a] < s[b] {
      UptoMonotone(s, (s[a] as int) + 1, s[b]);
    }
  }

  // ---------------------------------------------------------------- the sorted state

  /** `p` lists the suffixes by slot, the empty one first. */
  ghost predicate Slotted(s: seq<Byte>, p: seq<int>) {
    && |p| == |s| + 1 && p[0] == |s|
    && (forall k | 1 <= k < |p| :: 0 <= p[k] < |s| && Slot(s, p[k]) == k)
    && (forall a | 0 <= a < |s| :: Slot(s, a) < |p| && p[Slot(s, a)] == a)
  }

  /** `v` labels every suffix with the last position of its first byte's block. */
  ghost predicate BlockLabels(s: seq<Byte>, v: seq<int>) {
    |v| == |s| + 1 && v[|s|] == 0 && forall a | 0 <= a < |s| :: v[a] == BlockEnd(s, s[a])
  }

  lemma SlottedPermutation(s: seq<Byte>, p: seq<int>)
    requires Slotted(s, p)
    ensures SuffixList(s, p)
  {
    forall a | 0 <= a < |p| ensures a in p {
      if a < |s| {
        assert p[Slot(s, a)] == a;
      } else {
        assert p[0] == a;
      }
    }
    forall j, k | 0 <= j < k < |p| ensures p[j] != p[k] {
      assert 0 <= p[k] < |s| && Slot(s, p[k]) == k;
      assert 0 < j ==> 0 <= p[j] < |s| && Slot(s, p[j]) == j;
    }
  }

  lemma BlockPair(s: seq<Byte>, p: seq<int>, v: seq<int>, j: nat, k: nat)
    requires Slotted(s, p) && SuffixList(s, p) && BlockLabels(s, v) && j < |p| && k < |p|
    ensures Told(s, 1, p, v, j, k) && k <= v[p[k]] < |p|
    ensures j < k ==> v[p[j]] <= v[p[k]]
  {
    var a, b := p[j], p[k];
    if b < |s| {
      SlotInBlock(s, b);
      assert Slot(s, b) == k;
      if a < |s| {
        assert Slot(s, a) == j;
        SlotOrder(s, a, b);
        SlotOrder(s, b, a);
      }
    }
    if a < |s| {
      SlotInBlock(s, a);
    }
  }

  /** Position `k` is as placed, or marked because its block has one member. */
  ghost predicate MarkedBlock(s: seq<Byte>, p: seq<int>, i: seq<int>, k: nat)
    requires Slotted(s, p) && 1 <= k < |p| == |i|
  {
    i[k] == p[k] || (i[k] == -1 && Upto(s, s[p[k]]) + 1 == BlockEnd(s, s[p[k]]) == k)
  }

  ghost predicate MarkedBlocks(s: seq<Byte>, p: seq<int>, i: seq<int>)
    requires Slotted(s, p)
  {
    |i| == |p| && forall k | 1 <= k < |p| :: MarkedBlock(s, p, i, k)
  }

  lemma MarkStep(s: seq<Byte>, p: seq<int>, i: seq<int>, c: nat)
    requires Slotted(s, p) && MarkedBlocks(s, p, i)
    requires 1 <= c < 256 && BlockEnd(s, c) == BlockEnd(s, c - 1) + 1
    ensures 1 <= BlockEnd(s, c) < |p| && MarkedBlocks(s, p, i[BlockEnd(s, c) := -1])
  {
    var m := BlockEnd(s, c);
    UptoMonotone(s, c + 1, 256);
    UptoAll(s);
    var a := p[m];
    assert 0 <= a < |s| && Slot(s, a) == m;
    SlotInBlock(s, a);
    if s[a] < c {
      UptoMonotone(s, (s[a] as int) + 1, c);
    } else if s[a] > c {
      UptoMonotone(s, c + 1, s[a]);
    }
    var i' := i[m := -1];
    forall k | 1 <= k < |p| ensures MarkedBlock(s, p, i', k) {
      assert MarkedBlock(s, p, i, k);
    }
  }

  lemma BlockMember(s: seq<Byte>, p: seq<int>, v: seq<int>, i: seq<int>, k: nat)
    requires Slotted(s, p) && SuffixList(s, p) && BlockLabels(s, v) && 1 <= k < |p| && MarkedBlocks(s, p, i)
    ensures InGroup(s, p, v, |p|, k) && Placed(s, 1, p, v, i, k)
  {
    var a, last := p[k], v[p[k]];
    SlotInBlock(s, a);
    var b := p[last];
    assert Slot(s, a) == k && Slot(s, b) == last;
    SlotInBlock(s, b);
    SlotOrder(s, a, b);
    SlotOrder(s, b, a);
    assert MarkedBlock(s, p, i, k);
    if i[k] != p[k] {
      forall j | 0 <= j < k ensures v[p[j]] < k {
        if j > 0 {
          assert Slot(s, p[j]) == j;
          SlotInBlock(s, p[j]);
          SlotOrder(s, p[j], a);
          SlotOrder(s, a, p[j]);
        }
      }
    }
  }

  lemma BucketsGrouped(s: seq<Byte>, p: seq<int>, v: seq<int>, i: seq<int>)
    requires Slotted(s, p) && BlockLabels(s, v) && MarkedBlocks(s, p, i) && i[0] == -1
    ensures Grouped(s, 1, p, v, i)
  {
    SlottedPermutation(s, p);
    forall j, k | 0 <= j < |p| && 0 <= k < |p|
      ensures Told(s, 1, p, v, j, k)
      ensures j < k ==> Rising(s, 1, p, v, j, k)
    {
      BlockPair(s, p, v, j, k);
    }
    forall k | 0 <= k < |p| ensures k <= v[p[k]] < |p| {
      BlockPair(s, p, v, k, k);
    }
    forall k | 0 <= k < |p| ensures InGroup(s, p, v, |p|, k) && Placed(s, 1, p, v, i, k) {
      if k > 0 {
        BlockMember(s, p, v, i, k);
      }
    }
  }

  // ---------------------------------------------------------------- the counting sort

  /** How often each byte occurs. */
  method CountBytes(s: seq<Byte>, buckets: array<int>)
    requires buckets.Length == 256
    modifies buckets
    ensures forall c: Byte :: buckets[c] == Tally(s, c)
  {
    var i := 0;
    while i < 256
      invariant 0 <= i <= 256 && forall c | 0 <= c < i :: buckets[c] == 0
    {
      buckets[i] := 0;
      i := i + 1;
    }
    i := 0;
    while i < |s|
      invariant 0 <= i <= |s|
      invariant forall c: Byte :: buckets[c] == Tally(s[..i], c)
    {
      PrefixCount(s, i);
      buckets[s[i]] := buckets[s[i]] + 1;
      i := i + 1;
    }
    assert s[..|s|] == s;
  }

  /** Running totals, then moved up by one. */
  method RunningTotals(ghost s: seq<Byte>, buckets: array<int>)
    requires buckets.Length == 256
    requires forall c: Byte :: buckets[c] == Tally(s, c)
    modifies buckets
    ensures forall c | 0 <= c < 256 :: buckets[c] == Upto(s, c)
  {
    assert BlockEnd(s, 0) == Upto(s, 0) + Tally(s, 0);
    var i := 1;
    while i < 256
      invariant 1 <= i <= 256
      invariant forall c | 0 <= c < i :: buckets[c] == BlockEnd(s, c)
      invariant forall c: Byte | i <= c :: buckets[c] == Tally(s, c)
    {
      buckets[i] := buckets[i] + buckets[i - 1];
      i := i + 1;
    }
    i := 255;
    while i > 0
      invariant 0 <= i <= 255
      invariant forall c | 0 <= c <= i :: buckets[c] == BlockEnd(s, c)
      invariant forall c | i < c < 256 :: buckets[c] == Upto(s, c)
    {
      buckets[i] := buckets[i - 1];
      assert BlockEnd(s, i - 1) == Upto(s, i);
      i := i - 1;
    }
    buckets[0] := 0;
  }

  /** The slots of block `c` up to `last` are filled from the first `n` suffixes. */
  ghost predicate Filled(s: seq<Byte>, i: seq<int>, c: nat, last: int, n: nat) {
    && 0 <= last < |i|
    && forall k | Upto(s, c) < k <= last :: 0 <= i[k] < |s| && i[k] < n && Slot(s, i[k]) == k
  }

  /** The first `n` suffixes stand in their slots and nothing else has been put into any block. */
  ghost predicate Placing(s: seq<Byte>, i: seq<int>, n: nat) {
    && |i| == |s| + 1 && n <= |s|
    && (forall c: Byte :: Filled(s, i, c, Upto(s, c) + Tally(s[..n], c), n))
    && (forall a | 0 <= a < n :: Slot(s, a) < |i| && i[Slot(s, a)] == a)
  }

  lemma SlotInjective(s: seq<Byte>, a: nat, b: nat)
    requires a < b < |s|
    ensures Slot(s, a) != Slot(s, b)
  {
    SlotOrder(s, a, b);
    SlotOrder(s, b, a);
    if s[a] == s[b] {
      PrefixCount(s, a);
      assert s[..b] == s[..a + 1] + s[a + 1..b];
    }
  }

  lemma PlaceStep(s: seq<Byte>, i: seq<int>, n: nat)
    requires Placing(s, i, n) && n < |s|
    ensures Slot(s, n) < |i| && Placing(s, i[Slot(s, n) := n], n + 1)
  {
    hide Tally, Upto, BlockEnd;
    SlotInBlock(s, n);
    PrefixCount(s, n);
    var i' := i[Slot(s, n) := n];
    forall a | 0 <= a < n ensures Slot(s, a) < |i'| && i'[Slot(s, a)] == a {
      SlotInjective(s, a, n);
    }
    forall c: Byte ensures Filled(s, i', c, Upto(s, c) + Tally(s[..n + 1], c), n + 1) {
      BlockFilled(s, i, n, c);
    }
  }

  /** The block of the suffix at `n` grows by its slot, the other blocks stay as they are. */
  lemma BlockFilled(s: seq<Byte>, i: seq<int>, n: nat, c: Byte)
    requires n < |s| && Slot(s, n) < |i| && Filled(s, i, c, Upto(s, c) + Tally(s[..n], c), n)
    ensures Filled(s, i[Slot(s, n) := n], c, Upto(s, c) + Tally(s[..n + 1], c), n + 1)
  {
    hide Tally, Upto, BlockEnd;
    PrefixCount(s, n);
    if c != s[n] {
      SlotInBlock(s, n);
      BlockSize(s, n, c);
      NextBlock(s, c, s[n]);
      NextBlock(s, s[n], c);
    }
  }

  lemma NextBlock(s: seq<Byte>, c: nat, d: nat)
    ensures c < d ==> BlockEnd(s, c) <= Upto(s, d)
  {
    if c < d {
      UptoMonotone(s, c + 1, d);
    }
  }

  lemma {:induction false} FindBlock(s: seq<Byte>, k: nat, d: nat) returns (c: nat)
    requires 0 < k <= Upto(s, d)
    ensures c < d && Upto(s, c) < k <= BlockEnd(s, c)
  {
    if Upto(s, d - 1) < k {
      c := d - 1;
    } else {
      c := FindBlock(s, k, d - 1);
    }
  }

  lemma PlacedAll(s: seq<Byte>, i: seq<int>)
    requires Placing(s, i, |s|)
    ensures Slotted(s, i[0 := |s|])
  {
    hide Tally, Upto, BlockEnd;
    assert s[..|s|] == s;
    UptoAll(s);
    forall k | 1 <= k < |i| ensures 0 <= i[k] < |s| && Slot(s, i[k]) == k {
      var c := FindBlock(s, k, 256);
      BlockSize(s, |s|, c);
      assert Filled(s, i, c, Upto(s, c) + Tally(s[..|s|], c), |s|);
    }
    forall a | 0 <= a < |s| ensures Slot(s, a) > 0 {
      SlotInBlock(s, a);
    }
  }

  method PlaceAll(s: seq<Byte>, I: array<int>, buckets: array<int>)
    requires I != buckets && I.Length == |s| + 1 && buckets.Length == 256
    requires forall c | 0 <= c < 256 :: buckets[c] == Upto(s, c)
    modifies I, buckets
    ensures Slotted(s, I[..])
    ensures forall c | 0 <= c < 256 :: buckets[c] == BlockEnd(s, c)
  {
    hide Placing, Upto, Slotted, BlockEnd;
    PlacingStart(s, I[..]);
    var i := 0;
    while i < |s|
      invariant 0 <= i <= |s|
      invariant forall c: Byte :: buckets[c] == Upto(s, c) + Tally(s[..i], c)
      invariant Placing(s, I[..], i)
    {
      PlaceStep(s, I[..], i);
      PrefixCount(s, i);
      buckets[s[i]] := buckets[s[i]] + 1;
      I[buckets[s[i]]] := i;
      i := i + 1;
    }
    assert s[..|s|] == s;
    forall c: nat ensures BlockEnd(s, c) == Upto(s, c) + Tally(s, c) {
      BlockSize(s, |s|, c);
    }
    PlacedAll(s, I[..]);
    I[0] := |s|;
  }

  lemma PlacingStart(s: seq<Byte>, i: seq<int>)
    requires |i| == |s| + 1
    ensures Placing(s, i, 0)
  {
    forall c: Byte ensures Upto(s, c) <= |s| {
      UptoMonotone(s, c, 256);
      UptoAll(s);
    }
  }

  /** Labels every suffix and marks the blocks of one.  Block 0 is not looked at, so a single zero
      byte leaves a stored group of one behind. */
  method LabelBlocks(s: seq<Byte>, I: array<int>, V: array<int>, buckets: array<int>)
    requires I != V && I != buckets && V != buckets && I.Length == V.Length == |s| + 1 && buckets.Length == 256
    requires Slotted(s, I[..]) && forall c | 0 <= c < 256 :: buckets[c] == BlockEnd(s, c)
    modifies I, V
    ensures Grouped(s, 1, old(I[..]), V[..], I[..])
  {
    ghost var p := I[..];
    var i := 0;
    while i < |s|
      invariant 0 <= i <= |s| && I[..] == p
      invariant forall a | 0 <= a < i :: V[a] == BlockEnd(s, s[a])
    {
      V[i] := buckets[s[i]];
      i := i + 1;
    }
    V[|s|] := 0;
    i := 1;
    while i < 256
      invariant 1 <= i <= 256 && BlockLabels(s, V[..])
      invariant MarkedBlocks(s, p, I[..])
    {
      if buckets[i] == buckets[i - 1] + 1 {
        MarkStep(s, p, I[..], i);
        I[buckets[i]] := -1;
      }
      i := i + 1;
    }
    ghost var i1 := I[..];
    I[0] := -1;
    assert forall k | 1 <= k < |p| :: MarkedBlock(s, p, i1, k) ==> MarkedBlock(s, p, I[..], k);
    BucketsGrouped(s, p, V[..], I[..]);
  }
}
