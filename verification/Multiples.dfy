/** Multiples of a block size. */
module Multiples {
  /** `x` is a multiple of `size`. */
  predicate Aligned(x: nat, size: nat) {
    size > 0 && (x == 0 || (x >= size && Aligned(x - size, size)))
  }

  /** A multiple below the end of `n` blocks has a whole block ahead of it. */
  lemma {:induction false} AlignedNext(x: nat, size: nat, n: nat)
    requires Aligned(x, size) && x < n * size
    ensures x + size <= n * size && Aligned(x + size, size)
  {
    assert n > 0;
    assert n * size == (n - 1) * size + size;
    if x > 0 {
      AlignedNext(x - size, size, n - 1);
    }
  }

  lemma ZeroAligned(size: nat)
    requires size > 0
    ensures Aligned(0, size)
  {
  }

  lemma {:induction false} AlignedSum(x: nat, y: nat, b: nat)
    requires Aligned(x, b) && Aligned(y, b)
    ensures Aligned(x + y, b)
  {
    if x > 0 {
      AlignedSum(x - b, y, b);
    }
  }

  lemma {:induction false} AlignedDifference(x: nat, y: nat, b: nat)
    requires Aligned(x, b) && Aligned(x + y, b)
    ensures Aligned(y, b)
  {
    if x > 0 {
      AlignedDifference(x - b, y, b);
    }
  }

  lemma {:induction false} AlignedThrough(x: nat, m: nat, b: nat)
    requires Aligned(x, m) && Aligned(m, b)
    ensures Aligned(x, b)
  {
    if x > 0 {
      AlignedThrough(x - m, m, b);
      AlignedSum(x - m, m, b);
    }
  }

  lemma {:induction false} AlignedProduct(n: nat, b: nat)
    requires b > 0
    ensures n * b >= 0 && Aligned(n * b, b)
  {
    if n > 0 {
      AlignedProduct(n - 1, b);
      assert n * b == (n - 1) * b + b;
    }
  }

  /** Between two multiples of `size` no further than `size` apart there is exactly one block. */
  lemma OneBlockApart(r: nat, w: nat, t: nat, size: nat)
    requires size > 0 && r < t && w < t && Aligned(r, size) && Aligned(w, size) && Aligned(t, size)
    requires 0 < (if w >= r then w - r else w + (t - r)) <= size
    ensures w == if r + size == t then 0 else r + size
  {
    if w >= r {
      AlignedDifference(r, w - r, size);
    } else {
      AlignedDifference(r, t - r, size);
      AlignedSum(w, t - r, size);
    }
  }

  lemma MultipleBetween(c: nat, m: nat, size: nat)
    requires Aligned(c, size) && (m - 1) * size < c < (m + 1) * size && m > 0
    ensures c == m * size
  {
    AlignedProduct(m - 1, size);
    var k := c - (m - 1) * size;
    assert (m + 1) * size == (m - 1) * size + 2 * size && m * size == (m - 1) * size + size;
    AlignedDifference((m - 1) * size, k, size);
  }
}
