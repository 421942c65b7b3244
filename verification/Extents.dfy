/** How far a match is extended: the forward and backward extents and the split of their overlap. */
module Extents {
  import opened Bytes

  /** How many of the `n` bytes at `a` in `s` equal those at `b` in `t`. */
  function Matches(s: seq<Byte>, t: seq<Byte>, a: int, b: int, n: nat): (m: nat)
    requires 0 <= a && a + n <= |s| && 0 <= b && b + n <= |t|
    ensures m <= n
  {
    if n == 0 then 0
    else Matches(s, t, a, b, n - 1) + if s[a + n - 1] == t[b + n - 1] then 1 else 0
  }

  lemma {:induction false} MatchesSplit(s: seq<Byte>, t: seq<Byte>, a: int, b: int, m: nat, n: nat)
    requires 0 <= a && a + m + n <= |s| && 0 <= b && b + m + n <= |t|
    ensures Matches(s, t, a, b, m + n) == Matches(s, t, a, b, m) + Matches(s, t, a + m, b + m, n)
  {
    if n > 0 {
      MatchesSplit(s, t, a, b, m, n - 1);
    }
  }

  /** Two points for every matching byte, minus one for every byte: what an extent is worth. */
  function Score(s: seq<Byte>, t: seq<Byte>, a: int, b: int, n: nat): int
    requires 0 <= a && a + n <= |s| && 0 <= b && b + n <= |t|
  {
    2 * Matches(s, t, a, b, n) - n
  }

  // ---------------------------------------------------------------- forward

  predicate CanForward(s: seq<Byte>, t: seq<Byte>, lastpos: int, lastscan: int, scan: int, n: int) {
    0 <= lastpos && 0 <= lastscan && scan <= |t| && 0 <= n && lastscan + n <= scan && lastpos + n <= |s|
  }

  /** `lenf` is the shortest of the most valuable forward extents that stop before `scan`. */
  ghost predicate BestForward(s: seq<Byte>, t: seq<Byte>, lastpos: int, lastscan: int, scan: int, lenf: int) {
    && CanForward(s, t, lastpos, lastscan, scan, lenf)
    && forall n | CanForward(s, t, lastpos, lastscan, scan, n) ::
         if n < lenf then Score(s, t, lastpos, lastscan, n) < Score(s, t, lastpos, lastscan, lenf)
         else Score(s, t, lastpos, lastscan, n) <= Score(s, t, lastpos, lastscan, lenf)
  }

  lemma ForwardUnique(s: seq<Byte>, t: seq<Byte>, lastpos: int, lastscan: int, scan: int, m: int, n: int)
    requires BestForward(s, t, lastpos, lastscan, scan, m) && BestForward(s, t, lastpos, lastscan, scan, n)
    ensures m == n && 0 <= lastpos && 0 <= lastscan && 0 <= m && lastscan + m <= scan <= |t| && lastpos + m <= |s|
  {
  }

  method ForwardExtent(oldFile: seq<Byte>, newFile: seq<Byte>, lastscan: nat, scan: nat, lastpos: nat)
      returns (lenf: nat)
    requires lastscan <= scan <= |newFile| && lastpos <= |oldFile|
    ensures BestForward(oldFile, newFile, lastpos, lastscan, scan, lenf)
  {
    var s, bestForward, i := 0, 0, 0;
    lenf := 0;
    while lastscan + i < scan && lastpos + i < |oldFile|
      invariant 0 <= lenf <= i && CanForward(oldFile, newFile, lastpos, lastscan, scan, i)
      invariant s == Matches(oldFile, newFile, lastpos, lastscan, i)
      invariant bestForward == Matches(oldFile, newFile, lastpos, lastscan, lenf)
      invariant forall n | 0 <= n <= i ::
                  if n < lenf then Score(oldFile, newFile, lastpos, lastscan, n) < bestForward * 2 - lenf
                  else Score(oldFile, newFile, lastpos, lastscan, n) <= bestForward * 2 - lenf
    {
      if oldFile[lastpos + i] == newFile[lastscan + i] {
        s := s + 1;
      }
      i := i + 1;
      if s * 2 - i > bestForward * 2 - lenf {
        bestForward := s;
        lenf := i;
      }
    }
  }

  // ---------------------------------------------------------------- backward

  predicate CanBackward(s: seq<Byte>, t: seq<Byte>, pos: int, lastscan: int, scan: int, n: int) {
    0 <= n && n <= pos <= |s| && 0 <= lastscan <= scan - n && scan <= |t|
  }

  function BackScore(s: seq<Byte>, t: seq<Byte>, pos: int, scan: int, n: nat): int
    requires n <= pos <= |s| && n <= scan <= |t|
  {
    Score(s, t, pos - n, scan - n, n)
  }

  /** `lenb` is the shortest of the most valuable backward extents that stop after `lastscan`. */
  ghost predicate BestBackward(s: seq<Byte>, t: seq<Byte>, pos: int, lastscan: int, scan: int, lenb: int) {
    && CanBackward(s, t, pos, lastscan, scan, lenb)
    && forall n | CanBackward(s, t, pos, lastscan, scan, n) ::
         if n < lenb then BackScore(s, t, pos, scan, n) < BackScore(s, t, pos, scan, lenb)
         else BackScore(s, t, pos, scan, n) <= BackScore(s, t, pos, scan, lenb)
  }

  lemma BackwardUnique(s: seq<Byte>, t: seq<Byte>, pos: int, lastscan: int, scan: int, m: int, n: int)
    requires BestBackward(s, t, pos, lastscan, scan, m) && BestBackward(s, t, pos, lastscan, scan, n)
    ensures m == n && 0 <= m <= pos <= |s| && 0 <= lastscan <= scan - m && scan <= |t|
  {
  }

  /** Of the last `i` bytes `s` match; `lenb`, with `best` matches, is the shortest of the most valuable
      extents so far. */
  ghost predicate BackSoFar(t: seq<Byte>, u: seq<Byte>, pos: nat, lastscan: nat, scan: nat, i: nat, s: int, lenb: nat,
                            best: int) {
    && CanBackward(t, u, pos, lastscan, scan, i) && lenb <= i
    && s == Matches(t, u, pos - i, scan - i, i)
    && best * 2 - lenb == BackScore(t, u, pos, scan, lenb)
    && forall n | 0 <= n <= i ::
         if n < lenb then BackScore(t, u, pos, scan, n) < BackScore(t, u, pos, scan, lenb)
         else BackScore(t, u, pos, scan, n) <= BackScore(t, u, pos, scan, lenb)
  }

  lemma BackStart(t: seq<Byte>, u: seq<Byte>, pos: nat, lastscan: nat, scan: nat)
    requires lastscan <= scan <= |u| && pos <= |t|
    ensures BackSoFar(t, u, pos, lastscan, scan, 0, 0, 0, 0)
  {
  }

  lemma BackStep(t: seq<Byte>, u: seq<Byte>, pos: nat, lastscan: nat, scan: nat, i: nat, s: int, lenb: nat, best: int)
    requires BackSoFar(t, u, pos, lastscan, scan, i, s, lenb, best) && scan >= lastscan + i + 1 && pos >= i + 1
    ensures pos <= |t| && scan <= |u|
    ensures var s' := s + if t[pos - i - 1] == u[scan - i - 1] then 1 else 0;
            var better := s' * 2 - (i + 1) > best * 2 - lenb;
            BackSoFar(t, u, pos, lastscan, scan, i + 1, s', if better then i + 1 else lenb, if better then s' else best)
  {
    hide BackScore;
    BackMatches(t, u, pos, scan, i);
  }

  lemma BackMatches(t: seq<Byte>, u: seq<Byte>, pos: nat, scan: nat, i: nat)
    requires i < pos <= |t| && i < scan <= |u|
    ensures Matches(t, u, pos - i - 1, scan - i - 1, i + 1)
            == Matches(t, u, pos - i, scan - i, i) + if t[pos - i - 1] == u[scan - i - 1] then 1 else 0
    ensures BackScore(t, u, pos, scan, i + 1) == 2 * Matches(t, u, pos - i - 1, scan - i - 1, i + 1) - (i + 1)
  {
    MatchesSplit(t, u, pos - i - 1, scan - i - 1, 1, i);
    assert Matches(t, u, pos - i - 1, scan - i - 1, 1) == if t[pos - i - 1] == u[scan - i - 1] then 1 else 0;
  }

  lemma BackEnd(t: seq<Byte>, u: seq<Byte>, pos: nat, lastscan: nat, scan: nat, i: nat, s: int, lenb: nat, best: int)
    requires BackSoFar(t, u, pos, lastscan, scan, i, s, lenb, best) && !(scan >= lastscan + i + 1 && pos >= i + 1)
    ensures BestBackward(t, u, pos, lastscan, scan, lenb)
  {
    hide BackScore;
  }

  method BackwardExtent(oldFile: seq<Byte>, newFile: seq<Byte>, lastscan: nat, scan: nat, pos: nat) returns (lenb: nat)
    requires lastscan <= scan <= |newFile| && pos <= |oldFile|
    ensures BestBackward(oldFile, newFile, pos, lastscan, scan, lenb)
  {
    hide BestBackward, BackSoFar, Matches;
    var s: int, bestBackward: int, i: nat := 0, 0, 1;
    lenb := 0;
    BackStart(oldFile, newFile, pos, lastscan, scan);
    while scan >= lastscan + i && pos >= i
      invariant 1 <= i && BackSoFar(oldFile, newFile, pos, lastscan, scan, i - 1, s, lenb, bestBackward)
    {
      BackStep(oldFile, newFile, pos, lastscan, scan, i - 1, s, lenb, bestBackward);
      if oldFile[pos - i] == newFile[scan - i] {
        s := s + 1;
      }
      if s * 2 - i > bestBackward * 2 - lenb {
        bestBackward := s;
        lenb := i;
      }
      i := i + 1;
    }
    BackEnd(oldFile, newFile, pos, lastscan, scan, i - 1, s, lenb, bestBackward);
  }

  // ---------------------------------------------------------------- overlap

  /** The matches of an overlap of `n` bytes at `b` in the new file when its first `k` bytes are
      taken from `a1` on and the others from the alignment that starts at `a2`. */
  function SplitMatches(s: seq<Byte>, t: seq<Byte>, a1: int, a2: int, b: int, n: nat, k: int): nat
    requires 0 <= a1 && a1 + n <= |s| && 0 <= a2 && a2 + n <= |s| && 0 <= b && b + n <= |t| && 0 <= k <= n
  {
    Matches(s, t, a1, b, k) + Matches(s, t, a2 + k, b + k, n - k)
  }

  lemma SplitValue(s: seq<Byte>, t: seq<Byte>, a1: int, a2: int, b: int, n: nat, k: int)
    requires 0 <= a1 && a1 + n <= |s| && 0 <= a2 && a2 + n <= |s| && 0 <= b && b + n <= |t| && 0 <= k <= n
    ensures SplitMatches(s, t, a1, a2, b, n, k) ==
              Matches(s, t, a1, b, k) - Matches(s, t, a2, b, k) + Matches(s, t, a2, b, n)
  {
    MatchesSplit(s, t, a2, b, k, n - k);
  }

  /** `lens` is the earliest of the best splits. */
  ghost predicate BestSplit(s: seq<Byte>, t: seq<Byte>, a1: int, a2: int, b: int, n: nat, lens: int)
    requires 0 <= a1 && a1 + n <= |s| && 0 <= a2 && a2 + n <= |s| && 0 <= b && b + n <= |t|
  {
    && 0 <= lens <= n
    && forall k | 0 <= k <= n ::
         if k < lens then SplitMatches(s, t, a1, a2, b, n, k) < SplitMatches(s, t, a1, a2, b, n, lens)
         else SplitMatches(s, t, a1, a2, b, n, k) <= SplitMatches(s, t, a1, a2, b, n, lens)
  }

  /** After `i` bytes the two alignments differ by `s` matches; they differed by `best` after `lens`
      bytes, which is the earliest of the largest differences. */
  ghost predicate SplitSoFar(t: seq<Byte>, u: seq<Byte>, a1: int, a2: int, b: int, n: nat, i: nat, s: int, lens: nat,
                             best: int)
    requires 0 <= a1 && a1 + n <= |t| && 0 <= a2 && a2 + n <= |t| && 0 <= b && b + n <= |u|
  {
    && lens <= i <= n
    && s == Matches(t, u, a1, b, i) - Matches(t, u, a2, b, i)
    && best == SplitMatches(t, u, a1, a2, b, n, lens) - Matches(t, u, a2, b, n)
    && forall k | 0 <= k <= i ::
         if k < lens then SplitMatches(t, u, a1, a2, b, n, k) < SplitMatches(t, u, a1, a2, b, n, lens)
         else SplitMatches(t, u, a1, a2, b, n, k) <= SplitMatches(t, u, a1, a2, b, n, lens)
  }

  lemma SplitStart(t: seq<Byte>, u: seq<Byte>, a1: int, a2: int, b: int, n: nat)
    requires 0 <= a1 && a1 + n <= |t| && 0 <= a2 && a2 + n <= |t| && 0 <= b && b + n <= |u|
    ensures SplitSoFar(t, u, a1, a2, b, n, 0, 0, 0, 0)
  {
  }

  lemma SplitStep(t: seq<Byte>, u: seq<Byte>, a1: int, a2: int, b: int, n: nat, i: nat, s: int, lens: nat, best: int)
    requires 0 <= a1 && a1 + n <= |t| && 0 <= a2 && a2 + n <= |t| && 0 <= b && b + n <= |u|
    requires i < n && SplitSoFar(t, u, a1, a2, b, n, i, s, lens, best)
    ensures var s' := s + (if u[b + i] == t[a1 + i] then 1 else 0) - if u[b + i] == t[a2 + i] then 1 else 0;
            SplitSoFar(t, u, a1, a2, b, n, i + 1, s', if s' > best then i + 1 else lens, if s' > best then s' else best)
  {
    hide SplitMatches;
    SplitValue(t, u, a1, a2, b, n, i + 1);
  }

  lemma SplitEnd(t: seq<Byte>, u: seq<Byte>, a1: int, a2: int, b: int, n: nat, i: nat, s: int, lens: nat, best: int)
    requires 0 <= a1 && a1 + n <= |t| && 0 <= a2 && a2 + n <= |t| && 0 <= b && b + n <= |u|
    requires i >= n && SplitSoFar(t, u, a1, a2, b, n, i, s, lens, best)
    ensures BestSplit(t, u, a1, a2, b, n, lens)
  {
    hide SplitMatches;
  }

  lemma SplitUnique(s: seq<Byte>, t: seq<Byte>, a1: int, a2: int, b: int, n: nat, k: int, m: int)
    requires 0 <= a1 && a1 + n <= |s| && 0 <= a2 && a2 + n <= |s| && 0 <= b && b + n <= |t|
    requires BestSplit(s, t, a1, a2, b, n, k) && BestSplit(s, t, a1, a2, b, n, m)
    ensures k == m
  {
    hide SplitMatches;
    assert SplitMatches(s, t, a1, a2, b, n, k) == SplitMatches(s, t, a1, a2, b, n, m);
  }

  method SplitOverlap(oldFile: seq<Byte>, newFile: seq<Byte>, lastscan: nat, lastpos: nat, lenf: nat,
                      scan: nat, pos: nat, lenb: nat, overlap: nat) returns (lens: nat)
    requires overlap <= lenf && overlap <= lenb && lenb <= pos <= |oldFile| && lenb <= scan <= |newFile|
    requires lastpos + lenf <= |oldFile| && lastscan + lenf - overlap == scan - lenb
    ensures BestSplit(oldFile, newFile, lastpos + lenf - overlap, pos - lenb, scan - lenb, overlap, lens)
  {
    hide BestSplit, SplitSoFar, Matches;
    ghost var a1, a2, b := lastpos + lenf - overlap, pos - lenb, scan - lenb;
    var s: int, bestSplit: int, i: nat := 0, 0, 0;
    lens := 0;
    SplitStart(oldFile, newFile, a1, a2, b, overlap);
    while i < overlap
      invariant i <= overlap && SplitSoFar(oldFile, newFile, a1, a2, b, overlap, i, s, lens, bestSplit)
    {
      SplitStep(oldFile, newFile, a1, a2, b, overlap, i, s, lens, bestSplit);
      if newFile[lastscan + lenf - overlap + i] == oldFile[lastpos + lenf - overlap + i] {
        s := s + 1;
      }
      if newFile[scan - lenb + i] == oldFile[pos - lenb + i] {
        s := s - 1;
      }
      if s > bestSplit {
        bestSplit := s;
        lens := i + 1;
      }
      i := i + 1;
    }
    SplitEnd(oldFile, newFile, a1, a2, b, overlap, i, s, lens, bestSplit);
  }
}
