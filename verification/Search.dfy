/** `matchlen` and `search`: the bisection over the suffix array for a long match. */
module Search {
  import opened Bytes
  import opened Qsufsort

  /** `matchlen`. */
  method MatchLen(x: seq<Byte>, y: seq<Byte>) returns (i: nat)
    ensures i == CommonPrefix(x, y)
  {
    i := 0;
    while i < |x| && i < |y|
      invariant i <= |x| && i <= |y| && x[..i] == y[..i]
    {
      if x[i] != y[i] {
        break;
      }
      i := i + 1;
    }
    CommonPrefixUnique(x, y, i);
  }

  /** memcmp over the shorter of the two lengths is negative.  A proper prefix of `q` is not. */
  predicate ComparesLess(x: seq<Byte>, q: seq<Byte>) {
    var k := CommonPrefix(x, q);
    k < |x| && k < |q| && x[k] < q[k]
  }

  predicate ProperPrefix(x: seq<Byte>, q: seq<Byte>) {
    |x| < |q| && x == q[..|x|]
  }

  /** How much of `q` is found at position `a` of `s`. */
  function Match(s: seq<Byte>, q: seq<Byte>, a: nat): (k: nat)
    requires a <= |s|
    ensures k <= |q|
  {
    CommonPrefix(s[a..], q)
  }

  /** No position of `s` matches more than `len` bytes of `q`. */
  ghost predicate Longest(s: seq<Byte>, q: seq<Byte>, len: nat) {
    forall a | 0 <= a <= |s| :: Match(s, q, a) <= len
  }

  // ---------------------------------------------------------------- neighbours in the order

  /** Everything before a suffix that is below `q`, or a prefix of it, matches no better. */
  lemma EarlierMatchesLess(t: seq<Byte>, u: seq<Byte>, q: seq<Byte>)
    requires LexLess(t, u) && (ComparesLess(u, q) || ProperPrefix(u, q))
    ensures CommonPrefix(t, q) <= CommonPrefix(u, q)
  {
    var c, d := CommonPrefix(t, q), CommonPrefix(u, q);
    if ProperPrefix(u, q) {
      CommonPrefixUnique(u, q, |u|);
    }
    if c > d {
      assert t[..d] == t[..c][..d] == q[..c][..d] == u[..d];
      assert t[d] == t[..c][d] == q[..c][d] == q[d];
      CommonPrefixUnique(t, u, d);
      LexLessAfterPrefix(t, u);
    }
  }

  /** Everything after a suffix that is not below `q` and no proper prefix of it matches no better. */
  lemma LaterMatchesLess(t: seq<Byte>, u: seq<Byte>, q: seq<Byte>)
    requires LexLess(u, t) && !ComparesLess(u, q) && !ProperPrefix(u, q)
    ensures CommonPrefix(t, q) <= CommonPrefix(u, q)
  {
    var c, d := CommonPrefix(t, q), CommonPrefix(u, q);
    if c > d {
      assert t[..d] == t[..c][..d] == q[..c][..d] == u[..d];
      assert t[d] == t[..c][d] == q[..c][d] == q[d];
      CommonPrefixUnique(u, t, d);
      LexLessAfterPrefix(u, t);
    }
  }

  lemma FirstBytes(x: seq<Byte>, y: seq<Byte>)
    requires LexLess(x, y) && x != []
    ensures y != [] && x[0] <= y[0]
  {
    LexLessAfterPrefix(x, y);
    var k := CommonPrefix(x, y);
    assert k > 0 ==> x[0] == x[..k][0] == y[..k][0] == y[0];
  }

  lemma EmptyFirst(s: seq<Byte>, i: seq<int>)
    requires SuffixArray(s, i)
    ensures i[0] == |s|
    ensures forall k | 1 <= k < |i| :: i[k] < |s|
  {
    forall k | 1 <= k < |i| ensures i[k] < |s| {
      LexLessAfterPrefix(s[i[0]..], s[i[k]..]);
    }
    var k := SuffixSort.Position(i, |s|);
  }

  // ---------------------------------------------------------------- the bisection

  /** The bisection has so far kept its bounds on the two sides of the first byte of `q`. */
  ghost predicate Bracket(s: seq<Byte>, i: seq<int>, q: seq<Byte>, st: int, en: int)
    requires SuffixArray(s, i) && 0 <= st <= en <= |s|
  {
    && (st == 0 || ComparesLess(s[i[st]..], q))
    && (en == |s| || (en > 0 && !ComparesLess(s[i[en]..], q)))
  }

  /** Some suffix listed in [st, en] matches as well as any. */
  ghost predicate Covers(s: seq<Byte>, i: seq<int>, q: seq<Byte>, st: int, en: int)
    requires SuffixArray(s, i) && 0 <= st <= en <= |s|
  {
    forall a | 0 <= a <= |s| :: CoveredAt(s, i, q, st, en, a)
  }

  ghost predicate CoveredAt(s: seq<Byte>, i: seq<int>, q: seq<Byte>, st: int, en: int, a: nat)
    requires SuffixArray(s, i) && 0 <= st <= en <= |s| && a <= |s|
  {
    exists k | st <= k <= en :: Match(s, q, a) <= Match(s, q, i[k])
  }

  predicate OccursAt(s: seq<Byte>, p: seq<Byte>, a: nat) {
    a + |p| <= |s| && s[a..a + |p|] == p
  }

  ghost predicate Occurs(s: seq<Byte>, p: seq<Byte>) {
    exists a :: OccursAt(s, p, a)
  }

  /** The bisection probes a suffix that is a proper prefix of `q` and turns to the smaller suffixes,
      because the shortened comparison calls it equal, while one byte more of `q` occurs in `s`. */
  ghost predicate Misled(s: seq<Byte>, i: seq<int>, q: seq<Byte>, st: int, en: int)
    requires SuffixArray(s, i) && 0 <= st <= en <= |s|
    decreases en - st
  {
    if en - st < 2 then false else
    var x := st + (en - st) / 2;
    if ComparesLess(s[i[x]..], q) then Misled(s, i, q, x, en)
    else Misled(s, i, q, st, x) || (ProperPrefix(s[i[x]..], q) && Occurs(s, q[..|s| - i[x] + 1]))
  }

  lemma OccursMatches(s: seq<Byte>, q: seq<Byte>, n: nat, a: nat)
    requires n <= |q| && a <= |s|
    ensures OccursAt(s, q[..n], a) <==> Match(s, q, a) >= n
  {
    var k := Match(s, q, a);
    forall j | 0 <= j < n && OccursAt(s, q[..n], a) ensures s[a..][j] == q[j] {
      assert s[a..a + n][j] == q[..n][j];
    }
    forall j | 0 <= j < k ensures s[a + j] == q[j] {
      assert s[a..][..k][j] == q[..k][j];
    }
    assert n <= k ==> s[a..a + n] == q[..n];
  }

  /** One byte more than `n` occurs somewhere exactly when `n` bytes are not a longest match. */
  lemma LongerOccurs(s: seq<Byte>, q: seq<Byte>, n: nat)
    requires n < |q|
    ensures Occurs(s, q[..n + 1]) <==> !Longest(s, q, n)
  {
    if Occurs(s, q[..n + 1]) {
      var a: nat :| OccursAt(s, q[..n + 1], a);
      OccursMatches(s, q, n + 1, a);
    }
    if !Longest(s, q, n) {
      var a: nat :| a <= |s| && Match(s, q, a) > n;
      OccursMatches(s, q, n + 1, a);
    }
  }

  lemma ArrayFacts(s: seq<Byte>, i: seq<int>)
    requires SuffixArray(s, i)
    ensures |i| == |s| + 1 && forall k | 0 <= k < |i| :: 0 <= i[k] <= |s|
  {
  }

  lemma ListedOrder(s: seq<Byte>, i: seq<int>, j: int, k: int)
    requires SuffixArray(s, i) && 0 <= j < k <= |s|
    ensures |i| == |s| + 1 && 0 <= i[j] <= |s| && 0 <= i[k] <= |s| && LexLess(s[i[j]..], s[i[k]..])
  {
  }

  lemma LongestShrinks(s: seq<Byte>, q: seq<Byte>, m: nat, n: nat)
    requires Longest(s, q, m) && m <= n
    ensures Longest(s, q, n)
  {
  }

  lemma MatchesWhole(s: seq<Byte>, q: seq<Byte>, a: nat)
    requires a <= |s| && ProperPrefix(s[a..], q)
    ensures Match(s, q, a) == |s| - a < |q|
  {
    CommonPrefixUnique(s[a..], q, |s| - a);
  }

  lemma MisledAtProbe(s: seq<Byte>, i: seq<int>, q: seq<Byte>, st: int, en: int, x: int)
    requires SuffixArray(s, i) && 0 <= st && en <= |s| && en - st >= 2 && x == st + (en - st) / 2
    ensures |i| == |s| + 1 && 0 <= i[x] <= |s|
    ensures Misled(s, i, q, st, en) ==
            if ComparesLess(s[i[x]..], q) then Misled(s, i, q, x, en)
            else Misled(s, i, q, st, x) || (ProperPrefix(s[i[x]..], q) && !Longest(s, q, Match(s, q, i[x])))
  {
    hide SuffixArray, Longest, ComparesLess, Match, Occurs;
    ArrayFacts(s, i);
    var m := |s| - i[x];
    if ProperPrefix(s[i[x]..], q) {
      MatchesWhole(s, q, i[x]);
      LongerOccurs(s, q, m);
    }
  }

  lemma CoversAll(s: seq<Byte>, i: seq<int>, q: seq<Byte>)
    requires SuffixArray(s, i)
    ensures Covers(s, i, q, 0, |s|) && Bracket(s, i, q, 0, |s|)
  {
    forall a | 0 <= a <= |s| ensures CoveredAt(s, i, q, 0, |s|, a) {
      var k := SuffixSort.Position(i, a);
      assert Match(s, q, a) <= Match(s, q, i[k]);
    }
  }

  /** Moving one bound to the probe `x` keeps a best match in range when nothing on the other side
      of `x` matches better than the suffix at `x`. */
  lemma CoversAfterProbe(s: seq<Byte>, i: seq<int>, q: seq<Byte>, st: int, en: int, x: int, st': int, en': int)
    requires SuffixArray(s, i) && 0 <= st <= x <= en <= |s| && Covers(s, i, q, st, en)
    requires (st' == st && en' == x) || (st' == x && en' == en)
    requires forall k | st <= k <= en && (k < st' || en' < k) :: Match(s, q, i[k]) <= Match(s, q, i[x])
    ensures Covers(s, i, q, st', en')
  {
    forall a | 0 <= a <= |s| ensures CoveredAt(s, i, q, st', en', a) {
      assert CoveredAt(s, i, q, st, en, a);
      var k :| st <= k <= en && Match(s, q, a) <= Match(s, q, i[k]);
      var m := if st' <= k <= en' then k else x;
      assert st' <= m <= en' && Match(s, q, a) <= Match(s, q, i[m]);
    }
  }

  lemma ProbeBetter(s: seq<Byte>, i: seq<int>, q: seq<Byte>, k: int, x: int)
    requires SuffixArray(s, i) && 0 <= k <= x <= |s|
    requires ComparesLess(s[i[x]..], q) || ProperPrefix(s[i[x]..], q)
    ensures Match(s, q, i[k]) <= Match(s, q, i[x])
  {
    hide SuffixArray, ComparesLess, ProperPrefix, LexLess;
    ArrayFacts(s, i);
    if k < x {
      ListedOrder(s, i, k, x);
      EarlierMatchesLess(s[i[k]..], s[i[x]..], q);
    }
  }

  lemma ProbeRight(s: seq<Byte>, i: seq<int>, q: seq<Byte>, st: int, en: int, x: int)
    requires SuffixArray(s, i) && 0 <= st <= x <= en <= |s| && ComparesLess(s[i[x]..], q)
    ensures Covers(s, i, q, st, en) ==> Covers(s, i, q, x, en)
  {
    forall k | st <= k < x ensures Match(s, q, i[k]) <= Match(s, q, i[x]) {
      ProbeBetter(s, i, q, k, x);
    }
    if Covers(s, i, q, st, en) {
      CoversAfterProbe(s, i, q, st, en, x, x, en);
    }
  }

  lemma ProbeLeft(s: seq<Byte>, i: seq<int>, q: seq<Byte>, st: int, en: int, x: int)
    requires SuffixArray(s, i) && 0 <= st <= x <= en <= |s| && !ComparesLess(s[i[x]..], q)
    requires ProperPrefix(s[i[x]..], q) ==> Longest(s, q, Match(s, q, i[x]))
    ensures Covers(s, i, q, st, en) ==> Covers(s, i, q, st, x)
  {
    forall k | x < k <= en ensures Match(s, q, i[k]) <= Match(s, q, i[x]) {
      if !ProperPrefix(s[i[x]..], q) {
        LaterMatchesLess(s[i[k]..], s[i[x]..], q);
      }
    }
    if Covers(s, i, q, st, en) {
      CoversAfterProbe(s, i, q, st, en, x, st, x);
    }
  }

  /** Having turned left at a proper prefix of `q`, nothing better than that prefix is in reach. */
  lemma ProbeLost(s: seq<Byte>, i: seq<int>, q: seq<Byte>, st: int, en: int, x: int, k: int)
    requires SuffixArray(s, i) && 0 <= st <= k <= x && en <= |s| && en - st >= 2 && x == st + (en - st) / 2
    requires !ComparesLess(s[i[x]..], q) && Misled(s, i, q, st, en)
    ensures Misled(s, i, q, st, x) || !Longest(s, q, Match(s, q, i[k]))
  {
    hide SuffixArray, Longest, Misled, ComparesLess, ProperPrefix, Match;
    ArrayFacts(s, i);
    MisledAtProbe(s, i, q, st, en, x);
    if ProperPrefix(s[i[x]..], q) && Longest(s, q, Match(s, q, i[k])) {
      ProbeBetter(s, i, q, k, x);
      LongestShrinks(s, q, Match(s, q, i[k]), Match(s, q, i[x]));
    }
  }

  /** When the bounds have met, one of them starts with the first byte of `q` if any suffix does. */
  lemma FirstByteFound(s: seq<Byte>, i: seq<int>, q: seq<Byte>, st: int, en: int, a: int)
    requires SuffixArray(s, i) && 0 <= st <= en <= |s| && en - st < 2 && Bracket(s, i, q, st, en)
    requires q != [] && 0 <= a < |s| && s[a] == q[0]
    ensures Match(s, q, i[st]) > 0 || Match(s, q, i[en]) > 0
  {
    var r := SuffixSort.Position(i, a);
    EmptyFirst(s, i);
    var lower, upper := s[i[st]..], s[i[en]..];
    assert Match(s, q, a) > 0;
    if r < st {
      FirstBytes(s[a..], lower);
      assert CommonPrefix(lower, q) == 0 ==> lower[0] < q[0];
    } else if en < r {
      FirstBytes(upper, s[a..]);
      assert CommonPrefix(upper, q) == 0 ==> upper[0] >= q[0];
    }
  }

  /** What the better of the two bounds amounts to when they have met. */
  lemma BoundsBracket(s: seq<Byte>, i: seq<int>, q: seq<Byte>, st: int, en: int, k: int)
    requires SuffixArray(s, i) && 0 <= st <= en <= |s| && en - st < 2 && Bracket(s, i, q, st, en)
    requires k == if Match(s, q, i[st]) > Match(s, q, i[en]) then st else en
    ensures Match(s, q, i[k]) > 0 <==> q != [] && q[0] in s
  {
    var t := s[i[k]..];
    if Match(s, q, i[k]) > 0 {
      assert t[0] == t[..Match(s, q, i[k])][0] == q[0];
      assert t[0] == s[i[k]];
    } else if q != [] && q[0] in s {
      var a :| 0 <= a < |s| && s[a] == q[0];
      FirstByteFound(s, i, q, st, en, a);
    }
  }

  lemma BoundsCover(s: seq<Byte>, i: seq<int>, q: seq<Byte>, st: int, en: int, k: int)
    requires SuffixArray(s, i) && 0 <= st <= en <= |s| && en - st < 2
    requires k == if Match(s, q, i[st]) > Match(s, q, i[en]) then st else en
    ensures !Misled(s, i, q, st, en)
    ensures Covers(s, i, q, st, en) ==> Longest(s, q, Match(s, q, i[k]))
  {
    hide SuffixArray, Match, ComparesLess, ProperPrefix;
    ArrayFacts(s, i);
    if Covers(s, i, q, st, en) {
      forall a | 0 <= a <= |s| ensures Match(s, q, a) <= Match(s, q, i[k]) {
        assert CoveredAt(s, i, q, st, en, a);
      }
    }
  }

  /** How one probe narrows the search. */
  lemma Probe(s: seq<Byte>, i: seq<int>, q: seq<Byte>, st: int, en: int, x: int)
    requires SuffixArray(s, i) && 0 <= st && en <= |s| && en - st >= 2 && x == st + (en - st) / 2
    ensures var right := ComparesLess(s[i[x]..], q);
            && (Bracket(s, i, q, st, en) ==> if right then Bracket(s, i, q, x, en) else Bracket(s, i, q, st, x))
            && (right ==> Misled(s, i, q, st, en) == Misled(s, i, q, x, en))
            && (right && Covers(s, i, q, st, en) ==> Covers(s, i, q, x, en))
            && (!right && !Misled(s, i, q, st, en) && Covers(s, i, q, st, en) ==>
                Covers(s, i, q, st, x) && !Misled(s, i, q, st, x))
  {
    hide SuffixArray, Longest, Misled, Covers, ComparesLess, ProperPrefix, Match;
    ArrayFacts(s, i);
    MisledAtProbe(s, i, q, st, en, x);
    if ComparesLess(s[i[x]..], q) {
      ProbeRight(s, i, q, st, en, x);
    } else if !Misled(s, i, q, st, en) {
      ProbeLeft(s, i, q, st, en, x);
    }
  }

  /** `search`: a position of `s` and how much of `q` is found there.  It is the better of two neighbours
      in the suffix array, the later one if they are equally good, with the bisection's comparison true
      of the first and false of the second.  Something is found exactly when the first byte of `q`
      occurs in `s`, and the longest match is found exactly when the bisection was not misled. */
  method Search(I: array<int>, s: seq<Byte>, q: seq<Byte>, st: int, en: int) returns (len: nat, pos: nat)
    requires SuffixArray(s, I[..]) && 0 <= st <= en <= |s|
    ensures pos <= |s| && len == Match(s, q, pos)
    ensures exists k | st <= k <= en :: pos == I[k]
    ensures Bracket(s, I[..], q, st, en) ==> exists k, m | st <= k <= m <= en ::
              && m - k <= 1 && (m == k ==> st == en) && Bracket(s, I[..], q, k, m)
              && pos == if Match(s, q, I[k]) > Match(s, q, I[m]) then I[k] else I[m]
    ensures Bracket(s, I[..], q, st, en) ==> (len > 0 <==> q != [] && q[0] in s)
    ensures Misled(s, I[..], q, st, en) ==> !Longest(s, q, len)
    ensures !Misled(s, I[..], q, st, en) && Covers(s, I[..], q, st, en) ==> Longest(s, q, len)
    decreases en - st
  {
    hide SuffixArray, Bracket, Covers, Misled, Longest;
    ArrayFacts(s, I[..]);
    if en - st < 2 {
      var x := MatchLen(s[I[st]..], q);
      var y := MatchLen(s[I[en]..], q);
      if x > y {
        pos := I[st];
        len := x;
      } else {
        pos := I[en];
        len := y;
      }
      BoundsCover(s, I[..], q, st, en, if x > y then st else en);
      if Bracket(s, I[..], q, st, en) {
        BoundsBracket(s, I[..], q, st, en, if x > y then st else en);
      }
    } else {
      var x := st + (en - st) / 2;
      Probe(s, I[..], q, st, en, x);
      if ComparesLess(s[I[x]..], q) {
        len, pos := Search(I, s, q, x, en);
      } else {
        len, pos := Search(I, s, q, st, x);
        if Misled(s, I[..], q, st, en) {
          ghost var k :| st <= k <= x && pos == I[k];
          ProbeLost(s, I[..], q, st, en, x, k);
        }
      }
    }
  }

  /** When no non-empty suffix of `s` is a proper prefix of `q`, no probe can mislead. */
  lemma {:induction false} NeverMisled(s: seq<Byte>, i: seq<int>, q: seq<Byte>, st: int, en: int)
    requires SuffixArray(s, i) && 0 <= st <= en <= |s|
    requires forall a | 0 <= a < |s| :: !ProperPrefix(s[a..], q)
    ensures !Misled(s, i, q, st, en)
    decreases en - st
  {
    hide SuffixArray, Longest, ComparesLess, ProperPrefix, Match;
    EmptyFirst(s, i);
    ArrayFacts(s, i);
    if en - st >= 2 {
      var x := st + (en - st) / 2;
      MisledAtProbe(s, i, q, st, en, x);
      NeverMisled(s, i, q, x, en);
      NeverMisled(s, i, q, st, x);
    }
  }

  datatype Answer = Answer(len: nat, pos: nat)

  /** What `search` over the whole suffix array `i` promises about its answer. */
  ghost predicate Found(s: seq<Byte>, i: seq<int>, q: seq<Byte>, answer: Answer)
    requires SuffixArray(s, i)
  {
    && answer.pos <= |s| && answer.len == Match(s, q, answer.pos)
    && (answer.len > 0 <==> q != [] && q[0] in s)
    && (exists k, m | 0 <= k <= m <= |s| ::
          && m - k <= 1 && (m == k ==> s == []) && Bracket(s, i, q, k, m)
          && answer.pos == if Match(s, q, i[k]) > Match(s, q, i[m]) then i[k] else i[m])
    && (Longest(s, q, answer.len) <==> !Misled(s, i, q, 0, |s|))
  }

  /** The whole-array call made for every position of the new file. */
  method FindMatch(I: array<int>, s: seq<Byte>, q: seq<Byte>) returns (len: nat, pos: nat)
    requires SuffixArray(s, I[..])
    ensures Found(s, I[..], q, Answer(len, pos))
  {
    CoversAll(s, I[..], q);
    len, pos := Search(I, s, q, 0, |s|);
  }

  /** Without a suffix that is a proper prefix of the query, the match found is a longest one. */
  lemma FoundIsLongest(s: seq<Byte>, i: seq<int>, q: seq<Byte>, answer: Answer)
    requires SuffixArray(s, i) && Found(s, i, q, answer)
    requires forall a | 0 <= a < |s| :: !ProperPrefix(s[a..], q)
    ensures Longest(s, q, answer.len)
  {
    NeverMisled(s, i, q, 0, |s|);
  }

  lemma ExampleSorted()
    ensures var s: seq<Byte> := [97, 98, 97]; SuffixArray(s, [3, 2, 0, 1])
  {
    var s: seq<Byte>, i := [97, 98, 97], [3, 2, 0, 1];
    assert s[3..] == [] && s[2..] == [97] && s[0..] == s && s[1..] == [98, 97];
    assert LexLessAt(s[3..], s[2..], 0) && LexLessAt(s[3..], s[0..], 0) && LexLessAt(s[3..], s[1..], 0);
    assert LexLessAt(s[2..], s[0..], 1) && LexLessAt(s[2..], s[1..], 0) && LexLessAt(s[0..], s[1..], 0);
    assert 3 in i && 2 in i && 0 in i && 1 in i by {
      assert i[0] == 3 && i[1] == 2 && i[2] == 0 && i[3] == 1;
    }
  }

  /** The longest match is not always found: with the text "aba" and the query "abac" the first
      probe is the suffix "a", and the match of all three bytes is lost. */
  lemma MisledExample()
    ensures var s: seq<Byte>, q: seq<Byte> := [97, 98, 97], [97, 98, 97, 99];
            SuffixArray(s, [3, 2, 0, 1]) && Misled(s, [3, 2, 0, 1], q, 0, 3)
  {
    hide SuffixArray;
    var s: seq<Byte>, q: seq<Byte>, i := [97, 98, 97], [97, 98, 97, 99], [3, 2, 0, 1];
    ExampleSorted();
    assert s[2..] == [97] && s[0..] == s;
    CommonPrefixUnique(s[2..], q, 1);
    CommonPrefixUnique(s[0..], q, 3);
    assert OccursAt(s, q[..2], 0);
  }
}
