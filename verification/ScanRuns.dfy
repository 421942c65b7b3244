/** What a whole scan amounts to, said of the bytes of the two files: where its rounds stop, which of
    them emit a triple, and where every triple leads. */
module ScanRuns {
  import opened Bytes
  import opened Qsufsort
  import opened Search
  import opened ScanLoop
  import opened Extents
  import opened PatchFormat
  import opened CreatePatch

  /** The positions of [a, b) at which the new file has the byte that the old one has `offset` further on. */
  function Equal(oldFile: seq<Byte>, newFile: seq<Byte>, offset: int, a: int, b: int): set<int> {
    set t: int | a <= t < b && 0 <= t < |newFile| && 0 <= t + offset < |oldFile| && oldFile[t + offset] == newFile[t]
  }

  lemma EqualOneMore(oldFile: seq<Byte>, newFile: seq<Byte>, offset: int, a: int, b: int)
    requires 0 <= a <= b < |newFile| && 0 <= a + offset
    ensures |Equal(oldFile, newFile, offset, a, b + 1)| == |Equal(oldFile, newFile, offset, a, b)|
              + if b + offset < |oldFile| && oldFile[b + offset] == newFile[b] then 1 else 0
  {
    var before, after := Equal(oldFile, newFile, offset, a, b), Equal(oldFile, newFile, offset, a, b + 1);
    if b + offset < |oldFile| && oldFile[b + offset] == newFile[b] {
      assert after == before + {b};
    } else {
      assert after == before;
    }
  }

  lemma EqualSplit(oldFile: seq<Byte>, newFile: seq<Byte>, offset: int, a: int, b: int, c: int)
    requires a <= b <= c
    ensures |Equal(oldFile, newFile, offset, a, c)|
            == |Equal(oldFile, newFile, offset, a, b)| + |Equal(oldFile, newFile, offset, b, c)|
  {
    var front, back := Equal(oldFile, newFile, offset, a, b), Equal(oldFile, newFile, offset, b, c);
    assert Equal(oldFile, newFile, offset, a, c) == front + back && front !! back;
  }

  /** The score of an alignment is the number of equal bytes. */
  lemma {:induction false} HitsCount(oldFile: seq<Byte>, newFile: seq<Byte>, offset: int, a: int, b: int)
    requires 0 <= a && 0 <= a + offset && b <= |newFile|
    ensures Hits(oldFile, newFile, offset, a, b) == |Equal(oldFile, newFile, offset, a, b)|
    decreases b - a
  {
    if b <= a {
      assert Equal(oldFile, newFile, offset, a, b) == {};
    } else {
      HitsCount(oldFile, newFile, offset, a, b - 1);
      EqualOneMore(oldFile, newFile, offset, a, b - 1);
    }
  }

  lemma {:induction false} MatchesCount(oldFile: seq<Byte>, newFile: seq<Byte>, p: int, s: int, n: nat)
    requires 0 <= p && p + n <= |oldFile| && 0 <= s && s + n <= |newFile|
    ensures Matches(oldFile, newFile, p, s, n) == |Equal(oldFile, newFile, p - s, s, s + n)|
  {
    if n == 0 {
      assert Equal(oldFile, newFile, p - s, s, s) == {};
    } else {
      MatchesCount(oldFile, newFile, p, s, n - 1);
      EqualOneMore(oldFile, newFile, p - s, s, s + n - 1);
    }
  }

  // ---------------------------------------------------------------- the extents of a triple

  /** The forward extent ends at `e`: nowhere are more bytes equal than differ by a wider margin, and
      nowhere before by as wide a one. */
  lemma ForwardEnds(oldFile: seq<Byte>, newFile: seq<Byte>, s: nat, p: nat, scan: nat, f: int, off: int, e: int)
    requires BestForward(oldFile, newFile, p, s, scan, f) && off == p - s && e == s + f
    ensures s <= e <= scan && e + off <= |oldFile|
    ensures forall m | s <= m <= scan && m + off <= |oldFile| ::
              var here := 2 * |Equal(oldFile, newFile, off, s, m)| - m;
              var best := 2 * |Equal(oldFile, newFile, off, s, e)| - e;
              if m < e then here < best else here <= best
  {
    hide Matches, Equal;
    MatchesCount(oldFile, newFile, p, s, f);
    forall m | s <= m <= scan && m + off <= |oldFile|
      ensures
        var here, best := 2 * |Equal(oldFile, newFile, off, s, m)| - m, 2 * |Equal(oldFile, newFile, off, s, e)| - e;
        if m < e then here < best else here <= best
    {
      MatchesCount(oldFile, newFile, p, s, m - s);
      assert CanForward(oldFile, newFile, p, s, scan, m - s);
    }
  }

  /** The backward extent begins at `h`, likewise. */
  lemma BackwardBegins(oldFile: seq<Byte>, newFile: seq<Byte>, s: nat, scan: nat, pos: nat, b: int, off: int, h: int)
    requires BestBackward(oldFile, newFile, pos, s, scan, b) && off == pos - scan && h == scan - b
    ensures s <= h <= scan && 0 <= h + off
    ensures forall m | s <= m <= scan && 0 <= m + off ::
              var here := 2 * |Equal(oldFile, newFile, off, m, scan)| + m;
              var best := 2 * |Equal(oldFile, newFile, off, h, scan)| + h;
              if m > h then here < best else here <= best
  {
    hide Matches, Equal;
    MatchesCount(oldFile, newFile, pos - b, scan - b, b);
    forall m | s <= m <= scan && 0 <= m + off
      ensures
        var here := 2 * |Equal(oldFile, newFile, off, m, scan)| + m;
        var best := 2 * |Equal(oldFile, newFile, off, h, scan)| + h;
        if m > h then here < best else here <= best
    {
      MatchesCount(oldFile, newFile, m + off, m, scan - m);
      assert CanBackward(oldFile, newFile, pos, s, scan, scan - m);
    }
  }

  /** How many bytes of [s, scan) are equal when the alignments `x` and `y` meet at `m`. */
  function MetAt(oldFile: seq<Byte>, newFile: seq<Byte>, x: int, y: int, s: int, m: int, scan: int): int {
    |Equal(oldFile, newFile, x, s, m)| + |Equal(oldFile, newFile, y, m, scan)|
  }

  lemma SplitCount(oldFile: seq<Byte>, newFile: seq<Byte>, x: int, y: int, s: int, h: int, m: int, e: int, scan: int)
    requires 0 <= s <= h <= m <= e <= scan <= |newFile|
    requires 0 <= h + x && e + x <= |oldFile| && 0 <= h + y && e + y <= |oldFile|
    ensures MetAt(oldFile, newFile, x, y, s, m, scan) == SplitMatches(oldFile, newFile, h + x, h + y, h, e - h, m - h)
              + |Equal(oldFile, newFile, x, s, h)| + |Equal(oldFile, newFile, y, e, scan)|
  {
    hide Matches, Equal;
    MatchesCount(oldFile, newFile, h + x, h, m - h);
    MatchesCount(oldFile, newFile, m + y, m, e - m);
    EqualSplit(oldFile, newFile, x, s, h, m);
    EqualSplit(oldFile, newFile, y, m, e, scan);
  }

  /** Overlapping extents are made to meet where most bytes of both together are equal, as early as
      possible. */
  lemma SplitMeets(oldFile: seq<Byte>, newFile: seq<Byte>, x: int, y: int, s: int, h: int, m0: int, e: int, scan: int)
    requires 0 <= s <= h <= e <= scan <= |newFile|
    requires 0 <= h + x && e + x <= |oldFile| && 0 <= h + y && e + y <= |oldFile|
    requires BestSplit(oldFile, newFile, h + x, h + y, h, e - h, m0 - h)
    ensures h <= m0 <= e
    ensures forall m | h <= m <= e ::
              var here, best := MetAt(oldFile, newFile, x, y, s, m, scan), MetAt(oldFile, newFile, x, y, s, m0, scan);
              if m < m0 then here < best else here <= best
  {
    hide SplitMatches, MetAt;
    SplitCount(oldFile, newFile, x, y, s, h, m0, e, scan);
    forall m | h <= m <= e
      ensures
        var here, best := MetAt(oldFile, newFile, x, y, s, m, scan), MetAt(oldFile, newFile, x, y, s, m0, scan);
        if m < m0 then here < best else here <= best
    {
      SplitCount(oldFile, newFile, x, y, s, h, m, e, scan);
    }
  }

  /** The extents that are chosen between `s` and `scan` for the alignments `x` before and `y` after. */
  lemma ChosenMeans(oldFile: seq<Byte>, newFile: seq<Byte>, s: nat, p: nat, scan: nat, pos: nat, lenf: int, lenb: int,
                    x: int, y: int)
    returns (e: int, h: int)
    requires s <= scan <= |newFile| && p <= |oldFile| && pos <= |oldFile| && x == p - s && y == pos - scan
    requires Chosen(oldFile, newFile, s, p, scan, pos, lenf, lenb)
    ensures s <= e <= scan && e + x <= |oldFile| && s <= h <= scan && 0 <= h + y
    ensures forall m | s <= m <= scan && m + x <= |oldFile| ::
              var here, best := 2 * |Equal(oldFile, newFile, x, s, m)| - m, 2 * |Equal(oldFile, newFile, x, s, e)| - e;
              if m < e then here < best else here <= best
    ensures scan == |newFile| ==> h == scan
    ensures scan < |newFile| ==> forall m | s <= m <= scan && 0 <= m + y ::
              var here := 2 * |Equal(oldFile, newFile, y, m, scan)| + m;
              var best := 2 * |Equal(oldFile, newFile, y, h, scan)| + h;
              if m > h then here < best else here <= best
    ensures e <= h ==> s + lenf == e && scan - lenb == h
    ensures e > h ==> h <= s + lenf == scan - lenb <= e && forall m | h <= m <= e ::
              var here := MetAt(oldFile, newFile, x, y, s, m, scan);
              var best := MetAt(oldFile, newFile, x, y, s, scan - lenb, scan);
              if m < scan - lenb then here < best else here <= best
  {
    hide BestForward, BestBackward, BestSplit, Equal, MetAt;
    var f: nat, b: nat :| CutFrom(oldFile, newFile, s, p, scan, pos, f, b, lenf, lenb);
    e, h := s + f, scan - b;
    ForwardEnds(oldFile, newFile, s, p, scan, f, x, e);
    if scan < |newFile| {
      BackwardBegins(oldFile, newFile, s, scan, pos, b, y, h);
    }
    if e > h {
      SplitMeets(oldFile, newFile, x, y, s, h, s + lenf, e, scan);
    }
  }

  // ---------------------------------------------------------------- where a round stops

  /** One of the first `n + 1` matches covers position `t`. */
  ghost predicate Matched(from: nat, answers: seq<Answer>, n: nat, t: int)
    requires n < |answers|
  {
    exists m :: 0 <= m <= n && t < from + m + answers[m].len
  }

  /** The positions not before probe `n` that have been matched so far and are equal in the present alignment. */
  ghost function Ahead(oldFile: seq<Byte>, newFile: seq<Byte>, offset: int, from: nat, answers: seq<Answer>, n: nat):
      set<int>
    requires n < |answers|
  {
    set t | t in Equal(oldFile, newFile, offset, from + n, |newFile|) && Matched(from, answers, n, t)
  }

  lemma {:induction false} ReachMeans(from: nat, answers: seq<Answer>, n: nat, t: int)
    requires n < |answers|
    ensures t < Reach(from, answers[..n + 1]) <==> t < from || Matched(from, answers, n, t)
  {
    var front := answers[..n + 1];
    assert front[..n] == answers[..n];
    if n > 0 {
      ReachMeans(from, answers, n - 1, t);
      if Matched(from, answers, n, t) {
        var m :| 0 <= m <= n && t < from + m + answers[m].len;
        assert m < n ==> Matched(from, answers, n - 1, t);
      }
      if Matched(from, answers, n - 1, t) {
        var m :| 0 <= m <= n - 1 && t < from + m + answers[m].len;
        assert Matched(from, answers, n, t);
      }
    }
    assert t < from + n + answers[n].len ==> Matched(from, answers, n, t);
  }

  lemma ScoreCount(oldFile: seq<Byte>, newFile: seq<Byte>, offset: int, from: nat, answers: seq<Answer>, n: nat)
    requires n < |answers| && 0 <= from + offset && Reach(from, answers[..n + 1]) <= |newFile|
    ensures OldScore(oldFile, newFile, offset, from, answers[..n + 1])
            == |Ahead(oldFile, newFile, offset, from, answers, n)|
  {
    hide Reach, Hits, Matched;
    var r := Reach(from, answers[..n + 1]);
    HitsCount(oldFile, newFile, offset, from + n, r);
    var hits, ahead := Equal(oldFile, newFile, offset, from + n, r), Ahead(oldFile, newFile, offset, from, answers, n);
    forall t ensures t in hits <==> t in ahead {
      ReachMeans(from, answers, n, t);
    }
    assert hits == ahead;
  }

  /** The match at probe `n` is all there is to the old alignment, or beats it by more than 8 bytes. */
  ghost predicate Worth(oldFile: seq<Byte>, newFile: seq<Byte>, offset: int, from: nat, answers: seq<Answer>, n: nat)
    requires n < |answers|
  {
    var len, score := answers[n].len, |Ahead(oldFile, newFile, offset, from, answers, n)|;
    (len == score && len != 0) || len > score + 8
  }

  lemma StopsMeans(oldFile: seq<Byte>, newFile: seq<Byte>, offset: int, from: nat, answers: seq<Answer>, n: nat)
    requires n < |answers| && 0 <= from + offset && Reach(from, answers[..n + 1]) <= |newFile|
    ensures StopsAt(oldFile, newFile, offset, from, answers[..n + 1])
            <==> Worth(oldFile, newFile, offset, from, answers, n)
  {
    hide Reach, OldScore, Ahead;
    ScoreCount(oldFile, newFile, offset, from, answers, n);
  }

  /** A scan begins at the first byte.  Every round goes on behind the match before it, probes one position
      after the other and stops at the first whose match is worth it against the alignment the triples so
      far have led to.  It ends without a triple exactly when the match is just what that alignment gives. */
  lemma RoundStops(oldFile: seq<Byte>, i: seq<int>, newFile: seq<Byte>, run: seq<State>, k: nat, st: State, st': State,
                   offset: int, from: nat)
    returns (answers: seq<Answer>)
    requires SuffixArray(oldFile, i) && WholeScan(oldFile, i, newFile, run) && k + 1 < |run|
    requires st == run[k] && st' == run[k + 1]
    requires offset == OldPos(st.ts) - NewPos(st.ts) && from == st.scan + st.len
    ensures k == 0 ==> from == 0 && offset == 0
    ensures forall n | 0 <= n < |answers| :: from + n < |newFile| && Found(oldFile, i, newFile[from + n..], answers[n])
    ensures forall n | 0 <= n < |answers| ::
              Worth(oldFile, newFile, offset, from, answers, n) <==> st'.scan < |newFile| && n == |answers| - 1
    ensures st'.scan == if st'.scan < |newFile| then from + |answers| - 1 else from + |answers|
    ensures Answer(st'.len, st'.pos) == if answers == [] then Answer(st.len, st.pos) else answers[|answers| - 1]
    ensures st'.scan < |newFile| ==> answers != []
    ensures st'.ts == st.ts <==>
              st'.scan < |newFile| && st'.len == |Ahead(oldFile, newFile, offset, from, answers, |answers| - 1)|
  {
    hide SuffixArray, Found, Reach, StopsAt, OldScore, Worth, Ahead, Chosen, NewPos, OldPos;
    NothingYet();
    PositionsAgree(oldFile, i, newFile, run, k);
    assert RoundFrom(oldFile, i, newFile, st, st');
    var lenf, lenb;
    answers, lenf, lenb :| RoundWith(oldFile, i, newFile, st, st', answers, lenf, lenb);
    var a := |answers|;
    forall n | 0 <= n < a
      ensures Worth(oldFile, newFile, offset, from, answers, n) <==> st'.scan < |newFile| && n == a - 1
    {
      if n < a - 1 {
        assert GoesOn(oldFile, newFile, offset, from, answers, n + 1);
      } else {
        assert answers[..n + 1] == answers;
      }
      StopsMeans(oldFile, newFile, offset, from, answers, n);
    }
    if a > 0 {
      assert answers[..a] == answers;
      ScoreCount(oldFile, newFile, offset, from, answers, a - 1);
    }
  }

  // ---------------------------------------------------------------- where the triples lead

  lemma PositionsMove(oldFile: seq<Byte>, i: seq<int>, newFile: seq<Byte>, st: State, st': State)
    requires SuffixArray(oldFile, i) && RoundFrom(oldFile, i, newFile, st, st')
    requires 0 <= st.lastscan == NewPos(st.ts) <= st.scan && st.lastpos == OldPos(st.ts) <= |oldFile|
    requires st.pos <= |oldFile| && st.scan <= |newFile|
    ensures st'.lastscan == NewPos(st'.ts) <= st'.scan <= |newFile| && st'.lastpos == OldPos(st'.ts) <= |oldFile|
    ensures st'.pos <= |oldFile| && st.scan <= st'.scan
  {
    hide SuffixArray, Scanned, Chosen, Emits;
    var answers, lenf, lenb :| RoundWith(oldFile, i, newFile, st, st', answers, lenf, lenb);
    ScanProgress(oldFile, i, newFile, st, answers, st'.scan, st'.len, st'.pos);
    if Emits(oldFile, newFile, st, answers, st'.scan, st'.len) {
      ChosenFits(oldFile, newFile, st.lastscan, st.lastpos, st'.scan, st'.pos, lenf, lenb);
      PositionsLast(st.ts, TripleFor(st, st', lenf));
    }
  }

  /** In every state of a scan the next triple goes on where the triples so far have ended, in both files. */
  lemma {:induction false} PositionsAgree(oldFile: seq<Byte>, i: seq<int>, newFile: seq<Byte>, run: seq<State>, k: nat)
    requires SuffixArray(oldFile, i) && WholeScan(oldFile, i, newFile, run) && k < |run|
    ensures run[k].lastscan == NewPos(run[k].ts) <= run[k].scan <= |newFile|
    ensures run[k].lastpos == OldPos(run[k].ts) <= |oldFile| && run[k].pos <= |oldFile|
  {
    hide SuffixArray, RoundFrom, NewPos, OldPos;
    if k == 0 {
      NothingYet();
    } else {
      PositionsAgree(oldFile, i, newFile, run, k - 1);
      assert RoundFrom(oldFile, i, newFile, run[k - 1], run[k]);
      PositionsMove(oldFile, i, newFile, run[k - 1], run[k]);
    }
  }

  lemma NothingYet()
    ensures NewPos(START.ts) == OldPos(START.ts) == 0
  {
  }

  /** Every triple of a scan.  It adds bytes up to where the forward extent ends, copies bytes up to where
      the backward one begins, or only adds where the two meet; and it leaves the old file in step with
      the match that has been found. */
  lemma TriplesLead(oldFile: seq<Byte>, i: seq<int>, newFile: seq<Byte>, run: seq<State>, k: nat, scan: int, s: int,
                    p: int, x: int, y: int)
    returns (e: int, h: int, m0: int)
    requires SuffixArray(oldFile, i) && WholeScan(oldFile, i, newFile, run) && k + 1 < |run|
    requires run[k + 1].ts != run[k].ts && scan == run[k + 1].scan && y == run[k + 1].pos - scan
    requires s == NewPos(run[k].ts) && p == OldPos(run[k].ts) && x == p - s
    ensures 0 <= s <= e <= scan <= |newFile| && 0 <= p && e + x <= |oldFile| && s <= h <= scan && 0 <= h + y
    ensures forall m | s <= m <= scan && m + x <= |oldFile| ::
              var here, best := 2 * |Equal(oldFile, newFile, x, s, m)| - m, 2 * |Equal(oldFile, newFile, x, s, e)| - e;
              if m < e then here < best else here <= best
    ensures scan == |newFile| ==> h == scan
    ensures scan < |newFile| ==> forall m | s <= m <= scan && 0 <= m + y ::
              var here := 2 * |Equal(oldFile, newFile, y, m, scan)| + m;
              var best := 2 * |Equal(oldFile, newFile, y, h, scan)| + h;
              if m > h then here < best else here <= best
    ensures e <= h ==> m0 == h
    ensures e > h ==> h <= m0 <= e && forall m | h <= m <= e ::
              var here, best := MetAt(oldFile, newFile, x, y, s, m, scan), MetAt(oldFile, newFile, x, y, s, m0, scan);
              if m < m0 then here < best else here <= best
    ensures var add := if e <= h then e - s else m0 - s;
            run[k + 1].ts == run[k].ts + [Triple(add, m0 - (s + add), (m0 + y) - (p + add))]
    ensures NewPos(run[k + 1].ts) == m0 && OldPos(run[k + 1].ts) == m0 + y
  {
    hide SuffixArray, Scanned, Chosen, Emits, Equal, MetAt, NewPos, OldPos;
    var st, st' := run[k], run[k + 1];
    PositionsAgree(oldFile, i, newFile, run, k);
    PositionsAgree(oldFile, i, newFile, run, k + 1);
    assert RoundFrom(oldFile, i, newFile, st, st');
    var answers, lenf, lenb :| RoundWith(oldFile, i, newFile, st, st', answers, lenf, lenb);
    assert Moves(oldFile, newFile, st, st', lenf, lenb);
    e, h := ChosenMeans(oldFile, newFile, s, p, scan, st'.pos, lenf, lenb, x, y);
    m0 := scan - lenb;
    PositionsLast(st.ts, TripleFor(st, st', lenf));
  }

  /** What a triple leads to: the bytes of the match that has been found are the old bytes at the distance
      at which the next triple starts, for as long as no other triple is emitted. */
  lemma MatchesAreUsed(oldFile: seq<Byte>, i: seq<int>, newFile: seq<Byte>, run: seq<State>, k: nat, n: nat)
    requires SuffixArray(oldFile, i) && WholeScan(oldFile, i, newFile, run) && 0 < k <= n < |run|
    requires run[k].ts != run[k - 1].ts && run[k].scan < |newFile|
    requires forall j | k < j <= n :: run[j].ts == run[k].ts
    ensures var distance := OldPos(run[n].ts) - NewPos(run[n].ts);
            && distance == run[k].pos - run[k].scan
            && 0 < run[k].len && run[k].scan + run[k].len <= |newFile|
            && forall t | run[k].scan <= t < run[k].scan + run[k].len ::
                 0 <= t + distance < |oldFile| && newFile[t] == oldFile[t + distance]
  {
    hide SuffixArray, Found, Ahead, Equal, NewPos, OldPos;
    var st, st' := run[k - 1], run[k];
    var e, h, m0 := TriplesLead(oldFile, i, newFile, run, k - 1, st'.scan, NewPos(st.ts), OldPos(st.ts),
                                OldPos(st.ts) - NewPos(st.ts), st'.pos - st'.scan);
    var answers := RoundStops(oldFile, i, newFile, run, k - 1, st, st', OldPos(st.ts) - NewPos(st.ts),
                              st.scan + st.len);
    var a := |answers| - 1;
    FoundBytes(oldFile, i, newFile, st'.scan, answers[a]);
  }

  lemma FoundBytes(oldFile: seq<Byte>, i: seq<int>, newFile: seq<Byte>, scan: nat, answer: Answer)
    requires SuffixArray(oldFile, i) && scan < |newFile| && Found(oldFile, i, newFile[scan..], answer)
    ensures scan + answer.len <= |newFile| && answer.pos + answer.len <= |oldFile|
    ensures forall t | scan <= t < scan + answer.len :: newFile[t] == oldFile[t + (answer.pos - scan)]
  {
    hide SuffixArray;
    var len, q, u := answer.len, newFile[scan..], oldFile[answer.pos..];
    forall t | scan <= t < scan + len ensures newFile[t] == oldFile[t + (answer.pos - scan)] {
      assert u[..len][t - scan] == q[..len][t - scan];
    }
  }
}
