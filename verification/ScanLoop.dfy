/** The inner scan loop: walks through the new file until a match is worth switching to. */
module ScanLoop {
  import opened Bytes
  import opened Qsufsort
  import opened Search

  /** Whether byte `t` of the new file equals the old byte at the present alignment. */
  predicate Hit(oldFile: seq<Byte>, newFile: seq<Byte>, offset: int, t: int)
    requires 0 <= t < |newFile| && 0 <= t + offset
  {
    t + offset < |oldFile| && oldFile[t + offset] == newFile[t]
  }

  /** How many bytes of [a, b) in the new file are hits. */
  function Hits(oldFile: seq<Byte>, newFile: seq<Byte>, offset: int, a: int, b: int): (n: nat)
    requires 0 <= a && 0 <= a + offset && b <= |newFile|
    ensures n <= if a <= b then b - a else 0
    decreases b - a
  {
    if b <= a then 0 else Hits(oldFile, newFile, offset, a, b - 1) + if Hit(oldFile, newFile, offset, b - 1) then 1
        else 0
  }

  lemma {:induction false} HitsFront(oldFile: seq<Byte>, newFile: seq<Byte>, offset: int, a: int, b: int)
    requires 0 <= a < b <= |newFile| && 0 <= a + offset
    ensures Hits(oldFile, newFile, offset, a, b) ==
            (if Hit(oldFile, newFile, offset, a) then 1 else 0) + Hits(oldFile, newFile, offset, a + 1, b)
    decreases b - a
  {
    if a + 1 < b {
      HitsFront(oldFile, newFile, offset, a, b - 1);
    }
  }

  /** How far the matches found from `from` on have reached. */
  function Reach(from: nat, answers: seq<Answer>): (r: nat)
    ensures r >= from
  {
    if answers == [] then from
    else
      var n := |answers| - 1;
      var r := Reach(from, answers[..n]);
      if from + n + answers[n].len > r then from + n + answers[n].len else r
  }

  /** The score of the present alignment at the last probe: its hits between the probe and the end
      of everything matched so far. */
  function OldScore(oldFile: seq<Byte>, newFile: seq<Byte>, offset: int, from: nat, answers: seq<Answer>): nat
    requires 0 <= from + offset && answers != [] && Reach(from, answers) <= |newFile|
  {
    Hits(oldFile, newFile, offset, from + |answers| - 1, Reach(from, answers))
  }

  /** The loop stops at the last probe: its match is all hits, or beats the hits by more than 8. */
  predicate StopsAt(oldFile: seq<Byte>, newFile: seq<Byte>, offset: int, from: nat, answers: seq<Answer>)
    requires 0 <= from + offset && answers != [] && Reach(from, answers) <= |newFile|
  {
    var len := answers[|answers| - 1].len;
    var score := OldScore(oldFile, newFile, offset, from, answers);
    (len == score && len != 0) || len > score + 8
  }

  /** One probe for every position from `from` on, each what `search` answers there, and no stop
      before the last of them. */
  ghost predicate Probed(oldFile: seq<Byte>, i: seq<int>, newFile: seq<Byte>, offset: int, from: nat,
                         answers: seq<Answer>)
    requires SuffixArray(oldFile, i) && 0 <= from + offset
  {
    && from + |answers| <= |newFile| && Reach(from, answers) <= |newFile|
    && (forall n | 0 <= n < |answers| :: Found(oldFile, i, newFile[from + n..], answers[n]))
    && (forall n | 1 <= n < |answers| :: GoesOn(oldFile, newFile, offset, from, answers, n))
  }

  ghost predicate GoesOn(oldFile: seq<Byte>, newFile: seq<Byte>, offset: int, from: nat, answers: seq<Answer>, n: nat)
    requires 0 <= from + offset && 1 <= n <= |answers|
  {
    Reach(from, answers[..n]) <= |newFile| && !StopsAt(oldFile, newFile, offset, from, answers[..n])
  }

  lemma ReachAdded(from: nat, answers: seq<Answer>, next: Answer)
    ensures Reach(from, answers + [next]) == if from + |answers| + next.len > Reach(from, answers)
              then from + |answers| + next.len else Reach(from, answers)
  {
    assert (answers + [next])[..|answers|] == answers;
  }

  lemma AnswerAdded(oldFile: seq<Byte>, i: seq<int>, newFile: seq<Byte>, offset: int, from: nat, answers: seq<Answer>,
                    next: Answer)
    requires SuffixArray(oldFile, i) && 0 <= from + offset && from + |answers| < |newFile|
    requires Probed(oldFile, i, newFile, offset, from, answers)
    requires answers != [] ==> GoesOn(oldFile, newFile, offset, from, answers, |answers|)
    requires Found(oldFile, i, newFile[from + |answers|..], next)
    ensures Probed(oldFile, i, newFile, offset, from, answers + [next])
    ensures Reach(from, answers + [next]) <= |newFile|
    ensures Reach(from, answers + [next]) == if from + |answers| + next.len > Reach(from, answers)
              then from + |answers| + next.len else Reach(from, answers)
    ensures next.len == 0 ==> newFile[from + |answers|] !in oldFile
  {
    hide SuffixArray, Found, StopsAt, Reach;
    var longer := answers + [next];
    ReachAdded(from, answers, next);
    FoundBounds(oldFile, i, newFile[from + |answers|..], next);
    forall n | 1 <= n < |longer| ensures GoesOn(oldFile, newFile, offset, from, longer, n) {
      assert longer[..n] == answers[..n];
      assert n < |answers| ==> GoesOn(oldFile, newFile, offset, from, answers, n);
    }
  }

  /** The hits of [scan, scan + len) that were not counted before. */
  method CountHits(oldFile: seq<Byte>, newFile: seq<Byte>, lastoffset: int, scan: nat, len: nat, scsc0: nat,
                   oldscore0: int)
    returns (scsc: nat, oldscore: int)
    requires 0 <= scan + lastoffset && 0 <= scsc0 + lastoffset && scan + len <= |newFile| && scsc0 <= |newFile|
    requires oldscore0 == Hits(oldFile, newFile, lastoffset, scan, scsc0)
    requires forall t | scsc0 <= t < scan :: newFile[t] !in oldFile
    ensures scsc == if scan + len > scsc0 then scan + len else scsc0
    ensures oldscore == Hits(oldFile, newFile, lastoffset, scan, scsc)
    ensures forall t | scsc <= t < scan :: newFile[t] !in oldFile
  {
    scsc, oldscore := scsc0, oldscore0;
    while scsc < scan + len
      invariant scsc0 <= scsc <= if scan + len > scsc0 then scan + len else scsc0
      invariant oldscore == Hits(oldFile, newFile, lastoffset, scan, scsc)
    {
      if scsc + lastoffset < |oldFile| && oldFile[scsc + lastoffset] == newFile[scsc] {
        oldscore := oldscore + 1;
      }
      scsc := scsc + 1;
    }
  }

  /** Moving on by one byte loses the hit at `scan`.  The score cannot become negative: when nothing
      has been matched at `scan`, its byte does not occur in the old file. */
  lemma ScoreMovesOn(oldFile: seq<Byte>, newFile: seq<Byte>, offset: int, scan: nat, scsc: nat)
    requires 0 <= scan + offset && scan < |newFile| && scsc <= |newFile|
    requires scsc <= scan ==> newFile[scan] !in oldFile
    ensures Hits(oldFile, newFile, offset, scan + 1, scsc) ==
            Hits(oldFile, newFile, offset, scan, scsc) - if Hit(oldFile, newFile, offset, scan) then 1 else 0
  {
    if scan < scsc {
      HitsFront(oldFile, newFile, offset, scan, scsc);
    }
  }

  lemma StopDecision(oldFile: seq<Byte>, newFile: seq<Byte>, offset: int, from: nat, answers: seq<Answer>, len: nat,
                     oldscore: int)
    requires 0 <= from + offset && answers != [] && Reach(from, answers) <= |newFile|
    requires len == answers[|answers| - 1].len
    requires oldscore == Hits(oldFile, newFile, offset, from + |answers| - 1, Reach(from, answers))
    ensures oldscore == OldScore(oldFile, newFile, offset, from, answers)
    ensures if (len == oldscore && len != 0) || len > oldscore + 8 then StopsAt(oldFile, newFile, offset, from, answers)
            else GoesOn(oldFile, newFile, offset, from, answers, |answers|)
  {
    assert answers[..|answers|] == answers;
  }

  /** The scan loop.  It stops at a position with a match of at least one byte, or at the end of
      the new file; `oldscore` is the score of the present alignment there. */
  method ScanForward(I: array<int>, oldFile: seq<Byte>, newFile: seq<Byte>, from: nat, lastoffset: int, len0: nat,
                     pos0: nat)
    returns (scan: nat, len: nat, pos: nat, oldscore: int, ghost answers: seq<Answer>)
    requires SuffixArray(oldFile, I[..]) && from <= |newFile| && 0 <= from + lastoffset
    ensures scan <= |newFile| && Probed(oldFile, I[..], newFile, lastoffset, from, answers)
    ensures scan < |newFile| ==> answers != [] && scan == from + |answers| - 1
    ensures scan < |newFile| ==> StopsAt(oldFile, newFile, lastoffset, from, answers)
    ensures scan < |newFile| ==> oldscore == OldScore(oldFile, newFile, lastoffset, from, answers)
    ensures scan == |newFile| ==> scan == from + |answers|
    ensures scan == |newFile| && answers != [] ==> GoesOn(oldFile, newFile, lastoffset, from, answers, |answers|)
    ensures Answer(len, pos) == if answers == [] then Answer(len0, pos0) else answers[|answers| - 1]
  {
    hide SuffixArray, Found, Probed, StopsAt, GoesOn, OldScore, Reach, Hits;
    scan, len, pos, oldscore, answers := from, len0, pos0, 0, [];
    NothingProbed(oldFile, I[..], newFile, lastoffset, from);
    var scsc := from;
    while scan < |newFile|
      invariant from <= scan <= |newFile| && scan == from + |answers| && scsc == Reach(from, answers) <= |newFile|
      invariant Probed(oldFile, I[..], newFile, lastoffset, from, answers)
      invariant answers != [] ==> GoesOn(oldFile, newFile, lastoffset, from, answers, |answers|)
      invariant oldscore == Hits(oldFile, newFile, lastoffset, scan, scsc)
      invariant forall t | scsc <= t < scan :: newFile[t] !in oldFile
      invariant Answer(len, pos) == if answers == [] then Answer(len0, pos0) else answers[|answers| - 1]
    {
      len, pos := FindMatch(I, oldFile, newFile[scan..]);
      FoundBounds(oldFile, I[..], newFile[scan..], Answer(len, pos));
      AnswerAdded(oldFile, I[..], newFile, lastoffset, from, answers, Answer(len, pos));
      scsc, oldscore := CountHits(oldFile, newFile, lastoffset, scan, len, scsc, oldscore);
      answers := answers + [Answer(len, pos)];
      StopDecision(oldFile, newFile, lastoffset, from, answers, len, oldscore);
      if (len == oldscore && len != 0) || len > oldscore + 8 {
        break;
      }
      ScoreMovesOn(oldFile, newFile, lastoffset, scan, scsc);
      if scan + lastoffset < |oldFile| && oldFile[scan + lastoffset] == newFile[scan] {
        oldscore := oldscore - 1;
      }
      scan := scan + 1;
    }
  }

  lemma NothingProbed(oldFile: seq<Byte>, i: seq<int>, newFile: seq<Byte>, offset: int, from: nat)
    requires SuffixArray(oldFile, i) && 0 <= from + offset && from <= |newFile|
    ensures Probed(oldFile, i, newFile, offset, from, []) && Reach(from, []) == from
    ensures Hits(oldFile, newFile, offset, from, from) == 0
  {
  }

  lemma FoundBounds(s: seq<Byte>, i: seq<int>, q: seq<Byte>, answer: Answer)
    requires SuffixArray(s, i) && Found(s, i, q, answer)
    ensures answer.len <= |q| && answer.pos <= |s| && answer.len == Match(s, q, answer.pos)
    ensures answer.len > 0 <==> q != [] && q[0] in s
  {
  }
}
