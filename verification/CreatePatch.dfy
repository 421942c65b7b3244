/** `CreatePatchInternal`: scan, extend, emit, assemble. */
module CreatePatch {
  import opened Bytes
  import opened Qsufsort
  import opened Search
  import opened ScanLoop
  import opened Extents
  import opened OffsetCodec
  import opened Options
  import opened PatchFormat
  import opened ApplyPatch
  import opened RoundTrip

  // ---------------------------------------------------------------- the extents of one triple

  /** The extents chosen between the end of the last triple and the new match: the best forward and
      backward extents, an overlap of the two cut at its best split. */
  ghost predicate Chosen(oldFile: seq<Byte>, newFile: seq<Byte>, lastscan: nat, lastpos: nat, scan: nat, pos: nat,
                         lenf: int, lenb: int)
    requires lastscan <= scan <= |newFile| && lastpos <= |oldFile| && pos <= |oldFile|
  {
    exists f, b :: CutFrom(oldFile, newFile, lastscan, lastpos, scan, pos, f, b, lenf, lenb)
  }

  /** `lenf` and `lenb` are what is left of the uncut extents `f` and `b`. */
  ghost predicate CutFrom(oldFile: seq<Byte>, newFile: seq<Byte>, lastscan: nat, lastpos: nat, scan: nat, pos: nat,
                          f: nat, b: nat, lenf: int, lenb: int)
    requires lastscan <= scan <= |newFile| && lastpos <= |oldFile| && pos <= |oldFile|
  {
    && BestForward(oldFile, newFile, lastpos, lastscan, scan, f)
    && (if scan < |newFile| then BestBackward(oldFile, newFile, pos, lastscan, scan, b) else b == 0)
    && var overlap := lastscan + f - (scan - b);
       if overlap <= 0 then lenf == f && lenb == b
       else BestSplit(oldFile, newFile, lastpos + f - overlap, pos - b, scan - b, overlap, lenf - f + overlap)
            && lenb == b - (lenf - f + overlap)
  }

  /** Each of the three choices is the smallest of the best, so nothing is left open. */
  lemma ChosenUnique(oldFile: seq<Byte>, newFile: seq<Byte>, lastscan: nat, lastpos: nat, scan: nat, pos: nat,
                     lenf: int, lenb: int, lenf': int, lenb': int)
    requires lastscan <= scan <= |newFile| && lastpos <= |oldFile| && pos <= |oldFile|
    requires Chosen(oldFile, newFile, lastscan, lastpos, scan, pos, lenf, lenb)
    requires Chosen(oldFile, newFile, lastscan, lastpos, scan, pos, lenf', lenb')
    ensures lenf == lenf' && lenb == lenb'
  {
    hide BestForward, BestBackward, BestSplit;
    var f: nat, b: nat :| CutFrom(oldFile, newFile, lastscan, lastpos, scan, pos, f, b, lenf, lenb);
    var f': nat, b': nat :| CutFrom(oldFile, newFile, lastscan, lastpos, scan, pos, f', b', lenf', lenb');
    ForwardUnique(oldFile, newFile, lastpos, lastscan, scan, f, f');
    if scan < |newFile| {
      BackwardUnique(oldFile, newFile, pos, lastscan, scan, b, b');
    }
    var overlap := lastscan + f - (scan - b);
    if overlap > 0 {
      SplitUnique(oldFile, newFile, lastpos + f - overlap, pos - b, scan - b, overlap, lenf - f + overlap,
                  lenf' - f + overlap);
    }
  }

  lemma ChosenFits(oldFile: seq<Byte>, newFile: seq<Byte>, lastscan: nat, lastpos: nat, scan: nat, pos: nat, lenf: int,
                   lenb: int)
    requires lastscan <= scan <= |newFile| && lastpos <= |oldFile| && pos <= |oldFile|
    requires Chosen(oldFile, newFile, lastscan, lastpos, scan, pos, lenf, lenb)
    ensures 0 <= lenf && 0 <= lenb && lastscan + lenf <= scan - lenb && lastpos + lenf <= |oldFile| && lenb <= pos
    ensures scan == |newFile| ==> lenb == 0
  {
    var f: nat, b: nat :| CutFrom(oldFile, newFile, lastscan, lastpos, scan, pos, f, b, lenf, lenb);
  }

  /** The two extension loops and the overlap loop. */
  method Extend(oldFile: seq<Byte>, newFile: seq<Byte>, lastscan: nat, lastpos: nat, scan: nat, pos: nat)
      returns (lenf: int, lenb: int)
    requires lastscan <= scan <= |newFile| && lastpos <= |oldFile| && pos <= |oldFile|
    ensures Chosen(oldFile, newFile, lastscan, lastpos, scan, pos, lenf, lenb)
  {
    lenf := ForwardExtent(oldFile, newFile, lastscan, scan, lastpos);
    lenb := 0;
    if scan < |newFile| {
      lenb := BackwardExtent(oldFile, newFile, lastscan, scan, pos);
    }
    ghost var f, b := lenf, lenb;
    if lastscan + lenf > scan - lenb {
      var overlap := (lastscan + lenf) - (scan - lenb);
      var lens := SplitOverlap(oldFile, newFile, lastscan, lastpos, lenf, scan, pos, lenb, overlap);
      lenf := lenf + lens - overlap;
      lenb := lenb - lens;
    }
    assert CutFrom(oldFile, newFile, lastscan, lastpos, scan, pos, f, b, lenf, lenb);
  }

  // ---------------------------------------------------------------- one round of the scan

  /** The local variables of the scan between two rounds, with the triples emitted so far. */
  datatype State = State(scan: nat, len: nat, pos: nat, lastscan: nat, lastpos: nat, ts: seq<Triple>)

  const START := State(0, 0, 0, 0, 0, [])

  /** What holds between two rounds: the triples describe the new file up to `lastscan`, which
      trails `scan`, and reach its end together with `scan`. */
  ghost predicate Between(oldFile: seq<Byte>, newFile: seq<Byte>, st: State, d: seq<Byte>, e: seq<Byte>) {
    && st.lastscan <= st.scan <= |newFile| && st.lastpos <= |oldFile| && st.pos <= |oldFile|
    && NewPos(st.ts) == st.lastscan && OldPos(st.ts) == st.lastpos
    && Describes(oldFile, newFile, st.ts, d, e)
    && (st.scan == |newFile| <==> st.lastscan == |newFile|)
    && (st.scan < |newFile| ==> st.scan + st.len <= |newFile|)
  }

  /** The scan loop has run from `st` to `st'`, which has not been updated by an emission yet. */
  ghost predicate Scanned(oldFile: seq<Byte>, i: seq<int>, newFile: seq<Byte>, st: State, answers: seq<Answer>,
                          scan: nat, len: nat, pos: nat)
    requires SuffixArray(oldFile, i)
  {
    var from, offset := st.scan + st.len, st.lastpos - st.lastscan;
    && 0 <= from + offset && scan <= |newFile|
    && Probed(oldFile, i, newFile, offset, from, answers)
    && (if scan < |newFile| then answers != [] && scan == from + |answers| - 1 &&
        StopsAt(oldFile, newFile, offset, from, answers)
        else scan == from + |answers| && (answers != [] ==> GoesOn(oldFile, newFile, offset, from, answers, |answers|)))
    && Answer(len, pos) == if answers == [] then Answer(st.len, st.pos) else answers[|answers| - 1]
  }

  /** `oldscore` is the score of the old alignment where the scan has stopped. */
  ghost predicate Scored(oldFile: seq<Byte>, newFile: seq<Byte>, st: State, answers: seq<Answer>, oldscore: int) {
    var from, offset := st.scan + st.len, st.lastpos - st.lastscan;
    && 0 <= from + offset && answers != [] && Reach(from, answers) <= |newFile|
    && oldscore == OldScore(oldFile, newFile, offset, from, answers)
  }

  /** Whether the round ends with a triple: at the end of the file, or when the match is not just
      what the old alignment gives. */
  ghost predicate Emits(oldFile: seq<Byte>, newFile: seq<Byte>, st: State, answers: seq<Answer>, scan: nat, len: nat) {
    scan >= |newFile| || !Scored(oldFile, newFile, st, answers, len)
  }

  /** One round of the outer loop, from `st` to `st'`. */
  ghost predicate RoundFrom(oldFile: seq<Byte>, i: seq<int>, newFile: seq<Byte>, st: State, st': State)
    requires SuffixArray(oldFile, i)
  {
    exists answers, lenf, lenb :: RoundWith(oldFile, i, newFile, st, st', answers, lenf, lenb)
  }

  ghost predicate RoundWith(oldFile: seq<Byte>, i: seq<int>, newFile: seq<Byte>, st: State, st': State,
                            answers: seq<Answer>, lenf: int, lenb: int)
    requires SuffixArray(oldFile, i)
  {
    && Scanned(oldFile, i, newFile, st, answers, st'.scan, st'.len, st'.pos)
    && if Emits(oldFile, newFile, st, answers, st'.scan, st'.len) then
         Moves(oldFile, newFile, st, st', lenf, lenb)
       else st'.lastscan == st.lastscan && st'.lastpos == st.lastpos && st'.ts == st.ts
  }

  function TripleFor(st: State, st': State, lenf: int): Triple {
    Triple(lenf, st'.lastscan - (st.lastscan + lenf), st'.lastpos - (st.lastpos + lenf))
  }

  /** The states of a whole scan, from the beginning to the end of the new file. */
  ghost predicate WholeScan(oldFile: seq<Byte>, i: seq<int>, newFile: seq<Byte>, run: seq<State>)
    requires SuffixArray(oldFile, i)
  {
    && run != [] && run[0] == START && run[|run| - 1].scan >= |newFile|
    && forall k | 0 <= k < |run| - 1 :: run[k].scan < |newFile| && RoundFrom(oldFile, i, newFile, run[k], run[k + 1])
  }

  // ---------------------------------------------------------------- what one round keeps

  /** A scan that stops inside the file has a match there, so the next round starts further on. */
  lemma ScanProgress(oldFile: seq<Byte>, i: seq<int>, newFile: seq<Byte>, st: State, answers: seq<Answer>, scan: nat,
                     len: nat, pos: nat)
    requires SuffixArray(oldFile, i) && Scanned(oldFile, i, newFile, st, answers, scan, len, pos)
    requires st.pos <= |oldFile|
    ensures st.scan + st.len <= scan <= |newFile| && pos <= |oldFile|
    ensures scan < |newFile| ==> 0 < len <= |newFile| - scan
  {
    hide SuffixArray, Found;
    if answers != [] {
      var n := |answers| - 1;
      var from := st.scan + st.len;
      FoundBounds(oldFile, i, newFile[from + n..], answers[n]);
    }
  }

  /** An emission moves from `st` to `st'`. */
  ghost predicate Moves(oldFile: seq<Byte>, newFile: seq<Byte>, st: State, st': State, lenf: int, lenb: int) {
    && st.lastscan <= st'.scan <= |newFile| && st.lastpos <= |oldFile| && st'.pos <= |oldFile|
    && Chosen(oldFile, newFile, st.lastscan, st.lastpos, st'.scan, st'.pos, lenf, lenb)
    && st'.lastscan == st'.scan - lenb && st'.lastpos == st'.pos - lenb
    && st'.ts == st.ts + [TripleFor(st, st', lenf)]
  }

  lemma MoveFits(oldFile: seq<Byte>, newFile: seq<Byte>, st: State, st': State, lenf: int, lenb: int)
    requires Moves(oldFile, newFile, st, st', lenf, lenb) && st.lastscan < |newFile|
    ensures Fits(oldFile, newFile, st.lastscan, st.lastpos, TripleFor(st, st', lenf))
    ensures st'.lastscan <= st'.scan && (st'.scan == |newFile| <==> st'.lastscan == |newFile|) &&
              st'.lastpos <= |oldFile|
  {
    hide Chosen;
    ChosenFits(oldFile, newFile, st.lastscan, st.lastpos, st'.scan, st'.pos, lenf, lenb);
  }

  /** The streams after an emission. */
  ghost predicate Extended(oldFile: seq<Byte>, newFile: seq<Byte>, st: State, t: Triple, d: seq<Byte>, e: seq<Byte>,
                           d': seq<Byte>, e': seq<Byte>)
    requires Fits(oldFile, newFile, st.lastscan, st.lastpos, t)
  {
    && d' == d + Differences(oldFile, newFile, st.lastpos, st.lastscan, t.add)
    && e' == e + newFile[st.lastscan + t.add..st.lastscan + t.add + t.copy]
  }

  lemma StreamsExtended(oldFile: seq<Byte>, newFile: seq<Byte>, st: State, t: Triple, d: seq<Byte>, e: seq<Byte>,
                        d': seq<Byte>, e': seq<Byte>)
    requires Describes(oldFile, newFile, st.ts, d, e) && NewPos(st.ts) == st.lastscan && OldPos(st.ts) == st.lastpos
    requires Fits(oldFile, newFile, st.lastscan, st.lastpos, t) && Extended(oldFile, newFile, st, t, d, e, d', e')
    ensures Describes(oldFile, newFile, st.ts + [t], d', e')
    ensures NewPos(st.ts + [t]) == st.lastscan + t.add + t.copy && OldPos(st.ts + [t]) == st.lastpos + t.add + t.seek
  {
    hide Describes, NewPos, OldPos, Differences, ControlBytes, TripleBytes;
    DescribesOneMore(oldFile, newFile, st.ts, d, e, t);
  }

  /** Every emission keeps the streams in step with the two positions. */
  lemma MoveKeeps(oldFile: seq<Byte>, newFile: seq<Byte>, st: State, st': State, lenf: int, lenb: int,
                  d: seq<Byte>, e: seq<Byte>, d': seq<Byte>, e': seq<Byte>)
    requires Between(oldFile, newFile, st, d, e) && st.scan < |newFile| && Moves(oldFile, newFile, st, st', lenf, lenb)
    requires st'.scan < |newFile| ==> st'.scan + st'.len <= |newFile|
    requires Fits(oldFile, newFile, st.lastscan, st.lastpos, TripleFor(st, st', lenf))
    requires Extended(oldFile, newFile, st, TripleFor(st, st', lenf), d, e, d', e')
    ensures Between(oldFile, newFile, st', d', e')
  {
    hide Chosen, Describes, Extended, NewPos, OldPos, Fits;
    MoveFits(oldFile, newFile, st, st', lenf, lenb);
    StreamsExtended(oldFile, newFile, st, TripleFor(st, st', lenf), d, e, d', e');
  }

  lemma RoundSkips(oldFile: seq<Byte>, i: seq<int>, newFile: seq<Byte>, st: State, st': State, answers: seq<Answer>,
                   d: seq<Byte>, e: seq<Byte>)
    requires SuffixArray(oldFile, i) && Between(oldFile, newFile, st, d, e) && st.scan < |newFile|
    requires RoundWith(oldFile, i, newFile, st, st', answers, 0, 0)
    requires !Emits(oldFile, newFile, st, answers, st'.scan, st'.len)
    ensures Between(oldFile, newFile, st', d, e)
  {
    ScanProgress(oldFile, i, newFile, st, answers, st'.scan, st'.len, st'.pos);
  }

  // ---------------------------------------------------------------- writing the streams

  method EmitDiff(db: array<Byte>, dblen: nat, oldFile: seq<Byte>, newFile: seq<Byte>, lastpos: nat, lastscan: nat,
                  lenf: nat)
    requires dblen + lenf <= db.Length && lastpos + lenf <= |oldFile| && lastscan + lenf <= |newFile|
    modifies db
    ensures db[..dblen + lenf] == old(db[..dblen]) + Differences(oldFile, newFile, lastpos, lastscan, lenf)
  {
    var i := 0;
    while i < lenf
      invariant 0 <= i <= lenf && db[..dblen] == old(db[..dblen])
      invariant forall k | 0 <= k < i :: db[dblen + k] == Differences(oldFile, newFile, lastpos, lastscan, lenf)[k]
    {
      db[dblen + i] := (newFile[lastscan + i] as int - oldFile[lastpos + i] as int) % 256;
      i := i + 1;
    }
  }

  method EmitExtra(eb: array<Byte>, eblen: nat, newFile: seq<Byte>, from: nat, count: nat)
    requires eblen + count <= eb.Length && from + count <= |newFile|
    modifies eb
    ensures eb[..eblen + count] == old(eb[..eblen]) + newFile[from..from + count]
  {
    var i := 0;
    while i < count
      invariant 0 <= i <= count
      invariant eb[..eblen + i] == old(eb[..eblen]) + newFile[from..from + i]
    {
      eb[eblen + i] := newFile[from + i];
      assert eb[..eblen + i + 1] == eb[..eblen + i] + [newFile[from + i]];
      i := i + 1;
    }
  }

  method TripleOut(lenf: int, extra: int, seek: int) returns (b: seq<Byte>)
    ensures b == TripleBytes(Triple(lenf, extra, seek))
  {
    var buf := new Byte[8];
    Offtout(lenf, buf, 0);
    b := buf[0..8];
    Offtout(extra, buf, 0);
    b := b + buf[0..8];
    Offtout(seek, buf, 0);
    b := b + buf[0..8];
  }

  // ---------------------------------------------------------------- the scan as a whole

  /** Rounds so far, the last one leading to `st`. */
  ghost predicate Rounds(oldFile: seq<Byte>, i: seq<int>, newFile: seq<Byte>, run: seq<State>, st: State)
    requires SuffixArray(oldFile, i)
  {
    && run != [] && run[0] == START && run[|run| - 1] == st
    && forall k | 0 <= k < |run| - 1 :: run[k].scan < |newFile| && RoundFrom(oldFile, i, newFile, run[k], run[k + 1])
  }

  lemma OneMoreRound(oldFile: seq<Byte>, i: seq<int>, newFile: seq<Byte>, run: seq<State>, st: State, st': State,
                     answers: seq<Answer>, lenf: int, lenb: int)
    requires SuffixArray(oldFile, i) && Rounds(oldFile, i, newFile, run, st) && st.scan < |newFile|
    requires RoundWith(oldFile, i, newFile, st, st', answers, lenf, lenb)
    ensures Rounds(oldFile, i, newFile, run + [st'], st')
  {
    hide SuffixArray, RoundWith;
    assert RoundFrom(oldFile, i, newFile, st, st');
  }

  lemma BetweenStart(oldFile: seq<Byte>, i: seq<int>, newFile: seq<Byte>)
    requires SuffixArray(oldFile, i)
    ensures Between(oldFile, newFile, START, [], []) && Rounds(oldFile, i, newFile, [START], START)
  {
  }

  /** Both streams fit their buffers, whatever is emitted next. */
  lemma BetweenFacts(oldFile: seq<Byte>, newFile: seq<Byte>, st: State, d: seq<Byte>, e: seq<Byte>)
    requires Between(oldFile, newFile, st, d, e)
    ensures st.lastscan <= st.scan <= |newFile| && st.lastpos <= |oldFile| && st.pos <= |oldFile|
    ensures st.scan < |newFile| ==> st.scan + st.len <= |newFile| && st.lastscan < |newFile|
    ensures |d| + |e| == st.lastscan
  {
    StreamsTile(oldFile, newFile, st.ts, d, e);
  }

  lemma EmitsWhen(oldFile: seq<Byte>, newFile: seq<Byte>, st: State, answers: seq<Answer>, scan: nat, len: nat,
                  oldscore: int)
    requires scan < |newFile| ==> Scored(oldFile, newFile, st, answers, oldscore)
    ensures Emits(oldFile, newFile, st, answers, scan, len) <==> len != oldscore || scan >= |newFile|
  {
  }

  lemma ScannedScore(oldFile: seq<Byte>, i: seq<int>, newFile: seq<Byte>, st: State, answers: seq<Answer>, scan: nat,
                     len: nat, pos: nat)
    requires SuffixArray(oldFile, i) && Scanned(oldFile, i, newFile, st, answers, scan, len, pos)
    ensures var from := st.scan + st.len;
            0 <= from + (st.lastpos - st.lastscan) && Reach(from, answers) <= |newFile| &&
                (scan < |newFile| ==> answers != [])
  {
    hide SuffixArray, Found, GoesOn, Reach, StopsAt;
  }

  /** The emission of one triple. */
  method EmitTriple(oldFile: seq<Byte>, newFile: seq<Byte>, st: State, scan: nat, len: nat, pos: nat, db: array<Byte>,
                    eb: array<Byte>,
                    dblen: nat, eblen: nat, ctrl: seq<Byte>)
    returns (st': State, dblen': nat, eblen': nat, ctrl': seq<Byte>, ghost lenf0: int, ghost lenb0: int)
    requires st.scan <= scan <= |newFile| && pos <= |oldFile| && st.scan < |newFile|
    requires scan < |newFile| ==> scan + len <= |newFile|
    requires db != eb && db.Length == eb.Length == |newFile| + 1 && dblen <= db.Length && eblen <= eb.Length
    requires Between(oldFile, newFile, st, db[..dblen], eb[..eblen]) && ctrl == ControlBytes(st.ts)
    modifies db, eb
    ensures dblen' <= db.Length && eblen' <= eb.Length
    ensures Between(oldFile, newFile, st', db[..dblen'], eb[..eblen']) && ctrl' == ControlBytes(st'.ts)
    ensures st'.scan == scan && st'.len == len && st'.pos == pos && Moves(oldFile, newFile, st, st', lenf0, lenb0)
  {
    hide Between, Chosen, ControlBytes, TripleBytes, Describes, Differences, NewPos, OldPos;
    BetweenFacts(oldFile, newFile, st, db[..dblen], eb[..eblen]);
    var lenf, lenb := Extend(oldFile, newFile, st.lastscan, st.lastpos, scan, pos);
    ChosenFits(oldFile, newFile, st.lastscan, st.lastpos, scan, pos, lenf, lenb);
    lenf0, lenb0 := lenf, lenb;
    var lastscan, lastpos := scan - lenb, pos - lenb;
    var extra, seek := lastscan - (st.lastscan + lenf), lastpos - (st.lastpos + lenf);
    st' := State(scan, len, pos, lastscan, lastpos, st.ts + [Triple(lenf, extra, seek)]);
    MoveFits(oldFile, newFile, st, st', lenf, lenb);
    ghost var d, e := db[..dblen], eb[..eblen];
    EmitDiff(db, dblen, oldFile, newFile, st.lastpos, st.lastscan, lenf);
    EmitExtra(eb, eblen, newFile, st.lastscan + lenf, extra);
    dblen', eblen' := dblen + lenf, eblen + extra;
    var b := TripleOut(lenf, extra, seek);
    ctrl' := ctrl + b;
    ControlOneMore(st.ts, Triple(lenf, extra, seek));
    MoveKeeps(oldFile, newFile, st, st', lenf, lenb, d, e, db[..dblen'], eb[..eblen']);
  }

  /** One round of the outer loop: scan on from the end of the last match, then emit a triple or go
      on with the old alignment. */
  method Round(I: array<int>, oldFile: seq<Byte>, newFile: seq<Byte>, st: State, db: array<Byte>, eb: array<Byte>,
               dblen: nat, eblen: nat, ctrl: seq<Byte>)
    returns (st': State, dblen': nat, eblen': nat, ctrl': seq<Byte>, ghost answers: seq<Answer>, ghost lenf: int,
             ghost lenb: int)
    requires SuffixArray(oldFile, I[..]) && st.scan < |newFile| && db != eb
    requires db.Length == eb.Length == |newFile| + 1 && dblen <= db.Length && eblen <= eb.Length
    requires Between(oldFile, newFile, st, db[..dblen], eb[..eblen]) && ctrl == ControlBytes(st.ts)
    modifies db, eb
    ensures dblen' <= db.Length && eblen' <= eb.Length
    ensures Between(oldFile, newFile, st', db[..dblen'], eb[..eblen']) && ctrl' == ControlBytes(st'.ts)
    ensures RoundWith(oldFile, I[..], newFile, st, st', answers, lenf, lenb)
    ensures st'.scan < |newFile| ==> st.scan + st.len <= st'.scan && 0 < st'.len <= |newFile| - st'.scan
    ensures st'.scan <= |newFile|
  {
    hide SuffixArray, Between, Chosen, Emits, Probed, StopsAt, GoesOn, ControlBytes, Reach, OldScore, Moves;
    BetweenFacts(oldFile, newFile, st, db[..dblen], eb[..eblen]);
    var scan, len, pos, oldscore;
    scan, len, pos, oldscore, answers := ScanForward(I, oldFile, newFile, st.scan + st.len, st.lastpos - st.lastscan,
                                                     st.len, st.pos);
    assert Scanned(oldFile, I[..], newFile, st, answers, scan, len, pos);
    ScanProgress(oldFile, I[..], newFile, st, answers, scan, len, pos);
    ScannedScore(oldFile, I[..], newFile, st, answers, scan, len, pos);
    EmitsWhen(oldFile, newFile, st, answers, scan, len, oldscore);
    if len != oldscore || scan == |newFile| {
      st', dblen', eblen', ctrl', lenf, lenb := EmitTriple(oldFile, newFile, st, scan, len, pos, db, eb, dblen, eblen,
                                                           ctrl);
    } else {
      lenf, lenb := 0, 0;
      st' := State(scan, len, pos, st.lastscan, st.lastpos, st.ts);
      dblen', eblen', ctrl' := dblen, eblen, ctrl;
      RoundSkips(oldFile, I[..], newFile, st, st', answers, db[..dblen], eb[..eblen]);
    }
  }

  lemma ScanComplete(oldFile: seq<Byte>, i: seq<int>, newFile: seq<Byte>, run: seq<State>, st: State, d: seq<Byte>,
                     e: seq<Byte>)
    requires SuffixArray(oldFile, i) && Rounds(oldFile, i, newFile, run, st) && Between(oldFile, newFile, st, d, e)
    requires st.scan >= |newFile|
    ensures WholeScan(oldFile, i, newFile, run) && st == run[|run| - 1]
    ensures Describes(oldFile, newFile, st.ts, d, e) && NewPos(st.ts) == |newFile|
  {
    hide SuffixArray, RoundFrom;
  }

  /** What a scan has made: the triples, their control bytes, and the diff and the extra stream. */
  datatype Streams = Streams(ts: seq<Triple>, ctrl: seq<Byte>, d: seq<Byte>, e: seq<Byte>)

  /** The streams describe all of the new file. */
  predicate Described(oldFile: seq<Byte>, newFile: seq<Byte>, out: Streams) {
    Describes(oldFile, newFile, out.ts, out.d, out.e) && NewPos(out.ts) == |newFile| && out.ctrl == ControlBytes(out.ts)
  }

  /** The scan: sorts the suffixes of the old file and runs rounds until the new file is used up.
      Every round but the last starts further on, because what stops a scan is a match. */
  method Diff(oldFile: seq<Byte>, newFile: seq<Byte>) returns (out: Streams, ghost i: seq<int>, ghost run: seq<State>)
    ensures SuffixArray(oldFile, i) && WholeScan(oldFile, i, newFile, run) && out.ts == run[|run| - 1].ts
    ensures Described(oldFile, newFile, out)
  {
    hide SuffixArray, Between, Rounds, RoundWith, WholeScan, Describes, NewPos, ControlBytes;
    var I, V := new int[|oldFile| + 1], new int[|oldFile| + 1];
    Qsufsort.Qsufsort(I, V, oldFile);
    i := I[..];
    var db, eb := new Byte[|newFile| + 1], new Byte[|newFile| + 1];
    var dblen: nat, eblen: nat, st := 0, 0, START;
    NoTriples();
    var ctrl := [];
    run := [START];
    BetweenStart(oldFile, i, newFile);
    while st.scan < |newFile|
      invariant dblen <= db.Length && eblen <= eb.Length && I[..] == i && SuffixArray(oldFile, i)
      invariant Between(oldFile, newFile, st, db[..dblen], eb[..eblen]) && ctrl == ControlBytes(st.ts)
      invariant Rounds(oldFile, i, newFile, run, st)
      invariant st.scan < |newFile| ==> st.scan + st.len <= |newFile|
      decreases if st.scan < |newFile| then |newFile| - st.scan - st.len + 1 else 0
    {
      ghost var answers, lenf, lenb;
      ghost var before := st;
      st, dblen, eblen, ctrl, answers, lenf, lenb := Round(I, oldFile, newFile, st, db, eb, dblen, eblen, ctrl);
      OneMoreRound(oldFile, i, newFile, run, before, st, answers, lenf, lenb);
      run := run + [st];
    }
    out := Streams(st.ts, ctrl, db[..dblen], eb[..eblen]);
    ScanComplete(oldFile, i, newFile, run, st, out.d, out.e);
  }

  lemma NoTriples()
    ensures ControlBytes(START.ts) == []
  {
  }

  // ---------------------------------------------------------------- how many triples there can be

  lemma {:induction false} ControlLength(ts: seq<Triple>)
    ensures |ControlBytes(ts)| == 24 * |ts|
  {
    if ts != [] {
      ControlLength(ts[..|ts| - 1]);
    }
  }

  /** Rounds that do not reach the end of the file stop at strictly increasing positions. */
  lemma {:induction false} RoundsAdvance(oldFile: seq<Byte>, i: seq<int>, newFile: seq<Byte>, run: seq<State>, k: nat)
    requires SuffixArray(oldFile, i) && WholeScan(oldFile, i, newFile, run) && k < |run|
    ensures |run[k].ts| <= k && run[k].pos <= |oldFile| && run[k].scan <= |newFile|
    ensures 0 < k < |run| - 1 ==> k <= run[k].scan + 1 && run[k].len > 0
  {
    hide SuffixArray, Scanned, Moves, Emits;
    if k > 0 {
      RoundsAdvance(oldFile, i, newFile, run, k - 1);
      assert RoundFrom(oldFile, i, newFile, run[k - 1], run[k]);
      RoundAdvances(oldFile, i, newFile, run[k - 1], run[k]);
    }
  }

  lemma RoundAdvances(oldFile: seq<Byte>, i: seq<int>, newFile: seq<Byte>, st: State, st': State)
    requires SuffixArray(oldFile, i) && RoundFrom(oldFile, i, newFile, st, st') && st.pos <= |oldFile|
    ensures st.scan + st.len <= st'.scan <= |newFile| && st'.pos <= |oldFile| && |st'.ts| <= |st.ts| + 1
    ensures st'.scan < |newFile| ==> st'.len > 0
  {
    hide SuffixArray, Scanned, Chosen, Emits;
    var answers, lenf, lenb :| RoundWith(oldFile, i, newFile, st, st', answers, lenf, lenb);
    ScanProgress(oldFile, i, newFile, st, answers, st'.scan, st'.len, st'.pos);
  }

  /** There are at most two triples more than the new file has bytes, so every new file that is small
      enough, whatever the old one is, is brought back. */
  lemma SmallEnough(oldFile: seq<Byte>, i: seq<int>, newFile: seq<Byte>, run: seq<State>)
    requires SuffixArray(oldFile, i) && WholeScan(oldFile, i, newFile, run)
    ensures var c := |ControlBytes(run[|run| - 1].ts)|;
            c <= 24 * (|newFile| + 2) && (25 * |newFile| + 48 < UNSIGNED ==> c + |newFile| < UNSIGNED)
  {
    hide SuffixArray, WholeScan, ControlBytes;
    RunLength(oldFile, i, newFile, run);
    ControlLength(run[|run| - 1].ts);
  }

  lemma RunLength(oldFile: seq<Byte>, i: seq<int>, newFile: seq<Byte>, run: seq<State>)
    requires SuffixArray(oldFile, i) && WholeScan(oldFile, i, newFile, run)
    ensures |run| > 0 && |run[|run| - 1].ts| <= |newFile| + 2
  {
    hide SuffixArray, RoundFrom;
    var n := |run| - 1;
    RoundsAdvance(oldFile, i, newFile, run, n);
    if n > 1 {
      RoundsAdvance(oldFile, i, newFile, run, n - 1);
    }
  }

  // ---------------------------------------------------------------- the patch

  /** `Overflow` marks patches whose size does not fit in the 32 bits of the compressor. */
  datatype Creation = Created(patch: seq<Byte>) | Failed | Overflow

  /** The patch `r` consists of the header and the three compressed streams.  The lengths of the diff and
      the extra stream reach the compressor in 32 bits.  It fails only when one of the streams cannot be
      compressed, and overflows exactly when those up to one that can be are too long together. */
  ghost predicate Packed(newFile: seq<Byte>, out: Streams, enc: seq<Byte> -> Option<seq<Byte>>, r: Creation) {
    var c, d, e := enc(out.ctrl), enc(Kept(out.d)), enc(Kept(out.e));
    && (r.Failed? ==> c.None? || d.None? || e.None?)
    && (r.Overflow? <==>
        && c.Some?
        && (|| 32 + |c.value| >= UNSIGNED
            || (&& d.Some?
                && (|| 32 + |c.value| + |d.value| >= UNSIGNED
                    || (e.Some? && 32 + |c.value| + |d.value| + |e.value| >= UNSIGNED)))))
    && (r.Created? <==> c.Some? && d.Some? && e.Some? && 32 + |c.value| + |d.value| + |e.value| < UNSIGNED)
    && (r.Created? ==> r.patch == Assembled(|newFile|, c.value, d.value, e.value))
  }

  /** What `CreatePatch` promises of its result: applying the patch brings the new file back, with
      every byte of the three streams consumed, exactly when the control bytes and the new file
      together are shorter than 2^32 bytes. */
  ghost predicate BringsBack(oldFile: seq<Byte>, newFile: seq<Byte>, patch: seq<Byte>, out: Streams,
                             enc: seq<Byte> -> Option<seq<Byte>>)
  {
    var c, d, e := |out.ctrl|, |out.d|, |out.e|;
    forall dec: seq<Byte> -> Option<seq<Byte>> | Lossless(enc, dec) ::
      && (Apply(oldFile, patch, dec) == Rebuilt(newFile, c, c + d, c + d + e) <==> c + |newFile| < UNSIGNED)
      && (Restored(Apply(oldFile, patch, dec), newFile) <==> c + |newFile| < UNSIGNED)
  }

  lemma PackedBringsBack(oldFile: seq<Byte>, newFile: seq<Byte>, out: Streams, enc: seq<Byte> -> Option<seq<Byte>>,
                         r: Creation)
    requires Described(oldFile, newFile, out) && Packed(newFile, out, enc, r) && r.Created?
    requires |oldFile| < UNSIGNED && |newFile| < LIMIT
    ensures BringsBack(oldFile, newFile, r.patch, out, enc)
  {
    hide Describes, NewPos, ControlBytes, Apply, Lossless, Restored, Kept, Assembled;
    forall dec: seq<Byte> -> Option<seq<Byte>> | Lossless(enc, dec)
      ensures
        var c, d, e := |out.ctrl|, |out.d|, |out.e|;
        && (Apply(oldFile, r.patch, dec) == Rebuilt(newFile, c, c + d, c + d + e) <==> c + |newFile| < UNSIGNED)
        && (Restored(Apply(oldFile, r.patch, dec), newFile) <==> c + |newFile| < UNSIGNED)
    {
      PatchRebuilds(oldFile, newFile, out.ts, out.d, out.e, enc, dec);
    }
  }

  /** `CreatePatchInternal`. */
  method CreatePatch(oldFile: seq<Byte>, newFile: seq<Byte>, enc: seq<Byte> -> Option<seq<Byte>>)
    returns (r: Creation, out: Streams, ghost i: seq<int>, ghost run: seq<State>)
    ensures SuffixArray(oldFile, i) && WholeScan(oldFile, i, newFile, run) && out.ts == run[|run| - 1].ts
    ensures Described(oldFile, newFile, out) && Packed(newFile, out, enc, r)
    ensures r.Created? && |oldFile| < UNSIGNED && |newFile| < LIMIT ==> BringsBack(oldFile, newFile, r.patch, out, enc)
    ensures 25 * |newFile| + 48 < UNSIGNED ==> |out.ctrl| + |newFile| < UNSIGNED
  {
    hide SuffixArray, WholeScan, Describes, NewPos, ControlBytes, BringsBack, Kept;
    out, i, run := Diff(oldFile, newFile);
    SmallEnough(oldFile, i, newFile, run);
    r := Pack(newFile, out, enc);
    if r.Created? && |oldFile| < UNSIGNED && |newFile| < LIMIT {
      PackedBringsBack(oldFile, newFile, out, enc, r);
    }
  }

  /** Compresses and assembles the streams. */
  method Pack(newFile: seq<Byte>, out: Streams, enc: seq<Byte> -> Option<seq<Byte>>) returns (r: Creation)
    ensures Packed(newFile, out, enc, r)
  {
    hide Kept;
    var c := enc(out.ctrl);
    if c.None? {
      return Failed;
    }
    if 32 + |c.value| >= UNSIGNED {
      return Overflow;
    }
    var d := enc(Kept(out.d));
    if d.None? {
      return Failed;
    }
    if 32 + |c.value| + |d.value| >= UNSIGNED {
      return Overflow;
    }
    var e := enc(Kept(out.e));
    if e.None? {
      return Failed;
    }
    if 32 + |c.value| + |d.value| + |e.value| >= UNSIGNED {
      return Overflow;
    }
    var header := Header(|c.value|, |d.value|, |newFile|);
    r := Created(header + c.value + d.value + e.value);
  }

  /** The 32 bytes in front. */
  method Header(ctrllen: nat, datalen: nat, newsize: nat) returns (h: seq<Byte>)
    ensures h == MAGIC + OffsetBytes(ctrllen) + OffsetBytes(datalen) + OffsetBytes(newsize)
  {
    var buf := new Byte[32](k requires 0 <= k => if k < 8 then MAGIC[k] else 0);
    Offtout(newsize, buf, 24);
    Offtout(ctrllen, buf, 8);
    Offtout(datalen, buf, 16);
    h := buf[..];
    assert h == h[..8] + h[8..16] + h[16..24] + h[24..32];
    assert h[..8] == MAGIC;
  }
}
