/** What a patch says, byte by byte: what applying any file as a patch gives or why it is rejected, and
    where the bytes of a created patch are found. */
module PatchMeaning {
  import opened Bytes
  import opened OffsetCodec
  import opened Options
  import opened PatchFormat
  import opened ApplyPatch
  import opened RoundTrip
  import CreatePatch

  /** How many diff bytes the triples use. */
  function Adds(ts: seq<Triple>): int {
    if ts == [] then 0 else Adds(ts[..|ts| - 1]) + ts[|ts| - 1].add
  }

  /** How many extra bytes. */
  function Copies(ts: seq<Triple>): int {
    if ts == [] then 0 else Copies(ts[..|ts| - 1]) + ts[|ts| - 1].copy
  }

  lemma OneMoreTriple(ts: seq<Triple>, t: Triple)
    ensures Adds(ts + [t]) == Adds(ts) + t.add && Copies(ts + [t]) == Copies(ts) + t.copy
    ensures NewPos(ts + [t]) == NewPos(ts) + t.add + t.copy && OldPos(ts + [t]) == OldPos(ts) + t.add + t.seek
  {
    assert (ts + [t])[..|ts|] == ts;
  }

  lemma SameBefore(ts: seq<Triple>, t: Triple, k: nat)
    requires k < |ts|
    ensures (ts + [t])[k] == ts[k] && (ts + [t])[..k] == ts[..k]
  {
  }

  lemma SamePiece(bytes: seq<Byte>, more: seq<Byte>, a: nat, b: nat)
    requires a <= b <= |bytes|
    ensures (bytes + more)[a..b] == bytes[a..b]
  {
  }

  /** Triple `k` is stored in its place, and reading and writing what it asks for stays inside. */
  predicate Readable(newsize: nat, out: seq<Byte>, doff: nat, eoff: nat, ts: seq<Triple>, k: nat)
    requires k < |ts|
  {
    && 24 * k + 24 <= |out|
    && ts[k] == Triple(OffsetValue(out[24 * k..24 * k + 8]), OffsetValue(out[24 * k + 8..24 * k + 16]),
                       OffsetValue(out[24 * k + 16..24 * k + 24]))
    && NewPos(ts[..k]) < newsize && 0 <= ts[k].add && 0 <= ts[k].copy
    && NewPos(ts[..k]) + ts[k].add + ts[k].copy <= newsize
    && doff + Adds(ts[..k]) + ts[k].add <= |out| && eoff + Copies(ts[..k]) + ts[k].copy <= |out|
  }

  /** Diff bytes with the old bytes added to them, modulo 256, where there are any. */
  ghost predicate Sums(oldFile: seq<Byte>, p: int, diff: seq<Byte>, piece: seq<Byte>) {
    && |piece| == |diff|
    && forall j | 0 <= j < |piece| ::
         piece[j] as int == if 0 <= p + j < |oldFile| then (oldFile[p + j] as int + diff[j] as int) % 256 else diff[j]
  }

  /** `bytes` has what triple `k` asks for: diff bytes with the old bytes added where there are any, then
      extra bytes. */
  ghost predicate Made(oldFile: seq<Byte>, out: seq<Byte>, doff: nat, eoff: nat, ts: seq<Triple>, bytes: seq<Byte>,
                       k: nat)
    requires k < |ts|
  {
    var s, p, d, e := NewPos(ts[..k]), OldPos(ts[..k]), doff + Adds(ts[..k]), eoff + Copies(ts[..k]);
    && 0 <= s && 0 <= ts[k].add && 0 <= ts[k].copy && s + ts[k].add + ts[k].copy <= |bytes|
    && 0 <= d && d + ts[k].add <= |out| && 0 <= e && e + ts[k].copy <= |out|
    && Sums(oldFile, p, out[d..d + ts[k].add], bytes[s..s + ts[k].add])
    && bytes[s + ts[k].add..s + ts[k].add + ts[k].copy] == out[e..e + ts[k].copy]
  }

  /** The triples `ts` have been replayed, which has made `bytes`. */
  ghost predicate Replayed(oldFile: seq<Byte>, newsize: nat, out: seq<Byte>, doff: nat, eoff: nat, ts: seq<Triple>,
                           bytes: seq<Byte>)
  {
    && |bytes| == NewPos(ts) && 0 <= Adds(ts) && 0 <= Copies(ts) && 24 * |ts| <= |out|
    && (forall k | 0 <= k < |ts| :: Readable(newsize, out, doff, eoff, ts, k))
    && (forall k | 0 <= k < |ts| :: Made(oldFile, out, doff, eoff, ts, bytes, k))
  }

  lemma StillMade(oldFile: seq<Byte>, out: seq<Byte>, doff: nat, eoff: nat, ts: seq<Triple>, bytes: seq<Byte>, k: nat,
                  t: Triple, more: seq<Byte>)
    requires k < |ts| && Made(oldFile, out, doff, eoff, ts, bytes, k)
    ensures Made(oldFile, out, doff, eoff, ts + [t], bytes + more, k)
  {
    hide Sums, NewPos, OldPos, Adds, Copies;
    SameBefore(ts, t, k);
    var s := NewPos(ts[..k]);
    var m := s + ts[k].add;
    SamePiece(bytes, more, s, m);
    SamePiece(bytes, more, m, m + ts[k].copy);
  }

  lemma StillReadable(newsize: nat, out: seq<Byte>, doff: nat, eoff: nat, ts: seq<Triple>, k: nat, t: Triple)
    requires k < |ts| && Readable(newsize, out, doff, eoff, ts, k)
    ensures Readable(newsize, out, doff, eoff, ts + [t], k)
  {
    hide OffsetValue, NewPos, Adds, Copies;
    SameBefore(ts, t, k);
  }

  lemma AddedSums(oldFile: seq<Byte>, p: int, diff: seq<Byte>)
    ensures Sums(oldFile, p, diff, Added(oldFile, p, diff))
  {
  }

  lemma LastMade(oldFile: seq<Byte>, out: seq<Byte>, doff: nat, eoff: nat, ts: seq<Triple>, bytes: seq<Byte>, t: Triple)
    requires |bytes| == NewPos(ts) && 0 <= Adds(ts) && 0 <= Copies(ts) && 0 <= t.add && 0 <= t.copy
    requires doff + Adds(ts) + t.add <= |out| && eoff + Copies(ts) + t.copy <= |out|
    ensures var d, e := doff + Adds(ts), eoff + Copies(ts);
            Made(oldFile, out, doff, eoff, ts + [t],
                 bytes + Added(oldFile, OldPos(ts), out[d..d + t.add]) + out[e..e + t.copy], |ts|)
  {
    hide NewPos, OldPos, Adds, Copies, Sums, Added;
    var d, e := doff + Adds(ts), eoff + Copies(ts);
    var added, extra := Added(oldFile, OldPos(ts), out[d..d + t.add]), out[e..e + t.copy];
    AddedSums(oldFile, OldPos(ts), out[d..d + t.add]);
    assert (ts + [t])[..|ts|] == ts;
    var after, m := bytes + added + extra, |bytes| + t.add;
    assert after[|bytes|..m] == added && after[m..m + t.copy] == extra;
  }

  lemma LastReadable(newsize: nat, out: seq<Byte>, doff: nat, eoff: nat, ts: seq<Triple>, t: Triple)
    requires NewPos(ts) < newsize && 24 * |ts| + 24 <= |out| && t == TripleAt(out, 24 * |ts|)
    requires 0 <= t.add && 0 <= t.copy && NewPos(ts) + t.add + t.copy <= newsize
    requires doff + Adds(ts) + t.add <= |out| && eoff + Copies(ts) + t.copy <= |out|
    ensures Readable(newsize, out, doff, eoff, ts + [t], |ts|)
  {
    hide OffsetValue, NewPos, Adds, Copies;
    assert (ts + [t])[..|ts|] == ts;
  }

  /** One more triple leaves those before it as they were. */
  lemma OneOfMore(oldFile: seq<Byte>, newsize: nat, out: seq<Byte>, doff: nat, eoff: nat, ts: seq<Triple>,
                  bytes: seq<Byte>, t: Triple, k: nat)
    requires Replayed(oldFile, newsize, out, doff, eoff, ts, bytes) && k <= |ts|
    requires |bytes| < newsize && 24 * |ts| + 24 <= |out| && t == TripleAt(out, 24 * |ts|)
    requires 0 <= t.add && 0 <= t.copy && |bytes| + t.add + t.copy <= newsize
    requires doff + Adds(ts) + t.add <= |out| && eoff + Copies(ts) + t.copy <= |out|
    ensures Readable(newsize, out, doff, eoff, ts + [t], k)
    ensures var d, e := doff + Adds(ts), eoff + Copies(ts);
            Made(oldFile, out, doff, eoff, ts + [t],
                 bytes + Added(oldFile, OldPos(ts), out[d..d + t.add]) + out[e..e + t.copy], k)
  {
    hide OffsetValue, NewPos, OldPos, Adds, Copies, Made, Readable, Added, TripleAt;
    var d, e := doff + Adds(ts), eoff + Copies(ts);
    var added, extra := Added(oldFile, OldPos(ts), out[d..d + t.add]), out[e..e + t.copy];
    if k < |ts| {
      StillReadable(newsize, out, doff, eoff, ts, k, t);
      StillMade(oldFile, out, doff, eoff, ts, bytes, k, t, added + extra);
      assert bytes + added + extra == bytes + (added + extra);
    } else {
      LastMade(oldFile, out, doff, eoff, ts, bytes, t);
      LastReadable(newsize, out, doff, eoff, ts, t);
    }
  }

  lemma ReplayedOneMore(oldFile: seq<Byte>, newsize: nat, out: seq<Byte>, doff: nat, eoff: nat, ts: seq<Triple>,
                        bytes: seq<Byte>, t: Triple)
    requires Replayed(oldFile, newsize, out, doff, eoff, ts, bytes)
    requires |bytes| < newsize && 24 * |ts| + 24 <= |out| && t == TripleAt(out, 24 * |ts|)
    requires 0 <= t.add && 0 <= t.copy && |bytes| + t.add + t.copy <= newsize
    requires doff + Adds(ts) + t.add <= |out| && eoff + Copies(ts) + t.copy <= |out|
    ensures var d, e := doff + Adds(ts), eoff + Copies(ts);
            Replayed(oldFile, newsize, out, doff, eoff, ts + [t],
                     bytes + Added(oldFile, OldPos(ts), out[d..d + t.add]) + out[e..e + t.copy])
  {
    hide OffsetValue, NewPos, OldPos, Adds, Copies, Made, Readable, Added, TripleAt;
    var d, e := doff + Adds(ts), eoff + Copies(ts);
    var after := bytes + Added(oldFile, OldPos(ts), out[d..d + t.add]) + out[e..e + t.copy];
    OneMoreTriple(ts, t);
    forall k | 0 <= k <= |ts|
      ensures Readable(newsize, out, doff, eoff, ts + [t], k) && Made(oldFile, out, doff, eoff, ts + [t], after, k)
    {
      OneOfMore(oldFile, newsize, out, doff, eoff, ts, bytes, t, k);
    }
  }

  /** How a replay ends after the triples `ts`: the file is rebuilt when they reach its length, and rejected
      when the next triple would make it longer; otherwise the original would leave one of the streams. */
  ghost predicate Ends(newsize: nat, out: seq<Byte>, doff: nat, eoff: nat, ts: seq<Triple>, bytes: seq<Byte>,
                       r: Outcome)
    requires 0 <= Adds(ts) && 0 <= Copies(ts)
  {
    var n, d, e := 24 * |ts|, doff + Adds(ts), eoff + Copies(ts);
    if |bytes| >= newsize then r == Rebuilt(bytes, n, d, e)
    else if n + 24 > |out| then r == Undefined
    else
      var add, copy := OffsetValue(out[n..n + 8]), OffsetValue(out[n + 8..n + 16]);
      if |bytes| + add > newsize then r == Rejected
      else if add < 0 || d + add > |out| then r == Undefined
      else if |bytes| + add + copy > newsize then r == Rejected
      else (copy < 0 || e + copy > |out|) && r == Undefined
  }

  /** The replay of any control, diff and extra streams: triples are replayed one after the other, each
      where the one before has ended in every stream and in both files. */
  lemma {:induction false} ReplayMeans(oldFile: seq<Byte>, newsize: nat, out: seq<Byte>, doff: nat, eoff: nat,
                                       start: seq<Triple>, made: seq<Byte>)
    returns (ts: seq<Triple>, bytes: seq<Byte>)
    requires Replayed(oldFile, newsize, out, doff, eoff, start, made)
    ensures start <= ts && Replayed(oldFile, newsize, out, doff, eoff, ts, bytes)
    ensures Ends(newsize, out, doff, eoff, ts, bytes,
                 Replay(oldFile, newsize, out, 24 * |start|, doff + Adds(start), eoff + Copies(start), OldPos(start),
                        made))
    decreases |out| - 24 * |start|
  {
    hide Replay, OffsetValue, NewPos, OldPos, Adds, Copies, Made, Readable, Added;
    ts, bytes := start, made;
    var n, d, e, p := 24 * |start|, doff + Adds(start), eoff + Copies(start), OldPos(start);
    ReplayEnd(oldFile, newsize, out, n, d, e, p, made);
    if |made| < newsize && n + 24 <= |out| {
      var t := TripleAt(out, n);
      ReplayStep(oldFile, newsize, out, n, d, e, p, made, t);
      if 0 <= t.add && 0 <= t.copy && |made| + t.add + t.copy <= newsize && d + t.add <= |out| && e + t.copy <= |out| {
        ReplayedOneMore(oldFile, newsize, out, doff, eoff, start, made, t);
        OneMoreTriple(start, t);
        ts, bytes := ReplayMeans(oldFile, newsize, out, doff, eoff, start + [t],
                                 made + Added(oldFile, p, out[d..d + t.add]) + out[e..e + t.copy]);
      }
    }
  }

  // ---------------------------------------------------------------- the whole patch

  /** The eight bytes of a number, the least first and the sign in the highest bit of the last. */
  lemma OffsetSpelled(b: seq<Byte>)
    requires |b| == 8
    ensures var y := (b[0] as int) + 0x100 * (b[1] as int) + 0x1_0000 * (b[2] as int) + 0x100_0000 * (b[3] as int)
                + 0x1_0000_0000 * (b[4] as int) + 0x100_0000_0000 * (b[5] as int)
                + 0x1_0000_0000_0000 * (b[6] as int) + 0x100_0000_0000_0000 * ((b[7] as int) % 0x80);
            OffsetValue(b) == if b[7] >= 0x80 then -y else y
  {
    hide FromLittleEndian;
    var m := b[7 := b[7] % 0x80];
    HornerSteps(m);
    assert FromLittleEndian(m[4..]) == (m[4] as int) + 0x100 * (m[5] as int) + 0x1_0000 * (m[6] as int)
        + 0x100_0000 * (m[7] as int);
    assert FromLittleEndian(m[0..]) == (m[0] as int) + 0x100 * (m[1] as int) + 0x1_0000 * (m[2] as int)
        + 0x100_0000 * (m[3] as int) + 0x1_0000_0000 * FromLittleEndian(m[4..]);
  }

  /** The patch begins with the eight letters. */
  predicate Marked(patch: seq<Byte>)
    requires |patch| >= 8
  {
    forall k | 0 <= k < 8 :: patch[k] == "BSDIFF40"[k] as int
  }

  lemma MagicSpelled(patch: seq<Byte>)
    requires |patch| >= 8
    ensures Marked(patch) <==> patch[..8] == MAGIC
  {
    assert forall k | 0 <= k < 8 :: patch[..8][k] == patch[k] && MAGIC[k] == "BSDIFF40"[k] as int;
  }

  /** What applying any patch gives: the patch is rejected for wrong letters, for a negative length of the
      control or the diff block, and when a block cannot be decompressed; and otherwise its triples are
      replayed on the three streams, as far as 32-bit sizes can hold them. */
  lemma PatchMeans(oldFile: seq<Byte>, patch: seq<Byte>, dec: seq<Byte> -> Option<seq<Byte>>, r: Outcome)
    returns (ts: seq<Triple>, bytes: seq<Byte>)
    requires r == Apply(oldFile, patch, dec)
    ensures |patch| < 8 ==> r == Undefined
    ensures |patch| >= 8 && !Marked(patch) ==> r == Rejected
    ensures 8 <= |patch| < 32 && Marked(patch) ==> r == Undefined
    ensures |patch| >= 32 && Marked(patch) ==>
              var c, d := OffsetValue(patch[8..16]), OffsetValue(patch[16..24]);
              if c < 0 || d < 0 then r == Rejected
              else if 32 + c + d > |patch| then r == Undefined
              else StreamsMean(oldFile, OffsetValue(patch[24..32]), dec(patch[32..32 + c]),
                               dec(patch[32 + c..32 + c + d]), dec(patch[32 + c + d..]), ts, bytes, r)
  {
    hide OffsetValue, Replay, Truncated, Ends, Replayed;
    ts, bytes := [], [];
    if |patch| >= 8 {
      MagicSpelled(patch);
      if |patch| >= 32 && Marked(patch) {
        var c, d := OffsetValue(patch[8..16]), OffsetValue(patch[16..24]);
        if c >= 0 && d >= 0 && 32 + c + d <= |patch| {
          ts, bytes := StreamsReplayed(oldFile, OffsetValue(patch[24..32]), dec(patch[32..32 + c]),
                                       dec(patch[32 + c..32 + c + d]), dec(patch[32 + c + d..]));
        }
      }
    }
  }

  /** What the decompressed blocks lead to. */
  ghost predicate StreamsMean(oldFile: seq<Byte>, length: int, c: Option<seq<Byte>>, d: Option<seq<Byte>>,
                              e: Option<seq<Byte>>, ts: seq<Triple>, bytes: seq<Byte>, r: Outcome)
  {
    if c == None then r == Rejected
    else if |c.value| >= 0x1_0000_0000 then r == Undefined
    else if d == None then r == Rejected
    else if |c.value| + |d.value| >= 0x1_0000_0000 then r == Undefined
    else if e == None then r == Rejected
    else if |c.value| + |d.value| + |e.value| >= 0x1_0000_0000 then r == Undefined
    else
      var out, doff, eoff := c.value + d.value + e.value, |c.value|, |c.value| + |d.value|;
      && Replayed(oldFile, length % 0x1_0000_0000, out, doff, eoff, ts, bytes)
      && Ends(length % 0x1_0000_0000, out, doff, eoff, ts, bytes, r)
  }

  lemma StreamsReplayed(oldFile: seq<Byte>, length: int, c: Option<seq<Byte>>, d: Option<seq<Byte>>,
                        e: Option<seq<Byte>>)
    returns (ts: seq<Triple>, bytes: seq<Byte>)
    ensures c.Some? && d.Some? && e.Some? ==>
              var out, doff, eoff := c.value + d.value + e.value, |c.value|, |c.value| + |d.value|;
              && Replayed(oldFile, length % 0x1_0000_0000, out, doff, eoff, ts, bytes)
              && Ends(length % 0x1_0000_0000, out, doff, eoff, ts, bytes,
                      Replay(oldFile, Truncated(length), out, 0, doff, eoff, 0, []))
  {
    hide Replay, Ends;
    ts, bytes := [], [];
    if c.Some? && d.Some? && e.Some? {
      ts, bytes := ReplayMeans(oldFile, Truncated(length), c.value + d.value + e.value, |c.value|,
                               |c.value| + |d.value|, [], []);
    }
  }

  // ---------------------------------------------------------------- created patches

  /** Triple `k` of a description: its diff bytes are the new bytes less the old ones, and its extra bytes
      are new bytes, all where the triples before it have ended. */
  lemma {:induction false} DescribedBytes(oldFile: seq<Byte>, newFile: seq<Byte>, ts: seq<Triple>, d: seq<Byte>,
                                          e: seq<Byte>, k: nat)
    requires Describes(oldFile, newFile, ts, d, e) && k < |ts|
    ensures |d| == Adds(ts) && |e| == Copies(ts)
    ensures var s, p, a, c, t := NewPos(ts[..k]), OldPos(ts[..k]), Adds(ts[..k]), Copies(ts[..k]), ts[k];
            && 0 <= t.add && 0 <= t.copy && 0 <= s && s + t.add + t.copy <= |newFile|
            && 0 <= p && p + t.add <= |oldFile|
            && 0 <= a && a + t.add <= |d| && 0 <= c && c + t.copy <= |e|
            && Sums(oldFile, p, d[a..a + t.add], newFile[s..s + t.add])
            && e[c..c + t.copy] == newFile[s + t.add..s + t.add + t.copy]
    decreases |ts|
  {
    hide NewPos, OldPos, Differences, Describes, Sums;
    var n := |ts| - 1;
    var front, t := ts[..n], ts[n];
    assert ts == front + [t];
    DescribedLast(oldFile, newFile, front, t, d, e);
    var d', e' := d[..|d| - t.add], e[..|e| - t.copy];
    DescribedLengths(oldFile, newFile, front, d', e');
    if k < n {
      DescribedBytes(oldFile, newFile, front, d', e', k);
      assert front[..k] == ts[..k];
      SamePiece(d', d[|d'|..], Adds(ts[..k]), Adds(ts[..k]) + ts[k].add);
      SamePiece(e', e[|e'|..], Copies(ts[..k]), Copies(ts[..k]) + ts[k].copy);
      assert d == d' + d[|d'|..] && e == e' + e[|e'|..];
    } else {
      DifferenceSums(oldFile, newFile, OldPos(front), NewPos(front), t.add);
      assert d[|d'|..] == d[|d'|..|d'| + t.add] && e[|e'|..] == e[|e'|..|e'| + t.copy];
    }
  }

  lemma DifferenceSums(oldFile: seq<Byte>, newFile: seq<Byte>, p: int, s: int, n: nat)
    requires 0 <= p && p + n <= |oldFile| && 0 <= s && s + n <= |newFile|
    ensures Sums(oldFile, p, Differences(oldFile, newFile, p, s, n), newFile[s..s + n])
  {
  }

  lemma {:induction false} DescribedLengths(oldFile: seq<Byte>, newFile: seq<Byte>, ts: seq<Triple>, d: seq<Byte>,
                                            e: seq<Byte>)
    requires Describes(oldFile, newFile, ts, d, e)
    ensures |d| == Adds(ts) && |e| == Copies(ts)
    decreases |ts|
  {
    hide NewPos, OldPos, Differences;
    if ts != [] {
      var n := |ts| - 1;
      DescribedLengths(oldFile, newFile, ts[..n], d[..|d| - ts[n].add], e[..|e| - ts[n].copy]);
    }
  }

  /** Every triple takes 24 control bytes: its three numbers, in order. */
  lemma {:induction false} ControlSpelled(ts: seq<Triple>, k: nat)
    requires k < |ts| && forall j | 0 <= j < |ts| ::
               -LIMIT < ts[j].add < LIMIT && -LIMIT < ts[j].copy < LIMIT && -LIMIT < ts[j].seek < LIMIT
    ensures var b, n := ControlBytes(ts), 24 * k;
            && |b| == 24 * |ts|
            && OffsetValue(b[n..n + 8]) == ts[k].add && OffsetValue(b[n + 8..n + 16]) == ts[k].copy
            && OffsetValue(b[n + 16..n + 24]) == ts[k].seek
  {
    hide OffsetBytes, OffsetValue, ControlBytes, TripleBytes;
    var n := |ts| - 1;
    var front, b := ts[..n], ControlBytes(ts[..n]);
    assert ts == front + [ts[n]];
    ControlOneMore(front, ts[n]);
    CreatePatch.ControlLength(front);
    if k < n {
      ControlSpelled(front, k);
      SamePiece(b, TripleBytes(ts[n]), 24 * k, 24 * k + 8);
      SamePiece(b, TripleBytes(ts[n]), 24 * k + 8, 24 * k + 16);
      SamePiece(b, TripleBytes(ts[n]), 24 * k + 16, 24 * k + 24);
    } else {
      var out := ControlBytes(ts);
      assert out[24 * k..24 * k + 24] == TripleBytes(ts[n]);
      TripleStored(out, 24 * k, ts[n]);
    }
  }

  /** A created patch: the eight letters, the lengths of the first two compressed streams and of the new
      file, and the three streams, control bytes first, then diff bytes, then extra bytes, of which no more
      are compressed than their numbers modulo 2^32. */
  lemma CreatedSpelled(newFile: seq<Byte>, out: CreatePatch.Streams, enc: seq<Byte> -> Option<seq<Byte>>,
                       r: CreatePatch.Creation)
    requires CreatePatch.Packed(newFile, out, enc, r) && r.Created? && |newFile| < LIMIT
    ensures |r.patch| >= 32 && Marked(r.patch)
    ensures var x, c, d := r.patch, OffsetValue(r.patch[8..16]), OffsetValue(r.patch[16..24]);
            && 0 <= c && 0 <= d && 32 + c + d <= |x| && OffsetValue(x[24..32]) == |newFile|
            && Some(x[32..32 + c]) == enc(out.ctrl)
            && Some(x[32 + c..32 + c + d]) == enc(out.d[..|out.d| % 0x1_0000_0000])
            && Some(x[32 + c + d..]) == enc(out.e[..|out.e| % 0x1_0000_0000])
  {
    hide OffsetBytes, OffsetValue, Assembled;
    AssembledParts(|newFile|, enc(out.ctrl).value, enc(Kept(out.d)).value, enc(Kept(out.e)).value);
    MagicSpelled(r.patch);
  }
}
