/** Applying a created patch gives the new file back. */
module RoundTrip {
  import opened Bytes
  import opened OffsetCodec
  import opened Options
  import opened PatchFormat
  import opened ApplyPatch

  lemma AddedDifferences(oldFile: seq<Byte>, newFile: seq<Byte>, p: int, s: int, n: nat)
    requires 0 <= p && p + n <= |oldFile| && 0 <= s && s + n <= |newFile|
    ensures Added(oldFile, p, Differences(oldFile, newFile, p, s, n)) == newFile[s..s + n]
  {
  }

  lemma TripleStored(out: seq<Byte>, coff: nat, t: Triple)
    requires coff + 24 <= |out| && out[coff..coff + 24] == TripleBytes(t)
    requires -LIMIT < t.add < LIMIT && -LIMIT < t.copy < LIMIT && -LIMIT < t.seek < LIMIT
    ensures TripleAt(out, coff) == t
  {
    hide OffsetBytes, OffsetValue;
    OffsetRoundTrip(t.add);
    OffsetRoundTrip(t.copy);
    OffsetRoundTrip(t.seek);
    var b := TripleBytes(t);
    Slice(out, coff, coff + 24, 0, 8);
    Slice(out, coff, coff + 24, 8, 16);
    Slice(out, coff, coff + 24, 16, 24);
    assert b[0..8] == OffsetBytes(t.add) && b[8..16] == OffsetBytes(t.copy) && b[16..24] == OffsetBytes(t.seek);
  }

  lemma Slice(x: seq<Byte>, a: nat, b: nat, c: nat, d: nat)
    requires a <= b <= |x| && c <= d <= b - a
    ensures x[a..b][c..d] == x[a + c..a + d]
  {
    assert forall k | 0 <= k < d - c :: x[a..b][c..d][k] == x[a..b][c + k];
  }

  /** `out` holds `d` at `doff`, `e` at `eoff` and the control bytes of `ts` at its beginning. */
  ghost predicate Holds(out: seq<Byte>, ts: seq<Triple>, d: seq<Byte>, e: seq<Byte>, doff: nat, eoff: nat) {
    && ControlBytes(ts) <= out
    && doff + |d| <= |out| && out[doff..doff + |d|] == d
    && eoff + |e| <= |out| && out[eoff..eoff + |e|] == e
  }

  /** The last triple and its parts of the streams. */
  lemma LastPiece(out: seq<Byte>, ts: seq<Triple>, t: Triple, d: seq<Byte>, e: seq<Byte>, doff: nat, eoff: nat)
    requires Holds(out, ts + [t], d, e, doff, eoff) && 0 <= t.add <= |d| && 0 <= t.copy <= |e|
    ensures Holds(out, ts, d[..|d| - t.add], e[..|e| - t.copy], doff, eoff)
    ensures doff + |d| <= |out| && out[doff + |d| - t.add..doff + |d|] == d[|d| - t.add..]
    ensures eoff + |e| <= |out| && out[eoff + |e| - t.copy..eoff + |e|] == e[|e| - t.copy..]
    ensures var c := |ControlBytes(ts)|; |ControlBytes(ts + [t])| == c + 24 <= |out| && out[c..c + 24] == TripleBytes(t)
  {
    hide TripleBytes, ControlBytes;
    ControlOneMore(ts, t);
    var d1, e1 := |d| - t.add, |e| - t.copy;
    Slice(out, doff, doff + |d|, 0, d1);
    Slice(out, doff, doff + |d|, d1, |d|);
    Slice(out, eoff, eoff + |e|, 0, e1);
    Slice(out, eoff, eoff + |e|, e1, |e|);
    var c := |ControlBytes(ts)|;
    Slice(out, 0, c + 24, c, c + 24);
    assert out[0..c + 24] == ControlBytes(ts + [t]);
    assert ControlBytes(ts + [t])[c..c + 24] == TripleBytes(t);
  }

  /** One more triple in the replay of the file it describes. */
  lemma ReplayPiece(oldFile: seq<Byte>, newFile: seq<Byte>, out: seq<Byte>, coff: nat, doff: nat, eoff: nat, s: int,
                    p: int, t: Triple)
    requires |oldFile| < LIMIT && |newFile| < LIMIT && Fits(oldFile, newFile, s, p, t)
    requires coff + 24 <= |out| && out[coff..coff + 24] == TripleBytes(t)
    requires doff + t.add <= |out| && out[doff..doff + t.add] == Differences(oldFile, newFile, p, s, t.add)
    requires eoff + t.copy <= |out| && out[eoff..eoff + t.copy] == newFile[s + t.add..s + t.add + t.copy]
    ensures Replay(oldFile, |newFile|, out, coff, doff, eoff, p, newFile[..s]) ==
            Replay(oldFile, |newFile|, out, coff + 24, doff + t.add, eoff + t.copy, p + t.add + t.seek,
                   newFile[..s + t.add + t.copy])
  {
    hide Replay, TripleBytes, TripleAt, Added, Differences;
    TripleStored(out, coff, t);
    ReplayStep(oldFile, |newFile|, out, coff, doff, eoff, p, newFile[..s], t);
    AddedDifferences(oldFile, newFile, p, s, t.add);
    assert newFile[..s] + newFile[s..s + t.add] + newFile[s + t.add..s + t.add + t.copy] ==
        newFile[..s + t.add + t.copy];
  }

  lemma NothingDescribed()
    ensures ControlBytes([]) == [] && NewPos([]) == OldPos([]) == 0
  {
  }

  lemma OnlyNothing(oldFile: seq<Byte>, newFile: seq<Byte>, d: seq<Byte>, e: seq<Byte>)
    requires Describes(oldFile, newFile, [], d, e)
    ensures d == [] && e == []
  {
  }

  /** Replaying triples that describe the new file up to some point arrives exactly there, with
      exactly their part of each stream consumed, whether or not single triples make progress. */
  lemma {:induction false} ReplayDescribed(oldFile: seq<Byte>, newFile: seq<Byte>, ts: seq<Triple>, d: seq<Byte>,
                                           e: seq<Byte>,
                                           out: seq<Byte>, doff: nat, eoff: nat)
    requires |oldFile| < LIMIT && |newFile| < LIMIT && Describes(oldFile, newFile, ts, d, e)
    requires Holds(out, ts, d, e, doff, eoff)
    ensures 0 <= NewPos(ts) <= |newFile|
    ensures Replay(oldFile, |newFile|, out, 0, doff, eoff, 0, []) ==
            Replay(oldFile, |newFile|, out, |ControlBytes(ts)|, doff + |d|, eoff + |e|, OldPos(ts),
                   newFile[..NewPos(ts)])
    decreases |ts|
  {
    hide Replay, TripleBytes, Holds, Describes, Differences, NewPos, OldPos, ControlBytes;
    if ts == [] {
      NothingDescribed();
      assert newFile[..0] == [] && d == [] && e == [] by {
        OnlyNothing(oldFile, newFile, d, e);
      }
    } else {
      var n, t := |ts| - 1, ts[|ts| - 1];
      assert ts == ts[..n] + [t];
      DescribedLast(oldFile, newFile, ts[..n], t, d, e);
      LastPiece(out, ts[..n], t, d, e, doff, eoff);
      var d1, e1 := |d| - t.add, |e| - t.copy;
      ReplayDescribed(oldFile, newFile, ts[..n], d[..d1], e[..e1], out, doff, eoff);
      ReplayPiece(oldFile, newFile, out, |ControlBytes(ts[..n])|, doff + d1, eoff + e1, NewPos(ts[..n]),
                  OldPos(ts[..n]), t);
    }
  }

  /** A rebuilt file has exactly the announced length. */
  lemma {:induction false} ReplayLength(oldFile: seq<Byte>, newsize: nat, out: seq<Byte>, coff: nat, doff: nat,
                                        eoff: nat, oldpos: int, acc: seq<Byte>)
    requires |acc| <= newsize
    ensures var r := Replay(oldFile, newsize, out, coff, doff, eoff, oldpos, acc); r.Rebuilt? ==> |r.bytes| == newsize
    decreases |out| - coff
  {
    if |acc| < newsize && coff + 24 <= |out| {
      var t := TripleAt(out, coff);
      ReplayStep(oldFile, newsize, out, coff, doff, eoff, oldpos, acc, t);
      if 0 <= t.add && doff + t.add <= |out| && 0 <= t.copy && eoff + t.copy <= |out| &&
          |acc| + t.add + t.copy <= newsize {
        ReplayLength(oldFile, newsize, out, coff + 24, doff + t.add, eoff + t.copy, oldpos + t.add + t.seek,
                     acc + Added(oldFile, oldpos, out[doff..doff + t.add]) + out[eoff..eoff + t.copy]);
      }
    }
  }

  lemma AssembledParts(newsize: int, c: seq<Byte>, d: seq<Byte>, e: seq<Byte>)
    requires |c| < LIMIT && |d| < LIMIT && -LIMIT < newsize < LIMIT
    ensures var patch := Assembled(newsize, c, d, e);
            && |patch| == 32 + |c| + |d| + |e| && patch[..8] == MAGIC
            && OffsetValue(patch[8..16]) == |c| && OffsetValue(patch[16..24]) == |d| &&
                OffsetValue(patch[24..32]) == newsize
            && patch[32..32 + |c|] == c && patch[32 + |c|..32 + |c| + |d|] == d && patch[32 + |c| + |d|..] == e
  {
    hide OffsetBytes, OffsetValue;
    OffsetRoundTrip(|c|);
    OffsetRoundTrip(|d|);
    OffsetRoundTrip(newsize);
    var patch := Assembled(newsize, c, d, e);
    assert patch[8..16] == OffsetBytes(|c|) && patch[16..24] == OffsetBytes(|d|) &&
        patch[24..32] == OffsetBytes(newsize);
  }

  /** What the header of an assembled patch leads to. */
  lemma ApplyAssembled(oldFile: seq<Byte>, newsize: nat, c: seq<Byte>, d: seq<Byte>, e: seq<Byte>,
                       enc: seq<Byte> -> Option<seq<Byte>>, dec: seq<Byte> -> Option<seq<Byte>>)
    requires Lossless(enc, dec) && enc(c).Some? && enc(d).Some? && enc(e).Some?
    requires newsize < LIMIT && |enc(c).value| < LIMIT && |enc(d).value| < LIMIT
    ensures Apply(oldFile, Assembled(newsize, enc(c).value, enc(d).value, enc(e).value), dec) ==
            if |c| + |d| + |e| >= UNSIGNED then Undefined
            else Replay(oldFile, Truncated(newsize), c + d + e, 0, |c|, |c| + |d|, 0, [])
  {
    hide Replay, OffsetValue, OffsetBytes, Assembled, Truncated;
    AssembledParts(newsize, enc(c).value, enc(d).value, enc(e).value);
  }

  lemma ReplayWhole(oldFile: seq<Byte>, newFile: seq<Byte>, ts: seq<Triple>, d: seq<Byte>, e: seq<Byte>,
                    out: seq<Byte>, doff: nat, eoff: nat)
    requires |oldFile| < LIMIT && |newFile| < LIMIT
    requires Describes(oldFile, newFile, ts, d, e) && NewPos(ts) == |newFile| && Holds(out, ts, d, e, doff, eoff)
    ensures Replay(oldFile, |newFile|, out, 0, doff, eoff, 0, []) ==
              Rebuilt(newFile, |ControlBytes(ts)|, doff + |d|, eoff + |e|)
  {
    hide Replay, Describes, ControlBytes, Holds;
    ReplayDescribed(oldFile, newFile, ts, d, e, out, doff, eoff);
    ReplayEnd(oldFile, |newFile|, out, |ControlBytes(ts)|, doff + |d|, eoff + |e|, OldPos(ts), newFile[..NewPos(ts)]);
    assert newFile[..|newFile|] == newFile;
  }

  predicate Restored(r: Outcome, newFile: seq<Byte>) {
    r.Rebuilt? && r.bytes == newFile
  }

  /** The bytes of a stream that are compressed: their number is passed in 32 bits. */
  function Kept(x: seq<Byte>): seq<Byte> {
    x[..Truncated(|x|)]
  }

  /** A new file whose length does not fit in 32 bits is not restored by any patch that gives this
      length, whatever its streams are. */
  lemma TooLong(oldFile: seq<Byte>, newFile: seq<Byte>, c: seq<Byte>, d: seq<Byte>, e: seq<Byte>,
                enc: seq<Byte> -> Option<seq<Byte>>, dec: seq<Byte> -> Option<seq<Byte>>)
    requires Lossless(enc, dec) && enc(c).Some? && enc(d).Some? && enc(e).Some?
    requires UNSIGNED <= |newFile| < LIMIT && |enc(c).value| < LIMIT && |enc(d).value| < LIMIT
    ensures !Restored(Apply(oldFile, Assembled(|newFile|, enc(c).value, enc(d).value, enc(e).value), dec), newFile)
  {
    hide Replay, Apply, Assembled, Lossless, Truncated;
    ApplyAssembled(oldFile, |newFile|, c, d, e, enc, dec);
    if |c| + |d| + |e| < UNSIGNED {
      ReplayLength(oldFile, Truncated(|newFile|), c + d + e, 0, |c|, |c| + |d|, 0, []);
    }
  }

  /** A patch whose triples and streams describe the whole new file rebuilds it, and every control,
      diff and extra byte is consumed, exactly when control bytes and new file together are shorter
      than 2^32 bytes. */
  lemma PatchRebuilds(oldFile: seq<Byte>, newFile: seq<Byte>, ts: seq<Triple>, d: seq<Byte>, e: seq<Byte>,
                      enc: seq<Byte> -> Option<seq<Byte>>, dec: seq<Byte> -> Option<seq<Byte>>)
    requires Lossless(enc, dec) && enc(ControlBytes(ts)).Some? && enc(Kept(d)).Some? && enc(Kept(e)).Some?
    requires |oldFile| < UNSIGNED && |newFile| < LIMIT
    requires 32 + |enc(ControlBytes(ts)).value| + |enc(Kept(d)).value| + |enc(Kept(e)).value| < UNSIGNED
    requires Describes(oldFile, newFile, ts, d, e) && NewPos(ts) == |newFile|
    ensures var c := |ControlBytes(ts)|;
            var patch := Assembled(|newFile|, enc(ControlBytes(ts)).value, enc(Kept(d)).value, enc(Kept(e)).value);
            && (Apply(oldFile, patch, dec) == Rebuilt(newFile, c, c + |d|, c + |d| + |e|) <==> c + |newFile| < UNSIGNED)
            && (Restored(Apply(oldFile, patch, dec), newFile) <==> c + |newFile| < UNSIGNED)
  {
    hide Replay, Apply, Assembled, Lossless, Truncated, Describes, NewPos, ControlBytes;
    var cb := ControlBytes(ts);
    StreamsTile(oldFile, newFile, ts, d, e);
    if |newFile| < UNSIGNED {
      assert Kept(d) == d && Kept(e) == e;
      ApplyAssembled(oldFile, |newFile|, cb, d, e, enc, dec);
      if |cb| + |newFile| < UNSIGNED {
        StreamsHeld(cb, ts, d, e);
        ReplayWhole(oldFile, newFile, ts, d, e, cb + d + e, |cb|, |cb| + |d|);
      }
    } else {
      TooLong(oldFile, newFile, cb, Kept(d), Kept(e), enc, dec);
    }
  }

  lemma StreamsHeld(cb: seq<Byte>, ts: seq<Triple>, d: seq<Byte>, e: seq<Byte>)
    requires cb == ControlBytes(ts)
    ensures Holds(cb + d + e, ts, d, e, |cb|, |cb| + |d|)
  {
    hide ControlBytes;
    Joined(cb, d, e);
  }

  lemma Joined(a: seq<Byte>, b: seq<Byte>, c: seq<Byte>)
    ensures var x := a + b + c;
            a <= x && x[|a|..|a| + |b|] == b && x[|a| + |b|..|a| + |b| + |c|] == c
  {
  }
}
