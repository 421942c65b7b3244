/** The patch: control triples, a diff stream and an extra stream, each compressed, behind a
    32-byte header. */
module PatchFormat {
  import opened Bytes
  import opened Options
  import opened OffsetCodec

  /** Add `add` bytes of the diff stream to the old file, copy `copy` bytes of the extra stream,
      then move `seek` bytes in the old file. */
  datatype Triple = Triple(add: int, copy: int, seek: int)

  /** Where a run of triples has got to in the new file. */
  function NewPos(ts: seq<Triple>): int {
    if ts == [] then 0 else var n := |ts| - 1; NewPos(ts[..n]) + ts[n].add + ts[n].copy
  }

  /** Where a run of triples has got to in the old file. */
  function OldPos(ts: seq<Triple>): int {
    if ts == [] then 0 else var n := |ts| - 1; OldPos(ts[..n]) + ts[n].add + ts[n].seek
  }

  function TripleBytes(t: Triple): (b: seq<Byte>)
    ensures |b| == 24
  {
    OffsetBytes(t.add) + OffsetBytes(t.copy) + OffsetBytes(t.seek)
  }

  function ControlBytes(ts: seq<Triple>): seq<Byte> {
    if ts == [] then [] else ControlBytes(ts[..|ts| - 1]) + TripleBytes(ts[|ts| - 1])
  }

  lemma ControlOneMore(ts: seq<Triple>, t: Triple)
    ensures ControlBytes(ts + [t]) == ControlBytes(ts) + TripleBytes(t)
  {
    assert (ts + [t])[..|ts|] == ts;
  }

  /** `n` new bytes less the old bytes they are aligned with, modulo 256. */
  function Differences(oldFile: seq<Byte>, newFile: seq<Byte>, p: int, s: int, n: nat): (d: seq<Byte>)
    requires 0 <= p && p + n <= |oldFile| && 0 <= s && s + n <= |newFile|
    ensures |d| == n
  {
    seq(n, k requires 0 <= k < n => (newFile[s + k] as int - oldFile[p + k] as int) % 256)
  }

  /** Triple `t` fits at new position `s` and old position `p`. */
  predicate Fits(oldFile: seq<Byte>, newFile: seq<Byte>, s: int, p: int, t: Triple) {
    && 0 <= s < |newFile| && 0 <= t.add && 0 <= t.copy && s + t.add + t.copy <= |newFile|
    && 0 <= p && p + t.add <= |oldFile| && 0 <= p + t.add + t.seek <= |oldFile|
  }

  /** The triples cut the beginning of the new file into consecutive pieces, and `d` and `e` hold
      exactly the differences and the literal bytes those pieces need. */
  predicate Describes(oldFile: seq<Byte>, newFile: seq<Byte>, ts: seq<Triple>, d: seq<Byte>, e: seq<Byte>)
    decreases |ts|
  {
    if ts == [] then d == [] && e == []
    else
      var n := |ts| - 1;
      var s, p, t := NewPos(ts[..n]), OldPos(ts[..n]), ts[n];
      && Fits(oldFile, newFile, s, p, t)
      && t.add <= |d| && t.copy <= |e|
      && d[|d| - t.add..] == Differences(oldFile, newFile, p, s, t.add)
      && e[|e| - t.copy..] == newFile[s + t.add..s + t.add + t.copy]
      && Describes(oldFile, newFile, ts[..n], d[..|d| - t.add], e[..|e| - t.copy])
  }

  lemma DescribesOneMore(oldFile: seq<Byte>, newFile: seq<Byte>, ts: seq<Triple>, d: seq<Byte>, e: seq<Byte>, t: Triple)
    requires Describes(oldFile, newFile, ts, d, e)
    requires Fits(oldFile, newFile, NewPos(ts), OldPos(ts), t)
    ensures var s, p := NewPos(ts), OldPos(ts);
            Describes(oldFile, newFile, ts + [t], d + Differences(oldFile, newFile, p, s, t.add),
                      e + newFile[s + t.add..s + t.add + t.copy])
    ensures NewPos(ts + [t]) == NewPos(ts) + t.add + t.copy
    ensures OldPos(ts + [t]) == OldPos(ts) + t.add + t.seek
    ensures ControlBytes(ts + [t]) == ControlBytes(ts) + TripleBytes(t)
  {
    var s, p := NewPos(ts), OldPos(ts);
    assert (ts + [t])[..|ts|] == ts;
    var dx, ex := Differences(oldFile, newFile, p, s, t.add), newFile[s + t.add..s + t.add + t.copy];
    assert (d + dx)[..|d + dx| - t.add] == d && (d + dx)[|d + dx| - t.add..] == dx;
    assert (e + ex)[..|e + ex| - t.copy] == e && (e + ex)[|e + ex| - t.copy..] == ex;
  }

  lemma PositionsLast(ts: seq<Triple>, t: Triple)
    ensures NewPos(ts + [t]) == NewPos(ts) + t.add + t.copy && OldPos(ts + [t]) == OldPos(ts) + t.add + t.seek
  {
    assert (ts + [t])[..|ts|] == ts;
  }

  /** What a description says of its last triple. */
  lemma DescribedLast(oldFile: seq<Byte>, newFile: seq<Byte>, ts: seq<Triple>, t: Triple, d: seq<Byte>, e: seq<Byte>)
    requires Describes(oldFile, newFile, ts + [t], d, e)
    ensures 0 <= t.add <= |d| && 0 <= t.copy <= |e| && Fits(oldFile, newFile, NewPos(ts), OldPos(ts), t)
    ensures d[|d| - t.add..] == Differences(oldFile, newFile, OldPos(ts), NewPos(ts), t.add)
    ensures e[|e| - t.copy..] == newFile[NewPos(ts) + t.add..NewPos(ts) + t.add + t.copy]
    ensures Describes(oldFile, newFile, ts, d[..|d| - t.add], e[..|e| - t.copy])
    ensures NewPos(ts + [t]) == NewPos(ts) + t.add + t.copy && OldPos(ts + [t]) == OldPos(ts) + t.add + t.seek
  {
    hide Differences, NewPos, OldPos;
    PositionsLast(ts, t);
    assert (ts + [t])[..|ts|] == ts && (ts + [t])[|ts|] == t;
  }

  /** The two streams together hold one byte for every byte of the new file described so far. */
  lemma {:induction false} StreamsTile(oldFile: seq<Byte>, newFile: seq<Byte>, ts: seq<Triple>, d: seq<Byte>,
                                       e: seq<Byte>)
    requires Describes(oldFile, newFile, ts, d, e)
    ensures |d| + |e| == NewPos(ts) && 0 <= NewPos(ts) <= |newFile| && 0 <= OldPos(ts) <= |oldFile|
    decreases |ts|
  {
    if ts != [] {
      var n := |ts| - 1;
      StreamsTile(oldFile, newFile, ts[..n], d[..|d| - ts[n].add], e[..|e| - ts[n].copy]);
    }
  }

  // ---------------------------------------------------------------- the file

  const MAGIC: seq<Byte> := [66, 83, 68, 73, 70, 70, 52, 48]  // "BSDIFF40"

  /** Header and the three compressed streams. */
  function Assembled(newsize: int, c: seq<Byte>, d: seq<Byte>, e: seq<Byte>): seq<Byte> {
    MAGIC + OffsetBytes(|c|) + OffsetBytes(|d|) + OffsetBytes(newsize) + c + d + e
  }

  /** What is compressed comes back when it is decompressed. */
  ghost predicate Lossless(enc: seq<Byte> -> Option<seq<Byte>>, dec: seq<Byte> -> Option<seq<Byte>>) {
    forall x :: enc(x).Some? ==> dec(enc(x).value) == Some(x)
  }
}
