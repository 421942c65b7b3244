/** Applying a patch: the header, the three streams and the loop that replays the triples. */
module ApplyPatch {
  import opened Bytes
  import opened OffsetCodec
  import opened Options
  import opened PatchFormat

  /** `Rebuilt` carries how far each stream was read.  `Undefined` marks patches on which the
      original leaves its buffers, or whose streams are longer than its 32-bit sizes can tell. */
  datatype Outcome = Rebuilt(bytes: seq<Byte>, coff: nat, doff: nat, eoff: nat) | Rejected | Undefined

  /** The new bytes made of diff bytes `d` and the old bytes from `p` on, where there are any. */
  function Added(oldFile: seq<Byte>, p: int, d: seq<Byte>): (b: seq<Byte>)
    ensures |b| == |d|
  {
    seq(|d|, k requires 0 <= k < |d| =>
      if 0 <= p + k < |oldFile| then (d[k] as int + oldFile[p + k] as int) % 256 else d[k])
  }

  /** The triple stored at `coff` of the decompressed streams. */
  function TripleAt(out: seq<Byte>, coff: nat): Triple
    requires coff + 24 <= |out|
  {
    Triple(OffsetValue(out[coff..coff + 8]), OffsetValue(out[coff + 8..coff + 16]),
           OffsetValue(out[coff + 16..coff + 24]))
  }

  /** What the replay loop makes of the rest of the streams, `acc` being what it has made so far. */
  function Replay(oldFile: seq<Byte>, newsize: nat, out: seq<Byte>, coff: nat, doff: nat, eoff: nat, oldpos: int,
                  acc: seq<Byte>): Outcome
    decreases |out| - coff
  {
    if |acc| >= newsize then Rebuilt(acc, coff, doff, eoff)
    else if coff + 24 > |out| then Undefined
    else
      var t := TripleAt(out, coff);
      if |acc| + t.add > newsize then Rejected
      else if t.add < 0 || doff + t.add > |out| then Undefined
      else
        var acc1 := acc + Added(oldFile, oldpos, out[doff..doff + t.add]);
        if |acc1| + t.copy > newsize then Rejected
        else if t.copy < 0 || eoff + t.copy > |out| then Undefined
        else Replay(oldFile, newsize, out, coff + 24, doff + t.add, eoff + t.copy,
                    oldpos + t.add + t.seek, acc1 + out[eoff..eoff + t.copy])
  }

  const UNSIGNED: int := 0x1_0000_0000

  /** A length or an offset stored in an unsigned 32-bit variable. */
  function Truncated(x: int): (y: nat)
    ensures y < UNSIGNED && (0 <= x < UNSIGNED ==> y == x) && (0 <= x ==> y <= x)
  {
    x % 0x1_0000_0000
  }

  /** The whole of a patch.  The length of the new file, the size of the decompressed streams and the
      three offsets into them are kept in 32 bits, so a buffer for streams of 2^32 bytes and more
      cannot even be allocated. */
  function Apply(oldFile: seq<Byte>, patch: seq<Byte>, dec: seq<Byte> -> Option<seq<Byte>>): Outcome {
    if |patch| < 8 then Undefined
    else if patch[..8] != MAGIC then Rejected
    else if |patch| < 32 then Undefined
    else
      var ctrllen, datalen := OffsetValue(patch[8..16]), OffsetValue(patch[16..24]);
      var newsize := Truncated(OffsetValue(patch[24..32]));
      if ctrllen < 0 || datalen < 0 then Rejected
      else if 32 + ctrllen + datalen > |patch| then Undefined
      else
        match dec(patch[32..32 + ctrllen])
        case None => Rejected
        case Some(c) =>
          if |c| >= UNSIGNED then Undefined
          else
            match dec(patch[32 + ctrllen..32 + ctrllen + datalen])
            case None => Rejected
            case Some(d) =>
              if |c| + |d| >= UNSIGNED then Undefined
              else
                match dec(patch[32 + ctrllen + datalen..])
                case None => Rejected
                case Some(e) =>
                  if |c| + |d| + |e| >= UNSIGNED then Undefined
                  else Replay(oldFile, newsize, c + d + e, 0, |c|, |c| + |d|, 0, [])
  }

  lemma ReplayStep(oldFile: seq<Byte>, newsize: nat, out: seq<Byte>, coff: nat, doff: nat, eoff: nat, oldpos: int,
                   acc: seq<Byte>, t: Triple)
    requires |acc| < newsize && coff + 24 <= |out| && t == TripleAt(out, coff)
    ensures var r := Replay(oldFile, newsize, out, coff, doff, eoff, oldpos, acc);
            if |acc| + t.add > newsize then r == Rejected
            else if t.add < 0 || doff + t.add > |out| then r == Undefined
            else if |acc| + t.add + t.copy > newsize then r == Rejected
            else if t.copy < 0 || eoff + t.copy > |out| then r == Undefined
            else r == Replay(oldFile, newsize, out, coff + 24, doff + t.add, eoff + t.copy, oldpos + t.add + t.seek,
                             acc + Added(oldFile, oldpos, out[doff..doff + t.add]) + out[eoff..eoff + t.copy])
  {
  }

  lemma ReplayEnd(oldFile: seq<Byte>, newsize: nat, out: seq<Byte>, coff: nat, doff: nat, eoff: nat, oldpos: int,
                  acc: seq<Byte>)
    ensures |acc| >= newsize ==>
              Replay(oldFile, newsize, out, coff, doff, eoff, oldpos, acc) == Rebuilt(acc, coff, doff, eoff)
    ensures |acc| < newsize && coff + 24 > |out| ==>
              Replay(oldFile, newsize, out, coff, doff, eoff, oldpos, acc) == Undefined
  {
  }

  /** The replay loop, on the output buffer itself.  The offsets are 32-bit variables; they cannot
      wrap, because the streams they run over are shorter than 2^32 bytes. */
  method ReplayLoop(oldFile: seq<Byte>, newsize: nat, out: seq<Byte>, doff0: nat, eoff0: nat) returns (r: Outcome)
    requires |out| < UNSIGNED && doff0 <= |out| && eoff0 <= |out|
    ensures r == Replay(oldFile, newsize, out, 0, doff0, eoff0, 0, [])
  {
    hide Replay, Added, OffsetValue, Truncated;
    var buffer := new Byte[newsize + 1];
    var coff: nat, doff: nat, eoff: nat := 0, doff0, eoff0;
    var oldpos, newpos := 0, 0;
    while newpos < newsize
      invariant 0 <= newpos <= newsize && 0 <= coff <= |out| && 0 <= doff <= |out| && 0 <= eoff <= |out|
      invariant Replay(oldFile, newsize, out, 0, doff0, eoff0, 0, []) ==
                Replay(oldFile, newsize, out, coff, doff, eoff, oldpos, buffer[..newpos])
      decreases |out| - coff
    {
      ReplayEnd(oldFile, newsize, out, coff, doff, eoff, oldpos, buffer[..newpos]);
      if coff + 24 > |out| {
        return Undefined;
      }
      var add := Offtin(out[coff..coff + 8]);
      var copy := Offtin(out[coff + 8..coff + 16]);
      var seek := Offtin(out[coff + 16..coff + 24]);
      ReplayStep(oldFile, newsize, out, coff, doff, eoff, oldpos, buffer[..newpos], Triple(add, copy, seek));
      if newpos + add > newsize {
        return Rejected;
      }
      if add < 0 || doff + add > |out| {
        return Undefined;
      }
      AddDiff(buffer, newpos, add, oldFile, oldpos, out[doff..doff + add]);
      if newpos + add + copy > newsize {
        return Rejected;
      }
      if copy < 0 || eoff + copy > |out| {
        return Undefined;
      }
      CopyExtra(buffer, newpos + add, out[eoff..eoff + copy]);
      coff, doff, eoff := Truncated(coff + 24), Truncated(doff + add), Truncated(eoff + copy);
      oldpos, newpos := oldpos + add + seek, newpos + add + copy;
    }
    ReplayEnd(oldFile, newsize, out, coff, doff, eoff, oldpos, buffer[..newpos]);
    r := Rebuilt(buffer[..newpos], coff, doff, eoff);
  }

  /** memcpy of extra bytes to `newpos`. */
  method CopyExtra(buffer: array<Byte>, newpos: nat, extra: seq<Byte>)
    requires newpos + |extra| <= buffer.Length
    modifies buffer
    ensures buffer[..newpos + |extra|] == old(buffer[..newpos]) + extra
  {
    forall k | 0 <= k < |extra| {
      buffer[newpos + k] := extra[k];
    }
  }

  /** Copies `add` diff bytes to `newpos` and adds the old bytes to them in place. */
  method AddDiff(buffer: array<Byte>, newpos: nat, add: nat, oldFile: seq<Byte>, oldpos: int, diff: seq<Byte>)
    requires newpos + add <= buffer.Length && |diff| == add
    modifies buffer
    ensures buffer[..newpos + add] == old(buffer[..newpos]) + Added(oldFile, oldpos, diff)
  {
    forall k | 0 <= k < add {
      buffer[newpos + k] := diff[k];
    }
    var i := 0;
    while i < add
      invariant 0 <= i <= add && buffer[..newpos] == old(buffer[..newpos])
      invariant forall k | 0 <= k < add :: buffer[newpos + k] == if k < i then Added(oldFile, oldpos, diff)[k]
                else diff[k]
    {
      if oldpos + i >= 0 && oldpos + i < |oldFile| {
        buffer[newpos + i] := (buffer[newpos + i] as int + oldFile[oldpos + i] as int) % 256;
      }
      i := i + 1;
    }
  }

  /** `ApplyPatch`.  The sizes of the old file and of the patch are passed as unsigned 32-bit numbers. */
  method ApplyPatch(oldFile: seq<Byte>, patch: seq<Byte>, dec: seq<Byte> -> Option<seq<Byte>>) returns (r: Outcome)
    requires |oldFile| < UNSIGNED && |patch| < UNSIGNED
    ensures r == Apply(oldFile, patch, dec)
  {
    if |patch| < 8 {
      return Undefined;
    }
    if patch[..8] != MAGIC {
      return Rejected;
    }
    if |patch| < 32 {
      return Undefined;
    }
    var ctrllen := Offtin(patch[8..16]);
    var datalen := Offtin(patch[16..24]);
    var length := Offtin(patch[24..32]);
    var newsize := Truncated(length);
    if ctrllen < 0 || datalen < 0 {
      return Rejected;
    }
    if 32 + ctrllen + datalen > |patch| {
      return Undefined;
    }
    var c := dec(patch[32..32 + ctrllen]);
    if c.None? {
      return Rejected;
    }
    if |c.value| >= UNSIGNED {
      return Undefined;
    }
    var doff := |c.value|;
    var d := dec(patch[32 + ctrllen..32 + ctrllen + datalen]);
    if d.None? {
      return Rejected;
    }
    if doff + |d.value| >= UNSIGNED {
      return Undefined;
    }
    var eoff := doff + |d.value|;
    var e := dec(patch[32 + ctrllen + datalen..]);
    if e.None? {
      return Rejected;
    }
    if eoff + |e.value| >= UNSIGNED {
      return Undefined;
    }
    r := ReplayLoop(oldFile, newsize, c.value + d.value + e.value, doff, eoff);
  }
}
