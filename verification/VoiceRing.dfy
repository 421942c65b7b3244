/** The circular byte buffers of a voice channel, as values: the bytes, where reading starts and
    where writing goes on.  Blocks of one size are written and blocks of another size are read. */
module VoiceRing {
  import opened Bytes

  datatype Ring = Ring(buf: seq<Byte>, r: nat, w: nat) {
    predicate Valid() {
      r < |buf| && w < |buf|
    }

    /** How many bytes are waiting, as the code computes it from the two indices. */
    function Occupancy(): (n: nat)
      requires Valid()
      ensures n < |buf|
    {
      if w >= r then w - r else w + (|buf| - r)
    }

    /** The room that is left. */
    function Remaining(): (n: nat)
      requires Valid()
      ensures n == |buf| - Occupancy()
    {
      if w >= r then |buf| - (w - r) else r - w
    }

    /** The waiting bytes, oldest first. */
    function Queue(): (q: seq<Byte>)
      requires Valid()
      ensures |q| == Occupancy()
    {
      Window(buf, r, Occupancy())
    }
  }

  /** An index that may have run past the end of a buffer of `t` bytes. */
  function Wrap(x: int, t: int): int {
    if x < t then x else x - t
  }

  /** `n` bytes from `r` on, going round the end. */
  function Window(buf: seq<Byte>, r: nat, n: nat): (q: seq<Byte>)
    requires r < |buf| && n <= |buf|
    ensures |q| == n
  {
    seq(n, k requires 0 <= k < n => buf[Wrap(r + k, |buf|)])
  }

  /** The bytes the buffer holds after a block is written at `w`: going round the end, both copies
      start with the first byte of the block. */
  function Stored(data: seq<Byte>, w: nat, t: nat): (p: seq<Byte>)
    requires w < t && |data| <= t
    ensures |p| == |data|
  {
    if w + |data| <= t then data else data[..t - w] + data[..|data| - (t - w)]
  }

  /** The buffer with `p` written at `w`, going round the end. */
  function Overwritten(buf: seq<Byte>, w: nat, p: seq<Byte>): (b: seq<Byte>)
    requires w < |buf| && |p| <= |buf|
    ensures |b| == |buf|
  {
    seq(|buf|, k requires 0 <= k < |buf| =>
      if w <= k < w + |p| then p[k - w] else if k + |buf| < w + |p| then p[k + |buf| - w] else buf[k])
  }

  /** The remainder the code takes, where one subtraction is enough. */
  lemma WrapIsRemainder(x: nat, t: nat)
    requires 0 < t && x < 2 * t
    ensures x % t == Wrap(x, t) < t
  {
    if x >= t {
      assert x == 1 * t + (x - t);
      assert x % t == (x - t) % t;
    }
  }

  // ---------------------------------------------------------------- writing and reading

  /** Writes a block and moves the read index forward by `drop` when the room before was no more
      than `limit`. */
  function Write(g: Ring, p: seq<Byte>, limit: nat, drop: nat): Ring
    requires g.Valid() && |p| <= |g.buf| && drop <= |g.buf|
  {
    Ring(Overwritten(g.buf, g.w, p),
         if limit >= g.Remaining() then Wrap(g.r + drop, |g.buf|) else g.r,
         Wrap(g.w + |p|, |g.buf|))
  }

  /** The queue such a write should leave. */
  function Pushed(q: seq<Byte>, p: seq<Byte>, t: nat, limit: nat, drop: nat): seq<Byte>
    requires |q| + |p| >= drop || t - |q| > limit
  {
    if t - |q| <= limit then (q + p)[drop..] else q + p
  }

  /** Every write of a block no larger than what it makes room for refines a queue that gives up its
      oldest `drop` bytes when at most `limit` were free: the bytes that are overwritten are among
      those given up, and a full queue is never mistaken for an empty one. */
  lemma WriteRefines(g: Ring, p: seq<Byte>, limit: nat, drop: nat)
    requires g.Valid() && |p| <= drop <= |g.buf| && |p| <= limit && limit + drop <= |g.buf| + |p|
    ensures Write(g, p, limit, drop).Valid()
    ensures Write(g, p, limit, drop).Queue() == Pushed(g.Queue(), p, |g.buf|, limit, drop)
  {
    var h := Write(g, p, limit, drop);
    var t, n := |g.buf|, g.Occupancy();
    var d := if limit >= g.Remaining() then drop else 0;
    var all := g.Queue() + p;
    assert h.Occupancy() == n + |p| - d;
    forall k | 0 <= k < n + |p| - d ensures h.Queue()[k] == all[d..][k] {
      WrittenAt(g, p, d, k);
    }
  }

  /** The byte at distance `d + k` from the read index after a write. */
  lemma WrittenAt(g: Ring, p: seq<Byte>, d: nat, k: nat)
    requires g.Valid() && |p| <= d + (|g.buf| - g.Occupancy()) && d <= |g.buf| && |p| <= |g.buf|
    requires d + k < g.Occupancy() + |p| && k < |g.buf|
    ensures Overwritten(g.buf, g.w, p)[Wrap(Wrap(g.r + d, |g.buf|) + k, |g.buf|)] == (g.Queue() + p)[d + k]
  {
    var t, n := |g.buf|, g.Occupancy();
    if d + k < n {
      assert (g.Queue() + p)[d + k] == g.buf[Wrap(g.r + d + k, t)];
    } else {
      assert (g.Queue() + p)[d + k] == p[d + k - n];
    }
  }

  /** The size of the queue after any write: right exactly while it stays below the buffer size;
      beyond that, a full or overrun ring looks nearly empty. */
  lemma WriteOccupancy(g: Ring, p: seq<Byte>, limit: nat, drop: nat)
    requires g.Valid() && |p| <= |g.buf| && drop <= |g.buf|
    ensures Write(g, p, limit, drop).Valid()
    ensures var n := g.Occupancy() + |p| - if limit >= g.Remaining() then drop else 0;
            n >= 0 ==> (Write(g, p, limit, drop).Occupancy() == n <==> n < |g.buf|)
  {
  }

  /** Two steps of a queue, one after the other. */
  lemma Chained(q: seq<Byte>, a: seq<Byte>, b: seq<Byte>, o: seq<Byte>, t: seq<Byte>, r: seq<Byte>, z: seq<Byte>)
    requires q + a == o + t && t + b == r + z
    ensures q + (a + b) == (o + r) + z
  {
    assert q + (a + b) == (o + t) + b == o + (t + b);
  }

  /** A block whose first byte differs from the others. */
  function Marker(b: nat): seq<Byte> {
    seq(b, k => if k == 0 then 0 else 1)
  }

  lemma Torn(w: nat, t: nat, b: nat)
    requires w < t && 0 < b <= t && w + b > t
    ensures Stored(Marker(b), w, t) != Marker(b)
  {
    assert Stored(Marker(b), w, t)[t - w] == Marker(b)[0] != Marker(b)[t - w];
  }

  /** Blocks survive the trip into the buffer exactly when they do not go round its end. */
  lemma StoredFaithfully(w: nat, t: nat, size: nat)
    requires w < t && 0 < size <= t
    ensures (forall data: seq<Byte> | |data| == size :: Stored(data, w, t) == data) <==> w + size <= t
  {
    if w + size > t {
      Torn(w, t, size);
    }
  }

  // ---------------------------------------------------------------- reading

  /** What `Update` takes from a waiting channel: up to `size` bytes, after which a queue that held
      no more than that is empty. */
  function Take(g: Ring, size: nat): Ring
    requires g.Valid() && g.r + size <= |g.buf|
  {
    var next := if g.r + size == |g.buf| then 0 else g.r + size;
    if g.Occupancy() > size then g.(r := next) else g.(r := next, w := next)
  }

  lemma WindowAhead(g: Ring, m: nat)
    requires g.Valid() && m <= g.Occupancy() && g.r + m <= |g.buf|
    ensures g.buf[g.r..g.r + m] == g.Queue()[..m]
  {
    forall k | 0 <= k < m ensures g.Queue()[..m][k] == g.buf[g.r..g.r + m][k] {
      assert g.Queue()[k] == g.buf[Wrap(g.r + k, |g.buf|)];
    }
  }

  /** What is taken is the front of the queue, in order and in one piece. */
  lemma TakeRefines(g: Ring, size: nat)
    requires g.Valid() && g.r + size <= |g.buf|
    ensures Take(g, size).Valid()
    ensures var m := if g.Occupancy() > size then size else g.Occupancy();
            && g.buf[g.r..g.r + m] == g.Queue()[..m]
            && Take(g, size).Queue() == g.Queue()[m..]
  {
    if g.Occupancy() > size {
      WindowAhead(g, size);
      AdvanceRefines(g, size);
      assert Take(g, size) == Advance(g, size);
    } else {
      WindowAhead(g, g.Occupancy());
    }
  }

  /** The read index moved on by a block that is waiting. */
  function Advance(g: Ring, size: nat): Ring
    requires g.Valid() && size <= g.Occupancy()
  {
    g.(r := Wrap(g.r + size, |g.buf|))
  }

  lemma AdvanceRefines(g: Ring, size: nat)
    requires g.Valid() && size <= g.Occupancy()
    ensures Advance(g, size).Valid() && Advance(g, size).Queue() == g.Queue()[size..]
  {
    var h, t := Advance(g, size), |g.buf|;
    assert h.Occupancy() == g.Occupancy() - size;
    forall k | 0 <= k < g.Occupancy() - size ensures h.Queue()[k] == g.Queue()[size..][k] {
      assert h.Queue()[k] == g.buf[Wrap(h.r + k, t)] == g.buf[Wrap(g.r + (size + k), t)] == g.Queue()[size + k];
    }
  }

  /** The block handed to the encoder: where it would reach the end of the buffer, the copy starts
      at the beginning of the buffer instead of the read index. */
  function EncoderInput(buf: seq<Byte>, r: nat, size: nat): (b: seq<Byte>)
    requires r < |buf| && size <= |buf|
    ensures |b| == size
  {
    if r + size >= |buf| then buf[..size] else buf[r..r + size]
  }

  /** A block that reaches the end of the buffer begins with the first byte of the buffer for the encoder,
      and with the byte at the read index in the queue. */
  lemma FromTheStart(buf: seq<Byte>, r: nat, size: nat)
    requires r < |buf| <= r + size && 0 < size <= |buf|
    ensures EncoderInput(buf, r, size)[0] == buf[0] && Window(buf, r, size)[0] == buf[r]
  {
    assert Window(buf, r, size)[0] == buf[Wrap(r + 0, |buf|)];
  }

  /** The encoder is given the oldest waiting bytes, whatever the buffer holds, exactly when the block
      ends before the end of the buffer or is the whole of it. */
  lemma EncodedFaithfully(t: nat, r: nat, size: nat)
    requires r < t && 0 < size <= t
    ensures (forall buf: seq<Byte> | |buf| == t :: EncoderInput(buf, r, size) == Window(buf, r, size)) <==>
              r + size < t || r == 0
  {
    if r + size < t || r == 0 {
      forall buf: seq<Byte> | |buf| == t ensures EncoderInput(buf, r, size) == Window(buf, r, size) {
        assert forall k | 0 <= k < size ::
                 Window(buf, r, size)[k] == buf[Wrap(r + k, t)] == EncoderInput(buf, r, size)[k];
      }
    } else {
      var buf: seq<Byte> := Marker(t);
      FromTheStart(buf, r, size);
      assert |buf| == t && buf[0] != buf[r];
      assert EncoderInput(buf, r, size) != Window(buf, r, size);
    }
  }
}
