/** The sending side of a voice channel: frames are written, `Update` encodes all whole blocks. */
module OutgoingVoice {
  import opened Bytes
  import opened Multiples
  import opened VoiceRing
  import opened MessageNumbers

  const FRAME_OUTGOING_BUFFER_COUNT: nat := 100

  /** A voice packet: its message number and the block that was encoded into it. */
  datatype Packet = Packet(number: nat, block: seq<Byte>)

  lemma WholeBlocks(n: nat, size: nat)
    requires size > 0
    ensures n / size * size <= n
  {
  }

  /** `n` blocks encoded one after the other: the read index afterwards. */
  function Drained(g: Ring, size: nat, n: nat): Ring
    requires g.Valid() && n * size <= g.Occupancy()
    decreases n
  {
    if n == 0 then g
    else
      DrainOne(g, size, n);
      Drained(Advance(g, size), size, n - 1)
  }

  lemma DrainOne(g: Ring, size: nat, n: nat)
    requires g.Valid() && n > 0 && n * size <= g.Occupancy()
    ensures size <= g.Occupancy() && Advance(g, size).Valid() && |Advance(g, size).buf| == |g.buf|
    ensures Advance(g, size).Occupancy() == g.Occupancy() - size
    ensures (n - 1) * size == n * size - size
  {
    assert n * size == (n - 1) * size + size;
    assert (n - 1) * size >= 0;
    AdvanceRefines(g, size);
  }

  /** The packets made of `n` blocks: one for every block in which the encoder finds speech, with
      consecutive numbers. */
  function Packets(g: Ring, size: nat, n: nat, number: nat, speech: seq<Byte> -> bool): seq<Packet>
    requires g.Valid() && n * size <= g.Occupancy() && number < NUMBERS
    decreases n
  {
    if n == 0 then []
    else
      DrainOne(g, size, n);
      var block := EncoderInput(g.buf, g.r, size);
      if speech(block) then [Packet(number, block)]
          + Packets(Advance(g, size), size, n - 1, Wrapped(number + 1), speech)
      else Packets(Advance(g, size), size, n - 1, number, speech)
  }

  /** `sent` has been made of all but the last `frames` of `n` blocks; `h` is what is left of `g` and
      `next` the number of the next packet. */
  ghost predicate EncodedSoFar(g: Ring, size: nat, n: nat, number: nat, speech: seq<Byte> -> bool,
                               sent: seq<Packet>, frames: nat, h: Ring, next: nat)
  {
    && g.Valid() && h.Valid() && number < NUMBERS && next == Wrapped(number + |sent|)
    && frames * size <= h.Occupancy() && n * size <= g.Occupancy()
    && Drained(g, size, n) == Drained(h, size, frames)
    && Packets(g, size, n, number, speech) == sent + Packets(h, size, frames, next, speech)
  }

  lemma EncodedStart(g: Ring, size: nat, n: nat, number: nat, speech: seq<Byte> -> bool)
    requires g.Valid() && size > 0 && n == g.Occupancy() / size && number < NUMBERS
    ensures EncodedSoFar(g, size, n, number, speech, [], n, g, number)
  {
    WholeBlocks(g.Occupancy(), size);
    WrappedSmall(number);
    assert [] + Packets(g, size, n, number, speech) == Packets(g, size, n, number, speech);
  }

  lemma PacketsStep(g: Ring, size: nat, n: nat, number: nat, speech: seq<Byte> -> bool)
    requires g.Valid() && n > 0 && n * size <= g.Occupancy() && number < NUMBERS
    requires size <= g.Occupancy() && Advance(g, size).Valid() && (n - 1) * size <= Advance(g, size).Occupancy()
    ensures Drained(g, size, n) == Drained(Advance(g, size), size, n - 1)
    ensures var block := EncoderInput(g.buf, g.r, size);
            var one := if speech(block) then [Packet(number, block)] else [];
            && Wrapped(number + |one|) == (if speech(block) then Wrapped(number + 1) else number)
            && Packets(g, size, n, number, speech) ==
                one + Packets(Advance(g, size), size, n - 1, Wrapped(number + |one|), speech)
  {
  }

  lemma EncodedStep(g: Ring, size: nat, n: nat, number: nat, speech: seq<Byte> -> bool,
                    sent: seq<Packet>, frames: nat, h: Ring, next: nat)
    requires EncodedSoFar(g, size, n, number, speech, sent, frames, h, next) && frames > 0
    ensures h.Valid() && size <= h.Occupancy()
    ensures var block := EncoderInput(h.buf, h.r, size);
            var one := if speech(block) then [Packet(next, block)] else [];
            EncodedSoFar(g, size, n, number, speech, sent + one, frames - 1, Advance(h, size), Wrapped(next + |one|))
  {
    hide Drained, Packets, Advance, EncoderInput, Wrapped;
    DrainOne(h, size, frames);
    PacketsStep(h, size, frames, next, speech);
    var block := EncoderInput(h.buf, h.r, size);
    WrappedSum(number + |sent|, if speech(block) then 1 else 0);
  }

  /** All whole blocks of `g` have been encoded into `sent`, which leaves `h`. */
  predicate EncodedAll(g: Ring, size: nat, number: nat, speech: seq<Byte> -> bool, sent: seq<Packet>, h: Ring) {
    && g.Valid() && size > 0 && number < NUMBERS
    && var n := g.Occupancy() / size;
    && n * size <= g.Occupancy() && h == Drained(g, size, n) && sent == Packets(g, size, n, number, speech)
  }

  lemma EncodedEnd(g: Ring, size: nat, n: nat, number: nat, speech: seq<Byte> -> bool, sent: seq<Packet>, h: Ring,
                   next: nat)
    requires EncodedSoFar(g, size, n, number, speech, sent, 0, h, next) && size > 0 && n == g.Occupancy() / size
    ensures EncodedAll(g, size, number, speech, sent, h) && next == Wrapped(number + |sent|)
    ensures AllTaken(g.Queue(), size, h.Queue())
  {
    hide AllTaken, Window;
    DrainedMeans(g, size, n);
  }

  lemma WrappedSmall(n: nat)
    requires n < NUMBERS
    ensures Wrapped(n) == n
    ensures 0 <= Wrapped(n + 1) < NUMBERS
  {
  }

  /** Encoding all whole blocks leaves the bytes of the last incomplete one waiting. */
  lemma {:induction false} DrainedQueue(g: Ring, size: nat, n: nat)
    requires g.Valid() && n * size <= g.Occupancy()
    ensures Drained(g, size, n).Valid() && |Drained(g, size, n).buf| == |g.buf|
    ensures n * size >= 0 && Drained(g, size, n).Queue() == g.Queue()[n * size..]
    decreases n
  {
    if n > 0 {
      DrainOne(g, size, n);
      AdvanceRefines(g, size);
      DrainedQueue(Advance(g, size), size, n - 1);
      assert g.Queue()[size..][(n - 1) * size..] == g.Queue()[n * size..];
    }
  }

  ghost predicate Numbered(sent: seq<Packet>, number: nat) {
    forall k | 0 <= k < |sent| :: sent[k].number == Wrapped(number + k)
  }

  lemma NumberedFront(p: Packet, rest: seq<Packet>, number: nat)
    requires p.number == number < NUMBERS && Numbered(rest, Wrapped(number + 1))
    ensures Numbered([p] + rest, number)
  {
    WrappedSmall(number);
    var sent := [p] + rest;
    forall k | 0 <= k < |sent| ensures sent[k].number == Wrapped(number + k) {
      if k > 0 {
        WrappedSum(number + 1, k - 1);
      }
    }
  }

  /** Numbers are consecutive modulo 65536, whatever is silent in between. */
  lemma {:induction false} PacketNumbers(g: Ring, size: nat, n: nat, number: nat, speech: seq<Byte> -> bool)
    requires g.Valid() && n * size <= g.Occupancy() && number < NUMBERS
    ensures |Packets(g, size, n, number, speech)| <= n && Numbered(Packets(g, size, n, number, speech), number)
    decreases n
  {
    if n > 0 {
      hide Advance, EncoderInput, Wrapped, Numbered;
      DrainOne(g, size, n);
      WrappedSmall(number);
      var h := Advance(g, size);
      var block := EncoderInput(g.buf, g.r, size);
      if speech(block) {
        PacketNumbers(h, size, n - 1, Wrapped(number + 1), speech);
        NumberedFront(Packet(number, block), Packets(h, size, n - 1, Wrapped(number + 1), speech), number);
      } else {
        PacketNumbers(h, size, n - 1, number, speech);
      }
    }
  }

  /** What the steps of `SendFrame` amount to. */
  lemma FrameWritten(g: Ring, input: seq<Byte>, size: nat, drop: nat)
    requires g.Valid() && size > 0 && |g.buf| == FRAME_OUTGOING_BUFFER_COUNT * size && Aligned(g.w, size)
    requires |input| == size && drop <= |g.buf|
    ensures g.w + size <= |g.buf|
    ensures var h := Write(g, input, size, drop);
            && h.Valid() && Aligned(h.w, size)
            && h.buf == Overwritten(g.buf, g.w, input)
            && h.r == (if size >= g.Remaining() then (g.r + drop) % |g.buf| else g.r)
            && h.w == (if g.w + size == |g.buf| then 0 else g.w + size)
    ensures size <= drop ==> Write(g, input, size, drop).Queue() == Pushed(g.Queue(), input, |g.buf|, size, drop)
  {
    hide Overwritten, Window, Aligned, Pushed;
    ZeroAligned(size);
    AlignedNext(g.w, size, FRAME_OUTGOING_BUFFER_COUNT);
    WrapIsRemainder(g.r + drop, |g.buf|);
    if size <= drop {
      WriteRefines(g, input, size, drop);
    }
  }

  /** The queue gives up `drop` bytes when 99 frames were waiting. */
  lemma PushedMeans(q: seq<Byte>, input: seq<Byte>, size: nat, drop: nat)
    requires |input| == size && |q| <= FRAME_OUTGOING_BUFFER_COUNT * size
    ensures |q| + size >= drop || |q| < 99 * size ==>
              Pushed(q, input, FRAME_OUTGOING_BUFFER_COUNT * size, size, drop)
              == if |q| >= 99 * size then (q + input)[drop..] else q + input
  {
  }

  /** All whole blocks have left the queue. */
  predicate AllTaken(q: seq<Byte>, block: nat, after: seq<Byte>) {
    block > 0 && |after| == |q| % block && |after| <= |q| && after == q[|q| - |after|..]
  }

  lemma DrainedMeans(g: Ring, size: nat, n: nat)
    requires g.Valid() && size > 0 && n == g.Occupancy() / size && n * size <= g.Occupancy()
    ensures Drained(g, size, n).Valid() && AllTaken(g.Queue(), size, Drained(g, size, n).Queue())
  {
    hide Drained, Window;
    DrainedQueue(g, size, n);
  }

  // ---------------------------------------------------------------- which blocks are sent

  /** The bytes given to the encoder for the block that waits behind `x` others: the block itself, or the
      beginning of the buffer for one that reaches the end of it. */
  function BlockBehind(g: Ring, size: nat, x: nat): seq<Byte>
    requires g.Valid() && size <= |g.buf|
  {
    var r := if g.r + x < |g.buf| then g.r + x else g.r + x - |g.buf|;
    if r + size < |g.buf| then g.buf[r..r + size] else g.buf[..size]
  }

  lemma NextBlock(g: Ring, size: nat, x: nat)
    requires g.Valid() && x + size + size <= g.Occupancy()
    ensures Advance(g, size).Valid() && BlockBehind(Advance(g, size), size, x) == BlockBehind(g, size, x + size)
  {
  }

  lemma FirstBlock(g: Ring, size: nat)
    requires g.Valid() && size <= |g.buf|
    ensures EncoderInput(g.buf, g.r, size) == BlockBehind(g, size, 0)
  {
  }

  lemma FewerBlocks(n: nat, size: nat)
    requires n > 0
    ensures 0 <= (n - 1) * size && n * size == (n - 1) * size + size && (n + 1) * size == n * size + size
  {
  }

  /** One more block: when there is speech in it, its packet comes behind all others with the next
      number; otherwise nothing is added. */
  lemma {:induction false} PacketsOneMore(g: Ring, size: nat, n: nat, number: nat, speech: seq<Byte> -> bool)
    requires g.Valid() && size <= |g.buf| && number < NUMBERS
    requires n * size <= g.Occupancy() && (n + 1) * size <= g.Occupancy()
    ensures Packets(g, size, 0, number, speech) == []
    ensures var before, block := Packets(g, size, n, number, speech), BlockBehind(g, size, n * size);
            Packets(g, size, n + 1, number, speech) ==
              if speech(block) then before + [Packet(Wrapped(number + |before|), block)] else before
    decreases n
  {
    hide Advance, EncoderInput, BlockBehind, Wrapped, Packets, Drained;
    DrainOne(g, size, n + 1);
    FirstBlock(g, size);
    WrappedSmall(number);
    NoPackets(g, size, number, speech);
    var h, block := Advance(g, size), EncoderInput(g.buf, g.r, size);
    var one := if speech(block) then [Packet(number, block)] else [];
    PacketsStep(g, size, n + 1, number, speech);
    if n == 0 {
      NoPackets(h, size, Wrapped(number + |one|), speech);
    } else {
      FewerBlocks(n, size);
      NextBlock(g, size, (n - 1) * size);
      DrainOne(g, size, n);
      PacketsStep(g, size, n, number, speech);
      PacketsOneMore(h, size, n - 1, Wrapped(number + |one|), speech);
      OneBehind(one, Packets(h, size, n - 1, Wrapped(number + |one|), speech), number,
                BlockBehind(g, size, n * size), speech);
    }
  }

  lemma NoPackets(g: Ring, size: nat, number: nat, speech: seq<Byte> -> bool)
    requires g.Valid() && number < NUMBERS
    ensures Packets(g, size, 0, number, speech) == []
  {
  }

  /** The next packet is the same whether the first one is counted or not. */
  lemma OneBehind(one: seq<Packet>, rest: seq<Packet>, number: nat, block: seq<Byte>, speech: seq<Byte> -> bool)
    ensures one + (if speech(block) then rest + [Packet(Wrapped(Wrapped(number + |one|) + |rest|), block)] else rest)
            == if speech(block) then one + rest + [Packet(Wrapped(number + |one + rest|), block)] else one + rest
  {
    WrappedSum(number + |one|, |rest|);
  }
}
