/** The receiving side of a voice channel as a queue machine: decoded packets are written, `Update`
    takes at most one block per output frame, and everything that goes in comes out in order. */
module IncomingVoice {
  import opened Bytes
  import opened Multiples
  import opened VoiceRing

  const FRAME_INCOMING_BUFFER_COUNT: nat := 100

  /** The ring, whether output waits for more data, and whether this frame has had its block. */
  datatype Inbound = Inbound(ring: Ring, buffering: bool, copied: bool)

  /** A decoded packet arrives, `Update` visits the channel, or the user has fetched the frame. */
  datatype Event = Arrive(data: seq<Byte>) | Poll | NewFrame

  predicate Sound(s: Inbound, size: nat) {
    && s.ring.Valid() && size > 0 && |s.ring.buf| == FRAME_INCOMING_BUFFER_COUNT * size
    && Aligned(s.ring.r, size)
  }

  /** Whether `Update` takes a block: not twice in one frame, not from an empty queue, and after the
      queue has run dry only once more than two blocks are waiting. */
  predicate Takes(s: Inbound, size: nat)
    requires s.ring.Valid()
  {
    !s.copied && s.ring.Occupancy() > 0 && (!s.buffering || s.ring.Occupancy() > size * 2)
  }

  function Step(s: Inbound, ev: Event, size: nat): Inbound
    requires Sound(s, size) && (ev.Arrive? ==> |ev.data| <= |s.ring.buf|)
  {
    match ev
    case Arrive(data) => s.(ring := Write(s.ring, Stored(data, s.ring.w, |s.ring.buf|), size, size))
    case Poll =>
      AlignedNext(s.ring.r, size, FRAME_INCOMING_BUFFER_COUNT);
      if Takes(s, size) then Inbound(Take(s.ring, size), false, true)
      else if !s.copied && s.ring.Occupancy() == 0 then s.(buffering := true)
      else s
    case NewFrame => s.(copied := false)
  }

  /** The bytes a step puts at the end of the queue. */
  function In(s: Inbound, ev: Event): seq<Byte>
    requires s.ring.Valid() && (ev.Arrive? ==> |ev.data| <= |s.ring.buf|)
  {
    if ev.Arrive? then Stored(ev.data, s.ring.w, |s.ring.buf|) else []
  }

  /** The bytes a step removes from the front: the oldest block when a packet finds no more than one
      block of room, the block taken for output otherwise. */
  function Out(s: Inbound, ev: Event, size: nat): seq<Byte>
    requires Sound(s, size)
  {
    match ev
    case Arrive(_) => if size >= s.ring.Remaining() then s.ring.Queue()[..size] else []
    case Poll => if Takes(s, size) then s.ring.Queue()[..if s.ring.Occupancy() > size then size
                                                       else s.ring.Occupancy()] else []
    case NewFrame => []
  }

  /** Every step keeps the ring sound and is a step of a first-in first-out queue. */
  lemma StepIsFifo(s: Inbound, ev: Event, size: nat)
    requires Sound(s, size) && (ev.Arrive? ==> |ev.data| <= size)
    ensures Sound(Step(s, ev, size), size)
    ensures s.ring.Queue() + In(s, ev) == Out(s, ev, size) + Step(s, ev, size).ring.Queue()
    ensures ev.Arrive? ==> |Out(s, ev, size)| == if |s.ring.Queue()| >= (FRAME_INCOMING_BUFFER_COUNT - 1) * size
              then size else 0
  {
    hide Write, Take, Stored, Window, Aligned;
    AlignedNext(s.ring.r, size, FRAME_INCOMING_BUFFER_COUNT);
    match ev {
      case Arrive(data) => ArriveIsFifo(s, data, size);
      case Poll =>
        if Takes(s, size) {
          TakeRefines(s.ring, size);
          TakeAligned(s.ring, size);
        }
      case NewFrame =>
    }
  }

  /** What a visit of `Update` does, said of the queue: it takes nothing a second time in a frame, and
      nothing while output is held back and no more than two blocks are waiting; otherwise it takes up to
      one block.  Output is held back again when nothing was waiting. */
  lemma PollMeans(s: Inbound, size: nat)
    requires Sound(s, size)
    ensures Sound(Step(s, Poll, size), size)
    ensures var q, t := s.ring.Queue(), Step(s, Poll, size);
            var n := if s.copied || (s.buffering && |q| <= 2 * size) then 0 else if |q| < size then |q| else size;
            && Out(s, Poll, size) == q[..n] && t.ring.Queue() == q[n..]
            && t.copied == (s.copied || n > 0)
            && t.buffering == (n == 0 && (s.buffering || (!s.copied && q == [])))
  {
    hide Window, Aligned, Take;
    AlignedNext(s.ring.r, size, FRAME_INCOMING_BUFFER_COUNT);
    TakeRefines(s.ring, size);
    StepIsFifo(s, Poll, size);
  }

  lemma TakeAligned(g: Ring, size: nat)
    requires g.Valid() && g.r + size <= |g.buf| && Aligned(g.r, size)
    ensures Aligned(Take(g, size).r, size) && |Take(g, size).buf| == |g.buf|
  {
  }

  /** A packet of any size that fits the buffer leaves the ring sound. */
  lemma ArriveSound(s: Inbound, data: seq<Byte>, size: nat)
    requires Sound(s, size) && |data| <= |s.ring.buf|
    ensures Sound(Step(s, Arrive(data), size), size)
  {
    hide Window, Overwritten, Stored;
    AlignedNext(s.ring.r, size, FRAME_INCOMING_BUFFER_COUNT);
  }

  lemma ArriveIsFifo(s: Inbound, data: seq<Byte>, size: nat)
    requires Sound(s, size) && |data| <= size
    ensures Sound(Step(s, Arrive(data), size), size)
    ensures s.ring.Queue() + In(s, Arrive(data)) ==
              Out(s, Arrive(data), size) + Step(s, Arrive(data), size).ring.Queue()
    ensures |Out(s, Arrive(data), size)| == if |s.ring.Queue()| >= (FRAME_INCOMING_BUFFER_COUNT - 1) * size then size
              else 0
  {
    hide Window, Overwritten, Stored;
    AlignedNext(s.ring.r, size, FRAME_INCOMING_BUFFER_COUNT);
    var q, p := s.ring.Queue(), Stored(data, s.ring.w, |s.ring.buf|);
    WriteRefines(s.ring, p, size, size);
    if size >= s.ring.Remaining() {
      assert q + p == q[..size] + (q + p)[size..];
    }
  }

  /** What the arrival of a packet no longer than a block makes of a queue: its bytes are put at the end,
      and the oldest block is given up when 99 blocks were waiting.  A packet that goes round the end of
      the buffer, at `end`, is stored with its first bytes a second time in place of its last ones. */
  predicate Arrived(q: seq<Byte>, w: nat, end: nat, data: seq<Byte>, size: nat, after: seq<Byte>) {
    && w < end && |data| <= size <= end
    && var p := if w + |data| <= end then data else data[..end - w] + data[..w + |data| - end];
    && (|q| >= 99 * size ==> after == (q + p)[size..])
    && (|q| < 99 * size ==> after == q + p)
  }

  lemma ArrivalMeans(s: Inbound, data: seq<Byte>, size: nat)
    requires Sound(s, size) && |data| <= size
    ensures var t := Step(s, Arrive(data), size);
            && Sound(t, size) && t.buffering == s.buffering && t.copied == s.copied
            && Arrived(s.ring.Queue(), s.ring.w, |s.ring.buf|, data, size, t.ring.Queue())
  {
    hide Window, Aligned, Overwritten;
    ArriveIsFifo(s, data, size);
    WriteRefines(s.ring, Stored(data, s.ring.w, |s.ring.buf|), size, size);
  }

  /** What the steps of `WriteOutputToChannel` amount to. */
  lemma ArrivalWritten(s: Inbound, data: seq<Byte>, size: nat)
    requires Sound(s, size) && |data| <= |s.ring.buf|
    ensures s.ring.r + size <= |s.ring.buf|
    ensures var t := |s.ring.buf|;
            var r := if size < s.ring.Remaining() then s.ring.r
                     else if s.ring.r + size == t then 0 else s.ring.r + size;
            Step(s, Arrive(data), size) ==
              s.(ring := Ring(Overwritten(s.ring.buf, s.ring.w, Stored(data, s.ring.w, t)), r, (s.ring.w + |data|) % t))
    ensures Sound(Step(s, Arrive(data), size), size)
    ensures |data| <= size ==>
              Arrived(s.ring.Queue(), s.ring.w, |s.ring.buf|, data, size, Step(s, Arrive(data), size).ring.Queue())
  {
    hide Window, Overwritten, Stored, Arrived, Aligned;
    AlignedNext(s.ring.r, size, FRAME_INCOMING_BUFFER_COUNT);
    WrapIsRemainder(s.ring.w + |data|, |s.ring.buf|);
    ArriveSound(s, data, size);
    if |data| <= size {
      ArrivalMeans(s, data, size);
    }
  }

  // ---------------------------------------------------------------- whole runs

  /** No packet is longer than `n` bytes. */
  predicate Fit(evs: seq<Event>, n: nat) {
    forall k | 0 <= k < |evs| && evs[k].Arrive? :: |evs[k].data| <= n
  }

  lemma FitRest(evs: seq<Event>, n: nat)
    requires Fit(evs, n) && evs != []
    ensures Fit(evs[1..], n) && (evs[0].Arrive? ==> |evs[0].data| <= n)
  {
  }

  lemma StepSound(s: Inbound, ev: Event, size: nat)
    requires Sound(s, size) && (ev.Arrive? ==> |ev.data| <= |s.ring.buf|)
    ensures Sound(Step(s, ev, size), size) && |Step(s, ev, size).ring.buf| == |s.ring.buf|
  {
    if ev.Arrive? {
      ArriveSound(s, ev.data, size);
    } else {
      StepIsFifo(s, ev, size);
    }
  }

  ghost function Run(s: Inbound, evs: seq<Event>, size: nat): (t: Inbound)
    requires Sound(s, size) && Fit(evs, |s.ring.buf|)
    ensures Sound(t, size)
    decreases |evs|
  {
    if evs == [] then s
    else
      StepSound(s, evs[0], size);
      Run(Step(s, evs[0], size), evs[1..], size)
  }

  /** All the bytes that a run puts in. */
  ghost function AllIn(s: Inbound, evs: seq<Event>, size: nat): seq<Byte>
    requires Sound(s, size) && Fit(evs, |s.ring.buf|)
    decreases |evs|
  {
    if evs == [] then []
    else
      StepSound(s, evs[0], size);
      In(s, evs[0]) + AllIn(Step(s, evs[0], size), evs[1..], size)
  }

  /** All the bytes that it removes. */
  ghost function AllOut(s: Inbound, evs: seq<Event>, size: nat): seq<Byte>
    requires Sound(s, size) && Fit(evs, |s.ring.buf|)
    decreases |evs|
  {
    if evs == [] then []
    else
      StepSound(s, evs[0], size);
      Out(s, evs[0], size) + AllOut(Step(s, evs[0], size), evs[1..], size)
  }

  /** Over any run nothing is lost, duplicated or reordered: what was waiting at the start and what
      has been written since is exactly what has been removed, followed by what is waiting now. */
  lemma {:induction false} RunConserves(s: Inbound, evs: seq<Event>, size: nat)
    requires Sound(s, size) && Fit(evs, size)
    ensures s.ring.Queue() + AllIn(s, evs, size) == AllOut(s, evs, size) + Run(s, evs, size).ring.Queue()
    decreases |evs|
  {
    hide Step, In, Out, Window, Aligned;
    if evs != [] {
      FitRest(evs, size);
      StepSound(s, evs[0], size);
      StepIsFifo(s, evs[0], size);
      var t := Step(s, evs[0], size);
      RunConserves(t, evs[1..], size);
      Chained(s.ring.Queue(), In(s, evs[0]), AllIn(t, evs[1..], size), Out(s, evs[0], size), t.ring.Queue(),
              AllOut(t, evs[1..], size), Run(t, evs[1..], size).ring.Queue());
    }
  }

  /** How many blocks a run takes for output. */
  ghost function Taken(s: Inbound, evs: seq<Event>, size: nat): nat
    requires Sound(s, size) && Fit(evs, |s.ring.buf|)
    decreases |evs|
  {
    if evs == [] then 0
    else
      StepSound(s, evs[0], size);
      (if evs[0].Poll? && Takes(s, size) then 1 else 0) + Taken(Step(s, evs[0], size), evs[1..], size)
  }

  /** Until the user fetches the frame, a channel contributes at most one block to it. */
  lemma {:induction false} OneBlockPerFrame(s: Inbound, evs: seq<Event>, size: nat)
    requires Sound(s, size) && Fit(evs, |s.ring.buf|)
    requires forall k | 0 <= k < |evs| :: !evs[k].NewFrame?
    ensures Taken(s, evs, size) <= if s.copied then 0 else 1
    ensures Taken(s, evs, size) == 1 || s.copied <==> Run(s, evs, size).copied
    decreases |evs|
  {
    if evs != [] {
      StepSound(s, evs[0], size);
      OneBlockPerFrame(Step(s, evs[0], size), evs[1..], size);
    }
  }
}
