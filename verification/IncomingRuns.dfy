/** What the sizes of packets and output blocks decide about every run of a receiving channel:
    whether the ring stays a queue, and whether packets are stored as they came. */
module IncomingRuns {
  import opened Bytes
  import opened Multiples
  import opened VoiceRing
  import opened IncomingVoice

  /** A channel that has just been opened. */
  predicate Opened(s: Inbound, size: nat) {
    Sound(s, size) && s.ring.r == s.ring.w == 0 && s.buffering && !s.copied
  }

  /** All packets are `b` bytes long. */
  predicate Packets(evs: seq<Event>, b: nat) {
    forall k | 0 <= k < |evs| && evs[k].Arrive? :: |evs[k].data| == b
  }

  lemma RunSplit(s: Inbound, e: seq<Event>, f: seq<Event>, size: nat)
    requires Sound(s, size) && Fit(e, |s.ring.buf|) && Fit(f, |s.ring.buf|)
    ensures |Run(s, e, size).ring.buf| == |s.ring.buf| && Fit(e + f, |s.ring.buf|)
    ensures Run(s, e + f, size) == Run(Run(s, e, size), f, size)
    decreases |e|
  {
    hide Step;
    if e == [] {
      assert e + f == f;
    } else {
      StepSound(s, e[0], size);
      assert (e + f)[1..] == e[1..] + f;
      RunSplit(Step(s, e[0], size), e[1..], f, size);
    }
  }

  // ---------------------------------------------------------------- the ring as a queue

  /** `n` packets of `b` zero bytes. */
  function Zeros(n: nat, b: nat): (evs: seq<Event>)
    ensures |evs| == n && Packets(evs, b)
  {
    seq(n, _ => Arrive(seq(b, _ => 0)))
  }

  lemma ZerosRest(n: nat, b: nat)
    requires n > 0
    ensures Zeros(n, b)[0] == Arrive(seq(b, _ => 0)) && Zeros(n, b)[1..] == Zeros(n - 1, b)
  {
  }

  lemma ArrivalBytes(s: Inbound, data: seq<Byte>, size: nat)
    requires Sound(s, size) && |data| <= |s.ring.buf|
    ensures |In(s, Arrive(data))| == |data| && |Out(s, Arrive(data), size)| <= size
  {
  }

  lemma {:induction false} ZerosBytes(s: Inbound, n: nat, b: nat, size: nat)
    requires Sound(s, size) && b <= |s.ring.buf|
    ensures |AllIn(s, Zeros(n, b), size)| == n * b && |AllOut(s, Zeros(n, b), size)| <= n * size
    decreases n
  {
    hide Step, In, Out, Zeros, Sound;
    if n == 0 {
      NoZeros(b);
    } else {
      ZerosRest(n, b);
      var ev := Zeros(n, b)[0];
      StepSound(s, ev, size);
      ArrivalBytes(s, ev.data, size);
      ZerosBytes(Step(s, ev, size), n - 1, b, size);
      assert n * b == (n - 1) * b + b && n * size == (n - 1) * size + size;
    }
  }

  lemma NoZeros(b: nat)
    ensures Zeros(0, b) == []
  {
  }

  /** What was waiting and has been written is as much as has been removed and is waiting now. */
  ghost predicate BytesAddUp(s: Inbound, evs: seq<Event>, size: nat)
    requires Sound(s, size) && Fit(evs, |s.ring.buf|)
  {
    |s.ring.Queue()| + |AllIn(s, evs, size)| == |AllOut(s, evs, size)| + Run(s, evs, size).ring.Occupancy()
  }

  lemma FittingAddsUp(s: Inbound, evs: seq<Event>, b: nat, size: nat)
    requires Sound(s, size) && Packets(evs, b) && b <= size
    ensures Fit(evs, |s.ring.buf|) && BytesAddUp(s, evs, size)
  {
    hide Run, AllIn, AllOut, Step, Window, Aligned;
    RunConserves(s, evs, size);
  }

  lemma OverrunShown(s: Inbound, b: nat, size: nat)
    requires Opened(s, size) && size < b <= |s.ring.buf|
    ensures var evs := Zeros(|s.ring.buf|, b); Packets(evs, b) && !BytesAddUp(s, evs, size)
  {
    hide Run, AllIn, AllOut, Step, Window, Aligned;
    var n := |s.ring.buf|;
    ZerosBytes(s, n, b, size);
    assert n * b >= n * (size + 1) == n * size + n;
  }

  /** The bytes add up in every run, so that the ring never mistakes a full queue for an empty one,
      exactly when a packet is no longer than the block by which the read index is forced on. */
  lemma IncomingExact(s: Inbound, b: nat, size: nat)
    requires Opened(s, size) && b <= |s.ring.buf|
    ensures (forall evs | Packets(evs, b) :: BytesAddUp(s, evs, size)) <==> b <= size
  {
    hide BytesAddUp, Run, AllIn, AllOut, Step, Window, Aligned;
    if b <= size {
      forall evs | Packets(evs, b) ensures Fit(evs, |s.ring.buf|) && BytesAddUp(s, evs, size) {
        FittingAddsUp(s, evs, b, size);
      }
    } else {
      OverrunShown(s, b, size);
    }
  }

  // ---------------------------------------------------------------- packets stored as they came

  ghost predicate AllStored(s: Inbound, evs: seq<Event>, size: nat)
    requires Sound(s, size) && Fit(evs, |s.ring.buf|)
    decreases |evs|
  {
    evs == [] ||
    (StepSound(s, evs[0], size);
     (evs[0].Arrive? ==> Stored(evs[0].data, s.ring.w, |s.ring.buf|) == evs[0].data)
     && AllStored(Step(s, evs[0], size), evs[1..], size))
  }

  lemma {:induction false} StoredSplit(s: Inbound, e: seq<Event>, f: seq<Event>, size: nat)
    requires Sound(s, size) && Fit(e, |s.ring.buf|) && Fit(f, |s.ring.buf|)
    ensures Fit(e + f, |s.ring.buf|) && |Run(s, e, size).ring.buf| == |s.ring.buf|
    ensures AllStored(s, e + f, size) ==> AllStored(Run(s, e, size), f, size)
    decreases |e|
  {
    hide Step, Stored;
    RunSplit(s, e, f, size);
    if e == [] {
      assert e + f == f;
    } else {
      StepSound(s, e[0], size);
      assert (e + f)[1..] == e[1..] + f;
      StoredSplit(Step(s, e[0], size), e[1..], f, size);
    }
  }

  /** One of the two sizes is a multiple of the other, and packets fill the buffer exactly. */
  predicate Whole(size: nat, b: nat) {
    Aligned(FRAME_INCOMING_BUFFER_COUNT * size, b) && (Aligned(size, b) || Aligned(b, size))
  }

  /** Packets are written at multiples of their size; the jump of the write index that ends an
      underrun keeps this. */
  lemma {:induction false} WholeStored(s: Inbound, evs: seq<Event>, b: nat, size: nat)
    requires Sound(s, size) && 0 < b <= |s.ring.buf| && Packets(evs, b) && Whole(size, b) && Aligned(s.ring.w, b)
    ensures AllStored(s, evs, size)
    decreases |evs|
  {
    if evs != [] {
      StepSound(s, evs[0], size);
      WriteAligned(s, evs[0], b, size);
      StoredFaithfully(s.ring.w, |s.ring.buf|, b);
      WholeStored(Step(s, evs[0], size), evs[1..], b, size);
    }
  }

  lemma WriteAligned(s: Inbound, ev: Event, b: nat, size: nat)
    requires Sound(s, size) && 0 < b <= |s.ring.buf| && Whole(size, b) && Aligned(s.ring.w, b)
    requires ev.Arrive? ==> |ev.data| == b
    ensures Aligned(Step(s, ev, size).ring.w, b)
    ensures ev.Arrive? ==> s.ring.w + b <= |s.ring.buf|
  {
    var t, w := |s.ring.buf|, s.ring.w;
    if ev.Arrive? {
      AlignedDifference(w, t - w, b);
      AlignedSum(w, b, b);
    } else if ev.Poll? && Takes(s, size) && s.ring.Occupancy() <= size {
      var r := s.ring.r;
      AlignedNext(r, size, FRAME_INCOMING_BUFFER_COUNT);
      if Aligned(size, b) {
        AlignedThrough(r + size, size, b);
      } else {
        AlignedThrough(w, b, size);
        AlignedProduct(FRAME_INCOMING_BUFFER_COUNT, size);
        OneBlockApart(r, w, t, size);
      }
    }
  }

  // ---------------------------------------------------------------- packets torn at the end

  lemma ArrivalMoves(s: Inbound, data: seq<Byte>, size: nat)
    requires Sound(s, size) && |data| <= |s.ring.buf|
    ensures var h := Step(s, Arrive(data), size);
            && Sound(h, size) && |h.ring.buf| == |s.ring.buf| && h.buffering == s.buffering && h.copied == s.copied
            && h.ring.w == Wrap(s.ring.w + |data|, |s.ring.buf|)
            && (s.ring.Remaining() > size ==> h.ring.r == s.ring.r)
  {
    StepSound(s, Arrive(data), size);
  }

  lemma Once(s: Inbound, ev: Event, rest: seq<Event>, size: nat)
    requires Sound(s, size) && (ev.Arrive? ==> |ev.data| <= |s.ring.buf|) && Fit(rest, |s.ring.buf|)
    ensures Fit([ev] + rest, |s.ring.buf|) && Sound(Step(s, ev, size), size) &&
              |Step(s, ev, size).ring.buf| == |s.ring.buf|
    ensures Run(s, [ev] + rest, size) == Run(Step(s, ev, size), rest, size)
    ensures AllStored(s, [ev] + rest, size) <==>
              && (ev.Arrive? ==> Stored(ev.data, s.ring.w, |s.ring.buf|) == ev.data)
              && AllStored(Step(s, ev, size), rest, size)
  {
    hide Step, Stored;
    StepSound(s, ev, size);
    assert ([ev] + rest)[1..] == rest;
  }

  lemma Never(s: Inbound, size: nat)
    requires Sound(s, size)
    ensures Run(s, [], size) == s && AllStored(s, [], size)
  {
  }

  /** Packets that do not fill the rest of the buffer exactly are torn at its end. */
  lemma {:induction false} TornLater(s: Inbound, b: nat, size: nat) returns (evs: seq<Event>)
    requires Sound(s, size) && 0 < b <= |s.ring.buf| && !Aligned(|s.ring.buf| - s.ring.w, b)
    ensures Packets(evs, b) && !AllStored(s, evs, size)
    decreases |s.ring.buf| - s.ring.w
  {
    hide Step, Stored, Run, AllStored;
    var ev := Arrive(Marker(b));
    ArrivalMoves(s, Marker(b), size);
    if s.ring.w + b > |s.ring.buf| {
      Once(s, ev, [], size);
      Torn(s.ring.w, |s.ring.buf|, b);
      evs := [ev];
      assert evs == [ev] + [];
    } else {
      var rest := TornLater(Step(s, ev, size), b, size);
      Once(s, ev, rest, size);
      evs := [ev] + rest;
    }
  }

  /** `n` packets that leave more than a block of room. */
  lemma {:induction false} Filled(s: Inbound, b: nat, n: nat, size: nat) returns (evs: seq<Event>, h: Inbound)
    requires Sound(s, size) && 0 < b && s.ring.r == 0 && s.ring.w + n * b < (FRAME_INCOMING_BUFFER_COUNT - 1) * size
    ensures Packets(evs, b) && Fit(evs, |s.ring.buf|) && h == Run(s, evs, size)
    ensures h.ring.r == 0 && h.ring.w == s.ring.w + n * b && h.buffering == s.buffering && h.copied == s.copied
    decreases n
  {
    hide Step, Stored, Run, Aligned, Window;
    if n == 0 {
      Never(s, size);
      evs, h := [], s;
    } else {
      assert n * b == (n - 1) * b + b && (n - 1) * b >= 0;
      ArrivalMoves(s, Marker(b), size);
      var ev, rest := Arrive(Marker(b)), [];
      rest, h := Filled(Step(s, ev, size), b, n - 1, size);
      Once(s, ev, rest, size);
      evs := [ev] + rest;
    }
  }

  lemma PollMoves(s: Inbound, size: nat)
    requires Sound(s, size) && Takes(s, size) && s.ring.r < s.ring.w
    ensures var h := Step(s, Poll, size);
            && Sound(h, size) && |h.ring.buf| == |s.ring.buf| && !h.buffering && h.copied
            && h.ring.r == Wrap(s.ring.r + size, |s.ring.buf|)
            && h.ring.w == if s.ring.w > s.ring.r + size then s.ring.w else Wrap(s.ring.r + size, |s.ring.buf|)
  {
    StepSound(s, Poll, size);
    AlignedNext(s.ring.r, size, FRAME_INCOMING_BUFFER_COUNT);
  }

  lemma FrameMoves(s: Inbound, size: nat)
    requires Sound(s, size)
    ensures Sound(Step(s, NewFrame, size), size) && Step(s, NewFrame, size) == s.(copied := false)
  {
  }

  /** Frame after frame is fetched until the queue runs dry: the write index ends at the multiple of
      the block size next to where it was. */
  lemma {:induction false} RunDry(s: Inbound, size: nat) returns (evs: seq<Event>, h: Inbound)
    requires Sound(s, size) && Takes(s, size) && s.ring.r < s.ring.w < (FRAME_INCOMING_BUFFER_COUNT - 1) * size
    ensures (forall k | 0 <= k < |evs| :: !evs[k].Arrive?) && h == Run(s, evs, size)
    ensures Aligned(h.ring.w, size) && s.ring.w <= h.ring.w < s.ring.w + size
    decreases s.ring.w - s.ring.r
  {
    hide Step, Stored, Run, Window;
    PollMoves(s, size);
    var t := Step(s, Poll, size);
    AlignedNext(s.ring.r, size, FRAME_INCOMING_BUFFER_COUNT);
    if s.ring.w <= s.ring.r + size {
      Never(t, size);
      Once(s, Poll, [], size);
      evs, h := [Poll], t;
      assert evs == [Poll] + [];
    } else {
      FrameMoves(t, size);
      var u := Step(t, NewFrame, size);
      var rest;
      rest, h := RunDry(u, size);
      Once(t, NewFrame, rest, size);
      Once(s, Poll, [NewFrame] + rest, size);
      evs := [Poll] + ([NewFrame] + rest);
    }
  }

  /** `n` packets are received and played until the queue runs dry; if the write index then is no
      multiple of the packet size, a later packet is torn. */
  lemma TornAfterUnderrun(s: Inbound, b: nat, n: nat, size: nat) returns (evs: seq<Event>, c: nat)
    requires Opened(s, size) && 0 < b <= |s.ring.buf| && Aligned(|s.ring.buf|, b)
    requires 2 * size < n * b < (FRAME_INCOMING_BUFFER_COUNT - 1) * size
    ensures Packets(evs, b) && Aligned(c, size) && n * b <= c < n * b + size
    ensures !Aligned(c, b) ==> !AllStored(s, evs, size)
  {
    hide Step, Stored, Run, Window, AllStored;
    var e, h := Filled(s, b, n, size);
    RunSplit(s, e, [], size);
    var f, k := RunDry(h, size);
    RunSplit(s, e, f, size);
    c := k.ring.w;
    if Aligned(c, b) {
      evs := e;
    } else {
      var t := |s.ring.buf|;
      if Aligned(t - c, b) {
        AlignedDifference(t - c, c, b);
      }
      var g := TornLater(k, b, size);
      StoredSplit(s, e + f, g, size);
      evs := e + f + g;
    }
  }

  /** Enough packets to pass `x` bytes, with the last one less than `b` beyond. */
  lemma PacketsPast(x: nat, b: nat) returns (n: nat)
    requires b > 0
    ensures x < n * b <= x + b
  {
    n := x / b + 1;
    assert n * b == x / b * b + b;
  }

  /** Packets that neither divide the block nor are divided by it are torn after an underrun. */
  lemma SmallTorn(s: Inbound, b: nat, size: nat) returns (evs: seq<Event>)
    requires Opened(s, size) && 0 < b < size && Aligned(|s.ring.buf|, b) && !Aligned(size, b)
    ensures Packets(evs, b) && !AllStored(s, evs, size)
  {
    hide AllStored, Step, Run, Window;
    var n := PacketsPast(2 * size, b);
    var c;
    evs, c := TornAfterUnderrun(s, b, n, size);
    if Aligned(c, b) {
      MultipleBetween(c, 3, size);
      n := PacketsPast(3 * size, b);
      evs, c := TornAfterUnderrun(s, b, n, size);
      MultipleBetween(c, 4, size);
      if Aligned(c, b) {
        AlignedDifference(3 * size, size, b);
      }
    }
  }

  /** The queue ran dry at a whole packet exactly when it ran dry at a whole block. */
  lemma DryAtPacket(n: nat, c: nat, b: nat, size: nat)
    requires 0 < size <= b && Aligned(c, size) && n * b <= c < n * b + size && Aligned(c, b)
    ensures Aligned(n * b, size)
  {
    AlignedProduct(n, b);
    AlignedDifference(n * b, c - n * b, b);
  }

  lemma LargeTorn(s: Inbound, b: nat, size: nat) returns (evs: seq<Event>)
    requires Opened(s, size) && size <= b <= |s.ring.buf| && Aligned(|s.ring.buf|, b) && !Aligned(b, size)
    ensures Packets(evs, b) && !AllStored(s, evs, size)
  {
    hide AllStored, Step, Run, Window;
    AlignedProduct(FRAME_INCOMING_BUFFER_COUNT, size);
    assert 2 * b <= |s.ring.buf|;
    AlignedProduct(2, size);
    var n := if b > 2 * size then 1 else 2;
    var c;
    evs, c := TornAfterUnderrun(s, b, n, size);
    if Aligned(c, b) {
      DryAtPacket(n, c, b, size);
      evs, c := TornAfterUnderrun(s, b, n + 1, size);
      if Aligned(c, b) {
        DryAtPacket(n + 1, c, b, size);
        AlignedDifference(n * b, b, size);
      }
    }
  }

  /** Every packet of every run is stored as it came, exactly when packets fill the buffer exactly and
      one of packet and block is a multiple of the other. */
  lemma PacketsKept(s: Inbound, b: nat, size: nat)
    requires Opened(s, size) && 0 < b <= |s.ring.buf|
    ensures (forall evs | Packets(evs, b) :: AllStored(s, evs, size)) <==> Whole(size, b)
  {
    hide AllStored, Step, Run, Window;
    if Whole(size, b) {
      forall evs | Packets(evs, b) ensures AllStored(s, evs, size) {
        WholeStored(s, evs, b, size);
      }
    } else if !Aligned(|s.ring.buf|, b) {
      var evs := TornLater(s, b, size);
    } else if b < size {
      var evs := SmallTorn(s, b, size);
    } else {
      var evs := LargeTorn(s, b, size);
    }
  }

  /** It is not enough that packets fill the buffer: blocks of 6 and packets of 4 bytes do, but after an
      underrun packets start at odd multiples of 2. */
  lemma FillingIsNotEnough(s: Inbound)
    requires Opened(s, 6)
    ensures Aligned(|s.ring.buf|, 4)
    ensures exists evs :: Packets(evs, 4) && !AllStored(s, evs, 6)
  {
    AlignedProduct(150, 4);
    PacketsKept(s, 4, 6);
  }

  // ---------------------------------------------------------------- what is delivered

  /** The bytes of all packets, one after the other. */
  function Payload(evs: seq<Event>): seq<Byte> {
    if evs == [] then [] else (if evs[0].Arrive? then evs[0].data else []) + Payload(evs[1..])
  }

  lemma {:induction false} StoredPayload(s: Inbound, evs: seq<Event>, size: nat)
    requires Sound(s, size) && Fit(evs, |s.ring.buf|) && AllStored(s, evs, size)
    ensures AllIn(s, evs, size) == Payload(evs)
    decreases |evs|
  {
    hide Step, Stored;
    if evs != [] {
      StepSound(s, evs[0], size);
      StoredPayload(Step(s, evs[0], size), evs[1..], size);
    }
  }

  /** When packets are no longer than a block and a block is a multiple of a packet, what has been
      removed, followed by what is waiting, is the packets' own bytes in the order of arrival. */
  lemma Delivered(s: Inbound, evs: seq<Event>, b: nat, size: nat)
    requires Opened(s, size) && 0 < b <= size && Aligned(size, b) && Packets(evs, b)
    ensures Fit(evs, |s.ring.buf|)
    ensures Payload(evs) == AllOut(s, evs, size) + Run(s, evs, size).ring.Queue()
  {
    hide AllStored, AllIn, AllOut, Run, Step, Window;
    AlignedProduct(FRAME_INCOMING_BUFFER_COUNT, size);
    AlignedThrough(|s.ring.buf|, size, b);
    WholeStored(s, evs, b, size);
    StoredPayload(s, evs, size);
    RunConserves(s, evs, size);
    EmptyQueue(s.ring);
  }

  lemma EmptyQueue(g: Ring)
    requires g.Valid() && g.r == g.w
    ensures g.Queue() == []
  {
  }
}
