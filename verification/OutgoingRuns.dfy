/** What the sizes of frames and encoder blocks decide about every run of a sending channel: whether
    the occupancy can be trusted, and whether the encoder is given the waiting bytes. */
module OutgoingRuns {
  import opened Bytes
  import opened Multiples
  import opened VoiceRing
  import opened OutgoingVoice

  /** The user sends a frame, or `Update` encodes all whole blocks. */
  datatype Move = Frame(input: seq<Byte>) | Encode

  predicate Ready(g: Ring, size: nat, drop: nat) {
    && g.Valid() && 0 < size && 0 < drop <= |g.buf| == FRAME_OUTGOING_BUFFER_COUNT * size && Aligned(g.w, size)
  }

  /** A channel that has just been opened. */
  predicate Opened(g: Ring, size: nat, drop: nat) {
    Ready(g, size, drop) && g.r == g.w == 0
  }

  predicate FrameSized(evs: seq<Move>, size: nat) {
    forall k | 0 <= k < |evs| && evs[k].Frame? :: |evs[k].input| == size
  }

  lemma OneBlock(g: Ring, drop: nat)
    requires g.Valid() && 0 < drop <= g.Occupancy()
    ensures var h := Advance(g, drop);
            h.Valid() && h.buf == g.buf && h.w == g.w && h.Queue() == g.Queue()[drop..] &&
                h.Occupancy() == g.Occupancy() - drop
  {
    AdvanceRefines(g, drop);
  }

  /** All whole blocks encoded. */
  function Emptied(g: Ring, drop: nat): (h: Ring)
    requires g.Valid() && drop > 0
    ensures h.Valid() && h.buf == g.buf && h.w == g.w && h.Occupancy() < drop
    decreases g.Occupancy()
  {
    if g.Occupancy() < drop then g else (OneBlock(g, drop); Emptied(Advance(g, drop), drop))
  }

  /** The bytes of these blocks. */
  function WholeBlocksOf(g: Ring, drop: nat): seq<Byte>
    requires g.Valid() && drop > 0
    decreases g.Occupancy()
  {
    if g.Occupancy() < drop then [] else (OneBlock(g, drop); g.Queue()[..drop] + WholeBlocksOf(Advance(g, drop), drop))
  }

  /** It is what encoding as many blocks as fit into the occupancy leaves. */
  lemma {:induction false} EmptiedIsDrained(g: Ring, drop: nat, n: nat)
    requires g.Valid() && drop > 0 && n * drop <= g.Occupancy() < n * drop + drop
    ensures Emptied(g, drop) == Drained(g, drop, n)
    decreases n
  {
    if n > 0 {
      DrainOne(g, drop, n);
      EmptiedIsDrained(Advance(g, drop), drop, n - 1);
    }
  }

  lemma Regrouped(q: seq<Byte>, drop: nat, a: seq<Byte>, b: seq<Byte>)
    requires drop <= |q| && q[drop..] == a + b
    ensures q == (q[..drop] + a) + b
  {
    assert q == q[..drop] + q[drop..];
  }

  lemma {:induction false} EmptiedQueue(g: Ring, drop: nat)
    requires g.Valid() && drop > 0
    ensures g.Queue() == WholeBlocksOf(g, drop) + Emptied(g, drop).Queue()
    decreases g.Occupancy()
  {
    hide Advance, Window;
    if g.Occupancy() >= drop {
      OneBlock(g, drop);
      var h := Advance(g, drop);
      EmptiedQueue(h, drop);
      Regrouped(g.Queue(), drop, WholeBlocksOf(h, drop), Emptied(h, drop).Queue());
    }
  }

  function Moved(g: Ring, ev: Move, size: nat, drop: nat): (h: Ring)
    requires Ready(g, size, drop) && (ev.Frame? ==> |ev.input| == size)
    ensures Ready(h, size, drop) && |h.buf| == |g.buf|
  {
    match ev
    case Frame(input) =>
      FrameWritten(g, input, size, drop);
      Write(g, input, size, drop)
    case Encode => Emptied(g, drop)
  }

  ghost function Run(g: Ring, evs: seq<Move>, size: nat, drop: nat): (h: Ring)
    requires Ready(g, size, drop) && FrameSized(evs, size)
    ensures Ready(h, size, drop) && |h.buf| == |g.buf|
    decreases |evs|
  {
    if evs == [] then g else Run(Moved(g, evs[0], size, drop), evs[1..], size, drop)
  }

  /** The bytes of all frames. */
  function Sent(evs: seq<Move>): seq<Byte> {
    if evs == [] then [] else (if evs[0].Frame? then evs[0].input else []) + Sent(evs[1..])
  }

  /** What a move takes from the front: the oldest block when a frame finds no room, all whole blocks
      when they are encoded. */
  function Gone(g: Ring, ev: Move, size: nat, drop: nat): seq<Byte>
    requires Ready(g, size, drop) && (ev.Frame? ==> |ev.input| == size)
  {
    match ev
    case Frame(input) => if size >= g.Remaining() then (g.Queue() + input)[..drop] else []
    case Encode => WholeBlocksOf(g, drop)
  }

  ghost function AllGone(g: Ring, evs: seq<Move>, size: nat, drop: nat): seq<Byte>
    requires Ready(g, size, drop) && FrameSized(evs, size)
    decreases |evs|
  {
    if evs == [] then [] else Gone(g, evs[0], size, drop) + AllGone(Moved(g, evs[0], size, drop), evs[1..], size, drop)
  }

  lemma RunSplit(g: Ring, e: seq<Move>, f: seq<Move>, size: nat, drop: nat)
    requires Ready(g, size, drop) && FrameSized(e, size) && FrameSized(f, size)
    ensures FrameSized(e + f, size) && Run(g, e + f, size, drop) == Run(Run(g, e, size, drop), f, size, drop)
    decreases |e|
  {
    hide Moved;
    if e == [] {
      assert e + f == f;
    } else {
      assert (e + f)[1..] == e[1..] + f;
      RunSplit(Moved(g, e[0], size, drop), e[1..], f, size, drop);
    }
  }

  // ---------------------------------------------------------------- the ring as a queue

  lemma MoveIsFifo(g: Ring, ev: Move, size: nat, drop: nat)
    requires Ready(g, size, drop) && (ev.Frame? ==> |ev.input| == size) && size <= drop
    ensures g.Queue() + (if ev.Frame? then ev.input else []) ==
              Gone(g, ev, size, drop) + Moved(g, ev, size, drop).Queue()
  {
    hide Write, Window, Aligned, Emptied, WholeBlocksOf;
    match ev
    case Frame(input) =>
      FrameWritten(g, input, size, drop);
      var all := g.Queue() + input;
      if size >= g.Remaining() {
        assert all == all[..drop] + all[drop..];
      }
    case Encode => EmptiedQueue(g, drop);
  }

  /** Nothing is lost, duplicated or reordered except by the forced steps: what was waiting and has
      been sent is what has been given up or encoded, followed by what is waiting. */
  lemma {:induction false} SentConserved(g: Ring, evs: seq<Move>, size: nat, drop: nat)
    requires Ready(g, size, drop) && FrameSized(evs, size) && size <= drop
    ensures g.Queue() + Sent(evs) == AllGone(g, evs, size, drop) + Run(g, evs, size, drop).Queue()
    decreases |evs|
  {
    hide Moved, Gone, Window, Aligned;
    if evs != [] {
      MoveIsFifo(g, evs[0], size, drop);
      var h := Moved(g, evs[0], size, drop);
      SentConserved(h, evs[1..], size, drop);
      var input := if evs[0].Frame? then evs[0].input else [];
      Chained(g.Queue(), input, Sent(evs[1..]), Gone(g, evs[0], size, drop), h.Queue(),
              AllGone(h, evs[1..], size, drop), Run(h, evs[1..], size, drop).Queue());
    }
  }

  /** `n` frames of zero bytes. */
  function Zeros(n: nat, size: nat): (evs: seq<Move>)
    ensures |evs| == n && FrameSized(evs, size)
  {
    seq(n, _ => Frame(seq(size, _ => 0)))
  }

  lemma ZerosRest(n: nat, size: nat)
    requires n > 0
    ensures Zeros(n, size)[0].Frame? && Zeros(n, size)[1..] == Zeros(n - 1, size)
  {
  }

  lemma FrameGone(g: Ring, input: seq<Byte>, size: nat, drop: nat)
    requires Ready(g, size, drop) && |input| == size
    ensures |Gone(g, Frame(input), size, drop)| <= drop
  {
  }

  lemma {:induction false} ZerosBytes(g: Ring, n: nat, size: nat, drop: nat)
    requires Ready(g, size, drop)
    ensures |Sent(Zeros(n, size))| == n * size && |AllGone(g, Zeros(n, size), size, drop)| <= n * drop
    decreases n
  {
    hide Moved, Gone, Ready, Zeros;
    if n > 0 {
      ZerosRest(n, size);
      var ev := Zeros(n, size)[0];
      FrameGone(g, ev.input, size, drop);
      ZerosBytes(Moved(g, ev, size, drop), n - 1, size, drop);
      assert n * size == (n - 1) * size + size && n * drop == (n - 1) * drop + drop;
    }
  }

  /** The number of bytes computed from the indices is that of the bytes sent and neither given up nor
      encoded. */
  ghost predicate CountsRight(g: Ring, evs: seq<Move>, size: nat, drop: nat)
    requires Ready(g, size, drop) && FrameSized(evs, size)
  {
    |g.Queue()| + |Sent(evs)| == |AllGone(g, evs, size, drop)| + Run(g, evs, size, drop).Occupancy()
  }

  lemma OverrunShown(g: Ring, size: nat, drop: nat)
    requires Opened(g, size, drop) && size > drop
    ensures !CountsRight(g, Zeros(|g.buf|, size), size, drop)
  {
    hide Run, AllGone, Moved, Window, Sent, Zeros, Aligned;
    var n := |g.buf|;
    ZerosBytes(g, n, size, drop);
    MoreByOne(n, size, drop);
  }

  lemma {:induction false} MoreByOne(n: nat, x: nat, y: nat)
    requires x > y
    ensures n * x >= n * y + n
  {
    if n > 0 {
      MoreByOne(n - 1, x, y);
      assert n * x == (n - 1) * x + x && n * y == (n - 1) * y + y;
    }
  }

  /** One forced step per frame is enough in every run, and the occupancy right, exactly when a frame is
      no longer than an encoder block. */
  lemma OccupancyExact(g: Ring, size: nat, drop: nat)
    requires Opened(g, size, drop)
    ensures (forall evs | FrameSized(evs, size) :: CountsRight(g, evs, size, drop)) <==> size <= drop
  {
    hide CountsRight, Run, AllGone, Moved, Window, Aligned;
    if size <= drop {
      forall evs | FrameSized(evs, size) ensures CountsRight(g, evs, size, drop) {
        CountedByQueue(g, evs, size, drop);
      }
    } else {
      OverrunShown(g, size, drop);
    }
  }

  lemma CountedByQueue(g: Ring, evs: seq<Move>, size: nat, drop: nat)
    requires Ready(g, size, drop) && FrameSized(evs, size) && size <= drop
    ensures CountsRight(g, evs, size, drop)
  {
    hide Run, AllGone, Moved, Window, Aligned, Sent;
    SentConserved(g, evs, size, drop);
  }

  // ---------------------------------------------------------------- what the encoder is given

  /** Each block handed to the encoder is the oldest block waiting. */
  ghost predicate AllFront(g: Ring, drop: nat)
    requires g.Valid() && drop > 0
    decreases g.Occupancy()
  {
    g.Occupancy() < drop ||
    (OneBlock(g, drop);
     EncoderInput(g.buf, g.r, drop) == g.Queue()[..drop] && AllFront(Advance(g, drop), drop))
  }

  /** The same for every block that a run hands to it. */
  ghost predicate EncodesFront(g: Ring, evs: seq<Move>, size: nat, drop: nat)
    requires Ready(g, size, drop) && FrameSized(evs, size)
    decreases |evs|
  {
    evs == [] ||
    ((evs[0].Encode? ==> AllFront(g, drop)) && EncodesFront(Moved(g, evs[0], size, drop), evs[1..], size, drop))
  }

  lemma Once(g: Ring, ev: Move, rest: seq<Move>, size: nat, drop: nat)
    requires Ready(g, size, drop) && (ev.Frame? ==> |ev.input| == size) && FrameSized(rest, size)
    ensures FrameSized([ev] + rest, size)
    ensures Run(g, [ev] + rest, size, drop) == Run(Moved(g, ev, size, drop), rest, size, drop)
    ensures EncodesFront(g, [ev] + rest, size, drop) <==>
              (ev.Encode? ==> AllFront(g, drop)) && EncodesFront(Moved(g, ev, size, drop), rest, size, drop)
  {
    hide Moved, AllFront;
    assert ([ev] + rest)[1..] == rest;
  }

  /** Frames by which a block taken from the beginning of the buffer can be told from one further on. */
  function Telling(w: nat, size: nat): (input: seq<Byte>)
    ensures |input| == size
  {
    seq(size, _ => if w == 0 then 0 else 1)
  }

  predicate Waits(g: Ring, x: int) {
    if g.w >= g.r then g.r <= x < g.w else g.r <= x < |g.buf| || 0 <= x < g.w
  }

  /** Only telling frames have been written. */
  ghost predicate Marked(g: Ring, size: nat) {
    && g.Valid()
    && (g.buf[0] == 0 || g.r == g.w == 0)
    && forall x | size <= x < |g.buf| && Waits(g, x) :: g.buf[x] == 1
  }

  lemma FrameMarks(g: Ring, size: nat, drop: nat)
    requires Ready(g, size, drop) && Marked(g, size)
    requires size >= g.Remaining() ==> size <= drop
    ensures var h := Moved(g, Frame(Telling(g.w, size)), size, drop);
            && Marked(h, size) && h.buf[0] == 0
            && h.Occupancy() == g.Occupancy() + size - (if size >= g.Remaining() then drop else 0)
            && h.r == (if size >= g.Remaining() then Wrap(g.r + drop, |g.buf|) else g.r)
            && h.w == (if g.w + size == |g.buf| then 0 else g.w + size)
  {
    hide Window, Aligned;
    FrameWritten(g, Telling(g.w, size), size, drop);
    WrapIsRemainder(g.r + drop, |g.buf|);
    WriteOccupancy(g, Telling(g.w, size), size, drop);
    LaterFrame(g, size);
  }

  lemma LaterFrame(g: Ring, size: nat)
    requires g.Valid() && size > 0 && Aligned(g.w, size)
    ensures g.w == 0 || g.w >= size
  {
  }

  /** A block at the end of the buffer is not what the encoder gets. */
  lemma WrongBlock(g: Ring, size: nat, drop: nat)
    requires Ready(g, size, drop) && Marked(g, size) && drop <= g.Occupancy()
    requires size <= g.r && g.r + drop >= |g.buf|
    ensures !AllFront(g, drop)
  {
    OneBlock(g, drop);
    FromTheStart(g.buf, g.r, drop);
    assert g.Queue()[..drop][0] == Window(g.buf, g.r, drop)[0] == g.buf[g.r] == 1;
  }

  /** Blocks that are all right have not come to the end of the buffer. */
  lemma {:induction false} StraightOn(g: Ring, size: nat, drop: nat)
    requires Ready(g, size, drop) && Marked(g, size) && AllFront(g, drop)
    requires drop <= (FRAME_OUTGOING_BUFFER_COUNT - 1) * size
    ensures var h := Emptied(g, drop);
            Marked(h, size) && h.r == g.r + g.Occupancy() - h.Occupancy() && (g.Occupancy() >= drop ==> h.r > g.r)
    decreases g.Occupancy()
  {
    hide Window, Aligned, EncoderInput;
    if g.Occupancy() >= drop {
      OneBlock(g, drop);
      if size <= g.r && g.r + drop >= |g.buf| {
        WrongBlock(g, size, drop);
      }
      StraightOn(Advance(g, drop), size, drop);
    }
  }

  // ---------------------------------------------------------------- runs in which it is given a wrong block

  /** One frame at a time, each followed by `Update`: the blocks come to the end of the buffer one after
      the other, and the first that gets there is wrong. */
  lemma {:induction false} WrongLater(g: Ring, size: nat, drop: nat) returns (evs: seq<Move>)
    requires Ready(g, size, drop) && Marked(g, size) && g.Occupancy() < drop <= (FRAME_OUTGOING_BUFFER_COUNT - 1) * size
    ensures FrameSized(evs, size) && !EncodesFront(g, evs, size, drop)
    decreases |g.buf| - g.r, drop - g.Occupancy()
  {
    hide EncodesFront, AllFront, Marked, Moved, Aligned, Window;
    var ev := Frame(Telling(g.w, size));
    FrameMarks(g, size, drop);
    var h := Moved(g, ev, size, drop);
    if AllFront(h, drop) {
      StraightOn(h, size, drop);
      EncodeMoves(h, size, drop);
      var rest := WrongLater(Moved(h, Encode, size, drop), size, drop);
      Once(h, Encode, rest, size, drop);
      Once(g, ev, [Encode] + rest, size, drop);
      evs := [ev] + ([Encode] + rest);
    } else {
      Once(h, Encode, [], size, drop);
      Once(g, ev, [Encode] + [], size, drop);
      evs := [ev] + ([Encode] + []);
    }
  }

  lemma EncodeMoves(g: Ring, size: nat, drop: nat)
    requires Ready(g, size, drop)
    ensures Moved(g, Encode, size, drop) == Emptied(g, drop)
  {
  }

  /** Frames of `m` bytes in all that find room. */
  lemma {:induction false} Filled(g: Ring, m: nat, size: nat, drop: nat) returns (evs: seq<Move>, h: Ring)
    requires Ready(g, size, drop) && Marked(g, size) && g.w + m < |g.buf| && Aligned(m, size)
    requires m >= size ==> g.Occupancy() + m - size < (FRAME_OUTGOING_BUFFER_COUNT - 1) * size
    ensures FrameSized(evs, size) && h == Run(g, evs, size, drop) && Marked(h, size)
    ensures h.r == g.r && h.w == g.w + m && h.Occupancy() == g.Occupancy() + m
    decreases m
  {
    hide Run, Marked, Moved, Window;
    if m == 0 {
      Never(g, size, drop);
      evs, h := [], g;
    } else {
      var ev := Frame(Telling(g.w, size));
      FrameMarks(g, size, drop);
      var rest;
      rest, h := Filled(Moved(g, ev, size, drop), m - size, size, drop);
      Once(g, ev, rest, size, drop);
      evs := [ev] + rest;
    }
  }

  lemma Never(g: Ring, size: nat, drop: nat)
    requires Ready(g, size, drop)
    ensures Run(g, [], size, drop) == g && EncodesFront(g, [], size, drop)
  {
  }

  lemma {:induction false} FrontSplit(g: Ring, e: seq<Move>, f: seq<Move>, size: nat, drop: nat)
    requires Ready(g, size, drop) && FrameSized(e, size) && FrameSized(f, size)
    ensures FrameSized(e + f, size)
    ensures EncodesFront(g, e + f, size, drop) ==> EncodesFront(Run(g, e, size, drop), f, size, drop)
    decreases |e|
  {
    hide Moved, AllFront;
    if e == [] {
      assert e + f == f;
    } else {
      assert (e + f)[1..] == e[1..] + f;
      FrontSplit(Moved(g, e[0], size, drop), e[1..], f, size, drop);
    }
  }

  /** A block of almost the whole buffer never waits before a step is forced.  Every lap of 100 frames
      leaves a little more behind, until so much waits that the block can be encoded, at its end. */
  lemma {:induction false} WrongLap(g: Ring, size: nat, drop: nat) returns (evs: seq<Move>)
    requires Ready(g, size, drop) && Marked(g, size) && (FRAME_OUTGOING_BUFFER_COUNT - 1) * size < drop < |g.buf|
    requires g.w == 0 && g.Occupancy() < size
    ensures FrameSized(evs, size) && !EncodesFront(g, evs, size, drop)
    decreases size - g.Occupancy()
  {
    hide Run, EncodesFront, AllFront, Marked, Moved, Aligned, Window;
    AlignedProduct(FRAME_OUTGOING_BUFFER_COUNT - 1, size);
    var e, h := Filled(g, (FRAME_OUTGOING_BUFFER_COUNT - 1) * size, size, drop);
    if h.Occupancy() >= drop {
      WrongBlock(h, size, drop);
      Once(h, Encode, [], size, drop);
      evs := e + ([Encode] + []);
      FrontSplit(g, e, [Encode] + [], size, drop);
    } else {
      var ev := Frame(Telling(h.w, size));
      FrameMarks(h, size, drop);
      var rest := WrongLap(Moved(h, ev, size, drop), size, drop);
      Once(h, ev, rest, size, drop);
      FrontSplit(g, e, [ev] + rest, size, drop);
      evs := e + ([ev] + rest);
    }
  }

  /** Every block that the encoder is given in any run is the oldest one waiting exactly when the block
      is as long as the whole buffer, so that none is ever encoded. */
  lemma EncoderExact(g: Ring, size: nat, drop: nat)
    requires Opened(g, size, drop)
    ensures (forall evs | FrameSized(evs, size) :: EncodesFront(g, evs, size, drop)) <==> drop == |g.buf|
  {
    hide EncodesFront, AllFront, Run, Moved, Window, Aligned;
    if drop == |g.buf| {
      forall evs | FrameSized(evs, size) ensures EncodesFront(g, evs, size, drop) {
        NothingEncoded(g, evs, size, drop);
      }
    } else if drop <= (FRAME_OUTGOING_BUFFER_COUNT - 1) * size {
      var evs := WrongLater(g, size, drop);
    } else {
      var evs := WrongLap(g, size, drop);
    }
  }

  lemma {:induction false} NothingEncoded(g: Ring, evs: seq<Move>, size: nat, drop: nat)
    requires Ready(g, size, drop) && FrameSized(evs, size) && drop == |g.buf|
    ensures EncodesFront(g, evs, size, drop)
    decreases |evs|
  {
    hide Moved;
    if evs != [] {
      NothingEncoded(Moved(g, evs[0], size, drop), evs[1..], size, drop);
    }
  }
}
