/** Both ends of a voice link: the packets of a whole run of the sender, carried by a network that may
    lose, repeat and reorder them, and the test by which the receiver decides what to play. */
module VoiceLink {
  import opened Bytes
  import opened VoiceRing
  import opened MessageNumbers
  import opened OutgoingVoice
  import opened OutgoingRuns

  // ---------------------------------------------------------------- the sender

  /** The packets made of all whole blocks that are waiting. */
  function BlockPackets(g: Ring, drop: nat, number: nat, speech: seq<Byte> -> bool): seq<Packet>
    requires g.Valid() && drop > 0 && number < NUMBERS
    decreases g.Occupancy()
  {
    if g.Occupancy() < drop then []
    else
      OneBlock(g, drop);
      var block := EncoderInput(g.buf, g.r, drop);
      if speech(block) then [Packet(number, block)] + BlockPackets(Advance(g, drop), drop, Wrapped(number + 1), speech)
      else BlockPackets(Advance(g, drop), drop, number, speech)
  }

  /** They are the packets of as many blocks as fit into the occupancy. */
  lemma {:induction false} BlockPacketsAre(g: Ring, drop: nat, n: nat, number: nat, speech: seq<Byte> -> bool)
    requires g.Valid() && drop > 0 && number < NUMBERS && n * drop <= g.Occupancy() < n * drop + drop
    ensures BlockPackets(g, drop, number, speech) == Packets(g, drop, n, number, speech)
    decreases n
  {
    hide EncoderInput, Wrapped, Window;
    if n > 0 {
      DrainOne(g, drop, n);
      WrappedSmall(number);
      BlockPacketsAre(Advance(g, drop), drop, n - 1, number, speech);
      BlockPacketsAre(Advance(g, drop), drop, n - 1, Wrapped(number + 1), speech);
    }
  }

  lemma {:induction false} BlocksNumbered(g: Ring, drop: nat, number: nat, speech: seq<Byte> -> bool)
    requires g.Valid() && drop > 0 && number < NUMBERS
    ensures Numbered(BlockPackets(g, drop, number, speech), number)
    decreases g.Occupancy()
  {
    hide EncoderInput, Wrapped, Numbered, Advance, Window;
    if g.Occupancy() < drop {
      NoneNumbered(number);
    } else {
      OneBlock(g, drop);
      WrappedSmall(number);
      var h := Advance(g, drop);
      var block := EncoderInput(g.buf, g.r, drop);
      if speech(block) {
        BlocksNumbered(h, drop, Wrapped(number + 1), speech);
        NumberedFront(Packet(number, block), BlockPackets(h, drop, Wrapped(number + 1), speech), number);
      } else {
        BlocksNumbered(h, drop, number, speech);
      }
    }
  }

  lemma NoneNumbered(number: nat)
    ensures Numbered([], number)
  {
  }

  /** The packets of a whole run of frames and encoding; the next number is kept from one encoding to the
      next. */
  ghost function AllPackets(g: Ring, evs: seq<Move>, size: nat, drop: nat, number: nat, speech: seq<Byte> -> bool)
    : seq<Packet>
    requires Ready(g, size, drop) && FrameSized(evs, size) && number < NUMBERS
    decreases |evs|
  {
    if evs == [] then []
    else
      var now := if evs[0].Encode? then BlockPackets(g, drop, number, speech) else [];
      now + AllPackets(Moved(g, evs[0], size, drop), evs[1..], size, drop, Wrapped(number + |now|), speech)
  }

  lemma NumberedJoin(p: seq<Packet>, q: seq<Packet>, number: nat)
    requires Numbered(p, number) && Numbered(q, Wrapped(number + |p|))
    ensures Numbered(p + q, number)
  {
    forall k | 0 <= k < |p + q| ensures (p + q)[k].number == Wrapped(number + k) {
      if k >= |p| {
        WrappedSum(number + |p|, k - |p|);
      }
    }
  }

  /** The packets of every run are numbered consecutively modulo 65536. */
  lemma {:induction false} AllNumbered(g: Ring, evs: seq<Move>, size: nat, drop: nat, number: nat,
                                       speech: seq<Byte> -> bool)
    requires Ready(g, size, drop) && FrameSized(evs, size) && number < NUMBERS
    ensures Numbered(AllPackets(g, evs, size, drop, number, speech), number)
    decreases |evs|
  {
    hide BlockPackets, Moved, Numbered, Wrapped;
    if evs == [] {
      NoneNumbered(number);
    } else {
      var now := if evs[0].Encode? then BlockPackets(g, drop, number, speech) else [];
      if evs[0].Encode? {
        BlocksNumbered(g, drop, number, speech);
      } else {
        NoneNumbered(number);
      }
      var h := Moved(g, evs[0], size, drop);
      AllNumbered(h, evs[1..], size, drop, Wrapped(number + |now|), speech);
      NumberedJoin(now, AllPackets(h, evs[1..], size, drop, Wrapped(number + |now|), speech), number);
    }
  }

  // ---------------------------------------------------------------- the network and the receiver

  /** The network delivers the packets `order[0]`, `order[1]`, and so on of those that were sent. */
  predicate Delivers(sent: seq<Packet>, order: seq<int>) {
    forall j | 0 <= j < |order| :: 0 <= order[j] < |sent|
  }

  function Arrivals(sent: seq<Packet>, order: seq<int>): (arrivals: seq<Packet>)
    requires Delivers(sent, order)
    ensures |arrivals| == |order|
  {
    seq(|order|, j requires 0 <= j < |order| => sent[order[j]])
  }

  /** The packets that `OnVoiceData` plays, one arrival after the other. */
  function Played(expected: nat, arrivals: seq<Packet>): seq<Packet>
    requires expected < NUMBERS && forall j | 0 <= j < |arrivals| :: arrivals[j].number < NUMBERS
    decreases |arrivals|
  {
    if arrivals == [] then []
    else if Accepts(expected, arrivals[0].number) then
      [arrivals[0]] + Played(Wrapped(arrivals[0].number + 1), arrivals[1..])
    else Played(expected, arrivals[1..])
  }

  /** What is played is what the messages of these numbers would be let through for. */
  lemma {:induction false} PlayedByNumber(sent: seq<Packet>, order: seq<int>, expected: nat)
    requires Numbered(sent, 0) && Delivers(sent, order) && expected < NUMBERS
    ensures forall j | 0 <= j < |order| :: Arrivals(sent, order)[j].number == Wrapped(order[j])
    ensures Delivers(sent, Receive(expected, order).accepted)
    ensures Played(expected, Arrivals(sent, order)) == Arrivals(sent, Receive(expected, order).accepted)
    decreases |order|
  {
    if order != [] {
      var rest := Arrivals(sent, order)[1..];
      assert rest == Arrivals(sent, order[1..]);
      var next := if Accepts(expected, Wrapped(order[0])) then Wrapped(Wrapped(order[0]) + 1) else expected;
      PlayedByNumber(sent, order[1..], next);
    }
  }

  /** Whatever the network loses, repeats or reorders, as long as no packet is more than half the numbers
      away from what is expected when it arrives: the blocks that are played are among those that were
      sent, in the order in which they were sent, none of them twice; and a block is played exactly when
      its packet arrives before every later one. */
  lemma PlayedInOrder(g: Ring, evs: seq<Move>, size: nat, drop: nat, speech: seq<Byte> -> bool, order: seq<int>)
    returns (played: seq<int>)
    requires Opened(g, size, drop) && FrameSized(evs, size)
    requires Delivers(AllPackets(g, evs, size, drop, 0, speech), order) && InWindow(0, order)
    ensures var sent := AllPackets(g, evs, size, drop, 0, speech);
            && Numbered(sent, 0) && Delivers(sent, played)
            && (forall j | 0 <= j < |order| :: Arrivals(sent, order)[j].number < NUMBERS)
            && Played(0, Arrivals(sent, order)) == Arrivals(sent, played)
    ensures forall j, k | 0 <= j < k < |played| :: played[j] < played[k]
    ensures forall n: nat :: n in played <==> ArrivesFirst(order, n)
  {
    hide AllPackets, Played, Receive, Moved, Wrapped, ArrivesFirst, Ideal;
    AllNumbered(g, evs, size, drop, 0, speech);
    PlayedByNumber(AllPackets(g, evs, size, drop, 0, speech), order, 0);
    WrappedSmall(0);
    ReceiveIsIdeal(0, order);
    IdealIncreases(0, order);
    played := Ideal(0, order).accepted;
    forall n: nat ensures n in played <==> ArrivesFirst(order, n) {
      IdealLatest(0, order, n);
    }
  }
}
