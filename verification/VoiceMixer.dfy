/** Mixing: `Update` adds at most one block of every channel to the frame that `ReceiveFrame` hands
    out. */
module VoiceMixer {
  import opened Bytes
  import opened VoiceRing
  import opened IncomingVoice
  import opened MessageNumbers
  import opened Multiples
  import opened OutgoingVoice
  import opened VoiceChannels

  /** Sample `j` of the sum of the blocks. */
  function Mix(blocks: seq<seq<Byte>>, j: nat): int {
    if blocks == [] then 0 else Mix(blocks[..|blocks| - 1], j) + Sample(blocks[|blocks| - 1], j)
  }

  lemma {:induction false} MixOneMore(blocks: seq<seq<Byte>>, i: nat, block: seq<Byte>, j: nat)
    requires i < |blocks| && blocks[i] == []
    ensures Mix(blocks[i := block], j) == Mix(blocks, j) + Sample(block, j)
  {
    var n := |blocks| - 1;
    if i < n {
      MixOneMore(blocks[..n], i, block, j);
      assert blocks[i := block][..n] == blocks[..n][i := block];
    } else {
      assert blocks[i := block][..n] == blocks[..n];
    }
  }

  lemma {:induction false} MixSilence(blocks: seq<seq<Byte>>, j: nat)
    requires forall i | 0 <= i < |blocks| :: blocks[i] == []
    ensures Mix(blocks, j) == 0
  {
    if blocks != [] {
      MixSilence(blocks[..|blocks| - 1], j);
    }
  }

  /** `y` is the 16-bit sample nearest to `x`: less only if it is the largest, more only if the smallest. */
  predicate Nearest(y: int, x: int) {
    -32768 <= y <= 32767 && (y < x ==> y == 32767) && (y > x ==> y == -32768)
  }

  /** What the mixer sees of a channel: both of its rings, the number of its next packet, and its
      share of the present frame. */
  datatype Share = Share(receiving: Inbound, sending: Ring, number: nat, block: seq<Byte>)

  /** The share after the start of `Update`, which may begin a new frame. */
  function Begun(c: Share, newFrame: bool): Share {
    if newFrame then Share(c.receiving.(copied := false), c.sending, c.number, []) else c
  }

  /** What `Update` makes of a channel for the listener, said of the waiting bytes and the block it has in
      the frame: after a frame has been fetched (`fetched`) the block is begun anew, and a channel that
      has nothing in the frame yet adds up to one block from the front of its queue, unless output is
      held back and no more than two blocks are waiting. */
  predicate Heard(c: Share, fetched: bool, size: nat, d: Share) {
    && c.receiving.ring.Valid() && d.receiving.ring.Valid()
    && var q, done := c.receiving.ring.Queue(), c.receiving.copied && !fetched;
    var n := if done || (c.receiving.buffering && |q| <= 2 * size) then 0 else if |q| < size then |q| else size;
    && d.receiving.ring.Queue() == q[n..]
    && d.block == (if fetched then [] else c.block) + q[..n]
    && d.receiving.copied == (done || n > 0)
    && d.receiving.buffering == (n == 0 && (c.receiving.buffering || (!done && q == [])))
  }

  /** And what it makes of it for the sender: nothing unless it is due, and then every whole block leaves
      the queue and the number grows by the packets sent, modulo 65536. */
  predicate Spoken(c: Share, outBlock: nat, due: bool, sent: seq<Packet>, d: Share) {
    && c.sending.Valid() && d.sending.Valid() && outBlock > 0
    && (!due ==> sent == [] && d.sending == c.sending && d.number == c.number)
    && (due ==>
        && AllTaken(c.sending.Queue(), outBlock, d.sending.Queue()) && |sent| <= c.sending.Occupancy() / outBlock
        && d.number == (c.number + |sent|) % 0x1_0000)
  }

  lemma HeardMeans(c: Share, fetched: bool, size: nat, d: Share)
    requires var b := Begun(c, fetched);
             && Sound(b.receiving, size) && d.receiving == Step(b.receiving, Poll, size)
             && d.block == b.block + Out(b.receiving, Poll, size)
    ensures Heard(c, fetched, size, d)
  {
    hide Window, Aligned, Out, Step;
    PollMeans(Begun(c, fetched).receiving, size);
  }

  lemma SpokenMeans(c: Share, outBlock: nat, due: bool, speech: seq<Byte> -> bool, sent: seq<Packet>, d: Share)
    requires c.sending.Valid() && outBlock > 0
    requires if due then SentAll(c, outBlock, speech, sent, d)
             else sent == [] && d.sending == c.sending && d.number == c.number
    ensures Spoken(c, outBlock, due, sent, d)
  {
    hide Window, Drained, Packets, AllTaken;
    if due {
      var n := c.sending.Occupancy() / outBlock;
      DrainedMeans(c.sending, outBlock, n);
      PacketNumbers(c.sending, outBlock, n, c.number, speech);
    }
  }

  lemma ServedMeans(c: Share, fetched: bool, size: nat, outBlock: nat, due: bool, speech: seq<Byte> -> bool,
                    sent: seq<Packet>, d: Share)
    requires Served(Begun(c, fetched), size, outBlock, due, speech, sent, d) && c.sending.Valid() && outBlock > 0
    ensures Heard(c, fetched, size, d) && Spoken(c, outBlock, due, sent, d)
  {
    hide Sound, Out, Step, Heard, Spoken, Drained, Packets;
    HeardMeans(c, fetched, size, d);
    SpokenMeans(c, outBlock, due, speech, sent, d);
  }

  /** `d` is `c` after the rest of `Update`: when the channel is due, every whole block that waits to
      be sent is encoded; and a polled receiving queue adds what it gives out to the frame. */
  predicate Served(c: Share, size: nat, outBlock: nat, due: bool, speech: seq<Byte> -> bool, sent: seq<Packet>,
                   d: Share) {
    && Sound(c.receiving, size)
    && d.receiving == Step(c.receiving, Poll, size)
    && d.block == c.block + Out(c.receiving, Poll, size)
    && if due then SentAll(c, outBlock, speech, sent, d)
       else sent == [] && d.sending == c.sending && d.number == c.number
  }

  predicate SentAll(c: Share, outBlock: nat, speech: seq<Byte> -> bool, sent: seq<Packet>, d: Share) {
    && EncodedAll(c.sending, outBlock, c.number, speech, sent, d.sending)
    && d.number == Wrapped(c.number + |sent|)
  }

  /** A channel that still may contribute has contributed nothing, so what is taken from it now is
      its whole share of the frame. */
  lemma ContributesOnce(s: Inbound, blocks: seq<seq<Byte>>, i: nat, size: nat)
    requires Sound(s, size) && i < |blocks| && (!s.copied ==> blocks[i] == [])
    requires forall k | 0 <= k < |blocks| :: |blocks[k]| <= size
    ensures var taken := Out(s, Poll, size);
            && |blocks[i] + taken| <= size
            && (!Step(s, Poll, size).copied ==> blocks[i] + taken == [])
            && forall j: nat :: Mix(blocks[i := blocks[i] + taken], j) == Mix(blocks, j) + Sample(taken, j)
  {
    hide Window, Aligned;
    var taken := Out(s, Poll, size);
    forall j: nat ensures Mix(blocks[i := blocks[i] + taken], j) == Mix(blocks, j) + Sample(taken, j) {
      if taken == [] {
        assert blocks[i] + taken == blocks[i];
        assert blocks[i := blocks[i] + taken] == blocks;
      } else {
        assert blocks[i] + taken == taken;
        MixOneMore(blocks, i, taken, j);
      }
    }
  }

  ghost function Unshared(channel: VoiceChannel): Share
    reads channel, channel.incomingBuffer, channel.outgoingBuffer
  {
    Share(channel.Receiving(), channel.Sending(), channel.outgoingMessageNumber, [])
  }

  lemma ServedShare(c: Share, size: nat, outBlock: nat, due: bool, speech: seq<Byte> -> bool, sent: seq<Packet>,
                    d: Share, taken: seq<Byte>)
    requires Served(c.(block := []), size, outBlock, due, speech, sent, d.(block := taken))
    ensures Served(c, size, outBlock, due, speech, sent, d.(block := c.block + taken))
    ensures taken == Out(c.receiving, Poll, size) && d.receiving == Step(c.receiving, Poll, size)
  {
    hide Out, Step;
    assert [] + Out(c.receiving, Poll, size) == Out(c.receiving, Poll, size);
  }

  /** Sends what is waiting when the channel is due, and adds at most one block to the output. */
  method Serve(channel: VoiceChannel, bufferedOutput: array<int>, due: bool, speech: seq<Byte> -> bool)
    returns (sent: seq<Packet>, ghost taken: seq<Byte>)
    requires channel.Valid() && bufferedOutput.Length == channel.size / SAMPLESIZE
    modifies channel, bufferedOutput
    ensures channel.Valid()
    ensures Served(old(Unshared(channel)), channel.size, channel.OutBlock(), due, speech, sent,
                   Unshared(channel).(block := taken))
    ensures forall j | 0 <= j < bufferedOutput.Length :: bufferedOutput[j] == old(bufferedOutput[j]) + Sample(taken, j)
  {
    hide Window, Aligned, Sample, Drained, Packets, Out, Step;
    sent := [];
    if due {
      sent := channel.EncodeAvailable(speech);
    }
    taken := channel.AddToOutput(bufferedOutput);
    assert [] + taken == taken;
  }

  class RakVoice {
    const bufferSizeBytes: nat
    const bufferedOutput: array<int>
    const voiceChannels: seq<VoiceChannel>
    var zeroBufferedOutput: bool
    /** What every channel has contributed to the present frame. */
    ghost var blocks: seq<seq<Byte>>

    ghost predicate Separate()
      reads this
    {
      && (forall i, j | 0 <= i < j < |voiceChannels| :: voiceChannels[i] != voiceChannels[j])
      && (forall i | 0 <= i < |voiceChannels| ::
            voiceChannels[i].incomingBuffer as object != bufferedOutput &&
                voiceChannels[i].outgoingBuffer as object != bufferedOutput)
    }

    /** The frame is the sum of at most one block of every channel; a channel that has not been
        marked has contributed nothing. */
    ghost predicate Valid()
      reads this, bufferedOutput, voiceChannels
      reads set i | 0 <= i < |voiceChannels| :: voiceChannels[i].incomingBuffer
      reads set i | 0 <= i < |voiceChannels| :: voiceChannels[i].outgoingBuffer
    {
      && bufferSizeBytes > 0 && bufferedOutput.Length == bufferSizeBytes / SAMPLESIZE && Separate()
      && (forall i | 0 <= i < |voiceChannels| :: voiceChannels[i].Valid() && voiceChannels[i].size == bufferSizeBytes)
      && |blocks| == |voiceChannels|
      && (forall i | 0 <= i < |blocks| :: |blocks[i]| <= bufferSizeBytes)
      && (forall i | 0 <= i < |blocks| :: !voiceChannels[i].copiedOutgoingBufferToBufferedOutput ==> blocks[i] == [])
      && (forall j | 0 <= j < bufferedOutput.Length :: bufferedOutput[j] == Mix(blocks, j))
    }

    method ZeroOutput()
      modifies bufferedOutput
      ensures forall j | 0 <= j < bufferedOutput.Length :: bufferedOutput[j] == 0
    {
      var i := 0;
      while i < bufferedOutput.Length
        invariant 0 <= i <= bufferedOutput.Length
        invariant forall j | 0 <= j < i :: bufferedOutput[j] == 0
      {
        bufferedOutput[i] := 0;
        i := i + 1;
      }
    }

    /** `Init`, for channels that have been opened with the same block size. */
    constructor (newBufferSizeBytes: nat, channels: seq<VoiceChannel>)
      requires newBufferSizeBytes > 0
      requires forall i, j | 0 <= i < j < |channels| :: channels[i] != channels[j]
      requires forall i | 0 <= i < |channels| :: channels[i].Valid() && channels[i].size == newBufferSizeBytes
      ensures Valid() && fresh(bufferedOutput) && !zeroBufferedOutput
      ensures voiceChannels == channels && blocks == seq(|channels|, _ => [])
    {
      bufferSizeBytes, voiceChannels, zeroBufferedOutput := newBufferSizeBytes, channels, false;
      bufferedOutput := new int[newBufferSizeBytes / SAMPLESIZE];
      blocks := seq(|channels|, _ => []);
      new;
      ZeroOutput();
      forall j | 0 <= j < bufferedOutput.Length ensures bufferedOutput[j] == Mix(blocks, j) {
        MixSilence(blocks, j);
      }
    }

    method ClampInto(outputBuffer: array<int>)
      requires outputBuffer != bufferedOutput &&
                outputBuffer.Length >= bufferSizeBytes / SAMPLESIZE == bufferedOutput.Length
      modifies outputBuffer
      ensures forall j | 0 <= j < bufferSizeBytes / SAMPLESIZE :: Nearest(outputBuffer[j], bufferedOutput[j])
    {
      var i := 0;
      while i < bufferSizeBytes / SAMPLESIZE
        invariant 0 <= i <= bufferSizeBytes / SAMPLESIZE
        invariant forall j | 0 <= j < i :: Nearest(outputBuffer[j], bufferedOutput[j])
      {
        if bufferedOutput[i] > 32767 {
          outputBuffer[i] := 32767;
        } else if bufferedOutput[i] < -32768 {
          outputBuffer[i] := -32768;
        } else {
          outputBuffer[i] := bufferedOutput[i];
        }
        i := i + 1;
      }
    }

    /** `ReceiveFrame`: hands out the clamped frame and has it cleared by the next `Update`. */
    method ReceiveFrame(outputBuffer: array<int>)
      requires Valid() && outputBuffer != bufferedOutput && outputBuffer.Length >= bufferSizeBytes / SAMPLESIZE
      requires forall i | 0 <= i < |voiceChannels| ::
                 outputBuffer as object != voiceChannels[i].incomingBuffer &&
                     outputBuffer as object != voiceChannels[i].outgoingBuffer
      modifies outputBuffer, this`zeroBufferedOutput
      ensures Valid() && zeroBufferedOutput
      ensures forall j | 0 <= j < bufferSizeBytes / SAMPLESIZE ::
                var x, y := Mix(blocks, j), outputBuffer[j];
                && -32768 <= y <= 32767 && (-32768 <= x <= 32767 ==> y == x)
                && (x > 32767 ==> y == 32767) && (x < -32768 ==> y == -32768)
      ensures blocks == old(blocks)
    {
      hide Window, Aligned, Mix;
      ClampInto(outputBuffer);
      zeroBufferedOutput := true;
    }

    ghost function Channel(i: nat): Share
      requires i < |voiceChannels| && i < |blocks|
      reads this, voiceChannels[i], voiceChannels[i].incomingBuffer, voiceChannels[i].outgoingBuffer
    {
      Share(voiceChannels[i].Receiving(), voiceChannels[i].Sending(), voiceChannels[i].outgoingMessageNumber, blocks[i])
    }

    /** Lets every channel contribute again. */
    method ClearCopied()
      modifies (set c | c in voiceChannels)`copiedOutgoingBufferToBufferedOutput
      ensures forall i | 0 <= i < |voiceChannels| :: !voiceChannels[i].copiedOutgoingBufferToBufferedOutput
    {
      var i := 0;
      while i < |voiceChannels|
        invariant 0 <= i <= |voiceChannels|
        invariant forall k | 0 <= k < i :: !voiceChannels[k].copiedOutgoingBufferToBufferedOutput
      {
        voiceChannels[i].copiedOutgoingBufferToBufferedOutput := false;
        i := i + 1;
      }
    }

    /** The start of `Update`: once the frame has been fetched a new one begins, silent, to which
        every channel may contribute again. */
    method BeginFrame()
      requires Valid()
      modifies this`zeroBufferedOutput, this`blocks, bufferedOutput
      modifies (set c | c in voiceChannels)`copiedOutgoingBufferToBufferedOutput
      ensures Valid() && !zeroBufferedOutput
      ensures forall i | 0 <= i < |voiceChannels| :: Channel(i) == Begun(old(Channel(i)), old(zeroBufferedOutput))
      ensures old(zeroBufferedOutput) ==> forall i | 0 <= i < |voiceChannels| ::
                blocks[i] == [] && !voiceChannels[i].copiedOutgoingBufferToBufferedOutput
    {
      hide Window, Aligned;
      if zeroBufferedOutput {
        ZeroOutput();
        ClearCopied();
        zeroBufferedOutput := false;
        blocks := seq(|voiceChannels|, _ => []);
        forall j | 0 <= j < bufferedOutput.Length ensures bufferedOutput[j] == Mix(blocks, j) {
          MixSilence(blocks, j);
        }
      }
    }

    /** What `Update` does for one channel: sends what is waiting when it is due, and adds at most one
        block to the frame. */
    method VisitChannel(i: nat, due: bool, speech: seq<Byte> -> bool) returns (sent: seq<Packet>)
      requires Valid() && i < |voiceChannels|
      modifies this`blocks, bufferedOutput, voiceChannels[i]
      ensures Valid()
      ensures Served(old(Channel(i)), bufferSizeBytes, voiceChannels[i].OutBlock(), due, speech, sent, Channel(i))
      ensures forall k | 0 <= k < |blocks| && k != i :: blocks[k] == old(blocks[k])
    {
      hide Window, Aligned, Sample, Mix, Out, Step, Served;
      ghost var s := voiceChannels[i].Receiving();
      ghost var taken;
      sent, taken := Serve(voiceChannels[i], bufferedOutput, due, speech);
      ServedShare(old(Channel(i)), bufferSizeBytes, voiceChannels[i].OutBlock(), due, speech, sent,
                  Unshared(voiceChannels[i]), taken);
      ContributesOnce(s, blocks, i, bufferSizeBytes);
      blocks := blocks[i := blocks[i] + taken];
    }

    /** The loop of `Update` over the channels. */
    method ServeAll(due: seq<bool>, speech: seq<Byte> -> bool) returns (sent: seq<seq<Packet>>)
      requires Valid() && |due| == |voiceChannels|
      modifies this`blocks, bufferedOutput, voiceChannels
      ensures Valid() && |sent| == |voiceChannels|
      ensures forall i | 0 <= i < |voiceChannels| ::
                Served(old(Channel(i)), bufferSizeBytes, voiceChannels[i].OutBlock(), due[i], speech, sent[i],
                       Channel(i))
    {
      hide Window, Aligned, Mix, Served, Sound;
      sent := [];
      while |sent| < |voiceChannels|
        invariant |sent| <= |voiceChannels| && Valid()
        invariant forall k | |sent| <= k < |voiceChannels| :: Channel(k) == old(Channel(k))
        invariant forall k | 0 <= k < |sent| ::
                    Served(old(Channel(k)), bufferSizeBytes, voiceChannels[k].OutBlock(), due[k], speech, sent[k],
                           Channel(k))
      {
        label Before:
        var i := |sent|;
        var packets := VisitChannel(i, due[i], speech);
        assert forall k | 0 <= k < |voiceChannels| && k != i :: Channel(k) == old@Before(Channel(k));
        sent := sent + [packets];
      }
    }

    /** `Update`: `due[i]` tells whether the channel's last packets were sent long enough ago. */
    method Update(due: seq<bool>, speech: seq<Byte> -> bool) returns (sent: seq<seq<Packet>>)
      requires Valid() && |due| == |voiceChannels|
      modifies this`zeroBufferedOutput, this`blocks, bufferedOutput, voiceChannels
      ensures Valid() && !zeroBufferedOutput && |sent| == |voiceChannels|
      ensures forall i | 0 <= i < |voiceChannels| ::
                Served(Begun(old(Channel(i)), old(zeroBufferedOutput)), bufferSizeBytes, voiceChannels[i].OutBlock(),
                       due[i], speech, sent[i], Channel(i))
      ensures forall i | 0 <= i < |voiceChannels| ::
                Heard(old(Channel(i)), old(zeroBufferedOutput), bufferSizeBytes, Channel(i))
      ensures forall i | 0 <= i < |voiceChannels| ::
                Spoken(old(Channel(i)), voiceChannels[i].OutBlock(), due[i], sent[i], Channel(i))
    {
      hide Window, Aligned, Mix, Begun, Served, Sound, Heard, Spoken;
      BeginFrame();
      sent := ServeAll(due, speech);
      forall i | 0 <= i < |voiceChannels|
        ensures Heard(old(Channel(i)), old(zeroBufferedOutput), bufferSizeBytes, Channel(i))
        ensures Spoken(old(Channel(i)), voiceChannels[i].OutBlock(), due[i], sent[i], Channel(i))
      {
        ServedMeans(old(Channel(i)), old(zeroBufferedOutput), bufferSizeBytes, voiceChannels[i].OutBlock(), due[i],
                    speech, sent[i], Channel(i));
      }
    }

    /** How many bytes the first `n` channels have waiting to be sent, and to be played. */
    ghost function Waiting(n: nat): (total: (nat, nat))
      requires Valid() && n <= |voiceChannels|
      reads this, bufferedOutput, voiceChannels
      reads set i | 0 <= i < |voiceChannels| :: voiceChannels[i].incomingBuffer
      reads set i | 0 <= i < |voiceChannels| :: voiceChannels[i].outgoingBuffer
    {
      if n == 0 then (0, 0)
      else
        var c := voiceChannels[n - 1];
        (Waiting(n - 1).0 + |c.Sending().Queue()|, Waiting(n - 1).1 + |c.Receiving().ring.Queue()|)
    }

    /** `GetBufferedBytesToSend` for all channels. */
    method GetBufferedBytesToSend() returns (total: nat)
      requires Valid()
      ensures total == Waiting(|voiceChannels|).0
    {
      hide Window, Aligned, Mix, Sound;
      total := 0;
      var i := 0;
      while i < |voiceChannels|
        invariant 0 <= i <= |voiceChannels| && total == Waiting(i).0
      {
        var n := voiceChannels[i].GetBufferedBytesToSend();
        total := total + n;
        i := i + 1;
      }
    }

    /** `GetBufferedBytesToReturn` for all channels. */
    method GetBufferedBytesToReturn() returns (total: nat)
      requires Valid()
      ensures total == Waiting(|voiceChannels|).1
    {
      hide Window, Aligned, Mix, Sound;
      total := 0;
      var i := 0;
      while i < |voiceChannels|
        invariant 0 <= i <= |voiceChannels| && total == Waiting(i).1
      {
        var n := voiceChannels[i].GetBufferedBytesToReturn();
        total := total + n;
        i := i + 1;
      }
    }
  }
}
