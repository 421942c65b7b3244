/** One voice channel of `RakVoice`: both circular buffers, their indices, flags and message
    numbers, and the methods that change them. */
module VoiceChannels {
  import opened Bytes
  import opened VoiceRing
  import opened IncomingVoice
  import opened MessageNumbers
  import opened Multiples
  import opened OutgoingVoice
  import IncomingRuns
  import OutgoingRuns

  const SAMPLESIZE: nat := 2

  /** The 16-bit sample number `j` of a block. */
  function Sample(block: seq<Byte>, j: nat): int {
    if 2 * j + 1 < |block| then
      var x := block[2 * j] as int + 256 * (block[2 * j + 1] as int);
      if x < 0x8000 then x else x - 0x1_0000
    else 0
  }

  /** A sample is the number from -32768 to 32767 that has these 16 bits, the low byte first; there is
      silence behind the end of the block. */
  lemma SampleMeans(block: seq<Byte>, j: nat, x: int)
    requires -0x8000 <= x < 0x8000
    ensures 2 * j + 1 < |block| ==>
              (Sample(block, j) == x <==> x % 0x1_0000 == (block[2 * j] as int) + 0x100 * (block[2 * j + 1] as int))
    ensures 2 * j + 1 >= |block| ==> Sample(block, j) == 0
  {
  }

  /** `buffer` after a block has been written in one or two pieces. */
  lemma WrittenInPlace(before: seq<Byte>, after: seq<Byte>, w: nat, data: seq<Byte>)
    requires w < |before| == |after| && |data| <= |before|
    requires forall k {:trigger after[k]} | 0 <= k < |before| ::
               after[k] == if w <= k < w + |data| then data[k - w]
                           else if k + |before| < w + |data| then data[k] else before[k]
    ensures after == Overwritten(before, w, Stored(data, w, |before|))
  {
    var p := Stored(data, w, |before|);
    forall k | 0 <= k < |before| ensures after[k] == Overwritten(before, w, p)[k] {
      if w <= k < w + |data| {
        assert Overwritten(before, w, p)[k] == p[k - w] == data[k - w];
      } else if k + |before| < w + |data| {
        assert p == data[..|before| - w] + data[..|data| - (|before| - w)];
        assert p[k + |before| - w] == data[..|data| - (|before| - w)][k] == data[k];
      }
    }
  }

  class VoiceChannel {
    /** bufferSizeBytes of the `RakVoice` the channel belongs to. */
    const size: nat
    const speexIncomingFrameSampleCount: nat
    const speexOutgoingFrameSampleCount: nat
    const incomingBuffer: array<Byte>
    const outgoingBuffer: array<Byte>
    var incomingReadIndex: nat
    var incomingWriteIndex: nat
    var outgoingReadIndex: nat
    var outgoingWriteIndex: nat
    var isSendingVoiceData: bool
    var bufferOutput: bool
    var copiedOutgoingBufferToBufferedOutput: bool
    var outgoingMessageNumber: nat
    var incomingMessageNumber: nat

    function InBlock(): nat { speexIncomingFrameSampleCount * SAMPLESIZE }

    function OutBlock(): nat { speexOutgoingFrameSampleCount * SAMPLESIZE }

    ghost function Receiving(): Inbound
      reads this, incomingBuffer
    {
      Inbound(Ring(incomingBuffer[..], incomingReadIndex, incomingWriteIndex), bufferOutput,
              copiedOutgoingBufferToBufferedOutput)
    }

    ghost function Sending(): Ring
      reads this, outgoingBuffer
    {
      Ring(outgoingBuffer[..], outgoingReadIndex, outgoingWriteIndex)
    }

    ghost predicate Valid()
      reads this, incomingBuffer, outgoingBuffer
    {
      && incomingBuffer != outgoingBuffer
      && Sound(Receiving(), size)
      && Sending().Valid() && outgoingBuffer.Length == FRAME_OUTGOING_BUFFER_COUNT * size &&
          Aligned(outgoingWriteIndex, size)
      && 0 < InBlock() <= incomingBuffer.Length && 0 < OutBlock() <= outgoingBuffer.Length
      && incomingMessageNumber < NUMBERS && outgoingMessageNumber < NUMBERS
    }

    /** `OpenChannel`. */
    constructor (bufferSizeBytes: nat, incomingSamples: nat, outgoingSamples: nat)
      requires bufferSizeBytes > 0
      requires 0 < incomingSamples * SAMPLESIZE <= FRAME_INCOMING_BUFFER_COUNT * bufferSizeBytes
      requires 0 < outgoingSamples * SAMPLESIZE <= FRAME_OUTGOING_BUFFER_COUNT * bufferSizeBytes
      ensures Valid() && fresh(incomingBuffer) && fresh(outgoingBuffer)
      ensures size == bufferSizeBytes && InBlock() == incomingSamples * SAMPLESIZE &&
                OutBlock() == outgoingSamples * SAMPLESIZE
      ensures IncomingRuns.Opened(Receiving(), size) && OutgoingRuns.Opened(Sending(), size, OutBlock())
      ensures Receiving().ring.Queue() == [] && Sending().Queue() == []
      ensures incomingMessageNumber == outgoingMessageNumber == 0 && !isSendingVoiceData
    {
      size, speexIncomingFrameSampleCount, speexOutgoingFrameSampleCount := bufferSizeBytes, incomingSamples,
          outgoingSamples;
      incomingBuffer := new Byte[FRAME_INCOMING_BUFFER_COUNT * bufferSizeBytes];
      outgoingBuffer := new Byte[FRAME_OUTGOING_BUFFER_COUNT * bufferSizeBytes];
      incomingReadIndex, incomingWriteIndex, outgoingReadIndex, outgoingWriteIndex := 0, 0, 0, 0;
      isSendingVoiceData, bufferOutput, copiedOutgoingBufferToBufferedOutput := false, true, false;
      outgoingMessageNumber, incomingMessageNumber := 0, 0;
    }

    /** `GetBufferedBytesToReturn` for one channel. */
    method GetBufferedBytesToReturn() returns (n: nat)
      requires Valid()
      ensures n == |Receiving().ring.Queue()|
    {
      var totalBufferSize := size * FRAME_OUTGOING_BUFFER_COUNT;
      if incomingReadIndex <= incomingWriteIndex {
        n := incomingWriteIndex - incomingReadIndex;
      } else {
        n := totalBufferSize - incomingReadIndex + incomingWriteIndex;
      }
    }

    /** `GetBufferedBytesToSend` for one channel. */
    method GetBufferedBytesToSend() returns (n: nat)
      requires Valid()
      ensures n == |Sending().Queue()|
    {
      var totalBufferSize := size * FRAME_OUTGOING_BUFFER_COUNT;
      if outgoingWriteIndex >= outgoingReadIndex {
        n := outgoingWriteIndex - outgoingReadIndex;
      } else {
        n := outgoingWriteIndex + (totalBufferSize - outgoingReadIndex);
      }
    }

    /** Copies a block into the incoming buffer; both pieces of a block that goes round the end are
        copied from the beginning of the data. */
    method CopyIn(data: seq<Byte>)
      requires Valid() && |data| == InBlock()
      modifies incomingBuffer
      ensures incomingBuffer[..] == Overwritten(old(incomingBuffer[..]), incomingWriteIndex,
                                                Stored(data, incomingWriteIndex, incomingBuffer.Length))
    {
      var total, w, n := incomingBuffer.Length, incomingWriteIndex, |data|;
      ghost var before := incomingBuffer[..];
      if w + n <= total {
        forall k | 0 <= k < n {
          incomingBuffer[w + k] := data[k];
        }
      } else {
        forall k | 0 <= k < total - w {
          incomingBuffer[w + k] := data[k];
        }
        forall k | 0 <= k < n - (total - w) {
          incomingBuffer[k] := data[k];
        }
      }
      WrittenInPlace(before, incomingBuffer[..], w, data);
    }

    /** `WriteOutputToChannel`. */
    method WriteOutputToChannel(data: seq<Byte>)
      requires Valid() && |data| == InBlock()
      modifies this`incomingReadIndex, this`incomingWriteIndex, incomingBuffer
      ensures Valid()
      ensures Receiving() == Step(old(Receiving()), Arrive(data), size)
      ensures |data| <= size ==>
                Arrived(old(Receiving().ring.Queue()), old(incomingWriteIndex), incomingBuffer.Length, data, size,
                        Receiving().ring.Queue())
      ensures Sending() == old(Sending())
    {
      hide Overwritten, Stored, Window, Aligned, Arrived, Step;
      ArrivalWritten(Receiving(), data, size);
      var totalBufferSize := incomingBuffer.Length;
      var remainingBufferSize :=
        if incomingWriteIndex >= incomingReadIndex then totalBufferSize - (incomingWriteIndex - incomingReadIndex)
        else incomingReadIndex - incomingWriteIndex;
      var speexBlockSize := InBlock();
      CopyIn(data);
      incomingWriteIndex := (incomingWriteIndex + speexBlockSize) % totalBufferSize;
      if size >= remainingBufferSize {
        incomingReadIndex := incomingReadIndex + size;
        if incomingReadIndex == totalBufferSize {
          incomingReadIndex := 0;
        }
      }
    }

    /** The part of `OnVoiceData` that follows the decoding of the packet. */
    method OnVoiceData(packetMessageNumber: nat, decoded: seq<Byte>) returns (accepted: bool)
      requires Valid() && packetMessageNumber < NUMBERS && |decoded| == InBlock()
      modifies this`incomingMessageNumber, this`incomingReadIndex, this`incomingWriteIndex, incomingBuffer
      ensures Valid() && Sending() == old(Sending())
      ensures accepted == Accepts(old(incomingMessageNumber), packetMessageNumber)
      ensures incomingMessageNumber == if accepted then Wrapped(packetMessageNumber + 1) else old(incomingMessageNumber)
      ensures Receiving() == if accepted then Step(old(Receiving()), Arrive(decoded), size) else old(Receiving())
      ensures accepted <==> (packetMessageNumber - old(incomingMessageNumber)) % 0x1_0000 < 0x8000
      ensures accepted ==> incomingMessageNumber == (packetMessageNumber + 1) % 0x1_0000
    {
      var messagesSkipped := Wrapped(packetMessageNumber - incomingMessageNumber);
      if messagesSkipped > 0xffff / 2 {
        return false;
      }
      incomingMessageNumber := Wrapped(packetMessageNumber + 1);
      WriteOutputToChannel(decoded);
      accepted := true;
    }

    method CopyOut(input: seq<Byte>)
      requires Valid() && |input| == size && outgoingWriteIndex + size <= outgoingBuffer.Length
      modifies outgoingBuffer
      ensures outgoingBuffer[..] == Overwritten(old(outgoingBuffer[..]), outgoingWriteIndex, input)
    {
      var w := outgoingWriteIndex;
      ghost var before := outgoingBuffer[..];
      forall k | 0 <= k < size {
        outgoingBuffer[w + k] := input[k];
      }
      WrittenInPlace(before, outgoingBuffer[..], w, input);
    }

    /** `SendFrame`. */
    method SendFrame(input: seq<Byte>)
      requires Valid() && |input| == size
      modifies this`outgoingReadIndex, this`outgoingWriteIndex, outgoingBuffer
      ensures Valid() && Receiving() == old(Receiving())
      ensures Sending() == Write(old(Sending()), input, size, OutBlock())
      ensures size <= OutBlock() ==>
                Sending().Queue() == Pushed(old(Sending().Queue()), input, outgoingBuffer.Length, size, OutBlock())
      ensures size <= OutBlock() ==>
                var q := old(Sending().Queue());
                Sending().Queue() == if |q| >= 99 * size then (q + input)[OutBlock()..] else q + input
    {
      hide Overwritten, Stored, Window, Aligned, Pushed, Sound, Write;
      ghost var g := Sending();
      FrameWritten(g, input, size, OutBlock());
      PushedMeans(g.Queue(), input, size, OutBlock());
      var totalBufferSize := outgoingBuffer.Length;
      var remainingBufferSize :=
        if outgoingWriteIndex >= outgoingReadIndex then totalBufferSize - (outgoingWriteIndex - outgoingReadIndex)
        else outgoingReadIndex - outgoingWriteIndex;
      CopyOut(input);
      outgoingWriteIndex := outgoingWriteIndex + size;
      if outgoingWriteIndex == totalBufferSize {
        outgoingWriteIndex := 0;
      }
      if size >= remainingBufferSize {
        outgoingReadIndex := (outgoingReadIndex + OutBlock()) % totalBufferSize;
      }
    }

    /** Encodes the block at the read index; the input is taken from the beginning of the buffer when
        the block would reach its end. */
    method EncodeOne(speech: seq<Byte> -> bool) returns (sent: seq<Packet>)
      requires Valid() && OutBlock() <= Sending().Occupancy()
      modifies this`outgoingReadIndex, this`outgoingMessageNumber, this`isSendingVoiceData
      ensures Valid() && Receiving() == old(Receiving())
      ensures Sending() == Advance(old(Sending()), OutBlock())
      ensures Sending().Queue() == old(Sending().Queue())[OutBlock()..]
      ensures var block := EncoderInput(old(Sending()).buf, old(Sending()).r, OutBlock());
              sent == if speech(block) then [Packet(old(outgoingMessageNumber), block)] else []
      ensures outgoingMessageNumber == Wrapped(old(outgoingMessageNumber) + |sent|)
      ensures isSendingVoiceData == (old(isSendingVoiceData) || sent != [])
    {
      hide Aligned, Window, Wrapped;
      AdvanceRefines(Sending(), OutBlock());
      sent := [];
      var totalBufferSize, speexBlockSize := outgoingBuffer.Length, OutBlock();
      WrappedSmall(outgoingMessageNumber);
      var inputBuffer :=
        if outgoingReadIndex + speexBlockSize >= totalBufferSize then outgoingBuffer[..speexBlockSize]
        else outgoingBuffer[outgoingReadIndex..outgoingReadIndex + speexBlockSize];
      WrapIsRemainder(outgoingReadIndex + speexBlockSize, totalBufferSize);
      outgoingReadIndex := (outgoingReadIndex + speexBlockSize) % totalBufferSize;
      if speech(inputBuffer) {
        isSendingVoiceData := true;
        sent := [Packet(outgoingMessageNumber, inputBuffer)];
        outgoingMessageNumber := Wrapped(outgoingMessageNumber + 1);
      }
    }

    /** The sending part of `Update`: encodes all whole blocks that are waiting and sends those in
        which speech is found.  `speech` stands for the voice detection of the encoder. */
    method EncodeAvailable(speech: seq<Byte> -> bool) returns (sent: seq<Packet>)
      requires Valid()
      modifies this`outgoingReadIndex, this`outgoingMessageNumber, this`isSendingVoiceData
      ensures Valid() && Receiving() == old(Receiving())
      ensures EncodedAll(old(Sending()), OutBlock(), old(outgoingMessageNumber), speech, sent, Sending())
      ensures outgoingMessageNumber == Wrapped(old(outgoingMessageNumber) + |sent|)
      ensures isSendingVoiceData == (sent != [])
      ensures AllTaken(old(Sending().Queue()), OutBlock(), Sending().Queue())
    {
      hide AllTaken, EncodedAll, EncodedSoFar, Drained, Packets, Advance, EncoderInput, Wrapped, Window, Aligned;
      isSendingVoiceData := false;
      var bytesAvailable := GetBufferedBytesToSend();
      var frames := bytesAvailable / OutBlock();
      ghost var g, number, n, size := Sending(), outgoingMessageNumber, frames, OutBlock();
      sent := [];
      EncodedStart(g, size, n, number, speech);
      while frames > 0
        invariant 0 <= frames && Valid() && Receiving() == old(Receiving())
        invariant EncodedSoFar(g, size, n, number, speech, sent, frames, Sending(), outgoingMessageNumber)
        invariant isSendingVoiceData == (sent != [])
      {
        EncodedStep(g, size, n, number, speech, sent, frames, Sending(), outgoingMessageNumber);
        var one := EncodeOne(speech);
        sent := sent + one;
        frames := frames - 1;
      }
      EncodedEnd(g, size, n, number, speech, sent, Sending(), outgoingMessageNumber);
    }

    method AddSamples(bufferedOutput: array<int>, bytes: nat)
      requires Valid() && bufferedOutput.Length == size / SAMPLESIZE && bytes <= size
      requires incomingReadIndex + bytes <= incomingBuffer.Length
      modifies bufferedOutput
      ensures forall j | 0 <= j < bufferedOutput.Length ::
                bufferedOutput[j] == old(bufferedOutput[j])
                    + Sample(incomingBuffer[incomingReadIndex..incomingReadIndex + bytes], j)
    {
      ghost var block := incomingBuffer[incomingReadIndex..incomingReadIndex + bytes];
      var j := 0;
      while j < bytes / SAMPLESIZE
        invariant 0 <= j <= bytes / SAMPLESIZE
        invariant forall k | 0 <= k < bufferedOutput.Length ::
                    bufferedOutput[k] == old(bufferedOutput[k]) + if k < j then Sample(block, k) else 0
      {
        var x := incomingBuffer[incomingReadIndex + 2 * j] as int
            + 256 * (incomingBuffer[incomingReadIndex + 2 * j + 1] as int);
        bufferedOutput[j] := bufferedOutput[j] + if x < 0x8000 then x else x - 0x1_0000;
        j := j + 1;
      }
    }

    /** Takes up to one block.  When no more than that is waiting, the write index is moved so that
        the queue is empty afterwards and the rest of the frame stays silent. */
    method TakeBlock(bufferedOutput: array<int>, waiting: nat) returns (ghost taken: seq<Byte>)
      requires Valid() && bufferedOutput.Length == size / SAMPLESIZE
      requires waiting == Receiving().ring.Occupancy() && Takes(Receiving(), size)
      modifies this`bufferOutput, this`copiedOutgoingBufferToBufferedOutput, this`incomingReadIndex,
          this`incomingWriteIndex, bufferedOutput
      ensures Valid() && Sending() == old(Sending())
      ensures Receiving() == Step(old(Receiving()), Poll, size)
      ensures taken == Out(old(Receiving()), Poll, size)
      ensures forall j | 0 <= j < bufferedOutput.Length ::
                bufferedOutput[j] == old(bufferedOutput[j]) + Sample(taken, j)
    {
      hide Window, Aligned, Sample;
      ghost var s := Receiving();
      var totalBufferSize := incomingBuffer.Length;
      AlignedNext(incomingReadIndex, size, FRAME_INCOMING_BUFFER_COUNT);
      TakeRefines(s.ring, size);
      StepIsFifo(s, Poll, size);
      copiedOutgoingBufferToBufferedOutput := true;
      bufferOutput := false;
      var bytesWaitingToReturn := waiting;
      if bytesWaitingToReturn > size {
        bytesWaitingToReturn := size;
      }
      AddSamples(bufferedOutput, bytesWaitingToReturn);
      taken := incomingBuffer[incomingReadIndex..incomingReadIndex + bytesWaitingToReturn];
      if waiting <= size {
        incomingWriteIndex := incomingReadIndex + size;
        if incomingWriteIndex == totalBufferSize {
          incomingWriteIndex := 0;
        }
      }
      incomingReadIndex := incomingReadIndex + size;
      if incomingReadIndex == totalBufferSize {
        incomingReadIndex := 0;
      }
    }

    /** The receiving part of `Update`: adds the samples of at most one block to the output. */
    method AddToOutput(bufferedOutput: array<int>) returns (ghost taken: seq<Byte>)
      requires Valid() && bufferedOutput.Length == size / SAMPLESIZE
      modifies this`bufferOutput, this`copiedOutgoingBufferToBufferedOutput, this`incomingReadIndex,
          this`incomingWriteIndex, bufferedOutput
      ensures Valid() && Sending() == old(Sending())
      ensures Receiving() == Step(old(Receiving()), Poll, size)
      ensures taken == Out(old(Receiving()), Poll, size)
      ensures var q := old(Receiving().ring.Queue());
              var n := if old(copiedOutgoingBufferToBufferedOutput) || (old(bufferOutput) && |q| <= 2 * size) then 0
                       else if |q| < size then |q| else size;
              && taken == q[..n] && Receiving().ring.Queue() == q[n..]
              && copiedOutgoingBufferToBufferedOutput == (old(copiedOutgoingBufferToBufferedOutput) || n > 0)
              && bufferOutput ==
                  (n == 0 && (old(bufferOutput) || (!old(copiedOutgoingBufferToBufferedOutput) && q == [])))
      ensures forall j | 0 <= j < bufferedOutput.Length ::
                bufferedOutput[j] == old(bufferedOutput[j]) + Sample(taken, j)
    {
      hide Window, Aligned, Take;
      PollMeans(Receiving(), size);
      taken := [];
      if !copiedOutgoingBufferToBufferedOutput {
        var bytesWaitingToReturn := GetBufferedBytesToReturn();
        if bytesWaitingToReturn == 0 {
          bufferOutput := true;
        } else if !bufferOutput || bytesWaitingToReturn > size * 2 {
          taken := TakeBlock(bufferedOutput, bytesWaitingToReturn);
        }
      }
    }
  }
}
