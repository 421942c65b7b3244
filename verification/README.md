# SLikeNet: patches, voice buffers and patch slots

This project models three parts of SLikeNet's dependent extensions and proves what they promise.

**The binary patch maker and applier** (`CreatePatch.cpp`, `ApplyPatch.cpp`). `Qsufsort` sorts the
suffixes of the old file in place, as the original does: 256 buckets, then passes of `Split` over the
arrays `I` and `V` in which sorted stretches are overwritten by negative run lengths. A ghost
permutation says which suffix belongs where. `Search` bisects the suffix array. `CreatePatch` scans the
new file, extends each match forwards and backwards, cuts the overlap, and writes control triples, a
diff stream and an extra stream; `ApplyPatch` replays them. The main results are that the sort yields
the suffix array for every text, that each extent is the shortest of the best, that every round of the
scan makes progress, and that applying a created patch brings back the new file and consumes all three
streams exactly as far as 32-bit sizes allow. `ScanRuns` says of the bytes of the two files, counted as
sets, where every round of a scan stops and what every triple leads to: the bytes of the match that has
been found. `PatchMeaning` says of any file, created or not, what applying it as a patch gives. Nothing
limits the contents of the files.

**The voice channels** (`RakVoice.cpp`). Two circular buffers per channel, read and written in blocks of
different sizes, are proved to behave like queues; the 16-bit message numbers are proved to be enough
within a window; the mixed frame is proved to be the clamped sum of at most one block per channel.
`Playback` says when a channel is heard, over whole runs and in numbers of waiting bytes.

**The autopatcher server** (`AutopatcherServer.cpp`). Requests wait, are queued, worked on and
transferred. `PatchSlots` gives the steps of this protocol, each of which may come between any two
others; the class `AutopatcherServer` performs them on the lists and queues of the original. The results
hold in every reachable state: slots match outstanding work, the limit holds, no request is lost or waits
for nothing, and an answer from the cache is all or nothing.

## Files

| file | content |
|---|---|
| `Bytes`, `Options` | bytes and their two orders, optional values |
| `Suffixes`, `Reordering` | the order of suffixes; permutations of array ranges |
| `SuffixSort`, `BucketSort`, `Qsufsort` | the refinement invariant and `split`; the buckets; the passes |
| `Search`, `ScanLoop`, `Extents` | the bisection; the scan for the next match; the three optimal choices |
| `OffsetCodec`, `PatchFormat` | the 8-byte numbers; triples, streams and the file |
| `CreatePatch`, `ApplyPatch`, `RoundTrip` | making a patch, replaying it, and the one after the other |
| `ScanRuns`, `PatchMeaning` | what a scan amounts to in bytes; what any patch says |
| `VoiceRing`, `Multiples`, `MessageNumbers` | rings as queues; multiples of a block; wrapping numbers |
| `IncomingVoice`, `IncomingRuns` | the receiving side as a machine, and what the block sizes decide about its runs |
| `Playback` | when a receiving channel is heard |
| `OutgoingVoice`, `OutgoingRuns` | the same of the sending side |
| `VoiceLink` | a sender, a network and a receiver |
| `VoiceChannel`, `VoiceMixer` | the channel and mixer objects |
| `PatchCache`, `PatchSlots`, `PatchServer` | the cache lookup; the protocol; the server object |
| `PatchQueues` | what becomes of a request that memory does not settle |

## Where the code and its promise differ

The model does what the code does. Where that is less than one would expect, the exact condition is
proved:

* `search` does not always find a longest match: a probe at a suffix that is a proper prefix of the
  query compares as equal and sends the bisection to the smaller suffixes, also when one byte more of
  the query occurs in the text. `Search.FindMatch` says that the match is a longest one exactly when no
  probe is `Misled` in this way; `Search.MisledExample` is the text "aba" with the query "abac".
* `ApplyPatch` keeps the length of the new file, the size of the decompressed streams and its offsets
  into them in 32 bits. Given that decompression returns each stream whole, a patch brings the new file
  back exactly when its control bytes and the new file together are shorter than 2^32 bytes
  (`RoundTrip.PatchRebuilds`). `CreatePatch.SmallEnough` gives a bound on the new file alone.
* A packet that goes round the end of the incoming buffer is stored with its first bytes twice;
  `VoiceRing.StoredFaithfully` says at which write indices. No packet of any run is, exactly when packets
  fill the buffer exactly and one of packet and output block is a multiple of the other
  (`IncomingRuns.PacketsKept`).
* A block that reaches the end of the outgoing buffer is replaced, for the encoder, by the beginning of
  the buffer; `VoiceRing.EncodedFaithfully` says at which read indices. This happens in some run for
  every block that is shorter than the buffer (`OutgoingRuns.EncoderExact`).
* One forced step of the outgoing read index is enough in every run, and `GetBufferedBytesToSend` right,
  exactly when a frame is no longer than an encoder block (`OutgoingRuns.OccupancyExact`); the same holds
  of received packets and output blocks (`IncomingRuns.IncomingExact`).
* A list served from the cache has one entry per requested file exactly when no name is requested twice,
  because `FileList::AddFile` merges entries of the same name (`PatchCaches.OneEntryPerFile`).
* An address has as many slots as jobs in all states of a run exactly when no connection is lost, and
  nothing cleared, while a job of it cannot be called off (`PatchSlots.SlotsMatchWork`): such a job frees
  the slot of the next request from the same address (`PatchSlots.OrphanFreesSlot`).
* A request served from the cache takes a slot even when the limit is reached, and nothing else exceeds
  the limit (`PatchSlots.ExceedsOnlyByPush`).

## Model

| member | source | states |
|---|---|---|
| Qsufsort.Qsufsort | DependentExtensions/Autopatcher/CreatePatch.cpp:150-187 | for every text the sort ends and `I` lists every suffix once, in strictly increasing lexicographic order; all accesses are in bounds |
| Qsufsort.SuffixArrayUnique | DependentExtensions/Autopatcher/CreatePatch.cpp:150-187 | a text has only one suffix array, so the previous result leaves no choice |
| Qsufsort.Pass | DependentExtensions/Autopatcher/CreatePatch.cpp:169-184 | one pass turns groups that share h bytes into groups that share 2h bytes, each contiguous and labelled by its last position; once h exceeds the text the run lengths merge into one of the whole array |
| Qsufsort.OneRun | DependentExtensions/Autopatcher/CreatePatch.cpp:186-186 | when the loop ends every label is the final position of its suffix, so the last loop can read the order off `V` |
| SuffixSort.Split | DependentExtensions/Autopatcher/CreatePatch.cpp:89-148 | in place and whatever has been relabelled meanwhile: a group that shares h bytes becomes groups that share 2h bytes, singletons are marked -1, larger labels mean larger suffixes, and nothing outside the range changes |
| SuffixSort.SplitSmall | DependentExtensions/Autopatcher/CreatePatch.cpp:93-110 | the selection for short ranges establishes the same as `Split` |
| SuffixSort.GatherSmallest | DependentExtensions/Autopatcher/CreatePatch.cpp:94-105 | the one-pass selection brings exactly the elements with the smallest key to the front of the range, as a reordering |
| SuffixSort.Partition | DependentExtensions/Autopatcher/CreatePatch.cpp:112-140 | the two exchange loops end and leave smaller, equal and larger keys in three consecutive stretches of a reordered range |
| SuffixSort.LabelGroup | DependentExtensions/Autopatcher/CreatePatch.cpp:144-145 | the equal keys get the last position of their group as label, a single one the mark -1, and nothing else changes |
| SuffixSort.KeyOrder | DependentExtensions/Autopatcher/CreatePatch.cpp:94-101 | a smaller key `V[I[k]+h]` means a smaller suffix and an equal key means 2h shared bytes, although labels change between comparisons |
| SuffixSort.GroupReady | DependentExtensions/Autopatcher/CreatePatch.cpp:175-179 | a stored entry found by a pass begins a whole group with h bytes behind every member, so `split` may be called on it and every key is in bounds |
| SuffixSort.SplitDone | DependentExtensions/Autopatcher/CreatePatch.cpp:169-184 | what `split` leaves behind continues the invariant of the pass over all earlier groups |
| BucketSort.RunningTotals | DependentExtensions/Autopatcher/CreatePatch.cpp:158-160 | after both loops bucket c holds the number of bytes smaller than c |
| BucketSort.PlaceAll | DependentExtensions/Autopatcher/CreatePatch.cpp:162-163 | every suffix is stored at its slot, after all smaller first bytes and all earlier equal ones, the empty suffix first |
| BucketSort.LabelBlocks | DependentExtensions/Autopatcher/CreatePatch.cpp:164-167 | the labelled and marked buckets satisfy the invariant of the first pass |
| Search.MatchLen | DependentExtensions/Autopatcher/CreatePatch.cpp:189-197 | the length of the common prefix |
| Search.Search | DependentExtensions/Autopatcher/CreatePatch.cpp:199-223 | every call returns a position and exactly how much matches there, the better of two neighbours in the suffix array that the comparison tells apart, the later one when they are equally good; something is found if and only if the first byte of the query occurs in the text; a longest match if the bisection was not misled, and none if it was |
| Search.FindMatch | DependentExtensions/Autopatcher/CreatePatch.cpp:365-366 | the call made for every position: a position in range, its exact match length, positive exactly when the byte occurs, longest exactly when not misled |
| Search.LongerOccurs | DependentExtensions/Autopatcher/CreatePatch.cpp:216-222 | a match is not a longest one exactly when the bytes of the query up to one more occur in the text, which is how a misleading probe is told |
| Search.FoundIsLongest | DependentExtensions/Autopatcher/CreatePatch.cpp:199-223 | if no non-empty suffix is a proper prefix of the query, the match is a longest one over all positions |
| Search.MisledExample | DependentExtensions/Autopatcher/CreatePatch.cpp:216-222 | a text and a query for which the longest match is missed |
| Search.FirstByteFound | DependentExtensions/Autopatcher/CreatePatch.cpp:204-214 | when the bounds have met, one of them starts with the first byte of the query if any suffix does, although the shortened comparison is not monotone |
| ScanLoop.ScanForward | DependentExtensions/Autopatcher/CreatePatch.cpp:362-379 | the scan stops at the first probe whose match is all hits of the old alignment or beats them by more than 8, or at the end; `oldscore` is the number of hits still ahead; all indices are in range |
| ScanLoop.CountHits | DependentExtensions/Autopatcher/CreatePatch.cpp:368-371 | `oldscore` stays the number of hits between the probe and the end of everything matched |
| ScanLoop.ScoreMovesOn | DependentExtensions/Autopatcher/CreatePatch.cpp:376-378 | moving on takes back exactly the hit at the probe; when nothing had been matched there, there was none, so the score is never negative |
| CreatePatch.ScanProgress | DependentExtensions/Autopatcher/CreatePatch.cpp:361-379 | a scan that stops inside the file has a match of positive length there, so the next round starts further on |
| Extents.ForwardExtent | DependentExtensions/Autopatcher/CreatePatch.cpp:382-387 | the shortest of all forward extents with the most points, two per match less one per byte |
| Extents.BackwardExtent | DependentExtensions/Autopatcher/CreatePatch.cpp:389-396 | the shortest of all backward extents with the most points |
| Extents.SplitOverlap | DependentExtensions/Autopatcher/CreatePatch.cpp:398-408 | the earliest of all splits of the overlap with the most matches on both sides together |
| CreatePatch.Extend | DependentExtensions/Autopatcher/CreatePatch.cpp:381-411 | the extents after the cut are those three choices put together |
| CreatePatch.ChosenUnique | DependentExtensions/Autopatcher/CreatePatch.cpp:381-411 | the three choices determine both extents, so `Extend` could return nothing else |
| CreatePatch.ChosenFits | DependentExtensions/Autopatcher/CreatePatch.cpp:381-418 | extents and extra length are never negative, stay inside both files and do not overlap |
| CreatePatch.MoveKeeps | DependentExtensions/Autopatcher/CreatePatch.cpp:413-458 | an emission keeps the streams describing exactly the new file up to `lastscan`, with `lastpos` inside the old file |
| CreatePatch.EmitTriple | DependentExtensions/Autopatcher/CreatePatch.cpp:381-458 | one triple is written for the chosen extents, with its bytes in both buffers, which never overflow; `ScanRuns.TriplesLead` says what the triple is in terms of the two files |
| CreatePatch.Round | DependentExtensions/Autopatcher/CreatePatch.cpp:361-460 | one round of the outer loop scans, and emits exactly when the match differs from what the old alignment gives or the file has ended; `ScanRuns.RoundStops` says so without the model of the round |
| CreatePatch.Diff | DependentExtensions/Autopatcher/CreatePatch.cpp:270-460 | the whole scan ends; its rounds are a `WholeScan`, so that the results of `ScanRuns` hold of them, and its triples and streams describe all of the new file |
| CreatePatch.CreatePatch | DependentExtensions/Autopatcher/CreatePatch.cpp:258-548 | fails only when a stream cannot be compressed, and overflows exactly when the header and the streams compressed so far come to 2^32 bytes or more; otherwise the patch is the header and the streams of that scan, the streams together are as long as the new file, and for any lossless codec applying it rebuilds the new file exactly when control bytes and new file together are shorter than 2^32 bytes |
| CreatePatch.SmallEnough | DependentExtensions/Autopatcher/CreatePatch.cpp:361-460 | a scan has at most two triples more than the new file has bytes, so every new file with 25n + 48 < 2^32 is brought back, whatever the old one is |
| CreatePatch.RoundsAdvance | DependentExtensions/Autopatcher/CreatePatch.cpp:361-379 | rounds stop at strictly increasing positions and add at most one triple each |
| ScanRuns.RoundStops | DependentExtensions/Autopatcher/CreatePatch.cpp:355-381 | in every scan a round goes on behind the last match and stops at the first probe whose match is all of the equal bytes already matched ahead in the alignment that the triples so far have led to, or more than 8 bytes longer; it ends without a triple if and only if it stops inside the file at a match that is just as long as their number |
| ScanRuns.TriplesLead | DependentExtensions/Autopatcher/CreatePatch.cpp:381-458 | every triple of every scan, said of the bytes of the two files: it adds up to the shortest end with the widest margin of equal over different bytes, copies up to where the likewise best backward extent begins, or only adds up to the earliest point at which most bytes of both alignments together are equal; and it seeks to the alignment of the match that was found |
| ScanRuns.PositionsAgree | DependentExtensions/Autopatcher/CreatePatch.cpp:457-458 | in every state of a scan the two positions kept by the code are where the triples so far end in the two files |
| ScanRuns.MatchesAreUsed | DependentExtensions/Autopatcher/CreatePatch.cpp:445-459 | a triple that is emitted inside the file leads to the match: until the next one is emitted, old and new position of the triples differ by the distance of the match, whose bytes are non-empty and equal at that distance |
| ScanRuns.ChosenMeans | DependentExtensions/Autopatcher/CreatePatch.cpp:381-411 | what the three loops choose, as counts of equal bytes: the first best end, the first best beginning, and the first best meeting point |
| ScanRuns.HitsCount | DependentExtensions/Autopatcher/CreatePatch.cpp:368-371 | the score of an alignment is the number of positions at which the two files are equal |
| CreatePatch.Pack | DependentExtensions/Autopatcher/CreatePatch.cpp:463-548 | the patch exists exactly when all three streams can be compressed to less than 2^32 bytes together with the header, and then is the header and those streams |
| CreatePatch.PackedBringsBack | DependentExtensions/Autopatcher/ApplyPatch.cpp:99-261 | whatever describes the new file and is packed so is brought back, completely consumed, exactly when control bytes and new file are shorter than 2^32 bytes |
| CreatePatch.Header | DependentExtensions/Autopatcher/CreatePatch.cpp:343-346 | the 32 bytes in front |
| PatchFormat.StreamsTile | DependentExtensions/Autopatcher/CreatePatch.cpp:413-421 | triples tile the new file: diff and extra stream together hold one byte for each byte described |
| OffsetCodec.Offtout | DependentExtensions/Autopatcher/CreatePatch.cpp:225-253 | writes the eight bytes of the number and no others |
| OffsetCodec.Offtin | DependentExtensions/Autopatcher/ApplyPatch.cpp:78-94 | reads the number the eight bytes stand for |
| OffsetCodec.OffsetRoundTrip | DependentExtensions/Autopatcher/CreatePatch.cpp:225-253 | every number of less than 63 bits is read back as it was written |
| OffsetCodec.BytesRoundTrip | DependentExtensions/Autopatcher/ApplyPatch.cpp:78-94 | every 8-byte string is written again as it was read, except minus zero |
| ApplyPatch.ApplyPatch | DependentExtensions/Autopatcher/ApplyPatch.cpp:99-261 | for sizes that fit its unsigned parameters, header, decompression and replay compute `Apply`, including every rejection; patches on which the original leaves its buffers, or whose streams outgrow its 32-bit sizes, are marked |
| ApplyPatch.ReplayLoop | DependentExtensions/Autopatcher/ApplyPatch.cpp:205-261 | the loop over the output buffer, with its three offsets kept in 32 bits, computes the replay of all triples; the offsets never wrap |
| ApplyPatch.AddDiff | DependentExtensions/Autopatcher/ApplyPatch.cpp:231-238 | diff bytes plus old bytes modulo 256, old bytes only where the old file has them |
| RoundTrip.AddedDifferences | DependentExtensions/Autopatcher/ApplyPatch.cpp:235-238 | adding the old bytes to the differences gives the new bytes back |
| RoundTrip.ReplayDescribed | DependentExtensions/Autopatcher/ApplyPatch.cpp:205-261 | replaying triples that describe a beginning of the new file yields it, and has then read exactly their control, diff and extra bytes, empty triples included |
| RoundTrip.PatchRebuilds | DependentExtensions/Autopatcher/ApplyPatch.cpp:99-261 | a patch whose streams describe the new file rebuilds it and is consumed completely exactly when control bytes and new file together are shorter than 2^32 bytes |
| RoundTrip.TooLong | DependentExtensions/Autopatcher/ApplyPatch.cpp:150-157 | a new file of 2^32 bytes or more is restored by no patch that announces its length, whatever the streams hold |
| PatchMeaning.PatchMeans | DependentExtensions/Autopatcher/ApplyPatch.cpp:99-261 | what applying any file gives: rejected for another magic, a negative length of the first two blocks, or a block that cannot be decompressed; otherwise its triples are replayed, and it is rejected when one of them would make the file longer than announced |
| PatchMeaning.ReplayMeans | DependentExtensions/Autopatcher/ApplyPatch.cpp:205-261 | for any streams, whether created by the patch maker or not: which triples are replayed, every byte they make, how far each stream is read, and how the replay ends |
| PatchMeaning.OffsetSpelled | DependentExtensions/Autopatcher/ApplyPatch.cpp:78-94 | the number eight bytes stand for as a sum of their places, with the sign in the highest bit of the last |
| PatchMeaning.DescribedBytes | DependentExtensions/Autopatcher/CreatePatch.cpp:413-421 | every diff byte of every triple, added to the old byte it is aligned with, is the new byte modulo 256, and every extra byte is the new byte, each found where the triples before it have ended |
| PatchMeaning.ControlSpelled | DependentExtensions/Autopatcher/CreatePatch.cpp:423-455 | a triple takes 24 control bytes, read back as the bytes to add, the bytes to copy and the distance to seek, in this order |
| PatchMeaning.CreatedSpelled | DependentExtensions/Autopatcher/CreatePatch.cpp:343-346 | a created patch has the eight letters, the two compressed lengths and the length of the new file, and then the three compressed streams, in this order |
| VoiceRing.WriteRefines | DependentExtensions/RakVoice.cpp:144-203 | a write into the ring is a write into a queue that gives up its oldest bytes when too little room is left; full and empty are never confused |
| VoiceRing.WriteOccupancy | DependentExtensions/RakVoice.cpp:144-203 | for any block sizes the occupancy computed from the indices is right exactly while the true one is below the buffer size |
| OutgoingRuns.OccupancyExact | DependentExtensions/RakVoice.cpp:144-203 | over every run of frames and encoding from an opened channel the number of bytes computed from the indices is that of the bytes sent and neither given up nor encoded, if and only if a frame is no longer than an encoder block |
| OutgoingRuns.SentConserved | DependentExtensions/RakVoice.cpp:144-203 | when a frame is no longer than an encoder block, what has been sent is, byte for byte, what has been given up or encoded followed by what is waiting |
| OutgoingRuns.EmptiedIsDrained | DependentExtensions/RakVoice.cpp:366-396 | encoding while a whole block is waiting is encoding as many blocks as the code computes by division |
| OutgoingRuns.EncoderExact | DependentExtensions/RakVoice.cpp:410-425 | every block that the encoder is given in any run is the oldest one waiting if and only if the block is as long as the buffer, so for every block that is ever encoded there is a run in which a wrong one is |
| VoiceRing.TakeRefines | DependentExtensions/RakVoice.cpp:513-562 | what is taken for output is the front of the queue; an underrun empties it |
| IncomingRuns.PacketsKept | DependentExtensions/RakVoice.cpp:880-889 | every packet of every run from an opened channel is stored as it came if and only if packets fill the buffer exactly and one of packet and output block is a multiple of the other |
| IncomingRuns.FillingIsNotEnough | DependentExtensions/RakVoice.cpp:538-544 | packets that fill the buffer exactly may be torn all the same, because an underrun moves the write index to a multiple of the output block |
| IncomingRuns.Delivered | DependentExtensions/RakVoice.cpp:866-908 | when a block is a multiple of a packet, what has been removed followed by what is waiting is the packets' own bytes in the order of arrival |
| IncomingRuns.IncomingExact | DependentExtensions/RakVoice.cpp:866-908 | the bytes waiting are those written less those removed in every run from an opened channel if and only if a packet is no longer than an output block |
| IncomingVoice.StepIsFifo | DependentExtensions/RakVoice.cpp:513-562 | every arrival and every visit is a step of a first-in first-out queue, gives up one block exactly when no more than one block of room was left, and keeps the read index aligned |
| IncomingVoice.RunConserves | DependentExtensions/RakVoice.cpp:866-908 | over any run what was waiting and what has been written is what has been removed followed by what is waiting |
| IncomingVoice.OneBlockPerFrame | DependentExtensions/RakVoice.cpp:513-535 | between two frames a channel contributes at most one block, and the flag says whether it has |
| IncomingVoice.PollMeans | DependentExtensions/RakVoice.cpp:513-562 | a visit takes nothing when the channel has its block in the frame, nor when output is held back and no more than two blocks are waiting; otherwise it takes one block or all there is; output is held back again when nothing is waiting |
| IncomingVoice.ArrivalMeans | DependentExtensions/RakVoice.cpp:866-908 | a packet is put at the end of the queue as it is stored, and the oldest block is given up when 99 blocks were waiting |
| Playback.VisitTakes | DependentExtensions/RakVoice.cpp:510-562 | over every run of an opened channel, said of waiting bytes: a visit takes one block, or all that is waiting, if and only if the queue has not been shortened for this frame and either more than two blocks are waiting or some open visit has found as many and none since has found nothing |
| Playback.HeldBack | DependentExtensions/RakVoice.cpp:518-524 | from the opening on, and again after an open visit has found nothing, visits take nothing exactly as long as no open one finds more than two blocks |
| Playback.FlagsRemember | DependentExtensions/RakVoice.cpp:518-535 | the two flags of a channel tell in every run whether it has its block in the frame and whether output has started |
| MessageNumbers.AcceptsExactly | DependentExtensions/RakVoice.cpp:802-813 | the 16-bit test tells new messages from old ones exactly within half the numbers on either side |
| MessageNumbers.ReceiveIsIdeal | DependentExtensions/RakVoice.cpp:802-828 | within that window the messages accepted are those of unbounded numbers, and the field is the expected number modulo 65536, under any loss, reordering and duplication |
| MessageNumbers.IdealIncreases | DependentExtensions/RakVoice.cpp:802-828 | accepted messages come in strictly increasing order |
| MessageNumbers.IdealLatest | DependentExtensions/RakVoice.cpp:802-828 | a message is accepted if and only if it is not before the first one expected and arrives before every later message and every copy of itself |
| VoiceLink.AllNumbered | DependentExtensions/RakVoice.cpp:463-490 | the packets of a whole run of frames and encoding are numbered consecutively modulo 65536 |
| VoiceLink.PlayedInOrder | DependentExtensions/RakVoice.cpp:785-828 | whatever the network loses, repeats or reorders within half the numbers, the blocks played are among those of the sender's run, in sending order, none twice; a block is played if and only if its packet arrives before every later one |
| VoiceLink.BlockPacketsAre | DependentExtensions/RakVoice.cpp:366-396 | the packets of the run are those that encoding the computed number of blocks sends |
| VoiceChannels.VoiceChannel.constructor | DependentExtensions/RakVoice.cpp:659-675 | an opened channel is valid, with both queues empty, all four indices and both message numbers 0 and output buffering, so that every result about runs from an opened channel applies to it |
| VoiceChannels.VoiceChannel.WriteOutputToChannel | DependentExtensions/RakVoice.cpp:866-908 | the receiving side makes the arrival step; for packets no longer than a block the queue afterwards is given byte by byte, the piece that goes round the end included; the sending side is untouched |
| VoiceChannels.VoiceChannel.OnVoiceData | DependentExtensions/RakVoice.cpp:804-813 | numbers within half of all numbers ahead of the expected one are written and set it to the next; others change nothing |
| VoiceChannels.VoiceChannel.SendFrame | DependentExtensions/RakVoice.cpp:144-203 | the sending queue grows by the frame, and gives up as many bytes as an encoder block has when 99 frames were waiting |
| VoiceChannels.VoiceChannel.GetBufferedBytesToSend | DependentExtensions/RakVoice.cpp:266-269 | the length of the sending queue of one channel |
| VoiceChannels.VoiceChannel.GetBufferedBytesToReturn | DependentExtensions/RakVoice.cpp:299-302 | the length of the receiving queue of one channel |
| VoiceChannels.VoiceChannel.EncodeAvailable | DependentExtensions/RakVoice.cpp:358-508 | all whole blocks are encoded, which leaves the remainder of the queue, and those with speech sent; the message number advances by the packets sent |
| OutgoingVoice.DrainedQueue | DependentExtensions/RakVoice.cpp:395-459 | encoding leaves exactly the bytes of the last incomplete block waiting |
| OutgoingVoice.PacketNumbers | DependentExtensions/RakVoice.cpp:463-490 | packets sent carry consecutive numbers modulo 65536, whatever was silent between them |
| OutgoingVoice.PacketsOneMore | DependentExtensions/RakVoice.cpp:395-490 | one more block adds one packet behind all others, with that block and the next number, if there is speech in it, and none otherwise; a block that reaches the end of the buffer is taken from its beginning |
| VoiceChannels.VoiceChannel.AddToOutput | DependentExtensions/RakVoice.cpp:513-562 | the receiving side makes the poll step; what is taken, the queue and both flags afterwards are given in terms of the queue and flags before, and the samples of what was taken are added to the frame |
| VoiceChannels.SampleMeans | DependentExtensions/RakVoice.cpp:545-555 | a sample is the signed 16-bit number with these two bytes, low byte first |
| VoiceMixer.RakVoice.Update | DependentExtensions/RakVoice.cpp:325-564 | every channel is served once. Said of queues, flags and blocks: a channel whose block is not yet in the frame, or any channel once the frame has been fetched, adds up to one block from the front of its queue to a block begun anew, unless output is held back and no more than two blocks are waiting; due channels send all whole blocks; the frame remains the sum of the channels' blocks |
| VoiceMixer.RakVoice.constructor | DependentExtensions/RakVoice.cpp:64-77 | the first frame is silent and no channel has contributed to it |
| VoiceMixer.RakVoice.BeginFrame | DependentExtensions/RakVoice.cpp:344-351 | once the frame has been fetched it is silenced, and every block and flag cleared; otherwise nothing changes |
| VoiceMixer.RakVoice.ReceiveFrame | DependentExtensions/RakVoice.cpp:215-232 | every sample handed out lies in the 16-bit range, is the sum of the channels' samples if that does, and otherwise the largest or the smallest one |
| VoiceMixer.RakVoice.GetBufferedBytesToSend | DependentExtensions/RakVoice.cpp:274-283 | the sum of the lengths of all sending queues |
| VoiceMixer.RakVoice.GetBufferedBytesToReturn | DependentExtensions/RakVoice.cpp:307-316 | the sum of the lengths of all receiving queues |
| VoiceMixer.ContributesOnce | DependentExtensions/RakVoice.cpp:510-535 | a channel that may still contribute has contributed nothing, so the frame's sum grows by exactly what is taken now |
| VoiceMixer.ServedMeans | DependentExtensions/RakVoice.cpp:325-564 | what `Update` makes of a channel for its listener and for its sender, in terms of waiting bytes, flags and block |
| PatchCaches.SupplyIs | DependentExtensions/Autopatcher/AutopatcherServer.cpp:608-668 | at most one cached file can be sent for a requested one: whichever meets the conditions, first of its name and of exactly the client's hash, is the one on the list |
| PatchCaches.OneEntryPerFile | Source/src/FileList.cpp:166-227 | the list sent names every requested file exactly once, and is the requested files one by one, in order, exactly when none is requested twice |
| PatchCaches.AnswersExclude | DependentExtensions/Autopatcher/AutopatcherServer.cpp:608-692 | served exactly when all files can be supplied, dropped exactly when a malformed hash is met before the first that cannot |
| PatchCaches.LookUp | DependentExtensions/Autopatcher/AutopatcherServer.cpp:608-692 | the loop over the request computes that answer; `AnswerMeans` and `EntriesDescribe` say what it is in terms of the cached files |
| PatchCaches.AnswerMeans | DependentExtensions/Autopatcher/AutopatcherServer.cpp:608-692 | a request is served exactly when there is an added file of every missing name, and for every other one the first patched file of its name begins with the client's four bytes; it is dropped exactly when a hash of another length is met while all files before it can be served |
| PatchCaches.EntriesDescribe | DependentExtensions/Autopatcher/AutopatcherServer.cpp:620-668 | when no file is requested twice, entry k of the list has the name, both lengths and the context of the first cached file of the k-th requested name |
| PatchCaches.LastRequested | Source/src/FileList.cpp:166-227 | when a file is requested more than once, its entry has the lengths of the file found for the last request |
| PatchCaches.AddFileMeans | Source/src/FileList.cpp:166-227 | a file is put at the end of the list, unless it has one of that name and those lengths; one with other lengths is taken out |
| PatchSlots.ServedFromCache | DependentExtensions/Autopatcher/AutopatcherServer.cpp:581-692 | a patch request is pushed from memory exactly when the cache applies and supplies every file, all or nothing |
| PatchSlots.StepCovers | DependentExtensions/Autopatcher/AutopatcherServer.cpp:750-786 | no step gives an address more slots than jobs; a balanced address stays balanced exactly when the step strands no job of it |
| PatchSlots.SlotsMatchWork | DependentExtensions/Autopatcher/AutopatcherServer.cpp:763-786 | in every reachable state, under every interleaving, an address has at most as many slots as jobs; it has as many in all states of a run if and only if no step of the run strands a job of it |
| PatchSlots.OrphanFreesSlot | DependentExtensions/Autopatcher/AutopatcherServer.cpp:240-260 | a run in which a lost connection's job frees the slot of a newer request |
| PatchSlots.RunWithin | DependentExtensions/Autopatcher/AutopatcherServer.cpp:787-793 | in every run with a fixed limit the slots exceed it at most by the pushes still going on, so without requests served from the cache never |
| PatchSlots.ExceedsOnlyByPush | DependentExtensions/Autopatcher/AutopatcherServer.cpp:674-692 | a step takes the slots over the limit exactly when a request is served from the cache at a full server |
| PatchSlots.DispatchAllIsRun | DependentExtensions/Autopatcher/AutopatcherServer.cpp:176-193 | `Update` is a run of dispatch steps that takes requests from the front of the waiting queue in order |
| PatchSlots.NeverWaitsForNothing | DependentExtensions/Autopatcher/AutopatcherServer.cpp:176-193 | in every reachable state, if a request is left waiting after `Update`, some address that holds a slot still has a job |
| PatchQueues.FullServerKeeps | DependentExtensions/Autopatcher/AutopatcherServer.cpp:451-455 | at a full server a request that memory does not settle is put behind the others that wait, and nothing else changes |
| PatchQueues.FreeServerStarts | DependentExtensions/Autopatcher/AutopatcherServer.cpp:699-734 | at any other one it takes one slot of its address and becomes the last for the workers if it asks for changes or at least one file, and changes nothing otherwise |
| PatchQueues.DispatchStarts | DependentExtensions/Autopatcher/AutopatcherServer.cpp:176-193 | the oldest waiting request is started in the same way, exactly when the server is not full |
| PatchQueues.NoneLost | DependentExtensions/Autopatcher/AutopatcherServer.cpp:176-193 | over every run, whatever else happens, the requests of an address that stays connected leave the waiting queue and the queue for the workers in the order in which they came: those there at first and those added are those taken, followed by those there now |
| PatchQueues.EveryRequestKept | DependentExtensions/Autopatcher/AutopatcherServer.cpp:695-734 | over every run a request with something to do waits, is queued for the workers or has been begun, as often as it was received, unless its connection is lost or everything is cleared |
| PatchQueues.DispatchAllMeans | DependentExtensions/Autopatcher/AutopatcherServer.cpp:176-193 | `Update` takes the longest beginning of the waiting queue for which there are slots and hands the requests with something to do to the workers in this order, for one slot each |
| PatchQueues.ToldFromMemory | DependentExtensions/Autopatcher/AutopatcherServer.cpp:411-449 | a changelist request is answered from memory exactly when the cache is of its application and the client was updated after its newest change or after the patch before |
| PatchQueues.PatchFromMemory | DependentExtensions/Autopatcher/AutopatcherServer.cpp:580-692 | a patch request is pushed, refused or left to a worker: the conditions on dates, names, hashes and lengths, written out |
| PatchQueues.NotFromJoined | DependentExtensions/Autopatcher/AutopatcherServer.cpp:259-266 | removing the requests of an address is done request by request, so all others keep their order |
| PatchServers.AutopatcherServer.constructor | DependentExtensions/Autopatcher/AutopatcherServer.cpp:102-114 | starts in an initial state without limit or cache |
| PatchServers.AutopatcherServer.DecrementPatchingUserCount | DependentExtensions/Autopatcher/AutopatcherServer.cpp:771-786 | frees one slot of the address if it has any, and tells whether it had |
| PatchServers.AutopatcherServer.OnGetChangelistSinceDate | DependentExtensions/Autopatcher/AutopatcherServer.cpp:402-477 | makes the step of receiving a changelist request. Written out: a client updated after the newest change is told that it is up to date, one updated after the patch before it of the deletions, if any, and then of the changes or that there are none; any other request waits if the server is full and otherwise takes a slot and is the last for the workers |
| PatchServers.AutopatcherServer.OnGetPatch | DependentExtensions/Autopatcher/AutopatcherServer.cpp:569-734 | makes the step of receiving a patch request, and sends exactly the list of the reply from memory, for one slot and one push; one that needs a worker waits behind all others if the server is full, and otherwise takes a slot and is the last for the workers if it names a file |
| PatchServers.AutopatcherServer.Update | DependentExtensions/Autopatcher/AutopatcherServer.cpp:176-193 | ends, and dispatches until the limit is reached or nothing waits |
| PatchServers.AutopatcherServer.GetChangelistSinceDateCB | DependentExtensions/Autopatcher/AutopatcherServer.cpp:304-399 | the completion step; the result is sent only to an address that still had a slot |
| PatchServers.AutopatcherServer.GetPatchCB | DependentExtensions/Autopatcher/AutopatcherServer.cpp:479-566 | the completion step: files keep the slot for their transfer, every other result frees it; failures are reported only to an address that still had one |
| PatchServers.AutopatcherServer.OnTransferEnd | DependentExtensions/Autopatcher/AutopatcherServer.cpp:750-762 | the end or abort of a transfer frees one slot |
| PatchServers.AutopatcherServer.OnClosedConnection | DependentExtensions/Autopatcher/AutopatcherServer.cpp:240-301 | the disconnect step: no slot, no queued and no waiting request of the address is left, and every other address keeps its slots and its requests in order |
| PatchServers.AutopatcherServer.PatchingUserLimitReached | DependentExtensions/Autopatcher/AutopatcherServer.cpp:787-793 | a limit of zero is never reached, another one when as many slots are taken |
| PatchServers.AutopatcherServer.IncrementPatchingUserCount | DependentExtensions/Autopatcher/AutopatcherServer.cpp:763-770 | takes one more slot for the address |
| PatchServers.AutopatcherServer.RemoveAtIndexFast | Source/include/slikenet/DS_List.h:411-422 | swapping the last entry in loses exactly one entry, the removed one |
| PatchServers.AutopatcherServer.StartRequest | DependentExtensions/Autopatcher/AutopatcherServer.cpp:704-734 | a request for changes or for at least one file takes one slot of its address and is the last for the workers; any other changes nothing |
| PatchServers.AutopatcherServer.CacheReply | DependentExtensions/Autopatcher/AutopatcherServer.cpp:580-692 | the reply of the protocol to a patch request, computed with the lookup loop |
| PatchServers.AutopatcherServer.BeginWork | Source/include/slikenet/ThreadPool.h:270-279 | a worker takes the oldest queued request, which keeps its slot |
| PatchServers.AutopatcherServer.OnPushEnd | DependentExtensions/Autopatcher/AutopatcherServer.cpp:750-762 | the same for files pushed from the cache |
| PatchServers.AutopatcherServer.RemoveFromThreadPool | DependentExtensions/Autopatcher/AutopatcherServer.cpp:268-286 | exactly the queued requests of the address are called off, in place and in order; each frees one of its slots while it has any, and as many are reported |
| PatchServers.AutopatcherServer.RemoveUser | DependentExtensions/Autopatcher/AutopatcherServer.cpp:248-257 | the fast removal loop takes all slots of the address and no others |
| PatchServers.AutopatcherServer.RemoveFromWaitingQueue | DependentExtensions/Autopatcher/AutopatcherServer.cpp:259-266 | exactly the waiting requests of the address are removed, the others stay in order |
| PatchServers.AutopatcherServer.SetMaxConcurrentUsers | DependentExtensions/Autopatcher/AutopatcherServer.cpp:794-797 | the limit is the new one and nothing else changes |
| PatchServers.AutopatcherServer.CacheMostRecentPatch | DependentExtensions/Autopatcher/AutopatcherServer.cpp:147-168 | without a connection nothing changes; with one, afterwards no request for another application is answered from memory, and none at all when the repository has failed |
| PatchSlots.NothingFromMemory | DependentExtensions/Autopatcher/AutopatcherServer.cpp:580-581 | a cache that is not loaded, or not of the application asked for, answers nothing |
| PatchServers.AutopatcherServer.AbortInput | DependentExtensions/Autopatcher/AutopatcherServer.cpp:215-220 | every queued request frees a slot of its address while that has any; exactly these are reported |
| PatchServers.AutopatcherServer.ClearAll | DependentExtensions/Autopatcher/AutopatcherServer.cpp:210-234 | the clearing step, once the workers have stopped, leaves no slot and no request; each address is reported as often as it had both a slot and a queued request |

## Left out

- bzip2: the three streams go through a codec that is a parameter and may fail to compress; decompression is only assumed to undo compression. How `MemoryCompressor` and `MemoryDecompressor` grow their buffers is not modelled: streams fit if their sizes do.
- Compression is modelled once per stream, not in 8-byte calls, and memory allocation never fails.
- Offsets are unbounded integers up to the 8-byte form; platforms whose `off_t` or `ssize_t` has fewer than 64 bits are not modelled.
- ApplyPatch.ApplyPatch: on patches that make the original read or write outside its buffers, or need streams of 2^32 bytes, the model says only `Undefined`.
- `DIFF_main`, `PATCH_main`, `TestDiffInMemory`, `TestPatchInMemory` and the `CreatePatch` overloads: file access and copies of the same code.
- IncomingVoice.StepIsFifo: asks for packets no longer than the block in which the buffer is read; `IncomingRuns.IncomingExact` shows that longer ones break the queue. The queue holds the bytes as stored; `IncomingRuns.Delivered` says when these are the packets' own.
- VoiceChannels.VoiceChannel.SendFrame: the queue is claimed for encoder blocks at least as long as a frame; `OutgoingRuns.OccupancyExact` shows that it is lost for shorter ones, of which only the indices and bytes of the ring are claimed.
- VoiceChannels.VoiceChannel.constructor: the rejection of other sample rates and the set-up of Speex in `OpenChannel` are not modelled; the two block sizes are inputs.
- VoiceChannels.VoiceChannel.OnVoiceData: decoding is done before the model, and the loop that interpolates skipped messages is left out, as its limit is 0 at every permitted sample rate.
- VoiceChannels.VoiceChannel.EncodeAvailable: voice detection is a function of the block, while Speex also remembers earlier ones; packets carry the block instead of its encoding; loopback mode is left out.
- VoiceMixer.RakVoice.Update: the clock that spaces out sends is the input `due`; loopback delivery is left out.
- VoiceMixer.RakVoice.constructor: the channels are fixed when the mixer is made; opening and closing them during a run, and channel lookup by GUID, are left out.
- Samples are integers instead of floats.
- PatchSlots.SlotsMatchWork: taking or freeing a slot and handing over the job it belongs to is one step; the instants between the two, when threads may see one without the other, are not states of the model.
- The repository, the file transfer plugin and its use by others, load notifications other than the number of requests called off, `GetFilePart`, and the data that is sent; of a request only what decides its way is kept.
- Fairness of the waiting queue: a new request is started at once when a slot is free, before older ones that wait.
- Lobby2, the autopatcher client, the database interface and the graphics samples.
