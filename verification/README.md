# Discord voice media path: a verified model

This project models the media path of a Discord voice client in Dafny and proves what it promises: the
DAVE end-to-end encryption of media frames (the `dave` crate) and the RTP path around it (the `cacophony`
crate): encryption, packets, the reorder buffer and the frame assembler, each by itself and composed.

`dafny verify dfyconfig.toml` checks everything. Nothing here runs the original program.

## How the model is laid out

| files | part of the system |
|---|---|
| `Leb128`, `Interleave`, `Frame`, `FrameProcessor`, `FrameCodecs` | the protected frame: split into clear and hidden bytes, trailer, parser, sealing and opening |
| `AnnexB`, `H26xFrame`, `H26xValidation`, `Av1Frame`, `HiddenBytes` | codec-specific layouts: NAL units and OBUs, and which bytes are hidden |
| `Ratchet`, `Replay`, `Sender`, `Receiver` | generations and nonces, replay window, `Encryptor`, `CryptorManager` |
| `RtpPayload`, `Descriptors`, `Packetizer`, `PayloadFormats`, `Assembler`, `Assembly`, `MediaPath`, `H26xMediaPath` | RTP payload formats as they are read and written, packetizers, frame assembler and their round trips |
| `Reorder`, `ReorderRun`, `ReceiveSsrc` | the reorder buffer of one SSRC: steps, whole runs, the updating object |
| `ReorderLoss`, `ReorderedLoss`, `ReorderOrigin`, `ReorderOccupied`, `ReorderExamples` | which arrived packets are given up, what loss reports say and what frames come out around a loss, which packet comes out at a position, and runs that show it |
| `ReorderedMedia`, `Arrivals`, `StreamMedia`, `Driver` | frames through the buffer: lossless runs, plans of arrivals, streams of frames, the plan the driver follows |
| `Ciphers`, `Av1Protected`, `H26xProtected`, `ProtectedMedia`, `ProtectedReceiver` | protected frames through packets, buffer and assembler to the receiver's key manager, end to end |
| `Queue`, `Scheduler` | deadline indexes, bucketed deadline queue, draining many SSRCs |
| `Gateway`, `Playout`, `Opus` | DAVE gateway state, paced playout, Opus packet framing |

Code that updates state in place is modelled by classes whose methods are proved against functions on
values; the laws are proved about those functions, over all inputs and all runs. Cryptography is a pair
of function values with stated hypotheses (`Frame.Faithful`: lengths are kept and opening undoes sealing;
`Sender.Trusted`: the same for every 16-byte key, and a KDF that returns as many bytes as asked; `Frame.Authentic`, used
by one law only: nothing opens that was not sealed). Clock
readings are arguments and never decrease along a run. `Option` and result datatypes stand for the
source's errors.

## Main results

- **Frame round trip.** Whatever `Encryptor` produces parses back to its nonce and ranges and opens to the
  bytes laid out, which are the frame itself for Opus, VP8 and VP9 (`Sender.Encryptor.EncryptInto`,
  `Frame.OpenOfSeal`, `Sender.ReceiverRecovers`). AV1 rewriting keeps the OBU list but for three dropped
  types (`Av1Frame.RewriteKeepsMeaning`) and is refused exactly for what is no list of OBUs or ends in a bare header
  (`Av1Frame.RewritesExactly`). What opens was sealed under the named nonce with exactly the frame's clear bytes
  authenticated (`Frame.OpenedWasSealed`), and a frame is taken for protected exactly if it has the four parts
  (`Frame.ProtectedExactly`).
- **What is hidden.** For every codec the hidden bytes of a frame are given by the frame alone: slice data behind the
  part of the slice that decoders need, OBU payloads, all but the first bytes of VP8, everything else whole
  (`HiddenBytes.HidesSecret`, `H26xHidden`, `PpsReadsNumbers`).
- **First acceptable attempt.** Encryption ends at the first of ten nonces whose output may be sent or whose sealing fails,
  with exactly that output or error (`Sender.Encryptor.EncryptInto`). The validator accepts an output exactly if all
  start codes it shows lie inside clear ranges (`H26xValidation.AcceptsExactly`).
- **NAL boundaries.** A validated H264/H265 ciphertext shows exactly the start codes of the processed
  plaintext (`H26xValidation.KeepsNalBoundaries`), tag and trailer included if the last byte is hidden
  (`H26xValidation.KeepsAllBoundaries`), and the scanner that skips three bytes finds what a naive one finds
  (`AnnexB.FindNextNalu`).
- **Counters and replay.** An `Encryptor` never seals twice under one generation and nonce, refused and exhausted
  attempts included (`Sender.Encryptor.EncryptInto`). The receiver unwraps a generation exactly when it is
  less than 256 ahead of the oldest kept, the window decides exactly by the whole history of accepted
  frames, and cached keys are those of the recursive schedule.
- **Sequence conservation.** Over every run of arrivals, releases and time-outs, each position up to the next
  expected one is handed over once or covered by exactly one exact loss report (`ReorderRun.Conservation`), and
  a packet handed over was accepted for a position of the same number at or before its own
  (`ReorderOrigin.HandedIdentity`).
- **Around a loss.** Over every run, losses included, the frames since the latest loss are those of an assembler fed, from
  the start, the packets handed over since then (`ReorderedLoss.MirrorsSinceLoss`), and every frame that comes out is made
  of handed-over packets of one sender with consecutive numbers (`ReorderedLoss.OutputsAreMadeOf`,
  `Assembly.FramesAreMadeOf`).
- **Payload formats.** Aggregation packets, fragments, descriptors, elements and aggregation headers are written out by
  themselves; what is read is exactly what can be written (`PayloadFormats`).
- **Reordering within the window does not show.** A plan says which packet of a numbered stream comes when, with
  duplicates, and when the buffer is released or timed out. It is orderly if no packet comes more than the
  window ahead of the first one missing and no time-out comes too soon. When all packets have come and what was
  ready was released, exactly the stream from the first arrival on is handed over, without a loss report
  (`Arrivals.CompleteStream`), and the frames are those of an assembler fed in sequence (`Arrivals.FramesOut`).
- **Streams of frames.** Under such a plan every list of frames that packetizers carry comes out exactly, in order,
  if the stream's first packet comes first (`StreamMedia.StreamDelivered`). For VP8 and VP9 the outcome is given for any
  first arrival (`StreamMedia.VpxStream`). A driver that takes what is ready after everything that happens follows such a
  plan, so nothing is asked of the states in between (`Driver.AttendedStream`).
- **End to end.** Frames sealed by the sender, packetized, reordered within the window and assembled come out in order
  (`ProtectedMedia.ProtectedStream`), and one key manager with its replay window accepts and opens all of them to what
  the sender laid out, if the counts rise (`ProtectedReceiver.ReceiveStream`). That is the frame itself for VP8, VP9 and
  Opus frames of one packet, the rewritten frame for AV1, and the kept units behind long start codes for H264 and H265.
  Which AV1, H264 and H265 frames go is settled below.
- **Draining.** The scheduler's queue and index agree with every SSRC, draining terminates, and it stops only when
  nothing is ready and no gap has expired. Turns go by the ready queue first and then by the earliest expired head, nothing a
  turn gives is kept back, and every SSRC's state is one of the runs above (`Scheduler.ReceiveState.DrainOrderedMedia`).
- **DAVE gateway.** In every reachable state exactly two kinds of events begin DAVE and two end it, and a transition
  prepared and executed takes effect in both directions (`Gateway.EntersExactly`, `LeavesExactly`,
  `PreparedTakesEffect`).
- **Playout keeps time.** Between two sends of one schedule due times differ by exactly 20 ms for every frame that left the
  queue (`Playout.SteadyDue`), and each call says which frames it gives up and when the next is due
  (`Playout.ActiveOpusPlayout.Resolve`).
- **Opus.** The validator accepts exactly the serializations of section 3.2 of RFC 6716 that last 20 ms
  (`Opus.ValidatePacketBytes`).

Six expected laws do not hold of the code. Each has an input that shows it and the exact condition under which
the code meets it.

- A fragmented H264 or H265 unit makes the assembler begin anew: a frame comes back whole if and only if no unit
  after the first is fragmented (`H26xMediaPath.H26xRoundTrip`; `FragmentedSecondUnitLosesFirst`).
- An arrived packet can be reported lost. Numbers already buffered are recorded as missing too, so an expiry leaves a packet
  behind exactly when its own entry has expired, or the buffer is full and the packet lies inside the missing block; a
  jump throws away every buffered packet (`ReorderLoss.GivenUpExactly`; `ReorderExamples.StrandedExample`,
  `ForcedExample`, `JumpExample`).
- A packet left behind stays in the buffer and can come out 65536 positions later in place of the right one, which is then
  refused without a report. A packet handed over is the one accepted for its position if and only if it comes in its
  turn or no call left a packet of its number behind that is still there (`ReorderOccupied.HandedByCalls`,
  `ReorderOrigin.HandedIdentity`; `ReorderExamples.StaleExample`, `StaleEarlyExample`).
- Whatever precedes the very first arrival of an SSRC is refused without a report: a stream is handed over whole if and
  only if its first packet comes first (`Arrivals.CompleteStream`; `ReorderExamples.FirstArrivalExample`).
- A protected AV1 frame can be refused by the packetizer, which reads the trailer as an OBU when the frame's last OBU was
  dropped, and ciphertext as OBUs when the frame was not understood: it is always taken if and only if the frame was
  rewritten and its last OBU kept (`Av1Protected.SentExactly`; `PaddingExample`).
- A protected H264 or H265 frame need not come back whole. Tag and trailer travel on its last unit; if that ends clear
  they are not validated and can show start codes. A frame the codec gives up on has no start code left. Every way of
  protecting a frame comes back whole if and only if the codec does not give up, the last byte laid out is hidden, no kept
  unit is empty, none but the first exceeds 1200 bytes with the trailer counted on the last, and those sent whole are
  of a single-unit type (`H26xProtected.H26xSentExactly`; `ParameterSetExample`).

## Model

| member | source | states |
|---|---|---|
| `Leb128.DecodeEncode` | dave/src/leb128.rs:25-81 | reading gives back every u64 that was written, whatever bytes follow |
| `Leb128.EncodedIs` | dave/src/leb128.rs:25-37 | the bytes written hold the number seven bits each, lowest first, the top bit set on all but the last, and no byte is idle |
| `Leb128.DecodedIsU64` | dave/src/leb128.rs:59-81 | whatever is read fits 64 bits, and its shortest encoding is no longer than the bytes read |
| `Leb128.EncodedLen` | dave/src/leb128.rs:15-23 | the counted size is the length of the encoding |
| `Leb128.WriteTo` | dave/src/leb128.rs:25-37 | the caller's buffer holds the encoding in place and nothing else changed; fails exactly when it does not fit |
| `Leb128.Read` | dave/src/leb128.rs:59-81 | the shifting loop computes the recursive decoding, refusing overlong and unterminated input |
| `Interleave.WeaveOfSplit` | dave/src/frame.rs:484-533 | weaving the two parts of a split frame gives the frame |
| `Interleave.SplitOfWeave` | dave/src/frame.rs:484-533 | splitting a woven frame gives the two parts |
| `Interleave.Split` | dave/src/frame.rs:490-506 | the loop yields the clear bytes and the hidden bytes, in order |
| `Interleave.Reconstruct` | dave/src/frame.rs:508-533 | the loop weaves clear and hidden bytes as the ranges say |
| `Frame.ParseRangesOfBytes` | dave/src/frame.rs:643-711 | ranges in order and inside the frame are parsed back from their encoding |
| `Frame.RangesOnWire` | dave/src/frame.rs:681-711 | read as numbers one behind the other, the written ranges are each offset followed by its length |
| `Frame.ParsedRangesPlaced` | dave/src/frame.rs:643-673 | whatever range list is accepted is ordered, does not overlap and ends inside the frame |
| `Frame.ParseUnencryptedRanges` | dave/src/frame.rs:643-673 | the loop accepts and refuses exactly as the recursive parser |
| `Frame.RangesSize` | dave/src/frame.rs:713-721 | the computed size is the length of the encoded ranges |
| `Frame.WriteSupplementalTail` | dave/src/frame.rs:681-711 | the trailer written in place is nonce, ranges, size and marker; refused exactly when the size needs two bytes |
| `Frame.Parse` | dave/src/frame.rs:401-443 | parsing decides plain or protected as specified, with every refusal falling back to plain |
| `Frame.ParsedIsUsable` | dave/src/frame.rs:401-443 | a frame parsed as protected has usable ranges, a whole tag and a 32-bit nonce |
| `Frame.ParseOfTail` | dave/src/frame.rs:401-443 | parsing body, tag and written trailer recovers all four parts |
| `Frame.ProtectedExactly` | dave/src/frame.rs:401-443 | a frame is taken for protected if and only if it is body, eight bytes of tag, readable numbers, their size and the marker; every other one stays whole |
| `Frame.NonceInjective` | dave/src/frame.rs:675-679 | different truncated nonces give different AEAD nonces |
| `Frame.NonceBytes` | dave/src/frame.rs:675-679 | eight zeros and then the nonce, lowest byte first |
| `Frame.OpenOfSeal` | dave/src/frame.rs:309-384 | if sealing succeeds, the parsed output names the same nonce and ranges, shows the same clear bytes and opens to the laid-out bytes |
| `Frame.OpenedWasSealed` | dave/src/frame.rs:335-384 | with a cipher that opens only what it sealed, whatever a frame opens to was sealed under the nonce it names, its clear bytes authenticated, into its hidden bytes and tag; the clear bytes are unchanged |
| `Frame.DecryptInto` | dave/src/frame.rs:335-384 | the contiguous shortcut and the general way give the same result |
| `FrameProcessor.ExtendedKeeps` | dave/src/frame.rs:598-614 | adding clear bytes keeps ranges sorted, maximal and exact about which bytes are clear |
| `FrameProcessor.OutboundFrameProcessor.AddUnencryptedBytes` | dave/src/frame.rs:598-614 | bytes are appended clear; ranges stay coalesced and agree with the two byte vectors |
| `FrameProcessor.OutboundFrameProcessor.AddEncryptedBytes` | dave/src/frame.rs:616-622 | bytes are appended hidden; ranges are untouched and still agree with the byte vectors |
| `FrameProcessor.OutboundFrameProcessor.Reset` | dave/src/frame.rs:590-596 | nothing of an earlier frame is left |
| `FrameProcessor.OutboundFrameProcessor.EncryptProcessed` | dave/src/frame.rs:309-333 | the output is the sealed frame with its trailer, or the exact error |
| `FrameProcessor.ProcessFullyEncryptedFrame` | dave/src/frame.rs:723-729 | every byte is hidden and the frame is laid out unchanged |
| `FrameProcessor.ProcessVp8Frame` | dave/src/frame.rs:731-742 | a key frame keeps ten bytes clear, another one; too short a frame falls back |
| `AnnexB.FindNextNalu` | dave/src/codec.rs:20-46 | skipping up to three bytes at a time finds the first start code a naive scan finds |
| `AnnexB.AnnexBNalus.constructor` | dave/src/codec.rs:48-55 | the iterator has all non-empty units of the frame before it |
| `AnnexB.AnnexBNalus.Next` | dave/src/codec.rs:68-84 | the iterator hands out the non-empty NAL units in order and then nothing |
| `AnnexB.EmptyIffNothingLeft` | dave/src/codec.rs:62-66 | the iterator reports empty exactly when no unit is left |
| `AnnexB.UnitsOfJoin` | dave/src/codec.rs:20-84 | splitting a join of non-empty, code-free units gives back the same units, and none is skipped |
| `AnnexB.UnitsOfSplittable` | dave/src/codec.rs:20-84 | the same with empty units in between, as long as the last one is not empty |
| `AnnexB.UnitBehind` | dave/src/codec.rs:20-84 | behind every visible start code a unit begins |
| `H26xFrame.KeptIsUnits` | dave/src/frame.rs:797-835 | the units processed are the frame's units but for a final one of one byte |
| `H26xFrame.BytesCoveringPps` | dave/src/frame.rs:911-942 | the bit loop ends, stays within bounds and equals its recursive form, which `HiddenBytes.PpsReadsNumbers` describes |
| `H26xFrame.SafeUnit` | dave/src/frame.rs:797-835 | laying out one more unit keeps every visible start code inside a clear range that opens with one |
| `H26xFrame.ProcessH26xFrame` | dave/src/frame.rs:797-835 | without fallback the kept units are laid out behind long start codes with exactly the computed clear ranges, and every visible start code is clear; which bytes these ranges hide is `HiddenBytes.H26xHidden` |
| `HiddenBytes.PpsReadsNumbers` | dave/src/frame.rs:911-942 | the loop reads three numbers, zeros, a one and as many bits again, passing over a prevention byte met among the zeros, and gives the bytes that cover them |
| `HiddenBytes.PlainNumber` | dave/src/frame.rs:911-942 | without prevention bytes these are exp-Golomb codes |
| `HiddenBytes.ClearOfUnit` | dave/src/frame.rs:750-795 | how much of a unit stays clear: all of it unless it is a slice (types 1 and 5, or below 32 in H265), and of an H265 slice its header, of an H264 slice also the bytes that cover the first three numbers |
| `HiddenBytes.H26xHidden` | dave/src/frame.rs:750-835 | a frame is processed if and only if it is long enough, shows a start code and every slice has such a head; the hidden bytes are then the rests of the slices and the clear ones start codes, heads and other units |
| `HiddenBytes.Av1HiddenFrom` | dave/src/frame.rs:837-909 | the hidden bytes of a rewritten AV1 frame are the payloads of all OBUs but types 2, 8 and 15 |
| `HiddenBytes.HidesSecret` | dave/src/frame.rs:556-571 | for every codec the hidden bytes of the layout are those the frame's format says, the whole frame if it falls back |
| `H26xValidation.Validate` | dave/src/frame.rs:944-972 | accepts exactly the ciphertexts in which no start code touches a hidden byte as far as the padded windows see |
| `H26xValidation.HiddenHasNoCode` | dave/src/frame.rs:944-972 | in an accepted ciphertext no visible start code touches a hidden byte |
| `H26xValidation.AcceptsExactly` | dave/src/frame.rs:944-972 | an output is accepted if and only if every visible start code lies inside one clear range, or not before the end of a frame that ends clear |
| `H26xValidation.KeepsNalBoundaries` | dave/src/frame.rs:797-972 | an accepted ciphertext of a processed frame shows a start code exactly where the plaintext does |
| `H26xValidation.KeepsAllBoundaries` | dave/src/frame.rs:944-972 | if the last byte is hidden, the whole accepted output with tag and trailer shows a start code exactly where the plaintext does |
| `Av1Frame.RewriteKeepsMeaning` | dave/src/frame.rs:837-909 | reading the rewritten bytes gives the input's OBUs without temporal delimiters, tile lists and padding, types, extensions and payloads unchanged |
| `Av1Frame.RewritesExactly` | dave/src/frame.rs:837-909 | a frame is rewritten if and only if it is a list of OBUs whose last one is no bare header |
| `Av1Frame.LastLosesSize` | dave/src/frame.rs:837-909 | the last OBU sent has a size field if and only if the frame's last OBU was dropped |
| `Av1Frame.RewriteFits` | dave/src/frame.rs:837-909 | rewriting never makes a frame longer |
| `Av1Frame.ProcessAv1Frame` | dave/src/frame.rs:837-909 | lays out exactly the rewritten OBUs with their headers clear, and falls back exactly on malformed input |
| `FrameCodecs.PlainCodecsKeepFrame` | dave/src/frame.rs:723-742 | Opus, VP8 and VP9 frames are laid out byte for byte, fallback included |
| `FrameCodecs.Process` | dave/src/frame.rs:556-571 | every codec leaves the processor holding its layout, or the whole frame hidden after a fallback |
| `FrameCodecs.ValidateProcessed` | dave/src/frame.rs:573-579 | only H264 and H265 look at the ciphertext, and decide as the validator does |
| `Ratchet.UnwrapsExactly` | dave/src/ratchet.rs:439-443 | the computed generation equals the sender's if and only if that is at least the oldest and less than 256 above it |
| `Ratchet.TruncatedGeneration` | dave/src/ratchet.rs:439-448 | a truncated nonce carries its generation's low byte, and generation and nonce together give back the frame count |
| `Ratchet.SenderStep` | dave/src/ratchet.rs:149-166 | one advance finds the generation of the next frame count, across wrap-around |
| `Ratchet.NoNonceReuse` | dave/src/ratchet.rs:149-166 | two frames of one activation with equal generation and truncated nonce are the same frame |
| `Ratchet.HashRatchet.Get` | dave/src/ratchet.rs:55-69 | serves the schedule's secrets for any generation not erased, in any order, and caches exactly what it derived |
| `Ratchet.LoopEndsUnlessLast` | dave/src/ratchet.rs:55-85 | the derivation loop goes on for ever exactly for generation 2^32 - 1, and otherwise ends just past the one asked for |
| `Ratchet.HashRatchet.Erase` | dave/src/ratchet.rs:71-73 | one generation leaves the cache, and so is never served again |
| `Ratchet.HashRatchet.Next` | dave/src/ratchet.rs:75-85 | the generation's key of 16 and nonce of 12 bytes and the next secret of 32 are derived from the current secret, and are those of the recursive schedule |
| `Replay.NeverTwice` | dave/src/ratchet.rs:378-409 | in every run no nonce is accepted twice |
| `Replay.FirstIsOldest` | dave/src/ratchet.rs:378-409 | nothing older than the first accepted nonce is ever accepted |
| `Replay.MissingNonceWindow.PruneBefore` | dave/src/ratchet.rs:289-294 | exactly the members below the bound go, though removed ones may still be queued |
| `Replay.MissingNonceWindow.Remove` | dave/src/ratchet.rs:285-287 | one nonce stops being a member; the eviction order is not disturbed |
| `Replay.MissingNonceWindow.PushBack` | dave/src/ratchet.rs:296-301 | a nonce joins members and order unless it is a member already; the order stays increasing if it is newer than all queued |
| `Replay.MissingNonceWindow.Bounded` | dave/src/ratchet.rs:275-301 | window and queue never hold more than 1000 entries |
| `Replay.ReplayWindow.CanProcess` | dave/src/ratchet.rs:405-409 | answers exactly from the whole history: nothing yet, newer than all, or unseen, above the first and at most 1000 behind |
| `Replay.ReplayWindow.Accept` | dave/src/ratchet.rs:378-403 | after accepting, the window again stands exactly for the history, within its bound |
| `Sender.Encryptor.ActivatePending` | dave/src/ratchet.rs:102-111 | a staged ratchet becomes active with the count at zero; without one nothing changes |
| `Sender.Encryptor.StageRatchet` | dave/src/ratchet.rs:98-100 | staging does not disturb the active ratchet or its count |
| `Sender.Encryptor.AdvanceCipher` | dave/src/ratchet.rs:149-166 | after n advances the nonce is n mod 2^32 and the cipher is the schedule's key of generation n / 2^24 |
| `Sender.UsesNeverReused` | dave/src/ratchet.rs:149-166 | the trace of generations and nonces of counts 1, 2, 3 and on has no pair twice |
| `Sender.Encryptor.TryOnce` | dave/src/ratchet.rs:121-166 | one attempt adds exactly its pair to a trace without repetition and ends with what sealing at the new count gives: the output if it may be sent, the error, or another attempt |
| `Sender.Encryptor.EncryptInto` | dave/src/ratchet.rs:121-147 | the first count in the next ten at which sealing fails or gives an output that may be sent settles the result, and failure means that none of the ten did; every attempt uses a new pair of generation and nonce; the output recovers nonce, ranges and laid-out bytes, is longer by exactly the supplement, and shows the start codes of the plaintext, none if the codec gave up |
| `Sender.ReceiverRecovers` | dave/src/ratchet.rs:330-347 | a receiver with the same secret computes the sender's generation and count and opens the frame |
| `Receiver.CryptorManager.CleanupExpiredCiphers` | dave/src/ratchet.rs:411-421 | exactly the ciphers whose time has come go, and generations from the oldest up are erased until one is still in use |
| `Receiver.CryptorManager.FindCipher` | dave/src/ratchet.rs:349-376 | a generation is served exactly when kept, at most 250 ahead and within the lifetime, and always with the schedule's key; in times: as long as its cipher has not expired, and a cipher made anew for an older generation expires ten seconds later |
| `Receiver.CryptorManager.ReportGeneration` | dave/src/ratchet.rs:378-403 | a newer generation makes every older cipher expire ten seconds from now; nothing else changes |
| `Receiver.CryptorManager.Decrypt` | dave/src/ratchet.rs:330-347 | the outcome is settled by history, kept generations and the schedule's key; only opened frames enter the history |
| `RtpPayload.FindReferencesEnd` | cacophony/src/rtp_payload.rs:862-901 | the loop finds the end of the VP9 reference list |
| `RtpPayload.FindScalabilityEnd` | cacophony/src/rtp_payload.rs:903-925 | the loop finds the end of the VP9 scalability structure |
| `RtpPayload.FindVp9Descriptor` | cacophony/src/rtp_payload.rs:862-901 | the steps and loops of the source find the descriptor or refuse as specified |
| `Descriptors.Vp8Short` | cacophony/src/rtp_payload.rs:826-853 | a VP8 descriptor without extensions is one byte and starts a frame exactly at the start of partition zero |
| `Descriptors.Vp8Long` | cacophony/src/rtp_payload.rs:826-853 | every written VP8 descriptor with extensions is skipped to its last byte, whatever follows |
| `Descriptors.Vp9Long` | cacophony/src/rtp_payload.rs:862-925 | every written VP9 descriptor, with references, layers and scalability structure, is skipped to its last byte and its start and end bits are found |
| `RtpPayload.AppendAggregation` | cacophony/src/rtp_payload.rs:747-765 | the loop computes the recursive reading of aggregated units, which `PayloadFormats.AggregatedOfAggregate` and `AggregateOfAggregated` show to be exact |
| `RtpPayload.AppendElements` | cacophony/src/rtp_payload.rs:772-797 | the loop computes the recursive reading of AV1 elements, which `PayloadFormats.ElementsOfListed` and `ListedOfElements` show to be exact |
| `PayloadFormats.AggregatedOfAggregate` | cacophony/src/rtp_payload.rs:747-765 | units written behind two-byte sizes are read as these units behind long start codes |
| `PayloadFormats.AggregateOfAggregated` | cacophony/src/rtp_payload.rs:747-765 | whatever is read as an aggregation is one so written, of the units it gives |
| `PayloadFormats.H264Kinds` | cacophony/src/rtp_payload.rs:704-745 | which H264 NAL types are single units, aggregations and fragments, what each gives, where it begins and ends a frame, and what is refused |
| `PayloadFormats.H265Kinds` | cacophony/src/rtp_payload.rs:704-745 | the same for H265 |
| `PayloadFormats.AudioAndVp8Kinds` | cacophony/src/rtp_payload.rs:304-350 | an Opus packet is a whole frame; VP8 begins with partition zero's start bit and ends with a marker on a packet that carries something |
| `PayloadFormats.Vp9Kinds` | cacophony/src/rtp_payload.rs:369-383 | VP9 begins with its start bit and ends with the marker or its end bit |
| `PayloadFormats.Av1Kinds` | cacophony/src/rtp_payload.rs:447-466 | an AV1 packet begins a unit if none is open and it continues no OBU, and ends one with the marker |
| `PayloadFormats.ElementsWritten` | cacophony/src/rtp_payload.rs:772-797 | elements written for W of zero, one, two or three are read as their concatenation |
| `PayloadFormats.ElementsOfListed` | cacophony/src/rtp_payload.rs:772-797 | a list of sized elements, the W-th up to the end, is read as its concatenation |
| `PayloadFormats.ListedOfElements` | cacophony/src/rtp_payload.rs:772-797 | whatever is read is such a list |
| `PayloadFormats.FragmentsWritten` | cacophony/src/rtp_payload.rs:250-285 | the fragments of a unit carry its body without a gap, full but for the last, start bit on the first, end bit on the last, the unit's type on all |
| `PayloadFormats.VpxWritten` | cacophony/src/rtp_payload.rs:551-578 | VP8 and VP9 payloads carry the frame without a gap, 1199 bytes each but for the last, first and last marked as the formats say |
| `PayloadFormats.Av1Written` | cacophony/src/rtp_payload.rs:580-617 | AV1 payloads carry the frame without a gap, none over the end of an OBU, and their flags say exactly which begin or end inside one |
| `Assembler.RtpFrameAssembler.PushPacket` | cacophony/src/media.rs:261-300 | state and result follow the value-level step in every case, malformed payloads included |
| `Assembly.FramesAreMadeOf` | cacophony/src/media.rs:261-300 | whatever packets come, every frame that comes out is made of packets of one sender with consecutive numbers, in order, opening with the first of a frame |
| `Assembly.GapGivesUp` | cacophony/src/media.rs:261-300 | a packet of the same sender that does not follow on makes the open frame be given up, unless its timestamp closes it |
| `Assembly.NextAdds` | cacophony/src/media.rs:261-300 | the next packet of an open frame adds its bytes, whatever its timestamp unless it is AV1, and completes the frame exactly if its payload says so |
| `Assembly.FirstBeginsAnew` | cacophony/src/media.rs:261-300 | a packet that opens a frame does so whatever else was open |
| `Assembly.StrangerLeaves` | cacophony/src/media.rs:261-300 | a packet of another SSRC, codec or kind of protection that opens no frame leaves the open one alone |
| `Assembly.TimestampCloses` | cacophony/src/media.rs:261-300 | a changed timestamp brings out an open AV1 unit whole |
| `Assembly.UnmarkedUnit` | cacophony/src/media.rs:261-300 | an AV1 frame sent without a marker waits whole and is what the next timestamp brings out |
| `Assembler.RtpFrameAssembler.AppendDepacketized` | cacophony/src/rtp_payload.rs:643-667 | the bytes every kind of payload adds to a frame |
| `Assembler.RtpFrameAssembler.PopFirst` | cacophony/src/media.rs:302-304 | completed frames leave in order |
| `Assembler.RtpFrameAssembler.Clear` | cacophony/src/media.rs:310-313 | nothing partial or completed is left |
| `Packetizer.NextFragmentedPayload` | cacophony/src/rtp_payload.rs:551-578 | hands out the VP8/VP9 payloads one by one and ends with the frame |
| `Packetizer.FindObuEnd` | cacophony/src/rtp_payload.rs:799-824 | the end of an OBU, inside the frame, or a refusal |
| `Packetizer.NextAv1Payload` | cacophony/src/rtp_payload.rs:580-617 | hands out the AV1 payloads one by one, failing exactly on a malformed OBU |
| `Packetizer.H26xPacketizer.constructor` | cacophony/src/rtp_payload.rs:237-248 | has the payloads of all non-empty units still to send |
| `Packetizer.H26xPacketizer.NextPayload` | cacophony/src/rtp_payload.rs:250-285 | hands out the payloads of whole and fragmented units one by one |
| `MediaPath.OutboundRtpState.BuildPacket` | cacophony/src/media.rs:639-687 | sequence numbers rise by one modulo 2^16; timestamps move per packet for audio and behind the marker for video; an empty payload changes nothing |
| `StreamMedia.SentTimes` | cacophony/src/media.rs:639-687 | every packet's timestamp is the first one's, moved on once for every Opus packet or marker before it, modulo 2^32 |
| `MediaPath.FeedAll` | cacophony/src/media.rs:261-300 | feeding a frame's packets to an assembler with no partial yields one frame and leaves no partial |
| `MediaPath.VpxRoundTrip` | cacophony/src/rtp_payload.rs:551-578 | every non-empty VP8/VP9 frame: payloads of at most 1200 bytes, marker on the last only, and exactly the frame back |
| `MediaPath.Av1RoundTrip` | cacophony/src/rtp_payload.rs:580-617 | the same for every AV1 frame the packetizer accepts |
| `MediaPath.OpusRoundTrip` | cacophony/src/rtp_payload.rs:287-317 | an Opus frame travels in one packet and comes back |
| `H26xMediaPath.DepacketizeInverts` | cacophony/src/rtp_payload.rs:93-285 | depacketizing what was packetized gives every unit behind a long start code, whole or fragmented |
| `H26xMediaPath.FrameCollects` | cacophony/src/media.rs:261-300 | what the assembler makes of any sequence of units, with every restart |
| `H26xMediaPath.H26xRoundTrip` | cacophony/src/media.rs:261-300 | the assembler gives the frame back if and only if no unit after the first is fragmented |
| `H26xMediaPath.H26xWellMarked` | cacophony/src/rtp_payload.rs:233-285 | payloads of at most 1200 bytes with the marker on the last only, for any non-empty units |
| `H26xMediaPath.FragmentedSecondUnitLosesFirst` | cacophony/src/rtp_payload.rs:704-745 | a fragmented second unit makes the assembler lose the first |
| `Reorder.PushKeeps` | cacophony/src/state.rs:1473-1526 | every push keeps the missing block contiguous with non-decreasing times and a packet waiting just past it, and the buffer within its bound |
| `Reorder.PopReadyKeeps` | cacophony/src/state.rs:1577-1590 | releasing keeps the same invariant |
| `Reorder.ExpireKeeps` | cacophony/src/state.rs:1599-1645 | expiry, forced or timed, keeps the same invariant |
| `Reorder.ForcedReady` | cacophony/src/state.rs:1518-1523 | after a forced expiry the next packet is buffered and nothing precedes it, so a slot is freed |
| `Reorder.HeadDeadlineIsEarliest` | cacophony/src/state.rs:1592-1597 | the head's deadline is the earliest of all missing entries |
| `Reorder.ExpiresExactly` | cacophony/src/state.rs:1599-1631 | a timed expiry gives up exactly the entries whose time has run out |
| `ReorderRun.RunAccounted` | cacophony/src/state.rs:1473-1645 | the invariants and the tiling of positions hold after every run |
| `ReorderRun.Conservation` | cacophony/src/state.rs:1473-1645 | every position is covered by exactly one event: a hand-over under its number or one report with exact first, last and count; which packet that is, is `ReorderOrigin.HandedIdentity` |
| `ReorderRun.InOrder` | cacophony/src/state.rs:1473-1645 | events cover strictly increasing positions up to the next one |
| `ReorderRun.LosslessRun` | cacophony/src/state.rs:1485-1590 | without loss the assembler was given exactly the accepted packets in sequence, and all others are buffered within the window |
| `ReorderRun.OrderIndependence` | cacophony/src/state.rs:1485-1590 | lossless runs that accepted the same packets and have nothing ready have the same events and the same next position |
| `ReorderRun.NextIsMissing` | cacophony/src/state.rs:1485-1590 | in a lossless run with nothing ready the next position is the first one for which nothing was accepted |
| `ReorderLoss.ExpireStrands` | cacophony/src/state.rs:1599-1645 | timed or forced, a buffered packet is left behind exactly when its own entry is given up, and is then reported |
| `ReorderLoss.GivenUpExactly` | cacophony/src/state.rs:1473-1645 | for every call, from the state before it: which buffered packets are left behind and which are thrown away, and that the report covers them |
| `ReorderedLoss.ExpiryReports` | cacophony/src/state.rs:1599-1645 | an expiry gives up exactly the entries whose time has run out, or all when forced, with one report of their first, last, count, age and first known sender; assembly begins anew |
| `ReorderedLoss.ExpiryIdle` | cacophony/src/state.rs:1599-1631 | without an expired head nothing changes |
| `ReorderedLoss.JumpReportsAll` | cacophony/src/state.rs:1496-1514 | a packet beyond the window is reported as the end of a loss of everything before it, and begins anew |
| `ReorderedLoss.PastIgnored` | cacophony/src/state.rs:1496-1526 | a packet 32768 numbers ahead or more is from the past and changes nothing |
| `ReorderedLoss.KeptForLater` | cacophony/src/state.rs:1516-1568 | numbers newly found missing are recorded with the sender and time of the packet beyond them, which is kept unless one of its number waits |
| `ReorderedLoss.LossBeginsAnew` | cacophony/src/state.rs:1473-1645 | in every reachable state a call that reports a loss reports it first, and then at most one packet meets an empty assembler |
| `ReorderedLoss.MirrorsSinceLoss` | cacophony/src/state.rs:1473-1645 | after every run the frames since the latest loss, out and waiting, are those of an assembler fed the packets handed over since then |
| `ReorderedLoss.OutputsAreMadeOf` | cacophony/src/state.rs:1473-1645 | over every run a frame that a call hands out is made of handed-over packets of one sender with consecutive numbers |
| `ReorderOrigin.HandedOrigin` | cacophony/src/state.rs:1473-1645 | for one call after any run: the packet handed over was accepted for that very position exactly when it came in its turn or no older packet holds the number |
| `ReorderOrigin.RunOrigins` | cacophony/src/state.rs:1473-1645 | after every run the buffered packets were accepted for the positions booked, and those behind the next position were reported lost |
| `ReorderOrigin.HandedIdentity` | cacophony/src/state.rs:1473-1645 | over every run a packet handed over was accepted for a position of the same number at or before its own; for its own exactly if it came in its turn or the number was free |
| `ReorderOccupied.BehindStep` | cacophony/src/state.rs:1473-1645 | one call leaves a number held by a passed packet exactly if it strands that packet, or the number was and the call neither jumps nor hands it over |
| `ReorderOccupied.BehindExactly` | cacophony/src/state.rs:1473-1645 | after every run a number is held by a packet of a passed position exactly if some call stranded it and none since took it out |
| `ReorderOccupied.HandedByCalls` | cacophony/src/state.rs:1473-1645 | over every run, told by the calls: when a packet handed over is the one accepted for its position |
| `ReorderExamples.StrandedExample` | cacophony/src/state.rs:1553-1645 | a run in which a time-out reports an arrived packet lost and leaves it behind |
| `ReorderExamples.ForcedExample` | cacophony/src/state.rs:1518-1523 | a run in which every packet arrives and a full buffer makes two of them be reported lost |
| `ReorderExamples.JumpExample` | cacophony/src/state.rs:1496-1514 | a run in which a jump reports an arrived packet lost and throws it away |
| `ReorderExamples.StaleExample` | cacophony/src/state.rs:1577-1590 | a run in which a packet left behind comes out one cycle later and the right one is refused without a report |
| `ReorderExamples.StaleEarlyExample` | cacophony/src/state.rs:1516-1526 | the same when the right one comes early |
| `ReorderExamples.FirstArrivalExample` | cacophony/src/state.rs:1485-1526 | a run whose first arrival is the second packet: the first one is refused without a report |
| `ReorderExamples.SwappedExample` | cacophony/src/state.rs:1473-1590 | packets that overtake each other and are all handed over: the hypotheses of the stream laws hold of it |
| `ReceiveSsrc.ReceiveSsrcState.PushMediaPacket` | cacophony/src/state.rs:1473-1526 | the wrapping maps of the source compute the unwrapped step in every branch |
| `ReceiveSsrc.ReceiveSsrcState.MarkMissing` | cacophony/src/state.rs:1553-1568 | the map then holds exactly the extended block, earlier entries unchanged |
| `ReceiveSsrc.ReceiveSsrcState.HasReadyBufferedMedia` | cacophony/src/state.rs:1570-1575 | tells whether a frame or the next packet is there |
| `ReceiveSsrc.ReceiveSsrcState.PopReadyBufferedFrame` | cacophony/src/state.rs:1577-1590 | a completed frame first, else the next packet is handed over |
| `ReceiveSsrc.ReceiveSsrcState.PendingReorderDeadline` | cacophony/src/state.rs:1592-1597 | the deadline of the block's head |
| `ReceiveSsrc.ReceiveSsrcState.ExpireMissingHead` | cacophony/src/state.rs:1599-1645 | gives up exactly the expired prefix with one report and clears the assembler |
| `ReorderedMedia.PushYields` | cacophony/src/media.rs:261-304 | frames leave in the order they were completed, and waiting frames do not influence assembly |
| `ReorderedMedia.RunMirrors` | cacophony/src/state.rs:1473-1645 | in a lossless run the frames out and waiting are those of an assembler fed in sequence |
| `Arrivals.PlanTracks` | cacophony/src/state.rs:1473-1645 | after every orderly plan exactly the packets from the first arrival on that have come are accepted, and none is lost |
| `Arrivals.HandsInSequence` | cacophony/src/state.rs:1485-1590 | exactly the packets from the first arrival up to the first one missing are handed over, in sequence |
| `Arrivals.CompleteStream` | cacophony/src/state.rs:1485-1590 | when all packets have come, the stream from the first arrival on is handed over; all of it if and only if its first packet came first |
| `Arrivals.FramesOut` | cacophony/src/state.rs:1485-1590 | the frames that came out are those of an assembler fed the stream from the first arrival on, in sequence |
| `Arrivals.DrainEnds` | cacophony/src/state.rs:1577-1590 | finitely many releases leave nothing ready |
| `StreamMedia.VpxCarries` | cacophony/src/rtp_payload.rs:551-578 | wherever it stands in a stream, a non-empty VP8 or VP9 frame is carried by its packets |
| `StreamMedia.Av1Carries` | cacophony/src/rtp_payload.rs:580-617 | the same for every AV1 frame the packetizer takes |
| `StreamMedia.OpusCarries` | cacophony/src/rtp_payload.rs:287-317 | the same for every Opus frame of one packet |
| `StreamMedia.H26xCarries` | cacophony/src/rtp_payload.rs:233-285 | an H264 or H265 frame is carried if and only if no unit after the first is fragmented |
| `StreamMedia.StreamDelivered` | cacophony/src/media.rs:261-300 | packets of a list of frames, reordered within the window with the first one first, give exactly these frames in order and nothing left over |
| `StreamMedia.VpxStream` | cacophony/src/media.rs:261-300 | whichever packet comes first, exactly the VP8 or VP9 frames that begin at or after it come out; all if and only if the stream's first packet comes first |
| `Driver.AttendedFollows` | cacophony/src/connection/receive.rs:297-319 | taking what is ready after everything that happens keeps the arrivals orderly and leaves nothing ready |
| `Driver.AttendedServes` | cacophony/src/connection/receive.rs:297-319 | so the plan the driver follows meets every hypothesis of the stream laws, from the arrivals alone |
| `Driver.AttendedStream` | cacophony/src/connection/receive.rs:297-319 | packets of a list of frames that come to the driver within the window, the first one first, give exactly these frames in order |
| `Av1Protected.FailsIffUnreadable` | cacophony/src/rtp_payload.rs:580-617 | the AV1 packetizer fails exactly on what does not read as a list of OBUs |
| `Av1Protected.KeptIsSent` | cacophony/src/rtp_payload.rs:580-617 | a protected AV1 frame whose last OBU is kept is taken by the packetizer, whatever the ciphertext |
| `Av1Protected.SentExactly` | dave/src/frame.rs:837-909 | every protection of an AV1 frame is taken if and only if the frame is rewritten and its last OBU kept |
| `Av1Protected.PaddingExample` | dave/src/frame.rs:837-909 | a frame ending in padding, whose last OBU is dropped: under every nonce some ciphertext of it is refused |
| `H26xMediaPath.UnreadableFails` | cacophony/src/rtp_payload.rs:704-745 | one unit sent whole that is of no kind the receiver knows makes the assembler report an error |
| `H26xProtected.UnitsAre` | cacophony/src/rtp_payload.rs:237-248 | the units the packetizer cuts are the kept units, hidden bytes enciphered, with tag and trailer on the last |
| `H26xProtected.ShownExactly` | cacophony/src/rtp_payload.rs:237-285 | such an output comes back whole exactly if the kept units travel |
| `H26xProtected.EndsClearIsLost` | dave/src/frame.rs:944-972 | if the last byte is clear some tag makes the receiver report an error |
| `H26xProtected.FallbackIsLost` | dave/src/frame.rs:556-579 | a frame the codec gave up on has no unit to send |
| `H26xProtected.H26xSentExactly` | dave/src/frame.rs:797-972 | every accepted protection of a frame comes back whole if and only if the codec does not give up, the end is hidden and the kept units travel |
| `H26xProtected.ParameterSetExample` | dave/src/frame.rs:797-972 | a lone parameter set: under every nonce some accepted ciphertext of it does not come back |
| `ProtectedMedia.MadeOpens` | dave/src/ratchet.rs:330-347 | what the sender made is opened by a receiver of the same secret to the bytes laid out |
| `ProtectedMedia.ProtectedStream` | cacophony/src/connection/send.rs:108-146 | sealed, packetized, reordered within the window and assembled, the protected frames come out in order and each opens to what the sender laid out |
| `ProtectedMedia.VpxGoes` | cacophony/src/connection/send.rs:117-129 | every protected VP8 or VP9 frame goes end to end and opens to the frame |
| `ProtectedMedia.OpusGoes` | cacophony/src/connection/send.rs:117-129 | every protected Opus frame of one packet goes end to end and opens to the frame |
| `ProtectedMedia.Av1Goes` | cacophony/src/connection/send.rs:117-129 | a protected AV1 frame whose last OBU is kept goes end to end and opens to the OBUs kept |
| `ProtectedMedia.H26xGoes` | cacophony/src/connection/send.rs:117-129 | a protected H264 or H265 frame with a hidden end, cut as the packetizer cuts it, goes end to end if and only if its kept units travel with the trailer on the last one, and opens to these units |
| `ProtectedMedia.H26xGivenUp` | cacophony/src/connection/send.rs:117-129 | a protected frame the codec gave up on never goes: the packetizer finds no unit |
| `ProtectedReceiver.OpenNext` | dave/src/ratchet.rs:330-347 | a frame of a new count in a reachable generation is opened to what the sender laid out, and enters the history |
| `ProtectedReceiver.OpenAll` | dave/src/ratchet.rs:330-409 | one manager opens all frames whose counts rise: none is taken for a replay, and the history grows by exactly the counts |
| `ProtectedReceiver.ReceiveStream` | cacophony/src/connection/receive.rs:297-319 | sealed, packetized, reordered within the window, taken by the driver, assembled and given to one manager, all frames of a stream are opened in order |
| `Queue.DeadlineSet.Insert` | cacophony/src/queue.rs:323-331 | the key has the new deadline in both indexes and no empty bucket remains |
| `Queue.DeadlineSet.Remove` | cacophony/src/queue.rs:333-339 | the key is gone from both indexes; tells whether it was there |
| `Queue.DeadlineSet.NextDeadline` | cacophony/src/queue.rs:341-345 | the least deadline of any key |
| `Queue.DeadlineSet.PopExpired` | cacophony/src/queue.rs:347-360 | takes a key of the least deadline exactly when that has passed |
| `Queue.DeadlineSet.FirstMatching` | cacophony/src/queue.rs:362-366 | a selected key of the least deadline among the selected ones, if any |
| `Queue.DeadlineSet.RemoveFromDeadline` | cacophony/src/queue.rs:368-377 | the key leaves one bucket, which goes too when it would be empty |
| `Queue.InsertedSorted` | cacophony/src/queue.rs:188-205 | insertion keeps a bucket sorted and adds exactly the item |
| `Queue.InsertSorted` | cacophony/src/queue.rs:188-205 | the new item goes behind every item due no later and before the first later one |
| `Queue.BucketDeadlineQueue.Push` | cacophony/src/queue.rs:188-205 | only the one bucket changes, and the index again equals the fronts |
| `Queue.BucketDeadlineQueue.RefreshBucketDeadline` | cacophony/src/queue.rs:233-239 | the index again equals the fronts of the non-empty buckets |
| `Queue.BucketDeadlineQueue.PopBucketFront` | cacophony/src/queue.rs:227-231 | exactly the front of one bucket is taken |
| `Queue.BucketDeadlineQueue.PopExpired` | cacophony/src/queue.rs:207-210 | takes an item of the globally earliest deadline exactly when that has passed; nothing else changes |
| `Queue.BucketDeadlineQueue.PopMatching` | cacophony/src/queue.rs:212-215 | takes the earliest item of the selected buckets, if any |
| `Queue.BucketDeadlineQueue.Retain` | cacophony/src/queue.rs:221-225 | keeps the chosen items of one bucket in order |
| `Queue.FilteredCounts` | cacophony/src/queue.rs:221-225 | a kept item occurs as often as before |
| `Scheduler.ReceiveState.PushMediaPacket` | cacophony/src/state.rs:1177-1194 | one SSRC takes the step, the others are untouched, and both schedules agree again |
| `Scheduler.ReceiveState.RefreshSsrcSchedules` | cacophony/src/state.rs:1262-1275 | an SSRC with something ready joins the end of the ready queue unless it is there; the index equals the head deadlines |
| `Scheduler.ReceiveState.PopReadyBufferedSsrc` | cacophony/src/state.rs:1234-1246 | the first SSRC of the queue with something ready, those before it being passed over; none only if none has |
| `Scheduler.ReceiveState.ExpiredMissingSsrc` | cacophony/src/state.rs:1248-1260 | an SSRC whose head has expired and is the earliest to do so, or none has |
| `Scheduler.ReceiveState.DrainOrderedMedia` | cacophony/src/state.rs:1196-1232 | terminates; time-outs only while nothing is ready, the earliest expired head first; nothing a turn gives is kept back; returns what the last turn gave, or nothing only when no SSRC is ready and no head has expired |
| `Scheduler.ReceiveState.PruneSsrcs` | cacophony/src/state.rs:1162-1175 | the removed SSRCs leave states, queue and index; the rest keeps its order |
| `Scheduler.TotalUpdate` | cacophony/src/state.rs:1205-1231 | every turn of the drain loop shrinks the total of buffered and missing entries |
| `Opus.DurationsAgree` | cacophony/src/opus.rs:1493-1511 | the shifts and masks compute the frame durations of table 2 of RFC 6716 |
| `Opus.Decides` | cacophony/src/opus.rs:1347-1493 | the parser gives a duration exactly for serializations of packets that long, up to 120 ms |
| `Opus.SamplesOfPacket` | cacophony/src/opus.rs:1347-1493 | every serialized packet of up to 120 ms is parsed with its duration |
| `Opus.PacketOfSamples` | cacophony/src/opus.rs:1347-1493 | whatever is parsed is the serialization of some packet |
| `Opus.ParsePaddingLen` | cacophony/src/opus.rs:1466-1483 | the loop over the chain of 255s computes length and header size |
| `Opus.ValidateVbrFrameSizes` | cacophony/src/opus.rs:1429-1450 | accepts exactly when the size fields fit the data |
| `Opus.ManyFrameCount` | cacophony/src/opus.rs:1395-1427 | the frame count of a code 3 packet, or a refusal |
| `Opus.PacketFrameCount` | cacophony/src/opus.rs:1363-1393 | the frame count of a packet of any code, or a refusal |
| `Opus.ValidatePacketBytes` | cacophony/src/opus.rs:1324-1345 | accepts exactly the serializations of at most 4096 bytes lasting 960 samples; every other verdict is justified |
| `Playout.RateBound` | cacophony/src/connection/playout.rs:496-591 | between two sends lie fewer frames than fit the elapsed time plus three |
| `Playout.DueAdvances` | cacophony/src/connection/playout.rs:514-588 | due times advance by at least one frame per send, across drops, rebases and underflows |
| `Playout.SteadyDue` | cacophony/src/connection/playout.rs:514-588 | between two sends without a rebase, an underflow or a wait due times differ by exactly 20 ms for every frame that left the queue |
| `Playout.Drops` | cacophony/src/connection/playout.rs:520-527 | drops only while three frames late and never the last queued frame |
| `Playout.ActiveOpusPlayout.RecordUnderflowIfNeeded` | cacophony/src/connection/playout.rs:282-294 | exactly a queue that ran dry past its due time while more is to come gives up its schedule; pacing is kept |
| `Playout.ActiveOpusPlayout.Push` | cacophony/src/connection/playout.rs:272-275 | one frame joins the end of the queue, behind a new schedule exactly after an underflow |
| `Playout.ActiveOpusPlayout.PushMany` | cacophony/src/connection/playout.rs:272-280 | frames join the queue in order, none is lost, and a new schedule begins exactly after an underflow |
| `Playout.ActiveOpusPlayout.DropStale` | cacophony/src/connection/playout.rs:519-532 | frames are given up one by one while 60 ms late and not the last, each moving the due time by 20 ms; if the last is that late too, and only then, the schedule is rebased to now |
| `Playout.ActiveOpusPlayout.Resolve` | cacophony/src/connection/playout.rs:496-591 | the exact outcome in every case: completed, idle, waiting for DAVE, or the stale frames given up and the next one sent, with its due time and the next one 20 ms behind it; frames sent, given up and queued are the frames pushed, in order |
| `Gateway.RunConsistent` | cacophony/src/state.rs:983-1053 | after any events send and receive agree, an unknown protocol means unknown media, and all pending messages carry one transition id, the phase's when it has one |
| `Gateway.ViewsAgree` | cacophony/src/dave.rs:709-746 | in every reachable state sending and receiving need DAVE together, and the published state answers the same |
| `Gateway.LeavesExactly` | cacophony/src/state.rs:983-1037 | with DAVE active, one event ends it exactly if it is a session without DAVE or executes the prepared transport transition |
| `Gateway.EntersExactly` | cacophony/src/state.rs:983-1037 | without DAVE, one event makes it active exactly if it executes the prepared DAVE transition, or prepares transition zero of epoch one; in both directions and with the version prepared |
| `Gateway.ActiveAfter` | cacophony/src/state.rs:983-1053 | what is active after any event in any state |
| `Gateway.PreparedTakesEffect` | cacophony/src/state.rs:994-1037 | from every reachable state a transition prepared and then executed is active in both directions |
| `Gateway.PhaseAfter` | cacophony/src/state.rs:983-1053 | the waiting transition, the negotiated protocol and the epoch after any event |
| `Gateway.PendingAfter` | cacophony/src/state.rs:983-1053 | pending proposals and messages after any event: kept unless obsolete, the new one in its place |
| `Gateway.DaveStays` | cacophony/src/dave.rs:714-718 | once DAVE is active sending requires it until such an event |
| `Gateway.DaveEnds` | cacophony/src/dave.rs:714-718 | and no longer after it |
| `Gateway.ReadyAfterExecution` | cacophony/src/dave.rs:710-712 | media is ready after an execution exactly when no other transition waits |
| `Gateway.DaveInternalState.SetSessionProtocol` | cacophony/src/state.rs:983-992 | a changed protocol drops pending messages; one without DAVE becomes active at once |
| `Gateway.DaveInternalState.PrepareTransition` | cacophony/src/state.rs:994-1016 | another id drops pending messages; transition zero of epoch one executes itself |
| `Gateway.DaveInternalState.PrepareEpoch` | cacophony/src/state.rs:1018-1029 | a new or first epoch drops pending messages and keeps the transition |
| `Gateway.DaveInternalState.ExecuteTransition` | cacophony/src/state.rs:1031-1037 | only the prepared transition changes active media; pending messages go either way; what becomes active and what waits then is `Gateway.ActiveAfter` and `Gateway.PhaseAfter` |
| `Gateway.DaveInternalState.SetPendingMlsMessage` | cacophony/src/state.rs:1039-1047 | the phase takes the message's id, and messages of another id are dropped first |
| `Gateway.DaveInternalState.ClearPendingMls` | cacophony/src/state.rs:1049-1052 | proposals and both message slots are emptied and nothing else changes |

## Left out

- MLS group handling, proposals, commits and welcomes: only an abstract secret per sender is needed.
- Internals of AES-GCM, the transport ciphers, HKDF and signatures: function values with hypotheses.
- `Decryptor` with several key managers and plaintext passthrough: a list of the managers modelled here.
- Websocket, UDP, the rest of the driver loop, observers, statistics, configuration, JSON and PCM.
- `DeadlineQueue` and `PendingDaveMediaQueues`: thin variants of the modelled queues; retrying pending DAVE media may put a frame back where it was taken from and ends by the wall clock only.
- Raw packet capture alongside assembled frames.
- Ratchet.HashRatchet.Get: generation 2^32 - 1 is excluded, because there the source's loop wraps around and never ends (`Ratchet.LoopEndsUnlessLast`).
- Sender.Encryptor.AdvanceCipher: stops short of the frame counts that would reach that generation, about 2^56 per activation.
- Receiver.CryptorManager.Decrypt: the lifetime bound computed from the wall clock is an argument below 2^32 - 512, and times are in milliseconds.
- FrameCodecs.Process: frame and layout are no longer than a vector can be; a longer layout cannot be allocated by the source either.
- Sender.Encryptor.EncryptInto: the bounds of `FrameCodecs.Process` and `Sender.Encryptor.AdvanceCipher`.
- Receiver.CryptorManager.FindCipher: the lifetime bound is an argument below 2^32 - 512, so that erasing stays clear of the last generation.
- StreamMedia.StreamDelivered: plans release what is ready before the next arrival, as `Driver.AttendedStream` shows of the driver's own, and keep within the window; beyond it `ReorderLoss.GivenUpExactly` says what is given up.
- ProtectedMedia.H26xGoes: units of types 24 and 28 (H264) or 48 and 49 (H265) are excluded here and in `H26xProtected.H26xSentExactly`; sections 5.2 of RFC 6184 and 4.4 of RFC 7798 use these types for packets only, and the receiver would take such a unit for a packet of that kind.
- ProtectedReceiver.OpenAll: generations stay less than 256 above the oldest one kept at the start and rise by at most 250 between frames, and the lifetime bound is as for `Receiver.CryptorManager.Decrypt`.
- Driver.AttendedStream: the queue of ready frames is never full; a full one makes the driver leave packets in the buffer.
- HiddenBytes.PpsReadsNumbers: an emulation prevention byte among a number's last bits is counted as bits of the number, as in the source; a decoder would pass over it.
- AnnexB.FindNextNalu: start codes in the very last three bytes are not seen, as in the source; visible codes are those before.
- Scheduler.ReceiveState.DrainOrderedMedia: states of single SSRCs are values in a map, as the map owns them in the source; the choice between equal deadlines is open.
- ReceiveSsrc.ReceiveSsrcState.PushMediaPacket: arrival statistics are not modelled, and loss reports are recorded whether or not an observer listens.
- Playout.ActiveOpusPlayout.Resolve: sending is an argument that succeeds or fails; while DAVE is awaited stale frames are dropped without moving the due time, so drops are not tied to elapsed frames.
- Gateway.DaveInternalState.PrepareEpoch: the external sender and restoring a saved state are not modelled.
