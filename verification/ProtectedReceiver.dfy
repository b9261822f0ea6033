/** The whole path with the receiver's own state: one `CryptorManager` opens a stream of protected frames. */
module ProtectedReceiver {
  import opened Prelude
  import opened Interleave
  import opened Codecs
  import opened Frame
  import opened Ratchet
  import opened Replay
  import opened Sender
  import opened Receiver
  import opened ProtectedMedia
  import Assembler
  import MediaPath
  import Reorder
  import ReorderedMedia
  import Arrivals
  import StreamMedia
  import Driver

  /** A count the manager has not seen, in a generation it can still reach. */
  ghost predicate Acceptable(count: nat, log: seq<nat>, oldest: nat, newest: nat, limit: nat) {
    && (log == [] || Newest(log) < count)
    && newest <= GenerationAt(count) <= newest + MAX_GENERATION_GAP && GenerationAt(count) < oldest + GENERATION_WRAP
    && GenerationAt(count) <= limit < CLOCK_GENERATION_LIMIT
  }

  lemma MadeUnwraps(kdf: Kdf, aead: Aead, root: seq<byte>, codec: Codec, shot: Shot, oldest: nat)
    requires Trusted(kdf, aead) && Made(kdf, aead, root, codec, shot)
    requires oldest <= GenerationAt(shot.count) < oldest + GENERATION_WRAP
    ensures
      var p := ParseFrame(shot.output);
      && Placed(p.unencryptedRanges, |p.interleavedFrame|) && p.truncatedNonce < 0x1_0000_0000
      && var generation := WrappedGeneration(oldest, GenerationByte(p.truncatedNonce));
      && generation == GenerationAt(shot.count) && WrappedNonce(generation, p.truncatedNonce) == shot.count
      && Faithful(aead(KeyAt(kdf, root, generation))) && Open(aead(KeyAt(kdf, root, generation)), p) == Some(shot.laid)
  {
    hide Trusted, KeyAt, Faithful, Placed, Clear, ParseFrame, GenerationAt, TruncatedAt, WrappedGeneration, WrappedNonce,
         GenerationByte, KeepsCodes, SupplementalSize;
    ParsedIsUsable(shot.output);
    ReceiverRecovers(kdf, aead, root, shot.count, ParseFrame(shot.output), shot.laid, shot.ranges, oldest);
  }

  /** One acceptable frame is opened. */
  method OpenNext(manager: CryptorManager, frame: seq<byte>, elapsed: nat, limit: nat, ghost codec: Codec, ghost shot: Shot)
    returns (r: DecryptResult)
    requires manager.Valid() && Made(manager.ratchet.kdf, manager.aead, manager.ratchet.root, codec, shot)
    requires frame == shot.output && |frame| <= ISIZE_MAX
    requires Acceptable(shot.count, manager.window.log, manager.oldestGeneration, manager.newestGeneration, limit)
    modifies manager, manager.ratchet, manager.window, manager.window.missing
    ensures r == Opened(shot.laid) && manager.Valid()
    ensures old(manager.oldestGeneration) <= manager.oldestGeneration && manager.newestGeneration == GenerationAt(shot.count)
    ensures manager.window.log == old(manager.window.log) + [shot.count]
  {
    hide Trusted, KeyAt, Faithful, Made, ParseFrame, GenerationAt, WrappedGeneration, WrappedNonce, GenerationByte, Placed,
         Newest, Open;
    MadeUnwraps(manager.ratchet.kdf, manager.aead, manager.ratchet.root, codec, shot, manager.oldestGeneration);
    var p := Parse(frame);
    r := manager.Decrypt(p, elapsed, limit);
  }

  /** Counts that rise, by not too many generations at a time. */
  ghost predicate Rising(shots: seq<Shot>, limits: seq<nat>, log: seq<nat>, oldest: nat, newest: nat) {
    && |limits| == |shots|
    && forall i :: 0 <= i < |shots| ==> RisingAt(shots, limits, log, oldest, newest, i)
  }

  ghost predicate RisingAt(shots: seq<Shot>, limits: seq<nat>, log: seq<nat>, oldest: nat, newest: nat, i: nat)
    requires i < |shots| == |limits|
  {
    if i == 0 then Acceptable(shots[0].count, log, oldest, newest, limits[0])
    else Acceptable(shots[i].count, [shots[i - 1].count], oldest, GenerationAt(shots[i - 1].count), limits[i])
  }

  function Counts(shots: seq<Shot>): seq<nat> {
    seq(|shots|, i requires 0 <= i < |shots| => shots[i].count)
  }

  function Laid(shots: seq<Shot>): seq<seq<byte>> {
    seq(|shots|, i requires 0 <= i < |shots| => shots[i].laid)
  }

  lemma NewestIsLast(log: seq<nat>, count: nat)
    requires log == [] || Newest(log) < count
    ensures Newest(log + [count]) == count
  {
    assert (log + [count])[..|log|] == log;
  }

  /** The frame is acceptable to a manager that has opened the ones before it. */
  lemma StillAcceptable(shots: seq<Shot>, limits: seq<nat>, start: seq<nat>, oldest: nat, newest: nat, i: nat, log: seq<nat>, oldest': nat,
                        newest': nat)
    requires Rising(shots, limits, start, oldest, newest) && i < |shots| && oldest <= oldest'
    requires if i == 0 then log == start && newest' == newest
             else log != [] && Newest(log) == shots[i - 1].count && newest' == GenerationAt(shots[i - 1].count)
    ensures Acceptable(shots[i].count, log, oldest', newest', limits[i])
  {
    hide GenerationAt;
    assert RisingAt(shots, limits, start, oldest, newest, i);
  }

  /**
   * One manager opens all frames of a stream whose counts rise: none is taken for a replay, each is opened to what the
   * sender laid out, and the history grows by exactly the counts.
   */
  method OpenAll(manager: CryptorManager, frames: seq<seq<byte>>, elapsed: seq<nat>, limits: seq<nat>, ghost codec: Codec,
                 ghost shots: seq<Shot>)
    returns (plains: seq<seq<byte>>)
    requires manager.Valid() && |elapsed| == |frames| == |shots|
    requires Rising(shots, limits, manager.window.log, manager.oldestGeneration, manager.newestGeneration)
    requires forall i :: 0 <= i < |shots| ==>
               && Made(manager.ratchet.kdf, manager.aead, manager.ratchet.root, codec, shots[i])
               && frames[i] == shots[i].output && |frames[i]| <= ISIZE_MAX
    modifies manager, manager.ratchet, manager.window, manager.window.missing
    ensures manager.Valid() && plains == Laid(shots)
    ensures manager.window.log == old(manager.window.log) + Counts(shots)
  {
    hide Made, Acceptable, Newest, GenerationAt, Rising, CryptorManager.Valid;
    assert |limits| == |shots| by { LimitsMatch(shots, limits, manager.window.log, manager.oldestGeneration, manager.newestGeneration); }
    plains := [];
    ghost var start, oldest, newest := manager.window.log, manager.oldestGeneration, manager.newestGeneration;
    for i := 0 to |frames|
      invariant manager.Valid() && oldest <= manager.oldestGeneration
      invariant plains == Laid(shots)[..i] && manager.window.log == start + Counts(shots)[..i]
      invariant if i == 0 then manager.newestGeneration == newest
                else manager.newestGeneration == GenerationAt(shots[i - 1].count) && Newest(manager.window.log) == shots[i - 1].count
    {
      StillAcceptable(shots, limits, start, oldest, newest, i, manager.window.log, manager.oldestGeneration,
                      manager.newestGeneration);
      AcceptableNewest(shots[i].count, manager.window.log, manager.oldestGeneration, manager.newestGeneration, limits[i]);
      var r := OpenNext(manager, frames[i], elapsed[i], limits[i], codec, shots[i]);
      plains := plains + [r.plain];
      SnocCounts(start, Counts(shots), i);
    }
  }

  lemma LimitsMatch(shots: seq<Shot>, limits: seq<nat>, log: seq<nat>, oldest: nat, newest: nat)
    requires Rising(shots, limits, log, oldest, newest)
    ensures |limits| == |shots|
  {
  }

  lemma SnocCounts(start: seq<nat>, counts: seq<nat>, i: nat)
    requires i < |counts|
    ensures start + counts[..i] + [counts[i]] == start + counts[..i + 1]
  {
  }

  lemma AcceptableNewest(count: nat, log: seq<nat>, oldest: nat, newest: nat, limit: nat)
    requires Acceptable(count, log, oldest, newest, limit)
    ensures Newest(log + [count]) == count
  {
    hide Newest;
    NewestIsLast(log, count);
  }

  /**
   * End to end: a stream of protected frames whose pieces carry them, its packets coming to the driver in any order
   * within the window with the first one first, and a manager with the sender's secret. What comes out of the assembler,
   * frame by frame, is opened to what the sender laid out, in order and all of it.
   */
  method ReceiveStream(manager: CryptorManager, frames: seq<seq<byte>>, elapsed: seq<nat>, limits: seq<nat>,
                       ghost stream: MediaPath.Stream, ghost shots: seq<Shot>, ghost seqno: u16, ghost timestamp: u32,
                       ghost acts: seq<Arrivals.Moment>, ghost tuning: Reorder.Tuning)
    returns (plains: seq<seq<byte>>)
    requires manager.Valid() && |elapsed| == |shots|
    requires Rising(shots, limits, manager.window.log, manager.oldestGeneration, manager.newestGeneration)
    requires forall i :: 0 <= i < |shots| ==>
               Goes(manager.ratchet.kdf, manager.aead, manager.ratchet.root, stream, shots[i]) && |shots[i].output| <= ISIZE_MAX
    requires
      var packets := MediaPath.Sent(stream, StreamMedia.AllPieces(ItemsOf(shots)), seqno, timestamp);
      && Arrivals.Orderly(acts, packets, tuning) && Arrivals.Complete(acts, |packets|) && Arrivals.First(acts) == Some(0)
      && frames == StreamMedia.BytesOf(ReorderedMedia.Outputs(
           Arrivals.Calls(Driver.Attended(acts, packets, stream.ssrc, tuning), packets), stream.ssrc, tuning))
    modifies manager, manager.ratchet, manager.window, manager.window.missing
    ensures manager.Valid() && plains == Laid(shots)
    ensures manager.window.log == old(manager.window.log) + Counts(shots)
  {
    hide Made, Rising, MediaPath.Sent, StreamMedia.Carries, StreamMedia.AllPieces, Arrivals.Orderly, Arrivals.Complete, Arrivals.First,
         Driver.Attended, ReorderedMedia.Outputs, StreamMedia.BytesOf;
    ghost var items := ItemsOf(shots);
    forall k | 0 <= k < |items|
      ensures StreamMedia.Carries(stream, items[k].pieces, items[k].bytes)
    {
      assert Goes(manager.ratchet.kdf, manager.aead, manager.ratchet.root, stream, shots[k]);
    }
    Driver.AttendedStream(stream, items, seqno, timestamp, acts, tuning);
    assert frames == StreamMedia.AllBytes(items);
    plains := OpenAll(manager, frames, elapsed, limits, stream.codec, shots);
  }
}
