/**
 * The whole path: frames are protected by the sender, cut into packets, reordered on the way, put back together and
 * opened by the receiver.
 */
module ProtectedMedia {
  import opened Prelude
  import opened Codecs
  import opened Interleave
  import opened Frame
  import opened FrameCodecs
  import opened Ratchet
  import opened Sender
  import opened Assembler
  import opened Packetizer
  import opened MediaPath
  import opened Reorder
  import opened ReorderRun
  import opened ReorderedMedia
  import opened Arrivals
  import opened StreamMedia
  import Av1Frame
  import Av1Protected
  import AnnexB
  import H26xFrame
  import H26xMediaPath
  import H26xProtected
  import H26xValidation

  /** A frame, what the sender made of it at count `count`, and the pieces it was cut into. */
  datatype Shot = Shot(frame: seq<byte>, output: seq<byte>, count: nat, laid: seq<byte>, ranges: seq<Range>, pieces: seq<Piece>)

  /** The sender's key at a count. */
  ghost function KeyFor(kdf: Kdf, root: seq<byte>, count: nat): seq<byte> {
    KeyAt(kdf, root, GenerationAt(count))
  }

  /** What `Sender.Encryptor.EncryptInto` promises of its output. */
  ghost predicate Made(kdf: Kdf, aead: Aead, root: seq<byte>, codec: Codec, shot: Shot) {
    && |shot.frame| <= ISIZE_MAX && FrameLayout(codec, shot.frame) == Layout(shot.laid, shot.ranges)
    && Protects(aead, codec, shot.frame, shot.output, KeyFor(kdf, root, shot.count), TruncatedAt(shot.count), shot.laid,
                shot.ranges)
  }

  /** The receiver, still keeping generation `oldest`, finds key and counter in the bytes and opens them to `laid`. */
  ghost predicate Opens(kdf: Kdf, aead: Aead, root: seq<byte>, bytes: seq<byte>, oldest: nat, count: nat, laid: seq<byte>) {
    && var p := ParseFrame(bytes);
    && p.encrypted && p.truncatedNonce < 0x1_0000_0000 && Placed(p.unencryptedRanges, |p.interleavedFrame|)
    && var generation := WrappedGeneration(oldest, GenerationByte(p.truncatedNonce));
    && WrappedNonce(generation, p.truncatedNonce) == count
    && Faithful(aead(KeyAt(kdf, root, generation)))
    && Open(aead(KeyAt(kdf, root, generation)), p) == Some(laid)
  }

  lemma MadeOpens(kdf: Kdf, aead: Aead, root: seq<byte>, codec: Codec, shot: Shot, oldest: nat)
    requires Trusted(kdf, aead) && Made(kdf, aead, root, codec, shot)
    requires oldest <= GenerationAt(shot.count) < oldest + GENERATION_WRAP
    ensures Opens(kdf, aead, root, shot.output, oldest, shot.count, shot.laid)
  {
    hide Trusted, KeyAt, Faithful, Placed, Clear, ParseFrame, FrameLayout, GenerationAt, TruncatedAt, WrappedGeneration,
         WrappedNonce, GenerationByte, CodecLayout;
    ParsedIsUsable(shot.output);
    ReceiverRecovers(kdf, aead, root, shot.count, ParseFrame(shot.output), shot.laid, shot.ranges, oldest);
  }

  function ItemsOf(shots: seq<Shot>): seq<Item> {
    seq(|shots|, i requires 0 <= i < |shots| => Item(shots[i].pieces, shots[i].output))
  }

  /** The shot was made by the sender and its pieces carry it. */
  ghost predicate Goes(kdf: Kdf, aead: Aead, root: seq<byte>, stream: Stream, shot: Shot) {
    Made(kdf, aead, root, stream.codec, shot) && Carries(stream, shot.pieces, shot.output)
  }

  /**
   * End to end, for every stream of protected frames whose pieces carry them: over an orderly network exactly
   * the protected frames come out, in order, and the receiver opens each to the bytes the sender laid out.
   */
  lemma ProtectedStream(kdf: Kdf, aead: Aead, root: seq<byte>, stream: Stream, shots: seq<Shot>, seqno: u16, timestamp: u32,
                        plan: seq<Moment>, tuning: Tuning, i: nat, oldest: nat)
    requires Trusted(kdf, aead) && forall k :: 0 <= k < |shots| ==> Goes(kdf, aead, root, stream, shots[k])
    requires
      var packets := Sent(stream, AllPieces(ItemsOf(shots)), seqno, timestamp);
      Serves(plan, packets, stream.ssrc, tuning) && First(plan) == Some(0)
    requires i < |shots| && oldest <= GenerationAt(shots[i].count) < oldest + GENERATION_WRAP
    ensures
      var out := Outputs(Calls(plan, Sent(stream, AllPieces(ItemsOf(shots)), seqno, timestamp)), stream.ssrc, tuning);
      && |out| == |shots| && out[i].bytes == shots[i].output
      && Opens(kdf, aead, root, out[i].bytes, oldest, shots[i].count, shots[i].laid)
  {
    hide Trusted, Made, Carries, Opens, Sent, AllPieces, First, Outputs, GenerationAt, Run, HasReady, Windowed, Patient, Drained,
         Complete, Numbered, Timed;
    var items := ItemsOf(shots);
    forall k | 0 <= k < |items|
      ensures Carries(stream, items[k].pieces, items[k].bytes)
    {
      assert Goes(kdf, aead, root, stream, shots[k]);
    }
    StreamDelivered(stream, items, seqno, timestamp, plan, tuning);
    assert Goes(kdf, aead, root, stream, shots[i]);
    MadeOpens(kdf, aead, root, stream.codec, shots[i], oldest);
    var out := Outputs(Calls(plan, Sent(stream, AllPieces(items), seqno, timestamp)), stream.ssrc, tuning);
    assert |BytesOf(out)| == |out| && BytesOf(out)[i] == AllBytes(items)[i];
  }

  // ----- Which frames go -----

  lemma OutputSome(kdf: Kdf, aead: Aead, root: seq<byte>, codec: Codec, shot: Shot)
    requires Made(kdf, aead, root, codec, shot)
    ensures shot.output != [] && ParseFrame(shot.output).encrypted
  {
    hide KeyAt, Faithful, Placed, Clear, FrameLayout, GenerationAt, TruncatedAt, CodecLayout, ParseRanges, Open;
  }

  /** Every protected VP8 or VP9 frame goes, and is opened to the frame itself. */
  lemma VpxGoes(kdf: Kdf, aead: Aead, root: seq<byte>, header: VpxHeader, stream: Stream, shot: Shot)
    requires stream.codec == VpxCodec(header) && Made(kdf, aead, root, stream.codec, shot)
    requires shot.pieces == VpxPieces(header, shot.output, 0)
    ensures Goes(kdf, aead, root, stream, shot) && shot.laid == shot.frame
  {
    OutputSome(kdf, aead, root, stream.codec, shot);
    hide Protects, Carries, VpxPieces, CodecLayout;
    VpxCarries(header, shot.output, stream);
    PlainCodecsKeepFrame(stream.codec, shot.frame);
  }

  /** Every protected Opus frame that fits a packet goes, and is opened to the frame itself. */
  lemma OpusGoes(kdf: Kdf, aead: Aead, root: seq<byte>, stream: Stream, shot: Shot)
    requires stream.codec.Opus? && Made(kdf, aead, root, stream.codec, shot)
    requires |shot.output| <= MAX_PAYLOAD && shot.pieces == [Piece(shot.output, false)]
    ensures Goes(kdf, aead, root, stream, shot) && shot.laid == shot.frame
  {
    hide Protects, Carries, CodecLayout;
    OpusCarries(shot.output, stream);
    PlainCodecsKeepFrame(stream.codec, shot.frame);
  }

  /**
   * A protected AV1 frame whose last OBU is kept goes, and is opened to the rewritten frame, which reads as the
   * frame's OBUs without the dropped ones. `Av1Protected.SentExactly` says that no other frame always goes.
   */
  lemma Av1Goes(kdf: Kdf, aead: Aead, root: seq<byte>, stream: Stream, shot: Shot)
    requires stream.codec == Av1 && Made(kdf, aead, root, stream.codec, shot) && |shot.output| <= ISIZE_MAX
    requires Av1Frame.Rewrite(shot.frame).Some? && Av1Protected.EndsKept(shot.frame)
    requires shot.pieces == Av1From(shot.output, 0).pieces
    ensures Goes(kdf, aead, root, stream, shot) && Av1Frame.ReadObus(shot.frame).Some?
    ensures Av1Frame.ReadObus(shot.laid) == Some(Av1Frame.Kept(Av1Frame.ReadObus(shot.frame).value))
  {
    OutputSome(kdf, aead, root, stream.codec, shot);
    hide Carries, Av1From, Recovers, KeyAt, Faithful, Placed, Av1Protected.EndsKept, Av1Frame.Rewrite, Av1Frame.RangesFrom,
         GenerationAt, TruncatedAt, ParseFrame, Av1Frame.ReadObus;
    Av1Protected.KeptIsSent(aead(KeyFor(kdf, root, shot.count)), shot.frame, shot.output, TruncatedAt(shot.count), shot.laid,
                            shot.ranges);
    Av1Carries(shot.output, stream);
    Av1Frame.RewriteKeepsMeaning(shot.frame);
  }

  /** The packets an H264 or H265 frame is cut into: those of its non-empty units. */
  function H26xCut(codec: H26xFrame.H26x, output: seq<byte>): seq<Piece> {
    H26xPieces(codec, AnnexB.NonEmpty(AnnexB.Units(output)))
  }

  /**
   * A protected H264 or H265 frame whose last byte is hidden goes exactly if its kept units travel with tag and
   * trailer on the last one; it is opened to the kept units behind long start codes. `H26xProtected.H26xSentExactly`
   * says that no other frame always goes.
   */
  lemma H26xGoes(kdf: Kdf, aead: Aead, root: seq<byte>, codec: H26xFrame.H26x, stream: Stream, shot: Shot)
    requires stream.codec == H26xMediaPath.CodecOf(codec) && Made(kdf, aead, root, stream.codec, shot)
    requires CodecLayout(stream.codec, shot.frame).Some? && H26xValidation.EndsHidden(shot.laid, shot.ranges)
    requires H26xProtected.Ordinary(codec, H26xFrame.Kept(shot.frame)) && shot.pieces == H26xCut(codec, shot.output)
    ensures
      var kept := H26xFrame.Kept(shot.frame);
      && (Goes(kdf, aead, root, stream, shot) <==>
            H26xProtected.Travels(codec, kept, SupplementalSize(TruncatedAt(shot.count), shot.ranges)))
      && H26xProtected.ShowsHeads(kept, shot.output) && AnnexB.Units(shot.output) == H26xProtected.Recut(kept, shot.output)
      && shot.laid == AnnexB.Join(kept)
  {
    hide Made, Carries, H26xPieces, H26xProtected.Travels, H26xProtected.Shown, H26xProtected.Ordinary, H26xFrame.Kept,
         AnnexB.NonEmpty, AnnexB.Units, AnnexB.Join, H26xProtected.Recut, H26xProtected.ShowsHeads, SupplementalSize, CodecLayout,
         TruncatedAt, H26xValidation.EndsHidden;
    MadeShows(kdf, aead, root, codec, stream.codec, shot);
    H26xProtected.ShownExactly(codec, shot.frame, shot.laid, shot.ranges, shot.output, stream);
  }

  lemma MadeShows(kdf: Kdf, aead: Aead, root: seq<byte>, codec: H26xFrame.H26x, wire: Codec, shot: Shot)
    requires wire == H26xMediaPath.CodecOf(codec) && Made(kdf, aead, root, wire, shot)
    requires CodecLayout(wire, shot.frame).Some? && H26xValidation.EndsHidden(shot.laid, shot.ranges)
    ensures H26xProtected.Shown(codec, shot.frame, shot.laid, shot.ranges, shot.output)
    ensures |shot.output| == |shot.laid| + SupplementalSize(TruncatedAt(shot.count), shot.ranges)
    ensures shot.laid == AnnexB.Join(H26xFrame.Kept(shot.frame))
  {
    hide KeyAt, Faithful, Placed, Clear, GenerationAt, TruncatedAt, Open, AnnexB.Join, H26xFrame.Kept, H26xFrame.Ranges,
         AnnexB.Visible, ParseFrame, SupplementalSize;
    H26xProtected.LayoutIs(codec, shot.frame);
    var body := ParseFrame(shot.output).interleavedFrame;
    ParsedIsPrefix(shot.output);
    assert shot.output[..|shot.laid|] == body;
    EndsWithMarker(shot.output);
  }

  lemma EndsWithMarker(output: seq<byte>)
    requires ParseFrame(output).encrypted
    ensures H26xProtected.PlainEnd(output)
  {
    hide ParseRanges;
    assert Supplement(output).Some?;
    assert output[|output| - 2..][1] == MARKER[1];
  }

  /** A frame the codec gave up on is refused by the packetizer: no start code is left to find. */
  lemma H26xGivenUp(kdf: Kdf, aead: Aead, root: seq<byte>, codec: H26xFrame.H26x, stream: Stream, shot: Shot)
    requires stream.codec == H26xMediaPath.CodecOf(codec) && Made(kdf, aead, root, stream.codec, shot)
    requires CodecLayout(stream.codec, shot.frame).None? && shot.frame != [] && shot.pieces == H26xCut(codec, shot.output)
    ensures AnnexB.NonEmpty(AnnexB.Units(shot.output)) == [] && !Goes(kdf, aead, root, stream, shot)
  {
    hide KeyAt, Faithful, Placed, Clear, GenerationAt, TruncatedAt, Open, AnnexB.Visible, ParseFrame, SupplementalSize, Carries,
         H26xPieces, AnnexB.Units;
    H26xProtected.LayoutIs(codec, shot.frame);
    AnnexB.NoCodeNoUnit(shot.output);
    H26xProtected.NothingNotCarried(codec, shot.output, stream);
  }
}
