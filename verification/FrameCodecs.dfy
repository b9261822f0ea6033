/** Processing and validating a frame of any codec (dave/src/frame.rs). */
module FrameCodecs {
  import opened Prelude
  import opened Interleave
  import opened Codecs
  import opened Frame
  import opened FrameProcessor
  import AnnexB
  import H26xFrame
  import H26xValidation
  import Av1Frame

  datatype Layout = Layout(laid: seq<byte>, ranges: seq<Range>)

  /** The bytes a frame is sent as and which of them stay clear; `None` when the codec gives up. */
  function CodecLayout(codec: Codec, frame: seq<byte>): Option<Layout>
    requires |frame| <= ISIZE_MAX
  {
    match codec
    case Opus => Some(Layout(frame, []))
    case Vp9 => Some(Layout(frame, []))
    case Vp8 =>
      if Vp8ClearBytes(frame).None? then None else Some(Layout(frame, [Range(0, Vp8ClearBytes(frame).value)]))
    case H264 => H26xLayout(H26xFrame.H264, frame)
    case H265 => H26xLayout(H26xFrame.H265, frame)
    case Av1 =>
      if Av1Frame.Rewrite(frame).None? then None else
      Some(Layout(Av1Frame.Rewrite(frame).value, Av1Frame.RangesFrom(frame, 0, [])))
  }

  function H26xLayout(codec: H26xFrame.H26x, frame: seq<byte>): Option<Layout> {
    if H26xFrame.Ranges(codec, frame).None? then None else
    Some(Layout(AnnexB.Join(H26xFrame.Kept(frame)), H26xFrame.Ranges(codec, frame).value))
  }

  /** A codec that gives up leaves the whole frame encrypted. */
  function FrameLayout(codec: Codec, frame: seq<byte>): Layout
    requires |frame| <= ISIZE_MAX
  {
    match CodecLayout(codec, frame)
    case Some(layout) => layout
    case None => Layout(frame, [])
  }

  /** Opus, VP8 and VP9 frames are sent byte for byte. */
  lemma PlainCodecsKeepFrame(codec: Codec, frame: seq<byte>)
    requires |frame| <= ISIZE_MAX && (codec.Opus? || codec.Vp8? || codec.Vp9?)
    ensures FrameLayout(codec, frame).laid == frame
  {
  }

  method ProcessFrame(codec: Codec, frame: seq<byte>, processor: OutboundFrameProcessor) returns (result: ProcessResult)
    requires processor.Blank() && |frame| <= ISIZE_MAX
    modifies processor
    ensures processor.Valid()
    ensures result.Processed? <==> CodecLayout(codec, frame).Some?
    ensures result.Processed? ==>
              && CodecLayout(codec, frame) == Some(Layout(processor.laid, processor.unencryptedRanges))
              && (codec.H264? || codec.H265? ==> H26xFrame.NalSafe(processor.laid, processor.unencryptedRanges, 1))
  {
    match codec {
      case Opus => result := ProcessFullyEncryptedFrame(frame, processor);
      case Vp8 => result := ProcessVp8Frame(frame, processor);
      case Vp9 => result := ProcessFullyEncryptedFrame(frame, processor);
      case H264 => result := H26xFrame.ProcessH26xFrame(H26xFrame.H264, frame, processor);
      case H265 => result := H26xFrame.ProcessH26xFrame(H26xFrame.H265, frame, processor);
      case Av1 => result := Av1Frame.ProcessAv1Frame(frame, processor);
    }
  }

  /** `OutboundFrameProcessor::process`. */
  method Process(codec: Codec, frame: seq<byte>, processor: OutboundFrameProcessor)
    requires |frame| <= ISIZE_MAX && |FrameLayout(codec, frame).laid| <= ISIZE_MAX
    modifies processor
    ensures processor.Valid() && |processor.laid| <= ISIZE_MAX
    ensures FrameLayout(codec, frame) == Layout(processor.laid, processor.unencryptedRanges)
    ensures (codec.H264? || codec.H265?) && CodecLayout(codec, frame).Some? ==>
              H26xFrame.NalSafe(processor.laid, processor.unencryptedRanges, 1)
  {
    hide CodecLayout, H26xFrame.NalSafe, Coalesced, Placed, Clear, Hidden;
    processor.Reset();
    var result := ProcessFrame(codec, frame, processor);
    if result == FallbackAllEncrypted {
      processor.Reset();
      processor.AddEncryptedBytes(frame);
    }
  }

  /** `validate_processed`: only H264 and H265 look at the ciphertext. */
  method ValidateProcessed(codec: Codec, processor: OutboundFrameProcessor, output: seq<byte>) returns (ok: bool)
    requires processor.Valid() && |processor.laid| <= |output|
    ensures !codec.H264? && !codec.H265? ==> ok
    ensures codec.H264? || codec.H265? ==>
              (ok <==> H26xValidation.Clean(processor.unencryptedRanges, processor.frameIndex, output))
  {
    if codec.H264? || codec.H265? {
      ok := H26xValidation.Validate(processor.unencryptedRanges, processor.frameIndex, output);
    } else {
      ok := true;
    }
  }
}
