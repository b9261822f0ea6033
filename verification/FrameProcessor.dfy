/** The outbound processor that sorts a frame's bytes into authenticated and encrypted ones (dave/src/frame.rs). */
module FrameProcessor {
  import opened Prelude
  import opened Interleave
  import opened Frame

  datatype ProcessResult = Processed | FallbackAllEncrypted

  /** Ranges are non-empty and a hidden byte separates any two: they are the maximal clear runs. */
  predicate Coalesced(ranges: seq<Range>) {
    && (forall i :: 0 <= i < |ranges| ==> ranges[i].len > 0)
    && (forall i :: 0 < i < |ranges| ==> ranges[i - 1].End() < ranges[i].offset)
  }

  /** The ranges after `n` clear bytes were added at position `at`. */
  function Extended(ranges: seq<Range>, at: nat, n: nat): seq<Range> {
    if n == 0 then ranges
    else if ranges != [] && Last(ranges).End() == at then
      Front(ranges) + [Range(Last(ranges).offset, Last(ranges).len + n)]
    else ranges + [Range(at, n)]
  }

  lemma ExtendedKeeps<T>(laid: seq<T>, ranges: seq<Range>, more: seq<T>)
    requires Placed(ranges, |laid|) && Coalesced(ranges)
    ensures var wider := Extended(ranges, |laid|, |more|);
            && Placed(wider, |laid + more|) && Coalesced(wider)
            && Clear(laid + more, wider) == Clear(laid, ranges) + more
            && Hidden(laid + more, wider) == Hidden(laid, ranges)
  {
    hide Clear, Hidden;
    if |more| == 0 {
      assert laid + more == laid;
      assert Clear(laid, ranges) + more == Clear(laid, ranges);
    } else if ranges != [] && Last(ranges).End() == |laid| {
      hide Placed;
      GrowClear(laid, ranges, more);
    } else {
      AppendClear(laid, ranges, more);
      if ranges != [] {
        PlacedFront(ranges, |laid|);
      }
    }
  }

  lemma ExtendedPlaced(ranges: seq<Range>, at: nat, m: nat)
    requires Placed(ranges, at) && Coalesced(ranges)
    ensures Placed(Extended(ranges, at, m), at + m) && Coalesced(Extended(ranges, at, m))
  {
    hide Placed, Coalesced, Extended, Clear, Hidden;
    var zeros: seq<byte>, more: seq<byte> := seq(at, _ => 0), seq(m, _ => 0);
    ExtendedKeeps(zeros, ranges, more);
  }

  /** Clear bytes added in two goes make the same ranges as in one. */
  lemma ExtendedTwice(ranges: seq<Range>, at: nat, a: nat, b: nat)
    requires a > 0
    ensures Extended(Extended(ranges, at, a), at + a, b) == Extended(ranges, at, a + b)
  {
    var once := Extended(ranges, at, a);
    if ranges != [] && Last(ranges).End() == at {
      assert once == Front(ranges) + [Last(once)];
      assert Front(once) == Front(ranges);
    } else {
      assert once == ranges + [Range(at, a)];
      assert Front(once) == ranges;
    }
  }

  class OutboundFrameProcessor {
    var frameIndex: nat
    var unencryptedRanges: seq<Range>
    var unencryptedBytes: seq<byte>
    var encryptedBytes: seq<byte>
    var ciphertext: seq<byte>
    /** Every byte added so far, in the order it was added. */
    ghost var laid: seq<byte>

    ghost predicate Valid()
      reads this
    {
      && frameIndex == |laid|
      && Placed(unencryptedRanges, |laid|) && Coalesced(unencryptedRanges)
      && unencryptedBytes == Clear(laid, unencryptedRanges)
      && encryptedBytes == Hidden(laid, unencryptedRanges)
    }

    ghost predicate Blank()
      reads this
    {
      Valid() && laid == [] && unencryptedRanges == []
    }

    constructor ()
      ensures Blank()
    {
      frameIndex, unencryptedRanges, unencryptedBytes, encryptedBytes, ciphertext, laid := 0, [], [], [], [], [];
    }

    method Reset()
      modifies this
      ensures Blank()
    {
      frameIndex, unencryptedRanges, unencryptedBytes, encryptedBytes, ciphertext, laid := 0, [], [], [], [], [];
    }

    method AddUnencryptedBytes(bytes: seq<byte>)
      requires Valid()
      modifies this
      ensures Valid() && laid == old(laid) + bytes
      ensures unencryptedRanges == Extended(old(unencryptedRanges), old(|laid|), |bytes|)
    {
      hide Clear, Hidden, Placed, Coalesced;
      ExtendedKeeps(laid, unencryptedRanges, bytes);
      if |bytes| == 0 {
        assert laid + bytes == laid;
        return;
      }
      if unencryptedRanges != [] && Last(unencryptedRanges).End() == frameIndex {
        var range := Last(unencryptedRanges);
        unencryptedRanges := Front(unencryptedRanges) + [Range(range.offset, range.len + |bytes|)];
      } else {
        unencryptedRanges := unencryptedRanges + [Range(frameIndex, |bytes|)];
      }
      unencryptedBytes := unencryptedBytes + bytes;
      frameIndex := frameIndex + |bytes|;
      laid := laid + bytes;
    }

    method AddEncryptedBytes(bytes: seq<byte>)
      requires Valid()
      modifies this
      ensures Valid() && laid == old(laid) + bytes
      ensures unencryptedRanges == old(unencryptedRanges)
    {
      hide Clear, Hidden, Placed, Coalesced;
      AppendHidden(laid, unencryptedRanges, bytes);
      if |bytes| == 0 {
        assert laid + bytes == laid;
        return;
      }
      encryptedBytes := encryptedBytes + bytes;
      frameIndex := frameIndex + |bytes|;
      laid := laid + bytes;
    }

    /** `FrameCipher::encrypt_processed`. */
    method EncryptProcessed(cipher: Cipher, truncatedNonce: u32) returns (r: Sealed)
      requires Valid() && Faithful(cipher) && |laid| <= ISIZE_MAX
      modifies this`ciphertext
      ensures Valid()
      ensures r == Seal(cipher, truncatedNonce, unencryptedBytes, encryptedBytes, unencryptedRanges)
      ensures r.Ok? ==>
                && |ciphertext| == |encryptedBytes|
                && Weave(unencryptedBytes, ciphertext, unencryptedRanges) <= r.output
                && |laid| + SUPPLEMENTAL_BASE_BYTES < |r.output|
    {
      hide Clear, Hidden, Placed, Coalesced, Weave;
      var sealed := cipher.seal(NonceFromTruncated(truncatedNonce), unencryptedBytes, encryptedBytes);
      if sealed.None? {
        return Err(Aead);
      }
      ciphertext := sealed.value.0;
      var output := Reconstruct(unencryptedBytes, ciphertext, unencryptedRanges);
      output := output + sealed.value.1;
      var tail := WriteSupplementalTail(truncatedNonce, unencryptedRanges, frameIndex);
      if tail.None? {
        return Err(SupplementalDataTooLarge);
      }
      return Ok(output + tail.value);
    }
  }

  /** Opus and VP9: everything is encrypted. */
  method ProcessFullyEncryptedFrame(frame: seq<byte>, processor: OutboundFrameProcessor) returns (result: ProcessResult)
    requires processor.Blank()
    modifies processor
    ensures processor.Valid() && processor.laid == frame && processor.unencryptedRanges == [] && result == Processed
  {
    processor.AddEncryptedBytes(frame);
    return Processed;
  }

  /** VP8: a key frame keeps its ten header bytes clear, any other frame one. */
  function Vp8ClearBytes(frame: seq<byte>): Option<nat> {
    if frame == [] then None else
    var unencrypted := if frame[0] % 2 == 0 then 10 else 1;
    if unencrypted > |frame| then None else Some(unencrypted)
  }

  method ProcessVp8Frame(frame: seq<byte>, processor: OutboundFrameProcessor) returns (result: ProcessResult)
    requires processor.Blank()
    modifies processor
    ensures processor.Valid()
    ensures result.Processed? <==> Vp8ClearBytes(frame).Some?
    ensures result.Processed? ==>
              && processor.laid == frame
              && processor.unencryptedRanges == [Range(0, Vp8ClearBytes(frame).value)]
  {
    if frame == [] {
      return FallbackAllEncrypted;
    }
    var unencrypted := if frame[0] % 2 == 0 then 10 else 1;
    if unencrypted > |frame| {
      return FallbackAllEncrypted;
    }
    processor.AddUnencryptedBytes(frame[..unencrypted]);
    processor.AddEncryptedBytes(frame[unencrypted..]);
    assert frame[..unencrypted] + frame[unencrypted..] == frame;
    return Processed;
  }
}
