/** The outbound side: `Encryptor` (dave/src/ratchet.rs). */
module Sender {
  import opened Prelude
  import opened Interleave
  import opened Codecs
  import opened Frame
  import opened FrameProcessor
  import opened FrameCodecs
  import opened Ratchet
  import AnnexB
  import H26xFrame
  import H26xValidation

  const MAX_CIPHERTEXT_VALIDATION_RETRIES: nat := 10

  /** Frames a single activation may count before the generation would reach `u32::MAX`. */
  const FRAME_LIMIT: nat := 0xFFFF_FFFF * GENERATION_FRAMES

  /** The cipher each key stands for. */
  type Aead = seq<byte> -> Cipher

  ghost predicate Trusted(kdf: Kdf, aead: Aead) {
    && (forall secret, purpose, generation, length :: |kdf(secret, purpose, generation, length)| == length)
    && (forall key :: |key| == 16 ==> Faithful(aead(key)))
  }

  lemma KeyIsUsable(kdf: Kdf, aead: Aead, root: seq<byte>, generation: nat)
    requires Trusted(kdf, aead)
    ensures |KeyAt(kdf, root, generation)| == 16 && Faithful(aead(KeyAt(kdf, root, generation)))
  {
  }

  datatype EncryptResult = Encrypted(output: seq<byte>) | NotReady | Refused(error: EncryptError) | TooManyAttempts

  /** A key, by its generation, and a truncated nonce used with it. */
  datatype Use = Use(generation: nat, nonce: u32)

  function UseAt(n: nat): Use {
    Use(GenerationAt(n), TruncatedAt(n))
  }

  /** The uses of the first counts, in turn. */
  ghost predicate UsesAre(uses: seq<Use>) {
    forall i :: 0 <= i < |uses| ==> uses[i] == UseAt(i + 1)
  }

  /** No nonce is used twice with one key. */
  ghost predicate NeverReused(uses: seq<Use>) {
    forall i, j :: 0 <= i < j < |uses| ==> uses[i] != uses[j]
  }

  lemma UsesGrow(uses: seq<Use>)
    requires UsesAre(uses)
    ensures UsesAre(uses + [UseAt(|uses| + 1)])
  {
    hide UseAt;
  }

  lemma UsesNeverReused(uses: seq<Use>)
    requires UsesAre(uses)
    ensures NeverReused(uses)
  {
    hide GenerationAt, TruncatedAt;
    forall i, j | 0 <= i < j < |uses|
      ensures uses[i] != uses[j]
    {
      if uses[i] == uses[j] {
        NoNonceReuse(i + 1, j + 1);
      }
    }
  }

  class Encryptor {
    const kdf: Kdf
    const aead: Aead
    const processor: OutboundFrameProcessor
    var activeRatchet: HashRatchet?
    var pendingRatchet: HashRatchet?
    /** The key the current `FrameCipher` was built from. */
    var cipher: Option<seq<byte>>
    var currentGeneration: nat
    var truncatedNonce: u32
    /** Cipher advances since the active ratchet was activated. */
    ghost var count: nat
    /** What was given to the cipher since then: one entry for every attempt, whatever became of it. */
    ghost var uses: seq<Use>

    ghost predicate Fits(ratchet: HashRatchet)
      reads ratchet
    {
      ratchet.Valid() && ratchet.kdf == kdf && forall g: nat :: g < ratchet.nextGeneration ==> g in ratchet.cache
    }

    /** The counters are functions of `count`, and the cipher is the schedule's key for its generation. */
    ghost predicate Valid()
      reads this, activeRatchet, pendingRatchet
    {
      && Trusted(kdf, aead)
      && (pendingRatchet != null ==> pendingRatchet != activeRatchet && Fits(pendingRatchet))
      && (activeRatchet != null ==>
            && Fits(activeRatchet) && count < FRAME_LIMIT && |uses| <= count && UsesAre(uses)
            && truncatedNonce == TruncatedAt(count)
            && currentGeneration == GenerationAt(count)
            && cipher == if count == 0 then None else Some(KeyAt(kdf, activeRatchet.root, GenerationAt(count))))
    }

    /** Every advance so far was used. */
    ghost predicate Settled()
      reads this
    {
      activeRatchet != null ==> |uses| == count
    }

    constructor (kdf: Kdf, aead: Aead)
      requires Trusted(kdf, aead)
      ensures Valid() && Settled() && activeRatchet == null && pendingRatchet == null && fresh(processor)
      ensures this.kdf == kdf && this.aead == aead
    {
      this.kdf, this.aead := kdf, aead;
      processor := new OutboundFrameProcessor();
      activeRatchet, pendingRatchet, cipher, currentGeneration, truncatedNonce, count, uses := null, null, None, 0, 0, 0, [];
    }

    method StageRatchet(ratchet: HashRatchet)
      requires Valid() && Fits(ratchet) && ratchet != activeRatchet
      modifies this`pendingRatchet
      ensures Valid() && pendingRatchet == ratchet
    {
      pendingRatchet := ratchet;
    }

    /** Activation restarts the count under the staged ratchet; without one nothing changes. */
    method ActivatePending() returns (activated: bool)
      requires Valid()
      modifies this
      ensures Valid()
      ensures activated <==> old(pendingRatchet) != null
      ensures activated ==> activeRatchet == old(pendingRatchet) && pendingRatchet == null && count == 0 && uses == []
      ensures !activated ==> activeRatchet == old(activeRatchet) && count == old(count) && uses == old(uses)
    {
      if pendingRatchet == null {
        return false;
      }
      activeRatchet := pendingRatchet;
      pendingRatchet := null;
      cipher, currentGeneration, truncatedNonce, count, uses := None, 0, 0, 0, [];
      TruncatedGeneration(0);
      return true;
    }

    /** One advance: the next truncated nonce, and the key of the generation it falls in. */
    method AdvanceCipher() returns (r: Option<u32>)
      requires Valid() && count + 1 < FRAME_LIMIT
      modifies this, activeRatchet
      ensures Valid() && activeRatchet == old(activeRatchet) && pendingRatchet == old(pendingRatchet)
      ensures uses == old(uses) && (r.None? <==> activeRatchet == null) && (r.None? ==> count == old(count))
      ensures activeRatchet != null ==>
                && count == old(count) + 1
                && r == Some(TruncatedAt(count)) && truncatedNonce == r.value
                && cipher == Some(KeyAt(kdf, activeRatchet.root, GenerationAt(count)))
    {
      hide Trusted, KeyAt, SecretAt, SecretsAt, TruncatedAt, GenerationAt, WrappedGeneration, GenerationByte;
      if activeRatchet == null {
        return None;
      }
      SenderStep(count);
      NextTruncated(count);
      GenerationBelowLimit(count + 1);
      truncatedNonce := (truncatedNonce + 1) % 0x1_0000_0000;
      var generation := WrappedGeneration(currentGeneration, GenerationByte(truncatedNonce));
      if generation != currentGeneration || cipher.None? {
        currentGeneration := generation;
        var secrets := activeRatchet.Get(generation);
        cipher := Some(secrets.value.key);
        KeyIsSecretsKey(kdf, activeRatchet.root, generation);
      }
      count := count + 1;
      return Some(truncatedNonce);
    }

    /** What sealing the laid-out bytes at count `n` gives. */
    ghost function SealedAt(n: nat): Sealed
      requires Valid() && activeRatchet != null && processor.Valid()
      reads this, activeRatchet, pendingRatchet, processor
    {
      Attempt(kdf, aead, activeRatchet.root, n, processor.laid, processor.unencryptedRanges)
    }

    /** Nothing more is tried: sealing failed, or its output is one that may be sent. */
    ghost predicate Settles(codec: Codec, sealed: Sealed)
      reads processor
    {
      sealed.Ok? && (codec.H264? || codec.H265?) ==>
        H26xValidation.Clean(processor.unencryptedRanges, |processor.laid|, sealed.output)
    }

    /**
      * The first of the counts after `before` that settles the matter does, with the error or the output that sealing
      * gives at that count; if ten do not, encryption fails.
      */
    ghost predicate FirstSettles(codec: Codec, before: nat, r: EncryptResult)
      requires Valid() && activeRatchet != null && processor.Valid()
      reads this, activeRatchet, pendingRatchet, processor
    {
      && before < count <= before + 10
      && (forall n :: before < n < count ==> !Settles(codec, SealedAt(n)))
      && (if Settles(codec, SealedAt(count))
          then r == (match SealedAt(count) case Err(error) => Refused(error) case Ok(output) => Encrypted(output))
          else r == TooManyAttempts && count == before + 10)
      && (!codec.H264? && !codec.H265? ==> count == before + 1 && !r.TooManyAttempts?)
    }

    /**
      * Encrypts a frame, advancing to a new nonce for every attempt. What comes out parses back to the nonce
      * of the count reached, opens to the laid-out bytes - the frame itself for Opus, VP8 and VP9 - and for
      * H264 and H265 shows no other start codes.
      */
    method EncryptInto(codec: Codec, frame: seq<byte>) returns (r: EncryptResult)
      requires Valid() && Settled() && count + MAX_CIPHERTEXT_VALIDATION_RETRIES < FRAME_LIMIT
      requires |frame| <= ISIZE_MAX && |FrameLayout(codec, frame).laid| <= ISIZE_MAX
      modifies this, activeRatchet, processor
      ensures Settled() && (activeRatchet != null ==> old(uses) < uses && NeverReused(uses))
      ensures Valid() && activeRatchet == old(activeRatchet) && pendingRatchet == old(pendingRatchet)
      ensures r.NotReady? <==> activeRatchet == null
      ensures HoldsLayout(codec, frame) && (activeRatchet != null ==> FirstSettles(codec, old(count), r))
      ensures r.Encrypted? ==>
                && FrameLayout(codec, frame) == Layout(processor.laid, processor.unencryptedRanges)
                && (codec.Opus? || codec.Vp8? || codec.Vp9? ==> processor.laid == frame)
                && Protects(aead, codec, frame, r.output, KeyAt(kdf, activeRatchet.root, GenerationAt(count)), TruncatedAt(count),
                            processor.laid, processor.unencryptedRanges)
    {
      hide FrameLayout, CodecLayout, H26xFrame.NalSafe, Trusted, KeyAt, Protects, UsesAre, NeverReused, Placed, Coalesced,
           Clear, Hidden, TruncatedAt, GenerationAt, Attempt, H26xValidation.Clean, Encryptor.Fits, Recovers;
      Process(codec, frame, processor);
      var attempt := 0;
      while attempt < MAX_CIPHERTEXT_VALIDATION_RETRIES
        invariant 0 <= attempt <= MAX_CIPHERTEXT_VALIDATION_RETRIES
        invariant Valid() && activeRatchet == old(activeRatchet) && pendingRatchet == old(pendingRatchet)
        invariant count == old(count) + if activeRatchet == null then 0 else attempt
        invariant attempt > 0 ==> activeRatchet != null
        invariant Settled() && (attempt > 0 ==> old(uses) < uses && NeverReused(uses)) && (attempt == 0 ==> uses == old(uses))
        invariant HoldsLayout(codec, frame)
        invariant attempt > 0 ==> forall n :: old(count) < n <= count ==> !Settles(codec, SealedAt(n))
        invariant !codec.H264? && !codec.H265? ==> attempt == 0
      {
        label Before: r := TryOnce(codec, frame);
        assert activeRatchet != null && attempt > 0 ==>
                 forall n :: old(count) < n < count ==> SealedAt(n) == old@Before(SealedAt(n));
        if !r.TooManyAttempts? {
          return;
        }
        attempt := attempt + 1;
      }
      return TooManyAttempts;
    }

    /** The processor holds the frame's layout. */
    ghost predicate HoldsLayout(codec: Codec, frame: seq<byte>)
      reads processor
    {
      && processor.Valid() && |frame| <= ISIZE_MAX && |processor.laid| <= ISIZE_MAX
      && FrameLayout(codec, frame) == Layout(processor.laid, processor.unencryptedRanges)
      && ((codec.H264? || codec.H265?) && CodecLayout(codec, frame).Some? ==>
            H26xFrame.NalSafe(processor.laid, processor.unencryptedRanges, 1))
    }

    /** One attempt under the next nonce; `TooManyAttempts` stands for a ciphertext that has to be made again. */
    method TryOnce(codec: Codec, frame: seq<byte>) returns (r: EncryptResult)
      requires Valid() && Settled() && count + 1 < FRAME_LIMIT && HoldsLayout(codec, frame)
      modifies this, activeRatchet, processor
      ensures Valid() && Settled() && HoldsLayout(codec, frame)
      ensures processor.laid == old(processor.laid) && processor.unencryptedRanges == old(processor.unencryptedRanges)
      ensures activeRatchet == old(activeRatchet) && pendingRatchet == old(pendingRatchet)
      ensures activeRatchet != null ==>
                r == if !Settles(codec, SealedAt(count)) then TooManyAttempts
                     else match SealedAt(count) case Err(error) => Refused(error) case Ok(output) => Encrypted(output)
      ensures r.NotReady? <==> activeRatchet == null
      ensures activeRatchet != null ==>
                count == old(count) + 1 && uses == old(uses) + [UseAt(count)] && NeverReused(uses)
      ensures activeRatchet == null ==> count == old(count) && uses == old(uses)
      ensures r.Encrypted? ==>
                && FrameLayout(codec, frame) == Layout(processor.laid, processor.unencryptedRanges)
                && (codec.Opus? || codec.Vp8? || codec.Vp9? ==> processor.laid == frame)
                && Protects(aead, codec, frame, r.output, KeyAt(kdf, activeRatchet.root, GenerationAt(count)),
                            TruncatedAt(count), processor.laid, processor.unencryptedRanges)
    {
      hide FrameLayout, CodecLayout, H26xFrame.NalSafe, Trusted, KeyAt, Recovers, Seal, Protects, Faithful, Placed, Coalesced,
           Clear, Hidden, Weave, TruncatedAt, GenerationAt, H26xValidation.Clean, UsesAre, NeverReused;
      var nonce := AdvanceCipher();
      if nonce.None? {
        return NotReady;
      }
      KeyIsUsable(kdf, aead, activeRatchet.root, GenerationAt(count));
      UsesGrow(uses);
      uses := uses + [UseAt(count)];
      UsesNeverReused(uses);
      var sealed := processor.EncryptProcessed(aead(cipher.value), nonce.value);
      if sealed.Err? {
        return Refused(sealed.error);
      }
      var valid := ValidateProcessed(codec, processor, sealed.output);
      if !valid {
        return TooManyAttempts;
      }
      if codec.Opus? || codec.Vp8? || codec.Vp9? {
        PlainCodecsKeepFrame(codec, frame);
      }
      GivenUp(codec, frame);
      Protected(aead, codec, frame, sealed.output, cipher.value, nonce.value, processor.laid, processor.unencryptedRanges);
      return Encrypted(sealed.output);
    }
  }

  /** Sealing at count `n`: the schedule's key of its generation, its truncated nonce. */
  ghost function Attempt(kdf: Kdf, aead: Aead, root: seq<byte>, n: nat, laid: seq<byte>, ranges: seq<Range>): Sealed
    requires Trusted(kdf, aead) && Placed(ranges, |laid|)
  {
    KeyIsUsable(kdf, aead, root, GenerationAt(n));
    Seal(aead(KeyAt(kdf, root, GenerationAt(n))), TruncatedAt(n), Clear(laid, ranges), Hidden(laid, ranges), ranges)
  }

  /**
    * What an accepted H264 or H265 output shows: the start codes of the laid-out bytes, also in tag and trailer if
    * the last byte is hidden; none at all if the codec gave up.
    */
  ghost predicate KeepsCodes(processed: bool, laid: seq<byte>, ranges: seq<Range>, output: seq<byte>) {
    if processed then
      && (forall i: nat :: AnnexB.Visible(ParseFrame(output).interleavedFrame, i) <==> AnnexB.Visible(laid, i))
      && (H26xValidation.EndsHidden(laid, ranges) ==>
            forall i: nat :: AnnexB.Visible(output, i) <==> AnnexB.Visible(laid, i))
    else laid != [] ==> forall i: nat :: !AnnexB.Visible(output, i)
  }

  /** The output recovers the laid-out bytes under this key, and no start code appeared or vanished. */
  ghost predicate Protects(aead: Aead, codec: Codec, frame: seq<byte>, output: seq<byte>, key: seq<byte>, nonce: u32,
                           laid: seq<byte>, ranges: seq<Range>)
  {
    && |key| == 16 && Faithful(aead(key)) && Placed(ranges, |laid|) && |frame| <= ISIZE_MAX
    && Recovers(aead(key), ParseFrame(output), nonce, laid, ranges)
    && |output| == |laid| + SupplementalSize(nonce, ranges)
    && (codec.H264? || codec.H265? ==> KeepsCodes(CodecLayout(codec, frame).Some?, laid, ranges, output))
  }

  lemma Protected(aead: Aead, codec: Codec, frame: seq<byte>, output: seq<byte>, key: seq<byte>, nonce: u32,
                  laid: seq<byte>, ranges: seq<Range>)
    requires |key| == 16 && Faithful(aead(key)) && |frame| <= ISIZE_MAX && |laid| <= ISIZE_MAX
    requires Placed(ranges, |laid|) && Coalesced(ranges)
    requires (codec.H264? || codec.H265?) && CodecLayout(codec, frame).Some? ==> H26xFrame.NalSafe(laid, ranges, 1)
    requires CodecLayout(codec, frame).None? ==> ranges == []
    requires Seal(aead(key), nonce, Clear(laid, ranges), Hidden(laid, ranges), ranges) == Ok(output)
    requires codec.H264? || codec.H265? ==> H26xValidation.Clean(ranges, |laid|, output)
    ensures Protects(aead, codec, frame, output, key, nonce, laid, ranges)
  {
    hide Placed, Coalesced, Clear, Hidden, Seal, Faithful, ParseFrame, KeepsCodes, H26xFrame.NalSafe, CodecLayout,
         SupplementalSize, H26xValidation.Clean;
    OpenOfSeal(aead(key), nonce, laid, ranges);
    SealedSize(aead(key), nonce, laid, ranges);
    ParsedIsPrefix(output);
    if codec.H264? || codec.H265? {
      CodesKept(CodecLayout(codec, frame).Some?, laid, ranges, output);
    }
  }

  lemma CodesKept(processed: bool, laid: seq<byte>, ranges: seq<Range>, output: seq<byte>)
    requires Placed(ranges, |laid|) && Coalesced(ranges) && H26xValidation.Clean(ranges, |laid|, output)
    requires if processed then H26xFrame.NalSafe(laid, ranges, 1) else ranges == []
    requires
      var body := ParseFrame(output).interleavedFrame;
      |body| == |laid| < |output| && body <= output && Clear(body, ranges) == Clear(laid, ranges)
    ensures KeepsCodes(processed, laid, ranges, output)
  {
    hide Placed, Coalesced, Clear, ParseFrame, H26xFrame.NalSafe, AnnexB.Visible, H26xValidation.Clean;
    var body := ParseFrame(output).interleavedFrame;
    if processed {
      H26xValidation.KeepsNalBoundaries(laid, ranges, body, output);
      if H26xValidation.EndsHidden(laid, ranges) {
        H26xValidation.KeepsAllBoundaries(laid, ranges, body, output);
      }
    } else if laid != [] {
      H26xValidation.WhollyHidden(laid, output);
    }
  }

  lemma GivenUp(codec: Codec, frame: seq<byte>)
    requires |frame| <= ISIZE_MAX
    ensures CodecLayout(codec, frame).None? ==> FrameLayout(codec, frame) == Layout(frame, [])
  {
    hide CodecLayout;
  }

  lemma KeyIsSecretsKey(kdf: Kdf, root: seq<byte>, generation: nat)
    ensures KeyAt(kdf, root, generation) == SecretsAt(kdf, root, generation).key
  {
  }

  lemma NextTruncated(n: nat)
    ensures TruncatedAt(n + 1) == (TruncatedAt(n) + 1) % 0x1_0000_0000
  {
  }

  lemma GenerationBelowLimit(n: nat)
    requires n < FRAME_LIMIT
    ensures GenerationAt(n) < 0xFFFF_FFFF
  {
  }

  lemma ParsedIsPrefix(frame: seq<byte>)
    ensures ParseFrame(frame).encrypted ==>
              ParseFrame(frame).interleavedFrame <= frame && |ParseFrame(frame).interleavedFrame| < |frame|
  {
    hide ParseRanges;
  }

  /**
    * End to end: whatever a sender at count `n` protected, a receiver with the same secret computes the
    * sender's generation and counter and opens it, if it still keeps a generation at most 255 older.
    */
  lemma ReceiverRecovers(kdf: Kdf, aead: Aead, root: seq<byte>, n: nat, p: ParsedFrame, laid: seq<byte>, ranges: seq<Range>, oldest: nat)
    requires Trusted(kdf, aead) && Placed(ranges, |laid|)
    requires |KeyAt(kdf, root, GenerationAt(n))| == 16 && Faithful(aead(KeyAt(kdf, root, GenerationAt(n))))
    requires Recovers(aead(KeyAt(kdf, root, GenerationAt(n))), p, TruncatedAt(n), laid, ranges)
    requires oldest <= GenerationAt(n) < oldest + GENERATION_WRAP
    ensures var generation := WrappedGeneration(oldest, GenerationByte(p.truncatedNonce));
            && generation == GenerationAt(n)
            && WrappedNonce(generation, p.truncatedNonce) == n
            && Open(aead(KeyAt(kdf, root, generation)), p) == Some(laid)
  {
    TruncatedGeneration(n);
    UnwrapsExactly(oldest, GenerationAt(n));
  }
}
