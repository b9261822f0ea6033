/** The protected frame: interleaved bytes, tag and self-describing trailer (dave/src/frame.rs). */
module Frame {
  import opened Prelude
  import opened Interleave
  import Leb128

  const MARKER: seq<byte> := [0xFA, 0xFA]
  const TAG_BYTES: nat := 8
  /** Tag, size byte and marker. */
  const SUPPLEMENTAL_BASE_BYTES: nat := 11

  datatype EncryptError = Aead | SupplementalDataTooLarge
  datatype Sealed = Ok(output: seq<byte>) | Err(error: EncryptError)

  datatype ParsedFrame = ParsedFrame(
    encrypted: bool, truncatedNonce: nat, interleavedFrame: seq<byte>, unencryptedRanges: seq<Range>, tag: seq<byte>)

  // ----- Unencrypted ranges on the wire -----

  function RangeBytes(ranges: seq<Range>): seq<byte> {
    if ranges == [] then [] else
    Leb128.Encode(ranges[0].offset) + Leb128.Encode(ranges[0].len) + RangeBytes(ranges[1..])
  }

  /** One range at the head of `bytes`, with the number of bytes it takes. */
  function ParseRange(bytes: seq<byte>): (r: Option<(Range, nat)>)
    ensures r.Some? ==> 2 <= r.value.1 <= |bytes|
  {
    match Leb128.Decode(bytes)
    case None => None
    case Some(offset) =>
      match Leb128.Decode(bytes[offset.len..])
      case None => None
      case Some(len) => Some((Range(offset.value, len.value), offset.len + len.len))
  }

  /** Ranges must not start before `previousEnd` nor end behind the frame; the sum cannot overflow `usize`. */
  function ParseRanges(bytes: seq<byte>, previousEnd: nat, frameLen: nat): (r: Option<seq<Range>>)
    ensures r.Some? && r.value != [] ==> previousEnd <= r.value[0].offset
    decreases |bytes|
  {
    if bytes == [] then Some([]) else
    match ParseRange(bytes)
    case None => None
    case Some((range, used)) =>
      if range.offset < previousEnd || range.End() > frameLen then None else
      match ParseRanges(bytes[used..], range.End(), frameLen)
      case None => None
      case Some(rest) => Some([range] + rest)
  }

  /** Whatever the parser accepts can be used to cut the frame. */
  lemma {:induction false} ParsedRangesPlaced(bytes: seq<byte>, previousEnd: nat, frameLen: nat)
    ensures var r := ParseRanges(bytes, previousEnd, frameLen); r.Some? ==> Placed(r.value, frameLen)
    decreases |bytes|
  {
    var r := ParseRanges(bytes, previousEnd, frameLen);
    if bytes != [] && r.Some? {
      var (range, used) := ParseRange(bytes).value;
      ParsedRangesPlaced(bytes[used..], range.End(), frameLen);
      PlacedCons(range, ParseRanges(bytes[used..], range.End(), frameLen).value, frameLen);
    }
  }

  lemma PlacedCons(first: Range, rest: seq<Range>, limit: nat)
    requires Placed(rest, limit) && first.End() <= limit
    requires rest != [] ==> first.End() <= rest[0].offset
    ensures Placed([first] + rest, limit)
  {
    var all := [first] + rest;
    forall i | 0 <= i < |all|
      ensures all[i].End() <= GapEnd(all, limit, i)
    {
      if i > 0 {
        assert rest[i - 1].End() <= GapEnd(rest, limit, i - 1);
      }
    }
  }

  lemma PlacedTail(ranges: seq<Range>, limit: nat)
    requires Placed(ranges, limit) && ranges != []
    ensures Placed(ranges[1..], limit) && ranges[0].End() <= limit
    ensures |ranges| > 1 ==> ranges[0].End() <= ranges[1..][0].offset
  {
    var rest := ranges[1..];
    forall i | 0 <= i < |rest|
      ensures rest[i].End() <= GapEnd(rest, limit, i)
    {
      assert ranges[i + 1].End() <= GapEnd(ranges, limit, i + 1);
    }
    assert ranges[0].End() <= GapEnd(ranges, limit, 0);
    PlacedAt(ranges, limit, 0);
    ClearLenPrefix(ranges, 0);
  }

  lemma ParseRangeOfBytes(range: Range, rest: seq<byte>)
    requires range.End() <= ISIZE_MAX
    ensures var bytes := Leb128.Encode(range.offset) + Leb128.Encode(range.len) + rest;
            && ParseRange(bytes) == Some((range, |Leb128.Encode(range.offset)| + |Leb128.Encode(range.len)|))
            && bytes[|Leb128.Encode(range.offset)| + |Leb128.Encode(range.len)|..] == rest
  {
    hide Leb128.Encode, Leb128.Decode;
    var o, l := Leb128.Encode(range.offset), Leb128.Encode(range.len);
    Leb128.DecodeEncode(range.offset, l + rest);
    Leb128.DecodeEncode(range.len, rest);
    assert o + l + rest == o + (l + rest);
    assert (o + (l + rest))[|o|..] == l + rest;
  }

  /** Parsing the written ranges gives them back. */
  lemma {:induction false} ParseRangesOfBytes(ranges: seq<Range>, previousEnd: nat, frameLen: nat)
    requires Placed(ranges, frameLen) && frameLen <= ISIZE_MAX
    requires ranges != [] ==> previousEnd <= ranges[0].offset
    ensures ParseRanges(RangeBytes(ranges), previousEnd, frameLen) == Some(ranges)
    decreases |ranges|
  {
    if ranges != [] {
      hide ParseRange, Leb128.Encode, Placed;
      PlacedTail(ranges, frameLen);
      ParseRangeOfBytes(ranges[0], RangeBytes(ranges[1..]));
      ParseRangesOfBytes(ranges[1..], ranges[0].End(), frameLen);
      assert [ranges[0]] + ranges[1..] == ranges;
    }
  }

  method ReadRange(bytes: seq<byte>) returns (r: Option<(Range, nat)>)
    ensures r == ParseRange(bytes)
  {
    hide Leb128.Decode;
    var offset := Leb128.Read(bytes);
    if offset.None? {
      return None;
    }
    var len := Leb128.Read(bytes[offset.value.len..]);
    if len.None? {
      return None;
    }
    return Some((Range(offset.value.value, len.value.value), offset.value.len + len.value.len));
  }

  method ParseUnencryptedRanges(input: seq<byte>, frameLen: nat) returns (r: Option<seq<Range>>)
    requires frameLen <= ISIZE_MAX
    ensures r == ParseRanges(input, 0, frameLen)
  {
    hide ParseRange, ParseRanges, Prefixed;
    var bytes := input;
    var ranges: seq<Range> := [];
    var previousEnd := 0;
    PrefixedEnds(ranges, ParseRanges(input, 0, frameLen));
    while |bytes| > 0
      invariant previousEnd >= 0
      invariant ParseRanges(input, 0, frameLen) == Prefixed(ranges, ParseRanges(bytes, previousEnd, frameLen))
      decreases |bytes|
    {
      ParseRangesStep(ranges, bytes, previousEnd, frameLen);
      var next := ReadRange(bytes);
      if next.None? {
        return None;
      }
      var (range, used) := next.value;
      bytes := bytes[used..];
      if range.offset < previousEnd || range.End() > frameLen {
        return None;
      }
      ranges := ranges + [range];
      previousEnd := range.End();
    }
    PrefixedEnds(ranges, Some([]));
    ParseNoRanges(bytes, previousEnd, frameLen);
    return Some(ranges);
  }

  lemma ParseNoRanges(bytes: seq<byte>, previousEnd: nat, frameLen: nat)
    requires |bytes| == 0
    ensures ParseRanges(bytes, previousEnd, frameLen) == Some([])
  {
  }

  ghost function Prefixed(done: seq<Range>, rest: Option<seq<Range>>): Option<seq<Range>> {
    if rest.None? then None else Some(done + rest.value)
  }

  lemma PrefixedEnds(done: seq<Range>, rest: Option<seq<Range>>)
    ensures Prefixed([], rest) == rest && Prefixed(done, Some([])) == Some(done)
  {
    assert done + [] == done;
    if rest.Some? {
      assert [] + rest.value == rest.value;
    }
  }

  lemma ParseRangesStep(done: seq<Range>, bytes: seq<byte>, previousEnd: nat, frameLen: nat)
    requires |bytes| > 0
    ensures Prefixed(done, ParseRanges(bytes, previousEnd, frameLen)) ==
            match ParseRange(bytes)
            case None => None
            case Some((range, used)) =>
              if range.offset < previousEnd || range.End() > frameLen then None
              else Prefixed(done + [range], ParseRanges(bytes[used..], range.End(), frameLen))
  {
    var first := ParseRange(bytes);
    if first.Some? {
      var rest := ParseRanges(bytes[first.value.1..], first.value.0.End(), frameLen);
      if rest.Some? {
        Associate(done, [first.value.0], rest.value);
      }
    }
  }

  // ----- Supplemental trailer -----

  function SupplementalSize(nonce: nat, ranges: seq<Range>): nat {
    TAG_BYTES + |Leb128.Encode(nonce)| + |RangeBytes(ranges)| + 1 + |MARKER|
  }

  /** What follows the tag: nonce, ranges, the size of the whole supplement in one byte, marker. */
  function Tail(nonce: nat, ranges: seq<Range>): seq<byte>
    requires SupplementalSize(nonce, ranges) < 0x100
  {
    Leb128.Encode(nonce) + RangeBytes(ranges) + [SupplementalSize(nonce, ranges)] + MARKER
  }

  method RangesSize(ranges: seq<Range>, frameLen: nat) returns (size: nat)
    requires Placed(ranges, frameLen) && frameLen <= ISIZE_MAX
    ensures size == |RangeBytes(ranges)|
  {
    size := 0;
    for i := 0 to |ranges|
      invariant size + |RangeBytes(ranges[i..])| == |RangeBytes(ranges)|
    {
      PlacedAt(ranges, frameLen, i);
      ClearLenPrefix(ranges, i);
      var a := Leb128.EncodedLen(ranges[i].offset);
      var b := Leb128.EncodedLen(ranges[i].len);
      assert ranges[i..][1..] == ranges[i + 1..];
      size := size + a + b;
    }
  }

  /** Appends the trailer, written in place into a buffer of exactly its size; `None` when the size needs two bytes. */
  method WriteSupplementalTail(nonce: u32, ranges: seq<Range>, frameLen: nat) returns (r: Option<seq<byte>>)
    requires Placed(ranges, frameLen) && frameLen <= ISIZE_MAX
    ensures r == if SupplementalSize(nonce, ranges) > 0xFF then None else Some(Tail(nonce, ranges))
  {
    hide Leb128.Encode, Placed;
    var nonceSize := Leb128.EncodedLen(nonce);
    var rangesSize := RangesSize(ranges, frameLen);
    var supplementalSize := TAG_BYTES + nonceSize + rangesSize + 1 + |MARKER|;
    if supplementalSize > 0xFF {
      return None;
    }
    var buffer := new byte[nonceSize + rangesSize + 1 + |MARKER|];
    var offset := WriteNumbers(nonce, ranges, frameLen, buffer);
    buffer[offset] := supplementalSize;
    buffer[offset + 1] := MARKER[0];
    buffer[offset + 2] := MARKER[1];
    assert buffer[..] == buffer[..offset] + [supplementalSize] + MARKER;
    return Some(buffer[..]);
  }

  method WriteNumbers(nonce: u32, ranges: seq<Range>, frameLen: nat, buffer: array<byte>) returns (offset: nat)
    requires Placed(ranges, frameLen) && frameLen <= ISIZE_MAX
    requires buffer.Length == |Leb128.Encode(nonce)| + |RangeBytes(ranges)| + 3
    modifies buffer
    ensures offset + 3 == buffer.Length
    ensures buffer[..offset] == Leb128.Encode(nonce) + RangeBytes(ranges)
  {
    hide Leb128.Encode, Placed;
    ghost var done := Leb128.Encode(nonce);
    offset := WriteNext(nonce, buffer, 0, []);
    for i := 0 to |ranges|
      invariant offset == |done| <= buffer.Length && buffer[..offset] == done
      invariant Leb128.Encode(nonce) + RangeBytes(ranges) == done + RangeBytes(ranges[i..])
    {
      PlacedAt(ranges, frameLen, i);
      ClearLenPrefix(ranges, i);
      ghost var o, l := Leb128.Encode(ranges[i].offset), Leb128.Encode(ranges[i].len);
      assert ranges[i..][1..] == ranges[i + 1..];
      Associate(done, o + l, RangeBytes(ranges[i + 1..]));
      Associate(done, o, l);
      offset := WriteNext(ranges[i].offset, buffer, offset, done);
      offset := WriteNext(ranges[i].len, buffer, offset, done + o);
      done := done + (o + l);
    }
  }

  /** Writes one number behind the bytes already there. */
  method WriteNext(v: u64, buffer: array<byte>, start: nat, ghost done: seq<byte>) returns (offset: nat)
    requires start == |done| && start + |Leb128.Encode(v)| <= buffer.Length && buffer[..start] == done
    modifies buffer
    ensures offset == start + |Leb128.Encode(v)| && buffer[..offset] == done + Leb128.Encode(v)
  {
    hide Leb128.Encode;
    var written := Leb128.WriteTo(v, buffer, start);
    offset := start + written.value;
    assert buffer[..offset] == buffer[..][..offset];
  }

  // ----- Parsing a received frame -----

  function PlainFrame(frame: seq<byte>): ParsedFrame {
    ParsedFrame(false, 0, frame, [], [])
  }

  /** The supplement a frame announces in its last bytes, as (interleaved frame, tag, numbers). */
  function Supplement(frame: seq<byte>): Option<(seq<byte>, seq<byte>, seq<byte>)> {
    var n := |frame|;
    if n < SUPPLEMENTAL_BASE_BYTES || frame[n - 2..] != MARKER then None else
    var size := frame[n - 3];
    if size < SUPPLEMENTAL_BASE_BYTES || size > n then None else
    Some((frame[..n - size], frame[n - size..n - size + TAG_BYTES], frame[n - size + TAG_BYTES..n - 3]))
  }

  function ParseFrame(frame: seq<byte>): ParsedFrame {
    match Supplement(frame)
    case None => PlainFrame(frame)
    case Some((interleaved, tag, numbers)) =>
      match Leb128.Decode(numbers)
      case None => PlainFrame(frame)
      case Some(nonce) =>
        if nonce.value > 0xFFFF_FFFF then PlainFrame(frame) else
        match ParseRanges(numbers[nonce.len..], 0, |interleaved|)
        case None => PlainFrame(frame)
        case Some(ranges) => ParsedFrame(true, nonce.value, interleaved, ranges, tag)
  }

  method Parse(frame: seq<byte>) returns (p: ParsedFrame)
    requires |frame| <= ISIZE_MAX
    ensures p == ParseFrame(frame)
  {
    hide Leb128.Decode, ParseRanges;
    var n := |frame|;
    p := PlainFrame(frame);
    if n < SUPPLEMENTAL_BASE_BYTES {
      return;
    }
    if frame[n - |MARKER|..] != MARKER {
      return;
    }
    var size := frame[n - |MARKER| - 1];
    if size < SUPPLEMENTAL_BASE_BYTES || size > n {
      return;
    }
    var tag := frame[n - size..n - size + TAG_BYTES];
    var nonceAndRanges := frame[n - size + TAG_BYTES..n - |MARKER| - 1];
    var nonce := Leb128.Read(nonceAndRanges);
    if nonce.None? || nonce.value.value > 0xFFFF_FFFF {
      return;
    }
    var interleaved := frame[..n - size];
    var ranges := ParseUnencryptedRanges(nonceAndRanges[nonce.value.len..], |interleaved|);
    if ranges.Some? {
      p := ParsedFrame(true, nonce.value.value, interleaved, ranges.value, tag);
    }
  }

  /** A frame the parser calls encrypted can be cut by its ranges and carries a whole tag. */
  lemma ParsedIsUsable(frame: seq<byte>)
    ensures var p := ParseFrame(frame);
            p.encrypted ==>
              && Placed(p.unencryptedRanges, |p.interleavedFrame|)
              && |p.tag| == TAG_BYTES && p.truncatedNonce < 0x1_0000_0000
  {
    var s := Supplement(frame);
    if s.Some? {
      var nonce := Leb128.Decode(s.value.2);
      if nonce.Some? {
        ParsedRangesPlaced(s.value.2[nonce.value.len..], 0, |s.value.0|);
      }
    }
  }

  lemma SupplementOfTail(body: seq<byte>, tag: seq<byte>, numbers: seq<byte>, size: byte)
    requires |tag| == TAG_BYTES && size == TAG_BYTES + |numbers| + 3
    ensures Supplement(body + tag + numbers + [size] + MARKER) == Some((body, tag, numbers))
  {
    var frame := body + tag + numbers + [size] + MARKER;
    var n := |frame|;
    assert n == |body| + size;
    assert frame[n - 2..] == MARKER;
    assert frame[..n - size] == body;
    assert frame[n - size..n - size + TAG_BYTES] == tag;
    assert frame[n - size + TAG_BYTES..n - 3] == numbers;
  }

  /** Parsing what the writer produced recovers the body, the tag, the nonce and the ranges. */
  lemma ParseOfTail(body: seq<byte>, tag: seq<byte>, nonce: u32, ranges: seq<Range>)
    requires |tag| == TAG_BYTES && |body| <= ISIZE_MAX && Placed(ranges, |body|)
    requires SupplementalSize(nonce, ranges) < 0x100
    ensures ParseFrame(body + tag + Tail(nonce, ranges)) == ParsedFrame(true, nonce, body, ranges, tag)
  {
    hide Leb128.Encode, Leb128.Decode, ParseRanges, RangeBytes, Placed, Supplement;
    var e, r := Leb128.Encode(nonce), RangeBytes(ranges);
    var size := SupplementalSize(nonce, ranges);
    SupplementOfTail(body, tag, e + r, size);
    assert body + tag + Tail(nonce, ranges) == body + tag + (e + r) + [size] + MARKER;
    Leb128.DecodeEncode(nonce, r);
    assert (e + r)[|e|..] == r;
    ParseRangesOfBytes(ranges, 0, |body|);
  }

  // ----- Sealing and opening -----

  /** AES-128-GCM with an 8-byte tag, as two functions of (nonce, authenticated bytes, data). */
  datatype Cipher = Cipher(
    seal: (seq<byte>, seq<byte>, seq<byte>) -> Option<(seq<byte>, seq<byte>)>,
    open: (seq<byte>, seq<byte>, seq<byte>, seq<byte>) -> Option<seq<byte>>)

  /** The assumption made of the cipher: lengths are kept and opening undoes sealing. */
  ghost predicate Faithful(cipher: Cipher) {
    && (forall n, a, p ::
          cipher.seal(n, a, p).Some? ==>
            var (c, t) := cipher.seal(n, a, p).value;
            |c| == |p| && |t| == TAG_BYTES && cipher.open(n, a, c, t) == Some(p))
    && (forall n, a, c, t :: cipher.open(n, a, c, t).Some? ==> |cipher.open(n, a, c, t).value| == |c|)
  }

  /** Twelve bytes: eight zeros, then the truncated nonce in little-endian order. */
  function NonceFromTruncated(nonce: u32): (n: seq<byte>)
    ensures |n| == 12
  {
    [0, 0, 0, 0, 0, 0, 0, 0,
     nonce % 0x100, nonce / 0x100 % 0x100, nonce / 0x1_0000 % 0x100, nonce / 0x100_0000]
  }

  lemma LittleEndian(n: u32)
    ensures n == n % 0x100 + 0x100 * (n / 0x100 % 0x100) + 0x1_0000 * (n / 0x1_0000 % 0x100) + 0x100_0000 * (n / 0x100_0000)
  {
    var low := n % 0x1_0000;
    assert n == 0x1_0000 * (n / 0x1_0000) + low;
    assert n / 0x1_0000 == 0x100 * (n / 0x100_0000) + n / 0x1_0000 % 0x100;
    assert n / 0x100 % 0x100 == low / 0x100 && n % 0x100 == low % 0x100;
  }

  lemma NonceBytes(nonce: u32)
    ensures
      var n := NonceFromTruncated(nonce);
      && |n| == 12 && (forall i :: 0 <= i < 8 ==> n[i] == 0)
      && n[8] as int + n[9] as int * 0x100 + n[10] as int * 0x1_0000 + n[11] as int * 0x100_0000 == nonce
  {
    LittleEndian(nonce);
  }

  /** Two frames under one key use different AEAD nonces unless their truncated nonces are equal. */
  lemma NonceInjective(m: u32, n: u32)
    requires NonceFromTruncated(m) == NonceFromTruncated(n)
    ensures m == n
  {
    hide NonceFromTruncated;
    NonceBytes(m);
    NonceBytes(n);
    var a, b := NonceFromTruncated(m), NonceFromTruncated(n);
    assert a[8] == b[8] && a[9] == b[9] && a[10] == b[10] && a[11] == b[11];
  }

  /** `encrypt_processed` on the halves the processor collected. */
  ghost function Seal(cipher: Cipher, nonce: u32, clear: seq<byte>, hidden: seq<byte>, ranges: seq<Range>): Sealed
    requires Faithful(cipher) && Weavable(clear, hidden, ranges)
  {
    match cipher.seal(NonceFromTruncated(nonce), clear, hidden)
    case None => Err(Aead)
    case Some((ciphertext, tag)) =>
      if SupplementalSize(nonce, ranges) > 0xFF then Err(SupplementalDataTooLarge)
      else Ok(Weave(clear, ciphertext, ranges) + tag + Tail(nonce, ranges))
  }

  /** `decrypt_into`: splits, opens and weaves back. */
  ghost function Open(cipher: Cipher, p: ParsedFrame): Option<seq<byte>>
    requires Faithful(cipher)
    requires Placed(p.unencryptedRanges, |p.interleavedFrame|) && p.truncatedNonce < 0x1_0000_0000
  {
    var clear := Clear(p.interleavedFrame, p.unencryptedRanges);
    var hidden := Hidden(p.interleavedFrame, p.unencryptedRanges);
    match cipher.open(NonceFromTruncated(p.truncatedNonce), clear, hidden, p.tag)
    case None => None
    case Some(plain) => Some(Weave(clear, plain, p.unencryptedRanges))
  }

  /** The parsed frame names the nonce and the ranges, shows the clear bytes, and opens to the laid-out bytes. */
  ghost predicate Recovers(cipher: Cipher, p: ParsedFrame, nonce: u32, laid: seq<byte>, ranges: seq<Range>)
    requires Faithful(cipher) && Placed(ranges, |laid|)
  {
    && p.encrypted && p.truncatedNonce == nonce
    && p.unencryptedRanges == ranges && |p.interleavedFrame| == |laid|
    && Clear(p.interleavedFrame, ranges) == Clear(laid, ranges)
    && Open(cipher, p) == Some(laid)
  }

  /**
    * Whatever was laid out: if sealing succeeds, parsing the output recovers the nonce and the ranges,
    * and opening it gives back exactly the laid-out bytes.
    */
  lemma OpenOfSeal(cipher: Cipher, nonce: u32, laid: seq<byte>, ranges: seq<Range>)
    requires Faithful(cipher) && Placed(ranges, |laid|) && |laid| <= ISIZE_MAX
    ensures var sealed := Seal(cipher, nonce, Clear(laid, ranges), Hidden(laid, ranges), ranges);
            sealed.Ok? ==> Recovers(cipher, ParseFrame(sealed.output), nonce, laid, ranges)
  {
    hide Placed, Clear, Hidden, Weave, ParseFrame, NonceFromTruncated, SupplementalSize;
    var clear, hidden := Clear(laid, ranges), Hidden(laid, ranges);
    var n := NonceFromTruncated(nonce);
    var sealed := cipher.seal(n, clear, hidden);
    if sealed.Some? && SupplementalSize(nonce, ranges) <= 0xFF {
      var (ciphertext, tag) := sealed.value;
      var body := Weave(clear, ciphertext, ranges);
      ParseOfTail(body, tag, nonce, ranges);
      SplitOfWeave(clear, ciphertext, ranges);
      WeaveOfSplit(laid, ranges);
    }
  }

  /** The other assumption that can be made of the cipher: it opens nothing it did not seal. */
  ghost predicate Authentic(cipher: Cipher) {
    forall n, a, c, t ::
      cipher.open(n, a, c, t).Some? ==> cipher.seal(n, a, cipher.open(n, a, c, t).value) == Some((c, t))
  }

  /**
    * Whatever a received frame opens to was sealed by a holder of the key: under the twelve-byte nonce the frame names, with
    * exactly the frame's clear bytes authenticated, into its hidden bytes and its tag. The clear bytes come out as they came in.
    */
  lemma OpenedWasSealed(cipher: Cipher, p: ParsedFrame)
    requires Faithful(cipher) && Authentic(cipher)
    requires Placed(p.unencryptedRanges, |p.interleavedFrame|) && p.truncatedNonce < 0x1_0000_0000
    requires Open(cipher, p).Some?
    ensures
      var laid, ranges := Open(cipher, p).value, p.unencryptedRanges;
      && |laid| == |p.interleavedFrame|
      && Clear(laid, ranges) == Clear(p.interleavedFrame, ranges)
      && cipher.seal(NonceFromTruncated(p.truncatedNonce), Clear(laid, ranges), Hidden(laid, ranges))
         == Some((Hidden(p.interleavedFrame, ranges), p.tag))
  {
    hide Placed, Clear, Hidden, Weave, NonceFromTruncated;
    var clear, hidden := Clear(p.interleavedFrame, p.unencryptedRanges), Hidden(p.interleavedFrame, p.unencryptedRanges);
    var plain := cipher.open(NonceFromTruncated(p.truncatedNonce), clear, hidden, p.tag).value;
    SplitOfWeave(clear, plain, p.unencryptedRanges);
  }

  /** All the numbers written one behind the other. */
  function Numbers(bytes: seq<byte>): (r: Option<seq<nat>>)
    decreases |bytes|
  {
    if bytes == [] then Some([]) else
    match Leb128.Decode(bytes)
    case None => None
    case Some(first) =>
      match Numbers(bytes[first.len..])
      case None => None
      case Some(rest) => Some([first.value] + rest)
  }

  lemma NumbersCons(v: u64, rest: seq<byte>)
    ensures Numbers(Leb128.Encode(v) + rest) == if Numbers(rest).None? then None else Some([v] + Numbers(rest).value)
  {
    hide Leb128.Encode, Leb128.Decode;
    Leb128.DecodeEncode(v, rest);
    assert (Leb128.Encode(v) + rest)[|Leb128.Encode(v)|..] == rest;
  }

  /** On the wire a range is its offset and then its length. */
  lemma {:induction false} RangesOnWire(ranges: seq<Range>)
    requires forall i :: 0 <= i < |ranges| ==> ranges[i].End() <= ISIZE_MAX
    ensures
      var r := Numbers(RangeBytes(ranges));
      && r.Some? && |r.value| == 2 * |ranges|
      && forall i :: 0 <= i < |ranges| ==> r.value[2 * i] == ranges[i].offset && r.value[2 * i + 1] == ranges[i].len
  {
    hide Numbers, Leb128.Encode;
    if ranges == [] {
      NoNumbers();
    } else {
      var rest := RangeBytes(ranges[1..]);
      RangesOnWire(ranges[1..]);
      NumbersCons(ranges[0].len, rest);
      NumbersCons(ranges[0].offset, Leb128.Encode(ranges[0].len) + rest);
      Associate(Leb128.Encode(ranges[0].offset), Leb128.Encode(ranges[0].len), rest);
      forall i | 0 < i < |ranges|
        ensures Numbers(RangeBytes(ranges)).value[2 * i] == ranges[i].offset
        ensures Numbers(RangeBytes(ranges)).value[2 * i + 1] == ranges[i].len
      {
        assert ranges[i] == ranges[1..][i - 1];
        assert Numbers(rest).value[2 * (i - 1)] == ranges[i].offset && Numbers(rest).value[2 * (i - 1) + 1] == ranges[i].len;
      }
    }
  }

  lemma NoNumbers()
    ensures RangeBytes([]) == [] && Numbers([]) == Some([])
  {
  }

  /** The four parts of a protected frame: body, eight bytes of tag, numbers, and their size with the marker. */
  ghost predicate Composed(frame: seq<byte>, body: seq<byte>, tag: seq<byte>, numbers: seq<byte>) {
    && |tag| == 8 && |numbers| + 11 < 256
    && frame == body + tag + numbers + [|numbers| + 11] + [0xFA, 0xFA]
  }

  /** The numbers are a nonce of at most 32 bits and ranges in order and inside the body. */
  ghost predicate Readable(numbers: seq<byte>, bodyLen: nat, nonce: nat, ranges: seq<Range>) {
    && var first := Leb128.Decode(numbers);
    && first.Some? && first.value.value == nonce < 0x1_0000_0000
    && first.value.len <= |numbers|
    && ParseRanges(numbers[first.value.len..], 0, bodyLen) == Some(ranges)
  }

  lemma PartsOf(frame: seq<byte>, size: nat)
    requires 11 <= size < 256 && size <= |frame| && frame[|frame| - 3] == size && frame[|frame| - 2..] == MARKER
    ensures
      var n := |frame|;
      Composed(frame, frame[..n - size], frame[n - size..n - size + 8], frame[n - size + 8..n - 3])
  {
    var n := |frame|;
    assert frame == frame[..n - size] + frame[n - size..n - size + 8] + frame[n - size + 8..n - 3] + frame[n - 3..n - 2] + frame[n - 2..];
  }

  lemma SupplementOf(frame: seq<byte>, body: seq<byte>, tag: seq<byte>, numbers: seq<byte>)
    requires Composed(frame, body, tag, numbers)
    ensures Supplement(frame) == Some((body, tag, numbers))
  {
    var n, size := |frame|, |numbers| + 11;
    assert frame[n - 2..] == MARKER && frame[n - 3] == size;
    assert frame[..n - size] == body && frame[n - size..n - size + 8] == tag && frame[n - size + 8..n - 3] == numbers;
  }

  lemma DecodedInside(numbers: seq<byte>)
    ensures Leb128.Decode(numbers).Some? ==> Leb128.Decode(numbers).value.len <= |numbers|
  {
  }

  /** A frame is protected exactly if it has these parts; every other frame is plain and stays whole. */
  lemma ProtectedExactly(frame: seq<byte>)
    ensures
      var p := ParseFrame(frame);
      p.encrypted <==>
      exists body, tag, numbers, nonce, ranges :: Composed(frame, body, tag, numbers) && Readable(numbers, |body|, nonce, ranges)
    ensures
      var p := ParseFrame(frame);
      p.encrypted ==>
        exists numbers ::
          && Composed(frame, p.interleavedFrame, p.tag, numbers)
          && Readable(numbers, |p.interleavedFrame|, p.truncatedNonce, p.unencryptedRanges)
    ensures !ParseFrame(frame).encrypted ==> ParseFrame(frame).interleavedFrame == frame
  {
    hide Leb128.Decode, ParseRanges;
    var p := ParseFrame(frame);
    if p.encrypted {
      var (body, tag, numbers) := Supplement(frame).value;
      PartsOf(frame, frame[|frame| - 3]);
      DecodedInside(numbers);
      assert Composed(frame, p.interleavedFrame, p.tag, numbers);
      assert Readable(numbers, |p.interleavedFrame|, p.truncatedNonce, p.unencryptedRanges);
    }
    if body, tag, numbers, nonce, ranges :| Composed(frame, body, tag, numbers) && Readable(numbers, |body|, nonce, ranges) {
      SupplementOf(frame, body, tag, numbers);
    }
  }

  /** Sealing appends exactly the supplement. */
  lemma SealedSize(cipher: Cipher, nonce: u32, laid: seq<byte>, ranges: seq<Range>)
    requires Faithful(cipher) && Placed(ranges, |laid|)
    ensures var sealed := Seal(cipher, nonce, Clear(laid, ranges), Hidden(laid, ranges), ranges);
            sealed.Ok? ==> |sealed.output| == |laid| + SupplementalSize(nonce, ranges)
  {
    hide Placed, Clear, Hidden, Weave, NonceFromTruncated, Leb128.Encode, RangeBytes;
  }

  /** Decryption takes a shortcut when nothing is authenticated; both ways compute `Open`. */
  method DecryptInto(cipher: Cipher, p: ParsedFrame) returns (r: Option<seq<byte>>)
    requires Faithful(cipher)
    requires Placed(p.unencryptedRanges, |p.interleavedFrame|) && p.truncatedNonce < 0x1_0000_0000
    ensures r == Open(cipher, p)
  {
    var nonce := NonceFromTruncated(p.truncatedNonce);
    if p.unencryptedRanges == [] {
      r := cipher.open(nonce, [], p.interleavedFrame, p.tag);
      return;
    }
    var authenticated, encrypted := Split(p.interleavedFrame, p.unencryptedRanges);
    var plain := cipher.open(nonce, authenticated, encrypted, p.tag);
    if plain.None? {
      return None;
    }
    var output := Reconstruct(authenticated, plain.value, p.unencryptedRanges);
    return Some(output);
  }
}
