/**
 * Opus packet framing (cacophony/src/opus.rs): the validator, and the packets of section 3.2 of
 * RFC 6716 that it decides.
 */
module Opus {
  import opened Prelude
  import opened Interleave

  const SAMPLES_PER_CHANNEL: nat := 960
  const MAX_PACKET_SAMPLES: nat := 5760
  const MAX_FRAME_BYTES: nat := 1275
  const MAX_PACKET_BYTES: nat := 4096

  // ----- Packets and their serialization -----

  /** Padding is announced by `chain` bytes of 255 and a last one. */
  datatype Padding = Padding(chain: nat, last: byte, content: seq<byte>)

  datatype Body =
    | One(frame: seq<byte>)
    | TwoEqual(first: seq<byte>, second: seq<byte>)
    | TwoSized(first: seq<byte>, second: seq<byte>)
    | Many(frames: seq<seq<byte>>, vbr: bool, padding: Option<Padding>)

  datatype Packet = Packet(config: nat, stereo: bool, body: Body)

  function Frames(body: Body): seq<seq<byte>> {
    match body
    case One(frame) => [frame]
    case TwoEqual(first, second) => [first, second]
    case TwoSized(first, second) => [first, second]
    case Many(frames, _, _) => frames
  }

  /** The frame duration of a configuration, in units of 120 samples: table 2 of RFC 6716. */
  function Duration(config: nat): nat
    requires config < 32
  {
    if config < 12 then [4, 8, 16, 24][config % 4]
    else if config < 16 then [4, 8][config % 2]
    else [1, 2, 4, 8][config % 4]
  }

  ghost predicate WellFormed(p: Packet) {
    && p.config < 32
    && (forall i :: 0 <= i < |Frames(p.body)| ==> |Frames(p.body)[i]| <= 1275)
    && match p.body
       case One(_) => true
       case TwoEqual(first, second) => |first| == |second|
       case TwoSized(_, _) => true
       case Many(frames, vbr, padding) =>
         && 1 <= |frames| <= 48
         && (!vbr ==> forall i :: 0 <= i < |frames| ==> |frames[i]| == |frames[0]|)
         && (padding.Some? ==> PaddingFits(padding.value))
  }

  ghost predicate PaddingFits(padding: Padding) {
    padding.last < 255 && |padding.content| == 254 * padding.chain + padding.last
  }

  ghost function Samples(p: Packet): nat
    requires p.config < 32
  {
    Duration(p.config) * 120 * |Frames(p.body)|
  }

  ghost function Code(body: Body): nat {
    match body
    case One(_) => 0
    case TwoEqual(_, _) => 1
    case TwoSized(_, _) => 2
    case Many(_, _, _) => 3
  }

  function SizeBytes(size: nat): seq<byte>
    requires size <= MAX_FRAME_BYTES
  {
    if size < 252 then [size] else [252 + size % 4, (size - (252 + size % 4)) / 4]
  }

  ghost function SizesBytes(sizes: seq<nat>): seq<byte>
    requires forall i :: 0 <= i < |sizes| ==> sizes[i] <= MAX_FRAME_BYTES
  {
    if |sizes| == 0 then [] else SizeBytes(sizes[0]) + SizesBytes(sizes[1..])
  }

  ghost function Concat(frames: seq<seq<byte>>): seq<byte> {
    if |frames| == 0 then [] else frames[0] + Concat(frames[1..])
  }

  ghost function Sizes(frames: seq<seq<byte>>): seq<nat> {
    seq(|frames|, i requires 0 <= i < |frames| => |frames[i]|)
  }

  ghost function PaddingHeader(chain: nat, last: byte): seq<byte> {
    if chain == 0 then [last] else [255] + PaddingHeader(chain - 1, last)
  }

  ghost function CountByte(frames: nat, vbr: bool, padded: bool): byte
    requires frames <= 48
  {
    frames + (if padded then 0x40 else 0) + if vbr then 0x80 else 0
  }

  /** All sizes but the last are written. */
  ghost function VbrHeader(frames: seq<seq<byte>>): seq<byte>
    requires |frames| > 0 && forall i :: 0 <= i < |frames| ==> |frames[i]| <= MAX_FRAME_BYTES
  {
    SizesBytes(Sizes(frames)[..|frames| - 1])
  }

  ghost function FrameData(frames: seq<seq<byte>>, vbr: bool): seq<byte>
    requires |frames| > 0 && forall i :: 0 <= i < |frames| ==> |frames[i]| <= MAX_FRAME_BYTES
  {
    (if vbr then VbrHeader(frames) else []) + Concat(frames)
  }

  ghost function ManyBytes(frames: seq<seq<byte>>, vbr: bool, padding: Option<Padding>): seq<byte>
    requires 0 < |frames| <= 48 && forall i :: 0 <= i < |frames| ==> |frames[i]| <= MAX_FRAME_BYTES
  {
    [CountByte(|frames|, vbr, padding.Some?)] + Padded(FrameData(frames, vbr), padding)
  }

  ghost function Padded(data: seq<byte>, padding: Option<Padding>): seq<byte> {
    match padding
    case None => data
    case Some(p) => PaddingHeader(p.chain, p.last) + (data + p.content)
  }

  ghost function BodyBytes(body: Body): seq<byte>
    requires WellFormed(Packet(0, false, body))
  {
    match body
    case One(frame) => frame
    case TwoEqual(first, second) => first + second
    case TwoSized(first, second) =>
      assert |Frames(body)[0]| <= MAX_FRAME_BYTES;
      SizeBytes(|first|) + (first + second)
    case Many(frames, vbr, padding) => ManyBytes(frames, vbr, padding)
  }

  ghost function Serialize(p: Packet): seq<byte>
    requires WellFormed(p)
  {
    [(8 * p.config + (if p.stereo then 4 else 0) + Code(p.body)) as byte] + BodyBytes(p.body)
  }

  /** `bytes` is the serialization of a packet lasting `samples` per channel. */
  ghost predicate Encodes(p: Packet, bytes: seq<byte>, samples: nat) {
    WellFormed(p) && Serialize(p) == bytes && Samples(p) == samples
  }

  // ----- The parser -----

  function SamplesPerFrame(toc: byte): nat {
    if toc / 128 == 1 then 48000 * [1, 2, 4, 8][toc / 8 % 4] / 400
    else if toc / 32 % 4 == 3 then (if toc / 8 % 2 == 1 then 48000 / 50 else 48000 / 100)
    else if toc / 8 % 4 == 3 then 48000 * 60 / 1000
    else 48000 * [1, 2, 4][toc / 8 % 4] / 100
  }

  /** The value of a size field and its length. */
  function ParseSize(data: seq<byte>): (r: Option<(nat, nat)>)
    ensures r.Some? ==> 0 < r.value.1 <= |data| && r.value.0 <= MAX_FRAME_BYTES
  {
    if |data| == 0 then None
    else if data[0] < 252 then Some((data[0], 1))
    else if |data| < 2 then None
    else Some((data[1] as int * 4 + data[0], 2))
  }

  function ParsePadding(data: seq<byte>): (r: Option<(nat, nat)>)
    ensures r.Some? ==> 0 < r.value.1 <= |data|
  {
    if |data| == 0 then None
    else if data[0] != 255 then Some((data[0], 1))
    else
      match ParsePadding(data[1..])
      case None => None
      case Some((padding, used)) => Some((padding + 254, used + 1))
  }

  /** `left` more size fields, after ones that announced `total` bytes. */
  predicate VbrFits(data: seq<byte>, left: nat, total: nat)
    decreases left
  {
    if left == 0 then total <= |data| && |data| - total <= MAX_FRAME_BYTES
    else
      match ParseSize(data)
      case None => false
      case Some((size, used)) => VbrFits(data[used..], left - 1, total + size)
  }

  predicate CbrFits(data: seq<byte>, frames: nat)
    requires frames > 0
  {
    |data| % frames == 0 && |data| / frames <= MAX_FRAME_BYTES
  }

  predicate DataFits(data: seq<byte>, vbr: bool, frames: nat)
    requires frames > 0
  {
    if vbr then VbrFits(data, frames - 1, 0) else CbrFits(data, frames)
  }

  /** The bytes of the frames once padding is taken away. */
  function Unpadded(data: seq<byte>, padded: bool): Option<seq<byte>> {
    if !padded then Some(data)
    else
      match ParsePadding(data)
      case None => None
      case Some((padding, used)) =>
        if |data| - used < padding then None else Some(data[used..|data| - padding])
  }

  function ManyCount(payload: seq<byte>, samplesPerFrame: nat): Option<nat> {
    if |payload| == 0 then None
    else
      var frames := payload[0] % 64;
      if frames == 0 || frames > 48 || samplesPerFrame * frames > MAX_PACKET_SAMPLES then None
      else
        match Unpadded(payload[1..], payload[0] / 64 % 2 == 1)
        case None => None
        case Some(data) =>
          if DataFits(data, payload[0] / 128 == 1, frames) then Some(frames) else None
  }

  function FrameCount(packet: seq<byte>): Option<nat>
    requires |packet| > 0
  {
    var payload := packet[1..];
    match packet[0] % 4
    case 0 => if |payload| <= MAX_FRAME_BYTES then Some(1) else None
    case 1 => if |payload| % 2 == 0 && |payload| / 2 <= MAX_FRAME_BYTES then Some(2) else None
    case 2 =>
      (match ParseSize(payload)
       case None => None
       case Some((first, used)) =>
         if first <= |payload| - used <= first + MAX_FRAME_BYTES then Some(2) else None)
    case _ => ManyCount(payload, SamplesPerFrame(packet[0]))
  }

  function PacketSamples(packet: seq<byte>): Option<nat>
    requires |packet| > 0
  {
    match FrameCount(packet)
    case None => None
    case Some(frames) =>
      var samples := SamplesPerFrame(packet[0]) * frames;
      if samples > MAX_PACKET_SAMPLES then None else Some(samples)
  }

  // ----- Size fields -----

  lemma ParseOfSize(size: nat, rest: seq<byte>)
    requires size <= MAX_FRAME_BYTES
    ensures ParseSize(SizeBytes(size) + rest) == Some((size, |SizeBytes(size)|))
  {
  }

  lemma SizeOfParse(data: seq<byte>)
    requires ParseSize(data).Some?
    ensures
      var (size, used) := ParseSize(data).value;
      SizeBytes(size) == data[..used]
  {
  }

  // ----- Padding -----

  lemma {:induction false} ParseOfPadding(chain: nat, last: byte, rest: seq<byte>)
    requires last < 255
    ensures |PaddingHeader(chain, last)| == chain + 1
    ensures ParsePadding(PaddingHeader(chain, last) + rest) == Some((254 * chain + last, chain + 1))
  {
    var data := PaddingHeader(chain, last) + rest;
    if chain > 0 {
      ParseOfPadding(chain - 1, last, rest);
      assert data[1..] == PaddingHeader(chain - 1, last) + rest;
    }
  }

  lemma {:induction false} PaddingOfParse(data: seq<byte>) returns (chain: nat, last: byte)
    requires ParsePadding(data).Some?
    ensures
      var (padding, used) := ParsePadding(data).value;
      last < 255 && padding == 254 * chain + last && data[..used] == PaddingHeader(chain, last)
  {
    if data[0] != 255 {
      chain, last := 0, data[0];
    } else {
      chain, last := PaddingOfParse(data[1..]);
      var used := ParsePadding(data[1..]).value.1;
      assert data[..used + 1] == [255] + data[1..][..used];
      chain := chain + 1;
    }
  }

  lemma UnpaddedOfPadded(data: seq<byte>, padding: Option<Padding>)
    requires padding.Some? ==> PaddingFits(padding.value)
    ensures Unpadded(Padded(data, padding), padding.Some?) == Some(data)
  {
    if padding.Some? {
      hide ParsePadding, PaddingHeader;
      var p := padding.value;
      var header := PaddingHeader(p.chain, p.last);
      ParseOfPadding(p.chain, p.last, data + p.content);
      var all := header + (data + p.content);
      assert all[|header|..|all| - |p.content|] == data;
    }
  }

  lemma PaddedOfUnpadded(data: seq<byte>, padded: bool) returns (padding: Option<Padding>)
    requires Unpadded(data, padded).Some?
    ensures padding.Some? <==> padded
    ensures padding.Some? ==> PaddingFits(padding.value)
    ensures Padded(Unpadded(data, padded).value, padding) == data
  {
    hide ParsePadding, PaddingHeader;
    if padded {
      var chain, last := PaddingOfParse(data);
      var (length, used) := ParsePadding(data).value;
      padding := Some(Padding(chain, last, data[|data| - length..]));
      assert data == data[..used] + (data[used..|data| - length] + data[|data| - length..]);
    } else {
      padding := None;
    }
  }

  // ----- Variable frame sizes -----

  ghost function Sum(sizes: seq<nat>): nat {
    if |sizes| == 0 then 0 else sizes[0] + Sum(sizes[1..])
  }

  ghost predicate Small(sizes: seq<nat>) {
    forall i :: 0 <= i < |sizes| ==> sizes[i] <= MAX_FRAME_BYTES
  }

  lemma {:induction false} VbrOfSizes(sizes: seq<nat>, rest: seq<byte>, total: nat)
    requires Small(sizes)
    ensures VbrFits(SizesBytes(sizes) + rest, |sizes|, total) <==> VbrFits(rest, 0, total + Sum(sizes))
  {
    if |sizes| == 0 {
      assert SizesBytes(sizes) + rest == rest;
    } else {
      hide ParseSize, SizeBytes;
      var head, tail := SizeBytes(sizes[0]), SizesBytes(sizes[1..]);
      ParseOfSize(sizes[0], tail + rest);
      Associate(head, tail, rest);
      assert (head + (tail + rest))[|head|..] == tail + rest;
      VbrOfSizes(sizes[1..], rest, total + sizes[0]);
    }
  }

  lemma SizesCons(size: nat, tail: seq<nat>)
    requires size <= MAX_FRAME_BYTES && Small(tail)
    ensures Small([size] + tail) && Sum([size] + tail) == size + Sum(tail)
    ensures SizesBytes([size] + tail) == SizeBytes(size) + SizesBytes(tail)
  {
    assert ([size] + tail)[1..] == tail;
  }

  lemma Rejoin(data: seq<byte>, used: nat, middle: seq<byte>, rest: seq<byte>)
    requires used <= |data| && data[used..] == middle + rest
    ensures data == data[..used] + middle + rest
  {
    Associate(data[..used], middle, rest);
    assert data == data[..used] + data[used..];
  }

  lemma {:induction false} SizesOfVbr(data: seq<byte>, left: nat, total: nat) returns (sizes: seq<nat>, rest: seq<byte>)
    requires VbrFits(data, left, total)
    ensures |sizes| == left && Small(sizes) && data == SizesBytes(sizes) + rest
    ensures total + Sum(sizes) <= |rest| && |rest| - total - Sum(sizes) <= MAX_FRAME_BYTES
    decreases left
  {
    if left == 0 {
      sizes, rest := [], data;
    } else {
      hide ParseSize, SizeBytes, SizesBytes, Sum, Small;
      var (size, used) := ParseSize(data).value;
      SizeOfParse(data);
      var tail;
      tail, rest := SizesOfVbr(data[used..], left - 1, total + size);
      sizes := [size] + tail;
      SizesCons(size, tail);
      Rejoin(data, used, SizesBytes(tail), rest);
    }
  }

  // ----- Frames and their sizes -----

  lemma {:induction false} ConcatLength(frames: seq<seq<byte>>)
    ensures |Concat(frames)| == Sum(Sizes(frames))
  {
    if |frames| > 0 {
      ConcatLength(frames[1..]);
      assert Sizes(frames)[1..] == Sizes(frames[1..]);
    }
  }

  /** Data of the right length can be cut into frames of given sizes. */
  lemma {:induction false} Cut(data: seq<byte>, sizes: seq<nat>) returns (frames: seq<seq<byte>>)
    requires |data| == Sum(sizes)
    ensures Sizes(frames) == sizes && Concat(frames) == data
  {
    if |sizes| == 0 {
      frames := [];
    } else {
      var tail := Cut(data[sizes[0]..], sizes[1..]);
      frames := [data[..sizes[0]]] + tail;
      assert frames[1..] == tail;
      assert Sizes(frames) == [sizes[0]] + Sizes(tail);
      assert data == data[..sizes[0]] + data[sizes[0]..];
    }
  }

  lemma {:induction false} SumSnoc(sizes: seq<nat>, last: nat)
    ensures Sum(sizes + [last]) == Sum(sizes) + last
  {
    if |sizes| > 0 {
      assert (sizes + [last])[1..] == sizes[1..] + [last];
      SumSnoc(sizes[1..], last);
    }
  }

  ghost function Repeat(size: nat, n: nat): seq<nat> {
    seq(n, _ => size)
  }

  lemma {:induction false} SumRepeat(size: nat, n: nat)
    ensures Sum(Repeat(size, n)) == size * n
  {
    if n > 0 {
      SumRepeat(size, n - 1);
      assert Repeat(size, n)[1..] == Repeat(size, n - 1);
    }
  }

  /** Frames no larger than allowed whose data is `data`. */
  ghost predicate Framed(frames: seq<seq<byte>>, vbr: bool, data: seq<byte>) {
    && |frames| > 0 && (forall i :: 0 <= i < |frames| ==> |frames[i]| <= MAX_FRAME_BYTES)
    && (!vbr ==> forall i :: 0 <= i < |frames| ==> |frames[i]| == |frames[0]|)
    && FrameData(frames, vbr) == data
  }

  lemma VbrOfFrames(frames: seq<seq<byte>>)
    requires |frames| > 0 && forall i :: 0 <= i < |frames| ==> |frames[i]| <= MAX_FRAME_BYTES
    ensures DataFits(FrameData(frames, true), true, |frames|)
  {
    var sizes := Sizes(frames);
    var init, last := sizes[..|frames| - 1], sizes[|frames| - 1];
    ConcatLength(frames);
    SumSnoc(init, last);
    assert sizes == init + [last];
    VbrOfSizes(init, Concat(frames), 0);
  }

  lemma CbrOfFrames(frames: seq<seq<byte>>)
    requires |frames| > 0 && |frames[0]| <= MAX_FRAME_BYTES
    requires forall i :: 0 <= i < |frames| ==> |frames[i]| == |frames[0]|
    ensures DataFits(FrameData(frames, false), false, |frames|)
  {
    var size, n := |frames[0]|, |frames|;
    ConcatLength(frames);
    assert Sizes(frames) == Repeat(size, n);
    SumRepeat(size, n);
    assert [] + Concat(frames) == Concat(frames);
    Multiple(size, n);
  }

  lemma MultiplyOrdered(a: int, b: int, n: nat)
    requires a < b
    ensures a * n + n <= b * n
  {
    assert (b - a - 1) * n >= 0;
  }

  lemma Multiple(size: nat, n: nat)
    requires n > 0
    ensures size * n % n == 0 && size * n / n == size
  {
    var product := size * n;
    var q, r := product / n, product % n;
    assert product == q * n + r;
    if size < q {
      MultiplyOrdered(size, q, n);
    } else if q < size {
      MultiplyOrdered(q, size, n);
    }
  }

  lemma FramesOfVbr(data: seq<byte>, n: nat) returns (frames: seq<seq<byte>>)
    requires n > 0 && DataFits(data, true, n)
    ensures |frames| == n && Framed(frames, true, data)
  {
    var init, rest := SizesOfVbr(data, n - 1, 0);
    var sizes := init + [|rest| - Sum(init)];
    SumSnoc(init, |rest| - Sum(init));
    frames := Cut(rest, sizes);
    assert |Sizes(frames)| == |frames|;
    forall i | 0 <= i < |frames|
      ensures |frames[i]| <= MAX_FRAME_BYTES
    {
      assert |frames[i]| == Sizes(frames)[i] == sizes[i];
    }
    assert Sizes(frames)[..n - 1] == init;
  }

  lemma FramesOfCbr(data: seq<byte>, n: nat) returns (frames: seq<seq<byte>>)
    requires n > 0 && DataFits(data, false, n)
    ensures |frames| == n && Framed(frames, false, data)
  {
    var size := |data| / n;
    SumRepeat(size, n);
    frames := Cut(data, Repeat(size, n));
    assert |Sizes(frames)| == |frames|;
    forall i | 0 <= i < |frames|
      ensures |frames[i]| == size
    {
      assert |frames[i]| == Sizes(frames)[i] == size;
    }
    assert [] + Concat(frames) == Concat(frames);
  }

  // ----- The format is decided -----

  lemma TocOf(config: nat, stereo: bool, code: nat, toc: byte)
    requires config < 32 && code < 4 && toc == 8 * config + (if stereo then 4 else 0) + code
    ensures toc % 4 == code && toc / 8 == config && SamplesPerFrame(toc) == Duration(config) * 120
  {
    var rest := (if stereo then 4 else 0) + code;
    assert toc / 8 == config;
    DurationsAgree(toc);
  }

  /** The shifts and masks of the source compute the table. */
  lemma DurationsAgree(toc: byte)
    ensures SamplesPerFrame(toc) == Duration(toc / 8) * 120
  {
    var config := toc / 8;
    assert config % 4 == 0 || config % 4 == 1 || config % 4 == 2 || config % 4 == 3;
  }

  lemma CountByteParts(frames: nat, vbr: bool, padded: bool)
    requires frames <= 48
    ensures
      var b := CountByte(frames, vbr, padded);
      b % 64 == frames && (b / 64 % 2 == 1 <==> padded) && (b / 128 == 1 <==> vbr)
  {
  }

  lemma ManyOfFrames(frames: seq<seq<byte>>, vbr: bool, padding: Option<Padding>, samplesPerFrame: nat)
    requires WellFormed(Packet(0, false, Many(frames, vbr, padding)))
    requires forall i :: 0 <= i < |frames| ==> |frames[i]| <= MAX_FRAME_BYTES
    requires samplesPerFrame * |frames| <= MAX_PACKET_SAMPLES
    ensures ManyCount(ManyBytes(frames, vbr, padding), samplesPerFrame) == Some(|frames|)
  {
    var data := FrameData(frames, vbr);
    hide Padded, Unpadded, FrameData, VbrFits, CbrFits;
    var bytes := ManyBytes(frames, vbr, padding);
    assert bytes[1..] == Padded(data, padding);
    CountByteParts(|frames|, vbr, padding.Some?);
    hide CountByte;
    UnpaddedOfPadded(data, padding);
    if vbr {
      VbrOfFrames(frames);
    } else {
      CbrOfFrames(frames);
    }
  }

  lemma CountOfBody(config: nat, stereo: bool, body: Body)
    requires WellFormed(Packet(config, stereo, body)) && Samples(Packet(config, stereo, body)) <= MAX_PACKET_SAMPLES
    ensures FrameCount(Serialize(Packet(config, stereo, body))) == Some(|Frames(body)|)
  {
    var p := Packet(config, stereo, body);
    var bytes := Serialize(p);
    TocOf(config, stereo, Code(body), bytes[0]);
    assert bytes[1..] == BodyBytes(body);
    hide Duration, SamplesPerFrame, ManyCount, ManyBytes, ParseSize, SizeBytes;
    match body
    case One(frame) => assert frame == Frames(body)[0];
    case TwoEqual(first, second) => assert first == Frames(body)[0];
    case TwoSized(first, second) =>
      assert first == Frames(body)[0] && second == Frames(body)[1];
      ParseOfSize(|first|, first + second);
    case Many(frames, vbr, padding) =>
      assert frames == Frames(body);
      ManyOfFrames(frames, vbr, padding, SamplesPerFrame(bytes[0]));
  }

  lemma FramesOfMany(payload: seq<byte>, samplesPerFrame: nat) returns (body: Body)
    requires ManyCount(payload, samplesPerFrame).Some?
    ensures body.Many? && WellFormed(Packet(0, false, body)) && BodyBytes(body) == payload
    ensures |Frames(body)| == ManyCount(payload, samplesPerFrame).value
  {
    var count := payload[0];
    var n, padded, vbr := count % 64, count / 64 % 2 == 1, count / 128 == 1;
    var data := Unpadded(payload[1..], padded).value;
    var padding := PaddedOfUnpadded(payload[1..], padded);
    var frames;
    if vbr {
      frames := FramesOfVbr(data, n);
    } else {
      frames := FramesOfCbr(data, n);
    }
    body := Many(frames, vbr, padding);
    hide Padded, Unpadded, FrameData, VbrFits, CbrFits;
    assert count == CountByte(n, vbr, padded);
    assert payload == [payload[0]] + payload[1..];
  }

  lemma BodyOfCount(bytes: seq<byte>) returns (body: Body)
    requires |bytes| > 0 && FrameCount(bytes).Some?
    ensures WellFormed(Packet(0, false, body)) && BodyBytes(body) == bytes[1..] && Code(body) == bytes[0] % 4
    ensures |Frames(body)| == FrameCount(bytes).value
  {
    hide SamplesPerFrame, ManyCount, ManyBytes, ParseSize, SizeBytes;
    var payload := bytes[1..];
    if bytes[0] % 4 == 0 {
      body := One(payload);
    } else if bytes[0] % 4 == 1 {
      var half := |payload| / 2;
      body := TwoEqual(payload[..half], payload[half..]);
    } else if bytes[0] % 4 == 2 {
      var (first, used) := ParseSize(payload).value;
      SizeOfParse(payload);
      body := TwoSized(payload[used..used + first], payload[used + first..]);
      assert payload == payload[..used] + (payload[used..used + first] + payload[used + first..]);
    } else {
      body := FramesOfMany(payload, SamplesPerFrame(bytes[0]));
    }
  }

  lemma SamplesOfPacket(p: Packet)
    requires WellFormed(p) && Samples(p) <= MAX_PACKET_SAMPLES
    ensures PacketSamples(Serialize(p)) == Some(Samples(p))
  {
    CountOfBody(p.config, p.stereo, p.body);
    TocOf(p.config, p.stereo, Code(p.body), Serialize(p)[0]);
    hide FrameCount, SamplesPerFrame, Duration, Frames, BodyBytes;
  }

  lemma TocParts(toc: byte)
    ensures toc == 8 * (toc / 8) + (if toc / 4 % 2 == 1 then 4 else 0) + toc % 4 && toc / 8 < 32
  {
  }

  lemma AnyHeader(config: nat, stereo: bool, body: Body)
    requires config < 32 && WellFormed(Packet(0, false, body))
    ensures WellFormed(Packet(config, stereo, body))
  {
  }

  lemma PacketOfSamples(bytes: seq<byte>) returns (p: Packet)
    requires |bytes| > 0 && PacketSamples(bytes).Some?
    ensures Encodes(p, bytes, PacketSamples(bytes).value)
  {
    hide WellFormed, FrameCount, BodyBytes, SamplesPerFrame, Duration, Frames, Code;
    var body := BodyOfCount(bytes);
    var toc := bytes[0];
    p := Packet(toc / 8, toc / 4 % 2 == 1, body);
    DurationsAgree(toc);
    TocParts(toc);
    assert bytes == [toc] + bytes[1..];
    AnyHeader(p.config, p.stereo, body);
  }

  /** The parser gives `samples` exactly for the serializations of packets that long, up to 120 ms. */
  lemma Decides(bytes: seq<byte>, samples: nat)
    requires |bytes| > 0
    ensures PacketSamples(bytes) == Some(samples) <==>
            samples <= MAX_PACKET_SAMPLES && exists p :: Encodes(p, bytes, samples)
  {
    hide FrameCount, WellFormed, Serialize, Samples;
    if PacketSamples(bytes) == Some(samples) {
      var p := PacketOfSamples(bytes);
    }
    if samples <= MAX_PACKET_SAMPLES && exists p :: Encodes(p, bytes, samples) {
      var p :| Encodes(p, bytes, samples);
      SamplesOfPacket(p);
    }
  }

  // ----- The validator -----

  datatype Verdict = Accepted | EmptyPayload | PayloadTooLarge | InvalidPacket | UnsupportedDuration(samples: nat)

  method ParsePaddingLen(data: seq<byte>) returns (r: Option<(nat, nat)>)
    ensures r == ParsePadding(data)
  {
    var padding: nat, index: nat := 0, 0;
    while index < |data|
      invariant 0 <= index <= |data|
      invariant ParsePadding(data) == Shifted(ParsePadding(data[index..]), padding, index)
    {
      assert data[index..][1..] == data[index + 1..];
      padding := padding + if data[index] == 255 then 254 else data[index] as int;
      if data[index] != 255 {
        return Some((padding, index + 1));
      }
      index := index + 1;
    }
    return None;
  }

  ghost function Shifted(r: Option<(nat, nat)>, padding: nat, used: nat): Option<(nat, nat)> {
    match r
    case None => None
    case Some((p, u)) => Some((p + padding, u + used))
  }

  method ValidateVbrFrameSizes(data: seq<byte>, frames: nat) returns (ok: bool)
    requires frames > 0
    ensures ok == VbrFits(data, frames - 1, 0)
  {
    hide ParseSize;
    var rest, total: nat, left: nat := data, 0, frames - 1;
    while left > 0
      invariant VbrFits(data, frames - 1, 0) == VbrFits(rest, left, total)
      decreases left
    {
      var size := ParseSize(rest);
      if size.None? {
        return false;
      }
      rest := rest[size.value.1..];
      total := total + size.value.0;
      left := left - 1;
    }
    return total <= |rest| && |rest| - total <= MAX_FRAME_BYTES;
  }

  method ManyFrameCount(payload: seq<byte>, samplesPerFrame: nat) returns (r: Option<nat>)
    ensures r == ManyCount(payload, samplesPerFrame)
  {
    hide ParsePadding, VbrFits;
    if |payload| == 0 {
      return None;
    }
    var countByte, data := payload[0], payload[1..];
    var frames := countByte % 64;
    if frames == 0 || frames > 48 || samplesPerFrame * frames > MAX_PACKET_SAMPLES {
      return None;
    }
    if countByte / 64 % 2 == 1 {
      var padding := ParsePaddingLen(data);
      if padding.None? {
        return None;
      }
      var (length, used) := padding.value;
      if |data| - used < length {
        return None;
      }
      data := data[used..|data| - length];
    }
    var ok := |data| % frames == 0 && |data| / frames <= MAX_FRAME_BYTES;
    if countByte / 128 == 1 {
      ok := ValidateVbrFrameSizes(data, frames);
    }
    return if ok then Some(frames) else None;
  }

  method PacketFrameCount(packet: seq<byte>) returns (r: Option<nat>)
    requires |packet| > 0
    ensures r == FrameCount(packet)
  {
    hide ManyCount, ParseSize;
    var payload, code := packet[1..], packet[0] % 4;
    if code == 0 {
      return if |payload| > MAX_FRAME_BYTES then None else Some(1);
    } else if code == 1 {
      if |payload| % 2 != 0 || |payload| / 2 > MAX_FRAME_BYTES {
        return None;
      }
      return Some(2);
    } else if code == 2 {
      var size := ParseSize(payload);
      if size.None? {
        return None;
      }
      var (first, used) := size.value;
      var remaining := |payload| - used;
      if first > remaining || first > MAX_FRAME_BYTES || remaining - first > MAX_FRAME_BYTES {
        return None;
      }
      return Some(2);
    }
    r := ManyFrameCount(payload, SamplesPerFrame(packet[0]));
  }

  /**
   * A byte string is accepted exactly when it is at most 4096 bytes long and serializes a packet
   * of 960 samples per channel. The other verdicts are exact too.
   */
  method ValidatePacketBytes(bytes: seq<byte>) returns (r: Verdict)
    ensures r == Accepted <==> |bytes| <= 4096 && exists p :: Encodes(p, bytes, 960)
    ensures r == EmptyPayload <==> |bytes| == 0
    ensures r == PayloadTooLarge <==> |bytes| > 4096
    ensures r.UnsupportedDuration? ==> r.samples != 960 && r.samples <= 5760 && exists p :: Encodes(p, bytes, r.samples)
    ensures r == InvalidPacket ==> forall p, samples: nat :: Encodes(p, bytes, samples) ==> samples > 5760
  {
    hide FrameCount, SamplesPerFrame, WellFormed, Serialize, Samples;
    if |bytes| == 0 {
      NothingEncodesEmpty(SAMPLES_PER_CHANNEL);
      return EmptyPayload;
    }
    if |bytes| > MAX_PACKET_BYTES {
      return PayloadTooLarge;
    }
    Decides(bytes, SAMPLES_PER_CHANNEL);
    if PacketSamples(bytes).None? {
      NothingShort(bytes);
    }
    var frames := PacketFrameCount(bytes);
    if frames.None? {
      return InvalidPacket;
    }
    var samples := SamplesPerFrame(bytes[0]) * frames.value;
    if samples > MAX_PACKET_SAMPLES {
      return InvalidPacket;
    }
    Decides(bytes, samples);
    return if samples == SAMPLES_PER_CHANNEL then Accepted else UnsupportedDuration(samples);
  }

  lemma NothingShort(bytes: seq<byte>)
    requires |bytes| > 0 && PacketSamples(bytes).None?
    ensures forall p, samples: nat :: Encodes(p, bytes, samples) ==> samples > MAX_PACKET_SAMPLES
  {
    hide PacketSamples, WellFormed, Serialize, Samples;
    forall p, samples: nat | Encodes(p, bytes, samples)
      ensures samples > MAX_PACKET_SAMPLES
    {
      Decides(bytes, samples);
    }
  }

  lemma NothingEncodesEmpty(samples: nat)
    ensures !exists p :: Encodes(p, [], samples)
  {
    hide WellFormed, BodyBytes, Samples;
    assert forall p :: Encodes(p, [], samples) ==> |Serialize(p)| > 0;
  }
}
