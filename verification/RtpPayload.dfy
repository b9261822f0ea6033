/** Parsing and depacketizing RTP payloads (cacophony/src/rtp_payload.rs). */
module RtpPayload {
  import opened Prelude
  import opened Codecs
  import opened H26xFrame
  import AnnexB
  import Leb128

  datatype Boundary = Boundary(startsFrame: bool, completesFrame: bool)

  datatype Depacketized =
    | Raw(payload: seq<byte>)
    | H26xNalu(nalu: seq<byte>)
    | H26xAggregation(units: seq<byte>)
    | H26xFragment(starts: bool, completes: bool, header: seq<byte>, fragment: seq<byte>)
    | Av1Elements(w: nat, elements: seq<byte>)

  datatype Parsed = Parsed(boundary: Boundary, content: Depacketized)

  // ----- VP8, section 4.2 of RFC 7741 -----

  datatype Descriptor = Descriptor(len: nat, startsFrame: bool, completesFrame: bool)

  function Vp8Descriptor(payload: seq<byte>): (r: Option<Descriptor>)
    ensures r.Some? ==> 1 <= r.value.len <= |payload|
  {
    if payload == [] then None else
    var first := payload[0];
    var len :=
      if !Bit(first, 7) then Some(1)
      else if |payload| < 2 then None
      else
        var extension := payload[1];
        if Bit(extension, 7) && |payload| < 3 then None else
        Some(2 + (if !Bit(extension, 7) then 0 else if Bit(payload[2], 7) then 2 else 1)
               + (if Bit(extension, 6) then 1 else 0)
               + (if Bit(extension, 5) || Bit(extension, 4) then 1 else 0));
    if len.None? || len.value > |payload| then None
    else Some(Descriptor(len.value, Bit(first, 4) && first % 16 == 0, false))
  }

  // ----- VP9, section 4.2 of RFC 9628 -----

  /** Reference indices run until one has its low bit clear. */
  function SkipReferences(payload: seq<byte>, len: nat): (r: Option<nat>)
    ensures r.Some? ==> len < r.value <= |payload|
    decreases |payload| - len
  {
    if len >= |payload| then None
    else if payload[len] % 2 == 0 then Some(len + 1)
    else SkipReferences(payload, len + 1)
  }

  /** Each picture of a picture group takes one byte plus as many as its low two bits say. */
  function SkipPictures(payload: seq<byte>, len: nat, pictures: nat): (r: Option<nat>)
    ensures r.Some? ==> len <= r.value
    decreases pictures
  {
    if pictures == 0 then Some(len)
    else if len >= |payload| then None
    else SkipPictures(payload, len + 1 + payload[len] % 4, pictures - 1)
  }

  function SkipScalability(payload: seq<byte>, len: nat): (r: Option<nat>)
    ensures r.Some? ==> len < r.value
  {
    if len >= |payload| then None else
    var header := payload[len];
    var sizes := len + 1 + if Bit(header, 4) then (header % 8 + 1) * 4 else 0;
    if !Bit(header, 3) then Some(sizes)
    else if sizes >= |payload| then None
    else SkipPictures(payload, sizes + 1, payload[sizes])
  }

  function Vp9Descriptor(payload: seq<byte>): (r: Option<Descriptor>)
    ensures r.Some? ==> 1 <= r.value.len <= |payload|
  {
    if payload == [] then None else
    var flags := payload[0];
    if Bit(flags, 7) && |payload| < 2 then None else
    var picture := 1 + if !Bit(flags, 7) then 0 else if Bit(payload[1], 7) then 2 else 1;
    var layers := picture + if !Bit(flags, 5) then 0 else if Bit(flags, 4) then 1 else 2;
    var references := if Bit(flags, 4) && Bit(flags, 6) then SkipReferences(payload, layers) else Some(layers);
    if references.None? then None else
    var len := if Bit(flags, 1) then SkipScalability(payload, references.value) else references;
    if len.None? || len.value > |payload| then None
    else Some(Descriptor(len.value, Bit(flags, 3), Bit(flags, 2)))
  }

  method FindReferencesEnd(payload: seq<byte>, start: nat) returns (r: Option<nat>)
    ensures r == SkipReferences(payload, start)
  {
    var len := start;
    while true
      invariant SkipReferences(payload, start) == SkipReferences(payload, len)
      decreases |payload| - len
    {
      if len >= |payload| {
        return None;
      }
      var reference := payload[len];
      len := len + 1;
      if reference % 2 == 0 {
        return Some(len);
      }
    }
  }

  method FindScalabilityEnd(payload: seq<byte>, start: nat) returns (r: Option<nat>)
    ensures r == SkipScalability(payload, start)
  {
    if start >= |payload| {
      return None;
    }
    var header := payload[start];
    var len := start + 1;
    if Bit(header, 4) {
      len := len + (header % 8 + 1) * 4;
    }
    if Bit(header, 3) {
      if len >= |payload| {
        return None;
      }
      var pictures := payload[len];
      len := len + 1;
      for i := 0 to pictures
        invariant len >= 0
        invariant SkipScalability(payload, start) == SkipPictures(payload, len, pictures - i)
      {
        if len >= |payload| {
          return None;
        }
        len := len + 1 + payload[len] % 4;
      }
    }
    return Some(len);
  }

  /** The descriptor's length found step by step, as the source does. */
  method FindVp9Descriptor(payload: seq<byte>) returns (r: Option<Descriptor>)
    ensures r == Vp9Descriptor(payload)
  {
    hide SkipReferences, SkipScalability;
    if payload == [] {
      return None;
    }
    var flags := payload[0];
    var len := 1;
    if Bit(flags, 7) {
      if |payload| < 2 {
        return None;
      }
      len := len + if Bit(payload[1], 7) then 2 else 1;
    }
    if Bit(flags, 5) {
      len := len + if Bit(flags, 4) then 1 else 2;
    }
    if Bit(flags, 4) && Bit(flags, 6) {
      var references := FindReferencesEnd(payload, len);
      if references.None? {
        return None;
      }
      len := references.value;
    }
    if Bit(flags, 1) {
      var structure := FindScalabilityEnd(payload, len);
      if structure.None? {
        return None;
      }
      len := structure.value;
    }
    if len > |payload| {
      return None;
    }
    return Some(Descriptor(len, Bit(flags, 3), Bit(flags, 2)));
  }

  // ----- H264 (section 5.8 of RFC 6184) and H265 (section 4.4.3 of RFC 7798) -----

  predicate IsSingleType(codec: H26x, nalType: nat) {
    match codec
    case H264 => 1 <= nalType <= 23
    case H265 => nalType <= 47
  }

  function AggregationType(codec: H26x): nat {
    match codec
    case H264 => 24
    case H265 => 48
  }

  function FragmentType(codec: H26x): nat {
    match codec
    case H264 => 28
    case H265 => 49
  }

  function FragmentHeaderLen(codec: H26x): nat {
    NalHeaderBytes(codec) + 1
  }

  /** The NAL header a fragment stands for: the indicator's other bits with the type of the fragment header. */
  function ParseFragment(codec: H26x, payload: seq<byte>): Option<Depacketized> {
    match codec
    case H264 =>
      if |payload| < 3 then None else
      Some(H26xFragment(Bit(payload[1], 7), Bit(payload[1], 6),
                        [payload[0] / 32 * 32 + payload[1] % 32], payload[2..]))
    case H265 =>
      if |payload| < 4 then None else
      Some(H26xFragment(Bit(payload[2], 7), Bit(payload[2], 6),
                        [payload[0] / 128 * 128 + payload[0] % 2 + payload[2] % 64 * 2, payload[1]], payload[3..]))
  }

  function ParseH26x(codec: H26x, payload: seq<byte>, marker: bool, hasPartial: bool): Option<Parsed> {
    if |payload| < NalHeaderBytes(codec) then None else
    var nalType := NalType(codec, payload[0]);
    if IsSingleType(codec, nalType) then Some(Parsed(Boundary(!hasPartial, marker), H26xNalu(payload)))
    else if nalType == AggregationType(codec) then
      Some(Parsed(Boundary(!hasPartial, marker), H26xAggregation(payload[NalHeaderBytes(codec)..])))
    else if nalType == FragmentType(codec) then
      match ParseFragment(codec, payload)
      case None => None
      case Some(f) => Some(Parsed(Boundary(f.starts, marker && f.completes), f))
    else None
  }

  // ----- Any codec -----

  function ParsePayload(codec: Codec, payload: seq<byte>, marker: bool, hasPartial: bool): Option<Parsed> {
    match codec
    case Opus => Some(Parsed(Boundary(true, true), Raw(payload)))
    case Vp8 =>
      (match Vp8Descriptor(payload)
       case None => None
       case Some(d) => Some(Parsed(Boundary(d.startsFrame, marker && |payload| > d.len), Raw(payload[d.len..]))))
    case Vp9 =>
      (match Vp9Descriptor(payload)
       case None => None
       case Some(d) => Some(Parsed(Boundary(d.startsFrame, marker || d.completesFrame), Raw(payload[d.len..]))))
    case H264 => ParseH26x(H26xFrame.H264, payload, marker, hasPartial)
    case H265 => ParseH26x(H26xFrame.H265, payload, marker, hasPartial)
    case Av1 =>
      if payload == [] then None else
      Some(Parsed(Boundary(!hasPartial && !Bit(payload[0], 7), marker), Av1Elements(payload[0] / 16 % 4, payload[1..])))
  }

  /** Length-prefixed NAL units, each rewritten behind a long start code. */
  function AggregatedUnits(payload: seq<byte>): Option<seq<byte>>
    decreases |payload|
  {
    if payload == [] then Some([])
    else if |payload| < 2 then None else
    var len := payload[0] as int * 0x100 + payload[1];
    if |payload| - 2 < len then None else
    match AggregatedUnits(payload[2 + len..])
    case None => None
    case Some(rest) => Some(AnnexB.LONG_START_CODE + payload[2..2 + len] + rest)
  }

  /** OBU elements: all length-prefixed, except that element number `w` takes the rest. */
  function Elements(w: nat, payload: seq<byte>, element: nat): Option<seq<byte>>
    decreases |payload|
  {
    if payload == [] then Some([])
    else if w != 0 && element == w then Some(payload) else
    match Leb128.Decode(payload)
    case None => None
    case Some(len) =>
      if |payload| - len.len < len.value then None else
      match Elements(w, payload[len.len + len.value..], element + 1)
      case None => None
      case Some(rest) => Some(payload[len.len..len.len + len.value] + rest)
  }

  /** What a payload appends to the frame under assembly. */
  function Bytes(content: Depacketized): Option<seq<byte>> {
    match content
    case Raw(payload) => Some(payload)
    case H26xNalu(nalu) => Some(AnnexB.LONG_START_CODE + nalu)
    case H26xAggregation(units) => AggregatedUnits(units)
    case H26xFragment(starts, _, header, fragment) =>
      Some((if starts then AnnexB.LONG_START_CODE + header else []) + fragment)
    case Av1Elements(w, elements) => if w == 1 then Some(elements) else Elements(w, elements, 1)
  }

  method AppendAggregation(units: seq<byte>) returns (r: Option<seq<byte>>)
    ensures r == AggregatedUnits(units)
  {
    var payload := units;
    var frame: seq<byte> := [];
    assert After([], AggregatedUnits(units)) == AggregatedUnits(units) by { AfterEnds([], AggregatedUnits(units)); }
    while |payload| > 0
      invariant AggregatedUnits(units) == After(frame, AggregatedUnits(payload))
      decreases |payload|
    {
      if |payload| < 2 {
        return None;
      }
      var len := payload[0] as int * 0x100 + payload[1];
      if |payload| - 2 < len {
        return None;
      }
      AfterStep(frame, AnnexB.LONG_START_CODE + payload[2..2 + len], AggregatedUnits(payload[2 + len..]));
      frame := frame + (AnnexB.LONG_START_CODE + payload[2..2 + len]);
      payload := payload[2 + len..];
    }
    AfterEnds(frame, None);
    return Some(frame);
  }

  method AppendElements(w: nat, elements: seq<byte>) returns (r: Option<seq<byte>>)
    ensures r == if w == 1 then Some(elements) else Elements(w, elements, 1)
  {
    hide Leb128.Decode;
    if w == 1 {
      return Some(elements);
    }
    var payload := elements;
    var frame: seq<byte> := [];
    var element := 1;
    AfterEnds([], Elements(w, elements, 1));
    while |payload| > 0
      invariant element >= 1 && Elements(w, elements, 1) == After(frame, Elements(w, payload, element))
      decreases |payload|
    {
      if w != 0 && element == w {
        return Some(frame + payload);
      }
      var len := Leb128.Read(payload);
      if len.None? || |payload| - len.value.len < len.value.value {
        return None;
      }
      var start, end := len.value.len, len.value.len + len.value.value;
      AfterStep(frame, payload[start..end], Elements(w, payload[end..], element + 1));
      frame := frame + payload[start..end];
      payload := payload[end..];
      element := element + 1;
    }
    AfterEnds(frame, None);
    return Some(frame);
  }

  ghost function After(done: seq<byte>, rest: Option<seq<byte>>): Option<seq<byte>> {
    if rest.None? then None else Some(done + rest.value)
  }

  lemma AfterEnds(done: seq<byte>, rest: Option<seq<byte>>)
    ensures After([], rest) == rest && After(done, Some([])) == Some(done)
  {
    assert done + [] == done;
    if rest.Some? {
      assert [] + rest.value == rest.value;
    }
  }

  lemma AfterStep(done: seq<byte>, next: seq<byte>, rest: Option<seq<byte>>)
    ensures After(done, After(next, rest)) == After(done + next, rest)
  {
    if rest.Some? {
      assert done + (next + rest.value) == (done + next) + rest.value;
    }
  }
}
