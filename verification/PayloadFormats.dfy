/**
 * The RTP payload formats written out (cacophony/src/rtp_payload.rs): aggregation packets of section 5.7.1 of RFC 6184 and 4.4.2
 * of RFC 7798, fragments of sections 5.8 and 4.4.3, AV1 elements and aggregation headers of section 4.4 of the AV1 RTP
 * payload format, descriptors of section 4.2 of RFC 7741 and of RFC 9628.
 */
module PayloadFormats {
  import opened Prelude
  import opened Codecs
  import opened RtpPayload
  import opened Packetizer
  import opened H26xFrame
  import opened Interleave
  import AnnexB
  import Leb128
  import Av1Frame
  import Av1Protected
  import H26xMediaPath

  // ----- Aggregation packets -----

  predicate Aggregable(units: seq<seq<byte>>) {
    forall i :: 0 <= i < |units| ==> |units[i]| <= 65535
  }

  /** Every unit behind its size in two bytes, the higher one first. */
  function Aggregate(units: seq<seq<byte>>): seq<byte>
    requires Aggregable(units)
  {
    if units == [] then [] else
    [|units[0]| / 256, |units[0]| % 256] + units[0] + Aggregate(units[1..])
  }

  /** A written aggregation gives every unit behind a long start code. */
  lemma {:induction false} AggregatedOfAggregate(units: seq<seq<byte>>)
    requires Aggregable(units)
    ensures AggregatedUnits(Aggregate(units)) == Some(AnnexB.Join(units))
  {
    if units != [] {
      var unit, rest := units[0], Aggregate(units[1..]);
      AggregatedOfAggregate(units[1..]);
      AggregateHead(unit, rest);
      AggregatedStep(unit, rest);
    }
  }

  lemma AggregateHead(unit: seq<byte>, rest: seq<byte>)
    requires |unit| <= 65535
    ensures
      var payload: seq<byte> := [|unit| / 256, |unit| % 256] + unit + rest;
      && payload[0] as int * 0x100 + payload[1] == |unit| && payload[2..2 + |unit|] == unit && payload[2 + |unit|..] == rest
  {
  }

  lemma AggregatedStep(unit: seq<byte>, rest: seq<byte>)
    requires |unit| <= 65535
    ensures
      var after := AggregatedUnits(rest);
      AggregatedUnits([|unit| / 256, |unit| % 256] + unit + rest)
      == if after.None? then None else Some(AnnexB.LONG_START_CODE + unit + after.value)
  {
    AggregateHead(unit, rest);
  }

  /** Whatever is accepted is a written aggregation. */
  lemma {:induction false} AggregateOfAggregated(payload: seq<byte>) returns (units: seq<seq<byte>>)
    requires AggregatedUnits(payload).Some?
    ensures Aggregable(units) && Aggregate(units) == payload && AggregatedUnits(payload) == Some(AnnexB.Join(units))
    decreases |payload|
  {
    if payload == [] {
      units := [];
    } else {
      var len := payload[0] as int * 0x100 + payload[1];
      assert AggregatedUnits(payload[2 + len..]).Some?;
      hide AggregatedUnits;
      var rest := AggregateOfAggregated(payload[2 + len..]);
      units := [payload[2..2 + len]] + rest;
      assert units[1..] == rest;
      Resized(payload, len);
      AggregatedOfAggregate(units);
    }
  }

  lemma Resized(payload: seq<byte>, len: nat)
    requires |payload| >= 2 && len == payload[0] as int * 0x100 + payload[1] && 2 + len <= |payload|
    ensures payload == [len / 256, len % 256] + payload[2..2 + len] + payload[2 + len..]
  {
    assert len / 256 == payload[0] && len % 256 == payload[1];
  }

  // ----- Kinds of H264 and H265 payloads -----

  /** Which NAL types travel in which kind of payload, and what is refused. */
  lemma H264Kinds(payload: seq<byte>, marker: bool, hasPartial: bool)
    ensures
      var parsed := ParsePayload(Codec.H264, payload, marker, hasPartial);
      if payload == [] then parsed.None?
      else
        var t := payload[0] % 32;
        if 1 <= t <= 23 then parsed == Some(Parsed(Boundary(!hasPartial, marker), H26xNalu(payload)))
        else if t == 24 then parsed == Some(Parsed(Boundary(!hasPartial, marker), H26xAggregation(payload[1..])))
        else if t == 28 && |payload| >= 3 then
          var first, last := payload[1] >= 128, payload[1] / 64 % 2 == 1;
          parsed == Some(Parsed(Boundary(first, marker && last),
                                H26xFragment(first, last, [payload[0] / 32 * 32 + payload[1] % 32], payload[2..])))
        else parsed.None?
  {
  }

  lemma H265Kinds(payload: seq<byte>, marker: bool, hasPartial: bool)
    ensures
      var parsed := ParsePayload(Codec.H265, payload, marker, hasPartial);
      if |payload| < 2 then parsed.None?
      else
        var t := payload[0] / 2 % 64;
        if t <= 47 then parsed == Some(Parsed(Boundary(!hasPartial, marker), H26xNalu(payload)))
        else if t == 48 then parsed == Some(Parsed(Boundary(!hasPartial, marker), H26xAggregation(payload[2..])))
        else if t == 49 && |payload| >= 4 then
          var first, last := payload[2] >= 128, payload[2] / 64 % 2 == 1;
          parsed == Some(Parsed(Boundary(first, marker && last),
                                H26xFragment(first, last, [payload[0] / 128 * 128 + payload[0] % 2 + payload[2] % 64 * 2, payload[1]],
                                             payload[3..])))
        else parsed.None?
  {
  }

  // ----- Boundaries of the other formats -----

  /** An Opus packet is a frame; VP8 ends with the marker on a packet that carries something. */
  lemma AudioAndVp8Kinds(payload: seq<byte>, marker: bool, hasPartial: bool)
    ensures ParsePayload(Codec.Opus, payload, marker, hasPartial) == Some(Parsed(Boundary(true, true), Raw(payload)))
    ensures
      var d := Vp8Descriptor(payload);
      ParsePayload(Codec.Vp8, payload, marker, hasPartial)
      == if d.None? then None
         else Some(Parsed(Boundary(payload[0] % 32 == 16, marker && |payload| > d.value.len), Raw(payload[d.value.len..])))
  {
  }

  lemma Vp9Flags(payload: seq<byte>)
    ensures
      var d := Vp9Descriptor(payload);
      d.Some? ==> d.value.startsFrame == Bit(payload[0], 3) && d.value.completesFrame == Bit(payload[0], 2)
  {
    hide SkipReferences, SkipScalability, Bit;
  }

  /** VP9 ends with the marker or its own end bit. */
  lemma Vp9Kinds(payload: seq<byte>, marker: bool, hasPartial: bool)
    ensures
      var d := Vp9Descriptor(payload);
      ParsePayload(Codec.Vp9, payload, marker, hasPartial)
      == if d.None? then None
         else Some(Parsed(Boundary(payload[0] / 8 % 2 == 1, marker || payload[0] / 4 % 2 == 1), Raw(payload[d.value.len..])))
  {
    hide Vp9Descriptor;
    Vp9Flags(payload);
  }

  /** An AV1 packet begins a unit if nothing is open and it continues no OBU. */
  lemma Av1Kinds(payload: seq<byte>, marker: bool, hasPartial: bool)
    ensures
      ParsePayload(Codec.Av1, payload, marker, hasPartial)
      == if payload == [] then None
         else Some(Parsed(Boundary(!hasPartial && payload[0] < 128, marker), Av1Elements(payload[0] % 64 / 16, payload[1..])))
  {
  }

  /**
   * The fragments carry the unit's body from `at` on: as much as fits in each but the last, the start bit on the first, the
   * end bit on the last, the unit's type on all.
   */
  ghost predicate FragmentsCover(codec: H26x, unit: seq<byte>, pieces: seq<Piece>, at: nat, lastUnit: bool)
    requires |unit| >= NalHeaderBytes(codec)
    decreases |pieces|
  {
    var h, room := if codec.H264? then 1 else 2, if codec.H264? then 1198 else 1197;
    var last := |pieces| == 1;
    && pieces != [] && h + at < |unit| && (if last then |unit| <= h + at + room else h + at + room < |unit|)
    && pieces[0] == Piece(FragmentHead(codec, unit, at == 0, last) + unit[h + at..if last then |unit| else h + at + room],
                          lastUnit && last)
    && (!last ==> FragmentsCover(codec, unit, pieces[1..], at + room, lastUnit))
  }

  lemma {:induction false} FragmentsWritten(codec: H26x, unit: seq<byte>, offset: nat, lastUnit: bool)
    requires |unit| >= NalHeaderBytes(codec) && offset < |unit| - NalHeaderBytes(codec)
    ensures FragmentsCover(codec, unit, FragmentPieces(codec, unit, offset, lastUnit), offset, lastUnit)
    decreases |unit| - offset
  {
    hide FragmentPiece, FragmentHead, FragmentPieces, FragmentsCover;
    var h, room := if codec.H264? then 1 else 2, if codec.H264? then 1198 else 1197;
    FragmentAt(codec, unit, offset, lastUnit);
    FragmentsStep(codec, unit, offset, lastUnit);
    var rest: seq<Piece> := [];
    if offset + room < |unit| - h {
      FragmentsWritten(codec, unit, offset + room, lastUnit);
      rest := FragmentPieces(codec, unit, offset + room, lastUnit);
      FragmentsSome(codec, unit, rest, offset + room, lastUnit);
    }
    FragmentsCons(codec, unit, FragmentPiece(codec, unit, offset, lastUnit), rest, offset, lastUnit);
  }

  lemma FragmentsStep(codec: H26x, unit: seq<byte>, offset: nat, lastUnit: bool)
    requires |unit| >= NalHeaderBytes(codec) && offset < |unit| - NalHeaderBytes(codec)
    ensures
      var h, room := if codec.H264? then 1 else 2, if codec.H264? then 1198 else 1197;
      FragmentPieces(codec, unit, offset, lastUnit)
      == [FragmentPiece(codec, unit, offset, lastUnit)]
         + if offset + room < |unit| - h then FragmentPieces(codec, unit, offset + room, lastUnit) else []
  {
    hide FragmentPiece;
  }

  lemma FragmentsSome(codec: H26x, unit: seq<byte>, pieces: seq<Piece>, at: nat, lastUnit: bool)
    requires |unit| >= NalHeaderBytes(codec) && FragmentsCover(codec, unit, pieces, at, lastUnit)
    ensures pieces != []
  {
  }

  lemma FragmentsCons(codec: H26x, unit: seq<byte>, piece: Piece, rest: seq<Piece>, at: nat, lastUnit: bool)
    requires |unit| >= NalHeaderBytes(codec)
    requires
      var h, room := if codec.H264? then 1 else 2, if codec.H264? then 1198 else 1197;
      var last := |unit| <= h + at + room;
      && h + at < |unit| && (last <==> rest == [])
      && piece == Piece(FragmentHead(codec, unit, at == 0, last) + unit[h + at..if last then |unit| else h + at + room], lastUnit && last)
      && (!last ==> FragmentsCover(codec, unit, rest, at + room, lastUnit))
    ensures FragmentsCover(codec, unit, [piece] + rest, at, lastUnit)
  {
    hide FragmentHead;
    assert ([piece] + rest)[1..] == rest;
  }

  /** The bytes in front of a fragment. */
  function FragmentHead(codec: H26x, unit: seq<byte>, first: bool, last: bool): seq<byte>
    requires |unit| >= NalHeaderBytes(codec)
  {
    var flags := (if first then 128 else 0) + if last then 64 else 0;
    if codec.H264? then [unit[0] / 32 * 32 + 28, flags + unit[0] % 32]
    else [unit[0] / 128 * 128 + unit[0] % 2 + 98, unit[1], flags + unit[0] / 2 % 64]
  }

  lemma FragmentAt(codec: H26x, unit: seq<byte>, offset: nat, lastUnit: bool)
    requires |unit| >= NalHeaderBytes(codec) && offset < |unit| - NalHeaderBytes(codec)
    ensures
      var h, room := if codec.H264? then 1 else 2, if codec.H264? then 1198 else 1197;
      var last := offset + room >= |unit| - h;
      FragmentPiece(codec, unit, offset, lastUnit)
      == Piece(FragmentHead(codec, unit, offset == 0, last) + unit[h + offset..if last then |unit| else h + offset + room],
               lastUnit && last)
  {
    hide FragmentHeader, FragmentHead;
    var h := NalHeaderBytes(codec);
    var end := Min(offset + (MAX_PAYLOAD - FragmentHeaderLen(codec)), |unit| - h);
    SliceSlice(unit, h, offset, end);
    SameHead(codec, unit, offset == 0, end == |unit| - h);
  }

  lemma SameHead(codec: H26x, unit: seq<byte>, first: bool, last: bool)
    requires |unit| >= NalHeaderBytes(codec)
    ensures FragmentHeader(codec, unit, first, last) == FragmentHead(codec, unit, first, last)
  {
  }

  // ----- VP8 and VP9 descriptors -----

  /** One byte in front of 1199 bytes of the frame, or fewer in the last packet. */
  ghost predicate VpxCover(header: VpxHeader, frame: seq<byte>, pieces: seq<Piece>, at: nat)
    decreases |pieces|
  {
    var last := |pieces| == 1;
    && pieces != [] && at < |frame| && (if last then |frame| <= at + 1199 else at + 1199 < |frame|)
    && pieces[0] == Piece([VpxByte(header, at == 0, last)] + frame[at..if last then |frame| else at + 1199], last)
    && (!last ==> VpxCover(header, frame, pieces[1..], at + 1199))
  }

  lemma {:induction false} VpxWritten(header: VpxHeader, frame: seq<byte>, offset: nat)
    requires offset < |frame|
    ensures VpxCover(header, frame, VpxPieces(header, frame, offset), offset)
    decreases |frame| - offset
  {
    var pieces := VpxPieces(header, frame, offset);
    if offset + 1199 < |frame| {
      VpxWritten(header, frame, offset + 1199);
      assert pieces[1..] == VpxPieces(header, frame, offset + 1199);
    } else {
      assert VpxPieces(header, frame, |frame|) == [];
    }
  }

  /** VP8 marks the first packet of a frame, VP9 the first and the last. */
  function VpxByte(header: VpxHeader, first: bool, last: bool): byte {
    if header.Vp8Header? then (if first then 16 else 0)
    else if first then (if last then 12 else 8) else if last then 4 else 0
  }

  // ----- AV1 elements -----

  function Concat(elements: seq<seq<byte>>): seq<byte> {
    if elements == [] then [] else elements[0] + Concat(elements[1..])
  }

  predicate Encodable(elements: seq<seq<byte>>) {
    forall i :: 0 <= i < |elements| ==> |elements[i]| <= ISIZE_MAX
  }

  /** Elements behind their sizes; with `bare` the last one goes without. */
  function WriteElements(elements: seq<seq<byte>>, bare: bool): seq<byte>
    requires Encodable(elements)
  {
    if elements == [] then []
    else if bare && |elements| == 1 then elements[0]
    else Leb128.Encode(|elements[0]|) + elements[0] + WriteElements(elements[1..], bare)
  }

  lemma {:induction false} ElementsFrom(elements: seq<seq<byte>>, w: nat, element: nat)
    requires Encodable(elements) && (w != 0 ==> elements != [] && element + |elements| - 1 == w)
    ensures Elements(w, WriteElements(elements, w != 0), element) == Some(Concat(elements))
    decreases |elements|
  {
    if elements == [] {
    } else if w != 0 && |elements| == 1 {
      assert Concat(elements[1..]) == [] && elements[0] + [] == elements[0];
    } else {
      ElementsFrom(elements[1..], w, element + 1);
      ElementStep(elements[0], WriteElements(elements[1..], w != 0), w, element);
    }
  }

  lemma ElementStep(head: seq<byte>, rest: seq<byte>, w: nat, element: nat)
    requires |head| <= ISIZE_MAX && (w == 0 || element != w) && Elements(w, rest, element + 1).Some?
    ensures Elements(w, Leb128.Encode(|head|) + head + rest, element) == Some(head + Elements(w, rest, element + 1).value)
  {
    hide Leb128.Encode, Leb128.Decode;
    var size := Leb128.Encode(|head|);
    Leb128.DecodeEncode(|head|, head + rest);
    assert size + head + rest == size + (head + rest);
    var payload := size + head + rest;
    assert payload[|size|..|size| + |head|] == head && payload[|size| + |head|..] == rest;
  }

  /** With `W` of zero every element has a size; with `W` of one, two or three there are that many and the last has none. */
  lemma ElementsWritten(elements: seq<seq<byte>>, w: nat)
    requires Encodable(elements) && w < 4 && (w != 0 ==> |elements| == w)
    ensures Bytes(Av1Elements(w, WriteElements(elements, w != 0))) == Some(Concat(elements))
  {
    ElementsFrom(elements, w, 1);
    if w == 1 {
      assert Concat(elements[1..]) == [] && elements[0] + [] == elements[0];
    }
  }

  /** The elements a payload holds from number `element` on: each behind its size, number `w` up to the end. */
  ghost predicate Listed(w: nat, payload: seq<byte>, element: nat, elements: seq<seq<byte>>)
    decreases |elements|
  {
    if elements == [] then payload == []
    else if w != 0 && element == w then |elements| == 1 && elements[0] == payload != []
    else
      var size := Leb128.Decode(payload);
      && size.Some? && size.value.value == |elements[0]|
      && elements[0] <= payload[size.value.len..]
      && Listed(w, payload[size.value.len + |elements[0]|..], element + 1, elements[1..])
  }

  /** Whatever is accepted is such a list, and gives its elements one behind the other. */
  lemma {:induction false} ElementsOfListed(w: nat, payload: seq<byte>, element: nat, elements: seq<seq<byte>>)
    requires Listed(w, payload, element, elements)
    ensures Elements(w, payload, element) == Some(Concat(elements))
    decreases |elements|
  {
    hide Leb128.Decode;
    if elements == [] {
    } else if w != 0 && element == w {
      assert Concat(elements[1..]) == [] && elements[0] + [] == elements[0];
    } else {
      var n := Leb128.Decode(payload).value.len;
      assert elements[0] == payload[n..][..|elements[0]|] == payload[n..n + |elements[0]|];
      ElementsOfListed(w, payload[n + |elements[0]|..], element + 1, elements[1..]);
    }
  }

  lemma {:induction false} ListedOfElements(w: nat, payload: seq<byte>, element: nat) returns (elements: seq<seq<byte>>)
    requires Elements(w, payload, element).Some?
    ensures Listed(w, payload, element, elements)
    decreases |payload|
  {
    hide Leb128.Decode;
    if payload == [] {
      elements := [];
    } else if w != 0 && element == w {
      elements := [payload];
    } else {
      var size := Leb128.Decode(payload).value;
      var head, rest := payload[size.len..size.len + size.value], payload[size.len + size.value..];
      assert Elements(w, rest, element + 1).Some?;
      hide Elements;
      var others := ListedOfElements(w, rest, element + 1);
      elements := [head] + others;
      assert elements[1..] == others && head == payload[size.len..][..size.value];
    }
  }

  // ----- AV1 aggregation headers -----

  /** Where the OBUs of `frame` begin, from `at` on, and where the last one ends. */
  function ObuBounds(frame: seq<byte>, at: nat): set<nat>
    decreases |frame| - at
  {
    if at >= |frame| then {at}
    else if Av1Frame.OneObu(frame[at..]).None? then {at}
    else {at} + ObuBounds(frame, |frame| - |Av1Frame.OneObu(frame[at..]).value.rest|)
  }

  /** The piece carries `frame[from..to]`, within one OBU, and its header says whether both ends are those of the OBU. */
  ghost predicate Describes(frame: seq<byte>, bounds: set<nat>, piece: Piece, from: nat, to: nat) {
    && from < to <= |frame| && to <= from + 1199
    && (forall b :: b in bounds ==> b <= from || to <= b)
    && piece == Piece([16 + (if from in bounds then 0 else 128) + if to in bounds then 0 else 64] + frame[from..to], to == |frame|)
  }

  /** The pieces carry the frame from `from` on, without a gap. */
  ghost predicate Covers(frame: seq<byte>, bounds: set<nat>, pieces: seq<Piece>, from: nat) {
    if pieces == [] then from == |frame|
    else
      var to := from + |pieces[0].payload| - 1;
      |pieces[0].payload| > 1 && Describes(frame, bounds, pieces[0], from, to) && Covers(frame, bounds, pieces[1..], to)
  }

  /** No boundary of an OBU before `at` matters to the pieces from `at` on. */
  lemma {:induction false} CoversMore(frame: seq<byte>, bounds: set<nat>, more: set<nat>, pieces: seq<Piece>, from: nat)
    requires Covers(frame, bounds, pieces, from) && (forall b :: b in more ==> b < from)
    ensures Covers(frame, bounds + more, pieces, from)
    decreases |pieces|
  {
    if pieces != [] {
      CoversMore(frame, bounds, more, pieces[1..], from + |pieces[0].payload| - 1);
    }
  }

  lemma {:induction false} BoundsFrom(frame: seq<byte>, at: nat)
    ensures at in ObuBounds(frame, at) && forall b :: b in ObuBounds(frame, at) ==> at <= b
    decreases |frame| - at
  {
    hide Av1Frame.OneObu;
    if at < |frame| && Av1Frame.OneObu(frame[at..]).Some? {
      BoundsFrom(frame, |frame| - |Av1Frame.OneObu(frame[at..]).value.rest|);
    }
  }

  lemma {:induction false} RestCovers(frame: seq<byte>, start: nat, end: nat, at: nat)
    requires start <= at < end <= |frame| && !Av1From(frame, end).failed
    requires Covers(frame, ObuBounds(frame, end), Av1From(frame, end).pieces, end)
    ensures
      var bounds := {start} + ObuBounds(frame, end);
      Covers(frame, bounds, Av1Rest(frame, start, end, at).pieces, at)
    decreases end - at
  {
    hide Av1From, ObuBounds, Av1Frame.OneObu, Av1Rest, Covers, Describes;
    var bounds := {start} + ObuBounds(frame, end);
    BoundsFrom(frame, end);
    var stop := Min(at + (MAX_PAYLOAD - 1), end);
    Av1RestStep(frame, start, end, at);
    var rest := if stop < end then Av1Rest(frame, start, end, stop).pieces else Av1From(frame, end).pieces;
    if stop < end {
      RestCovers(frame, start, end, stop);
    } else {
      CoversMore(frame, ObuBounds(frame, end), {start}, rest, end);
      assert ObuBounds(frame, end) + {start} == bounds;
    }
    var header := (if at > start then 0x80 else 0) + (if stop < end then 0x40 else 0) + 0x10;
    var piece := Piece([header] + frame[at..stop], end == |frame| && stop == end);
    DescribesPiece(frame, bounds, start, end, at, stop, piece);
    CoversCons(frame, bounds, piece, rest, at, stop);
  }

  lemma DescribesPiece(frame: seq<byte>, bounds: set<nat>, start: nat, end: nat, at: nat, stop: nat, piece: Piece)
    requires start <= at < stop <= end <= |frame| && stop <= at + 1199
    requires start in bounds && end in bounds && forall b :: b in bounds ==> b == start || end <= b
    requires piece == Piece([(if at > start then 0x80 else 0) + (if stop < end then 0x40 else 0) + 0x10] + frame[at..stop],
                            end == |frame| && stop == end)
    ensures Describes(frame, bounds, piece, at, stop)
  {
    assert at in bounds <==> at == start;
    assert stop in bounds <==> stop == end;
  }

  lemma CoversCons(frame: seq<byte>, bounds: set<nat>, piece: Piece, rest: seq<Piece>, from: nat, to: nat)
    requires Describes(frame, bounds, piece, from, to) && Covers(frame, bounds, rest, to)
    ensures Covers(frame, bounds, [piece] + rest, from)
  {
    assert ([piece] + rest)[1..] == rest;
  }

  /**
   * Every AV1 frame the packetizer takes: the pieces carry it without a gap, none reaches over the end of an OBU, and the two
   * flags say exactly which begin or end inside one.
   */
  lemma {:induction false} Av1Written(frame: seq<byte>, start: nat)
    requires start <= |frame| && !Av1From(frame, start).failed
    ensures Covers(frame, ObuBounds(frame, start), Av1From(frame, start).pieces, start)
    decreases |frame| - start
  {
    hide Av1Frame.OneObu, ObuEnd, Av1Rest;
    Av1FromStep(frame, start);
    if start < |frame| {
      Av1Protected.ObuEndIs(frame, start);
      var end := ObuEnd(frame, start).value;
      Av1Protected.RestFails(frame, start, end, start);
      Av1Written(frame, end);
      RestCovers(frame, start, end, start);
    }
  }
}
