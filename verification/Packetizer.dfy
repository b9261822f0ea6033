/** Cutting frames into RTP payloads (cacophony/src/rtp_payload.rs). */
module Packetizer {
  import opened Prelude
  import opened RtpPayload
  import opened H26xFrame
  import AnnexB
  import Leb128

  const MAX_PAYLOAD: nat := 1200

  datatype Piece = Piece(payload: seq<byte>, marker: bool)

  function Min(a: nat, b: nat): nat {
    if a < b then a else b
  }

  // ----- VP8 and VP9 -----

  datatype VpxHeader = Vp8Header | Vp9Header

  function DescriptorByte(header: VpxHeader, first: bool, last: bool): byte {
    match header
    case Vp8Header => if first then 0x10 else 0
    case Vp9Header => (if first then 8 else 0) + if last then 4 else 0
  }

  /** The payload that starts at `offset`. */
  function VpxPiece(header: VpxHeader, frame: seq<byte>, offset: nat): Piece
    requires offset < |frame|
  {
    var end := Min(offset + (MAX_PAYLOAD - 1), |frame|);
    Piece([DescriptorByte(header, offset == 0, end == |frame|)] + frame[offset..end], end == |frame|)
  }

  function VpxPieces(header: VpxHeader, frame: seq<byte>, offset: nat): seq<Piece>
    decreases |frame| - offset
  {
    if offset >= |frame| then [] else
    [VpxPiece(header, frame, offset)] + VpxPieces(header, frame, Min(offset + (MAX_PAYLOAD - 1), |frame|))
  }

  method NextFragmentedPayload(frame: seq<byte>, offset: nat, header: VpxHeader) returns (r: Option<Piece>, next: nat)
    ensures r.None? <==> offset >= |frame|
    ensures r.None? ==> next == offset
    ensures r.Some? ==>
              && offset < next <= |frame|
              && VpxPieces(header, frame, offset) == [r.value] + VpxPieces(header, frame, next)
  {
    if offset >= |frame| {
      return None, offset;
    }
    var end := Min(offset + (MAX_PAYLOAD - 1), |frame|);
    var first, last := offset == 0, end == |frame|;
    return Some(Piece([DescriptorByte(header, first, last)] + frame[offset..end], last)), end;
  }

  // ----- AV1, section 4.4 of the AOMedia AV1 RTP payload format -----

  /** `av1_obu_end`: where the OBU at `offset` ends, or nothing when it is malformed. */
  function ObuEnd(frame: seq<byte>, offset: nat): (end: Option<nat>)
    ensures end.Some? ==> offset < end.value <= |frame|
  {
    if offset >= |frame| then None else
    var header := frame[offset];
    var index := offset + if Bit(header, 2) then 2 else 1;
    if index > |frame| then None
    else if !Bit(header, 1) then Some(|frame|)
    else
      match Leb128.Decode(frame[index..])
      case None => None
      case Some(size) =>
        var end := index + size.len + size.value;
        if end > |frame| then None else Some(end)
  }

  datatype Cut = Cut(pieces: seq<Piece>, failed: bool)

  function Av1Piece(frame: seq<byte>, start: nat, end: nat, at: nat): Piece
    requires start <= at < end <= |frame|
  {
    var stop := Min(at + (MAX_PAYLOAD - 1), end);
    var header := 0x10 + (if at > start then 0x80 else 0) + if stop < end then 0x40 else 0;
    Piece([header] + frame[at..stop], stop == end && end == |frame|)
  }

  /** The rest of the OBU `[start, end)` from `at` on, then the OBUs behind it. */
  function Av1Rest(frame: seq<byte>, start: nat, end: nat, at: nat): Cut
    requires start <= at < end <= |frame|
    decreases |frame| - at, 0
  {
    var stop := Min(at + (MAX_PAYLOAD - 1), end);
    var rest := if stop < end then Av1Rest(frame, start, end, stop) else Av1From(frame, end);
    Cut([Av1Piece(frame, start, end, at)] + rest.pieces, rest.failed)
  }

  function Av1From(frame: seq<byte>, start: nat): Cut
    decreases |frame| - start, 1
  {
    if start >= |frame| then Cut([], false) else
    match ObuEnd(frame, start)
    case None => Cut([], true)
    case Some(end) => Av1Rest(frame, start, end, start)
  }

  lemma Av1FromStep(frame: seq<byte>, start: nat)
    ensures Av1From(frame, start) ==
            if start >= |frame| then Cut([], false) else
            match ObuEnd(frame, start)
            case None => Cut([], true)
            case Some(end) => Av1Rest(frame, start, end, start)
  {
  }

  lemma Av1RestStep(frame: seq<byte>, start: nat, end: nat, at: nat)
    requires start <= at < end <= |frame|
    ensures var stop := Min(at + (MAX_PAYLOAD - 1), end);
            var rest := if stop < end then Av1Rest(frame, start, end, stop) else Av1From(frame, end);
            var header := (if at > start then 0x80 else 0) + (if stop < end then 0x40 else 0) + 0x10;
            Av1Rest(frame, start, end, at)
            == Cut([Piece([header] + frame[at..stop], end == |frame| && stop == end)] + rest.pieces, rest.failed)
  {
  }

  method FindObuEnd(frame: seq<byte>, offset: nat) returns (end: Option<nat>)
    ensures end == ObuEnd(frame, offset)
  {
    hide Leb128.Decode;
    if offset >= |frame| {
      return None;
    }
    var header := frame[offset];
    var index := offset + 1;
    if Bit(header, 2) {
      index := index + 1;
    }
    if index > |frame| {
      return None;
    }
    if !Bit(header, 1) {
      return Some(|frame|);
    }
    var size := Leb128.Read(frame[index..]);
    if size.None? {
      return None;
    }
    index := index + size.value.len;
    return if index + size.value.value <= |frame| then Some(index + size.value.value) else None;
  }

  /** Where an AV1 packetizer stands: `obu_start`, `obu_end` and `fragment_offset`. */
  datatype Av1Cursor = Av1Cursor(obuStart: nat, obuEnd: nat, fragmentOffset: nat) {
    predicate Valid(frame: seq<byte>) {
      fragmentOffset > 0 ==> obuStart + fragmentOffset < obuEnd <= |frame|
    }

    /** What is still to be sent. */
    function Remaining(frame: seq<byte>): Cut
      requires Valid(frame)
    {
      if fragmentOffset == 0 then Av1From(frame, obuStart)
      else Av1Rest(frame, obuStart, obuEnd, obuStart + fragmentOffset)
    }
  }

  datatype Av1Next = Done | Failed | Next(piece: Piece, cursor: Av1Cursor)

  method NextAv1Payload(frame: seq<byte>, cursor: Av1Cursor) returns (r: Av1Next)
    requires cursor.Valid(frame)
    ensures r.Done? ==> cursor.Remaining(frame) == Cut([], false)
    ensures r.Failed? ==> cursor.Remaining(frame) == Cut([], true)
    ensures r.Next? ==>
              && r.cursor.Valid(frame)
              && cursor.obuStart + cursor.fragmentOffset < r.cursor.obuStart + r.cursor.fragmentOffset <= |frame|
              && cursor.Remaining(frame)
                 == Cut([r.piece] + r.cursor.Remaining(frame).pieces, r.cursor.Remaining(frame).failed)
  {
    hide ObuEnd, Av1Rest, Av1From, Av1Piece;
    Av1FromStep(frame, cursor.obuStart);
    var Av1Cursor(obuStart, obuEnd, fragmentOffset) := cursor;
    if obuStart >= |frame| {
      return Done;
    }
    if fragmentOffset == 0 {
      var end := FindObuEnd(frame, obuStart);
      if end.None? {
        return Failed;
      }
      obuEnd := end.value;
    }
    var offset := obuStart + fragmentOffset;
    var end := Min(offset + (MAX_PAYLOAD - 1), obuEnd);
    var first, lastFragment, lastObu := fragmentOffset == 0, end == obuEnd, obuEnd == |frame|;
    var header := (if !first then 0x80 else 0) + (if !lastFragment then 0x40 else 0) + 0x10;
    var piece := Piece([header] + frame[offset..end], lastObu && lastFragment);
    assert cursor.Remaining(frame) == Av1Rest(frame, obuStart, obuEnd, offset);
    Av1RestStep(frame, obuStart, obuEnd, offset);
    if lastFragment {
      return Next(piece, Av1Cursor(obuEnd, obuEnd, 0));
    }
    return Next(piece, Av1Cursor(obuStart, obuEnd, fragmentOffset + (end - offset)));
  }

  // ----- H264 and H265 -----

  /** A fragment's header: the unit's own header with the fragment type, then start, end and the unit's type. */
  function FragmentHeader(codec: H26x, unit: seq<byte>, first: bool, last: bool): seq<byte>
    requires |unit| >= NalHeaderBytes(codec)
  {
    var flags := (if first then 0x80 else 0) + if last then 0x40 else 0;
    match codec
    case H264 => [unit[0] / 32 * 32 + 28, flags + unit[0] % 32]
    case H265 => [unit[0] / 128 * 128 + unit[0] % 2 + 49 * 2, unit[1], flags + unit[0] / 2 % 64]
  }

  /** The fragment of `unit` whose payload starts `offset` bytes behind the unit's header. */
  function FragmentPiece(codec: H26x, unit: seq<byte>, offset: nat, lastUnit: bool): Piece
    requires |unit| >= NalHeaderBytes(codec) && offset <= |unit| - NalHeaderBytes(codec)
  {
    var body := unit[NalHeaderBytes(codec)..];
    var end := Min(offset + (MAX_PAYLOAD - FragmentHeaderLen(codec)), |body|);
    Piece(FragmentHeader(codec, unit, offset == 0, end == |body|) + body[offset..end], lastUnit && end == |body|)
  }

  function FragmentPieces(codec: H26x, unit: seq<byte>, offset: nat, lastUnit: bool): seq<Piece>
    requires |unit| >= NalHeaderBytes(codec) && offset < |unit| - NalHeaderBytes(codec)
    decreases |unit| - offset
  {
    var end := offset + (MAX_PAYLOAD - FragmentHeaderLen(codec));
    [FragmentPiece(codec, unit, offset, lastUnit)]
      + if end >= |unit| - NalHeaderBytes(codec) then [] else FragmentPieces(codec, unit, end, lastUnit)
  }

  function UnitPieces(codec: H26x, unit: seq<byte>, lastUnit: bool): seq<Piece> {
    if |unit| <= MAX_PAYLOAD then [Piece(unit, lastUnit)] else FragmentPieces(codec, unit, 0, lastUnit)
  }

  function H26xPieces(codec: H26x, units: seq<seq<byte>>): seq<Piece> {
    if units == [] then [] else UnitPieces(codec, units[0], |units| == 1) + H26xPieces(codec, units[1..])
  }

  /** Sends the non-empty NAL units of a frame, cutting those above 1200 bytes into fragments. */
  class H26xPacketizer {
    const codec: H26x
    const nalus: AnnexB.AnnexBNalus
    var nalu: Option<seq<byte>>
    var fragmentOffset: nat

    ghost predicate Valid()
      reads this, nalus
    {
      && nalus.Valid()
      && (nalu.None? ==> nalus.Remaining() == [])
      && (fragmentOffset > 0 ==>
            nalu.Some? && |nalu.value| > MAX_PAYLOAD && fragmentOffset < |nalu.value| - NalHeaderBytes(codec))
    }

    /** The payloads still to be sent. */
    ghost function Remaining(): seq<Piece>
      requires Valid()
      reads this, nalus
    {
      if nalu.None? then [] else
      (if fragmentOffset == 0 then UnitPieces(codec, nalu.value, nalus.Remaining() == [])
       else FragmentPieces(codec, nalu.value, fragmentOffset, nalus.Remaining() == []))
        + H26xPieces(codec, nalus.Remaining())
    }

    /** A frame without a NAL unit has nothing to send; the source refuses it. */
    constructor (codec: H26x, frame: seq<byte>)
      ensures Valid() && this.codec == codec && fresh(nalus)
      ensures Remaining() == H26xPieces(codec, AnnexB.NonEmpty(AnnexB.Units(frame)))
      ensures nalu.None? <==> AnnexB.NonEmpty(AnnexB.Units(frame)) == []
    {
      this.codec := codec;
      nalus := new AnnexB.AnnexBNalus(frame);
      fragmentOffset := 0;
      new;
      nalu := nalus.Next();
      AnnexB.EmptyIffNothingLeft(nalus.frame, nalus.next);
    }

    method NextPayload() returns (r: Option<Piece>)
      requires Valid()
      modifies this, nalus
      ensures Valid()
      ensures old(Remaining()) == if r.None? then [] else [r.value] + Remaining()
    {
      hide H26xPieces, AnnexB.NonEmpty, AnnexB.UnitsFrom;
      if nalu.None? {
        return None;
      }
      AnnexB.EmptyIffNothingLeft(nalus.frame, nalus.next);
      var unit := nalu.value;
      var lastNalu := nalus.IsEmpty();
      if |unit| <= MAX_PAYLOAD {
        MoveOn();
        return Some(Piece(unit, lastNalu));
      }
      var body := unit[NalHeaderBytes(codec)..];
      var end := Min(fragmentOffset + (MAX_PAYLOAD - FragmentHeaderLen(codec)), |body|);
      var first, last := fragmentOffset == 0, end == |body|;
      var piece := Piece(FragmentHeader(codec, unit, first, last) + body[fragmentOffset..end], lastNalu && last);
      if last {
        MoveOn();
      } else {
        fragmentOffset := end;
      }
      return Some(piece);
    }

    /** Takes up the next unit. */
    method MoveOn()
      requires nalus.Valid()
      modifies this, nalus
      ensures Valid() && fragmentOffset == 0
      ensures Remaining() == H26xPieces(codec, old(nalus.Remaining()))
    {
      hide AnnexB.NonEmpty, AnnexB.UnitsFrom, UnitPieces;
      nalu := nalus.Next();
      fragmentOffset := 0;
      AnnexB.EmptyIffNothingLeft(nalus.frame, nalus.next);
      if nalu.Some? {
        assert ([nalu.value] + nalus.Remaining())[1..] == nalus.Remaining();
      }
    }
  }
}
