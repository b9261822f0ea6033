/** H264 and H265 through packets and back (cacophony/src/rtp_payload.rs, cacophony/src/media.rs). */
module H26xMediaPath {
  import opened Prelude
  import opened Codecs
  import opened RtpPayload
  import opened Packetizer
  import opened MediaPath
  import opened H26xFrame
  import opened Interleave
  import Assembler
  import AnnexB

  function CodecOf(codec: H26x): Codec {
    match codec
    case H264 => Codec.H264
    case H265 => Codec.H265
  }

  predicate Fragmented(unit: seq<byte>) {
    |unit| > MAX_PAYLOAD
  }

  /** A unit that travels whole must have a type the receiver takes for a single NAL unit. */
  predicate Sendable(codec: H26x, unit: seq<byte>) {
    Fragmented(unit) || (|unit| >= NalHeaderBytes(codec) && IsSingleType(codec, NalType(codec, unit[0])))
  }

  predicate AllSendable(codec: H26x, units: seq<seq<byte>>) {
    forall i :: 0 <= i < |units| ==> Sendable(codec, units[i])
  }

  // ----- One piece -----

  lemma HeaderSurvives(codec: H26x, unit: seq<byte>, first: bool, last: bool, rest: seq<byte>)
    requires |unit| >= NalHeaderBytes(codec) && rest != []
    ensures var payload := FragmentHeader(codec, unit, first, last) + rest;
            && NalType(codec, payload[0]) == FragmentType(codec)
            && ParseFragment(codec, payload) == Some(H26xFragment(first, last, unit[..NalHeaderBytes(codec)], rest))
  {
    if codec.H264? {
      H264HeaderSurvives(unit, first, last, rest);
    } else {
      H265HeaderSurvives(unit, first, last, rest);
    }
  }

  lemma H264HeaderSurvives(unit: seq<byte>, first: bool, last: bool, rest: seq<byte>)
    requires |unit| >= 1 && rest != []
    ensures var payload := FragmentHeader(H26x.H264, unit, first, last) + rest;
            && NalType(H26x.H264, payload[0]) == 28
            && ParseFragment(H26x.H264, payload) == Some(H26xFragment(first, last, unit[..1], rest))
  {
    hide Bit;
    var header := FragmentHeader(H26x.H264, unit, first, last);
    var payload := header + rest;
    TypeByte(unit[0] % 32, first, last);
    assert payload[0] == header[0] && payload[1] == header[1] && payload[2..] == rest;
    assert unit[..1] == [unit[0]];
    H264Bits(unit[0]);
  }

  lemma H264Bits(b: byte)
    ensures var indicator := b / 32 * 32 + 28;
            indicator % 32 == 28 && indicator / 32 * 32 + b % 32 == b
  {
  }

  lemma H265HeaderSurvives(unit: seq<byte>, first: bool, last: bool, rest: seq<byte>)
    requires |unit| >= 2 && rest != []
    ensures var payload := FragmentHeader(H26x.H265, unit, first, last) + rest;
            && NalType(H26x.H265, payload[0]) == 49
            && ParseFragment(H26x.H265, payload) == Some(H26xFragment(first, last, unit[..2], rest))
  {
    hide Bit;
    var header := FragmentHeader(H26x.H265, unit, first, last);
    var payload := header + rest;
    TypeByte(unit[0] / 2 % 64, first, last);
    assert payload[0] == header[0] && payload[1] == header[1] && payload[2] == header[2] && payload[3..] == rest;
    assert unit[..2] == [unit[0], unit[1]];
    H265Bits(unit[0]);
  }

  lemma H265Bits(b: byte)
    ensures var indicator := b / 128 * 128 + b % 2 + 98;
            indicator / 2 % 64 == 49 && indicator / 128 * 128 + indicator % 2 + b / 2 % 64 * 2 == b
  {
    var top, low := b / 128, b % 2;
    var mid := b / 2 % 64;
    assert b == top * 128 + mid * 2 + low;
  }

  /** The two flags sit above the type and do not disturb it. */
  lemma TypeByte(nalType: nat, first: bool, last: bool)
    requires nalType < 64
    ensures var b := (if first then 0x80 else 0) + (if last then 0x40 else 0) + nalType;
            && b < 256 && Bit(b, 7) == first && Bit(b, 6) == last && b % 64 == nalType
            && (nalType < 32 ==> b % 32 == nalType)
  {
  }

  function FragmentEnd(codec: H26x, unit: seq<byte>, offset: nat): nat
    requires |unit| >= NalHeaderBytes(codec)
  {
    Min(offset + (MAX_PAYLOAD - FragmentHeaderLen(codec)), |unit| - NalHeaderBytes(codec))
  }

  lemma FragmentParses(codec: H26x, unit: seq<byte>, offset: nat, lastUnit: bool, hasPartial: bool)
    requires |unit| >= NalHeaderBytes(codec) && offset < |unit| - NalHeaderBytes(codec)
    ensures var piece := FragmentPiece(codec, unit, offset, lastUnit);
            var h := NalHeaderBytes(codec);
            var end := FragmentEnd(codec, unit, offset);
            var last := end == |unit| - h;
            && 1 <= |piece.payload| <= MAX_PAYLOAD && piece.marker == (lastUnit && last)
            && ParsePayload(CodecOf(codec), piece.payload, piece.marker, hasPartial)
               == Some(Parsed(Boundary(offset == 0, lastUnit && last),
                              H26xFragment(offset == 0, last, unit[..h], unit[h + offset..h + end])))
  {
    hide ParseFragment, FragmentHeader, NalType;
    var h := NalHeaderBytes(codec);
    var body := unit[h..];
    var end := FragmentEnd(codec, unit, offset);
    SliceSlice(unit, h, offset, end);
    HeaderSurvives(codec, unit, offset == 0, end == |body|, body[offset..end]);
    HeaderLength(codec, unit, offset == 0, end == |body|);
  }

  lemma HeaderLength(codec: H26x, unit: seq<byte>, first: bool, last: bool)
    requires |unit| >= NalHeaderBytes(codec)
    ensures |FragmentHeader(codec, unit, first, last)| == FragmentHeaderLen(codec) <= 3
  {
  }

  lemma SingleParses(codec: H26x, unit: seq<byte>, marker: bool, hasPartial: bool)
    requires !Fragmented(unit) && Sendable(codec, unit)
    ensures ParsePayload(CodecOf(codec), unit, marker, hasPartial)
         == Some(Parsed(Boundary(!hasPartial, marker), H26xNalu(unit)))
  {
  }

  // ----- Depacketizing -----

  /** The bytes the payloads stand for, one after the other. */
  function Depacketize(codec: Codec, pieces: seq<Piece>): Option<seq<byte>> {
    if pieces == [] then Some([]) else
    match ParsePayload(codec, pieces[0].payload, pieces[0].marker, false)
    case None => None
    case Some(parsed) =>
      var rest := Depacketize(codec, pieces[1..]);
      if Bytes(parsed.content).None? || rest.None? then None else Some(Bytes(parsed.content).value + rest.value)
  }

  lemma {:induction false} DepacketizeAppend(codec: Codec, a: seq<Piece>, b: seq<Piece>)
    requires Depacketize(codec, a).Some? && Depacketize(codec, b).Some?
    ensures Depacketize(codec, a + b) == Some(Depacketize(codec, a).value + Depacketize(codec, b).value)
  {
    hide ParsePayload, Bytes;
    if a == [] {
      assert a + b == b;
      assert [] + Depacketize(codec, b).value == Depacketize(codec, b).value;
    } else {
      DepacketizeAppend(codec, a[1..], b);
      assert (a + b)[1..] == a[1..] + b;
      var first := Bytes(ParsePayload(codec, a[0].payload, a[0].marker, false).value.content).value;
      assert first + (Depacketize(codec, a[1..]).value + Depacketize(codec, b).value)
          == (first + Depacketize(codec, a[1..]).value) + Depacketize(codec, b).value;
    }
  }

  /** What the fragments of a unit from `offset` on stand for. */
  function Tail(codec: H26x, unit: seq<byte>, offset: nat): seq<byte>
    requires |unit| >= NalHeaderBytes(codec) && offset <= |unit| - NalHeaderBytes(codec)
  {
    if offset == 0 then AnnexB.LONG_START_CODE + unit else unit[NalHeaderBytes(codec) + offset..]
  }

  /** The bytes of one fragment, then the rest of the unit. */
  lemma TailStep(codec: H26x, unit: seq<byte>, offset: nat)
    requires |unit| >= NalHeaderBytes(codec) && offset < |unit| - NalHeaderBytes(codec)
    ensures var h := NalHeaderBytes(codec); var end := FragmentEnd(codec, unit, offset);
            var content := H26xFragment(offset == 0, end == |unit| - h, unit[..h], unit[h + offset..h + end]);
            && offset < end && Bytes(content).Some?
            && Tail(codec, unit, offset) == Bytes(content).value + Tail(codec, unit, end)
            && (end == |unit| - h ==> Tail(codec, unit, end) == [])
  {
    var h, end := NalHeaderBytes(codec), FragmentEnd(codec, unit, offset);
    var fragment := unit[h + offset..h + end];
    assert fragment + unit[h + end..] == unit[h + offset..];
    if offset == 0 {
      ThreeCuts(AnnexB.LONG_START_CODE, unit, h, h + end);
    } else {
      assert [] + fragment == fragment;
    }
  }

  lemma ThreeCuts(code: seq<byte>, unit: seq<byte>, i: nat, j: nat)
    requires i <= j <= |unit|
    ensures code + unit == code + unit[..i] + unit[i..j] + unit[j..]
  {
    assert unit == unit[..i] + unit[i..j] + unit[j..];
  }

  lemma {:induction false} FragmentsDepacketize(codec: H26x, unit: seq<byte>, offset: nat, lastUnit: bool)
    requires |unit| >= NalHeaderBytes(codec) && offset < |unit| - NalHeaderBytes(codec)
    ensures Depacketize(CodecOf(codec), FragmentPieces(codec, unit, offset, lastUnit)) == Some(Tail(codec, unit, offset))
    decreases |unit| - offset
  {
    hide ParsePayload, Bytes, FragmentPiece, Tail;
    var pieces := FragmentPieces(codec, unit, offset, lastUnit);
    var end := FragmentEnd(codec, unit, offset);
    FragmentParses(codec, unit, offset, lastUnit, false);
    TailStep(codec, unit, offset);
    if end == |unit| - NalHeaderBytes(codec) {
      assert pieces[1..] == [];
    } else {
      assert pieces[1..] == FragmentPieces(codec, unit, end, lastUnit);
      FragmentsDepacketize(codec, unit, end, lastUnit);
    }
  }

  lemma UnitDepacketizes(codec: H26x, unit: seq<byte>, lastUnit: bool)
    requires Sendable(codec, unit)
    ensures Depacketize(CodecOf(codec), UnitPieces(codec, unit, lastUnit)) == Some(AnnexB.LONG_START_CODE + unit)
  {
    hide ParsePayload, FragmentPieces;
    if Fragmented(unit) {
      FragmentsDepacketize(codec, unit, 0, lastUnit);
    } else {
      SingleParses(codec, unit, lastUnit, false);
      var all := AnnexB.LONG_START_CODE + unit;
      assert all + [] == all;
      assert UnitPieces(codec, unit, lastUnit)[1..] == [];
    }
  }

  /** Depacketizing inverts packetizing: every unit comes back behind a long start code, whole or fragmented. */
  lemma {:induction false} DepacketizeInverts(codec: H26x, units: seq<seq<byte>>)
    requires AllSendable(codec, units)
    ensures Depacketize(CodecOf(codec), H26xPieces(codec, units)) == Some(AnnexB.Join(units))
  {
    hide UnitPieces, Sendable, ParsePayload, Bytes;
    if units != [] {
      UnitDepacketizes(codec, units[0], |units| == 1);
      DepacketizeInverts(codec, units[1..]);
      DepacketizeAppend(CodecOf(codec), UnitPieces(codec, units[0], |units| == 1), H26xPieces(codec, units[1..]));
    }
  }

  // ----- Assembling -----

  /** What the assembler holds after further units: a fragmented one makes it begin anew. */
  function Held(units: seq<seq<byte>>, acc: seq<byte>): seq<byte> {
    if units == [] then acc else
    Held(units[1..], (if Fragmented(units[0]) then [] else acc) + (AnnexB.LONG_START_CODE + units[0]))
  }

  predicate AnyFragmented(units: seq<seq<byte>>) {
    exists i :: 0 <= i < |units| && Fragmented(units[i])
  }

  /** What the pieces that follow add to what is held. */
  ghost function Onward(codec: Codec, rest: seq<Piece>, restarted: bool, held: seq<byte>): Option<Collected> {
    if rest == [] then Some(Collected(restarted, held)) else
    match Collect(codec, rest, held)
    case None => None
    case Some(c) => Some(Collected(restarted || c.restarted, c.bytes))
  }

  lemma {:induction false} FragmentsCollect(codec: H26x, unit: seq<byte>, offset: nat, rest: seq<Piece>, acc: seq<byte>)
    requires |unit| >= NalHeaderBytes(codec) && 0 < offset < |unit| - NalHeaderBytes(codec)
    ensures Collect(CodecOf(codec), FragmentPieces(codec, unit, offset, rest == []) + rest, acc)
         == Onward(CodecOf(codec), rest, false, acc + Tail(codec, unit, offset))
    decreases |unit| - offset
  {
    hide ParsePayload, Bytes, FragmentPiece, Tail;
    var pieces := FragmentPieces(codec, unit, offset, rest == []);
    var end := FragmentEnd(codec, unit, offset);
    var first := FragmentPiece(codec, unit, offset, rest == []);
    FragmentParses(codec, unit, offset, rest == [], true);
    TailStep(codec, unit, offset);
    var bytes := Bytes(ParsePayload(CodecOf(codec), first.payload, first.marker, true).value.content).value;
    AppendTail(acc, bytes, Tail(codec, unit, end));
    if end == |unit| - NalHeaderBytes(codec) {
      assert (pieces + rest)[1..] == rest;
      assert rest == [] ==> |pieces + rest| == 1;
    } else {
      assert (pieces + rest)[1..] == FragmentPieces(codec, unit, end, rest == []) + rest;
      FragmentsCollect(codec, unit, end, rest, acc + bytes);
    }
  }

  lemma AppendTail(acc: seq<byte>, bytes: seq<byte>, tail: seq<byte>)
    ensures acc + (bytes + tail) == (acc + bytes) + tail
    ensures tail == [] ==> acc + (bytes + tail) == acc + bytes
  {
  }

  /** One further unit, whole or fragmented. */
  lemma UnitCollects(codec: H26x, unit: seq<byte>, rest: seq<Piece>, acc: seq<byte>)
    requires Sendable(codec, unit)
    ensures Collect(CodecOf(codec), UnitPieces(codec, unit, rest == []) + rest, acc)
         == Onward(CodecOf(codec), rest, Fragmented(unit),
                   (if Fragmented(unit) then [] else acc) + (AnnexB.LONG_START_CODE + unit))
  {
    if Fragmented(unit) {
      FragmentedUnitCollects(codec, unit, rest, acc);
    } else {
      hide ParsePayload, Bytes;
      SingleParses(codec, unit, rest == [], true);
      NaluBytes(unit);
      assert (UnitPieces(codec, unit, rest == []) + rest)[1..] == rest;
    }
  }

  /** The first fragment of a unit starts a frame and does not complete one. */
  lemma FirstFragment(codec: H26x, unit: seq<byte>, rest: seq<Piece>, hasPartial: bool) returns (end: nat, bytes: seq<byte>)
    requires Fragmented(unit)
    ensures 0 < end < |unit| - NalHeaderBytes(codec)
    ensures var pieces := UnitPieces(codec, unit, rest == []) + rest;
            && |pieces| > 1 && !pieces[0].marker
            && pieces[1..] == FragmentPieces(codec, unit, end, rest == []) + rest
            && var parsed := ParsePayload(CodecOf(codec), pieces[0].payload, pieces[0].marker, hasPartial);
               && parsed.Some? && parsed.value.boundary == Boundary(true, false)
               && Bytes(parsed.value.content) == Some(bytes)
    ensures bytes + Tail(codec, unit, end) == AnnexB.LONG_START_CODE + unit
  {
    hide ParsePayload, FragmentPiece, Bytes, Tail;
    var pieces := UnitPieces(codec, unit, rest == []) + rest;
    var first := FragmentPiece(codec, unit, 0, rest == []);
    end := FragmentEnd(codec, unit, 0);
    FragmentParses(codec, unit, 0, rest == [], hasPartial);
    TailStep(codec, unit, 0);
    WholeTail(codec, unit);
    bytes := Bytes(ParsePayload(CodecOf(codec), first.payload, first.marker, hasPartial).value.content).value;
    ConsAppend(first, FragmentPieces(codec, unit, end, rest == []), rest);
  }

  lemma FragmentedUnitCollects(codec: H26x, unit: seq<byte>, rest: seq<Piece>, acc: seq<byte>)
    requires Fragmented(unit)
    ensures Collect(CodecOf(codec), UnitPieces(codec, unit, rest == []) + rest, acc)
         == Onward(CodecOf(codec), rest, true, [] + (AnnexB.LONG_START_CODE + unit))
  {
    hide ParsePayload, Bytes, Tail, UnitPieces, FragmentPieces;
    var end, bytes := FirstFragment(codec, unit, rest, true);
    assert [] + bytes == bytes;
    assert [] + (AnnexB.LONG_START_CODE + unit) == AnnexB.LONG_START_CODE + unit;
    FragmentsCollect(codec, unit, end, rest, bytes);
  }

  lemma NaluBytes(unit: seq<byte>)
    ensures Bytes(H26xNalu(unit)) == Some(AnnexB.LONG_START_CODE + unit)
  {
  }

  lemma WholeTail(codec: H26x, unit: seq<byte>)
    requires |unit| >= NalHeaderBytes(codec)
    ensures Tail(codec, unit, 0) == AnnexB.LONG_START_CODE + unit
  {
  }

  lemma {:induction false} UnitsCollect(codec: H26x, units: seq<seq<byte>>, acc: seq<byte>)
    requires AllSendable(codec, units) && units != []
    ensures Collect(CodecOf(codec), H26xPieces(codec, units), acc)
         == Some(Collected(AnyFragmented(units), Held(units, acc)))
    decreases |units|
  {
    hide Collect, UnitPieces, Sendable, Fragmented, AnyFragmented;
    var rest := units[1..];
    var grown := (if Fragmented(units[0]) then [] else acc) + (AnnexB.LONG_START_CODE + units[0]);
    PiecesExist(codec, rest);
    UnitCollects(codec, units[0], H26xPieces(codec, rest), acc);
    AnyFragmentedStep(units);
    if rest != [] {
      UnitsCollect(codec, rest, grown);
    } else {
      NoneFragmented();
      assert UnitPieces(codec, units[0], true) + [] == UnitPieces(codec, units[0], true);
    }
  }

  lemma PiecesExist(codec: H26x, units: seq<seq<byte>>)
    ensures H26xPieces(codec, units) == [] <==> units == []
  {
  }

  lemma AnyFragmentedStep(units: seq<seq<byte>>)
    requires units != []
    ensures AnyFragmented(units) <==> Fragmented(units[0]) || AnyFragmented(units[1..])
  {
    if AnyFragmented(units[1..]) {
      var i :| 0 <= i < |units[1..]| && Fragmented(units[1..][i]);
      assert Fragmented(units[i + 1]);
    }
    if AnyFragmented(units) {
      var i :| 0 <= i < |units| && Fragmented(units[i]);
      assert i > 0 ==> Fragmented(units[1..][i - 1]);
    }
  }

  lemma FragmentedUnitBegins(codec: H26x, unit: seq<byte>, rest: seq<Piece>)
    requires Fragmented(unit)
    ensures CollectAll(CodecOf(codec), UnitPieces(codec, unit, rest == []) + rest)
         == Onward(CodecOf(codec), rest, false, AnnexB.LONG_START_CODE + unit)
  {
    hide ParsePayload, Bytes, Tail, Collect, Onward, UnitPieces, FragmentPieces;
    var end, bytes := FirstFragment(codec, unit, rest, false);
    FragmentsCollect(codec, unit, end, rest, bytes);
  }

  lemma WholeUnitBegins(codec: H26x, unit: seq<byte>, rest: seq<Piece>)
    requires Sendable(codec, unit) && !Fragmented(unit)
    ensures CollectAll(CodecOf(codec), UnitPieces(codec, unit, rest == []) + rest)
         == Onward(CodecOf(codec), rest, false, AnnexB.LONG_START_CODE + unit)
  {
    hide ParsePayload, Bytes, Collect;
    var pieces := UnitPieces(codec, unit, rest == []) + rest;
    SingleParses(codec, unit, rest == [], false);
    NaluBytes(unit);
    assert pieces[1..] == rest;
  }

  /** What an assembler makes of a whole frame of units. */
  lemma FrameCollects(codec: H26x, units: seq<seq<byte>>)
    requires AllSendable(codec, units) && units != []
    ensures CollectAll(CodecOf(codec), H26xPieces(codec, units))
         == Some(Collected(AnyFragmented(units[1..]), Held(units[1..], AnnexB.LONG_START_CODE + units[0])))
  {
    hide Collect, CollectAll, UnitPieces, Sendable, Fragmented, AnyFragmented;
    var rest := units[1..];
    PiecesExist(codec, rest);
    if Fragmented(units[0]) {
      FragmentedUnitBegins(codec, units[0], H26xPieces(codec, rest));
    } else {
      WholeUnitBegins(codec, units[0], H26xPieces(codec, rest));
    }
    if rest != [] {
      UnitsCollect(codec, rest, AnnexB.LONG_START_CODE + units[0]);
    } else {
      assert UnitPieces(codec, units[0], true) + [] == UnitPieces(codec, units[0], true);
      NoneFragmented();
    }
  }

  lemma NoneFragmented()
    ensures !AnyFragmented([])
  {
  }

  /** Nothing is lost exactly when no further unit is fragmented; otherwise bytes are missing. */
  lemma {:induction false} HeldAll(units: seq<seq<byte>>, acc: seq<byte>)
    requires acc != []
    ensures !AnyFragmented(units) ==> Held(units, acc) == acc + AnnexB.Join(units)
    ensures AnyFragmented(units) ==> |Held(units, acc)| < |acc| + |AnnexB.Join(units)|
    decreases |units|
  {
    hide AnyFragmented, Fragmented;
    NoneFragmented();
    if units == [] {
      assert acc + [] == acc;
    } else {
      AnyFragmentedStep(units);
      var coded := AnnexB.LONG_START_CODE + units[0];
      var grown := (if Fragmented(units[0]) then [] else acc) + coded;
      HeldAll(units[1..], grown);
      assert acc + (coded + AnnexB.Join(units[1..])) == (acc + coded) + AnnexB.Join(units[1..]);
    }
  }

  /**
    * The assembler gives back the whole frame if and only if no NAL unit after the first is fragmented;
    * either way one frame comes out and no partial stays behind.
    */
  lemma H26xRoundTrip(codec: H26x, units: seq<seq<byte>>, stream: Stream, seqno: u16, timestamp: u32)
    requires AllSendable(codec, units) && units != [] && stream.codec == CodecOf(codec)
    ensures var fed := Assembled(codec, units, stream, seqno, timestamp);
            && fed.state == Assembler.EMPTY && !fed.malformed && |fed.frames| == 1
            && (fed.frames[0].bytes == AnnexB.Join(units) <==> !AnyFragmented(units[1..]))
            && |fed.frames[0].bytes| <= |AnnexB.Join(units)|
  {
    hide Feed, Sent, AnyFragmented, H26xPieces;
    var pieces := H26xPieces(codec, units);
    FrameCollects(codec, units);
    FeedAll(stream, pieces, seqno, timestamp);
    HeldAll(units[1..], AnnexB.LONG_START_CODE + units[0]);
  }

  /** A unit that travels whole and that the receiver takes for no kind of payload. */
  predicate Unreadable(codec: H26x, unit: seq<byte>) {
    && unit != [] && !Fragmented(unit)
    && (|unit| < NalHeaderBytes(codec) ||
        (var t := NalType(codec, unit[0]);
         !IsSingleType(codec, t) && t != AggregationType(codec) && t != FragmentType(codec)))
  }

  /** One unreadable unit makes the assembler report an error. */
  lemma {:induction false} UnreadableFails(codec: H26x, units: seq<seq<byte>>, unit: seq<byte>, stream: Stream, s: Assembler.State,
                                           seqno: u16, timestamp: u32)
    requires unit in units && Unreadable(codec, unit) && stream.codec == CodecOf(codec)
    ensures Feed(s, Sent(stream, H26xPieces(codec, units), seqno, timestamp)).malformed
  {
    hide UnitPieces, Unreadable, Feed, Sent;
    var pieces := H26xPieces(codec, units);
    var k := UnreadablePiece(codec, units, unit);
    PieceFails(stream, pieces, k, s, seqno, timestamp);
  }

  lemma {:induction false} UnreadablePiece(codec: H26x, units: seq<seq<byte>>, unit: seq<byte>) returns (k: nat)
    requires unit in units && Unreadable(codec, unit)
    ensures k < |H26xPieces(codec, units)|
    ensures
      var piece := H26xPieces(codec, units)[k];
      forall hasPartial :: ParsePayload(CodecOf(codec), piece.payload, piece.marker, hasPartial).None?
    decreases |units|
  {
    if units[0] == unit {
      k := 0;
    } else {
      hide Unreadable, ParsePayload, UnitPieces;
      var j := UnreadablePiece(codec, units[1..], unit);
      k := |UnitPieces(codec, units[0], |units| == 1)| + j;
    }
  }

  lemma {:induction false} PieceFails(stream: Stream, pieces: seq<Piece>, k: nat, s: Assembler.State, seqno: u16, timestamp: u32)
    requires k < |pieces|
    requires forall hasPartial :: ParsePayload(stream.codec, pieces[k].payload, pieces[k].marker, hasPartial).None?
    ensures Feed(s, Sent(stream, pieces, seqno, timestamp)).malformed
    decreases |pieces|
  {
    hide ParsePayload, NextSeq, NextTimestamp;
    var packet := PacketOf(stream, pieces[0], seqno, timestamp);
    var later := NextTimestamp(timestamp, stream.codec.Opus? || pieces[0].marker, stream.increment);
    var packets := Sent(stream, pieces, seqno, timestamp);
    assert packets[0] == packet && packets[1..] == Sent(stream, pieces[1..], NextSeq(seqno), later);
    if k > 0 {
      hide Assembler.Push;
      PieceFails(stream, pieces[1..], k - 1, Assembler.Push(s, packet).0, NextSeq(seqno), later);
    }
  }

  function Assembled(codec: H26x, units: seq<seq<byte>>, stream: Stream, seqno: u16, timestamp: u32): Fed {
    Feed(Assembler.EMPTY, Sent(stream, H26xPieces(codec, units), seqno, timestamp))
  }

  /** A second unit of more than 1200 bytes makes the assembler forget the first. */
  lemma FragmentedSecondUnitLosesFirst(first: seq<byte>, second: seq<byte>, stream: Stream)
    requires Sendable(H26x.H264, first) && Fragmented(second) && stream.codec == Codec.H264
    ensures var fed := Assembled(H26x.H264, [first, second], stream, 0, 0);
            |fed.frames| == 1 && fed.frames[0].bytes == AnnexB.LONG_START_CODE + second
  {
    hide Feed, Sent, H26xPieces;
    var units := [first, second];
    FrameCollects(H26x.H264, units);
    FeedAll(stream, H26xPieces(H26x.H264, units), 0, 0);
    assert units[1..] == [second] && [second][1..] == [];
    assert [] + (AnnexB.LONG_START_CODE + second) == AnnexB.LONG_START_CODE + second;
  }

  // ----- Payload sizes and markers -----

  /** Every payload fits; the marker, if there is one, is on the last. */
  ghost predicate MarkedIf(pieces: seq<Piece>, marked: bool) {
    forall i :: 0 <= i < |pieces| ==>
      1 <= |pieces[i].payload| <= MAX_PAYLOAD && (pieces[i].marker <==> marked && i == |pieces| - 1)
  }

  lemma {:induction false} FragmentsMarked(codec: H26x, unit: seq<byte>, offset: nat, lastUnit: bool)
    requires |unit| >= NalHeaderBytes(codec) && offset < |unit| - NalHeaderBytes(codec)
    ensures FragmentPieces(codec, unit, offset, lastUnit) != []
    ensures MarkedIf(FragmentPieces(codec, unit, offset, lastUnit), lastUnit)
    decreases |unit| - offset
  {
    hide FragmentPiece, ParsePayload;
    FragmentParses(codec, unit, offset, lastUnit, false);
    var end := offset + (MAX_PAYLOAD - FragmentHeaderLen(codec));
    if end < |unit| - NalHeaderBytes(codec) {
      FragmentsMarked(codec, unit, end, lastUnit);
    }
  }

  /** Payloads of at most 1200 bytes with the marker on the frame's last one only, for any non-empty units. */
  lemma {:induction false} H26xWellMarked(codec: H26x, units: seq<seq<byte>>)
    requires forall i :: 0 <= i < |units| ==> units[i] != []
    ensures WellMarked(H26xPieces(codec, units))
  {
    if units != [] {
      var first, rest := UnitPieces(codec, units[0], |units| == 1), H26xPieces(codec, units[1..]);
      UnitMarked(codec, units[0], |units| == 1);
      H26xWellMarked(codec, units[1..]);
      PiecesExist(codec, units[1..]);
      hide UnitPieces, H26xPieces;
      var all := first + rest;
      forall i | 0 <= i < |all|
        ensures 1 <= |all[i].payload| <= MAX_PAYLOAD && (all[i].marker <==> i == |all| - 1)
      {
        if i < |first| {
          assert all[i] == first[i];
        } else {
          assert all[i] == rest[i - |first|];
        }
      }
    }
  }

  lemma UnitMarked(codec: H26x, unit: seq<byte>, lastUnit: bool)
    requires unit != []
    ensures UnitPieces(codec, unit, lastUnit) != [] && MarkedIf(UnitPieces(codec, unit, lastUnit), lastUnit)
  {
    hide FragmentPieces;
    if |unit| > MAX_PAYLOAD {
      FragmentsMarked(codec, unit, 0, lastUnit);
    }
  }
}
