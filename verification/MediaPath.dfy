/** From a frame through packets back to the frame (cacophony/src/media.rs, cacophony/src/rtp_payload.rs). */
module MediaPath {
  import opened Prelude
  import opened Codecs
  import opened RtpPayload
  import opened Assembler
  import opened Packetizer

  // ----- Numbering packets -----

  /** Sequence number, timestamp and nonce suffix of an outbound stream. */
  class OutboundRtpState {
    const ssrc: u32
    const audio: bool
    var seqno: u16
    var timestamp: u32
    var nonceSuffix: u32

    constructor (ssrc: u32, audio: bool, nonceSuffix: u32)
      ensures seqno == 0 && timestamp == 0 && this.nonceSuffix == nonceSuffix && this.ssrc == ssrc && this.audio == audio
    {
      this.ssrc, this.audio, this.nonceSuffix := ssrc, audio, nonceSuffix;
      seqno, timestamp := 0, 0;
    }

    /** Audio moves the timestamp with every packet, video only behind a marker; an empty payload changes nothing. */
    method BuildPacket(payload: seq<byte>, marker: bool, increment: u32) returns (header: Option<Header>)
      modifies this
      ensures payload == [] ==> header.None? && unchanged(this)
      ensures payload != [] ==>
                && header == Some(Header(marker, old(seqno), old(timestamp), ssrc))
                && seqno == (old(seqno) + 1) % 65536
                && timestamp == (if audio || marker then (old(timestamp) + increment) % 0x1_0000_0000 else old(timestamp))
                && nonceSuffix == (old(nonceSuffix) + 1) % 0x1_0000_0000
    {
      if payload == [] {
        return None;
      }
      header := Some(Header(marker, seqno, timestamp, ssrc));
      seqno := NextSeq(seqno);
      timestamp := NextTimestamp(timestamp, audio || marker, increment);
      nonceSuffix := (nonceSuffix + 1) % 0x1_0000_0000;
    }
  }

  function NextSeq(seqno: u16): u16 {
    (seqno + 1) % 0x1_0000
  }

  function NextTimestamp(timestamp: u32, moves: bool, increment: u32): u32 {
    if moves then (timestamp + increment) % 0x1_0000_0000 else timestamp
  }

  /** What the packets of one stream have in common. */
  datatype Stream = Stream(ssrc: u32, userId: Option<u64>, codec: Codec, dave: bool, increment: u32)

  function PacketOf(stream: Stream, piece: Piece, seqno: u16, timestamp: u32): Packet {
    Packet(Header(piece.marker, seqno, timestamp, stream.ssrc), stream.userId, stream.codec, piece.payload, stream.dave)
  }

  /** The packets `build_packet` makes of the pieces in turn. */
  function Sent(stream: Stream, pieces: seq<Piece>, seqno: u16, timestamp: u32): seq<Packet> {
    if pieces == [] then [] else
    [PacketOf(stream, pieces[0], seqno, timestamp)]
      + Sent(stream, pieces[1..], NextSeq(seqno),
             NextTimestamp(timestamp, stream.codec.Opus? || pieces[0].marker, stream.increment))
  }

  lemma SentOne(stream: Stream, pieces: seq<Piece>, seqno: u16, timestamp: u32)
    requires |pieces| == 1
    ensures Sent(stream, pieces, seqno, timestamp) == [PacketOf(stream, pieces[0], seqno, timestamp)]
    ensures Sent(stream, pieces, seqno, timestamp)[1..] == []
  {
    assert pieces[1..] == [];
  }

  // ----- Feeding an assembler -----

  datatype Fed = Fed(state: State, frames: seq<Frame>, malformed: bool)

  function Feed(s: State, packets: seq<Packet>): Fed
    decreases |packets|
  {
    if packets == [] then Fed(s, [], false) else
    var (next, result) := Push(s, packets[0]);
    var rest := Feed(next, packets[1..]);
    match result
    case Malformed => rest.(malformed := true)
    case Ok(None) => rest
    case Ok(Some(frame)) => rest.(frames := [frame] + rest.frames)
  }

  /** The bytes collected, and whether a later piece began the frame anew. */
  datatype Collected = Collected(restarted: bool, bytes: seq<byte>)

  /** What the pieces add to a frame that already holds `acc`; the last piece must be the one that completes it. */
  function Collect(codec: Codec, pieces: seq<Piece>, acc: seq<byte>): Option<Collected> {
    if pieces == [] then None else
    match ParsePayload(codec, pieces[0].payload, pieces[0].marker, true)
    case None => None
    case Some(parsed) =>
      if Bytes(parsed.content).None? then None else
      var starts := parsed.boundary.startsFrame;
      var grown := (if starts then [] else acc) + Bytes(parsed.content).value;
      if parsed.boundary.completesFrame then
        if |pieces| == 1 && !starts then Some(Collected(false, grown)) else None
      else if pieces[0].marker then None
      else
        match Collect(codec, pieces[1..], grown)
        case None => None
        case Some(c) => Some(Collected(starts || c.restarted, c.bytes))
  }

  /** The same for a whole frame's pieces and an assembler without a partial. */
  function CollectAll(codec: Codec, pieces: seq<Piece>): Option<Collected> {
    if pieces == [] then None else
    match ParsePayload(codec, pieces[0].payload, pieces[0].marker, false)
    case None => None
    case Some(parsed) =>
      if !parsed.boundary.startsFrame || Bytes(parsed.content).None? then None
      else if parsed.boundary.completesFrame then
        if |pieces| == 1 then Some(Collected(false, Bytes(parsed.content).value)) else None
      else if pieces[0].marker then None
      else Collect(codec, pieces[1..], Bytes(parsed.content).value)
  }

  ghost predicate InContext(partial: Partial, stream: Stream, seqno: u16, timestamp: u32) {
    && partial.frame.rtp.ssrc == stream.ssrc && partial.frame.codec == stream.codec
    && partial.frame.dave == stream.dave && partial.frame.rtp.timestamp == timestamp
    && NextSeq(partial.lastSeq) == seqno
  }

  /** One packet that continues the partial of its stream. */
  lemma PushContinues(partial: Partial, stream: Stream, piece: Piece, seqno: u16, timestamp: u32)
    requires InContext(partial, stream, seqno, timestamp)
    requires var p := ParsePayload(stream.codec, piece.payload, piece.marker, true);
             && p.Some? && Bytes(p.value.content).Some?
             && !(p.value.boundary.startsFrame && p.value.boundary.completesFrame)
    ensures var packet := PacketOf(stream, piece, seqno, timestamp);
            var parsed := ParsePayload(stream.codec, piece.payload, piece.marker, true).value;
            var base := if parsed.boundary.startsFrame then NewPartial(packet).frame else partial.frame;
            var grown := base.(bytes := base.bytes + Bytes(parsed.content).value);
            Push(State(Some(partial), []), packet)
            == if parsed.boundary.completesFrame then (EMPTY, Ok(Some(grown)))
               else (State(Some(Partial(grown, seqno)), []), Ok(None))
  {
    hide ParsePayload, Bytes;
    var parsed := ParsePayload(stream.codec, piece.payload, piece.marker, true).value;
    var grown := partial.frame.(bytes := partial.frame.bytes + Bytes(parsed.content).value);
    assert ([] + [grown])[1..] == [];
  }

  lemma PushBegins(stream: Stream, piece: Piece, seqno: u16, timestamp: u32)
    requires var p := ParsePayload(stream.codec, piece.payload, piece.marker, false);
             p.Some? && p.value.boundary.startsFrame && Bytes(p.value.content).Some?
    ensures var packet := PacketOf(stream, piece, seqno, timestamp);
            var parsed := ParsePayload(stream.codec, piece.payload, piece.marker, false).value;
            var grown := NewPartial(packet).frame.(bytes := Bytes(parsed.content).value);
            Push(EMPTY, packet)
            == if parsed.boundary.completesFrame then (EMPTY, Ok(Some(grown)))
               else (State(Some(Partial(grown, seqno)), []), Ok(None))
  {
    hide ParsePayload, Bytes;
    var packet := PacketOf(stream, piece, seqno, timestamp);
    var parsed := ParsePayload(stream.codec, piece.payload, piece.marker, false).value;
    var grown := NewPartial(packet).frame.(bytes := Bytes(parsed.content).value);
    assert [] + Bytes(parsed.content).value == Bytes(parsed.content).value;
    assert ([] + [grown])[1..] == [];
  }

  /** Exactly one frame comes out, with the collected bytes and the stream's attributes. */
  ghost predicate OneFrame(fed: Fed, stream: Stream, c: Collected, rtp: Header, userId: Option<u64>) {
    && fed.state == EMPTY && !fed.malformed && |fed.frames| == 1
    && var f := fed.frames[0];
       && f.bytes == c.bytes && f.codec == stream.codec && f.dave == stream.dave
       && (!c.restarted ==> f.rtp == rtp && f.userId == userId)
  }

  lemma {:induction false} FeedRest(partial: Partial, stream: Stream, pieces: seq<Piece>, seqno: u16, timestamp: u32)
    requires InContext(partial, stream, seqno, timestamp) && !stream.codec.Opus?
    requires Collect(stream.codec, pieces, partial.frame.bytes).Some?
    ensures OneFrame(Feed(State(Some(partial), []), Sent(stream, pieces, seqno, timestamp)), stream,
                     Collect(stream.codec, pieces, partial.frame.bytes).value, partial.frame.rtp, partial.frame.userId)
    decreases |pieces|
  {
    hide ParsePayload, Bytes, Push, NextSeq, NextTimestamp;
    var packet := PacketOf(stream, pieces[0], seqno, timestamp);
    var parsed := ParsePayload(stream.codec, pieces[0].payload, pieces[0].marker, true).value;
    PushContinues(partial, stream, pieces[0], seqno, timestamp);
    var packets := Sent(stream, pieces, seqno, timestamp);
    if parsed.boundary.completesFrame {
      SentOne(stream, pieces, seqno, timestamp);
    } else {
      var base := if parsed.boundary.startsFrame then NewPartial(packet).frame else partial.frame;
      var grown := base.(bytes := base.bytes + Bytes(parsed.content).value);
      SameTimestamp(stream, pieces[0], timestamp);
      assert packets[1..] == Sent(stream, pieces[1..], NextSeq(seqno), timestamp);
      FeedRest(Partial(grown, seqno), stream, pieces[1..], NextSeq(seqno), timestamp);
    }
  }

  lemma SameTimestamp(stream: Stream, piece: Piece, timestamp: u32)
    requires !stream.codec.Opus? && !piece.marker
    ensures NextTimestamp(timestamp, stream.codec.Opus? || piece.marker, stream.increment) == timestamp
  {
  }

  /** Feeding a frame's packets to an assembler with no partial yields what `CollectAll` says and leaves no partial. */
  lemma FeedAll(stream: Stream, pieces: seq<Piece>, seqno: u16, timestamp: u32)
    requires CollectAll(stream.codec, pieces).Some?
    ensures OneFrame(Feed(EMPTY, Sent(stream, pieces, seqno, timestamp)), stream,
                     CollectAll(stream.codec, pieces).value,
                     Header(pieces[0].marker, seqno, timestamp, stream.ssrc), stream.userId)
  {
    hide ParsePayload, Bytes, Push, NextSeq, NextTimestamp, Collect;
    var packet := PacketOf(stream, pieces[0], seqno, timestamp);
    var parsed := ParsePayload(stream.codec, pieces[0].payload, pieces[0].marker, false).value;
    PushBegins(stream, pieces[0], seqno, timestamp);
    var packets := Sent(stream, pieces, seqno, timestamp);
    if parsed.boundary.completesFrame {
      SentOne(stream, pieces, seqno, timestamp);
    } else {
      OpusCompletes(stream.codec, pieces[0]);
      SameTimestamp(stream, pieces[0], timestamp);
      assert packets[1..] == Sent(stream, pieces[1..], NextSeq(seqno), timestamp);
      var grown := NewPartial(packet).frame.(bytes := Bytes(parsed.content).value);
      FeedRest(Partial(grown, seqno), stream, pieces[1..], NextSeq(seqno), timestamp);
    }
  }

  lemma OpusCompletes(codec: Codec, piece: Piece)
    requires ParsePayload(codec, piece.payload, piece.marker, false).Some?
    requires !ParsePayload(codec, piece.payload, piece.marker, false).value.boundary.completesFrame
    ensures !codec.Opus?
  {
  }

  /** Opus: a frame of at most 1200 bytes travels in one packet without a marker. */
  lemma OpusRoundTrip(frame: seq<byte>, stream: Stream, seqno: u16, timestamp: u32)
    requires stream.codec.Opus? && |frame| <= MAX_PAYLOAD
    ensures OneFrame(Feed(EMPTY, Sent(stream, [Piece(frame, false)], seqno, timestamp)), stream, Collected(false, frame),
                     Header(false, seqno, timestamp, stream.ssrc), stream.userId)
  {
    FeedAll(stream, [Piece(frame, false)], seqno, timestamp);
  }

  // ----- Payload sizes and markers -----

  /** Every payload fits, and the marker is on the last one only. */
  ghost predicate WellMarked(pieces: seq<Piece>) {
    forall i :: 0 <= i < |pieces| ==>
      1 <= |pieces[i].payload| <= MAX_PAYLOAD && (pieces[i].marker <==> i == |pieces| - 1)
  }

  lemma WellMarkedCons(first: Piece, rest: seq<Piece>)
    requires WellMarked(rest) && 1 <= |first.payload| <= MAX_PAYLOAD && (first.marker <==> rest == [])
    ensures WellMarked([first] + rest)
  {
  }

  // ----- VP8 and VP9 -----

  function VpxCodec(header: VpxHeader): Codec {
    match header
    case Vp8Header => Vp8
    case Vp9Header => Vp9
  }

  lemma VpxPieceParses(header: VpxHeader, frame: seq<byte>, offset: nat, hasPartial: bool)
    requires offset < |frame|
    ensures var piece := VpxPiece(header, frame, offset);
            var end := Min(offset + (MAX_PAYLOAD - 1), |frame|);
            && 1 <= |piece.payload| <= MAX_PAYLOAD && (piece.marker <==> end == |frame|)
            && ParsePayload(VpxCodec(header), piece.payload, piece.marker, hasPartial)
               == Some(Parsed(Boundary(offset == 0, end == |frame|), Raw(frame[offset..end])))
  {
    var piece := VpxPiece(header, frame, offset);
    assert piece.payload[1..] == frame[offset..Min(offset + (MAX_PAYLOAD - 1), |frame|)];
  }

  lemma {:induction false} VpxCollects(header: VpxHeader, frame: seq<byte>, offset: nat)
    requires 0 < offset < |frame|
    ensures Collect(VpxCodec(header), VpxPieces(header, frame, offset), frame[..offset]) == Some(Collected(false, frame))
    ensures WellMarked(VpxPieces(header, frame, offset))
    decreases |frame| - offset
  {
    hide ParsePayload, VpxPiece, WellMarked;
    var end := Min(offset + (MAX_PAYLOAD - 1), |frame|);
    var pieces := VpxPieces(header, frame, offset);
    VpxPieceParses(header, frame, offset, true);
    assert pieces[1..] == VpxPieces(header, frame, end);
    assert frame[..offset] + frame[offset..end] == frame[..end];
    if end < |frame| {
      VpxCollects(header, frame, end);
    } else {
      assert frame[..end] == frame;
      assert WellMarked([]) by { NothingMarked(); }
    }
    WellMarkedCons(pieces[0], pieces[1..]);
  }

  lemma NothingMarked()
    ensures WellMarked([])
  {
  }

  /** VP8 and VP9: for every non-empty frame, packetize, number, assemble: exactly the frame comes back. */
  lemma VpxRoundTrip(header: VpxHeader, frame: seq<byte>, stream: Stream, seqno: u16, timestamp: u32)
    requires frame != [] && stream.codec == VpxCodec(header)
    ensures var pieces := VpxPieces(header, frame, 0);
            && WellMarked(pieces) && pieces != []
            && OneFrame(Feed(EMPTY, Sent(stream, pieces, seqno, timestamp)), stream, Collected(false, frame),
                        Header(pieces[0].marker, seqno, timestamp, stream.ssrc), stream.userId)
  {
    hide ParsePayload, VpxPiece, WellMarked, Feed, Sent, OneFrame, Collect;
    var end := Min(0 + (MAX_PAYLOAD - 1), |frame|);
    var pieces := VpxPieces(header, frame, 0);
    VpxPieceParses(header, frame, 0, false);
    assert pieces[1..] == VpxPieces(header, frame, end);
    assert frame[0..end] == frame[..end];
    if end < |frame| {
      VpxCollects(header, frame, end);
    } else {
      assert frame[..end] == frame;
      NothingMarked();
    }
    WellMarkedCons(pieces[0], pieces[1..]);
    FeedAll(stream, pieces, seqno, timestamp);
  }

  // ----- AV1 -----

  lemma Av1PieceParses(frame: seq<byte>, start: nat, end: nat, at: nat, hasPartial: bool)
    requires start <= at < end <= |frame|
    ensures var piece := Av1Piece(frame, start, end, at);
            var stop := Min(at + (MAX_PAYLOAD - 1), end);
            && 1 <= |piece.payload| <= MAX_PAYLOAD && (piece.marker <==> stop == |frame|)
            && ParsePayload(Av1, piece.payload, piece.marker, hasPartial)
               == Some(Parsed(Boundary(!hasPartial && at == start, stop == |frame|), Av1Elements(1, frame[at..stop])))
  {
    var piece := Av1Piece(frame, start, end, at);
    var stop := Min(at + (MAX_PAYLOAD - 1), end);
    assert piece.payload[1..] == frame[at..stop];
    var header := piece.payload[0];
    assert header == 0x10 || header == 0x50 || header == 0x90 || header == 0xD0;
    assert Bit(header, 7) <==> at > start;
  }

  lemma {:induction false} Av1RestCollects(frame: seq<byte>, start: nat, end: nat, at: nat)
    requires start <= at < end <= |frame| && 0 < at && !Av1Rest(frame, start, end, at).failed
    ensures Collect(Av1, Av1Rest(frame, start, end, at).pieces, frame[..at]) == Some(Collected(false, frame))
    ensures WellMarked(Av1Rest(frame, start, end, at).pieces)
    decreases |frame| - at, 0
  {
    hide ParsePayload, Av1Piece, WellMarked;
    var stop := Min(at + (MAX_PAYLOAD - 1), end);
    var cut := Av1Rest(frame, start, end, at);
    Av1PieceParses(frame, start, end, at, true);
    var rest := if stop < end then Av1Rest(frame, start, end, stop) else Av1From(frame, end);
    assert cut.pieces[1..] == rest.pieces;
    assert frame[..at] + frame[at..stop] == frame[..stop];
    if stop < end {
      Av1RestCollects(frame, start, end, stop);
    } else if end < |frame| {
      Av1FromCollects(frame, end);
    } else {
      assert frame[..stop] == frame;
      NothingMarked();
    }
    WellMarkedCons(cut.pieces[0], cut.pieces[1..]);
  }

  lemma {:induction false} Av1FromCollects(frame: seq<byte>, start: nat)
    requires 0 < start < |frame| && !Av1From(frame, start).failed
    ensures Collect(Av1, Av1From(frame, start).pieces, frame[..start]) == Some(Collected(false, frame))
    ensures WellMarked(Av1From(frame, start).pieces) && Av1From(frame, start).pieces != []
    decreases |frame| - start, 1
  {
    hide Collect, WellMarked, ObuEnd, Av1Piece;
    Av1RestCollects(frame, start, ObuEnd(frame, start).value, start);
  }

  /** AV1: every non-empty frame whose OBUs the packetizer accepts comes back exactly. */
  lemma Av1RoundTrip(frame: seq<byte>, stream: Stream, seqno: u16, timestamp: u32)
    requires frame != [] && stream.codec == Av1 && !Av1From(frame, 0).failed
    ensures var pieces := Av1From(frame, 0).pieces;
            && WellMarked(pieces) && pieces != []
            && OneFrame(Feed(EMPTY, Sent(stream, pieces, seqno, timestamp)), stream, Collected(false, frame),
                        Header(pieces[0].marker, seqno, timestamp, stream.ssrc), stream.userId)
  {
    hide ParsePayload, Av1Piece, WellMarked, Feed, Sent, OneFrame, Collect, ObuEnd;
    var end := ObuEnd(frame, 0).value;
    var stop := Min(0 + (MAX_PAYLOAD - 1), end);
    var cut := Av1Rest(frame, 0, end, 0);
    Av1PieceParses(frame, 0, end, 0, false);
    var rest := if stop < end then Av1Rest(frame, 0, end, stop) else Av1From(frame, end);
    assert cut.pieces[1..] == rest.pieces;
    assert frame[0..stop] == frame[..stop];
    if stop < end {
      Av1RestCollects(frame, 0, end, stop);
    } else if end < |frame| {
      Av1FromCollects(frame, end);
    } else {
      assert frame[..stop] == frame;
      NothingMarked();
    }
    WellMarkedCons(cut.pieces[0], cut.pieces[1..]);
    FeedAll(stream, cut.pieces, seqno, timestamp);
  }
}
