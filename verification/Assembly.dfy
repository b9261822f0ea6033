/** What assembled frames are made of (cacophony/src/media.rs), over all packets in any order, and how AV1 units end. */
module Assembly {
  import opened Prelude
  import opened Codecs
  import opened RtpPayload
  import opened Assembler
  import opened Packetizer
  import opened MediaPath
  import opened Interleave

  // ----- Provenance -----

  /** What a packet adds to a frame; `None` for a payload that is refused. */
  function Content(packet: Packet): Option<seq<byte>> {
    match ParsePayload(packet.codec, packet.payload, packet.rtp.marker, false)
    case None => None
    case Some(parsed) => Bytes(parsed.content)
  }

  function Glue(parts: seq<Packet>): Option<seq<byte>> {
    if parts == [] then Some([])
    else
      var front, last := Glue(parts[..|parts| - 1]), Content(parts[|parts| - 1]);
      if front.None? || last.None? then None else Some(front.value + last.value)
  }

  /** A packet may open a frame, or goes on with one. */
  predicate Opens(packet: Packet) {
    var parsed := ParsePayload(packet.codec, packet.payload, packet.rtp.marker, false);
    parsed.Some? && parsed.value.boundary.startsFrame
  }

  predicate GoesOn(packet: Packet) {
    var parsed := ParsePayload(packet.codec, packet.payload, packet.rtp.marker, true);
    parsed.Some? && !parsed.value.boundary.startsFrame
  }

  /**
   * The frame is made of these packets: one sender's, with consecutive numbers, the first of which opens a frame while the
   * others go on with it; its bytes are theirs and its header is the first one's.
   */
  ghost predicate MadeOf(frame: Frame, parts: seq<Packet>) {
    && parts != [] && Opens(parts[0]) && Glue(parts) == Some(frame.bytes)
    && frame.rtp == parts[0].rtp && frame.userId == parts[0].userId
    && (forall i :: 0 <= i < |parts| ==>
          && parts[i].rtp.ssrc == frame.rtp.ssrc && parts[i].codec == frame.codec && parts[i].dave == frame.dave
          && parts[i].rtp.seqno == (parts[0].rtp.seqno + i) % 0x1_0000)
    && (forall i :: 0 < i < |parts| ==> GoesOn(parts[i]))
  }

  /** The packets are among those that came. */
  ghost predicate Among(parts: seq<Packet>, came: seq<Packet>) {
    forall i :: 0 <= i < |parts| ==> parts[i] in came
  }

  ghost predicate Traced(frame: Frame, came: seq<Packet>) {
    exists parts :: MadeOf(frame, parts) && Among(parts, came)
  }

  ghost predicate PartialTraced(partial: Partial, came: seq<Packet>) {
    exists parts: seq<Packet> :: MadeOf(partial.frame, parts) && Among(parts, came) && partial.lastSeq == parts[|parts| - 1].rtp.seqno
  }

  ghost predicate StateTraced(s: State, came: seq<Packet>) {
    && (s.partial.Some? ==> PartialTraced(s.partial.value, came))
    && forall i :: 0 <= i < |s.completed| ==> Traced(s.completed[i], came)
  }

  lemma SameContent(packet: Packet, hasPartial: bool)
    ensures
      var parsed := ParsePayload(packet.codec, packet.payload, packet.rtp.marker, hasPartial);
      && (parsed.Some? ==> Bytes(parsed.value.content) == Content(packet))
      && (parsed.Some? && parsed.value.boundary.startsFrame ==> Opens(packet))
  {
    hide Vp8Descriptor, Vp9Descriptor, Bytes;
  }

  lemma OneMakes(packet: Packet)
    requires Opens(packet) && Content(packet).Some?
    ensures MadeOf(NewPartial(packet).frame.(bytes := Content(packet).value), [packet])
  {
    hide Opens, Content;
    assert Glue([packet][..0]) == Some([]);
    assert [] + Content(packet).value == Content(packet).value;
  }

  lemma MoreMakes(frame: Frame, parts: seq<Packet>, packet: Packet)
    requires MadeOf(frame, parts) && GoesOn(packet) && Content(packet).Some?
    requires packet.rtp.ssrc == frame.rtp.ssrc && packet.codec == frame.codec && packet.dave == frame.dave
    requires packet.rtp.seqno == (parts[|parts| - 1].rtp.seqno + 1) % 0x1_0000
    ensures MadeOf(frame.(bytes := frame.bytes + Content(packet).value), parts + [packet])
  {
    hide Opens, Content, GoesOn;
    var all := parts + [packet];
    assert all[..|parts|] == parts;
    var n := |parts| - 1;
    assert parts[n].rtp.seqno == (parts[0].rtp.seqno + n) % 0x1_0000;
    NextNumber(parts[0].rtp.seqno, n);
  }

  lemma NextNumber(seqno: u16, n: nat)
    ensures ((seqno + n) % 0x1_0000 + 1) % 0x1_0000 == (seqno + n + 1) % 0x1_0000
  {
  }

  lemma TracedMore(frame: Frame, came: seq<Packet>, packet: Packet)
    requires Traced(frame, came)
    ensures Traced(frame, came + [packet])
  {
    hide MadeOf;
    var parts :| MadeOf(frame, parts) && Among(parts, came);
    assert Among(parts, came + [packet]);
  }

  lemma PartialMore(partial: Partial, came: seq<Packet>, packet: Packet)
    requires PartialTraced(partial, came)
    ensures PartialTraced(partial, came + [packet])
  {
    hide Glue, Opens, GoesOn;
    var parts: seq<Packet> :| MadeOf(partial.frame, parts) && Among(parts, came) && partial.lastSeq == parts[|parts| - 1].rtp.seqno;
    assert Among(parts, came + [packet]);
  }

  lemma StateMore(s: State, came: seq<Packet>, packet: Packet)
    requires StateTraced(s, came)
    ensures StateTraced(s, came + [packet])
  {
    hide Traced, PartialTraced;
    if s.partial.Some? {
      PartialMore(s.partial.value, came, packet);
    }
    forall i | 0 <= i < |s.completed|
      ensures Traced(s.completed[i], came + [packet])
    {
      TracedMore(s.completed[i], came, packet);
    }
  }

  lemma PartialIsTraced(partial: Partial, came: seq<Packet>)
    requires PartialTraced(partial, came)
    ensures Traced(partial.frame, came)
  {
    hide MadeOf, Among;
  }

  lemma BeginsTraced(packet: Packet, came: seq<Packet>)
    requires Opens(packet) && Content(packet).Some? && packet in came
    ensures PartialTraced(Partial(NewPartial(packet).frame.(bytes := [] + Content(packet).value), packet.rtp.seqno), came)
  {
    OneMakes(packet);
    hide MadeOf, Opens, Content;
    var frame := NewPartial(packet).frame.(bytes := [] + Content(packet).value);
    assert [] + Content(packet).value == Content(packet).value;
    assert MadeOf(frame, [packet]) && Among([packet], came);
  }

  lemma ContinuesTraced(partial: Partial, packet: Packet, came: seq<Packet>)
    requires PartialTraced(partial, came) && partial.AcceptsNext(packet) && GoesOn(packet) && Content(packet).Some? && packet in came
    ensures PartialTraced(Partial(partial.frame.(bytes := partial.frame.bytes + Content(packet).value), packet.rtp.seqno), came)
  {
    hide GoesOn, Content;
    var parts: seq<Packet> :| MadeOf(partial.frame, parts) && Among(parts, came) && partial.lastSeq == parts[|parts| - 1].rtp.seqno;
    MoreMakes(partial.frame, parts, packet);
    hide MadeOf;
    var all := parts + [packet];
    assert Among(all, came) && all[|all| - 1] == packet;
  }

  lemma ClosedTraced(s: State, packet: Packet, came: seq<Packet>)
    requires StateTraced(s, came)
    ensures StateTraced(Closed(s, packet), came)
  {
    hide Traced, PartialTraced;
    if s.partial.Some? {
      PartialIsTraced(s.partial.value, came);
    }
  }

  lemma AbsorbTraced(s: State, packet: Packet, came: seq<Packet>)
    requires StateTraced(s, came) && packet in came
    ensures StateTraced(Absorb(s, packet).0, came)
  {
    hide ParsePayload, Bytes, Closed, Traced, PartialTraced, Content, Opens, GoesOn;
    ClosedTraced(s, packet, came);
    var c := Closed(s, packet);
    var continues := c.partial.Some? && c.partial.value.AcceptsNext(packet);
    SameContent(packet, continues);
    var parsed := ParsePayload(packet.codec, packet.payload, packet.rtp.marker, continues);
    if parsed.Some? && Bytes(parsed.value.content).Some? {
      if continues && !parsed.value.boundary.startsFrame {
        GoesOnIs(packet);
        ContinuesTraced(c.partial.value, packet, came);
        var partial := c.partial.value;
        PartialIsTraced(Partial(partial.frame.(bytes := partial.frame.bytes + Content(packet).value), packet.rtp.seqno), came);
      } else if parsed.value.boundary.startsFrame {
        BeginsTraced(packet, came);
        PartialIsTraced(Partial(NewPartial(packet).frame.(bytes := [] + Content(packet).value), packet.rtp.seqno), came);
      }
    }
  }

  lemma GoesOnIs(packet: Packet)
    ensures
      var parsed := ParsePayload(packet.codec, packet.payload, packet.rtp.marker, true);
      parsed.Some? && !parsed.value.boundary.startsFrame ==> GoesOn(packet)
  {
    hide ParsePayload;
  }

  lemma PushTraced(s: State, packet: Packet, came: seq<Packet>)
    requires StateTraced(s, came) && packet in came
    ensures
      var (next, r) := Push(s, packet);
      StateTraced(next, came) && (r.Ok? && r.frame.Some? ==> Traced(r.frame.value, came))
  {
    hide Absorb, Traced, PartialTraced;
    AbsorbTraced(s, packet, came);
  }

  /** From any traced state: every frame that comes out is made of packets that came. */
  lemma {:induction false} FeedTraced(s: State, came: seq<Packet>, packets: seq<Packet>)
    requires StateTraced(s, came)
    ensures forall i :: 0 <= i < |Feed(s, packets).frames| ==> Traced(Feed(s, packets).frames[i], came + packets)
    ensures StateTraced(Feed(s, packets).state, came + packets)
    decreases |packets|
  {
    hide Push, StateTraced, Traced;
    if packets == [] {
      assert came + packets == came;
    } else {
      var packet, more := packets[0], came + [packets[0]];
      StateMore(s, came, packet);
      PushTraced(s, packet, more);
      var (next, r) := Push(s, packet);
      FeedTraced(next, more, packets[1..]);
      assert more + packets[1..] == came + packets;
      if r.Ok? && r.frame.Some? {
        TracedRest(r.frame.value, more, packets[1..]);
      }
    }
  }

  lemma {:induction false} TracedRest(frame: Frame, came: seq<Packet>, rest: seq<Packet>)
    requires Traced(frame, came)
    ensures Traced(frame, came + rest)
  {
    hide MadeOf;
    var parts :| MadeOf(frame, parts) && Among(parts, came);
    assert Among(parts, came + rest);
  }

  /**
   * Whatever packets come, in whatever order, from however many senders: every frame that comes out is made of packets of one
   * sender with consecutive sequence numbers, in order, that opens with the first of a frame.
   */
  lemma FramesAreMadeOf(packets: seq<Packet>, i: nat) returns (parts: seq<Packet>)
    requires i < |Feed(EMPTY, packets).frames|
    ensures MadeOf(Feed(EMPTY, packets).frames[i], parts) && Among(parts, packets)
  {
    hide MadeOf, Among, Feed;
    FeedTraced(EMPTY, [], packets);
    assert [] + packets == packets;
    parts :| MadeOf(Feed(EMPTY, packets).frames[i], parts) && Among(parts, packets);
  }

  /** The same holds of frames that wait to be taken. */
  lemma WaitingAreMadeOf(packets: seq<Packet>, i: nat) returns (parts: seq<Packet>)
    requires i < |Feed(EMPTY, packets).state.completed|
    ensures MadeOf(Feed(EMPTY, packets).state.completed[i], parts) && Among(parts, packets)
  {
    hide MadeOf, Feed, PartialTraced, Among;
    FeedTraced(EMPTY, [], packets);
    assert [] + packets == packets;
    var frame := Feed(EMPTY, packets).state.completed[i];
    assert Traced(frame, packets);
    parts :| MadeOf(frame, parts) && Among(parts, packets);
  }

  /** A packet of the same sender that does not follow on makes the frame under assembly be given up, or closes it. */
  lemma GapGivesUp(s: State, packet: Packet)
    requires s.partial.Some? && s.partial.value.MatchesContext(packet)
    requires packet.rtp.seqno != (s.partial.value.lastSeq + 1) % 0x1_0000
    ensures
      var after := Absorb(s, packet).0.partial;
      after.Some? ==> after.value.lastSeq == packet.rtp.seqno && after.value.frame.rtp == packet.rtp
  {
    hide ParsePayload, Bytes;
  }

  /** The packet has the open frame's SSRC, codec and kind of protection. */
  predicate Kin(partial: Partial, packet: Packet) {
    partial.frame.rtp.ssrc == packet.rtp.ssrc && partial.frame.codec == packet.codec && partial.frame.dave == packet.dave
  }

  /**
   * The next packet of the open frame adds its bytes, whatever its timestamp unless the frame is an AV1 unit, and completes
   * the frame exactly if its payload says so. The frame keeps the header it began with.
   */
  lemma NextAdds(partial: Partial, packet: Packet)
    requires Kin(partial, packet) && packet.rtp.seqno == (partial.lastSeq + 1) % 65536
    requires packet.codec == Av1 ==> packet.rtp.timestamp == partial.frame.rtp.timestamp
    requires GoesOn(packet) && Content(packet).Some?
    ensures
      var parsed := ParsePayload(packet.codec, packet.payload, packet.rtp.marker, true).value;
      var grown := partial.frame.(bytes := partial.frame.bytes + Content(packet).value);
      Push(State(Some(partial), []), packet)
      == if parsed.boundary.completesFrame then (EMPTY, Ok(Some(grown)))
         else (State(Some(Partial(grown, packet.rtp.seqno)), []), Ok(None))
  {
    SameContent(packet, true);
    hide ParsePayload, Bytes;
    assert forall frame: Frame :: [] + [frame] == [frame] && [frame][1..] == [];
  }

  /** A packet that opens a frame does so whatever was open; that is given up, unless the new frame is complete at once. */
  lemma FirstBeginsAnew(partial: Option<Partial>, packet: Packet)
    requires partial.Some? && Kin(partial.value, packet) ==> packet.codec != Av1 && packet.rtp.seqno != (partial.value.lastSeq + 1) % 65536
    requires Opens(packet) && Content(packet).Some?
    ensures
      var parsed := ParsePayload(packet.codec, packet.payload, packet.rtp.marker, false).value;
      var begun := Frame(packet.rtp, packet.userId, packet.codec, Content(packet).value, packet.dave);
      var (next, r) := Push(State(partial, []), packet);
      if parsed.boundary.completesFrame then
        r == Ok(Some(begun)) && next == State(if partial.Some? && !Kin(partial.value, packet) then partial else None, [])
      else r == Ok(None) && next == State(Some(Partial(begun, packet.rtp.seqno)), [])
  {
    hide ParsePayload, Bytes;
    assert forall bytes: seq<byte> :: [] + bytes == bytes;
    assert forall frame: Frame :: [] + [frame] == [frame] && [frame][1..] == [];
  }

  /** A packet of another SSRC, codec or kind of protection that opens no frame leaves the open one alone. */
  lemma StrangerLeaves(partial: Partial, packet: Packet)
    requires !Kin(partial, packet) && !Opens(packet)
    ensures Absorb(State(Some(partial), []), packet).0 == State(Some(partial), [])
  {
    hide ParsePayload, Bytes;
  }

  // ----- AV1 units without a marker -----

  /** A changed timestamp ends an AV1 unit: it comes out whole before the packet is looked at. */
  lemma TimestampCloses(partial: Partial, packet: Packet)
    requires partial.frame.codec == Av1 && partial.MatchesContext(packet)
    ensures
      var (next, r) := Push(State(Some(partial), []), packet);
      var (begun, _) := Absorb(EMPTY, packet);
      packet.rtp.timestamp != partial.frame.rtp.timestamp ==>
        if r.Malformed? then next == State(begun.partial, [partial.frame] + begun.completed)
        else r == Ok(Some(partial.frame)) && next == begun
  {
    hide ParsePayload, Bytes;
    assert [] + [partial.frame] == [partial.frame];
    assert forall grown :: ([partial.frame] + [grown])[1..] == [grown];
    assert [partial.frame][1..] == [];
    assert forall grown: Frame :: [] + [grown] == [grown];
    assert [partial.frame] + [] == [partial.frame];
  }

  function Unmarked(pieces: seq<Piece>): seq<Piece> {
    seq(|pieces|, i requires 0 <= i < |pieces| => Piece(pieces[i].payload, false))
  }

  /** What AV1 pieces that neither start nor end a unit add to it. */
  function Adds(pieces: seq<Piece>): Option<seq<byte>> {
    if pieces == [] then Some([])
    else
      match ParsePayload(Av1, pieces[0].payload, false, true)
      case None => None
      case Some(parsed) =>
        var rest := Adds(pieces[1..]);
        if parsed.boundary != Boundary(false, false) || Bytes(parsed.content).None? || rest.None? then None
        else Some(Bytes(parsed.content).value + rest.value)
  }

  lemma UnmarkedCons(piece: Piece, rest: seq<Piece>)
    ensures Unmarked([piece] + rest) == [Piece(piece.payload, false)] + Unmarked(rest)
    ensures ([Piece(piece.payload, false)] + Unmarked(rest))[1..] == Unmarked(rest)
  {
  }

  lemma {:induction false} RestAdds(frame: seq<byte>, start: nat, end: nat, at: nat)
    requires start <= at < end <= |frame| && !Av1Rest(frame, start, end, at).failed
    ensures Adds(Unmarked(Av1Rest(frame, start, end, at).pieces)) == Some(frame[at..])
    decreases |frame| - at, 0
  {
    hide ParsePayload, Av1Piece, Av1From, Unmarked;
    var stop := Min(at + (MAX_PAYLOAD - 1), end);
    var rest := if stop < end then Av1Rest(frame, start, end, stop) else Av1From(frame, end);
    UnmarkedParses(frame, start, end, at, true);
    UnmarkedCons(Av1Piece(frame, start, end, at), rest.pieces);
    assert frame[at..stop] + frame[stop..] == frame[at..];
    if stop < end {
      RestAdds(frame, start, end, stop);
    } else {
      FromAdds(frame, end);
    }
  }

  lemma {:induction false} FromAdds(frame: seq<byte>, start: nat)
    requires start <= |frame| && !Av1From(frame, start).failed
    ensures Adds(Unmarked(Av1From(frame, start).pieces)) == Some(frame[start..])
    decreases |frame| - start, 1
  {
    hide Av1Piece, ObuEnd, Av1Rest;
    Av1FromStep(frame, start);
    if start < |frame| {
      RestAdds(frame, start, ObuEnd(frame, start).value, start);
    } else {
      assert Unmarked([]) == [] && frame[start..] == [];
    }
  }

  lemma UnmarkedParses(frame: seq<byte>, start: nat, end: nat, at: nat, hasPartial: bool)
    requires start <= at < end <= |frame|
    ensures
      var stop := Min(at + (MAX_PAYLOAD - 1), end);
      var parsed := ParsePayload(Av1, Av1Piece(frame, start, end, at).payload, false, hasPartial);
      && parsed == Some(Parsed(Boundary(!hasPartial && at == start, false), Av1Elements(1, frame[at..stop])))
      && Bytes(parsed.value.content) == Some(frame[at..stop])
  {
    var piece := Av1Piece(frame, start, end, at);
    Av1PieceParses(frame, start, end, at, hasPartial);
  }

  lemma {:induction false} FeedHolds(partial: Partial, stream: Stream, pieces: seq<Piece>, seqno: u16, timestamp: u32)
    requires InContext(partial, stream, seqno, timestamp) && stream.codec == Av1 && Adds(pieces).Some?
    requires forall i :: 0 <= i < |pieces| ==> !pieces[i].marker
    ensures
      var fed := Feed(State(Some(partial), []), Sent(stream, pieces, seqno, timestamp));
      && fed.frames == [] && !fed.malformed && fed.state.completed == [] && fed.state.partial.Some?
      && fed.state.partial.value.frame == partial.frame.(bytes := partial.frame.bytes + Adds(pieces).value)
    decreases |pieces|
  {
    hide ParsePayload, Bytes, Push, NextSeq, NextTimestamp;
    if pieces == [] {
      assert partial.frame.bytes + [] == partial.frame.bytes;
    } else {
      var piece := pieces[0];
      PushContinues(partial, stream, piece, seqno, timestamp);
      SameTimestamp(stream, piece, timestamp);
      var bytes := Bytes(ParsePayload(Av1, piece.payload, false, true).value.content).value;
      var grown := Partial(partial.frame.(bytes := partial.frame.bytes + bytes), seqno);
      var packets := Sent(stream, pieces, seqno, timestamp);
      assert packets[0] == PacketOf(stream, piece, seqno, timestamp);
      assert packets[1..] == Sent(stream, pieces[1..], NextSeq(seqno), timestamp);
      FeedHolds(grown, stream, pieces[1..], NextSeq(seqno), timestamp);
      Associate(partial.frame.bytes, bytes, Adds(pieces[1..]).value);
    }
  }

  /**
   * An AV1 frame whose packets carry no marker waits whole in the assembler, and is what the first packet of its sender with
   * another timestamp brings out.
   */
  lemma UnmarkedUnit(frame: seq<byte>, stream: Stream, seqno: u16, timestamp: u32, next: Packet)
    requires frame != [] && stream.codec == Av1 && !Av1From(frame, 0).failed
    requires next.rtp.ssrc == stream.ssrc && next.codec == Av1 && next.dave == stream.dave && next.rtp.timestamp != timestamp
    ensures
      var fed := Feed(EMPTY, Sent(stream, Unmarked(Av1From(frame, 0).pieces), seqno, timestamp));
      && fed.frames == [] && !fed.malformed && fed.state.completed == []
      && fed.state.partial.Some? && fed.state.partial.value.frame.bytes == frame
      && var (after, r) := Push(fed.state, next);
         if r.Malformed? then after.completed != [] && after.completed[0].bytes == frame
         else r.frame.Some? && r.frame.value.bytes == frame
  {
    hide ParsePayload, Av1Piece, Feed, Sent, ObuEnd, Av1Rest, Unmarked, Absorb, Push, Bytes, NextSeq;
    UnmarkedHeld(frame, stream, seqno, timestamp);
    var fed := Feed(EMPTY, Sent(stream, Unmarked(Av1From(frame, 0).pieces), seqno, timestamp));
    TimestampCloses(fed.state.partial.value, next);
  }

  lemma UnmarkedHeld(frame: seq<byte>, stream: Stream, seqno: u16, timestamp: u32)
    requires frame != [] && stream.codec == Av1 && !Av1From(frame, 0).failed
    ensures
      var fed := Feed(EMPTY, Sent(stream, Unmarked(Av1From(frame, 0).pieces), seqno, timestamp));
      && fed.frames == [] && !fed.malformed && fed.state.completed == [] && fed.state.partial.Some?
      && var f := fed.state.partial.value.frame;
         f.bytes == frame && f.codec == Av1 && f.dave == stream.dave && f.rtp.ssrc == stream.ssrc && f.rtp.timestamp == timestamp
  {
    hide ParsePayload, Av1Piece, ObuEnd, Unmarked, Push, NextSeq, NextTimestamp;
    Av1FromStep(frame, 0);
    var end := ObuEnd(frame, 0).value;
    var stop := Min(0 + (MAX_PAYLOAD - 1), end);
    var first := Av1Piece(frame, 0, end, 0);
    var rest := if stop < end then Av1Rest(frame, 0, end, stop) else Av1From(frame, end);
    UnmarkedCons(first, rest.pieces);
    UnmarkedParses(frame, 0, end, 0, false);
    if stop < end {
      RestAdds(frame, 0, end, stop);
    } else {
      FromAdds(frame, end);
    }
    var bare, more := Piece(first.payload, false), Unmarked(rest.pieces);
    PushBegins(stream, bare, seqno, timestamp);
    SameTimestamp(stream, bare, timestamp);
    assert ([bare] + more)[1..] == more;
    var packets := Sent(stream, [bare] + more, seqno, timestamp);
    assert packets[0] == PacketOf(stream, bare, seqno, timestamp);
    assert packets[1..] == Sent(stream, more, NextSeq(seqno), timestamp);
    var partial := Partial(NewPartial(packets[0]).frame.(bytes := frame[0..stop]), seqno);
    NoMarker(rest.pieces);
    FeedHolds(partial, stream, more, NextSeq(seqno), timestamp);
    assert frame[0..stop] + frame[stop..] == frame;
  }

  lemma NoMarker(pieces: seq<Piece>)
    ensures forall i :: 0 <= i < |Unmarked(pieces)| ==> !Unmarked(pieces)[i].marker
  {
  }
}
