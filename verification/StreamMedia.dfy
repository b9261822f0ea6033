/** Streams of frames through packets, a reordering network, the reorder buffer and the assembler. */
module StreamMedia {
  import opened Prelude
  import opened Codecs
  import opened RtpPayload
  import opened Assembler
  import opened Packetizer
  import opened MediaPath
  import opened Reorder
  import opened ReorderRun
  import opened ReorderedMedia
  import opened Arrivals
  import opened Interleave
  import H26xFrame
  import H26xMediaPath
  import AnnexB

  // ----- Packets of a stream -----

  function SeqAfter(pieces: seq<Piece>, seqno: u16): u16 {
    if pieces == [] then seqno else SeqAfter(pieces[1..], NextSeq(seqno))
  }

  function TimeAfter(stream: Stream, pieces: seq<Piece>, timestamp: u32): u32 {
    if pieces == [] then timestamp
    else TimeAfter(stream, pieces[1..], NextTimestamp(timestamp, stream.codec.Opus? || pieces[0].marker, stream.increment))
  }

  lemma {:induction false} SentAppend(stream: Stream, a: seq<Piece>, b: seq<Piece>, seqno: u16, timestamp: u32)
    ensures Sent(stream, a + b, seqno, timestamp)
            == Sent(stream, a, seqno, timestamp) + Sent(stream, b, SeqAfter(a, seqno), TimeAfter(stream, a, timestamp))
    decreases |a|
  {
    hide NextSeq, NextTimestamp, PacketOf;
    if a == [] {
      assert a + b == b;
    } else {
      assert (a + b)[1..] == a[1..] + b;
      SentAppend(stream, a[1..], b, NextSeq(seqno), NextTimestamp(timestamp, stream.codec.Opus? || a[0].marker, stream.increment));
    }
  }

  lemma {:induction false} SentNumbers(stream: Stream, pieces: seq<Piece>, seqno: u16, timestamp: u32, i: nat)
    requires i < |pieces|
    ensures |Sent(stream, pieces, seqno, timestamp)| == |pieces|
    ensures Sent(stream, pieces, seqno, timestamp)[i].rtp.seqno == Wire(seqno + i)
    decreases |pieces|
  {
    hide NextTimestamp;
    var later := NextTimestamp(timestamp, stream.codec.Opus? || pieces[0].marker, stream.increment);
    var rest := Sent(stream, pieces[1..], NextSeq(seqno), later);
    if |pieces| > 1 {
      SentNumbers(stream, pieces[1..], NextSeq(seqno), later, if i == 0 then 0 else i - 1);
    }
    if i > 0 {
      assert Sent(stream, pieces, seqno, timestamp)[i] == rest[i - 1];
      NextWire(seqno, i - 1);
    }
  }

  lemma NextWire(seqno: u16, i: nat)
    ensures Wire(NextSeq(seqno) + i) == Wire(seqno + i + 1)
  {
  }

  function Markers(pieces: seq<Piece>): nat {
    if pieces == [] then 0 else (if pieces[0].marker then 1 else 0) + Markers(pieces[1..])
  }

  /** How often the timestamp moves: with every Opus packet, and behind every marker of a video. */
  function Moves(stream: Stream, pieces: seq<Piece>): nat {
    if stream.codec.Opus? then |pieces| else Markers(pieces)
  }

  lemma MovesStep(stream: Stream, pieces: seq<Piece>, i: nat)
    requires 0 < i <= |pieces|
    ensures Moves(stream, pieces[..i])
            == (if stream.codec.Opus? || pieces[0].marker then 1 else 0) + Moves(stream, pieces[1..][..i - 1])
  {
    assert pieces[..i][1..] == pieces[1..][..i - 1];
  }

  lemma LaterTime(timestamp: u32, increment: u32, moves: nat)
    ensures ((timestamp + increment) % 0x1_0000_0000 + increment * moves) % 0x1_0000_0000
            == (timestamp + increment * (1 + moves)) % 0x1_0000_0000
  {
    var more := increment * moves;
    assert increment * (1 + moves) == increment + more;
    WrapsOnce(timestamp + increment, more);
  }

  lemma WrapsOnce(a: nat, b: nat)
    ensures (a % 0x1_0000_0000 + b) % 0x1_0000_0000 == (a + b) % 0x1_0000_0000
  {
  }

  /** The time of every packet: the first one's, moved on once for everything before it that moves it. */
  lemma {:induction false} SentTimes(stream: Stream, pieces: seq<Piece>, seqno: u16, timestamp: u32, i: nat)
    requires i < |pieces|
    ensures
      var packets := Sent(stream, pieces, seqno, timestamp);
      && |packets| == |pieces|
      && packets[i].rtp.timestamp == (timestamp + stream.increment * Moves(stream, pieces[..i])) % 0x1_0000_0000
      && packets[i].rtp.marker == pieces[i].marker && packets[i].rtp.ssrc == stream.ssrc && packets[i].payload == pieces[i].payload
    decreases |pieces|
  {
    hide Moves;
    SentNumbers(stream, pieces, seqno, timestamp, i);
    if i == 0 {
      NoMoves(stream, pieces[..0]);
    } else {
      var moves := stream.codec.Opus? || pieces[0].marker;
      var later := NextTimestamp(timestamp, moves, stream.increment);
      SentTimes(stream, pieces[1..], NextSeq(seqno), later, i - 1);
      MovesStep(stream, pieces, i);
      if moves {
        LaterTime(timestamp, stream.increment, Moves(stream, pieces[1..][..i - 1]));
      }
    }
  }

  lemma NoMoves(stream: Stream, pieces: seq<Piece>)
    requires pieces == []
    ensures Moves(stream, pieces) == 0 && stream.increment * Moves(stream, pieces) == 0
  {
  }

  lemma SentNumbered(stream: Stream, pieces: seq<Piece>, seqno: u16, timestamp: u32)
    ensures |Sent(stream, pieces, seqno, timestamp)| == |pieces| && Numbered(Sent(stream, pieces, seqno, timestamp))
  {
    hide Wire, Sent;
    var packets := Sent(stream, pieces, seqno, timestamp);
    forall i | 0 <= i < |pieces|
      ensures |packets| == |pieces| && packets[i].rtp.seqno == Wire(packets[0].rtp.seqno + i)
    {
      SentNumbers(stream, pieces, seqno, timestamp, i);
      SentNumbers(stream, pieces, seqno, timestamp, 0);
      SmallWire(seqno);
    }
    if pieces == [] {
      NothingSent(stream, seqno, timestamp);
    } else {
      SentNumbers(stream, pieces, seqno, timestamp, 0);
    }
  }

  lemma SmallWire(seqno: u16)
    ensures Wire(seqno + 0) == seqno
  {
  }

  lemma NothingSent(stream: Stream, seqno: u16, timestamp: u32)
    ensures Sent(stream, [], seqno, timestamp) == []
  {
  }

  lemma {:induction false} FeedAppend(s: State, a: seq<Packet>, b: seq<Packet>)
    ensures
      var first := Feed(s, a);
      var second := Feed(first.state, b);
      Feed(s, a + b) == Fed(second.state, first.frames + second.frames, first.malformed || second.malformed)
    decreases |a|
  {
    hide Assembler.Push;
    if a == [] {
      assert a + b == b;
      assert [] + Feed(s, b).frames == Feed(s, b).frames;
    } else {
      assert (a + b)[1..] == a[1..] + b;
      FeedAppend(Assembler.Push(s, a[0]).0, a[1..], b);
    }
  }

  // ----- Frames -----

  function BytesOf(frames: seq<Frame>): seq<seq<byte>> {
    seq(|frames|, i requires 0 <= i < |frames| => frames[i].bytes)
  }

  /** From whatever number and time on, the pieces give an assembler with no partial exactly this frame, without an error. */
  ghost predicate Carries(stream: Stream, pieces: seq<Piece>, bytes: seq<byte>) {
    forall seqno: u16, timestamp: u32 :: CarriesAt(stream, pieces, bytes, seqno, timestamp)
  }

  ghost predicate CarriesAt(stream: Stream, pieces: seq<Piece>, bytes: seq<byte>, seqno: u16, timestamp: u32) {
    var fed := Feed(EMPTY, Sent(stream, pieces, seqno, timestamp));
    fed.state == EMPTY && !fed.malformed && |fed.frames| == 1 && fed.frames[0].bytes == bytes
  }

  /** One frame's pieces and the bytes they carry. */
  datatype Item = Item(pieces: seq<Piece>, bytes: seq<byte>)

  function AllPieces(items: seq<Item>): seq<Piece> {
    if items == [] then [] else items[0].pieces + AllPieces(items[1..])
  }

  function AllBytes(items: seq<Item>): seq<seq<byte>> {
    seq(|items|, i requires 0 <= i < |items| => items[i].bytes)
  }

  ghost predicate AllCarried(stream: Stream, items: seq<Item>) {
    forall i :: 0 <= i < |items| ==> Carries(stream, items[i].pieces, items[i].bytes)
  }

  /** A stream of frames fed in sequence gives the frames in order. */
  lemma {:induction false} FeedItems(stream: Stream, items: seq<Item>, seqno: u16, timestamp: u32)
    requires AllCarried(stream, items)
    ensures
      var fed := Feed(EMPTY, Sent(stream, AllPieces(items), seqno, timestamp));
      fed.state == EMPTY && BytesOf(fed.frames) == AllBytes(items)
    decreases |items|
  {
    if items == [] {
      NothingSent(stream, seqno, timestamp);
    } else {
      hide Feed, Sent, SeqAfter, TimeAfter, AllCarried;
      var head, rest := items[0], items[1..];
      CarriedStep(stream, items, seqno, timestamp);
      var seqno', timestamp' := SeqAfter(head.pieces, seqno), TimeAfter(stream, head.pieces, timestamp);
      FeedItems(stream, rest, seqno', timestamp');
      SentAppend(stream, head.pieces, AllPieces(rest), seqno, timestamp);
      FeedAppend(EMPTY, Sent(stream, head.pieces, seqno, timestamp), Sent(stream, AllPieces(rest), seqno', timestamp'));
      BytesAppend(Feed(EMPTY, Sent(stream, head.pieces, seqno, timestamp)).frames,
                  Feed(EMPTY, Sent(stream, AllPieces(rest), seqno', timestamp')).frames);
      assert AllBytes(items) == [head.bytes] + AllBytes(rest);
    }
  }

  lemma CarriedStep(stream: Stream, items: seq<Item>, seqno: u16, timestamp: u32)
    requires AllCarried(stream, items) && items != []
    ensures AllCarried(stream, items[1..]) && CarriesAt(stream, items[0].pieces, items[0].bytes, seqno, timestamp)
  {
    hide CarriesAt;
    assert Carries(stream, items[0].pieces, items[0].bytes);
  }

  lemma BytesAppend(a: seq<Frame>, b: seq<Frame>)
    ensures BytesOf(a + b) == BytesOf(a) + BytesOf(b)
    ensures |a| == 1 ==> BytesOf(a) == [a[0].bytes]
  {
  }

  /** What is asked of the arrivals of a stream: see `Orderly`, `Complete` and `Drained`. */
  ghost predicate Serves(plan: seq<Moment>, packets: seq<Packet>, ssrc: u32, tuning: Tuning) {
    && Orderly(plan, packets, tuning) && First(plan).Some? && Complete(plan, |packets|)
    && Drained(plan, packets, ssrc, tuning) && !HasReady(Run(Calls(plan, packets), ssrc, tuning).state)
  }

  /**
   * A stream of frames over a reordering network. The packets come in any order within the window, each at least
   * once, the stream's first packet first; then exactly the frames come out, in order, and nothing is left over.
   */
  lemma StreamDelivered(stream: Stream, items: seq<Item>, seqno: u16, timestamp: u32, plan: seq<Moment>, tuning: Tuning)
    requires AllCarried(stream, items)
    requires
      var packets := Sent(stream, AllPieces(items), seqno, timestamp);
      Serves(plan, packets, stream.ssrc, tuning) && First(plan) == Some(0)
    ensures
      var calls := Calls(plan, Sent(stream, AllPieces(items), seqno, timestamp));
      && BytesOf(Outputs(calls, stream.ssrc, tuning)) == AllBytes(items)
      && Run(calls, stream.ssrc, tuning).state.assembler == EMPTY
  {
    hide Run, Outputs, Feed, Sent, First, HasReady, Orderly, Drained, AllPieces, AllCarried, BytesOf;
    var packets := Sent(stream, AllPieces(items), seqno, timestamp);
    FramesOut(plan, packets, stream.ssrc, tuning);
    FeedItems(stream, items, seqno, timestamp);
    assert packets[0..] == packets;
    var frames := Feed(EMPTY, packets).frames;
    assert frames + [] == frames;
  }

  // ----- The codecs -----

  lemma VpxCarries(header: VpxHeader, frame: seq<byte>, stream: Stream)
    requires frame != [] && stream.codec == VpxCodec(header)
    ensures Carries(stream, VpxPieces(header, frame, 0), frame)
  {
    hide VpxPieces, Sent, Feed;
    forall seqno: u16, timestamp: u32
      ensures CarriesAt(stream, VpxPieces(header, frame, 0), frame, seqno, timestamp)
    {
      VpxRoundTrip(header, frame, stream, seqno, timestamp);
    }
  }

  lemma Av1Carries(frame: seq<byte>, stream: Stream)
    requires frame != [] && stream.codec == Av1 && !Av1From(frame, 0).failed
    ensures Carries(stream, Av1From(frame, 0).pieces, frame)
  {
    hide Av1From, Sent, Feed;
    forall seqno: u16, timestamp: u32
      ensures CarriesAt(stream, Av1From(frame, 0).pieces, frame, seqno, timestamp)
    {
      Av1RoundTrip(frame, stream, seqno, timestamp);
    }
  }

  lemma OpusCarries(frame: seq<byte>, stream: Stream)
    requires stream.codec.Opus? && |frame| <= MAX_PAYLOAD
    ensures Carries(stream, [Piece(frame, false)], frame)
  {
    hide Sent, Feed;
    forall seqno: u16, timestamp: u32
      ensures CarriesAt(stream, [Piece(frame, false)], frame, seqno, timestamp)
    {
      OpusRoundTrip(frame, stream, seqno, timestamp);
    }
  }

  /** H264 and H265: exactly when no unit after the first is fragmented. */
  lemma H26xCarries(codec: H26xFrame.H26x, units: seq<seq<byte>>, stream: Stream)
    requires H26xMediaPath.AllSendable(codec, units) && units != [] && stream.codec == H26xMediaPath.CodecOf(codec)
    ensures Carries(stream, H26xPieces(codec, units), AnnexB.Join(units)) <==> !H26xMediaPath.AnyFragmented(units[1..])
  {
    hide H26xPieces, Sent, Feed, H26xMediaPath.AnyFragmented, AnnexB.Join;
    forall seqno: u16, timestamp: u32
      ensures CarriesAt(stream, H26xPieces(codec, units), AnnexB.Join(units), seqno, timestamp)
              <==> !H26xMediaPath.AnyFragmented(units[1..])
    {
      H26xMediaPath.H26xRoundTrip(codec, units, stream, seqno, timestamp);
    }
    assert Carries(stream, H26xPieces(codec, units), AnnexB.Join(units)) ==>
             CarriesAt(stream, H26xPieces(codec, units), AnnexB.Join(units), 0, 0);
  }

  // ----- VP8 and VP9 when another packet comes first -----

  function VpxItems(header: VpxHeader, frames: seq<seq<byte>>): seq<Item> {
    seq(|frames|, i requires 0 <= i < |frames| => Item(VpxPieces(header, frames[i], 0), frames[i]))
  }

  /** The frames that begin at or after piece `first` of the stream. */
  function Beginning(header: VpxHeader, frames: seq<seq<byte>>, first: nat): seq<seq<byte>> {
    if frames == [] || first == 0 then frames
    else
      var n := |VpxPieces(header, frames[0], 0)|;
      if first < n then frames[1..] else Beginning(header, frames[1..], first - n)
  }

  lemma {:induction false} BeginningFewer(header: VpxHeader, frames: seq<seq<byte>>, first: nat)
    ensures |Beginning(header, frames, first)| <= |frames|
    ensures frames != [] && first > 0 ==> |Beginning(header, frames, first)| < |frames|
    decreases |frames|
  {
    hide VpxPieces;
    if frames != [] && first > 0 && first >= |VpxPieces(header, frames[0], 0)| {
      BeginningFewer(header, frames[1..], first - |VpxPieces(header, frames[0], 0)|);
    }
  }

  lemma VpxItemsCarried(header: VpxHeader, frames: seq<seq<byte>>, stream: Stream)
    requires stream.codec == VpxCodec(header) && forall i :: 0 <= i < |frames| ==> frames[i] != []
    ensures AllCarried(stream, VpxItems(header, frames)) && AllBytes(VpxItems(header, frames)) == frames
  {
    hide Carries, VpxPieces;
    forall i | 0 <= i < |frames|
      ensures Carries(stream, VpxItems(header, frames)[i].pieces, VpxItems(header, frames)[i].bytes)
    {
      VpxCarries(header, frames[i], stream);
    }
  }

  /** Pieces that are not the first of their frame make an assembler with no partial do nothing. */
  lemma {:induction false} VpxTailIgnored(header: VpxHeader, frame: seq<byte>, offset: nat, stream: Stream, seqno: u16,
                                          timestamp: u32)
    requires 0 < offset && stream.codec == VpxCodec(header)
    ensures Feed(EMPTY, Sent(stream, VpxPieces(header, frame, offset), seqno, timestamp)) == Fed(EMPTY, [], false)
    decreases |frame| - offset
  {
    if offset >= |frame| {
      NothingSent(stream, seqno, timestamp);
    } else {
      hide ParsePayload, VpxPiece, Bytes, NextSeq, NextTimestamp;
      var piece := VpxPiece(header, frame, offset);
      var end := Min(offset + (MAX_PAYLOAD - 1), |frame|);
      VpxPieceParses(header, frame, offset, false);
      var later := NextTimestamp(timestamp, stream.codec.Opus? || piece.marker, stream.increment);
      VpxTailIgnored(header, frame, end, stream, NextSeq(seqno), later);
      var pieces := VpxPieces(header, frame, offset);
      assert pieces == [piece] + VpxPieces(header, frame, end) && pieces[1..] == VpxPieces(header, frame, end);
      var packets := Sent(stream, pieces, seqno, timestamp);
      assert packets[0] == PacketOf(stream, piece, seqno, timestamp);
      assert packets[1..] == Sent(stream, VpxPieces(header, frame, end), NextSeq(seqno), later);
      Ignored(packets[0]);
    }
  }

  lemma Ignored(packet: Packet)
    requires
      var parsed := ParsePayload(packet.codec, packet.payload, packet.rtp.marker, false);
      parsed.Some? && !parsed.value.boundary.startsFrame
    ensures Assembler.Push(EMPTY, packet) == (EMPTY, Ok(None))
  {
    hide ParsePayload, Bytes;
  }

  /** Without its first `n` pieces a frame is cut from further on. */
  lemma {:induction false} VpxDrop(header: VpxHeader, frame: seq<byte>, offset: nat, n: nat) returns (at: nat)
    requires n <= |VpxPieces(header, frame, offset)|
    ensures offset <= at && (n > 0 ==> offset < at)
    ensures VpxPieces(header, frame, offset)[n..] == VpxPieces(header, frame, at)
    decreases n
  {
    hide VpxPiece;
    var pieces := VpxPieces(header, frame, offset);
    if n == 0 {
      at := offset;
      assert pieces[0..] == pieces;
    } else {
      var end := Min(offset + (MAX_PAYLOAD - 1), |frame|);
      at := VpxDrop(header, frame, end, n - 1);
      assert pieces[n..] == pieces[1..][n - 1..];
    }
  }

  lemma VpxItemsStep(header: VpxHeader, frames: seq<seq<byte>>)
    requires frames != []
    ensures AllPieces(VpxItems(header, frames))
            == VpxPieces(header, frames[0], 0) + AllPieces(VpxItems(header, frames[1..]))
  {
    hide VpxPieces;
    assert VpxItems(header, frames)[1..] == VpxItems(header, frames[1..]);
  }

  /** Feeding the stream from piece `first` on gives the frames that begin there or later. */
  lemma {:induction false} FeedFrom(header: VpxHeader, frames: seq<seq<byte>>, first: nat, stream: Stream, seqno: u16,
                                    timestamp: u32)
    requires stream.codec == VpxCodec(header) && forall i :: 0 <= i < |frames| ==> frames[i] != []
    requires first <= |AllPieces(VpxItems(header, frames))|
    ensures
      var fed := Feed(EMPTY, Sent(stream, AllPieces(VpxItems(header, frames))[first..], seqno, timestamp));
      fed.state == EMPTY && BytesOf(fed.frames) == Beginning(header, frames, first)
    decreases |frames|
  {
    hide Feed, Sent, VpxPieces, AllPieces, VpxItems, BytesOf, Carries;
    var items := VpxItems(header, frames);
    if frames == [] || first == 0 {
      SomeFrame(header, frames);
      VpxItemsCarried(header, frames, stream);
      FeedItems(stream, items, seqno, timestamp);
      assert AllPieces(items)[first..] == AllPieces(items);
    } else {
      VpxItemsStep(header, frames);
      var head, rest := VpxPieces(header, frames[0], 0), AllPieces(VpxItems(header, frames[1..]));
      if first < |head| {
        assert (head + rest)[first..] == head[first..] + rest;
        FeedInside(header, frames, first, stream, seqno, timestamp);
      } else {
        assert (head + rest)[first..] == rest[first - |head|..];
        FeedFrom(header, frames[1..], first - |head|, stream, seqno, timestamp);
      }
    }
  }

  lemma FeedInside(header: VpxHeader, frames: seq<seq<byte>>, first: nat, stream: Stream, seqno: u16, timestamp: u32)
    requires stream.codec == VpxCodec(header) && frames != [] && forall i :: 0 <= i < |frames| ==> frames[i] != []
    requires 0 < first < |VpxPieces(header, frames[0], 0)|
    ensures
      var rest := AllPieces(VpxItems(header, frames[1..]));
      var fed := Feed(EMPTY, Sent(stream, VpxPieces(header, frames[0], 0)[first..] + rest, seqno, timestamp));
      fed.state == EMPTY && BytesOf(fed.frames) == frames[1..]
  {
    hide Feed, Sent, VpxPieces, SeqAfter, TimeAfter, AllPieces, BytesOf, VpxItems, Carries;
    var tail, rest := VpxPieces(header, frames[0], 0)[first..], AllPieces(VpxItems(header, frames[1..]));
    var at := VpxDrop(header, frames[0], 0, first);
    VpxTailIgnored(header, frames[0], at, stream, seqno, timestamp);
    var seqno', timestamp' := SeqAfter(tail, seqno), TimeAfter(stream, tail, timestamp);
    SentAppend(stream, tail, rest, seqno, timestamp);
    FeedAppend(EMPTY, Sent(stream, tail, seqno, timestamp), Sent(stream, rest, seqno', timestamp'));
    VpxItemsCarried(header, frames[1..], stream);
    FeedItems(stream, VpxItems(header, frames[1..]), seqno', timestamp');
    var frames' := Feed(EMPTY, Sent(stream, rest, seqno', timestamp')).frames;
    assert [] + frames' == frames';
  }

  /**
   * VP8 and VP9, whichever packet comes first: exactly the frames that begin at or after it come out, in order.
   * These are all of the stream if and only if the stream's own first packet comes first.
   */
  lemma VpxStream(header: VpxHeader, frames: seq<seq<byte>>, stream: Stream, seqno: u16, timestamp: u32,
                  plan: seq<Moment>, tuning: Tuning)
    requires stream.codec == VpxCodec(header) && forall i :: 0 <= i < |frames| ==> frames[i] != []
    requires Serves(plan, Sent(stream, AllPieces(VpxItems(header, frames)), seqno, timestamp), stream.ssrc, tuning)
    ensures
      var calls := Calls(plan, Sent(stream, AllPieces(VpxItems(header, frames)), seqno, timestamp));
      var bytes := BytesOf(Outputs(calls, stream.ssrc, tuning));
      && bytes == Beginning(header, frames, First(plan).value)
      && (bytes == frames <==> First(plan) == Some(0))
      && Run(calls, stream.ssrc, tuning).state.assembler == EMPTY
  {
    hide Run, Outputs, Feed, Sent, First, HasReady, Orderly, Drained, AllPieces, BytesOf, VpxItems, Beginning;
    var pieces := AllPieces(VpxItems(header, frames));
    var packets, first := Sent(stream, pieces, seqno, timestamp), First(plan).value;
    SentNumbered(stream, pieces, seqno, timestamp);
    FramesOut(plan, packets, stream.ssrc, tuning);
    SentDrop(stream, pieces, first, seqno, timestamp);
    var before := pieces[..first];
    FeedFrom(header, frames, first, stream, SeqAfter(before, seqno), TimeAfter(stream, before, timestamp));
    var out := Feed(EMPTY, packets[first..]).frames;
    assert out + [] == out;
    BeginningFewer(header, frames, first);
    BeginsAtStart(header, frames);
    SomeFrame(header, frames);
  }

  lemma BeginsAtStart(header: VpxHeader, frames: seq<seq<byte>>)
    ensures Beginning(header, frames, 0) == frames
  {
  }

  lemma SomeFrame(header: VpxHeader, frames: seq<seq<byte>>)
    ensures frames == [] ==> AllPieces(VpxItems(header, frames)) == []
  {
  }

  lemma SentDrop(stream: Stream, pieces: seq<Piece>, n: nat, seqno: u16, timestamp: u32)
    requires n <= |pieces| == |Sent(stream, pieces, seqno, timestamp)|
    ensures
      var before := pieces[..n];
      Sent(stream, pieces, seqno, timestamp)[n..]
      == Sent(stream, pieces[n..], SeqAfter(before, seqno), TimeAfter(stream, before, timestamp))
  {
    hide Sent;
    var before := pieces[..n];
    SentAppend(stream, before, pieces[n..], seqno, timestamp);
    SentNumbered(stream, before, seqno, timestamp);
    assert pieces == before + pieces[n..];
  }
}
