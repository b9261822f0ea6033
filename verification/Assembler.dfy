/** Assembling frames from ordered RTP packets (cacophony/src/media.rs). */
module Assembler {
  import opened Prelude
  import opened Codecs
  import opened RtpPayload
  import AnnexB

  datatype Header = Header(marker: bool, seqno: u16, timestamp: u32, ssrc: u32)

  datatype Packet = Packet(rtp: Header, userId: Option<u64>, codec: Codec, payload: seq<byte>, dave: bool)

  /** An assembled frame; `rtp` is the header of the packet it began with. */
  datatype Frame = Frame(rtp: Header, userId: Option<u64>, codec: Codec, bytes: seq<byte>, dave: bool)

  datatype Partial = Partial(frame: Frame, lastSeq: u16) {
    predicate MatchesContext(packet: Packet) {
      frame.rtp.ssrc == packet.rtp.ssrc && frame.codec == packet.codec && frame.dave == packet.dave
    }

    predicate AcceptsNext(packet: Packet) {
      MatchesContext(packet) && packet.rtp.seqno == (lastSeq + 1) % 0x1_0000
    }

    /** An AV1 temporal unit also ends where the timestamp changes. */
    predicate ShouldCompleteBefore(packet: Packet) {
      frame.codec == Av1 && MatchesContext(packet) && frame.rtp.timestamp != packet.rtp.timestamp
    }
  }

  function NewPartial(packet: Packet): Partial {
    Partial(Frame(packet.rtp, packet.userId, packet.codec, [], packet.dave), packet.rtp.seqno)
  }

  /** The assembler's state: the frame under assembly and the completed ones not yet taken. */
  datatype State = State(partial: Option<Partial>, completed: seq<Frame>)

  datatype Result = Ok(frame: Option<Frame>) | Malformed

  const EMPTY := State(None, [])

  /** An AV1 unit that the packet's timestamp closes is completed first. */
  function Closed(s: State, packet: Packet): State {
    if s.partial.Some? && s.partial.value.ShouldCompleteBefore(packet)
    then State(None, s.completed + [s.partial.value.frame]) else s
  }

  function PopCompleted(s: State): (State, Option<Frame>) {
    if s.completed == [] then (s, None) else (s.(completed := s.completed[1..]), Some(s.completed[0]))
  }

  /** The state once a packet is taken in, and whether it was well formed. */
  function Absorb(s: State, packet: Packet): (State, bool) {
    var s := Closed(s, packet);
    var continues := s.partial.Some? && s.partial.value.AcceptsNext(packet);
    var s := if !continues && s.partial.Some? && s.partial.value.MatchesContext(packet) then s.(partial := None) else s;
    match ParsePayload(packet.codec, packet.payload, packet.rtp.marker, continues)
    case None => (s, false)
    case Some(parsed) =>
      if !continues && !parsed.boundary.startsFrame then (s, true)
      else
        var resumed := continues && !parsed.boundary.startsFrame;
        var base := if resumed then s.partial.value else NewPartial(packet);
        var s := if resumed then s.(partial := None) else s;
        match Bytes(parsed.content)
        case None => (s, false)
        case Some(bytes) =>
          var grown := Partial(base.frame.(bytes := base.frame.bytes + bytes), packet.rtp.seqno);
          (if parsed.boundary.completesFrame then s.(completed := s.completed + [grown.frame])
           else s.(partial := Some(grown)), true)
  }

  /** The state after a packet and what `push_packet` returns: the first completed frame, if any. */
  function Push(s: State, packet: Packet): (State, Result) {
    var (t, wellFormed) := Absorb(s, packet);
    if !wellFormed then (t, Malformed)
    else
      var (next, frame) := PopCompleted(t);
      (next, Ok(frame))
  }

  class RtpFrameAssembler {
    var partial: Option<Partial>
    var completed: seq<Frame>

    ghost function Value(): State
      reads this
    {
      State(partial, completed)
    }

    constructor ()
      ensures Value() == EMPTY
    {
      partial, completed := None, [];
    }

    method AppendDepacketized(content: Depacketized) returns (r: Option<seq<byte>>)
      ensures r == Bytes(content)
    {
      match content {
        case Raw(payload) => return Some(payload);
        case H26xNalu(nalu) => return Some(AnnexB.LONG_START_CODE + nalu);
        case H26xAggregation(units) => r := AppendAggregation(units);
        case H26xFragment(starts, _, header, fragment) =>
          return Some((if starts then AnnexB.LONG_START_CODE + header else []) + fragment);
        case Av1Elements(w, elements) => r := AppendElements(w, elements);
      }
    }

    method PopFirst() returns (r: Option<Frame>)
      modifies this`completed
      ensures (State(partial, completed), r) == old(PopCompleted(Value()))
    {
      if completed == [] {
        return None;
      }
      r := Some(completed[0]);
      completed := completed[1..];
    }

    method PushPacket(packet: Packet) returns (r: Result)
      modifies this
      ensures (Value(), r) == Push(old(Value()), packet)
    {
      hide ParsePayload, Bytes;
      if partial.Some? && partial.value.ShouldCompleteBefore(packet) {
        completed := completed + [partial.value.frame];
        partial := None;
      }
      var continues := partial.Some? && partial.value.AcceptsNext(packet);
      if !continues && partial.Some? && partial.value.MatchesContext(packet) {
        partial := None;
      }
      var parsed := ParsePayload(packet.codec, packet.payload, packet.rtp.marker, continues);
      if parsed.None? {
        return Malformed;
      }
      var boundary := parsed.value.boundary;
      if !continues && !boundary.startsFrame {
        var frame := PopFirst();
        return Ok(frame);
      }
      var grown := NewPartial(packet);
      if continues && !boundary.startsFrame {
        grown := partial.value;
        partial := None;
      }
      var bytes := AppendDepacketized(parsed.value.content);
      if bytes.None? {
        return Malformed;
      }
      grown := Partial(grown.frame.(bytes := grown.frame.bytes + bytes.value), packet.rtp.seqno);
      if boundary.completesFrame {
        completed := completed + [grown.frame];
      } else {
        partial := Some(grown);
      }
      var frame := PopFirst();
      return Ok(frame);
    }

    method Clear()
      modifies this
      ensures Value() == EMPTY
    {
      partial, completed := None, [];
    }
  }
}
