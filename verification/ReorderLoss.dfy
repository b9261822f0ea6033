/**
 * Packets that arrived and are given up all the same (cacophony/src/state.rs). Numbers already buffered are
 * recorded as missing too, so an expiry can pass over a buffered packet and leave it behind the next
 * position, and a jump throws the whole buffer away.
 */
module ReorderLoss {
  import opened Prelude
  import opened Codecs
  import opened Assembler
  import opened Reorder
  import opened ReorderRun

  /** The arrival is buffered ahead of its turn. */
  predicate Buffers(s: Ssrc, call: Call, tuning: Tuning) {
    && call.op.Arrive? && s.next.Some? && call.op.packet.rtp.seqno !in s.pending
    && var forward := Forward(s.next.value, call.op.packet.rtp.seqno);
       0 < forward < HALF && forward <= tuning.maxFrames
  }

  /** The arrival is too far ahead. */
  predicate Jumps(s: Ssrc, call: Call, tuning: Tuning) {
    && call.op.Arrive? && s.next.Some?
    && var forward := Forward(s.next.value, call.op.packet.rtp.seqno);
       0 < forward < HALF && forward > tuning.maxFrames
  }

  /** The packets in the buffer once the arrival has joined it. */
  function Held(s: Ssrc, call: Call, tuning: Tuning): map<u16, Packet> {
    if Buffers(s, call, tuning) then s.pending[call.op.packet.rtp.seqno := call.op.packet] else s.pending
  }

  /** Where the missing block ends once the arrival has extended it. */
  function BlockEnd(s: Ssrc, call: Call): nat
    requires call.op.Arrive? && s.next.Some?
  {
    var forward := Forward(s.next.value, call.op.packet.rtp.seqno);
    if |s.gap| < forward then forward else |s.gap|
  }

  /** Before the call: the packet `ahead` positions ahead is going to be passed over. */
  predicate Strands(s: Ssrc, call: Call, tuning: Tuning, ahead: nat) {
    match call.op
    case Release => false
    case TimeOut => ahead < |s.gap| && Expired(s.gap[ahead], call.now, tuning.ttl)
    case Arrive(_) => Buffers(s, call, tuning) && |s.pending| >= tuning.maxFrames && ahead < BlockEnd(s, call)
  }

  ghost predicate Hands(step: Step, seqno: u16) {
    exists i :: 0 <= i < |step.events| && step.events[i].Handed? && step.events[i].packet.rtp.seqno == seqno
  }

  /** Still in the buffer, but behind the next position. */
  ghost predicate LeftBehind(step: Step, seqno: u16) {
    seqno in step.state.pending && step.state.next.Some? && Forward(step.state.next.value, seqno) >= HALF
  }

  /** Out of the buffer without being handed over. */
  ghost predicate Discarded(step: Step, seqno: u16) {
    seqno !in step.state.pending && !Hands(step, seqno)
  }

  /** The step reports the position lost. */
  ghost predicate Reports(step: Step, from: nat, position: nat) {
    && |step.events| > 0 && step.events[0].Lost?
    && step.events[0].report.firstSeq == Wire(from) && from <= position < from + step.events[0].report.count
  }

  /** Moving on by `m` leaves behind exactly the numbers whose turn was among the `m`. */
  lemma ForwardMoved(n: nat, m: nat, seqno: u16)
    requires Forward(n, seqno) < HALF && m <= HALF
    ensures Forward(n + m, seqno) >= HALF <==> Forward(n, seqno) < m
  {
  }

  lemma ForwardZero(n: nat, seqno: u16)
    requires Forward(n, seqno) == 0
    ensures seqno == Wire(n)
  {
    WireForward(n, seqno);
  }

  // ----- Expiry -----

  /** Timed or forced: a buffered packet is passed over exactly when its own entry is given up, and is then reported. */
  lemma ExpireStrands(s: Ssrc, ssrc: u32, now: nat, tuning: Tuning, force: bool, seqno: u16)
    requires Sound(s, now, tuning) && s.next.Some? && seqno in s.pending && Forward(s.next.value, seqno) < HALF
    ensures
      var step, ahead := Expire(s, ssrc, now, tuning.ttl, force), Forward(s.next.value, seqno);
      && (LeftBehind(step, seqno) <==> ahead < |s.gap| && (force || Expired(s.gap[ahead], now, tuning.ttl)))
      && (LeftBehind(step, seqno) ==> Reports(step, s.next.value, s.next.value + ahead))
      && !Discarded(step, seqno)
  {
    var n := s.next.value;
    var k := Taken(s.gap, now, tuning.ttl, force);
    ForwardMoved(n, k, seqno);
    if Forward(n, seqno) < |s.gap| {
      ExpiresExactly(s, now, tuning, Forward(n, seqno));
    }
    hide Wire, Forward, FirstUser, ExpiredPrefix, Monotone, SeenBy, Filed, Hands;
  }

  // ----- Handing over -----

  lemma HandStrandsNone(s: Ssrc, n: nat, packet: Packet, seqno: u16)
    requires seqno in s.pending && 0 < Forward(n, seqno) < HALF
    ensures !LeftBehind(Hand(s, n, packet), seqno) && !Discarded(Hand(s, n, packet), seqno)
  {
    hide Wire, Forward;
    ForwardMoved(n, 1, seqno);
    HandParts(s, n, packet);
    hide Hand, Hands;
  }

  /** Releasing hands over the packet whose turn it is and passes over none. */
  lemma ReleaseStrandsNone(s: Ssrc, seqno: u16)
    requires Filed(s.pending) && s.next.Some? && seqno in s.pending && Forward(s.next.value, seqno) < HALF
    ensures !LeftBehind(PopReady(s), seqno) && !Discarded(PopReady(s), seqno)
  {
    hide Wire, Forward, Hand;
    var n := s.next.value;
    if s.assembler.completed == [] && Wire(n) in s.pending {
      var rest := s.(gap := Rest(s.gap), pending := s.pending - {Wire(n)});
      HandParts(rest, n, s.pending[Wire(n)]);
      if Forward(n, seqno) == 0 {
        ForwardZero(n, seqno);
        assert PopReady(s).events[0].packet.rtp.seqno == seqno;
      } else {
        ForwardWire(n, 0);
        HandStrandsNone(rest, n, s.pending[Wire(n)], seqno);
      }
    }
  }

  // ----- Arrivals -----

  lemma InTurnStrandsNone(s: Ssrc, n: nat, packet: Packet, seqno: u16)
    requires s.next == Some(n) && seqno in s.pending && Forward(n, seqno) < HALF && packet.rtp.seqno == Wire(n)
    ensures
      var step := Hand(s.(gap := Rest(s.gap), pending := s.pending - {Wire(n)}), n, packet);
      !LeftBehind(step, seqno) && !Discarded(step, seqno)
  {
    hide Wire, Forward, Hand;
    var rest := s.(gap := Rest(s.gap), pending := s.pending - {Wire(n)});
    HandParts(rest, n, packet);
    if Forward(n, seqno) == 0 {
      ForwardZero(n, seqno);
      assert Hand(rest, n, packet).events[0].packet.rtp.seqno == seqno;
    } else {
      ForwardWire(n, 0);
      HandStrandsNone(rest, n, packet, seqno);
    }
  }

  /** A jump throws away every buffered packet but a copy of the one that jumps. */
  lemma JumpDiscards(s: Ssrc, n: nat, packet: Packet, seqno: u16)
    requires s.next == Some(n) && seqno in s.pending && 0 < Forward(n, packet.rtp.seqno) < HALF
    ensures
      var forward := Forward(n, packet.rtp.seqno);
      var step := Jump(n, forward, packet);
      && !LeftBehind(step, seqno)
      && (Discarded(step, seqno) <==> seqno != packet.rtp.seqno)
      && (Reports(step, n, n + Forward(n, seqno)) <==> Forward(n, seqno) < forward)
  {
    hide Wire, Forward, Hand;
    var forward := Forward(n, packet.rtp.seqno);
    HandParts(FRESH, n + forward, packet);
    var step := Jump(n, forward, packet);
    assert step.events[1] == Handed(packet) && step.events[0].Lost? && |step.events| == 2;
  }

  /** Buffering within the bound passes over nothing. */
  lemma QuietStrandsNone(s: Ssrc, forward: nat, packet: Packet, now: nat, tuning: Tuning, seqno: u16)
    requires Inv(s, now, tuning) && s.next.Some?
    requires forward == Forward(s.next.value, packet.rtp.seqno) && 0 < forward < HALF && forward <= tuning.maxFrames
    requires |Buffered(s, forward, packet, now).pending| <= tuning.maxFrames
    requires seqno in Buffered(s, forward, packet, now).pending && Forward(s.next.value, seqno) < HALF
    ensures
      var step := Early(s, forward, packet, now, tuning);
      !LeftBehind(step, seqno) && !Discarded(step, seqno)
  {
    BufferedSound(s, forward, packet, now, tuning);
    hide Wire, Forward, PopReady, Marked, Monotone, SeenBy;
    var b := Buffered(s, forward, packet, now);
    ReleaseStrandsNone(b, seqno);
    assert [] + PopReady(b).events == PopReady(b).events;
    hide Hands;
  }

  /** Over the bound the whole block is passed over, and the packet behind it is handed over. */
  lemma ForcedStrands(s: Ssrc, forward: nat, packet: Packet, now: nat, tuning: Tuning, seqno: u16)
    requires Inv(s, now, tuning) && s.next.Some?
    requires forward == Forward(s.next.value, packet.rtp.seqno) && 0 < forward < HALF && forward <= tuning.maxFrames
    requires |Buffered(s, forward, packet, now).pending| > tuning.maxFrames
    requires seqno in Buffered(s, forward, packet, now).pending && Forward(s.next.value, seqno) < HALF
    ensures
      var b, step := Buffered(s, forward, packet, now), Early(s, forward, packet, now, tuning);
      var n, ahead := s.next.value, Forward(s.next.value, seqno);
      && (LeftBehind(step, seqno) <==> ahead < |b.gap|)
      && (LeftBehind(step, seqno) ==> Reports(step, n, n + ahead))
      && !Discarded(step, seqno)
  {
    hide Wire, Forward, Early, Buffered, Inv, Hands;
    ForcedAfter(s, forward, packet, now, tuning);
    var b := Buffered(s, forward, packet, now);
    var n, end := s.next.value, s.next.value + |b.gap|;
    ForwardMoved(n, |b.gap| + 1, seqno);
    ForwardWire(n, |b.gap|);
    if Forward(n, seqno) == |b.gap| {
      WireForward(n, seqno);
    }
  }

  /** The whole block is reported, and the packet just past it is the only one to leave the buffer. */
  lemma ForcedAfter(s: Ssrc, forward: nat, packet: Packet, now: nat, tuning: Tuning)
    requires Inv(s, now, tuning) && s.next.Some?
    requires forward == Forward(s.next.value, packet.rtp.seqno) && 0 < forward < HALF && forward <= tuning.maxFrames
    requires |Buffered(s, forward, packet, now).pending| > tuning.maxFrames
    ensures
      var b, step := Buffered(s, forward, packet, now), Early(s, forward, packet, now, tuning);
      var end := s.next.value + |b.gap|;
      && |b.gap| < HALF && Wire(end) in b.pending && step.state.next == Some(end + 1)
      && step.state.pending == b.pending - {Wire(end)} && Hands(step, Wire(end))
      && |step.events| > 0 && step.events[0].Lost?
      && step.events[0].report.firstSeq == Wire(s.next.value) && step.events[0].report.count == |b.gap|
  {
    BufferedSound(s, forward, packet, now, tuning);
    assert |Buffered(s, forward, packet, now).gap| < HALF;
    hide Wire, Forward, Hand, Marked, Monotone, SeenBy, Expire, Buffered;
    var b := Buffered(s, forward, packet, now);
    BufferedParts(s, forward, packet, now);
    ForcedSteps(b, packet.rtp.ssrc, now, tuning);
    var end := s.next.value + |b.gap|;
    var expiry := Expire(b, packet.rtp.ssrc, now, tuning.ttl, true);
    var step := Early(s, forward, packet, now, tuning);
    HandParts(expiry.state.(gap := Rest(expiry.state.gap), pending := b.pending - {Wire(end)}), end, b.pending[Wire(end)]);
    assert step.events[1] == Handed(b.pending[Wire(end)]) && step.events[0] == expiry.events[0];
  }

  /** A forced expiry of a sound buffer with a gap: one exact report, and the packet past the gap is next. */
  lemma ForcedSteps(b: Ssrc, ssrc: u32, now: nat, tuning: Tuning)
    requires Sound(b, now, tuning) && |b.gap| > 0
    ensures
      var t, end := Expire(b, ssrc, now, tuning.ttl, true), b.next.value + |b.gap|;
      && t.state == Ssrc(Some(end), [], b.pending, EMPTY) && Wire(end) in b.pending
      && |t.events| == 1 && t.events[0].Lost?
      && t.events[0].report.firstSeq == Wire(b.next.value) && t.events[0].report.count == |b.gap|
  {
    hide Wire, FirstUser, Monotone, SeenBy, Filed;
    assert b.gap[|b.gap|..] == [];
  }

  lemma ArriveStrands(s: Ssrc, call: Call, tuning: Tuning, seqno: u16)
    requires Inv(s, call.now, tuning) && s.next.Some? && call.op.Arrive?
    requires seqno in Held(s, call, tuning) && Forward(s.next.value, seqno) < HALF
    ensures
      var step := PushMedia(s, call.op.packet, call.now, tuning);
      var n, ahead := s.next.value, Forward(s.next.value, seqno);
      && (LeftBehind(step, seqno) <==> Strands(s, call, tuning, ahead))
      && (Discarded(step, seqno) <==> Jumps(s, call, tuning) && seqno != call.op.packet.rtp.seqno)
      && (LeftBehind(step, seqno) ==> Reports(step, n, n + ahead))
      && (Jumps(s, call, tuning) ==>
            (Reports(step, n, n + ahead) <==> ahead < Forward(n, call.op.packet.rtp.seqno)))
  {
    hide Wire, Hand, Early, Jump, LeftBehind, Discarded, Reports, Sound;
    var n, packet := s.next.value, call.op.packet;
    var forward := Forward(n, packet.rtp.seqno);
    if forward == 0 {
      ForwardZero(n, packet.rtp.seqno);
      InTurnStrandsNone(s, n, packet, seqno);
    } else if forward >= HALF {
      StaysPut(s, seqno);
    } else if forward > tuning.maxFrames {
      JumpDiscards(s, n, packet, seqno);
    } else {
      BufferedParts(s, forward, packet, call.now);
      BufferedGap(s, forward, packet, call.now);
      hide Buffered, Forward;
      if |Buffered(s, forward, packet, call.now).pending| > tuning.maxFrames {
        ForcedStrands(s, forward, packet, call.now, tuning, seqno);
      } else {
        QuietStrandsNone(s, forward, packet, call.now, tuning, seqno);
      }
    }
  }

  lemma StaysPut(s: Ssrc, seqno: u16)
    requires s.next.Some? && seqno in s.pending && Forward(s.next.value, seqno) < HALF
    ensures !LeftBehind(Step(s, [], Ok(None)), seqno) && !Discarded(Step(s, [], Ok(None)), seqno)
  {
    hide Forward;
  }

  lemma BufferedGap(s: Ssrc, forward: nat, packet: Packet, now: nat)
    ensures |Buffered(s, forward, packet, now).gap| == if |s.gap| < forward then forward else |s.gap|
    ensures
      var b := Buffered(s, forward, packet, now);
      |b.pending| == |s.pending| + if packet.rtp.seqno in s.pending then 0 else 1
  {
  }

  /**
   * All three ways, for every call on every reachable buffer and every packet in it that is not behind yet,
   * the one just arriving included. It is left behind exactly when its own missing entry expires, or when the
   * arrival finds the buffer full and it lies inside the block; it is thrown away exactly by a jump. Left-behind
   * packets are always reported lost, thrown-away ones exactly when they lie before the jump's target.
   */
  lemma GivenUpExactly(s: Ssrc, call: Call, ssrc: u32, tuning: Tuning, seqno: u16)
    requires Inv(s, call.now, tuning) && s.next.Some?
    requires seqno in Held(s, call, tuning) && Forward(s.next.value, seqno) < HALF
    ensures
      var step := Do(s, call, ssrc, tuning);
      var n, ahead := s.next.value, Forward(s.next.value, seqno);
      && (LeftBehind(step, seqno) <==> Strands(s, call, tuning, ahead))
      && (Discarded(step, seqno) <==> Jumps(s, call, tuning) && seqno != call.op.packet.rtp.seqno)
      && (LeftBehind(step, seqno) ==> Reports(step, n, n + ahead))
      && (Jumps(s, call, tuning) ==>
            (Reports(step, n, n + ahead) <==> ahead < Forward(n, call.op.packet.rtp.seqno)))
  {
    hide Wire, PushMedia, PopReady, Expire, LeftBehind, Discarded, Reports, Forward, Monotone, SeenBy;
    match call.op
    case Arrive(_) => ArriveStrands(s, call, tuning, seqno);
    case Release => ReleaseStrandsNone(s, seqno);
    case TimeOut => ExpireStrands(s, ssrc, call.now, tuning, false, seqno);
  }
}
