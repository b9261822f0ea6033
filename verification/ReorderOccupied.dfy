/**
 * When a number is taken by a packet of an earlier cycle, told by the calls alone (cacophony/src/state.rs): a call left the
 * packet behind, and none since threw the buffer away or handed the number over.
 */
module ReorderOccupied {
  import opened Prelude
  import opened Assembler
  import opened Interleave
  import opened Reorder
  import opened ReorderRun
  import opened ReorderLoss
  import opened ReorderOrigin

  // ----- What leaves the buffer -----

  /** The step takes the number out of the buffer. */
  ghost predicate Takes(s: Ssrc, call: Call, ssrc: u32, tuning: Tuning, k: u16) {
    Jumps(s, call, tuning) || Hands(Do(s, call, ssrc, tuning), k)
  }

  /** The step moves on by less than half a cycle, and drops only what it hands over, unless it jumps. */
  ghost predicate Holds(s: Ssrc, held: map<u16, Packet>, step: Step) {
    && s.next.Some? && step.state.next.Some? && s.next.value <= step.state.next.value <= s.next.value + HALF
    && forall k :: k in held ==> (k in step.state.pending <==> !Hands(step, k))
  }

  lemma QuietHolds(s: Ssrc, held: map<u16, Packet>, step: Step)
    requires s.next.Some? && step.events == [] && step.state.next == s.next && step.state.pending == held
    ensures Holds(s, held, step)
  {
  }

  /** A step that ends with handing over `packet` and dropping its number. */
  lemma HandsHolds(s: Ssrc, held: map<u16, Packet>, step: Step, packet: Packet)
    requires s.next.Some? && step.state.next.Some? && s.next.value <= step.state.next.value <= s.next.value + HALF
    requires step.state.pending == held - {packet.rtp.seqno}
    requires step.events == [Handed(packet)] || (|step.events| == 2 && step.events[0].Lost? && step.events[1] == Handed(packet))
    ensures Holds(s, held, step)
  {
    var i := |step.events| - 1;
    assert step.events[i] == Handed(packet);
    forall k | k in held
      ensures k in step.state.pending <==> !Hands(step, k)
    {
      if k == packet.rtp.seqno {
        assert Hands(step, k);
      }
    }
  }

  lemma PopHolds(b: Ssrc, s: Ssrc)
    requires b.next.Some? && b.next == s.next && Filed(b.pending)
    ensures Holds(s, b.pending, PopReady(b))
  {
    hide Wire, Hand, Holds;
    if b.assembler.completed == [] && Wire(b.next.value) in b.pending {
      var n := b.next.value;
      HandParts(b.(gap := Rest(b.gap), pending := b.pending - {Wire(n)}), n, b.pending[Wire(n)]);
      HandsHolds(s, b.pending, PopReady(b), b.pending[Wire(n)]);
    } else {
      QuietHolds(s, b.pending, PopReady(b));
    }
  }

  lemma ExpireHolds(s: Ssrc, call: Call, ssrc: u32, tuning: Tuning)
    requires Sound(s, call.now, tuning) && s.next.Some?
    ensures Holds(s, s.pending, Expire(s, ssrc, call.now, tuning.ttl, false))
  {
    hide Wire, FirstUser, Monotone, SeenBy, Filed;
  }

  lemma InTurnHolds(s: Ssrc, packet: Packet)
    requires s.next.Some?
    ensures Holds(s, s.pending, Hand(s.(gap := Rest(s.gap), pending := s.pending - {packet.rtp.seqno}), s.next.value, packet))
  {
    hide Hand, Wire, Holds;
    var t := s.(gap := Rest(s.gap), pending := s.pending - {packet.rtp.seqno});
    HandParts(t, s.next.value, packet);
    HandsHolds(s, s.pending, Hand(t, s.next.value, packet), packet);
  }

  lemma EarlyHolds(s: Ssrc, call: Call, tuning: Tuning)
    requires Inv(s, call.now, tuning) && s.next.Some? && call.op.Arrive?
    requires
      var forward := Forward(s.next.value, call.op.packet.rtp.seqno);
      0 < forward < HALF && forward <= tuning.maxFrames
    ensures
      var forward := Forward(s.next.value, call.op.packet.rtp.seqno);
      Holds(s, Held(s, call, tuning), Early(s, forward, call.op.packet, call.now, tuning))
  {
    var n, packet, now := s.next.value, call.op.packet, call.now;
    var forward := Forward(n, packet.rtp.seqno);
    BufferedSound(s, forward, packet, now, tuning);
    assert |Buffered(s, forward, packet, now).gap| < HALF && Filed(Buffered(s, forward, packet, now).pending);
    hide Wire, Forward, PopReady, Expire, Buffered, Sound, Holds, Filed;
    BufferedParts(s, forward, packet, now);
    var b := Buffered(s, forward, packet, now);
    if |b.pending| > tuning.maxFrames {
      ForcedSteps(b, packet.rtp.ssrc, now, tuning);
      ForcedHolds(b, s, call, tuning);
    } else {
      PopHolds(b, s);
      assert [] + PopReady(b).events == PopReady(b).events;
    }
  }

  lemma ForcedHolds(b: Ssrc, s: Ssrc, call: Call, tuning: Tuning)
    requires Sound(b, call.now, tuning) && 0 < |b.gap| < HALF && b.next.Some? && b.next == s.next && call.op.Arrive?
    ensures
      var expiry := Expire(b, call.op.packet.rtp.ssrc, call.now, tuning.ttl, true);
      var step := PopReady(expiry.state);
      Holds(s, b.pending, step.(events := expiry.events + step.events))
  {
    assert Filed(b.pending);
    hide Wire, Hand, Expire, Sound, Holds;
    ForcedSteps(b, call.op.packet.rtp.ssrc, call.now, tuning);
    var end := b.next.value + |b.gap|;
    var t := Ssrc(Some(end), [], b.pending, EMPTY);
    HandParts(t.(gap := Rest(t.gap), pending := b.pending - {Wire(end)}), end, b.pending[Wire(end)]);
    var expiry := Expire(b, call.op.packet.rtp.ssrc, call.now, tuning.ttl, true);
    var step := PopReady(expiry.state);
    HandsHolds(s, b.pending, step.(events := expiry.events + step.events), b.pending[Wire(end)]);
  }

  lemma JumpEmpties(s: Ssrc, call: Call, ssrc: u32, tuning: Tuning)
    requires Jumps(s, call, tuning)
    ensures Do(s, call, ssrc, tuning).state.pending == map[]
  {
    hide Hand, Wire, Forward;
    var n, packet := s.next.value, call.op.packet;
    HandParts(FRESH, n + Forward(n, packet.rtp.seqno), packet);
  }

  lemma DoHolds(s: Ssrc, call: Call, ssrc: u32, tuning: Tuning)
    requires Inv(s, call.now, tuning) && s.next.Some? && !Jumps(s, call, tuning)
    ensures Holds(s, Held(s, call, tuning), Do(s, call, ssrc, tuning))
  {
    hide Wire, Hand, Early, Jump, Holds, PopReady, Expire, Monotone, SeenBy, Filed;
    match call.op
    case Release => PopHolds(s, s);
    case TimeOut => ExpireHolds(s, call, ssrc, tuning);
    case Arrive(packet) =>
      if Forward(s.next.value, packet.rtp.seqno) == 0 {
        InTurnHolds(s, packet);
      } else if Forward(s.next.value, packet.rtp.seqno) >= HALF {
        QuietHolds(s, s.pending, Step(s, [], Ok(None)));
      } else {
        EarlyHolds(s, call, tuning);
      }
  }

  // ----- Being behind -----

  /** The packet buffered under the number stands for a position already passed. */
  ghost predicate Behind(l: Ledger, k: u16) {
    k in l.places && l.trace.state.next.Some? && l.places[k] < l.trace.state.next.value
  }

  /** The call is going to leave the packet behind. */
  predicate StrandsNow(s: Ssrc, call: Call, tuning: Tuning, k: u16) {
    && s.next.Some? && k in Held(s, call, tuning) && Forward(s.next.value, k) < HALF
    && Strands(s, call, tuning, Forward(s.next.value, k))
  }

  /** A place not passed yet is as far ahead as its number says. */
  lemma PlaceAhead(n: nat, q: nat, k: u16)
    requires n <= q < n + HALF && Wire(q) == k
    ensures Forward(n, k) == q - n
  {
    ForwardWire(n, q - n);
  }

  lemma KeptPlaces(held: map<u16, nat>, pending: map<u16, Packet>, k: u16)
    ensures k in Kept(held, pending) <==> k in held && k in pending
    ensures k in held && k in pending ==> Kept(held, pending)[k] == held[k]
  {
  }

  /** One call: the number is behind afterwards exactly if the call strands it, or it was and is not taken. */
  lemma BehindStep(l: Ledger, calls: seq<Call>, call: Call, ssrc: u32, tuning: Tuning, k: u16)
    requires PlacesRight(l, calls, ssrc, tuning) && Inv(l.trace.state, call.now, tuning)
    ensures
      var s := l.trace.state;
      Behind(Enter(l, call, ssrc, tuning), k)
      <==> StrandsNow(s, call, tuning, k) || (Behind(l, k) && !Takes(s, call, ssrc, tuning, k))
  {
    var s := l.trace.state;
    if s.next.None? {
      FreshBehind(l, calls, call, ssrc, tuning, k);
    } else if Jumps(s, call, tuning) {
      JumpBehind(l, calls, call, ssrc, tuning, k);
    } else {
      hide Do, Held, HeldPlaces, PlacesRight, Inv, Wire, Forward, Strands, Jumps, Kept;
      DoHolds(s, call, ssrc, tuning);
      HeldKeys(l, calls, call, ssrc, tuning);
      var held := HeldPlaces(l.places, s, call, tuning);
      KeptPlaces(held, Do(s, call, ssrc, tuning).state.pending, k);
      if k in Held(s, call, tuning) {
        HeldStep(l, calls, call, ssrc, tuning, k);
      } else {
        NotHeld(l, calls, call, ssrc, tuning, k);
      }
    }
  }

  lemma FreshBehind(l: Ledger, calls: seq<Call>, call: Call, ssrc: u32, tuning: Tuning, k: u16)
    requires PlacesRight(l, calls, ssrc, tuning) && Inv(l.trace.state, call.now, tuning) && l.trace.state.next.None?
    ensures !Behind(Enter(l, call, ssrc, tuning), k) && !Behind(l, k) && !StrandsNow(l.trace.state, call, tuning, k)
  {
    hide Do, PlaceRight, Wire, Forward;
  }

  lemma JumpBehind(l: Ledger, calls: seq<Call>, call: Call, ssrc: u32, tuning: Tuning, k: u16)
    requires Jumps(l.trace.state, call, tuning)
    ensures !Behind(Enter(l, call, ssrc, tuning), k) && !StrandsNow(l.trace.state, call, tuning, k)
    ensures Takes(l.trace.state, call, ssrc, tuning, k)
  {
    JumpEmpties(l.trace.state, call, ssrc, tuning);
    hide Do, Wire, Forward;
  }

  lemma HeldKeys(l: Ledger, calls: seq<Call>, call: Call, ssrc: u32, tuning: Tuning)
    requires PlacesRight(l, calls, ssrc, tuning)
    ensures forall k :: k in HeldPlaces(l.places, l.trace.state, call, tuning) <==> k in Held(l.trace.state, call, tuning)
    ensures forall k :: k in l.places ==>
              k in Held(l.trace.state, call, tuning) && HeldPlaces(l.places, l.trace.state, call, tuning)[k] == l.places[k]
  {
    hide PlaceRight, Wire, Forward;
  }

  lemma NotHeld(l: Ledger, calls: seq<Call>, call: Call, ssrc: u32, tuning: Tuning, k: u16)
    requires PlacesRight(l, calls, ssrc, tuning) && k !in Held(l.trace.state, call, tuning)
    ensures !Behind(Enter(l, call, ssrc, tuning), k) && !Behind(l, k) && !StrandsNow(l.trace.state, call, tuning, k)
  {
    hide Do, Held, HeldPlaces, PlacesRight, Wire, Forward, Strands, Kept;
    HeldKeys(l, calls, call, ssrc, tuning);
    KeptPlaces(HeldPlaces(l.places, l.trace.state, call, tuning), Do(l.trace.state, call, ssrc, tuning).state.pending, k);
  }

  lemma HeldStep(l: Ledger, calls: seq<Call>, call: Call, ssrc: u32, tuning: Tuning, k: u16)
    requires PlacesRight(l, calls, ssrc, tuning) && Inv(l.trace.state, call.now, tuning) && l.trace.state.next.Some?
    requires !Jumps(l.trace.state, call, tuning) && k in Held(l.trace.state, call, tuning)
    ensures
      var s := l.trace.state;
      Behind(Enter(l, call, ssrc, tuning), k)
      <==> StrandsNow(s, call, tuning, k) || (Behind(l, k) && !Takes(s, call, ssrc, tuning, k))
  {
    hide Do, Held, HeldPlaces, PlacesRight, Inv, Wire, Forward, Strands, Jumps, Kept, Hands;
    var s := l.trace.state;
    var step, held := Do(s, call, ssrc, tuning), HeldPlaces(l.places, s, call, tuning);
    DoHolds(s, call, ssrc, tuning);
    HeldKeys(l, calls, call, ssrc, tuning);
    KeptPlaces(held, step.state.pending, k);
    PlaceOf(l, calls, call, ssrc, tuning, k);
    var n, q := s.next.value, held[k];
    if Forward(n, k) < HALF {
      GivenUpExactly(s, call, ssrc, tuning, k);
      ForwardMoved(n, step.state.next.value - n, k);
    }
    if n <= q {
      PlaceAhead(n, q, k);
    }
  }

  /** A held packet's place has its number and is less than half a cycle ahead; a new one is not behind. */
  lemma PlaceOf(l: Ledger, calls: seq<Call>, call: Call, ssrc: u32, tuning: Tuning, k: u16)
    requires PlacesRight(l, calls, ssrc, tuning) && l.trace.state.next.Some? && k in Held(l.trace.state, call, tuning)
    ensures
      var s, held := l.trace.state, HeldPlaces(l.places, l.trace.state, call, tuning);
      && k in held && Wire(held[k]) == k && held[k] < s.next.value + HALF
      && (held[k] < s.next.value <==> Behind(l, k))
  {
    hide Wire, Forward, Accepted, ReportedLost;
    var s := l.trace.state;
    if k in l.places {
      assert PlaceRight(l, calls, ssrc, tuning, k, l.places[k]);
    } else {
      WireForward(s.next.value, k);
    }
  }

  // ----- Over runs -----

  /** Call `c` left the packet under the number behind, and no later call took the number out. */
  ghost predicate StrandedBy(calls: seq<Call>, c: nat, k: u16, ssrc: u32, tuning: Tuning) {
    && c < |calls| && StrandsNow(Run(calls[..c], ssrc, tuning).state, calls[c], tuning, k)
    && forall d :: c < d < |calls| ==> !Takes(Run(calls[..d], ssrc, tuning).state, calls[d], ssrc, tuning, k)
  }

  ghost predicate Stranded(calls: seq<Call>, k: u16, ssrc: u32, tuning: Tuning) {
    exists c: nat :: StrandedBy(calls, c, k, ssrc, tuning)
  }

  lemma StrandedSnoc(calls: seq<Call>, call: Call, k: u16, ssrc: u32, tuning: Tuning)
    ensures
      var s := Run(calls, ssrc, tuning).state;
      Stranded(calls + [call], k, ssrc, tuning)
      <==> StrandsNow(s, call, tuning, k) || (Stranded(calls, k, ssrc, tuning) && !Takes(s, call, ssrc, tuning, k))
  {
    hide Run, Takes, StrandsNow;
    var all, n := calls + [call], |calls|;
    var s := Run(calls, ssrc, tuning).state;
    assert all[..n] == calls && all[n] == call;
    assert forall d: nat :: d < n ==> all[..d] == calls[..d] && all[d] == calls[d];
    if StrandsNow(s, call, tuning, k) {
      assert StrandedBy(all, n, k, ssrc, tuning);
    }
    if Stranded(calls, k, ssrc, tuning) && !Takes(s, call, ssrc, tuning, k) {
      var c: nat :| StrandedBy(calls, c, k, ssrc, tuning);
      assert StrandedBy(all, c, k, ssrc, tuning);
    }
    if Stranded(all, k, ssrc, tuning) {
      var c: nat :| StrandedBy(all, c, k, ssrc, tuning);
      if c < n {
        assert StrandedBy(calls, c, k, ssrc, tuning);
      }
    }
  }

  /** After every run: the number is held by a packet of a passed position exactly if a call stranded it for good. */
  lemma {:induction false} BehindExactly(calls: seq<Call>, ssrc: u32, tuning: Tuning, k: u16)
    requires Clocked(calls)
    ensures Behind(Book(calls, ssrc, tuning), k) <==> Stranded(calls, k, ssrc, tuning)
  {
    hide Run, Enter, PlacesRight, Inv, StrandedBy, Takes, StrandsNow;
    if |calls| == 0 {
      NothingStranded(calls, ssrc, tuning, k);
    } else {
      hide Book, Behind, Stranded;
      var front, call := calls[..|calls| - 1], calls[|calls| - 1];
      FrontAccounted(calls, ssrc, tuning);
      BehindExactly(front, ssrc, tuning, k);
      RunOrigins(front, ssrc, tuning);
      BookIsRun(front, ssrc, tuning);
      BookStep(calls, ssrc, tuning);
      BehindStep(Book(front, ssrc, tuning), front, call, ssrc, tuning, k);
      StrandedSnoc(front, call, k, ssrc, tuning);
      assert calls == front + [call];
    }
  }

  lemma NothingStranded(calls: seq<Call>, ssrc: u32, tuning: Tuning, k: u16)
    requires |calls| == 0
    ensures !Behind(Book(calls, ssrc, tuning), k) && !Stranded(calls, k, ssrc, tuning)
  {
  }

  /**
   * Over every run, told by the calls: the packet handed over at a position was accepted for that very position if and only
   * if it came in its turn, or no earlier call stranded a packet of its number that is still there. Otherwise it was
   * accepted for an earlier position of the same number.
   */
  lemma HandedByCalls(calls: seq<Call>, ssrc: u32, tuning: Tuning, i: nat) returns (m: nat)
    requires Clocked(calls) && i < |Run(calls, ssrc, tuning).log| && Run(calls, ssrc, tuning).log[i].Handed?
    ensures
      && m < |calls| && i < |Book(calls, ssrc, tuning).origins|
      && |Run(calls[..m], ssrc, tuning).log| <= i < |Run(calls[..m + 1], ssrc, tuning).log|
    ensures
      var t, q := Run(calls, ssrc, tuning), Book(calls, ssrc, tuning).origins[i];
      var position := End(t.log[..i], t.start);
      && Accepted(calls, t.log[i].packet, q, ssrc, tuning) && q <= position && Wire(q) == Wire(position)
      && (q == position <==>
            Direct(Run(calls[..m], ssrc, tuning).state, calls[m], tuning) || !Stranded(calls[..m], Wire(position), ssrc, tuning))
  {
    hide Run, Book, Direct, Stranded, PlacesRight, End, Wire, Occupied, Behind, Accepted;
    m := HandedIdentity(calls, ssrc, tuning, i);
    var before := calls[..m];
    BookIsRun(before, ssrc, tuning);
    var t := Run(calls, ssrc, tuning);
    var position := End(t.log[..i], t.start);
    assert Clocked(before);
    BehindExactly(before, ssrc, tuning, Wire(position));
    OccupiedIsBehind(Book(before, ssrc, tuning), before, ssrc, tuning, position);
  }

  lemma OccupiedIsBehind(l: Ledger, calls: seq<Call>, ssrc: u32, tuning: Tuning, position: nat)
    requires PlacesRight(l, calls, ssrc, tuning) && InReach(l.trace.state, position)
    ensures Occupied(l.places, position) <==> Behind(l, Wire(position))
  {
    hide Wire, Accepted, ReportedLost;
    var k := Wire(position);
    if k in l.places {
      assert PlaceRight(l, calls, ssrc, tuning, k, l.places[k]);
      SamePosition(l.trace.state.next.value, position, l.places[k]);
    }
  }
}
