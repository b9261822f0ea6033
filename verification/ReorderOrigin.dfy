/** Which arrival a packet handed over at a position was (cacophony/src/state.rs), over all runs, losses included. */
module ReorderOrigin {
  import opened Prelude
  import opened Assembler
  import opened Interleave
  import opened Reorder
  import opened ReorderRun
  import opened ReorderLoss

  /** The position an arriving packet stands for. */
  function Place(s: Ssrc, packet: Packet): nat {
    if s.next.None? then packet.rtp.seqno else s.next.value + Forward(s.next.value, packet.rtp.seqno)
  }

  /** The arrival's turn has come, or it jumps: it is handed over itself. */
  predicate Direct(s: Ssrc, call: Call, tuning: Tuning) {
    call.op.Arrive? && (s.next.None? || Forward(s.next.value, call.op.packet.rtp.seqno) == 0 || Jumps(s, call, tuning))
  }

  /** The places of the buffered packets once the arrival has joined them. */
  function HeldPlaces(places: map<u16, nat>, s: Ssrc, call: Call, tuning: Tuning): map<u16, nat> {
    if Buffers(s, call, tuning) then places[call.op.packet.rtp.seqno := Place(s, call.op.packet)] else places
  }

  /** Where the packet of an event had its place when it arrived. */
  function OriginOf(e: Event, held: map<u16, nat>, s: Ssrc, call: Call, tuning: Tuning): nat {
    if e.Lost? then 0
    else if Direct(s, call, tuning) then Place(s, call.op.packet)
    else if e.packet.rtp.seqno in held then held[e.packet.rtp.seqno]
    else 0
  }

  function Origins(events: seq<Event>, held: map<u16, nat>, s: Ssrc, call: Call, tuning: Tuning): seq<nat> {
    seq(|events|, i requires 0 <= i < |events| => OriginOf(events[i], held, s, call, tuning))
  }

  function Kept(held: map<u16, nat>, pending: map<u16, Packet>): map<u16, nat> {
    map k | k in held && k in pending :: held[k]
  }

  /** A run with the place of every buffered packet and the origin of every event. */
  datatype Ledger = Ledger(trace: Trace, places: map<u16, nat>, origins: seq<nat>)

  function Enter(l: Ledger, call: Call, ssrc: u32, tuning: Tuning): Ledger {
    var s := l.trace.state;
    var step := Do(s, call, ssrc, tuning);
    var held := HeldPlaces(l.places, s, call, tuning);
    Ledger(Record(l.trace, call, ssrc, tuning), Kept(held, step.state.pending),
           l.origins + Origins(step.events, held, s, call, tuning))
  }

  function Book(calls: seq<Call>, ssrc: u32, tuning: Tuning): Ledger {
    if |calls| == 0 then Ledger(Run([], ssrc, tuning), map[], [])
    else Enter(Book(calls[..|calls| - 1], ssrc, tuning), calls[|calls| - 1], ssrc, tuning)
  }

  lemma {:induction false} BookIsRun(calls: seq<Call>, ssrc: u32, tuning: Tuning)
    ensures Book(calls, ssrc, tuning).trace == Run(calls, ssrc, tuning)
  {
    hide Record, Do, Origins, HeldPlaces;
    if |calls| > 0 {
      BookIsRun(calls[..|calls| - 1], ssrc, tuning);
    }
  }

  // ----- What one step does -----

  /** What is buffered afterwards was held, and what is handed over is the arrival itself or was held under its number. */
  ghost predicate Traceable(s: Ssrc, call: Call, tuning: Tuning, step: Step) {
    && (forall k :: k in step.state.pending ==>
          k in Held(s, call, tuning) && step.state.pending[k] == Held(s, call, tuning)[k])
    && |step.events| <= 2 && (|step.events| == 2 ==> step.events[0].Lost? && step.events[1].Handed?)
    && (|step.events| > 0 && step.events[|step.events| - 1].Handed? ==> Origin(s, call, tuning, step))
  }

  ghost predicate Origin(s: Ssrc, call: Call, tuning: Tuning, step: Step)
    requires |step.events| > 0 && step.events[|step.events| - 1].Handed?
  {
    var packet := step.events[|step.events| - 1].packet;
    && step.state.next.Some? && step.state.next.value > 0
    && var position := step.state.next.value - 1;
       && Wire(position) !in step.state.pending
       && (s.next.Some? ==> s.next.value <= position < s.next.value + HALF)
       && if Direct(s, call, tuning) then packet == call.op.packet && position == Place(s, packet)
          else Wire(position) in Held(s, call, tuning) && packet == Held(s, call, tuning)[Wire(position)]
  }

  lemma NoEventTraceable(s: Ssrc, call: Call, tuning: Tuning, step: Step)
    requires |step.events| == 0 && step.state.pending == Held(s, call, tuning)
    ensures Traceable(s, call, tuning, step)
  {
  }

  lemma PopTraceable(b: Ssrc, s: Ssrc, call: Call, tuning: Tuning)
    requires b.next.Some? && b.next == s.next && b.pending == Held(s, call, tuning) && !Direct(s, call, tuning)
    ensures Traceable(s, call, tuning, PopReady(b))
  {
    hide Wire, Hand, Held, Direct;
    if b.assembler.completed == [] && Wire(b.next.value) in b.pending {
      var n := b.next.value;
      HandParts(b.(gap := Rest(b.gap), pending := b.pending - {Wire(n)}), n, b.pending[Wire(n)]);
    } else {
      NoEventTraceable(s, call, tuning, PopReady(b));
    }
  }

  lemma ExpireTraceable(s: Ssrc, call: Call, ssrc: u32, tuning: Tuning)
    requires call.op.TimeOut?
    ensures Traceable(s, call, tuning, Expire(s, ssrc, call.now, tuning.ttl, false))
  {
    hide Wire, FirstUser, Taken;
  }

  lemma InTurnTraceable(s: Ssrc, call: Call, tuning: Tuning)
    requires call.op.Arrive? && s.next.Some? && Forward(s.next.value, call.op.packet.rtp.seqno) == 0
    ensures
      var n, packet := s.next.value, call.op.packet;
      Traceable(s, call, tuning, Hand(s.(gap := Rest(s.gap), pending := s.pending - {packet.rtp.seqno}), n, packet))
  {
    hide Hand, Wire;
    var n, packet := s.next.value, call.op.packet;
    ForwardZero(n, packet.rtp.seqno);
    HandParts(s.(gap := Rest(s.gap), pending := s.pending - {packet.rtp.seqno}), n, packet);
  }

  lemma FirstTraceable(s: Ssrc, call: Call, tuning: Tuning)
    requires call.op.Arrive? && s == FRESH
    ensures Traceable(s, call, tuning, Hand(s, call.op.packet.rtp.seqno, call.op.packet))
  {
    hide Hand, Wire;
    HandParts(s, call.op.packet.rtp.seqno, call.op.packet);
  }

  lemma JumpTraceable(s: Ssrc, call: Call, tuning: Tuning)
    requires Jumps(s, call, tuning)
    ensures Traceable(s, call, tuning, Jump(s.next.value, Forward(s.next.value, call.op.packet.rtp.seqno), call.op.packet))
  {
    hide Hand, Wire, Forward;
    var n, packet := s.next.value, call.op.packet;
    HandParts(FRESH, n + Forward(n, packet.rtp.seqno), packet);
  }

  lemma EarlyTraceable(s: Ssrc, call: Call, tuning: Tuning)
    requires Inv(s, call.now, tuning) && s.next.Some? && call.op.Arrive?
    requires
      var forward := Forward(s.next.value, call.op.packet.rtp.seqno);
      0 < forward < HALF && forward <= tuning.maxFrames
    ensures
      var forward := Forward(s.next.value, call.op.packet.rtp.seqno);
      Traceable(s, call, tuning, Early(s, forward, call.op.packet, call.now, tuning))
  {
    var n, packet, now := s.next.value, call.op.packet, call.now;
    var forward := Forward(n, packet.rtp.seqno);
    BufferedSound(s, forward, packet, now, tuning);
    assert |Buffered(s, forward, packet, now).gap| < HALF;
    hide Wire, Forward, PopReady, Expire, Buffered, Sound;
    BufferedParts(s, forward, packet, now);
    var b := Buffered(s, forward, packet, now);
    if |b.pending| > tuning.maxFrames {
      ForcedSteps(b, packet.rtp.ssrc, now, tuning);
      ForcedTraceable(b, s, call, tuning);
    } else {
      PopTraceable(b, s, call, tuning);
      assert [] + PopReady(b).events == PopReady(b).events;
    }
  }

  lemma ForcedTraceable(b: Ssrc, s: Ssrc, call: Call, tuning: Tuning)
    requires Sound(b, call.now, tuning) && 0 < |b.gap| < HALF && b.next.Some? && b.next == s.next && call.op.Arrive?
    requires b.pending == Held(s, call, tuning) && !Direct(s, call, tuning)
    ensures
      var expiry := Expire(b, call.op.packet.rtp.ssrc, call.now, tuning.ttl, true);
      var step := PopReady(expiry.state);
      Traceable(s, call, tuning, step.(events := expiry.events + step.events))
  {
    hide Wire, Hand, Held, Direct, Expire, Sound;
    ForcedSteps(b, call.op.packet.rtp.ssrc, call.now, tuning);
    var end := b.next.value + |b.gap|;
    var t := Ssrc(Some(end), [], b.pending, EMPTY);
    HandParts(t.(gap := Rest(t.gap), pending := b.pending - {Wire(end)}), end, b.pending[Wire(end)]);
  }

  lemma DoTraceable(s: Ssrc, call: Call, ssrc: u32, tuning: Tuning)
    requires Inv(s, call.now, tuning)
    ensures Traceable(s, call, tuning, Do(s, call, ssrc, tuning))
  {
    hide Wire, Hand, Early, Jump, Traceable, PopReady, Expire, Monotone, SeenBy, Filed;
    match call.op
    case Release =>
      if s.next.Some? {
        PopTraceable(s, s, call, tuning);
      } else {
        PopReadyFresh();
        NoEventTraceable(s, call, tuning, PopReady(s));
      }
    case TimeOut => ExpireTraceable(s, call, ssrc, tuning);
    case Arrive(packet) =>
      if s.next.None? {
        FirstTraceable(s, call, tuning);
      } else if Forward(s.next.value, packet.rtp.seqno) == 0 {
        InTurnTraceable(s, call, tuning);
      } else if Forward(s.next.value, packet.rtp.seqno) >= HALF {
        NoEventTraceable(s, call, tuning, Step(s, [], Ok(None)));
      } else if Forward(s.next.value, packet.rtp.seqno) > tuning.maxFrames {
        JumpTraceable(s, call, tuning);
      } else {
        EarlyTraceable(s, call, tuning);
      }
  }

  // ----- Runs -----

  /** Call `j` brought the packet for position `q`, and it was handed over or buffered. */
  ghost predicate AcceptedBy(calls: seq<Call>, j: nat, packet: Packet, q: nat, ssrc: u32, tuning: Tuning) {
    && j < |calls| && calls[j].op == Arrive(packet)
    && var s := Run(calls[..j], ssrc, tuning).state;
       q == Place(s, packet) && (Direct(s, calls[j], tuning) || Buffers(s, calls[j], tuning))
  }

  ghost predicate Accepted(calls: seq<Call>, packet: Packet, q: nat, ssrc: u32, tuning: Tuning) {
    exists j: nat :: AcceptedBy(calls, j, packet, q, ssrc, tuning)
  }

  /** A loss report covers the position. */
  ghost predicate ReportedLost(log: seq<Event>, start: nat, q: nat) {
    exists i: nat :: CoveredBy(log, start, q, i) && log[i].Lost?
  }

  /** Every buffered packet was accepted for its place; a place already passed was reported lost. */
  ghost predicate PlacesRight(l: Ledger, calls: seq<Call>, ssrc: u32, tuning: Tuning) {
    var s := l.trace.state;
    && l.places.Keys == s.pending.Keys
    && forall k :: k in l.places ==> PlaceRight(l, calls, ssrc, tuning, k, l.places[k])
  }

  ghost predicate PlaceRight(l: Ledger, calls: seq<Call>, ssrc: u32, tuning: Tuning, k: u16, q: nat) {
    var s := l.trace.state;
    && k in s.pending && s.next.Some? && Wire(q) == k && q < s.next.value + HALF
    && Accepted(calls, s.pending[k], q, ssrc, tuning)
    && (q < s.next.value ==> ReportedLost(l.trace.log, l.trace.start, q))
  }

  /** The event at `position` is a hand-over of a packet accepted for `q`, at or before it and of the same number. */
  ghost predicate OriginRight(e: Event, q: nat, position: nat, calls: seq<Call>, ssrc: u32, tuning: Tuning) {
    e.Handed? ==> Accepted(calls, e.packet, q, ssrc, tuning) && q <= position && Wire(q) == Wire(position)
  }

  ghost predicate OriginsRight(l: Ledger, calls: seq<Call>, ssrc: u32, tuning: Tuning) {
    && |l.origins| == |l.trace.log|
    && forall i :: 0 <= i < |l.trace.log| ==>
         OriginRight(l.trace.log[i], l.origins[i], End(l.trace.log[..i], l.trace.start), calls, ssrc, tuning)
  }

  lemma AcceptedLater(calls: seq<Call>, call: Call, packet: Packet, q: nat, ssrc: u32, tuning: Tuning)
    requires Accepted(calls, packet, q, ssrc, tuning)
    ensures Accepted(calls + [call], packet, q, ssrc, tuning)
  {
    hide Run, Place, Direct, Buffers;
    var j: nat :| AcceptedBy(calls, j, packet, q, ssrc, tuning);
    assert (calls + [call])[..j] == calls[..j];
    assert AcceptedBy(calls + [call], j, packet, q, ssrc, tuning);
  }

  lemma AcceptedNow(calls: seq<Call>, call: Call, ssrc: u32, tuning: Tuning)
    requires call.op.Arrive?
    requires
      var s := Run(calls, ssrc, tuning).state;
      Direct(s, call, tuning) || Buffers(s, call, tuning)
    ensures
      var s := Run(calls, ssrc, tuning).state;
      Accepted(calls + [call], call.op.packet, Place(s, call.op.packet), ssrc, tuning)
  {
    hide Run, Place, Direct, Buffers;
    assert (calls + [call])[..|calls|] == calls;
    assert AcceptedBy(calls + [call], |calls|, call.op.packet, Place(Run(calls, ssrc, tuning).state, call.op.packet), ssrc, tuning);
  }

  lemma CoveredLater(log: seq<Event>, more: seq<Event>, start: nat, q: nat)
    requires ReportedLost(log, start, q)
    ensures ReportedLost(log + more, start, q)
  {
    hide End;
    var i: nat :| CoveredBy(log, start, q, i) && log[i].Lost?;
    assert (log + more)[..i] == log[..i] && (log + more)[..i + 1] == log[..i + 1];
    assert CoveredBy(log + more, start, q, i);
  }

  lemma CoveredNow(log: seq<Event>, events: seq<Event>, start: nat, q: nat)
    requires |events| > 0 && events[0].Lost? && End(log, start) <= q < End(log, start) + Width(events[0])
    ensures ReportedLost(log + events, start, q)
  {
    hide End;
    var all, i := log + events, |log|;
    assert all[..i] == log && all[..i + 1] == log + [events[0]];
    EndSnoc(log, events[0], start);
    assert CoveredBy(all, start, q, i);
  }

  /** The events of a step, position by position. */
  lemma StepEnds(step: Step, n: nat)
    requires StepTiles(step, n) && |step.events| <= 2
    ensures |step.events| == 0 ==> step.state.next == Some(n)
    ensures |step.events| == 1 ==> step.state.next == Some(n + Width(step.events[0]))
    ensures |step.events| == 2 ==> step.state.next == Some(n + Width(step.events[0]) + Width(step.events[1]))
  {
    hide Width, Tiles, End;
    var e := step.events;
    EndOfNone(n);
    if |e| == 1 {
      EndSnoc([], e[0], n);
      assert e == [] + [e[0]];
    } else if |e| == 2 {
      EndSnoc([], e[0], n);
      EndSnoc([e[0]], e[1], n);
      assert [e[0]] == [] + [e[0]] && e == [e[0]] + [e[1]];
    }
  }

  lemma EndOfNone(n: nat)
    ensures End([], n) == n
  {
  }

  /** A buffered packet whose place the step passes is covered by the step's report. */
  lemma PassedIsReported(s: Ssrc, call: Call, tuning: Tuning, step: Step, q: nat)
    requires s.next.Some? && Traceable(s, call, tuning, step) && StepTiles(step, s.next.value)
    requires step.state.next.Some? && s.next.value <= q < step.state.next.value && Wire(q) in step.state.pending
    ensures |step.events| > 0 && step.events[0].Lost? && q < s.next.value + Width(step.events[0])
  {
    hide Wire, Held, Direct, Place, StepTiles;
    StepEnds(step, s.next.value);
  }

  lemma HeldPlace(l: Ledger, calls: seq<Call>, call: Call, ssrc: u32, tuning: Tuning, k: u16)
    requires PlacesRight(l, calls, ssrc, tuning) && l.trace == Run(calls, ssrc, tuning)
    requires k in Held(l.trace.state, call, tuning)
    ensures
      var s := l.trace.state;
      var held := HeldPlaces(l.places, s, call, tuning);
      && k in held && Wire(held[k]) == k && s.next.Some? && held[k] < s.next.value + HALF
      && Accepted(calls + [call], Held(s, call, tuning)[k], held[k], ssrc, tuning)
      && (held[k] < s.next.value ==> ReportedLost(l.trace.log, l.trace.start, held[k]))
  {
    hide Run, Accepted, ReportedLost, Wire, Forward;
    var s := l.trace.state;
    if Buffers(s, call, tuning) && k == call.op.packet.rtp.seqno {
      AcceptedNow(calls, call, ssrc, tuning);
      WireForward(s.next.value, k);
    } else {
      assert k in l.places && PlaceRight(l, calls, ssrc, tuning, k, l.places[k]);
      AcceptedLater(calls, call, s.pending[k], l.places[k], ssrc, tuning);
    }
  }

  lemma HeldPlacesKeys(l: Ledger, calls: seq<Call>, call: Call, ssrc: u32, tuning: Tuning)
    requires PlacesRight(l, calls, ssrc, tuning)
    ensures HeldPlaces(l.places, l.trace.state, call, tuning).Keys == Held(l.trace.state, call, tuning).Keys
  {
    hide PlaceRight, Place;
  }

  lemma KeepsPlaces(l: Ledger, calls: seq<Call>, call: Call, ssrc: u32, tuning: Tuning)
    requires PlacesRight(l, calls, ssrc, tuning) && l.trace == Run(calls, ssrc, tuning)
    requires Accounted(l.trace, call.now, tuning)
    ensures PlacesRight(Enter(l, call, ssrc, tuning), calls + [call], ssrc, tuning)
  {
    hide Run, Accepted, ReportedLost, Do, Origins, PlaceRight, Held, HeldPlaces, Traceable, Inv, Tiles, End, NoLoss,
         TraceInSequence, Accept;
    var s := l.trace.state;
    var step, after := Do(s, call, ssrc, tuning), Enter(l, call, ssrc, tuning);
    DoTraceable(s, call, ssrc, tuning);
    HeldPlacesKeys(l, calls, call, ssrc, tuning);
    PendingIsHeld(s, call, tuning, step);
    forall k | k in after.places
      ensures PlaceRight(after, calls + [call], ssrc, tuning, k, after.places[k])
    {
      KeepsPlace(l, calls, call, ssrc, tuning, k);
    }
  }

  lemma PendingIsHeld(s: Ssrc, call: Call, tuning: Tuning, step: Step)
    requires Traceable(s, call, tuning, step)
    ensures forall k :: k in step.state.pending ==> k in Held(s, call, tuning)
  {
    hide Held, Origin;
  }

  lemma KeepsPlace(l: Ledger, calls: seq<Call>, call: Call, ssrc: u32, tuning: Tuning, k: u16)
    requires PlacesRight(l, calls, ssrc, tuning) && l.trace == Run(calls, ssrc, tuning)
    requires Accounted(l.trace, call.now, tuning) && k in Enter(l, call, ssrc, tuning).places
    ensures
      var after := Enter(l, call, ssrc, tuning);
      PlaceRight(after, calls + [call], ssrc, tuning, k, after.places[k])
  {
    hide Run, Accepted, ReportedLost, Do, Origins, Held, HeldPlaces, Inv, Tiles, End, NoLoss, TraceInSequence, Accept,
         Wire, PlacesRight, Origin;
    var s := l.trace.state;
    var step, held := Do(s, call, ssrc, tuning), HeldPlaces(l.places, s, call, tuning);
    DoTraceable(s, call, ssrc, tuning);
    HeldPlace(l, calls, call, ssrc, tuning, k);
    var q, n := held[k], s.next.value;
    DoTiles(s, call, ssrc, tuning);
    NextGrows(step, n);
    if q < n {
      CoveredLater(l.trace.log, step.events, l.trace.start, q);
    } else if q < step.state.next.value {
      PassedIsReported(s, call, tuning, step, q);
      CoveredNow(l.trace.log, step.events, l.trace.start, q);
    }
  }

  lemma {:induction false} NextGrows(step: Step, n: nat)
    requires StepTiles(step, n)
    ensures step.state.next.Some? && n <= step.state.next.value
  {
    hide Width, Fits;
    EndNotBefore(step.events, n);
  }

  lemma {:induction false} EndNotBefore(log: seq<Event>, start: nat)
    ensures start <= End(log, start)
  {
    if |log| > 0 {
      EndNotBefore(log[..|log| - 1], start);
    }
  }

  // ----- Origins -----

  /** A packet of an earlier cycle sits in the buffer under the number of `position`. */
  predicate Occupied(places: map<u16, nat>, position: nat) {
    Wire(position) in places && places[Wire(position)] < position
  }

  /** A call hands over nothing that was passed, and nothing half a cycle ahead. */
  predicate InReach(s: Ssrc, position: nat) {
    s.next.Some? ==> s.next.value <= position < s.next.value + HALF
  }

  lemma SamePosition(n: nat, p: nat, q: nat)
    requires n <= p < n + HALF && q < n + HALF && Wire(p) == Wire(q)
    ensures q <= p && (q >= n ==> q == p)
  {
  }

  /**
   * The packet handed over at a position was accepted for that very position exactly when it comes in its turn
   * or no packet of an earlier cycle occupies the number; it never is one of a later position.
   */
  lemma HandedOrigin(l: Ledger, calls: seq<Call>, call: Call, ssrc: u32, tuning: Tuning)
    requires PlacesRight(l, calls, ssrc, tuning) && l.trace == Run(calls, ssrc, tuning)
    requires Accounted(l.trace, call.now, tuning)
    requires
      var events := Do(l.trace.state, call, ssrc, tuning).events;
      |events| > 0 && events[|events| - 1].Handed?
    ensures
      var s := l.trace.state;
      var step := Do(s, call, ssrc, tuning);
      var e := step.events[|step.events| - 1];
      var q := OriginOf(e, HeldPlaces(l.places, s, call, tuning), s, call, tuning);
      && step.state.next.Some? && step.state.next.value > 0
      && var position := step.state.next.value - 1;
         && OriginRight(e, q, position, calls + [call], ssrc, tuning) && InReach(s, position)
         && (q == position <==> Direct(s, call, tuning) || !Occupied(l.places, position))
  {
    hide Run, Accepted, Do, Held, HeldPlaces, Inv, Tiles, End, NoLoss, TraceInSequence, Accept, Wire, PlacesRight, Direct,
         Place;
    var s := l.trace.state;
    var step := Do(s, call, ssrc, tuning);
    DoTraceable(s, call, ssrc, tuning);
    var e, position := step.events[|step.events| - 1], step.state.next.value - 1;
    if Direct(s, call, tuning) {
      DirectArrives(s, call, tuning);
      AcceptedNow(calls, call, ssrc, tuning);
    } else {
      var k := Wire(position);
      HeldPlace(l, calls, call, ssrc, tuning, k);
      HeldFiled(s, call, tuning, k);
      var q := HeldPlaces(l.places, s, call, tuning)[k];
      SamePosition(s.next.value, position, q);
      OccupiedOrNew(l, calls, call, ssrc, tuning, position);
    }
  }

  lemma DirectArrives(s: Ssrc, call: Call, tuning: Tuning)
    requires Direct(s, call, tuning)
    ensures call.op.Arrive?
  {
  }

  lemma HeldFiled(s: Ssrc, call: Call, tuning: Tuning, k: u16)
    requires Inv(s, call.now, tuning) && k in Held(s, call, tuning)
    ensures Held(s, call, tuning)[k].rtp.seqno == k
  {
    hide Wire, Forward, Monotone, SeenBy;
  }

  /** A held place below the position is one that was there before the call. */
  lemma OccupiedOrNew(l: Ledger, calls: seq<Call>, call: Call, ssrc: u32, tuning: Tuning, position: nat)
    requires PlacesRight(l, calls, ssrc, tuning) && l.trace.state.next.Some?
    requires l.trace.state.next.value <= position < l.trace.state.next.value + HALF
    requires Wire(position) in Held(l.trace.state, call, tuning)
    ensures
      var held := HeldPlaces(l.places, l.trace.state, call, tuning);
      Wire(position) in held && (held[Wire(position)] < position <==> Occupied(l.places, position))
  {
    hide PlaceRight, Wire, Forward;
    var s, k := l.trace.state, Wire(position);
    if Buffers(s, call, tuning) && k == call.op.packet.rtp.seqno {
      WireForward(s.next.value, k);
      SamePosition(s.next.value, position, Place(s, call.op.packet));
    }
  }

  lemma KeepsOrigins(l: Ledger, calls: seq<Call>, call: Call, ssrc: u32, tuning: Tuning)
    requires PlacesRight(l, calls, ssrc, tuning) && OriginsRight(l, calls, ssrc, tuning)
    requires l.trace == Run(calls, ssrc, tuning) && Accounted(l.trace, call.now, tuning)
    ensures OriginsRight(Enter(l, call, ssrc, tuning), calls + [call], ssrc, tuning)
  {
    hide Run, Do, Held, HeldPlaces, Inv, Tiles, End, NoLoss, TraceInSequence, Accept, PlacesRight, OriginRight, OriginOf;
    var after := Enter(l, call, ssrc, tuning);
    forall i | 0 <= i < |after.trace.log|
      ensures OriginRight(after.trace.log[i], after.origins[i], End(after.trace.log[..i], after.trace.start), calls + [call],
                          ssrc, tuning)
    {
      if i < |l.trace.log| {
        KeepsOldOrigin(l, calls, call, ssrc, tuning, i);
      } else {
        KeepsNewOrigin(l, calls, call, ssrc, tuning, i - |l.trace.log|);
      }
    }
  }

  lemma KeepsOldOrigin(l: Ledger, calls: seq<Call>, call: Call, ssrc: u32, tuning: Tuning, i: nat)
    requires OriginsRight(l, calls, ssrc, tuning) && i < |l.trace.log| && Accounted(l.trace, call.now, tuning)
    ensures
      var after := Enter(l, call, ssrc, tuning);
      && |after.origins| == |after.trace.log| && i < |after.trace.log|
      && after.trace.log[i] == l.trace.log[i] && after.origins[i] == l.origins[i]
      && OriginRight(after.trace.log[i], after.origins[i], End(after.trace.log[..i], after.trace.start), calls + [call],
                     ssrc, tuning)
  {
    hide Run, Do, HeldPlaces, Inv, Tiles, End, NoLoss, TraceInSequence, Accept, Accepted, OriginOf, Wire;
    var after := Enter(l, call, ssrc, tuning);
    assert after.trace.log[..i] == l.trace.log[..i];
    assert OriginRight(l.trace.log[i], l.origins[i], End(l.trace.log[..i], l.trace.start), calls, ssrc, tuning);
    if l.trace.log[i].Handed? {
      AcceptedLater(calls, call, l.trace.log[i].packet, l.origins[i], ssrc, tuning);
    }
  }

  lemma KeepsNewOrigin(l: Ledger, calls: seq<Call>, call: Call, ssrc: u32, tuning: Tuning, j: nat)
    requires PlacesRight(l, calls, ssrc, tuning) && OriginsRight(l, calls, ssrc, tuning)
    requires l.trace == Run(calls, ssrc, tuning) && Accounted(l.trace, call.now, tuning)
    requires j < |Do(l.trace.state, call, ssrc, tuning).events|
    ensures
      var after, i := Enter(l, call, ssrc, tuning), |l.trace.log| + j;
      && |after.origins| == |after.trace.log| && i < |after.trace.log|
      && var position := End(after.trace.log[..i], after.trace.start);
         && OriginRight(after.trace.log[i], after.origins[i], position, calls + [call], ssrc, tuning)
         && (after.trace.log[i].Handed? ==>
               InReach(l.trace.state, position)
               && (after.origins[i] == position
                   <==> Direct(l.trace.state, call, tuning) || !Occupied(l.places, position)))
  {
    hide Run, Do, HeldPlaces, Direct, Occupied, OriginOf, PlacesRight, Enter, End, Accounted, InReach;
    EnterEvent(l, calls, call, ssrc, tuning, j);
    var after, i := Enter(l, call, ssrc, tuning), |l.trace.log| + j;
    if after.trace.log[i].Handed? {
      HandedIsLast(l, call, ssrc, tuning, j);
      HandedOrigin(l, calls, call, ssrc, tuning);
      HandedEnds(l, call, ssrc, tuning);
      assert after.trace.log[..i] == after.trace.log[..|after.trace.log| - 1];
    } else {
      hide Accepted, Wire;
    }
  }

  /** The events of the call and their origins follow those before. */
  lemma EnterEvent(l: Ledger, calls: seq<Call>, call: Call, ssrc: u32, tuning: Tuning, j: nat)
    requires OriginsRight(l, calls, ssrc, tuning) && j < |Do(l.trace.state, call, ssrc, tuning).events|
    ensures
      var s := l.trace.state;
      var after, events := Enter(l, call, ssrc, tuning), Do(s, call, ssrc, tuning).events;
      && |after.origins| == |after.trace.log| == |l.trace.log| + |events|
      && after.trace.log[|l.trace.log| + j] == events[j]
      && after.origins[|l.trace.log| + j] == OriginOf(events[j], HeldPlaces(l.places, s, call, tuning), s, call, tuning)
  {
    hide Do, HeldPlaces, OriginOf, OriginRight, Accept;
  }

  lemma HandedIsLast(l: Ledger, call: Call, ssrc: u32, tuning: Tuning, j: nat)
    requires Accounted(l.trace, call.now, tuning)
    requires
      var events := Do(l.trace.state, call, ssrc, tuning).events;
      j < |events| && events[j].Handed?
    ensures j == |Do(l.trace.state, call, ssrc, tuning).events| - 1
  {
    hide Do, Inv, Origin, Tiles, End, NoLoss, TraceInSequence;
    DoTraceable(l.trace.state, call, ssrc, tuning);
  }

  lemma HandedEnds(l: Ledger, call: Call, ssrc: u32, tuning: Tuning)
    requires Accounted(l.trace, call.now, tuning)
    requires
      var events := Do(l.trace.state, call, ssrc, tuning).events;
      |events| > 0 && events[|events| - 1].Handed?
    ensures
      var after, next := Enter(l, call, ssrc, tuning).trace, Do(l.trace.state, call, ssrc, tuning).state.next;
      |after.log| > 0 && next.Some? && End(after.log[..|after.log| - 1], after.start) == next.value - 1
  {
    hide Do, Inv, NoLoss, TraceInSequence, Accept, Tiles, End, Origin;
    DoTraceable(l.trace.state, call, ssrc, tuning);
    RecordTiles(l.trace, call, ssrc, tuning);
    var after := Record(l.trace, call, ssrc, tuning);
    LastEnds(after.log, after.start);
    StepStarts(l.trace.state, call, ssrc, tuning);
  }

  /** The last event, when a hand-over, sits just before the end. */
  lemma LastEnds(log: seq<Event>, start: nat)
    requires |log| > 0
    ensures log[|log| - 1].Handed? ==> End(log[..|log| - 1], start) == End(log, start) - 1
  {
    var front := log[..|log| - 1];
    EndSnoc(front, log[|log| - 1], start);
    assert log == front + [log[|log| - 1]];
  }

  // ----- The theorem over runs -----

  lemma StartRight(ssrc: u32, tuning: Tuning)
    ensures PlacesRight(Book([], ssrc, tuning), [], ssrc, tuning) && OriginsRight(Book([], ssrc, tuning), [], ssrc, tuning)
  {
    hide PlaceRight, OriginRight;
  }

  lemma BookStep(calls: seq<Call>, ssrc: u32, tuning: Tuning)
    requires |calls| > 0
    ensures Book(calls, ssrc, tuning) == Enter(Book(calls[..|calls| - 1], ssrc, tuning), calls[|calls| - 1], ssrc, tuning)
  {
    hide Enter;
  }

  lemma FrontAccounted(calls: seq<Call>, ssrc: u32, tuning: Tuning)
    requires Clocked(calls) && |calls| > 0
    ensures Clocked(calls[..|calls| - 1])
    ensures Accounted(Run(calls[..|calls| - 1], ssrc, tuning), calls[|calls| - 1].now, tuning)
  {
    hide Run, Inv, Tiles, End, NoLoss, TraceInSequence;
    var front := calls[..|calls| - 1];
    RunAccounted(front, ssrc, tuning);
    LaterKeeps(Run(front, ssrc, tuning).state, LastTime(front), calls[|calls| - 1].now, tuning);
  }

  /** After every run the ledger is right: see `PlacesRight` and `OriginsRight`. */
  lemma {:induction false} RunOrigins(calls: seq<Call>, ssrc: u32, tuning: Tuning)
    requires Clocked(calls)
    ensures PlacesRight(Book(calls, ssrc, tuning), calls, ssrc, tuning)
    ensures OriginsRight(Book(calls, ssrc, tuning), calls, ssrc, tuning)
  {
    hide Run, Book, Enter, PlacesRight, OriginsRight, Accounted;
    if |calls| == 0 {
      assert calls == [];
      StartRight(ssrc, tuning);
    } else {
      var front, call := calls[..|calls| - 1], calls[|calls| - 1];
      FrontAccounted(calls, ssrc, tuning);
      RunOrigins(front, ssrc, tuning);
      BookIsRun(front, ssrc, tuning);
      BookStep(calls, ssrc, tuning);
      KeepsPlaces(Book(front, ssrc, tuning), front, call, ssrc, tuning);
      KeepsOrigins(Book(front, ssrc, tuning), front, call, ssrc, tuning);
      assert calls == front + [call];
    }
  }

  /** Event `i` was a hand-over made by call `m`, of the packet accepted for `q`. */
  ghost predicate HandedBy(calls: seq<Call>, ssrc: u32, tuning: Tuning, i: nat, m: nat) {
    && m < |calls|
    && var before, t, book := Book(calls[..m], ssrc, tuning), Run(calls, ssrc, tuning), Book(calls, ssrc, tuning);
       && |before.trace.log| <= i < |Run(calls[..m + 1], ssrc, tuning).log| && i < |t.log| == |book.origins|
       && var position := End(t.log[..i], t.start);
          && InReach(before.trace.state, position)
          && (book.origins[i] == position
              <==> Direct(before.trace.state, calls[m], tuning) || !Occupied(before.places, position))
  }

  /**
   * Over every run, losses included: a packet handed over at a position was accepted for a position of the same
   * number at or before it. It was accepted for that very position if and only if it comes in its turn, or no
   * packet of an earlier cycle, passed over and reported lost then, occupies the number when its turn comes.
   */
  lemma {:induction false} HandedIdentity(calls: seq<Call>, ssrc: u32, tuning: Tuning, i: nat) returns (m: nat)
    requires Clocked(calls) && i < |Run(calls, ssrc, tuning).log| && Run(calls, ssrc, tuning).log[i].Handed?
    ensures HandedBy(calls, ssrc, tuning, i, m)
    ensures PlacesRight(Book(calls[..m], ssrc, tuning), calls[..m], ssrc, tuning)
    ensures
      var t, book := Run(calls, ssrc, tuning), Book(calls, ssrc, tuning);
      OriginRight(t.log[i], book.origins[i], End(t.log[..i], t.start), calls, ssrc, tuning)
    decreases |calls|
  {
    hide Enter, Do, Book, Run, PlacesRight, OriginRight, HandedBy;
    RunOrigins(calls, ssrc, tuning);
    BookIsRun(calls, ssrc, tuning);
    NotEmpty(calls, ssrc, tuning);
    var front := calls[..|calls| - 1];
    FrontAccounted(calls, ssrc, tuning);
    if i < |Run(front, ssrc, tuning).log| {
      EarlierEvent(calls, ssrc, tuning, i);
      m := HandedIdentity(front, ssrc, tuning, i);
      HandedByLater(calls, ssrc, tuning, i, m);
    } else {
      m := |calls| - 1;
      RunOrigins(front, ssrc, tuning);
      LatestEvent(calls, ssrc, tuning, i);
    }
  }

  lemma HandedByLater(calls: seq<Call>, ssrc: u32, tuning: Tuning, i: nat, m: nat)
    requires |calls| > 0 && HandedBy(calls[..|calls| - 1], ssrc, tuning, i, m)
    requires i < |Run(calls, ssrc, tuning).log| == |Book(calls, ssrc, tuning).origins|
    requires
      var before, t := Run(calls[..|calls| - 1], ssrc, tuning), Run(calls, ssrc, tuning);
      t.log[..i] == before.log[..i] && t.start == before.start
    ensures HandedBy(calls, ssrc, tuning, i, m) && calls[..m] == calls[..|calls| - 1][..m]
  {
    hide Run, Book, End, Direct, Occupied, Do, Origins, InReach;
    var front := calls[..|calls| - 1];
    assert calls[..m] == front[..m] && calls[..m + 1] == front[..m + 1] && calls[m] == front[m];
    BookStep(calls, ssrc, tuning);
  }

  lemma LatestEvent(calls: seq<Call>, ssrc: u32, tuning: Tuning, i: nat)
    requires Clocked(calls) && |calls| > 0
    requires |Run(calls[..|calls| - 1], ssrc, tuning).log| <= i < |Run(calls, ssrc, tuning).log|
    requires Run(calls, ssrc, tuning).log[i].Handed?
    requires
      var front := calls[..|calls| - 1];
      && PlacesRight(Book(front, ssrc, tuning), front, ssrc, tuning)
      && OriginsRight(Book(front, ssrc, tuning), front, ssrc, tuning)
      && Accounted(Run(front, ssrc, tuning), calls[|calls| - 1].now, tuning)
    ensures HandedBy(calls, ssrc, tuning, i, |calls| - 1)
  {
    hide Run, Book, Do, PlacesRight, OriginsRight, Accounted, Direct, Occupied, OriginRight, End, Enter, InReach;
    var front, call := calls[..|calls| - 1], calls[|calls| - 1];
    var l := Book(front, ssrc, tuning);
    BookIsRun(front, ssrc, tuning);
    BookIsRun(calls, ssrc, tuning);
    BookStep(calls, ssrc, tuning);
    EnterLogs(l, call, ssrc, tuning);
    KeepsNewOrigin(l, front, call, ssrc, tuning, i - |l.trace.log|);
    assert calls[..|calls|] == calls;
  }

  lemma EnterLogs(l: Ledger, call: Call, ssrc: u32, tuning: Tuning)
    ensures |Enter(l, call, ssrc, tuning).trace.log| == |l.trace.log| + |Do(l.trace.state, call, ssrc, tuning).events|
  {
    hide Do, Accept;
  }

  lemma NotEmpty(calls: seq<Call>, ssrc: u32, tuning: Tuning)
    requires |Run(calls, ssrc, tuning).log| > 0
    ensures |calls| > 0
  {
  }

  lemma EarlierEvent(calls: seq<Call>, ssrc: u32, tuning: Tuning, i: nat)
    requires |calls| > 0 && i < |Run(calls[..|calls| - 1], ssrc, tuning).log|
    ensures
      var before, t := Run(calls[..|calls| - 1], ssrc, tuning), Run(calls, ssrc, tuning);
      i < |t.log| && t.log[i] == before.log[i] && t.log[..i] == before.log[..i] && t.start == before.start
  {
    hide Do, Accept;
    var front := calls[..|calls| - 1];
    StartStays(front, ssrc, tuning);
  }

  /** Once something was logged the first packet has come, and its position stays. */
  lemma {:induction false} StartStays(calls: seq<Call>, ssrc: u32, tuning: Tuning)
    ensures |Run(calls, ssrc, tuning).log| > 0 ==> Run(calls, ssrc, tuning).state.next.Some?
  {
    if |calls| > 0 {
      var front := calls[..|calls| - 1];
      StartStays(front, ssrc, tuning);
      StepStarts(Run(front, ssrc, tuning).state, calls[|calls| - 1], ssrc, tuning);
      hide Do, Accept;
    }
  }

  lemma StepStarts(s: Ssrc, call: Call, ssrc: u32, tuning: Tuning)
    ensures
      var step := Do(s, call, ssrc, tuning);
      s.next.Some? || |step.events| > 0 ==> step.state.next.Some?
  {
    hide Wire, FirstUser, Taken, Assembler.Push, Marked;
  }
}
