/** Whole runs of the reorder buffer: sequence conservation and arrival-order independence. */
module ReorderRun {
  import opened Prelude
  import opened Assembler
  import opened Reorder

  // ----- Every position is accounted for exactly once -----

  function Width(e: Event): nat {
    match e
    case Handed(_) => 1
    case Lost(report) => report.count
  }

  /** The event speaks of exactly the `Width(e)` positions from `position` on. */
  ghost predicate Fits(e: Event, position: nat) {
    match e
    case Handed(packet) => packet.rtp.seqno == Wire(position)
    case Lost(report) =>
      && report.count > 0
      && report.firstSeq == Wire(position) && report.lastSeq == Wire(position + report.count - 1)
  }

  /** The position after a log that begins at `start`. */
  ghost function End(log: seq<Event>, start: nat): nat {
    if |log| == 0 then start else End(log[..|log| - 1], start) + Width(log[|log| - 1])
  }

  /** Every event covers the positions that follow those of the events before it. */
  ghost predicate Tiles(log: seq<Event>, start: nat) {
    forall i :: 0 <= i < |log| ==> Fits(log[i], End(log[..i], start))
  }

  lemma EndSnoc(log: seq<Event>, e: Event, start: nat)
    ensures End(log + [e], start) == End(log, start) + Width(e)
  {
    assert (log + [e])[..|log|] == log;
  }

  lemma TilesSnoc(log: seq<Event>, e: Event, start: nat)
    requires Tiles(log, start) && Fits(e, End(log, start))
    ensures Tiles(log + [e], start) && End(log + [e], start) == End(log, start) + Width(e)
  {
    hide Fits, End;
    EndSnoc(log, e, start);
    var all := log + [e];
    forall i | 0 <= i < |all|
      ensures Fits(all[i], End(all[..i], start))
    {
      assert all[..i] == log[..i];
      assert log[..|log|] == log;
    }
  }

  lemma {:induction false} EndGrows(log: seq<Event>, start: nat, i: nat, j: nat)
    requires i <= j <= |log| && Tiles(log, start)
    ensures End(log[..i], start) <= End(log[..j], start)
    ensures i < j ==> End(log[..i], start) < End(log[..j], start)
    decreases j
  {
    if i < j {
      EndGrows(log, start, i, j - 1);
      EndSnoc(log[..j - 1], log[j - 1], start);
      assert log[..j] == log[..j - 1] + [log[j - 1]];
      assert Fits(log[j - 1], End(log[..j - 1], start));
    }
  }

  ghost predicate CoveredBy(log: seq<Event>, start: nat, position: nat, i: nat) {
    i < |log| && End(log[..i], start) <= position < End(log[..i + 1], start)
  }

  /** One event, and only one, covers a position. */
  lemma {:induction false} CoveredOnce(log: seq<Event>, start: nat, position: nat) returns (i: nat)
    requires Tiles(log, start) && start <= position < End(log, start)
    ensures CoveredBy(log, start, position, i)
    ensures Fits(log[i], End(log[..i], start)) && End(log[..i + 1], start) == End(log[..i], start) + Width(log[i])
    ensures forall j: nat :: CoveredBy(log, start, position, j) ==> i == j
  {
    hide Fits, Width, Wire;
    i := FindCover(log, start, position);
    assert log[..i + 1] == log[..i] + [log[i]];
    EndSnoc(log[..i], log[i], start);
    forall j: nat | CoveredBy(log, start, position, j)
      ensures i == j
    {
      if i < j {
        EndGrows(log, start, i + 1, j);
      } else {
        EndGrows(log, start, j + 1, i + (if i == j then 1 else 0));
      }
    }
  }

  lemma {:induction false} FindCover(log: seq<Event>, start: nat, position: nat) returns (i: nat)
    requires start <= position < End(log, start)
    ensures CoveredBy(log, start, position, i)
  {
    hide Width;
    assert log[..|log|] == log;
    var front := log[..|log| - 1];
    if position < End(front, start) {
      i := FindCover(front, start, position);
      assert log[..i] == front[..i] && log[..i + 1] == front[..i + 1];
    } else {
      i := |log| - 1;
    }
  }

  // ----- Runs -----

  datatype Op = Arrive(packet: Packet) | Release | TimeOut

  datatype Call = Call(op: Op, now: nat)

  function Do(s: Ssrc, call: Call, ssrc: u32, tuning: Tuning): Step {
    match call.op
    case Arrive(packet) => PushMedia(s, packet, call.now, tuning)
    case Release => PopReady(s)
    case TimeOut => Expire(s, ssrc, call.now, tuning.ttl, false)
  }

  /**
   * A run's record: the position of its first packet, what left the buffer, and by position the
   * packets that were accepted - the first to arrive ahead of its turn, or the one in its turn.
   */
  datatype Trace = Trace(state: Ssrc, start: nat, log: seq<Event>, accepted: map<nat, Packet>)

  function Accept(accepted: map<nat, Packet>, s: Ssrc, packet: Packet): map<nat, Packet> {
    if s.next.None? then accepted[packet.rtp.seqno as nat := packet]
    else
      var forward := Forward(s.next.value, packet.rtp.seqno);
      var position := s.next.value + forward;
      if forward == 0 || (forward < HALF && position !in accepted) then accepted[position := packet] else accepted
  }

  function Record(t: Trace, call: Call, ssrc: u32, tuning: Tuning): Trace {
    var step := Do(t.state, call, ssrc, tuning);
    Trace(step.state,
          if t.state.next.None? && call.op.Arrive? then call.op.packet.rtp.seqno else t.start,
          t.log + step.events,
          if call.op.Arrive? then Accept(t.accepted, t.state, call.op.packet) else t.accepted)
  }

  function Run(calls: seq<Call>, ssrc: u32, tuning: Tuning): Trace {
    if |calls| == 0 then Trace(FRESH, 0, [], map[])
    else Record(Run(calls[..|calls| - 1], ssrc, tuning), calls[|calls| - 1], ssrc, tuning)
  }

  /** The clock never runs backwards. */
  ghost predicate Clocked(calls: seq<Call>) {
    forall i, j :: 0 <= i < j < |calls| ==> calls[i].now <= calls[j].now
  }

  function LastTime(calls: seq<Call>): nat {
    if |calls| == 0 then 0 else calls[|calls| - 1].now
  }

  lemma LaterKeeps(s: Ssrc, now: nat, later: nat, tuning: Tuning)
    requires Inv(s, now, tuning) && now <= later
    ensures Inv(s, later, tuning)
  {
    hide Wire, Filed, Monotone;
  }

  lemma DoKeeps(s: Ssrc, call: Call, ssrc: u32, tuning: Tuning)
    requires Inv(s, call.now, tuning)
    ensures Inv(Do(s, call, ssrc, tuning).state, call.now, tuning)
  {
    hide Inv, PushMedia, PopReady, Expire;
    match call.op
    case Arrive(packet) => PushKeeps(s, packet, call.now, tuning);
    case Release => PopReadyKeeps(s, call.now, tuning);
    case TimeOut => ExpireKeeps(s, ssrc, call.now, tuning, false);
  }

  // ----- One step tiles -----

  /** From `position` the step's events cover every position up to the new next one. */
  ghost predicate StepTiles(step: Step, position: nat) {
    step.state.next.Some? && Tiles(step.events, position) && step.state.next.value == End(step.events, position)
  }

  lemma StepTilesOne(step: Step, position: nat, e: Event)
    requires step.events == [e] && Fits(e, position) && step.state.next == Some(position + Width(e))
    ensures StepTiles(step, position)
  {
    hide Fits, Width;
    assert [] + [e] == [e];
    assert Tiles([], position) && End([], position) == position;
    TilesSnoc([], e, position);
  }

  lemma StepTilesNone(step: Step, position: nat)
    requires step.events == [] && step.state.next == Some(position)
    ensures StepTiles(step, position)
  {
  }

  lemma HandTiles(s: Ssrc, position: nat, packet: Packet)
    requires packet.rtp.seqno == Wire(position)
    ensures StepTiles(Hand(s, position, packet), position)
  {
    hide Assembler.Push, StepTiles, Wire;
    StepTilesOne(Hand(s, position, packet), position, Handed(packet));
  }

  lemma PopReadyTiles(s: Ssrc)
    requires s.next.Some? && Filed(s.pending)
    ensures StepTiles(PopReady(s), s.next.value)
  {
    hide Hand, StepTiles, Wire;
    var n := s.next.value;
    if s.assembler.completed != [] || Wire(n) !in s.pending {
      StepTilesNone(PopReady(s), n);
    } else {
      HandTiles(s.(gap := Rest(s.gap), pending := s.pending - {Wire(n)}), n, s.pending[Wire(n)]);
    }
  }

  lemma ExpireTiles(s: Ssrc, ssrc: u32, now: nat, ttl: nat, force: bool)
    requires s.next.Some? && |s.gap| < HALF
    ensures StepTiles(Expire(s, ssrc, now, ttl, force), s.next.value)
  {
    hide StepTiles, Wire, FirstUser, ExpiredPrefix;
    var n := s.next.value;
    var step := Expire(s, ssrc, now, ttl, force);
    if Taken(s.gap, now, ttl, force) == 0 {
      StepTilesNone(step, n);
    } else {
      StepTilesOne(step, n, step.events[0]);
    }
  }

  lemma StepsTile(first: Step, second: Step, position: nat)
    requires StepTiles(first, position) && StepTiles(second, first.state.next.value)
    ensures StepTiles(second.(events := first.events + second.events), position)
  {
    TilesAppend(first.events, second.events, position);
  }

  lemma {:induction false} TilesAppend(log: seq<Event>, more: seq<Event>, start: nat)
    requires Tiles(log, start) && Tiles(more, End(log, start))
    ensures Tiles(log + more, start) && End(log + more, start) == End(more, End(log, start))
    decreases |more|
  {
    hide Fits, Width, Tiles;
    if |more| == 0 {
      assert log + more == log;
    } else {
      var front, last := more[..|more| - 1], more[|more| - 1];
      FrontTiles(more, End(log, start));
      TilesAppend(log, front, start);
      TilesSnoc(log + front, last, start);
      assert log + more == log + front + [last];
    }
  }

  lemma FrontTiles(log: seq<Event>, start: nat)
    requires |log| > 0 && Tiles(log, start)
    ensures Tiles(log[..|log| - 1], start) && Fits(log[|log| - 1], End(log[..|log| - 1], start))
  {
    hide Fits, End;
    var front := log[..|log| - 1];
    forall i | 0 <= i < |front|
      ensures Fits(front[i], End(front[..i], start))
    {
      assert front[..i] == log[..i];
    }
  }

  lemma JumpTiles(position: nat, forward: nat, packet: Packet)
    requires 0 < forward < HALF && packet.rtp.seqno == Wire(position + forward)
    ensures StepTiles(Jump(position, forward, packet), position)
  {
    hide StepTiles, Wire, Hand;
    var lost := Jump(position, forward, packet).events[0];
    var first := Step(FRESH.(next := Some(position + forward)), [lost], Ok(None));
    StepTilesOne(first, position, lost);
    HandTiles(FRESH, position + forward, packet);
    StepsTile(first, Hand(FRESH, position + forward, packet), position);
  }

  lemma EarlyTiles(s: Ssrc, forward: nat, packet: Packet, now: nat, tuning: Tuning)
    requires Inv(s, now, tuning) && s.next.Some?
    requires forward == Forward(s.next.value, packet.rtp.seqno) && 0 < forward < HALF && forward <= tuning.maxFrames
    ensures StepTiles(Early(s, forward, packet, now, tuning), s.next.value)
  {
    hide StepTiles, Wire, Forward, PopReady, Expire, Monotone, SeenBy;
    BufferedSound(s, forward, packet, now, tuning);
    var b := Buffered(s, forward, packet, now);
    var expiry := if |b.pending| > tuning.maxFrames then Expire(b, packet.rtp.ssrc, now, tuning.ttl, true)
                  else Step(b, [], Ok(None));
    if |b.pending| > tuning.maxFrames {
      ExpireTiles(b, packet.rtp.ssrc, now, tuning.ttl, true);
      ForcedReady(b, packet.rtp.ssrc, now, tuning);
    } else {
      StepTilesNone(expiry, s.next.value);
    }
    PopReadyTiles(expiry.state);
    StepsTile(expiry, PopReady(expiry.state), s.next.value);
  }

  lemma PushTiles(s: Ssrc, packet: Packet, now: nat, tuning: Tuning)
    requires Inv(s, now, tuning)
    ensures StepTiles(PushMedia(s, packet, now, tuning), if s.next.Some? then s.next.value else packet.rtp.seqno)
  {
    hide StepTiles, Hand, Early, Jump, Sound;
    var seqno := packet.rtp.seqno;
    if s.next.None? {
      HandTiles(s, seqno, packet);
    } else {
      var n := s.next.value;
      var forward := Forward(n, seqno);
      WireForward(n, seqno);
      if forward == 0 {
        HandTiles(s.(gap := Rest(s.gap), pending := s.pending - {seqno}), n, packet);
      } else if forward >= HALF {
        StepTilesNone(PushMedia(s, packet, now, tuning), n);
      } else if forward > tuning.maxFrames {
        JumpTiles(n, forward, packet);
      } else {
        EarlyTiles(s, forward, packet, now, tuning);
      }
    }
  }

  lemma DoTiles(s: Ssrc, call: Call, ssrc: u32, tuning: Tuning)
    requires Inv(s, call.now, tuning) && s.next.Some?
    ensures StepTiles(Do(s, call, ssrc, tuning), s.next.value)
  {
    hide StepTiles, PushMedia, PopReady, Expire, Wire, Monotone, SeenBy;
    match call.op
    case Arrive(packet) => PushTiles(s, packet, call.now, tuning);
    case Release => PopReadyTiles(s);
    case TimeOut => ExpireTiles(s, ssrc, call.now, tuning.ttl, false);
  }

  // ----- Lossless runs -----

  /** The events are hand-overs of the accepted packets, in sequence order. */
  ghost predicate HandedAre(start: nat, log: seq<Event>, accepted: map<nat, Packet>) {
    forall p :: start <= p < start + |log| ==> p in accepted && log[p - start] == Handed(accepted[p])
  }

  /** Whatever is buffered was accepted for a position in the window ahead. */
  ghost predicate PendingAre(next: nat, pending: map<u16, Packet>, accepted: map<nat, Packet>, maxFrames: nat) {
    forall k {:trigger pending[k]} :: k in pending ==>
      && Forward(next, k) < HALF && Forward(next, k) <= maxFrames
      && next + Forward(next, k) in accepted && accepted[next + Forward(next, k)] == pending[k]
  }

  /** Whatever was accepted has had its turn or is buffered. */
  ghost predicate AllKept(next: nat, pending: map<u16, Packet>, start: nat, accepted: map<nat, Packet>) {
    forall p :: p in accepted ==> start <= p && (p >= next ==> p - next < HALF && Wire(p) in pending)
  }

  /** What the run without a loss looks like: see `LosslessRun`. */
  ghost predicate InSequence(next: nat, pending: map<u16, Packet>, start: nat, log: seq<Event>,
                             accepted: map<nat, Packet>, maxFrames: nat) {
    && start + |log| == next && HandedAre(start, log, accepted)
    && PendingAre(next, pending, accepted, maxFrames) && AllKept(next, pending, start, accepted)
  }

  lemma AdvancePending(next: nat, pending: map<u16, Packet>, accepted: map<nat, Packet>, maxFrames: nat, packet: Packet)
    requires PendingAre(next, pending, accepted, maxFrames)
    ensures PendingAre(next + 1, pending - {Wire(next)}, accepted[next := packet], maxFrames)
  {
    forall k | k in pending - {Wire(next)}
      ensures Forward(next + 1, k) == Forward(next, k) - 1 >= 0
    {
      WireForward(next, k);
      ForwardNext(next, k);
    }
    hide Wire, Forward;
  }

  lemma AdvanceKept(next: nat, pending: map<u16, Packet>, start: nat, accepted: map<nat, Packet>, packet: Packet)
    requires AllKept(next, pending, start, accepted) && start <= next
    ensures AllKept(next + 1, pending - {Wire(next)}, start, accepted[next := packet])
  {
    hide Wire;
    forall p | p in accepted && p >= next + 1
      ensures Wire(p) in pending - {Wire(next)}
    {
      WireDiffers(next, p - next);
    }
  }

  lemma HandedExtends(start: nat, log: seq<Event>, accepted: map<nat, Packet>, position: nat, packet: Packet)
    requires HandedAre(start, log, accepted) && position >= start + |log|
    ensures HandedAre(start, log, accepted[position := packet])
  {
  }

  lemma HandedSnoc(start: nat, log: seq<Event>, accepted: map<nat, Packet>, packet: Packet)
    requires HandedAre(start, log, accepted)
    ensures HandedAre(start, log + [Handed(packet)], accepted[start + |log| := packet])
  {
  }

  lemma AdvanceInSequence(next: nat, pending: map<u16, Packet>, start: nat, log: seq<Event>,
                          accepted: map<nat, Packet>, maxFrames: nat, packet: Packet)
    requires InSequence(next, pending, start, log, accepted, maxFrames)
    ensures InSequence(next + 1, pending - {Wire(next)}, start, log + [Handed(packet)], accepted[next := packet], maxFrames)
  {
    hide HandedAre, PendingAre, AllKept, Wire;
    HandedSnoc(start, log, accepted, packet);
    AdvancePending(next, pending, accepted, maxFrames, packet);
    AdvanceKept(next, pending, start, accepted, packet);
  }

  lemma BufferInSequence(next: nat, pending: map<u16, Packet>, start: nat, log: seq<Event>,
                         accepted: map<nat, Packet>, maxFrames: nat, packet: Packet)
    requires InSequence(next, pending, start, log, accepted, maxFrames)
    requires 0 < Forward(next, packet.rtp.seqno) < HALF && Forward(next, packet.rtp.seqno) <= maxFrames
    ensures
      var seqno, position := packet.rtp.seqno, next + Forward(next, packet.rtp.seqno);
      && (seqno in pending <==> position in accepted)
      && InSequence(next, if seqno in pending then pending else pending[seqno := packet], start, log,
                    if position in accepted then accepted else accepted[position := packet], maxFrames)
  {
    hide Wire, Forward, HandedAre, PendingAre, AllKept;
    var seqno, position := packet.rtp.seqno, next + Forward(next, packet.rtp.seqno);
    BufferedIffAccepted(next, pending, start, accepted, maxFrames, seqno);
    if seqno !in pending {
      HandedExtends(start, log, accepted, position, packet);
      BufferPending(next, pending, accepted, maxFrames, packet);
      BufferKept(next, pending, start, accepted, packet);
    }
  }

  lemma BufferedIffAccepted(next: nat, pending: map<u16, Packet>, start: nat, accepted: map<nat, Packet>,
                            maxFrames: nat, seqno: u16)
    requires PendingAre(next, pending, accepted, maxFrames) && AllKept(next, pending, start, accepted)
    ensures seqno in pending <==> next + Forward(next, seqno) in accepted
  {
    WireForward(next, seqno);
    hide Wire, Forward;
    if seqno in pending {
      PendingAt(next, pending, accepted, maxFrames, seqno);
    }
  }

  lemma BufferPending(next: nat, pending: map<u16, Packet>, accepted: map<nat, Packet>, maxFrames: nat, packet: Packet)
    requires PendingAre(next, pending, accepted, maxFrames)
    requires Forward(next, packet.rtp.seqno) < HALF && Forward(next, packet.rtp.seqno) <= maxFrames
    requires next + Forward(next, packet.rtp.seqno) !in accepted
    ensures PendingAre(next, pending[packet.rtp.seqno := packet],
                       accepted[next + Forward(next, packet.rtp.seqno) := packet], maxFrames)
  {
    hide Forward;
  }

  lemma BufferKept(next: nat, pending: map<u16, Packet>, start: nat, accepted: map<nat, Packet>, packet: Packet)
    requires AllKept(next, pending, start, accepted) && start <= next && Forward(next, packet.rtp.seqno) < HALF
    ensures AllKept(next, pending[packet.rtp.seqno := packet], start,
                    accepted[next + Forward(next, packet.rtp.seqno) := packet])
  {
    WireForward(next, packet.rtp.seqno);
    hide Wire, Forward;
  }

  /** A packet accepted for a position ahead is in the buffer. */
  ghost predicate Waits(next: nat, pending: map<u16, Packet>, accepted: map<nat, Packet>, maxFrames: nat, p: nat) {
    p in accepted && p <= next + maxFrames && Wire(p) in pending && pending[Wire(p)] == accepted[p]
  }

  ghost predicate NoLoss(log: seq<Event>) {
    forall i :: 0 <= i < |log| ==> log[i].Handed?
  }

  ghost predicate TraceInSequence(t: Trace, maxFrames: nat) {
    t.state.next.Some? ==> InSequence(t.state.next.value, t.state.pending, t.start, t.log, t.accepted, maxFrames)
  }

  lemma NextWasAccepted(s: Ssrc, start: nat, log: seq<Event>, accepted: map<nat, Packet>, maxFrames: nat)
    requires s.next.Some? && InSequence(s.next.value, s.pending, start, log, accepted, maxFrames)
    requires Wire(s.next.value) in s.pending
    ensures accepted[s.next.value := s.pending[Wire(s.next.value)]] == accepted
  {
    hide HandedAre, AllKept;
    ForwardWire(s.next.value, 0);
  }

  lemma PopInSequence(s: Ssrc, start: nat, log: seq<Event>, accepted: map<nat, Packet>, maxFrames: nat)
    requires s.next.Some? && InSequence(s.next.value, s.pending, start, log, accepted, maxFrames)
    ensures
      var step := PopReady(s);
      && step.state.next.Some?
      && InSequence(step.state.next.value, step.state.pending, start, log + step.events, accepted, maxFrames)
  {
    hide HandedAre, AllKept, InSequence, PendingAre, Forward, Wire, Assembler.Push;
    var n := s.next.value;
    if s.assembler.completed == [] && Wire(n) in s.pending {
      var packet := s.pending[Wire(n)];
      NextWasAccepted(s, start, log, accepted, maxFrames);
      AdvanceInSequence(n, s.pending, start, log, accepted, maxFrames, packet);
    } else {
      assert log + [] == log;
    }
  }

  lemma LostIsLoss(log: seq<Event>, events: seq<Event>, i: nat)
    requires i < |events| && events[i].Lost?
    ensures !NoLoss(log + events)
  {
    assert (log + events)[|log| + i] == events[i];
  }

  lemma BufferedParts(s: Ssrc, forward: nat, packet: Packet, now: nat)
    ensures
      var b, seqno := Buffered(s, forward, packet, now), packet.rtp.seqno;
      && b.next == s.next
      && b.pending == if seqno in s.pending then s.pending else s.pending[seqno := packet]
  {
    hide Marked;
  }

  lemma AcceptAhead(accepted: map<nat, Packet>, s: Ssrc, packet: Packet)
    requires s.next.Some? && 0 < Forward(s.next.value, packet.rtp.seqno) < HALF
    ensures
      var position := s.next.value + Forward(s.next.value, packet.rtp.seqno);
      Accept(accepted, s, packet) == if position in accepted then accepted else accepted[position := packet]
  {
    hide Forward;
  }

  /** Buffering without a forced expiry; a forced one reports a loss. */
  lemma EarlyInSequence(s: Ssrc, start: nat, log: seq<Event>, accepted: map<nat, Packet>, packet: Packet, now: nat,
                        tuning: Tuning)
    requires Inv(s, now, tuning) && s.next.Some?
    requires InSequence(s.next.value, s.pending, start, log, accepted, tuning.maxFrames)
    requires 0 < Forward(s.next.value, packet.rtp.seqno) < HALF
    requires Forward(s.next.value, packet.rtp.seqno) <= tuning.maxFrames
    ensures
      var step := Early(s, Forward(s.next.value, packet.rtp.seqno), packet, now, tuning);
      NoLoss(log + step.events) ==>
        && step.state.next.Some?
        && InSequence(step.state.next.value, step.state.pending, start, log + step.events,
                      Accept(accepted, s, packet), tuning.maxFrames)
  {
    hide InSequence, Sound, Wire, Forward, PopReady, Buffered, Expire, NoLoss, Accept;
    var n := s.next.value;
    var forward := Forward(n, packet.rtp.seqno);
    var b := Buffered(s, forward, packet, now);
    BufferedParts(s, forward, packet, now);
    AcceptAhead(accepted, s, packet);
    BufferInSequence(n, s.pending, start, log, accepted, tuning.maxFrames, packet);
    if |b.pending| > tuning.maxFrames {
      BufferedSound(s, forward, packet, now, tuning);
      ForcedReports(b, packet.rtp.ssrc, now, tuning);
      LostIsLoss(log, Early(s, forward, packet, now, tuning).events, 0);
    } else {
      PopInSequence(b, start, log, Accept(accepted, s, packet), tuning.maxFrames);
      assert [] + PopReady(b).events == PopReady(b).events;
    }
  }

  lemma ForcedReports(s: Ssrc, ssrc: u32, now: nat, tuning: Tuning)
    requires Sound(s, now, tuning) && |s.gap| > 0
    ensures
      var events := Expire(s, ssrc, now, tuning.ttl, true).events;
      |events| == 1 && events[0].Lost?
  {
    hide Wire, FirstUser, Monotone, SeenBy, Filed;
  }

  lemma FirstInSequence(packet: Packet, maxFrames: nat)
    ensures
      var p := packet.rtp.seqno;
      InSequence(p + 1, map[], p, [Handed(packet)], map[p as nat := packet], maxFrames)
  {
  }

  lemma HandParts(s: Ssrc, position: nat, packet: Packet)
    ensures
      var step := Hand(s, position, packet);
      step.state.next == Some(position + 1) && step.state.pending == s.pending && step.events == [Handed(packet)]
  {
    hide Assembler.Push;
  }

  lemma JumpReports(position: nat, forward: nat, packet: Packet)
    requires 0 < forward < HALF
    ensures |Jump(position, forward, packet).events| > 0 && Jump(position, forward, packet).events[0].Lost?
  {
    hide Hand, Wire;
  }

  lemma ArriveInSequence(t: Trace, packet: Packet, now: nat, ssrc: u32, tuning: Tuning)
    requires Inv(t.state, now, tuning) && TraceInSequence(t, tuning.maxFrames)
    requires t.state.next.None? ==> t.log == [] && t.accepted == map[]
    ensures
      var after := Record(t, Call(Arrive(packet), now), ssrc, tuning);
      NoLoss(after.log) ==> TraceInSequence(after, tuning.maxFrames)
  {
    hide InSequence, Sound, Wire, Early, NoLoss, Hand, Jump;
    var s, seqno := t.state, packet.rtp.seqno;
    if s.next.None? {
      FirstInSequence(packet, tuning.maxFrames);
      SoundFresh(s, now, tuning);
      HandParts(s, seqno, packet);
      assert [] + [Handed(packet)] == [Handed(packet)];
    } else {
      var n, forward := s.next.value, Forward(s.next.value, seqno);
      if forward == 0 {
        WireForward(n, seqno);
        HandParts(s.(gap := Rest(s.gap), pending := s.pending - {seqno}), n, packet);
        AdvanceInSequence(n, s.pending, t.start, t.log, t.accepted, tuning.maxFrames, packet);
      } else if forward >= HALF {
        assert t.log + [] == t.log;
      } else if forward > tuning.maxFrames {
        JumpReports(n, forward, packet);
        LostIsLoss(t.log, Jump(n, forward, packet).events, 0);
      } else {
        EarlyInSequence(s, t.start, t.log, t.accepted, packet, now, tuning);
      }
    }
  }

  lemma SoundFresh(s: Ssrc, now: nat, tuning: Tuning)
    requires Sound(s, now, tuning) && s.next.None?
    ensures s == FRESH
  {
  }

  lemma DoInSequence(t: Trace, call: Call, ssrc: u32, tuning: Tuning)
    requires Inv(t.state, call.now, tuning) && TraceInSequence(t, tuning.maxFrames)
    requires t.state.next.None? ==> t.log == [] && t.accepted == map[]
    ensures
      var after := Record(t, call, ssrc, tuning);
      NoLoss(after.log) ==> TraceInSequence(after, tuning.maxFrames)
  {
    hide InSequence, Wire, PopReady, PushMedia, FirstUser, NoLoss, Taken, Monotone, SeenBy, Filed;
    match call.op
    case Arrive(packet) => ArriveInSequence(t, packet, call.now, ssrc, tuning);
    case Release =>
      if t.state.next.Some? {
        PopInSequence(t.state, t.start, t.log, t.accepted, tuning.maxFrames);
      } else {
        PopReadyFresh();
      }
    case TimeOut =>
      var step := Expire(t.state, ssrc, call.now, tuning.ttl, false);
      if step.events == [] {
        assert t.log + [] == t.log;
      } else {
        LostIsLoss(t.log, step.events, 0);
      }
  }

  lemma PopReadyFresh()
    ensures PopReady(FRESH) == Step(FRESH, [], Ok(None))
  {
  }

  // ----- The theorems over runs -----

  /** What holds after every run. */
  ghost predicate Accounted(t: Trace, now: nat, tuning: Tuning) {
    && Inv(t.state, now, tuning)
    && (t.state.next.None? ==> t.log == [] && t.accepted == map[])
    && (t.state.next.Some? ==> Tiles(t.log, t.start) && End(t.log, t.start) == t.state.next.value)
    && (NoLoss(t.log) ==> TraceInSequence(t, tuning.maxFrames))
  }

  lemma RecordAccounted(t: Trace, call: Call, ssrc: u32, tuning: Tuning)
    requires Accounted(t, call.now, tuning)
    ensures Accounted(Record(t, call, ssrc, tuning), call.now, tuning)
  {
    var step := Do(t.state, call, ssrc, tuning);
    DoKeeps(t.state, call, ssrc, tuning);
    if NoLoss(t.log) {
      DoInSequence(t, call, ssrc, tuning);
    } else {
      assert forall i :: 0 <= i < |t.log| ==> (t.log + step.events)[i] == t.log[i];
    }
    RecordTiles(t, call, ssrc, tuning);
    hide Inv, Tiles, End, TraceInSequence, Do, Accept;
  }

  lemma RecordTiles(t: Trace, call: Call, ssrc: u32, tuning: Tuning)
    requires Inv(t.state, call.now, tuning)
    requires t.state.next.None? ==> t.log == [] && t.accepted == map[]
    requires t.state.next.Some? ==> Tiles(t.log, t.start) && End(t.log, t.start) == t.state.next.value
    ensures
      var after := Record(t, call, ssrc, tuning);
      && (after.state.next.None? ==> after.log == [] && after.accepted == map[])
      && (after.state.next.Some? ==> Tiles(after.log, after.start) && End(after.log, after.start) == after.state.next.value)
  {
    hide Tiles, End, PushMedia, PopReady, Wire, Monotone, SeenBy, Filed;
    var step := Do(t.state, call, ssrc, tuning);
    if t.state.next.Some? {
      DoTiles(t.state, call, ssrc, tuning);
      TilesAppend(t.log, step.events, t.start);
    } else if call.op.Arrive? {
      PushTiles(t.state, call.op.packet, call.now, tuning);
      assert [] + step.events == step.events;
    } else {
      PopReadyFresh();
    }
  }

  lemma {:induction false} RunAccounted(calls: seq<Call>, ssrc: u32, tuning: Tuning)
    requires Clocked(calls)
    ensures Accounted(Run(calls, ssrc, tuning), LastTime(calls), tuning)
  {
    hide Record;
    if |calls| == 0 {
    } else {
      var front := calls[..|calls| - 1];
      RunAccounted(front, ssrc, tuning);
      hide Inv, Tiles, End, NoLoss, TraceInSequence;
      LaterKeeps(Run(front, ssrc, tuning).state, LastTime(front), LastTime(calls), tuning);
      RecordAccounted(Run(front, ssrc, tuning), calls[|calls| - 1], ssrc, tuning);
    }
  }

  /**
   * Sequence conservation: after any run, each position from the first packet up to the next one
   * is covered by exactly one event - handed over under its own sequence number, or part of one
   * loss report whose first, last and count fields are exact.
   */
  lemma Conservation(calls: seq<Call>, ssrc: u32, tuning: Tuning, position: nat) returns (i: nat)
    requires Clocked(calls)
    requires
      var t := Run(calls, ssrc, tuning);
      t.state.next.Some? && t.start <= position < t.state.next.value
    ensures
      var t := Run(calls, ssrc, tuning);
      && CoveredBy(t.log, t.start, position, i)
      && (forall j: nat :: CoveredBy(t.log, t.start, position, j) ==> i == j)
      && Fits(t.log[i], End(t.log[..i], t.start))
      && End(t.log[..i + 1], t.start) == End(t.log[..i], t.start) + Width(t.log[i])
  {
    hide Run, Inv, Tiles, End, Fits, NoLoss, TraceInSequence;
    var t := Run(calls, ssrc, tuning);
    RunAccounted(calls, ssrc, tuning);
    i := CoveredOnce(t.log, t.start, position);
  }

  /** Hand-overs happen in strictly increasing order of position. */
  lemma InOrder(calls: seq<Call>, ssrc: u32, tuning: Tuning, i: nat, j: nat)
    requires Clocked(calls) && i < j < |Run(calls, ssrc, tuning).log|
    ensures
      var t := Run(calls, ssrc, tuning);
      && End(t.log[..i], t.start) < End(t.log[..j], t.start) < End(t.log, t.start)
      && t.state.next == Some(End(t.log, t.start))
  {
    var t := Run(calls, ssrc, tuning);
    RunAccounted(calls, ssrc, tuning);
    hide Run, Inv, End, NoLoss, TraceInSequence;
    assert t.log[..|t.log|] == t.log;
    EndGrows(t.log, t.start, i, j);
    EndGrows(t.log, t.start, j, |t.log|);
  }

  /**
   * Arrival-order independence: in a run without a loss report the assembler was given, in
   * sequence order, exactly the accepted packets from the first up to the next position. Every
   * other accepted packet is still buffered, no further ahead than the window, and nothing else is.
   */
  lemma LosslessRun(calls: seq<Call>, ssrc: u32, tuning: Tuning)
    requires Clocked(calls) && NoLoss(Run(calls, ssrc, tuning).log) && Run(calls, ssrc, tuning).state.next.Some?
    ensures
      var t := Run(calls, ssrc, tuning);
      var next := t.state.next.value;
      && |t.log| == next - t.start
      && HandedAre(t.start, t.log, t.accepted)
      && PendingAre(next, t.state.pending, t.accepted, tuning.maxFrames)
      && (forall p :: p in t.accepted && p >= next ==> Waits(next, t.state.pending, t.accepted, tuning.maxFrames, p))
  {
    hide Run, Inv, Tiles, End, NoLoss, InSequence, HandedAre, PendingAre, Waits;
    var t := Run(calls, ssrc, tuning);
    RunAccounted(calls, ssrc, tuning);
    InSequenceMeans(t.state.next.value, t.state.pending, t.start, t.log, t.accepted, tuning.maxFrames);
  }

  lemma PendingAt(next: nat, pending: map<u16, Packet>, accepted: map<nat, Packet>, maxFrames: nat, k: u16)
    requires PendingAre(next, pending, accepted, maxFrames) && k in pending
    ensures Forward(next, k) <= maxFrames
    ensures next + Forward(next, k) in accepted && accepted[next + Forward(next, k)] == pending[k]
  {
    hide Forward;
  }

  lemma WaitsAt(next: nat, pending: map<u16, Packet>, start: nat, accepted: map<nat, Packet>, maxFrames: nat, p: nat)
    requires PendingAre(next, pending, accepted, maxFrames) && AllKept(next, pending, start, accepted)
    requires p in accepted && p >= next
    ensures Waits(next, pending, accepted, maxFrames, p)
  {
    hide Wire, Forward, PendingAre;
    ForwardWire(next, p - next);
    PendingAt(next, pending, accepted, maxFrames, Wire(p));
  }

  lemma InSequenceMeans(next: nat, pending: map<u16, Packet>, start: nat, log: seq<Event>,
                        accepted: map<nat, Packet>, maxFrames: nat)
    requires InSequence(next, pending, start, log, accepted, maxFrames)
    ensures |log| == next - start && HandedAre(start, log, accepted) && PendingAre(next, pending, accepted, maxFrames)
    ensures forall p :: p in accepted && p >= next ==> Waits(next, pending, accepted, maxFrames, p)
  {
    hide HandedAre, PendingAre, AllKept, Waits;
    forall p | p in accepted && p >= next
      ensures Waits(next, pending, accepted, maxFrames, p)
    {
      WaitsAt(next, pending, start, accepted, maxFrames, p);
    }
  }

  lemma SamePackets(t: Trace, u: Trace)
    requires t.accepted == u.accepted && t.start == u.start
    requires HandedAre(t.start, t.log, t.accepted) && HandedAre(u.start, u.log, u.accepted)
    ensures t.log <= u.log || u.log <= t.log
  {
    forall i | 0 <= i < |t.log| && i < |u.log|
      ensures t.log[i] == u.log[i]
    {
      var p := t.start + i;
      assert t.log[p - t.start] == Handed(t.accepted[p]);
    }
  }

  /** With nothing ready, the next position is the first one for which nothing was accepted. */
  lemma NextIsMissing(t: Trace, maxFrames: nat)
    requires t.state.next.Some? && TraceInSequence(t, maxFrames) && !HasReady(t.state)
    ensures t.state.next.value !in t.accepted
    ensures forall p :: t.start <= p < t.state.next.value ==> p in t.accepted
    ensures |t.log| == t.state.next.value - t.start && HandedAre(t.start, t.log, t.accepted)
  {
    hide Wire, PendingAre;
  }

  /**
   * Two lossless runs that accepted the same packets, in whatever order, and have nothing ready handed over the
   * same packets in the same order.
   */
  lemma OrderIndependence(calls: seq<Call>, others: seq<Call>, ssrc: u32, tuning: Tuning)
    requires Clocked(calls) && NoLoss(Run(calls, ssrc, tuning).log) && Run(calls, ssrc, tuning).state.next.Some?
    requires Clocked(others) && NoLoss(Run(others, ssrc, tuning).log) && Run(others, ssrc, tuning).state.next.Some?
    requires Run(calls, ssrc, tuning).accepted == Run(others, ssrc, tuning).accepted
    requires Run(calls, ssrc, tuning).start == Run(others, ssrc, tuning).start
    requires !HasReady(Run(calls, ssrc, tuning).state) && !HasReady(Run(others, ssrc, tuning).state)
    ensures Run(calls, ssrc, tuning).log == Run(others, ssrc, tuning).log
    ensures Run(calls, ssrc, tuning).state.next == Run(others, ssrc, tuning).state.next
  {
    hide Run, Inv, Tiles, End, NoLoss, HasReady, TraceInSequence, HandedAre;
    var t, u := Run(calls, ssrc, tuning), Run(others, ssrc, tuning);
    RunAccounted(calls, ssrc, tuning);
    RunAccounted(others, ssrc, tuning);
    NextIsMissing(t, tuning.maxFrames);
    NextIsMissing(u, tuning.maxFrames);
    SamePackets(t, u);
    var a, b := t.state.next.value, u.state.next.value;
    assert a < b ==> a in u.accepted;
    assert b < a ==> b in t.accepted;
  }
}
