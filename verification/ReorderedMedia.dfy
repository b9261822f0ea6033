/** The reorder buffer in front of the assembler: reordering on the way does not show in the frames. */
module ReorderedMedia {
  import opened Prelude
  import opened Assembler
  import opened MediaPath
  import opened Interleave
  import opened Reorder
  import opened ReorderRun

  /** The frame a call hands out, if any. */
  function Out(r: Assembler.Result): seq<Frame> {
    if r.Ok? && r.frame.Some? then [r.frame.value] else []
  }

  /** The frames a packet completes, given the partial it meets. */
  function Fresh(partial: Option<Partial>, packet: Packet): seq<Frame> {
    var (t, r) := Assembler.Push(State(partial, []), packet);
    Out(r) + t.completed
  }

  /** Frames leave in the order they were completed, and waiting frames do not influence assembly. */
  lemma PushYields(s: State, packet: Packet)
    ensures
      var (t, r) := Assembler.Push(s, packet);
      && t.partial == Assembler.Push(State(s.partial, []), packet).0.partial
      && Out(r) + t.completed == s.completed + Fresh(s.partial, packet)
  {
    hide Absorb;
    AbsorbSeparates(s, packet);
    PopYields(Absorb(s, packet).0.completed);
    PopYields(Absorb(State(s.partial, []), packet).0.completed);
  }

  /** The frames waiting play no part in taking in a packet. */
  lemma AbsorbSeparates(s: State, packet: Packet)
    ensures
      var (t, wellFormed) := Absorb(State(s.partial, []), packet);
      Absorb(s, packet) == (State(t.partial, s.completed + t.completed), wellFormed)
  {
    hide RtpPayload.ParsePayload, RtpPayload.Bytes, Closed;
    ClosedSeparates(s, packet);
    var closed := Closed(State(s.partial, []), packet).completed;
    var all := Absorb(State(s.partial, []), packet).0.completed;
    if |all| > |closed| {
      assert all == closed + [all[|closed|]];
      Associate(s.completed, closed, [all[|closed|]]);
    }
  }

  lemma ClosedSeparates(s: State, packet: Packet)
    ensures
      var t := Closed(State(s.partial, []), packet);
      Closed(s, packet) == State(t.partial, s.completed + t.completed)
  {
    assert s.completed + [] == s.completed;
  }

  lemma PopYields(completed: seq<Frame>)
    ensures
      var (t, frame) := PopCompleted(State(None, completed));
      Out(Ok(frame)) + t.completed == completed
  {
  }

  function Outputs(calls: seq<Call>, ssrc: u32, tuning: Tuning): seq<Frame> {
    if |calls| == 0 then []
    else
      var front := calls[..|calls| - 1];
      Outputs(front, ssrc, tuning) + Out(Do(Run(front, ssrc, tuning).state, calls[|calls| - 1], ssrc, tuning).result)
  }

  function PacketOfEvent(e: Event): seq<Packet> {
    if e.Handed? then [e.packet] else []
  }

  function Packets(log: seq<Event>): seq<Packet> {
    if |log| == 0 then [] else Packets(log[..|log| - 1]) + PacketOfEvent(log[|log| - 1])
  }

  /** What came out and still waits is what direct feeding gives, and so is the frame under assembly. */
  ghost predicate Mirrors(a: State, outputs: seq<Frame>, packets: seq<Packet>) {
    var fed := Feed(EMPTY, packets);
    a.partial == fed.state.partial && outputs + a.completed == fed.frames + fed.state.completed
  }

  lemma {:induction false} FeedSnoc(s: State, packets: seq<Packet>, packet: Packet)
    ensures
      var fed := Feed(s, packets);
      var (t, r) := Assembler.Push(fed.state, packet);
      var all := Feed(s, packets + [packet]);
      all.state == t && all.frames == fed.frames + Out(r)
    decreases |packets|
  {
    hide Assembler.Push;
    if packets == [] {
      var (t, r) := Assembler.Push(s, packet);
      assert (packets + [packet])[1..] == [];
      assert [] + Out(r) == Out(r);
    } else {
      var all := packets + [packet];
      assert all[1..] == packets[1..] + [packet];
      var (next, result) := Assembler.Push(s, packets[0]);
      FeedSnoc(next, packets[1..], packet);
    }
  }

  lemma MirrorsPush(a: State, outputs: seq<Frame>, packets: seq<Packet>, packet: Packet)
    requires Mirrors(a, outputs, packets)
    ensures
      var (t, r) := Assembler.Push(a, packet);
      Mirrors(t, outputs + Out(r), packets + [packet])
  {
    hide Assembler.Push, Fresh, Out, Feed;
    var fed := Feed(EMPTY, packets);
    FeedSnoc(EMPTY, packets, packet);
    PushYields(a, packet);
    PushYields(fed.state, packet);
    var (t, r) := Assembler.Push(a, packet);
    var (t', r') := Assembler.Push(fed.state, packet);
    var fresh' := Fresh(a.partial, packet);
    Regroup(outputs, Out(r), t.completed, a.completed, fresh');
    Regroup(fed.frames, Out(r'), t'.completed, fed.state.completed, fresh');
  }

  lemma Regroup<T>(a: seq<T>, b: seq<T>, c: seq<T>, d: seq<T>, e: seq<T>)
    requires b + c == d + e
    ensures a + b + c == a + d + e
  {
    Associate(a, b, c);
    Associate(a, d, e);
  }

  lemma MirrorsPop(a: State, outputs: seq<Frame>, packets: seq<Packet>)
    requires Mirrors(a, outputs, packets)
    ensures
      var (t, frame) := PopCompleted(a);
      Mirrors(t, outputs + Out(Ok(frame)), packets)
  {
    hide Feed;
    var (t, frame) := PopCompleted(a);
    Associate(outputs, Out(Ok(frame)), t.completed);
    PopYields(a.completed);
  }

  // ----- One step -----

  /** After the step the mirror holds for what it gave and handed over. */
  ghost predicate StepMirrors(step: Step, outputs: seq<Frame>, packets: seq<Packet>) {
    Mirrors(step.state.assembler, outputs + Out(step.result), packets + Packets(step.events))
  }

  lemma PacketsOne(packet: Packet)
    ensures Packets([Handed(packet)]) == [packet] && Packets([]) == []
  {
    assert [Handed(packet)][..0] == [];
  }

  lemma HandMirrors(s: Ssrc, position: nat, packet: Packet, outputs: seq<Frame>, packets: seq<Packet>)
    requires Mirrors(s.assembler, outputs, packets)
    ensures StepMirrors(Hand(s, position, packet), outputs, packets)
  {
    hide Assembler.Push, Mirrors, Out;
    PacketsOne(packet);
    MirrorsPush(s.assembler, outputs, packets, packet);
  }

  lemma StillMirrors(step: Step, outputs: seq<Frame>, packets: seq<Packet>)
    requires step.events == [] && step.result == Ok(None) && Mirrors(step.state.assembler, outputs, packets)
    ensures StepMirrors(step, outputs, packets)
  {
    hide Mirrors;
    assert outputs + [] == outputs && packets + [] == packets;
  }

  lemma PopReadyMirrors(s: Ssrc, outputs: seq<Frame>, packets: seq<Packet>)
    requires Mirrors(s.assembler, outputs, packets)
    ensures StepMirrors(PopReady(s), outputs, packets)
  {
    hide StepMirrors, Mirrors, Hand, Wire;
    if s.assembler.completed != [] {
      CompletedMirrors(s, outputs, packets);
    } else if s.next.None? || Wire(s.next.value) !in s.pending {
      StillMirrors(PopReady(s), outputs, packets);
    } else {
      var seqno := Wire(s.next.value);
      HandMirrors(s.(gap := Rest(s.gap), pending := s.pending - {seqno}), s.next.value, s.pending[seqno], outputs, packets);
    }
  }

  lemma CompletedMirrors(s: Ssrc, outputs: seq<Frame>, packets: seq<Packet>)
    requires Mirrors(s.assembler, outputs, packets) && s.assembler.completed != []
    ensures StepMirrors(PopReady(s), outputs, packets)
  {
    hide Mirrors;
    MirrorsPop(s.assembler, outputs, packets);
    assert packets + [] == packets;
  }

  lemma HasLoss(events: seq<Event>)
    requires |events| > 0 && events[0].Lost?
    ensures !NoLoss(events)
  {
  }

  lemma PushMirrors(s: Ssrc, packet: Packet, now: nat, tuning: Tuning, outputs: seq<Frame>, packets: seq<Packet>)
    requires Inv(s, now, tuning) && Mirrors(s.assembler, outputs, packets)
    ensures
      var step := PushMedia(s, packet, now, tuning);
      NoLoss(step.events) ==> StepMirrors(step, outputs, packets)
  {
    hide StepMirrors, Mirrors, Hand, Wire, Inv, Early, Jump;
    if s.next.None? {
      HandMirrors(s, packet.rtp.seqno, packet, outputs, packets);
    } else {
      var n := s.next.value;
      var forward := Forward(n, packet.rtp.seqno);
      if forward == 0 {
        HandMirrors(s.(gap := Rest(s.gap), pending := s.pending - {packet.rtp.seqno}), n, packet, outputs, packets);
      } else if forward >= HALF {
        StillMirrors(Step(s, [], Ok(None)), outputs, packets);
      } else if forward > tuning.maxFrames {
        JumpReports(n, forward, packet);
        HasLoss(Jump(n, forward, packet).events);
      } else {
        EarlyMirrors(s, forward, packet, now, tuning, outputs, packets);
      }
    }
  }

  lemma EarlyMirrors(s: Ssrc, forward: nat, packet: Packet, now: nat, tuning: Tuning,
                     outputs: seq<Frame>, packets: seq<Packet>)
    requires Inv(s, now, tuning) && s.next.Some? && Mirrors(s.assembler, outputs, packets)
    requires forward == Forward(s.next.value, packet.rtp.seqno) && 0 < forward < HALF && forward <= tuning.maxFrames
    ensures
      var step := Early(s, forward, packet, now, tuning);
      NoLoss(step.events) ==> StepMirrors(step, outputs, packets)
  {
    hide Sound, Wire, Forward, PopReady, Expire, Mirrors, StepMirrors, Marked;
    BufferedSound(s, forward, packet, now, tuning);
    var b := Buffered(s, forward, packet, now);
    if |b.pending| > tuning.maxFrames {
      ForcedReports(b, packet.rtp.ssrc, now, tuning);
      HasLoss(Early(s, forward, packet, now, tuning).events);
    } else {
      PopReadyMirrors(b, outputs, packets);
      assert [] + PopReady(b).events == PopReady(b).events;
    }
  }

  lemma DoMirrors(s: Ssrc, call: Call, ssrc: u32, tuning: Tuning, outputs: seq<Frame>, packets: seq<Packet>)
    requires Inv(s, call.now, tuning) && Mirrors(s.assembler, outputs, packets)
    ensures
      var step := Do(s, call, ssrc, tuning);
      NoLoss(step.events) ==> StepMirrors(step, outputs, packets)
  {
    hide StepMirrors, Mirrors, Inv, PushMedia, PopReady, Wire, FirstUser, Taken;
    match call.op
    case Arrive(packet) => PushMirrors(s, packet, call.now, tuning, outputs, packets);
    case Release => PopReadyMirrors(s, outputs, packets);
    case TimeOut =>
      var step := Do(s, call, ssrc, tuning);
      if step.events == [] {
        StillMirrors(step, outputs, packets);
      } else {
        HasLoss(step.events);
      }
  }

  // ----- Runs -----

  lemma {:induction false} PacketsAppend(log: seq<Event>, more: seq<Event>)
    ensures Packets(log + more) == Packets(log) + Packets(more)
    decreases |more|
  {
    if |more| == 0 {
      assert log + more == log;
    } else {
      var front, last := more[..|more| - 1], more[|more| - 1];
      PacketsAppend(log, front);
      assert (log + more)[..|log + more| - 1] == log + front;
      Associate(Packets(log), Packets(front), PacketOfEvent(last));
    }
  }

  lemma NoLossParts(log: seq<Event>, more: seq<Event>)
    requires NoLoss(log + more)
    ensures NoLoss(log) && NoLoss(more)
  {
    forall i | 0 <= i < |log|
      ensures log[i].Handed?
    {
      assert (log + more)[i] == log[i];
    }
    forall i | 0 <= i < |more|
      ensures more[i].Handed?
    {
      assert (log + more)[|log| + i] == more[i];
    }
  }

  /**
   * In every run without a loss report, the frames handed out and those still waiting are, in
   * order, what an assembler gives that is fed the same packets in sequence.
   */
  lemma {:induction false} RunMirrors(calls: seq<Call>, ssrc: u32, tuning: Tuning)
    requires Clocked(calls) && NoLoss(Run(calls, ssrc, tuning).log)
    ensures
      var t := Run(calls, ssrc, tuning);
      Mirrors(t.state.assembler, Outputs(calls, ssrc, tuning), Packets(t.log))
  {
    hide Mirrors, Do, NoLoss, Accept, Inv, Accounted;
    if |calls| == 0 {
      MirrorsNothing();
    } else {
      var front, call := calls[..|calls| - 1], calls[|calls| - 1];
      var before := Run(front, ssrc, tuning);
      var step := Do(before.state, call, ssrc, tuning);
      NoLossParts(before.log, step.events);
      RunMirrors(front, ssrc, tuning);
      RunInv(front, ssrc, tuning);
      LaterKeeps(before.state, LastTime(front), call.now, tuning);
      DoMirrors(before.state, call, ssrc, tuning, Outputs(front, ssrc, tuning), Packets(before.log));
      PacketsAppend(before.log, step.events);
    }
  }

  lemma RunInv(calls: seq<Call>, ssrc: u32, tuning: Tuning)
    requires Clocked(calls)
    ensures Inv(Run(calls, ssrc, tuning).state, LastTime(calls), tuning)
  {
    hide Run, Inv, Tiles, End, NoLoss, TraceInSequence;
    RunAccounted(calls, ssrc, tuning);
  }

  lemma MirrorsNothing()
    ensures Mirrors(EMPTY, [], []) && Packets([]) == []
  {
  }

  /** The packets of hand-overs in sequence, by position. */
  lemma {:induction false} PacketsHanded(start: nat, log: seq<Event>, accepted: map<nat, Packet>)
    requires HandedAre(start, log, accepted)
    ensures |Packets(log)| == |log|
    ensures forall p :: start <= p < start + |log| ==> p in accepted && Packets(log)[p - start] == accepted[p]
  {
    if |log| > 0 {
      var n := |log| - 1;
      var front := log[..n];
      assert HandedAre(start, front, accepted);
      PacketsHanded(start, front, accepted);
      var last := start + n;
      assert log[last - start] == Handed(accepted[last]);
      assert Packets(log) == Packets(front) + [accepted[last]];
    }
  }
}
