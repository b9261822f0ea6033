/**
 * Loss reports and the frames around a loss (cacophony/src/state.rs), over all runs: what a report says, and that assembly begins
 * anew behind it.
 */
module ReorderedLoss {
  import opened Prelude
  import opened Assembler
  import opened MediaPath
  import opened Reorder
  import opened ReorderRun
  import opened ReorderedMedia
  import opened ReorderLoss
  import Assembly

  // ----- What a report says -----

  /** The sender known for the first of the missing packets whose sender is known. */
  ghost predicate FirstKnown(gap: seq<Missing>, userId: Option<u64>) {
    if userId.None? then forall i :: 0 <= i < |gap| ==> gap[i].userId.None?
    else exists i :: 0 <= i < |gap| && gap[i].userId == userId && forall j :: 0 <= j < i ==> gap[j].userId.None?
  }

  lemma {:induction false} FirstUserIs(gap: seq<Missing>)
    ensures FirstKnown(gap, FirstUser(gap))
  {
    if |gap| > 0 && gap[0].userId.None? {
      FirstUserIs(gap[1..]);
      var user := FirstUser(gap[1..]);
      if user.Some? {
        var i :| 0 <= i < |gap[1..]| && gap[1..][i].userId == user && forall j :: 0 <= j < i ==> gap[1..][j].userId.None?;
        assert gap[i + 1].userId == user;
        forall j | 0 <= j < i + 1
          ensures gap[j].userId.None?
        {
          assert j > 0 ==> gap[j] == gap[1..][j - 1];
        }
      }
    } else if |gap| > 0 {
      assert gap[0].userId == FirstUser(gap);
    }
  }

  /**
   * An expiry with something to give up: one report, of the given SSRC, on exactly the first `k` missing numbers, as old as the
   * oldest of them; the rest of the gap and the buffer stay, and assembly begins anew.
   */
  lemma ExpiryReports(s: Ssrc, ssrc: u32, now: nat, tuning: Tuning, force: bool) returns (k: nat)
    requires Sound(s, now, tuning) && s.next.Some? && |s.gap| > 0 && (force || Expired(s.gap[0], now, tuning.ttl))
    ensures 0 < k <= |s.gap| && forall i :: 0 <= i < |s.gap| ==> (i < k <==> force || now >= s.gap[i].detectedAt + tuning.ttl)
    ensures
      var step, n := Expire(s, ssrc, now, tuning.ttl, force), s.next.value;
      && step.state == Ssrc(Some(n + k), s.gap[k..], s.pending, EMPTY) && step.result == Ok(None)
      && |step.events| == 1 && step.events[0].Lost?
      && var report := step.events[0].report;
         && report.ssrc == ssrc && report.firstSeq == n % 65536 && report.lastSeq == (n + k - 1) % 65536 && report.count == k
         && report.age == now - s.gap[0].detectedAt && FirstKnown(s.gap[..k], report.userId)
  {
    hide FirstUser, FirstKnown, Filed;
    k := Taken(s.gap, now, tuning.ttl, force);
    forall i | 0 <= i < |s.gap|
      ensures i < k <==> force || now >= s.gap[i].detectedAt + tuning.ttl
    {
      if !force {
        ExpiresExactly(s, now, tuning, i);
      }
    }
    FirstUserIs(s.gap[..k]);
  }

  /** Without anything to give up an expiry does nothing. */
  lemma ExpiryIdle(s: Ssrc, ssrc: u32, now: nat, ttl: nat, force: bool)
    requires s.next.None? || |s.gap| == 0 || (!force && now < s.gap[0].detectedAt + ttl)
    ensures Expire(s, ssrc, now, ttl, force) == Step(s, [], Ok(None))
  {
    hide FirstUser, Wire;
  }

  /** A jump reports everything before the packet under the packet's sender and begins anew with the packet. */
  lemma JumpReportsAll(s: Ssrc, packet: Packet, now: nat, tuning: Tuning)
    requires s.next.Some? && tuning.maxFrames < (packet.rtp.seqno - s.next.value) % 65536 < 32768
    ensures
      var step, n, forward := PushMedia(s, packet, now, tuning), s.next.value, (packet.rtp.seqno - s.next.value) % 65536;
      var (begun, result) := Assembler.Push(EMPTY, packet);
      && step.state == Ssrc(Some(n + forward + 1), [], map[], begun) && step.result == result
      && step.events == [Lost(Report(packet.rtp.ssrc, packet.userId, n % 65536, (n + forward - 1) % 65536, forward, 0)),
                         Handed(packet)]
  {
    hide Jump, Early, Hand;
    JumpIs(s.next.value, Forward(s.next.value, packet.rtp.seqno), packet);
  }

  lemma JumpIs(n: nat, forward: nat, packet: Packet)
    requires 0 < forward < HALF
    ensures
      var step := Jump(n, forward, packet);
      var (begun, result) := Assembler.Push(EMPTY, packet);
      && step.state == Ssrc(Some(n + forward + 1), [], map[], begun) && step.result == result
      && step.events == [Lost(Report(packet.rtp.ssrc, packet.userId, n % 65536, (n + forward - 1) % 65536, forward, 0)),
                         Handed(packet)]
  {
    hide Assembler.Push;
  }

  /** A packet half the number space ahead or more is from the past and changes nothing. */
  lemma PastIgnored(s: Ssrc, packet: Packet, now: nat, tuning: Tuning)
    requires s.next.Some? && (packet.rtp.seqno - s.next.value) % 65536 >= 32768
    ensures PushMedia(s, packet, now, tuning) == Step(s, [], Ok(None))
  {
    hide Jump, Early, Hand;
  }

  /**
    * Numbers newly found missing are recorded with the sender of the packet beyond them and the time it came. The packet is
    * kept unless one with its number waits already; all others stay.
    */
  lemma KeptForLater(s: Ssrc, forward: nat, packet: Packet, now: nat)
    ensures
      var after := Buffered(s, forward, packet, now);
      && after.next == s.next && after.assembler == s.assembler
      && |after.gap| == (if forward <= |s.gap| then |s.gap| else forward)
      && (forall i :: 0 <= i < |after.gap| ==> after.gap[i] == if i < |s.gap| then s.gap[i] else Missing(packet.userId, now))
      && after.pending.Keys == s.pending.Keys + {packet.rtp.seqno}
      && (forall q :: q in s.pending ==> after.pending[q] == s.pending[q])
      && (packet.rtp.seqno !in s.pending ==> after.pending[packet.rtp.seqno] == packet)
  {
  }

  // ----- Frames around a loss -----

  ghost predicate Loses(s: Ssrc, call: Call, ssrc: u32, tuning: Tuning) {
    !NoLoss(Do(s, call, ssrc, tuning).events)
  }

  /** A step with a loss reports it first; then nothing happens, or one packet meets an empty assembler. */
  ghost predicate BeginsAnew(step: Step) {
    && |step.events| > 0 && step.events[0].Lost?
    && ((|step.events| == 1 && step.state.assembler == EMPTY && step.result == Ok(None))
        || (|step.events| == 2 && step.events[1].Handed?
            && (step.state.assembler, step.result) == Assembler.Push(EMPTY, step.events[1].packet)))
  }

  lemma LossBeginsAnew(s: Ssrc, call: Call, ssrc: u32, tuning: Tuning)
    requires Inv(s, call.now, tuning) && Loses(s, call, ssrc, tuning)
    ensures BeginsAnew(Do(s, call, ssrc, tuning))
  {
    hide Wire, BeginsAnew, Monotone, SeenBy, Filed, Early, Jump, Hand, PopReady;
    match call.op
    case Release => PopReadyQuiet(s);
    case TimeOut => ExpireAnew(s, call, ssrc, tuning);
    case Arrive(packet) =>
      if s.next.None? {
        HandQuiet(s, packet.rtp.seqno, packet);
      } else {
        var n, forward := s.next.value, Forward(s.next.value, packet.rtp.seqno);
        if forward == 0 {
          HandQuiet(s.(gap := Rest(s.gap), pending := s.pending - {packet.rtp.seqno}), n, packet);
        } else if forward < HALF && forward > tuning.maxFrames {
          JumpAnew(n, forward, packet);
        } else if forward < HALF {
          EarlyAnew(s, forward, packet, call.now, tuning);
        }
      }
  }

  lemma HandQuiet(s: Ssrc, position: nat, packet: Packet)
    ensures NoLoss(Hand(s, position, packet).events)
  {
    hide Assembler.Push;
  }

  lemma PopReadyQuiet(s: Ssrc)
    ensures NoLoss(PopReady(s).events)
  {
    hide Wire, Assembler.Push;
  }

  lemma ExpireAnew(s: Ssrc, call: Call, ssrc: u32, tuning: Tuning)
    requires !NoLoss(Expire(s, ssrc, call.now, tuning.ttl, false).events)
    ensures BeginsAnew(Expire(s, ssrc, call.now, tuning.ttl, false))
  {
    hide Wire, FirstUser;
  }

  lemma JumpAnew(n: nat, forward: nat, packet: Packet)
    requires 0 < forward < HALF
    ensures BeginsAnew(Jump(n, forward, packet))
  {
    hide Assembler.Push, Wire;
  }

  lemma EarlyAnew(s: Ssrc, forward: nat, packet: Packet, now: nat, tuning: Tuning)
    requires Inv(s, now, tuning) && s.next.Some?
    requires forward == Forward(s.next.value, packet.rtp.seqno) && 0 < forward < HALF && forward <= tuning.maxFrames
    ensures var step := Early(s, forward, packet, now, tuning); NoLoss(step.events) || BeginsAnew(step)
  {
    hide Wire, Forward, Expire, Buffered, Sound, PopReady;
    BufferedSound(s, forward, packet, now, tuning);
    var b := Buffered(s, forward, packet, now);
    if |b.pending| > tuning.maxFrames {
      ForcedAnew(b, packet.rtp.ssrc, now, tuning);
    } else {
      PopReadyQuiet(b);
      assert [] + PopReady(b).events == PopReady(b).events;
    }
  }

  lemma ForcedAnew(b: Ssrc, ssrc: u32, now: nat, tuning: Tuning)
    requires Sound(b, now, tuning) && |b.gap| > 0
    ensures
      var expiry := Expire(b, ssrc, now, tuning.ttl, true);
      var step := PopReady(expiry.state);
      BeginsAnew(step.(events := expiry.events + step.events))
  {
    ForcedReady(b, ssrc, now, tuning);
    var k := ExpiryReports(b, ssrc, now, tuning, true);
    hide Expire, Wire, Sound, Assembler.Push;
  }

  /** The call with the latest loss, or the first one. */
  function LastLoss(calls: seq<Call>, ssrc: u32, tuning: Tuning): (c: nat)
    ensures c <= |calls|
  {
    if |calls| == 0 then 0
    else
      var n := |calls| - 1;
      if exists i :: 0 <= i < |Do(Run(calls[..n], ssrc, tuning).state, calls[n], ssrc, tuning).events|
                     && Do(Run(calls[..n], ssrc, tuning).state, calls[n], ssrc, tuning).events[i].Lost?
      then n else LastLoss(calls[..n], ssrc, tuning)
  }

  /** The frames handed out by the calls from `c` on. */
  function OutputsFrom(calls: seq<Call>, c: nat, ssrc: u32, tuning: Tuning): seq<Frame> {
    if |calls| <= c then []
    else
      var n := |calls| - 1;
      OutputsFrom(calls[..n], c, ssrc, tuning) + Out(Do(Run(calls[..n], ssrc, tuning).state, calls[n], ssrc, tuning).result)
  }

  /** The packets handed over since the latest loss report. */
  function PacketsSince(log: seq<Event>): seq<Packet> {
    if |log| == 0 || log[|log| - 1].Lost? then []
    else PacketsSince(log[..|log| - 1]) + [log[|log| - 1].packet]
  }

  lemma {:induction false} SinceAppend(log: seq<Event>, more: seq<Event>)
    requires NoLoss(more)
    ensures PacketsSince(log + more) == PacketsSince(log) + Packets(more)
    decreases |more|
  {
    if |more| == 0 {
      assert log + more == log && PacketsSince(log) + [] == PacketsSince(log);
    } else {
      var front, last := more[..|more| - 1], more[|more| - 1];
      SinceAppend(log, front);
      assert (log + more)[..|log + more| - 1] == log + front && (log + more)[|log + more| - 1] == last;
      assert PacketsSince(log) + (Packets(front) + [last.packet]) == PacketsSince(log) + Packets(front) + [last.packet];
    }
  }

  lemma SinceAnew(log: seq<Event>, events: seq<Event>)
    requires |events| > 0 && events[0].Lost? && (|events| == 1 || (|events| == 2 && events[1].Handed?))
    ensures PacketsSince(log + events) == if |events| == 1 then [] else [events[1].packet]
  {
    var all := log + events;
    if |events| == 2 {
      assert all[..|all| - 1] == log + [events[0]];
      assert (log + [events[0]])[|log|] == events[0];
    }
  }

  /**
   * After every run, losses included: the frames handed out since the latest loss and those still waiting are what an assembler
   * gives that is fed the packets handed over since then, from the start.
   */
  lemma {:induction false} MirrorsSinceLoss(calls: seq<Call>, ssrc: u32, tuning: Tuning)
    requires Clocked(calls)
    ensures
      var t := Run(calls, ssrc, tuning);
      Mirrors(t.state.assembler, OutputsFrom(calls, LastLoss(calls, ssrc, tuning), ssrc, tuning), PacketsSince(t.log))
  {
    hide Mirrors, Do, Accept, Inv, Accounted;
    if |calls| == 0 {
      MirrorsNothing();
    } else {
      var n := |calls| - 1;
      var front, call := calls[..n], calls[n];
      var before := Run(front, ssrc, tuning);
      var step := Do(before.state, call, ssrc, tuning);
      RunInv(front, ssrc, tuning);
      LaterKeeps(before.state, LastTime(front), call.now, tuning);
      if NoLoss(step.events) {
        assert LastLoss(calls, ssrc, tuning) == LastLoss(front, ssrc, tuning);
        MirrorsSinceLoss(front, ssrc, tuning);
        var c := LastLoss(front, ssrc, tuning);
        DoMirrors(before.state, call, ssrc, tuning, OutputsFrom(front, c, ssrc, tuning), PacketsSince(before.log));
        SinceAppend(before.log, step.events);
      } else {
        LossBeginsAnew(before.state, call, ssrc, tuning);
        SinceAnew(before.log, step.events);
        AnewMirrors(step);
        assert LastLoss(calls, ssrc, tuning) == n && OutputsFrom(front, n, ssrc, tuning) == [];
        assert [] + Out(step.result) == Out(step.result);
      }
    }
  }

  lemma AnewMirrors(step: Step)
    requires BeginsAnew(step)
    ensures Mirrors(step.state.assembler, Out(step.result), if |step.events| == 1 then [] else [step.events[1].packet])
  {
    hide Mirrors, Assembler.Push;
    MirrorsNothing();
    if |step.events| == 2 {
      var packet := step.events[1].packet;
      MirrorsPush(EMPTY, [], [], packet);
      assert [] + [packet] == [packet] && [] + Out(step.result) == Out(step.result);
    }
  }

  /**
   * Over every run, losses, reordering and duplicates included: a frame that a call hands out is made of packets that were handed
   * over, of one sender and with consecutive numbers; none reaches over a loss.
   */
  lemma {:induction false} OutputsAreMadeOf(calls: seq<Call>, ssrc: u32, tuning: Tuning, i: nat) returns (parts: seq<Packet>)
    requires Clocked(calls) && i < |Outputs(calls, ssrc, tuning)|
    ensures Assembly.MadeOf(Outputs(calls, ssrc, tuning)[i], parts) && Assembly.Among(parts, Packets(Run(calls, ssrc, tuning).log))
    decreases |calls|
  {
    hide Do, Assembly.MadeOf, Mirrors, Run, Clocked, LastLoss, OutputsFrom, PacketsSince;
    var n := |calls| - 1;
    var front := calls[..n];
    ClockedFront(calls);
    var before := Outputs(front, ssrc, tuning);
    RunLast(calls, ssrc, tuning);
    if i < |before| {
      parts := OutputsAreMadeOf(front, ssrc, tuning, i);
      var log := Run(front, ssrc, tuning).log;
      PacketsAppend(log, Do(Run(front, ssrc, tuning).state, calls[n], ssrc, tuning).events);
    } else {
      MirrorsSinceLoss(calls, ssrc, tuning);
      var t := Run(calls, ssrc, tuning);
      var frame := Outputs(calls, ssrc, tuning)[i];
      LastOutput(calls, ssrc, tuning);
      SinceAmong(t.log);
      parts := MirroredFrame(t.state.assembler, OutputsFrom(calls, LastLoss(calls, ssrc, tuning), ssrc, tuning), PacketsSince(t.log),
                             frame);
    }
  }

  lemma ClockedFront(calls: seq<Call>)
    requires Clocked(calls) && |calls| > 0
    ensures Clocked(calls[..|calls| - 1])
  {
  }

  lemma RunLast(calls: seq<Call>, ssrc: u32, tuning: Tuning)
    requires |calls| > 0
    ensures
      var before := Run(calls[..|calls| - 1], ssrc, tuning);
      Run(calls, ssrc, tuning).log == before.log + Do(before.state, calls[|calls| - 1], ssrc, tuning).events
  {
    hide Do, Accept;
  }

  /** What the last call hands out is the last of the frames since the latest loss. */
  lemma LastOutput(calls: seq<Call>, ssrc: u32, tuning: Tuning)
    requires |calls| > 0
    ensures
      var n := |calls| - 1;
      var out := Out(Do(Run(calls[..n], ssrc, tuning).state, calls[n], ssrc, tuning).result);
      var since := OutputsFrom(calls, LastLoss(calls, ssrc, tuning), ssrc, tuning);
      |out| <= |since| && since[|since| - |out|..] == out && |out| <= 1
  {
    hide Do, Run;
    var n := |calls| - 1;
    assert LastLoss(calls, ssrc, tuning) <= n;
  }

  lemma {:induction false} SinceAmong(log: seq<Event>)
    ensures forall p :: p in PacketsSince(log) ==> p in Packets(log)
  {
    if |log| > 0 && log[|log| - 1].Handed? {
      SinceAmong(log[..|log| - 1]);
    }
  }

  lemma MirroredFrame(a: State, outputs: seq<Frame>, packets: seq<Packet>, frame: Frame) returns (parts: seq<Packet>)
    requires Mirrors(a, outputs, packets) && outputs != [] && frame == outputs[|outputs| - 1]
    ensures Assembly.MadeOf(frame, parts) && Assembly.Among(parts, packets)
  {
    hide Assembly.MadeOf, Feed;
    var fed := Feed(EMPTY, packets);
    var all, j := fed.frames + fed.state.completed, |outputs| - 1;
    assert (outputs + a.completed)[j] == frame && all[j] == frame;
    if j < |fed.frames| {
      parts := Assembly.FramesAreMadeOf(packets, j);
    } else {
      assert fed.state.completed[j - |fed.frames|] == frame;
      parts := Assembly.WaitingAreMadeOf(packets, j - |fed.frames|);
    }
  }
}
