/** Runs of the reorder buffer in which packets that arrived do not come out (cacophony/src/state.rs). */
module ReorderExamples {
  import opened Prelude
  import opened Codecs
  import opened Assembler
  import opened RtpPayload
  import opened Reorder
  import opened ReorderRun
  import opened ReorderLoss
  import opened ReorderOrigin
  import opened Arrivals

  const SSRC: u32 := 7

  /** An Opus packet with the number of a position; `content` tells copies apart. */
  function Probe(position: nat, content: byte): Packet {
    Packet(Header(false, Wire(position), 0, SSRC), None, Opus, [content], false)
  }

  function Come(position: nat, now: nat): Call {
    Call(Arrive(Probe(position, 0)), now)
  }

  /** State and log of a run. */
  ghost predicate Reaches(calls: seq<Call>, tuning: Tuning, s: Ssrc, log: seq<Event>) {
    Run(calls, SSRC, tuning).state == s && Run(calls, SSRC, tuning).log == log
  }

  lemma Begin(tuning: Tuning)
    ensures Reaches([], tuning, FRESH, [])
  {
  }

  lemma Then(calls: seq<Call>, call: Call, tuning: Tuning, s: Ssrc, log: seq<Event>, s': Ssrc, log': seq<Event>)
    requires Reaches(calls, tuning, s, log)
    requires Do(s, call, SSRC, tuning).state == s' && log' == log + Do(s, call, SSRC, tuning).events
    ensures Reaches(calls + [call], tuning, s', log')
  {
    hide Do, Accept;
    assert (calls + [call])[..|calls|] == calls;
  }

  lemma ProbePasses(position: nat, content: byte)
    ensures Assembler.Push(EMPTY, Probe(position, content)).0 == EMPTY
  {
    hide Wire;
    assert ([] + [content])[1..] == [];
  }

  /** A packet in its turn. */
  lemma InTurn(n: nat, pending: map<u16, Packet>, gap: seq<Missing>, content: byte, now: nat, tuning: Tuning)
    ensures
      var packet := Probe(n, content);
      var step := PushMedia(Ssrc(Some(n), gap, pending, EMPTY), packet, now, tuning);
      && step.state == Ssrc(Some(n + 1), Rest(gap), pending - {Wire(n)}, EMPTY)
      && step.events == [Handed(packet)]
  {
    ForwardWire(n, 0);
    ProbePasses(n, content);
    hide Wire, Forward, Assembler.Push, Early;
  }

  lemma VeryFirst(n: nat, content: byte, now: nat, tuning: Tuning)
    requires n < SPAN
    ensures
      var step := PushMedia(FRESH, Probe(n, content), now, tuning);
      && step.state == Ssrc(Some(n + 1), [], map[], EMPTY)
      && step.events == [Handed(Probe(n, content))]
  {
    ProbePasses(n, content);
    hide Assembler.Push;
  }

  /** A packet ahead of its turn, with room in the buffer and nothing ready. */
  lemma Waiting(s: Ssrc, position: nat, content: byte, now: nat, tuning: Tuning)
    requires s.next.Some? && s.assembler == EMPTY && s.next.value < position < s.next.value + HALF
    requires position - s.next.value <= tuning.maxFrames && |s.pending| < tuning.maxFrames
    requires Wire(position) !in s.pending && Wire(s.next.value) !in s.pending
    ensures
      var packet, n := Probe(position, content), s.next.value;
      var step := PushMedia(s, packet, now, tuning);
      && step.state == Ssrc(Some(n), Marked(s.gap, position - n, None, now), s.pending[Wire(position) := packet], EMPTY)
      && step.events == []
  {
    var n := s.next.value;
    ForwardWire(n, position - n);
    WireDiffers(n, position - n);
    hide Wire, Forward, Marked, Expire;
  }

  lemma ReleaseNext(n: nat, pending: map<u16, Packet>, gap: seq<Missing>, position: nat, content: byte)
    requires Wire(n) in pending && pending[Wire(n)] == Probe(position, content)
    ensures
      var step := PopReady(Ssrc(Some(n), gap, pending, EMPTY));
      && step.state == Ssrc(Some(n + 1), Rest(gap), pending - {Wire(n)}, EMPTY)
      && step.events == [Handed(Probe(position, content))]
  {
    ProbePasses(position, content);
    hide Wire, Assembler.Push;
  }

  lemma ExpireAll(n: nat, pending: map<u16, Packet>, gap: seq<Missing>, now: nat, ttl: nat)
    requires 0 < |gap| < HALF && forall i :: 0 <= i < |gap| ==> Expired(gap[i], now, ttl)
    ensures
      var step := Expire(Ssrc(Some(n), gap, pending, EMPTY), SSRC, now, ttl, false);
      && step.state == Ssrc(Some(n + |gap|), [], pending, EMPTY)
      && |step.events| == 1 && step.events[0].Lost?
      && step.events[0].report.firstSeq == Wire(n) && step.events[0].report.count == |gap|
  {
    hide Wire, FirstUser;
    assert gap[|gap|..] == [];
  }

  // ----- A time-out passes over a packet -----

  const STANDARD := Tuning(60, 32)

  function OddMissing(): seq<Call> {
    [] + [Come(0, 0)] + [Come(2, 0)] + [Come(4, 0)]
  }

  lemma OddMissingReaches()
    ensures Reaches(OddMissing(), STANDARD,
                    Ssrc(Some(1), [Missing(None, 0), Missing(None, 0), Missing(None, 0)],
                         map[2 := Probe(2, 0), 4 := Probe(4, 0)], EMPTY),
                    [Handed(Probe(0, 0))])
  {
    hide PushMedia, Reaches, Run;
    var m, first := Missing(None, 0), [Handed(Probe(0, 0))];
    var a := Ssrc(Some(1), [], map[], EMPTY);
    var b := Ssrc(Some(1), [m], map[2 := Probe(2, 0)], EMPTY);
    var c := Ssrc(Some(1), [m, m, m], map[2 := Probe(2, 0), 4 := Probe(4, 0)], EMPTY);
    Begin(STANDARD);
    VeryFirst(0, 0, 0, STANDARD);
    Then([], Come(0, 0), STANDARD, FRESH, [], a, first);
    Waiting(a, 2, 0, 0, STANDARD);
    assert Marked([], 1, None, 0) == [m];
    Then([] + [Come(0, 0)], Come(2, 0), STANDARD, a, first, b, first);
    Waiting(b, 4, 0, 0, STANDARD);
    assert Marked([m], 3, None, 0) == [m, m, m];
    Then([] + [Come(0, 0)] + [Come(2, 0)], Come(4, 0), STANDARD, b, first, c, first);
  }

  /** Packets 0, 2 and 4 arrive; the time-out reports 1 to 3 lost, and packet 2 stays behind. */
  lemma StrandedExample()
    ensures
      var t := Run(OddMissing() + [Call(TimeOut, 60)], SSRC, STANDARD);
      && t.state == Ssrc(Some(4), [], map[2 := Probe(2, 0), 4 := Probe(4, 0)], EMPTY)
      && |t.log| == 2 && t.log[0] == Handed(Probe(0, 0)) && t.log[1].Lost?
      && t.log[1].report.firstSeq == 1 && t.log[1].report.count == 3
      && Forward(4, 2) >= HALF
  {
    hide Run, Expire;
    OddMissingReaches();
    var m, pending := Missing(None, 0), map[2 := Probe(2, 0), 4 := Probe(4, 0)];
    var s := Ssrc(Some(1), [m, m, m], pending, EMPTY);
    ExpireAll(1, pending, [m, m, m], 60, 60);
    var step := Expire(s, SSRC, 60, 60, false);
    Then(OddMissing(), Call(TimeOut, 60), STANDARD, s, [Handed(Probe(0, 0))], step.state, [Handed(Probe(0, 0))] + step.events);
  }

  // ----- A full buffer gives up packets that are ready -----

  const SMALL := Tuning(60, 2)

  function NotReleased(): seq<Call> {
    [] + [Come(0, 0)] + [Come(2, 0)] + [Come(3, 0)] + [Come(1, 0)]
  }

  lemma NotReleasedReaches()
    ensures Reaches(NotReleased(), SMALL,
                    Ssrc(Some(2), [Missing(None, 0)], map[2 := Probe(2, 0), 3 := Probe(3, 0)], EMPTY),
                    [Handed(Probe(0, 0)), Handed(Probe(1, 0))])
  {
    hide PushMedia, Reaches, Run;
    var m, first := Missing(None, 0), [Handed(Probe(0, 0))];
    var a := Ssrc(Some(1), [], map[], EMPTY);
    var b := Ssrc(Some(1), [m], map[2 := Probe(2, 0)], EMPTY);
    var c := Ssrc(Some(1), [m, m], map[2 := Probe(2, 0), 3 := Probe(3, 0)], EMPTY);
    var d := Ssrc(Some(2), [m], map[2 := Probe(2, 0), 3 := Probe(3, 0)], EMPTY);
    Begin(SMALL);
    VeryFirst(0, 0, 0, SMALL);
    Then([], Come(0, 0), SMALL, FRESH, [], a, first);
    Waiting(a, 2, 0, 0, SMALL);
    assert Marked([], 1, None, 0) == [m];
    Then([] + [Come(0, 0)], Come(2, 0), SMALL, a, first, b, first);
    Waiting(b, 3, 0, 0, SMALL);
    assert Marked([m], 2, None, 0) == [m, m];
    Then([] + [Come(0, 0)] + [Come(2, 0)], Come(3, 0), SMALL, b, first, c, first);
    InTurn(1, c.pending, c.gap, 0, 0, SMALL);
    assert c.pending - {1} == c.pending;
    Then([] + [Come(0, 0)] + [Come(2, 0)] + [Come(3, 0)], Come(1, 0), SMALL, c, first, d,
         [Handed(Probe(0, 0)), Handed(Probe(1, 0))]);
  }

  /** All of 0 to 4 arrive, none twice; 2 and 3 are ready but not released when 4 comes, and are reported lost. */
  lemma ForcedExample()
    ensures
      var t := Run(NotReleased() + [Come(4, 0)], SSRC, SMALL);
      && t.state.next == Some(5) && t.state.pending == map[2 := Probe(2, 0), 3 := Probe(3, 0)]
      && |t.log| == 4 && t.log[2].Lost? && t.log[2].report.firstSeq == 2 && t.log[2].report.count == 2
      && t.log[3] == Handed(Probe(4, 0))
  {
    hide Run;
    NotReleasedReaches();
    var m, pending := Missing(None, 0), map[2 := Probe(2, 0), 3 := Probe(3, 0)];
    var s := Ssrc(Some(2), [m], pending, EMPTY);
    ForcedStep(s, m);
    var step := PushMedia(s, Probe(4, 0), 0, SMALL);
    var log := [Handed(Probe(0, 0)), Handed(Probe(1, 0))];
    hide PushMedia;
    Then(NotReleased(), Come(4, 0), SMALL, s, log, step.state, log + step.events);
  }

  lemma ForcedStep(s: Ssrc, m: Missing)
    requires m == Missing(None, 0) && s == Ssrc(Some(2), [m], map[2 := Probe(2, 0), 3 := Probe(3, 0)], EMPTY)
    ensures
      var step := PushMedia(s, Probe(4, 0), 0, SMALL);
      && step.state.next == Some(5) && step.state.pending == map[2 := Probe(2, 0), 3 := Probe(3, 0)]
      && |step.events| == 2 && step.events[0].Lost?
      && step.events[0].report.firstSeq == 2 && step.events[0].report.count == 2
      && step.events[1] == Handed(Probe(4, 0))
  {
    var b := Buffered(s, 2, Probe(4, 0), 0);
    var held := map[2 := Probe(2, 0), 3 := Probe(3, 0), 4 := Probe(4, 0)];
    assert Marked([m], 2, None, 0) == [m, m];
    assert b == Ssrc(Some(2), [m, m], held, EMPTY);
    HeldThree(held);
    hide Marked, FirstUser, Hand;
    assert [m, m][2..] == [];
    var expiry := Expire(b, SSRC, 0, 60, true);
    assert expiry.state == Ssrc(Some(4), [], held, EMPTY);
    ReleaseNext(4, held, [], 4, 0);
    assert held - {4} == map[2 := Probe(2, 0), 3 := Probe(3, 0)];
  }

  lemma HeldThree(held: map<u16, Packet>)
    requires held == map[2 := Probe(2, 0), 3 := Probe(3, 0), 4 := Probe(4, 0)]
    ensures |held| == 3
  {
    assert held.Keys == {2, 3, 4};
  }

  // ----- A jump throws away what is buffered -----

  /** Packet 2 arrives and waits for 1; packet 9 jumps, 1 to 8 are reported lost and packet 2 is gone. */
  lemma JumpExample()
    ensures
      var t := Run([] + [Come(0, 0)] + [Come(2, 0)] + [Come(9, 0)], SSRC, SMALL);
      && t.state == Ssrc(Some(10), [], map[], EMPTY)
      && |t.log| == 3 && t.log[1].Lost? && t.log[1].report.firstSeq == 1 && t.log[1].report.count == 8
      && t.log[2] == Handed(Probe(9, 0))
  {
    hide Run, Early;
    var m, first := Missing(None, 0), [Handed(Probe(0, 0))];
    var a := Ssrc(Some(1), [], map[], EMPTY);
    var b := Ssrc(Some(1), [m], map[2 := Probe(2, 0)], EMPTY);
    ProbePasses(9, 0);
    var step := PushMedia(b, Probe(9, 0), 0, SMALL);
    assert step.state == Ssrc(Some(10), [], map[], EMPTY) && |step.events| == 2;
    hide PushMedia;
    Begin(SMALL);
    VeryFirst(0, 0, 0, SMALL);
    Then([], Come(0, 0), SMALL, FRESH, [], a, first);
    Waiting(a, 2, 0, 0, SMALL);
    assert Marked([], 1, None, 0) == [m];
    Then([] + [Come(0, 0)], Come(2, 0), SMALL, a, first, b, first);
    Then([] + [Come(0, 0)] + [Come(2, 0)], Come(9, 0), SMALL, b, first, step.state, first + step.events);
  }

  // ----- A packet passed over comes out one cycle later -----

  /** The packets from `from` on, each in its turn. */
  function InOrder(from: nat, count: nat): seq<Call>
    decreases count
  {
    if count == 0 then [] else InOrder(from, count - 1) + [Come(from + count - 1, 60)]
  }

  lemma {:induction false} InOrderPasses(calls: seq<Call>, from: nat, count: nat, pending: map<u16, Packet>, log: seq<Event>)
    returns (log': seq<Event>)
    requires Reaches(calls, STANDARD, Ssrc(Some(from), [], pending, EMPTY), log)
    requires forall i :: from <= i < from + count ==> Wire(i) !in pending
    ensures Reaches(calls + InOrder(from, count), STANDARD, Ssrc(Some(from + count), [], pending, EMPTY), log')
    decreases count
  {
    hide Reaches, PushMedia, Wire;
    if count == 0 {
      assert calls + [] == calls;
      log' := log;
    } else {
      var before := InOrderPasses(calls, from, count - 1, pending, log);
      var n := from + count - 1;
      InTurn(n, pending, [], 0, 60, STANDARD);
      assert pending - {Wire(n)} == pending;
      log' := before + [Handed(Probe(n, 0))];
      Then(calls + InOrder(from, count - 1), Come(n, 60), STANDARD, Ssrc(Some(n), [], pending, EMPTY), before,
           Ssrc(Some(n + 1), [], pending, EMPTY), log');
      assert calls + InOrder(from, count) == calls + InOrder(from, count - 1) + [Come(n, 60)];
    }
  }

  /** The stranded packet 2 of `StrandedExample`, then packet 4, then `count` packets in order. */
  function Onward(count: nat): seq<Call> {
    OddMissing() + [Call(TimeOut, 60)] + [Call(Release, 60)] + InOrder(5, count)
  }

  lemma OnwardReaches(count: nat) returns (log: seq<Event>)
    requires count <= SPAN - 3
    ensures Reaches(Onward(count), STANDARD, Ssrc(Some(5 + count), [], map[2 := Probe(2, 0)], EMPTY), log)
  {
    hide Reaches, Run, PopReady;
    StrandedReaches();
    var stranded := Run(OddMissing() + [Call(TimeOut, 60)], SSRC, STANDARD).log;
    var pending, left := map[2 := Probe(2, 0), 4 := Probe(4, 0)], map[2 := Probe(2, 0)];
    ReleaseNext(4, pending, [], 4, 0);
    assert pending - {4} == left;
    var log1 := stranded + [Handed(Probe(4, 0))];
    Then(OddMissing() + [Call(TimeOut, 60)], Call(Release, 60), STANDARD, Ssrc(Some(4), [], pending, EMPTY), stranded,
         Ssrc(Some(5), [], left, EMPTY), log1);
    log := InOrderPasses(OddMissing() + [Call(TimeOut, 60)] + [Call(Release, 60)], 5, count, left, log1);
  }

  lemma StrandedReaches()
    ensures Reaches(OddMissing() + [Call(TimeOut, 60)], STANDARD,
                    Ssrc(Some(4), [], map[2 := Probe(2, 0), 4 := Probe(4, 0)], EMPTY),
                    Run(OddMissing() + [Call(TimeOut, 60)], SSRC, STANDARD).log)
  {
    StrandedExample();
    hide Run;
  }

  /**
   * One cycle later packet 2 comes out at position 65538, and the packet of that position, which then
   * arrives, is refused without a report.
   */
  lemma StaleExample() returns (log: seq<Event>)
    ensures
      var calls := Onward(SPAN - 3) + [Call(Release, 60)] + [Call(Arrive(Probe(SPAN + 2, 1)), 60)];
      Reaches(calls, STANDARD, Ssrc(Some(SPAN + 3), [], map[], EMPTY), log + [Handed(Probe(2, 0))])
  {
    hide Reaches, Run, PopReady, Early;
    log := OnwardReaches(SPAN - 3);
    var left, done := map[2 := Probe(2, 0)], log + [Handed(Probe(2, 0))];
    var s, t := Ssrc(Some(SPAN + 2), [], left, EMPTY), Ssrc(Some(SPAN + 3), [], map[], EMPTY);
    ReleaseNext(SPAN + 2, left, [], 2, 0);
    assert left - {2} == map[];
    Then(Onward(SPAN - 3), Call(Release, 60), STANDARD, s, log, t, done);
    assert Forward(SPAN + 3, 2) >= HALF;
    assert done + [] == done;
    Then(Onward(SPAN - 3) + [Call(Release, 60)], Call(Arrive(Probe(SPAN + 2, 1)), 60), STANDARD, t, done, t, done);
  }

  /** A packet ahead of its turn whose number is taken changes nothing but the missing block. */
  lemma Refused(s: Ssrc, position: nat, content: byte, now: nat, tuning: Tuning)
    requires s.next.Some? && s.assembler == EMPTY && s.next.value < position < s.next.value + HALF
    requires position - s.next.value <= tuning.maxFrames && |s.pending| <= tuning.maxFrames
    requires Wire(position) in s.pending && Wire(s.next.value) !in s.pending
    ensures
      var n := s.next.value;
      var step := PushMedia(s, Probe(position, content), now, tuning);
      step.state == Ssrc(Some(n), Marked(s.gap, position - n, None, now), s.pending, EMPTY) && step.events == []
  {
    var n := s.next.value;
    ForwardWire(n, position - n);
    WireDiffers(n, position - n);
    hide Wire, Forward, Marked, Expire;
  }

  /** The packet of position 65538 comes early this time; its number is taken, and packet 2 comes out all the same. */
  lemma StaleEarlyExample() returns (log: seq<Event>)
    ensures
      var calls := Onward(SPAN - 4) + [Call(Arrive(Probe(SPAN + 2, 1)), 60)] + [Come(SPAN + 1, 60)] + [Call(Release, 60)];
      Reaches(calls, STANDARD, Ssrc(Some(SPAN + 3), [], map[], EMPTY),
              log + [Handed(Probe(SPAN + 1, 0))] + [Handed(Probe(2, 0))])
  {
    hide Reaches, Run, PopReady, PushMedia;
    log := OnwardReaches(SPAN - 4);
    var m, left, n := Missing(None, 60), map[2 := Probe(2, 0)], SPAN + 1;
    var s, b := Ssrc(Some(n), [], left, EMPTY), Ssrc(Some(n), [m], left, EMPTY);
    var c, d := Ssrc(Some(n + 1), [], left, EMPTY), Ssrc(Some(n + 2), [], map[], EMPTY);
    var calls := Onward(SPAN - 4);
    var early := Call(Arrive(Probe(SPAN + 2, 1)), 60);
    Refused(s, SPAN + 2, 1, 60, STANDARD);
    assert Marked([], 1, None, 60) == [m] && log + [] == log;
    Then(calls, early, STANDARD, s, log, b, log);
    InTurn(n, left, [m], 0, 60, STANDARD);
    assert left - {1} == left;
    Then(calls + [early], Come(n, 60), STANDARD, b, log, c, log + [Handed(Probe(n, 0))]);
    ReleaseNext(n + 1, left, [], 2, 0);
    assert left - {2} == map[];
    Then(calls + [early] + [Come(n, 60)], Call(Release, 60), STANDARD, c, log + [Handed(Probe(n, 0))], d,
         log + [Handed(Probe(n, 0))] + [Handed(Probe(2, 0))]);
  }

  // ----- The first arrival sets the start -----

  /** Packet 6 comes before packet 5: it is the first, so packet 5 is refused without a report. */
  lemma FirstArrivalExample()
    ensures Reaches([] + [Come(6, 0)] + [Come(5, 0)], STANDARD, Ssrc(Some(7), [], map[], EMPTY), [Handed(Probe(6, 0))])
  {
    hide Reaches, Run, Early;
    var s, log := Ssrc(Some(7), [], map[], EMPTY), [Handed(Probe(6, 0))];
    Begin(STANDARD);
    VeryFirst(6, 0, 0, STANDARD);
    Then([], Come(6, 0), STANDARD, FRESH, [], s, log);
    assert Forward(7, 5) >= HALF;
    Then([] + [Come(6, 0)], Come(5, 0), STANDARD, s, log, s, log);
  }

  // ----- An orderly plan -----

  function Swapped(): seq<Moment> {
    [Moment(Came(0), 0), Moment(Came(2), 0), Moment(Came(1), 0), Moment(Freed, 0)]
  }

  function Three(): seq<Packet> {
    [Probe(0, 0), Probe(1, 0), Probe(2, 0)]
  }

  lemma SwappedArrivals()
    ensures
      var plan := Swapped();
      && First(plan[..0]).None? && First(plan[..1]) == First(plan[..2]) == First(plan[..3]) == First(plan) == Some(0)
      && Arrived(plan[..1]) == {0} && Arrived(plan[..2]) == {0, 2} && Arrived(plan) == {0, 1, 2}
  {
    var plan := Swapped();
    assert plan[..1][..0] == [] && plan[..2][..1] == plan[..1] && plan[..3][..2] == plan[..2];
    assert First(plan[..1]) == Some(0) && Arrived(plan[..1]) == {0};
    assert First(plan[..2]) == Some(0) && Arrived(plan[..2]) == {0, 2};
    assert First(plan[..3]) == Some(0) && Arrived(plan[..3]) == {0, 1, 2};
  }

  lemma SwappedRuns() returns (log: seq<Event>)
    ensures Reaches([] + [Come(0, 0)], STANDARD, Ssrc(Some(1), [], map[], EMPTY), [Handed(Probe(0, 0))])
    ensures Reaches([] + [Come(0, 0)] + [Come(2, 0)], STANDARD,
                    Ssrc(Some(1), [Missing(None, 0)], map[2 := Probe(2, 0)], EMPTY), [Handed(Probe(0, 0))])
    ensures Reaches([] + [Come(0, 0)] + [Come(2, 0)] + [Come(1, 0)] + [Call(Release, 0)], STANDARD,
                    Ssrc(Some(3), [], map[], EMPTY), log)
  {
    hide PushMedia, Run, PopReady, Reaches;
    var m, log0 := Missing(None, 0), [Handed(Probe(0, 0))];
    var log1 := log0 + [Handed(Probe(1, 0))];
    log := log1 + [Handed(Probe(2, 0))];
    var a := Ssrc(Some(1), [], map[], EMPTY);
    var b := Ssrc(Some(1), [m], map[2 := Probe(2, 0)], EMPTY);
    var c := Ssrc(Some(2), [], map[2 := Probe(2, 0)], EMPTY);
    var d := Ssrc(Some(3), [], map[], EMPTY);
    Begin(STANDARD);
    VeryFirst(0, 0, 0, STANDARD);
    Then([], Come(0, 0), STANDARD, FRESH, [], a, log0);
    Waiting(a, 2, 0, 0, STANDARD);
    assert Marked([], 1, None, 0) == [m];
    Then([] + [Come(0, 0)], Come(2, 0), STANDARD, a, log0, b, log0);
    InTurn(1, b.pending, [m], 0, 0, STANDARD);
    assert b.pending - {1} == b.pending;
    Then([] + [Come(0, 0)] + [Come(2, 0)], Come(1, 0), STANDARD, b, log0, c, log1);
    ReleaseNext(2, c.pending, [], 2, 0);
    assert c.pending - {2} == map[];
    Then([] + [Come(0, 0)] + [Come(2, 0)] + [Come(1, 0)], Call(Release, 0), STANDARD, c, log1, d, log);
  }

  lemma SwappedCalls()
    ensures Within(Swapped(), 3)
    ensures Calls(Swapped()[..0], Three()) == []
    ensures Calls(Swapped()[..1], Three()) == [] + [Come(0, 0)]
    ensures Calls(Swapped()[..2], Three()) == [] + [Come(0, 0)] + [Come(2, 0)]
    ensures Calls(Swapped(), Three()) == [] + [Come(0, 0)] + [Come(2, 0)] + [Come(1, 0)] + [Call(Release, 0)]
  {
    hide Wire;
  }

  lemma SwappedStates()
    ensures Within(Swapped(), 3)
    ensures !HasReady(StateAt(Swapped(), Three(), SSRC, STANDARD, 0))
    ensures !HasReady(StateAt(Swapped(), Three(), SSRC, STANDARD, 1))
    ensures !HasReady(StateAt(Swapped(), Three(), SSRC, STANDARD, 2))
    ensures !HasReady(Run(Calls(Swapped(), Three()), SSRC, STANDARD).state)
  {
    hide Run, Calls, Come, Swapped, Three, Probe;
    Begin(STANDARD);
    SwappedCalls();
    var log := SwappedRuns();
  }

  /** Packet 2 overtakes packet 1: the arrivals are orderly, the SSRC is drained, and all three come out. */
  lemma SwappedExample()
    ensures Orderly(Swapped(), Three(), STANDARD) && Drained(Swapped(), Three(), SSRC, STANDARD)
    ensures First(Swapped()) == Some(0) && Complete(Swapped(), 3)
    ensures !HasReady(Run(Calls(Swapped(), Three()), SSRC, STANDARD).state)
  {
    hide First, Arrived, Run, HasReady, StateAt;
    SwappedArrivals();
    SwappedStates();
    var plan := Swapped();
    assert Turn(plan[..1]) == 1 by { TurnIs(plan[..1], 1); }
    assert Turn(plan[..2]) == 1 by { TurnIs(plan[..2], 1); }
    hide Turn;
    forall j | 0 <= j < |plan| && plan[j].act.Came? && First(plan[..j]).Some?
      ensures InWindow(Turn(plan[..j]), plan[j].act.index, STANDARD)
    {
      assert j == 1 || j == 2;
    }
    forall j | 0 <= j < |plan| && !plan[j].act.Freed?
      ensures !HasReady(StateAt(plan, Three(), SSRC, STANDARD, j))
    {
      assert j == 0 || j == 1 || j == 2;
    }
  }
}
