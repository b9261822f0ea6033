/**
 * Packets of a stream arriving in any order within the window, some more than once, at an SSRC that is drained
 * between arrivals (cacophony/src/state.rs). What may happen is said of the arrivals alone.
 */
module Arrivals {
  import opened Prelude
  import opened Assembler
  import opened MediaPath
  import opened Reorder
  import opened ReorderRun
  import opened ReorderedMedia
  import RtpPayload

  /** The stream's packet `index` comes, a ready frame or packet is asked for, or the time-out is looked at. */
  datatype Act = Came(index: nat) | Freed | Waited

  datatype Moment = Moment(act: Act, now: nat)

  predicate Within(plan: seq<Moment>, count: nat) {
    forall i :: 0 <= i < |plan| && plan[i].act.Came? ==> plan[i].act.index < count
  }

  function CallOf(m: Moment, packets: seq<Packet>): Call
    requires m.act.Came? ==> m.act.index < |packets|
  {
    match m.act
    case Came(i) => Call(Arrive(packets[i]), m.now)
    case Freed => Call(Release, m.now)
    case Waited => Call(TimeOut, m.now)
  }

  function Calls(plan: seq<Moment>, packets: seq<Packet>): (calls: seq<Call>)
    requires Within(plan, |packets|)
    ensures |calls| == |plan|
  {
    seq(|plan|, i requires 0 <= i < |plan| => CallOf(plan[i], packets))
  }

  /** The packets carry consecutive sequence numbers. */
  ghost predicate Numbered(packets: seq<Packet>) {
    forall i :: 0 <= i < |packets| ==> packets[i].rtp.seqno == Wire(packets[0].rtp.seqno + i)
  }

  // ----- The arrivals -----

  function Arrived(plan: seq<Moment>): set<nat> {
    if |plan| == 0 then {}
    else
      var last := plan[|plan| - 1].act;
      Arrived(plan[..|plan| - 1]) + if last.Came? then {last.index} else {}
  }

  /** The packet that came first of all. */
  function First(plan: seq<Moment>): Option<nat> {
    if |plan| == 0 then None
    else
      var before, last := First(plan[..|plan| - 1]), plan[|plan| - 1].act;
      if before.Some? then before else if last.Came? then Some(last.index) else None
  }

  function LeastMissing(s: set<nat>, from: nat): (m: nat)
    ensures from <= m && m !in s && forall i :: from <= i < m ==> i in s
    decreases |s|
  {
    if from !in s then from
    else
      var m := LeastMissing(s - {from}, from + 1);
      AllBelow(s, from, m);
      m
  }

  lemma AllBelow(s: set<nat>, from: nat, m: nat)
    requires from in s && forall i :: from + 1 <= i < m ==> i in s - {from}
    ensures forall i :: from <= i < m ==> i in s
  {
    forall i | from <= i < m
      ensures i in s
    {
      assert i == from || i in s - {from};
    }
  }

  /** The packet whose turn it is: the first one missing, counted from the first that came. */
  function Turn(plan: seq<Moment>): nat
    requires First(plan).Some?
  {
    LeastMissing(Arrived(plan), First(plan).value)
  }

  lemma TurnIs(plan: seq<Moment>, m: nat)
    requires First(plan).Some? && First(plan).value <= m && m !in Arrived(plan)
    requires forall i :: First(plan).value <= i < m ==> i in Arrived(plan)
    ensures Turn(plan) == m
  {
    hide Arrived, First;
    var turn := Turn(plan);
    assert turn < m ==> turn in Arrived(plan);
    assert m < turn ==> m in Arrived(plan);
  }

  /** Ahead of its turn by no more than the buffer's window, or behind it by no more than half a cycle. */
  predicate InWindow(turn: nat, index: nat, tuning: Tuning) {
    turn <= index + HALF && index <= turn + tuning.maxFrames && index < turn + HALF
  }

  /** Every arrival is within the window around the turn at that time. */
  ghost predicate Windowed(plan: seq<Moment>, tuning: Tuning) {
    forall j :: 0 <= j < |plan| && plan[j].act.Came? && First(plan[..j]).Some? ==>
      InWindow(Turn(plan[..j]), plan[j].act.index, tuning)
  }

  /** Whenever the time-out is looked at, the first packet beyond the one awaited came less than the time-out ago. */
  ghost predicate Patient(plan: seq<Moment>, tuning: Tuning) {
    forall j, u :: 0 <= u < j < |plan| && plan[j].act.Waited? && plan[u].act.Came? ==> PatientAt(plan, tuning, j, u)
  }

  ghost predicate PatientAt(plan: seq<Moment>, tuning: Tuning, j: nat, u: nat)
    requires u < j < |plan| && plan[u].act.Came?
  {
    First(plan[..j]).Some? && plan[u].act.index > Turn(plan[..j]) ==> plan[j].now < plan[u].now + tuning.ttl
  }

  ghost predicate Timed(plan: seq<Moment>) {
    forall i, j :: 0 <= i < j < |plan| ==> plan[i].now <= plan[j].now
  }

  /** What is asked of the network and the clock. */
  ghost predicate Orderly(plan: seq<Moment>, packets: seq<Packet>, tuning: Tuning) {
    && Within(plan, |packets|) && Numbered(packets)
    && Timed(plan) && Windowed(plan, tuning) && Patient(plan, tuning)
  }

  /** Nothing is ready when a packet comes or the time-out is looked at: the SSRC is drained in between. */
  ghost predicate Drained(plan: seq<Moment>, packets: seq<Packet>, ssrc: u32, tuning: Tuning)
    requires Within(plan, |packets|)
  {
    forall j :: 0 <= j < |plan| && !plan[j].act.Freed? ==> !HasReady(StateAt(plan, packets, ssrc, tuning, j))
  }

  ghost function StateAt(plan: seq<Moment>, packets: seq<Packet>, ssrc: u32, tuning: Tuning, j: nat): Ssrc
    requires Within(plan, |packets|) && j <= |plan|
  {
    Run(Calls(plan[..j], packets), ssrc, tuning).state
  }

  // ----- Prefixes -----

  lemma FrontOrderly(plan: seq<Moment>, packets: seq<Packet>, ssrc: u32, tuning: Tuning)
    requires |plan| > 0 && Orderly(plan, packets, tuning) && Drained(plan, packets, ssrc, tuning)
    ensures
      var front := plan[..|plan| - 1];
      Orderly(front, packets, tuning) && Drained(front, packets, ssrc, tuning)
  {
    hide Run, First, Turn, InWindow, HasReady;
    var front := plan[..|plan| - 1];
    forall j | 0 <= j <= |front|
      ensures front[..j] == plan[..j]
    {
    }
    assert forall j :: 0 <= j < |front| ==> front[j] == plan[j];
    FrontWindowed(plan, tuning);
    FrontPatient(plan, tuning);
    FrontDrained(plan, packets, ssrc, tuning);
    hide Windowed, Patient, Drained;
  }

  lemma FrontWindowed(plan: seq<Moment>, tuning: Tuning)
    requires |plan| > 0 && Windowed(plan, tuning)
    ensures Windowed(plan[..|plan| - 1], tuning)
  {
    hide First, Turn, InWindow;
    var front := plan[..|plan| - 1];
    forall j | 0 <= j < |front| && front[j].act.Came? && First(front[..j]).Some?
      ensures InWindow(Turn(front[..j]), front[j].act.index, tuning)
    {
      assert front[..j] == plan[..j] && front[j] == plan[j];
    }
  }

  lemma FrontPatient(plan: seq<Moment>, tuning: Tuning)
    requires |plan| > 0 && Patient(plan, tuning)
    ensures Patient(plan[..|plan| - 1], tuning)
  {
    hide First, Turn;
    var front := plan[..|plan| - 1];
    forall j, u | 0 <= u < j < |front| && front[j].act.Waited? && front[u].act.Came?
      ensures PatientAt(front, tuning, j, u)
    {
      assert front[..j] == plan[..j] && front[j] == plan[j] && front[u] == plan[u];
      assert PatientAt(plan, tuning, j, u);
    }
  }

  lemma FrontDrained(plan: seq<Moment>, packets: seq<Packet>, ssrc: u32, tuning: Tuning)
    requires |plan| > 0 && Within(plan, |packets|) && Drained(plan, packets, ssrc, tuning)
    ensures Within(plan[..|plan| - 1], |packets|) && Drained(plan[..|plan| - 1], packets, ssrc, tuning)
  {
    hide Run, HasReady;
    var front := plan[..|plan| - 1];
    forall j | 0 <= j < |front| && !front[j].act.Freed?
      ensures !HasReady(StateAt(front, packets, ssrc, tuning, j))
    {
      assert front[..j] == plan[..j] && front[j] == plan[j];
      assert StateAt(front, packets, ssrc, tuning, j) == StateAt(plan, packets, ssrc, tuning, j);
    }
  }

  lemma CallsSnoc(plan: seq<Moment>, packets: seq<Packet>)
    requires |plan| > 0 && Within(plan, |packets|)
    ensures
      var n := |plan| - 1;
      && Within(plan[..n], |packets|)
      && Calls(plan, packets)[..n] == Calls(plan[..n], packets) && Calls(plan, packets)[n] == CallOf(plan[n], packets)
  {
  }

  lemma CallsClocked(plan: seq<Moment>, packets: seq<Packet>)
    requires Within(plan, |packets|) && Timed(plan)
    ensures Clocked(Calls(plan, packets))
  {
    var calls := Calls(plan, packets);
    forall i, j | 0 <= i < j < |calls|
      ensures calls[i].now <= calls[j].now
    {
      assert calls[i].now == plan[i].now && calls[j].now == plan[j].now;
    }
  }

  lemma RunSnoc(calls: seq<Call>, ssrc: u32, tuning: Tuning)
    requires |calls| > 0
    ensures Run(calls, ssrc, tuning) == Record(Run(calls[..|calls| - 1], ssrc, tuning), calls[|calls| - 1], ssrc, tuning)
  {
    hide Record;
  }

  // ----- What the run has done after the arrivals so far -----

  /** The index that stands at a position. */
  function IndexAt(t: Trace, first: nat, position: nat): nat
    requires t.start <= position
  {
    first + (position - t.start)
  }

  /** Accepted are exactly the packets that have come, from the first on, each at its position. */
  ghost predicate AcceptedAre(t: Trace, plan: seq<Moment>, packets: seq<Packet>, first: nat) {
    && (forall p :: p in t.accepted ==> t.start <= p && IndexAt(t, first, p) in Arrived(plan))
    && (forall p :: t.start <= p && IndexAt(t, first, p) in Arrived(plan) ==> p in t.accepted)
    && (forall p :: p in t.accepted ==> IndexAt(t, first, p) < |packets| && t.accepted[p] == packets[IndexAt(t, first, p)])
  }

  /** Moment `u` brought a packet beyond `index`, at that time. */
  ghost predicate Beyond(plan: seq<Moment>, u: nat, index: nat, time: nat) {
    u < |plan| && plan[u].act.Came? && plan[u].act.index > index && plan[u].now == time
  }

  ghost predicate Dated(plan: seq<Moment>, index: nat, time: nat) {
    exists u: nat :: Beyond(plan, u, index, time)
  }

  /** A missing entry dates from the arrival of a packet beyond it. */
  ghost predicate GapDates(t: Trace, plan: seq<Moment>, first: nat)
    requires t.state.next.Some? && t.start <= t.state.next.value
  {
    forall o :: 0 <= o < |t.state.gap| ==>
      Dated(plan, IndexAt(t, first, t.state.next.value + o), t.state.gap[o].detectedAt)
  }

  ghost predicate Tracks(t: Trace, plan: seq<Moment>, packets: seq<Packet>) {
    && NoLoss(t.log)
    && match First(plan)
       case None => t.state == FRESH && t.log == [] && t.accepted == map[]
       case Some(first) =>
         && t.state.next.Some? && first < |packets|
         && t.start == packets[first].rtp.seqno && t.start <= t.state.next.value
         && AcceptedAre(t, plan, packets, first) && GapDates(t, plan, first)
  }

  /** When nothing is ready, the next position is that of the packet whose turn it is. */
  lemma NextIsTurn(t: Trace, plan: seq<Moment>, packets: seq<Packet>, maxFrames: nat)
    requires Tracks(t, plan, packets) && First(plan).Some? && TraceInSequence(t, maxFrames) && !HasReady(t.state)
    ensures IndexAt(t, First(plan).value, t.state.next.value) == Turn(plan)
    ensures Turn(plan) <= |packets|
  {
    hide Wire, Forward, PendingAre, GapDates, NoLoss, First, Arrived, Turn;
    var first, next := First(plan).value, t.state.next.value;
    var m := IndexAt(t, first, next);
    forall i | first <= i < m
      ensures i in Arrived(plan) && i < |packets|
    {
      var p := t.start + (i - first);
      assert p in t.accepted && IndexAt(t, first, p) == i;
    }
    assert next !in t.accepted;
    assert first < m ==> m - 1 in Arrived(plan) && m - 1 < |packets|;
    TurnIs(plan, m);
  }

  // ----- Sequence numbers and indices -----

  lemma WireShift(base: nat, a: nat, i: nat, m: nat)
    requires a <= m
    ensures
      var n := Wire(base + a) + (m - a);
      && (m <= i < m + SPAN ==> Forward(n, Wire(base + i)) == i - m)
      && (i < m <= i + SPAN ==> Forward(n, Wire(base + i)) == SPAN - (m - i))
  {
    var qa, qi := (base + a) / SPAN, (base + i) / SPAN;
    assert Wire(base + a) == base + a - SPAN * qa && Wire(base + i) == base + i - SPAN * qi;
    var n := Wire(base + a) + (m - a);
    assert Wire(base + i) - n == i - m + SPAN * (qa - qi);
    ModShift(i - m, qa - qi);
  }

  lemma ModShift(x: int, q: int)
    ensures (x + SPAN * q) % SPAN == x % SPAN
  {
  }

  lemma ForwardIndex(t: Trace, packets: seq<Packet>, first: nat, i: nat, turn: nat)
    requires Numbered(packets) && first < |packets| && i < |packets|
    requires t.start == packets[first].rtp.seqno && t.state.next.Some? && t.start <= t.state.next.value
    requires IndexAt(t, first, t.state.next.value) == turn
    ensures turn <= i < turn + HALF ==> Forward(t.state.next.value, packets[i].rtp.seqno) == i - turn
    ensures i < turn <= i + HALF ==> Forward(t.state.next.value, packets[i].rtp.seqno) >= HALF
  {
    hide Wire, Forward;
    WireShift(packets[0].rtp.seqno, first, i, turn);
  }

  // ----- One moment -----

  lemma DatedLater(plan: seq<Moment>, m: Moment, index: nat, time: nat)
    requires Dated(plan, index, time)
    ensures Dated(plan + [m], index, time)
  {
    var u: nat :| Beyond(plan, u, index, time);
    assert Beyond(plan + [m], u, index, time);
  }

  lemma DatedNow(plan: seq<Moment>, m: Moment, index: nat)
    requires m.act.Came? && m.act.index > index
    ensures Dated(plan + [m], index, m.now)
  {
    assert Beyond(plan + [m], |plan|, index, m.now);
  }

  /** Entries that stay keep their date; `d` of them have gone from the front with their positions. */
  lemma GapDatesMove(t: Trace, t': Trace, plan: seq<Moment>, m: Moment, first: nat, d: nat)
    requires t.state.next.Some? && t.start <= t.state.next.value && GapDates(t, plan, first)
    requires t'.start == t.start && t'.state.next == Some(t.state.next.value + d)
    requires t'.state.gap == if d <= |t.state.gap| then t.state.gap[d..] else []
    ensures GapDates(t', plan + [m], first)
  {
    hide Dated;
    forall o | 0 <= o < |t'.state.gap|
      ensures Dated(plan + [m], IndexAt(t', first, t'.state.next.value + o), t'.state.gap[o].detectedAt)
    {
      assert t'.state.gap[o] == t.state.gap[d + o];
      DatedLater(plan, m, IndexAt(t, first, t.state.next.value + (d + o)), t.state.gap[d + o].detectedAt);
    }
  }

  /** New entries date from the packet that came beyond them. */
  lemma GapDatesGrow(t: Trace, t': Trace, plan: seq<Moment>, m: Moment, first: nat, forward: nat, userId: Option<u64>)
    requires t.state.next.Some? && t.start <= t.state.next.value && GapDates(t, plan, first)
    requires t'.start == t.start && t'.state.next == t.state.next
    requires t'.state.gap == Marked(t.state.gap, forward, userId, m.now)
    requires m.act.Came? && m.act.index == IndexAt(t, first, t.state.next.value + forward)
    ensures GapDates(t', plan + [m], first)
  {
    hide Dated;
    forall o | 0 <= o < |t'.state.gap|
      ensures Dated(plan + [m], IndexAt(t', first, t'.state.next.value + o), t'.state.gap[o].detectedAt)
    {
      if o < |t.state.gap| {
        DatedLater(plan, m, IndexAt(t, first, t.state.next.value + o), t.state.gap[o].detectedAt);
      } else {
        DatedNow(plan, m, IndexAt(t, first, t.state.next.value + o));
      }
    }
  }

  lemma ArrivedSnoc(plan: seq<Moment>, m: Moment)
    ensures Arrived(plan + [m]) == Arrived(plan) + if m.act.Came? then {m.act.index} else {}
    ensures First(plan).Some? ==> First(plan + [m]) == First(plan)
    ensures First(plan).None? ==> First(plan + [m]) == if m.act.Came? then Some(m.act.index) else None
  {
    assert (plan + [m])[..|plan|] == plan;
  }

  /** Nothing new: a packet from before the first, or one that had come already. */
  lemma AcceptedSame(t: Trace, t': Trace, plan: seq<Moment>, m: Moment, packets: seq<Packet>, first: nat)
    requires AcceptedAre(t, plan, packets, first) && t'.start == t.start && t'.accepted == t.accepted
    requires m.act.Came? ==> m.act.index < first || m.act.index in Arrived(plan)
    ensures AcceptedAre(t', plan + [m], packets, first)
  {
    hide Arrived;
    ArrivedSnoc(plan, m);
    assert forall p :: t.start <= p ==> IndexAt(t', first, p) == IndexAt(t, first, p);
  }

  lemma AcceptedMore(t: Trace, t': Trace, plan: seq<Moment>, m: Moment, packets: seq<Packet>, first: nat, position: nat)
    requires AcceptedAre(t, plan, packets, first) && t'.start == t.start <= position
    requires m.act.Came? && m.act.index == IndexAt(t, first, position) < |packets|
    requires t'.accepted == t.accepted[position := packets[m.act.index]] || (position in t.accepted && t'.accepted == t.accepted)
    ensures AcceptedAre(t', plan + [m], packets, first)
  {
    hide Arrived;
    ArrivedSnoc(plan, m);
    assert forall p :: t.start <= p ==> IndexAt(t', first, p) == IndexAt(t, first, p);
    assert IndexAt(t, first, position) in Arrived(plan + [m]);
  }

  lemma NoLossMore(log: seq<Event>, events: seq<Event>)
    requires NoLoss(log) && NoLoss(events)
    ensures NoLoss(log + events)
  {
  }

  /** The very first packet. */
  lemma TracksFirst(t: Trace, plan: seq<Moment>, m: Moment, packets: seq<Packet>, ssrc: u32, tuning: Tuning)
    requires Tracks(t, plan, packets) && First(plan).None? && m.act.Came? && m.act.index < |packets|
    requires Arrived(plan) == {}
    ensures Tracks(Record(t, CallOf(m, packets), ssrc, tuning), plan + [m], packets)
  {
    hide Arrived, First, Do;
    ArrivedSnoc(plan, m);
    var packet := packets[m.act.index];
    FirstStep(packet, m.now, ssrc, tuning);
    var after := Record(t, CallOf(m, packets), ssrc, tuning);
    TracksOne(after, plan + [m], packets, m.act.index);
  }

  lemma FirstStep(packet: Packet, now: nat, ssrc: u32, tuning: Tuning)
    ensures
      var step := Do(FRESH, Call(Arrive(packet), now), ssrc, tuning);
      step.events == [Handed(packet)] && step.state.next == Some(packet.rtp.seqno as nat + 1) && step.state.gap == []
  {
    hide Hand;
    HandParts(FRESH, packet.rtp.seqno, packet);
    HandGap(FRESH, packet.rtp.seqno, packet);
  }

  lemma TracksOne(t: Trace, plan: seq<Moment>, packets: seq<Packet>, first: nat)
    requires first < |packets| && First(plan) == Some(first) && Arrived(plan) == {first}
    requires t.start == packets[first].rtp.seqno && t.state.next == Some(t.start + 1) && t.state.gap == []
    requires t.log == [Handed(packets[first])] && t.accepted == map[t.start := packets[first]]
    ensures Tracks(t, plan, packets)
  {
    hide Arrived, First;
  }

  lemma HandGap(s: Ssrc, position: nat, packet: Packet)
    ensures Hand(s, position, packet).state.gap == s.gap
  {
    hide Assembler.Push;
  }

  lemma {:induction false} NoneFirst(plan: seq<Moment>)
    requires First(plan).None?
    ensures Arrived(plan) == {}
  {
    if |plan| > 0 {
      NoneFirst(plan[..|plan| - 1]);
    }
  }

  /** The first packet has come, and the run is lossless so far. */
  ghost predicate Running(t: Trace, plan: seq<Moment>, packets: seq<Packet>, now: nat, tuning: Tuning) {
    && Tracks(t, plan, packets) && First(plan).Some?
    && TraceInSequence(t, tuning.maxFrames) && Inv(t.state, now, tuning)
  }

  lemma TracksStep(t: Trace, t': Trace, plan: seq<Moment>, m: Moment, packets: seq<Packet>)
    requires Tracks(t, plan, packets) && First(plan).Some? && t'.start == t.start
    requires t'.state.next.Some? && t.state.next.value <= t'.state.next.value && NoLoss(t'.log)
    requires AcceptedAre(t', plan + [m], packets, First(plan).value) && GapDates(t', plan + [m], First(plan).value)
    ensures Tracks(t', plan + [m], packets)
  {
    hide Arrived, First, AcceptedAre, GapDates, NoLoss;
    ArrivedSnoc(plan, m);
  }

  lemma TracksInTurn(t: Trace, plan: seq<Moment>, m: Moment, packets: seq<Packet>, ssrc: u32, tuning: Tuning)
    requires Running(t, plan, packets, m.now, tuning) && m.act.Came? && m.act.index < |packets|
    requires Forward(t.state.next.value, packets[m.act.index].rtp.seqno) == 0
    requires m.act.index == IndexAt(t, First(plan).value, t.state.next.value)
    ensures Tracks(Record(t, CallOf(m, packets), ssrc, tuning), plan + [m], packets)
  {
    hide Arrived, First, AcceptedAre, GapDates, Hand, TraceInSequence, Inv;
    var s, n, first, packet := t.state, t.state.next.value, First(plan).value, packets[m.act.index];
    var rest := s.(gap := Rest(s.gap), pending := s.pending - {packet.rtp.seqno});
    HandParts(rest, n, packet);
    HandGap(rest, n, packet);
    var after := Record(t, CallOf(m, packets), ssrc, tuning);
    NoLossMore(t.log, [Handed(packet)]);
    hide NoLoss;
    GapDatesMove(t, after, plan, m, first, 1);
    AcceptedMore(t, after, plan, m, packets, first, n);
    TracksStep(t, after, plan, m, packets);
  }

  lemma TracksLate(t: Trace, plan: seq<Moment>, m: Moment, packets: seq<Packet>, ssrc: u32, tuning: Tuning)
    requires Running(t, plan, packets, m.now, tuning) && m.act.Came? && m.act.index < |packets|
    requires Forward(t.state.next.value, packets[m.act.index].rtp.seqno) >= HALF
    requires m.act.index < First(plan).value || m.act.index in Arrived(plan)
    ensures Tracks(Record(t, CallOf(m, packets), ssrc, tuning), plan + [m], packets)
  {
    hide Arrived, First, AcceptedAre, GapDates, TraceInSequence, Inv, Early, Hand, NoLoss;
    var first, after := First(plan).value, Record(t, CallOf(m, packets), ssrc, tuning);
    assert after.log == t.log + [] == t.log && t.state.gap[0..] == t.state.gap;
    GapDatesMove(t, after, plan, m, first, 0);
    AcceptedSame(t, after, plan, m, packets, first);
    TracksStep(t, after, plan, m, packets);
  }

  /** With nothing ready and room in the buffer, an early packet is just buffered. */
  lemma QuietEarly(s: Ssrc, forward: nat, packet: Packet, now: nat, tuning: Tuning)
    requires s.next.Some? && !HasReady(s) && forward == Forward(s.next.value, packet.rtp.seqno) && 0 < forward
    requires |Buffered(s, forward, packet, now).pending| <= tuning.maxFrames
    ensures
      var step := Early(s, forward, packet, now, tuning);
      step.state == Buffered(s, forward, packet, now) && step.events == []
  {
    hide Forward, Marked, Expire, Hand;
    ForwardWire(s.next.value, 0);
    hide Wire;
  }

  lemma {:induction false} FewAhead(keys: set<u16>, n: nat, most: nat)
    requires forall k :: k in keys ==> 1 <= Forward(n, k) <= most
    ensures |keys| <= most
    decreases most
  {
    hide Forward, Wire;
    if most == 0 {
      assert keys == {};
    } else if most >= SPAN {
      FewAhead(keys, n, most - 1);
    } else {
      var last := Wire(n + most);
      forall k | k in keys - {last}
        ensures Forward(n, k) <= most - 1
      {
        WireForward(n, k);
      }
      FewAhead(keys - {last}, n, most - 1);
    }
  }

  /** Everything buffered is ahead within the window, so a packet within it always finds room. */
  lemma RoomAhead(s: Ssrc, packet: Packet, start: nat, log: seq<Event>, accepted: map<nat, Packet>, now: nat, tuning: Tuning)
    requires s.next.Some? && InSequence(s.next.value, s.pending, start, log, accepted, tuning.maxFrames) && !HasReady(s)
    requires 0 < Forward(s.next.value, packet.rtp.seqno) <= tuning.maxFrames
    ensures
      |Buffered(s, Forward(s.next.value, packet.rtp.seqno), packet, now).pending| <= tuning.maxFrames
  {
    hide Wire, Forward, HandedAre, AllKept, Marked;
    var n := s.next.value;
    var b := Buffered(s, Forward(n, packet.rtp.seqno), packet, now);
    forall k | k in b.pending
      ensures 1 <= Forward(n, k) <= tuning.maxFrames
    {
      if k in s.pending {
        PendingAt(n, s.pending, accepted, tuning.maxFrames, k);
        WireForward(n, k);
      }
    }
    FewAhead(b.pending.Keys, n, tuning.maxFrames);
  }

  lemma TracksAhead(t: Trace, plan: seq<Moment>, m: Moment, packets: seq<Packet>, ssrc: u32, tuning: Tuning)
    requires Running(t, plan, packets, m.now, tuning) && !HasReady(t.state) && m.act.Came? && m.act.index < |packets|
    requires
      var forward := Forward(t.state.next.value, packets[m.act.index].rtp.seqno);
      && 0 < forward < HALF && forward <= tuning.maxFrames
      && m.act.index == IndexAt(t, First(plan).value, t.state.next.value + forward)
    ensures Tracks(Record(t, CallOf(m, packets), ssrc, tuning), plan + [m], packets)
  {
    hide Arrived, First, AcceptedAre, GapDates, Inv, Early, Hand, NoLoss, HasReady, Forward, InSequence, Marked;
    var s, n, first, packet := t.state, t.state.next.value, First(plan).value, packets[m.act.index];
    var forward := Forward(n, packet.rtp.seqno);
    RoomAhead(s, packet, t.start, t.log, t.accepted, m.now, tuning);
    QuietEarly(s, forward, packet, m.now, tuning);
    AcceptAhead(t.accepted, s, packet);
    var after := Record(t, CallOf(m, packets), ssrc, tuning);
    assert after.log == t.log + [] == t.log;
    GapDatesGrow(t, after, plan, m, first, forward, packet.userId);
    AcceptedMore(t, after, plan, m, packets, first, n + forward);
    TracksStep(t, after, plan, m, packets);
  }

  lemma TracksFreed(t: Trace, plan: seq<Moment>, m: Moment, packets: seq<Packet>, ssrc: u32, tuning: Tuning)
    requires Running(t, plan, packets, m.now, tuning) && m.act.Freed?
    ensures Tracks(Record(t, CallOf(m, packets), ssrc, tuning), plan + [m], packets)
  {
    hide Arrived, First, AcceptedAre, GapDates, Inv, Hand, TraceInSequence, Wire;
    var s, first := t.state, First(plan).value;
    var after := Record(t, CallOf(m, packets), ssrc, tuning);
    AcceptedSame(t, after, plan, m, packets, first);
    if s.assembler.completed == [] && Wire(s.next.value) in s.pending {
      var seqno := Wire(s.next.value);
      var rest := s.(gap := Rest(s.gap), pending := s.pending - {seqno});
      HandParts(rest, s.next.value, s.pending[seqno]);
      HandGap(rest, s.next.value, s.pending[seqno]);
      NoLossMore(t.log, [Handed(s.pending[seqno])]);
      GapDatesMove(t, after, plan, m, first, 1);
    } else {
      assert after.log == t.log + [] == t.log && s.gap[0..] == s.gap;
      GapDatesMove(t, after, plan, m, first, 0);
    }
    hide NoLoss;
    TracksStep(t, after, plan, m, packets);
  }

  lemma TracksWaited(t: Trace, plan: seq<Moment>, m: Moment, packets: seq<Packet>, ssrc: u32, tuning: Tuning)
    requires Running(t, plan, packets, m.now, tuning) && m.act.Waited?
    requires |t.state.gap| > 0 ==> !Expired(t.state.gap[0], m.now, tuning.ttl)
    ensures Tracks(Record(t, CallOf(m, packets), ssrc, tuning), plan + [m], packets)
  {
    hide Arrived, First, AcceptedAre, GapDates, Inv, TraceInSequence, Wire, NoLoss, FirstUser;
    var first, after := First(plan).value, Record(t, CallOf(m, packets), ssrc, tuning);
    assert after.log == t.log + [] == t.log && t.state.gap[0..] == t.state.gap;
    AcceptedSame(t, after, plan, m, packets, first);
    GapDatesMove(t, after, plan, m, first, 0);
    TracksStep(t, after, plan, m, packets);
  }

  lemma TracksIdle(t: Trace, plan: seq<Moment>, m: Moment, packets: seq<Packet>, ssrc: u32, tuning: Tuning)
    requires Tracks(t, plan, packets) && First(plan).None? && !m.act.Came?
    ensures Tracks(Record(t, CallOf(m, packets), ssrc, tuning), plan + [m], packets)
  {
    hide Arrived, First, Wire, FirstUser;
    ArrivedSnoc(plan, m);
    PopReadyFresh();
    assert t.log + [] == t.log;
  }

  /** The time-out is looked at in time. */
  ghost predicate Soon(plan: seq<Moment>, now: nat, tuning: Tuning)
    requires First(plan).Some?
  {
    forall u :: 0 <= u < |plan| && plan[u].act.Came? && plan[u].act.index > Turn(plan) ==> now < plan[u].now + tuning.ttl
  }

  lemma HeadWaits(t: Trace, plan: seq<Moment>, packets: seq<Packet>, now: nat, tuning: Tuning)
    requires Running(t, plan, packets, now, tuning) && !HasReady(t.state) && Soon(plan, now, tuning) && |t.state.gap| > 0
    ensures !Expired(t.state.gap[0], now, tuning.ttl)
  {
    hide Arrived, First, AcceptedAre, Inv, NoLoss, HasReady, Turn, TraceInSequence;
    NextIsTurn(t, plan, packets, tuning.maxFrames);
    assert Dated(plan, Turn(plan), t.state.gap[0].detectedAt) by {
      assert Dated(plan, IndexAt(t, First(plan).value, t.state.next.value + 0), t.state.gap[0].detectedAt);
    }
  }

  lemma TracksCame(t: Trace, plan: seq<Moment>, m: Moment, packets: seq<Packet>, ssrc: u32, tuning: Tuning)
    requires Running(t, plan, packets, m.now, tuning) && !HasReady(t.state) && Numbered(packets)
    requires m.act.Came? && m.act.index < |packets| && InWindow(Turn(plan), m.act.index, tuning)
    ensures Tracks(Record(t, CallOf(m, packets), ssrc, tuning), plan + [m], packets)
  {
    var first, i, turn := First(plan).value, m.act.index, Turn(plan);
    assert first <= i < turn ==> i in Arrived(plan);
    NextIsTurn(t, plan, packets, tuning.maxFrames);
    ForwardIndex(t, packets, first, i, turn);
    hide Arrived, First, AcceptedAre, GapDates, Inv, NoLoss, HasReady, Turn, TraceInSequence, Record, Forward, Numbered;
    if i == turn {
      TracksInTurn(t, plan, m, packets, ssrc, tuning);
    } else if turn < i {
      TracksAhead(t, plan, m, packets, ssrc, tuning);
    } else {
      TracksLate(t, plan, m, packets, ssrc, tuning);
    }
  }

  lemma TracksMoment(t: Trace, plan: seq<Moment>, m: Moment, packets: seq<Packet>, ssrc: u32, tuning: Tuning)
    requires Running(t, plan, packets, m.now, tuning) && Numbered(packets)
    requires !m.act.Freed? ==> !HasReady(t.state)
    requires m.act.Came? ==> m.act.index < |packets| && InWindow(Turn(plan), m.act.index, tuning)
    requires m.act.Waited? ==> Soon(plan, m.now, tuning)
    ensures Tracks(Record(t, CallOf(m, packets), ssrc, tuning), plan + [m], packets)
  {
    hide Running, Tracks, HasReady, Turn, Record, Soon, InWindow;
    match m.act
    case Came(_) => TracksCame(t, plan, m, packets, ssrc, tuning);
    case Freed => TracksFreed(t, plan, m, packets, ssrc, tuning);
    case Waited =>
      if |t.state.gap| > 0 {
        HeadWaits(t, plan, packets, m.now, tuning);
      }
      TracksWaited(t, plan, m, packets, ssrc, tuning);
  }

  lemma SoonEnough(plan: seq<Moment>, tuning: Tuning)
    requires |plan| > 0 && Patient(plan, tuning) && plan[|plan| - 1].act.Waited? && First(plan[..|plan| - 1]).Some?
    ensures Soon(plan[..|plan| - 1], plan[|plan| - 1].now, tuning)
  {
    hide First, Turn;
    var j := |plan| - 1;
    var front := plan[..j];
    forall u | 0 <= u < |front| && front[u].act.Came? && front[u].act.index > Turn(front)
      ensures plan[j].now < front[u].now + tuning.ttl
    {
      assert front[u] == plan[u] && PatientAt(plan, tuning, j, u);
    }
  }

  /** After every orderly plan the run has taken in exactly what came, without a loss. */
  lemma {:induction false} PlanTracks(plan: seq<Moment>, packets: seq<Packet>, ssrc: u32, tuning: Tuning)
    requires Orderly(plan, packets, tuning) && Drained(plan, packets, ssrc, tuning)
    ensures Tracks(Run(Calls(plan, packets), ssrc, tuning), plan, packets)
  {
    if |plan| == 0 {
      assert Calls(plan, packets) == [];
    } else {
      hide Run, Record, First, Turn, Tracks, Windowed, Patient, Drained, Numbered, Timed;
      FrontOrderly(plan, packets, ssrc, tuning);
      PlanTracks(plan[..|plan| - 1], packets, ssrc, tuning);
      PlanStep(plan, packets, ssrc, tuning);
      CallsSnoc(plan, packets);
      RunSnoc(Calls(plan, packets), ssrc, tuning);
    }
  }

  lemma PlanStep(plan: seq<Moment>, packets: seq<Packet>, ssrc: u32, tuning: Tuning)
    requires |plan| > 0 && Orderly(plan, packets, tuning) && Drained(plan, packets, ssrc, tuning)
    requires Within(plan[..|plan| - 1], |packets|)
    requires Tracks(Run(Calls(plan[..|plan| - 1], packets), ssrc, tuning), plan[..|plan| - 1], packets)
    ensures
      var front, m := plan[..|plan| - 1], plan[|plan| - 1];
      Tracks(Record(Run(Calls(front, packets), ssrc, tuning), CallOf(m, packets), ssrc, tuning), plan, packets)
  {
    hide Run, Record, HasReady, First, Turn, Tracks, InWindow, Soon, Running, Windowed, Patient, Drained;
    var n := |plan| - 1;
    var front, m := plan[..n], plan[n];
    assert plan == front + [m];
    var t := Run(Calls(front, packets), ssrc, tuning);
    if First(front).None? {
      if m.act.Came? {
        NoneFirst(front);
        TracksFirst(t, front, m, packets, ssrc, tuning);
      } else {
        TracksIdle(t, front, m, packets, ssrc, tuning);
      }
    } else {
      RunsOn(plan, packets, ssrc, tuning);
      LastOrderly(plan, packets, ssrc, tuning);
      TracksMoment(t, front, m, packets, ssrc, tuning);
    }
  }

  lemma LastOrderly(plan: seq<Moment>, packets: seq<Packet>, ssrc: u32, tuning: Tuning)
    requires |plan| > 0 && Orderly(plan, packets, tuning) && Drained(plan, packets, ssrc, tuning)
    requires Within(plan[..|plan| - 1], |packets|) && First(plan[..|plan| - 1]).Some?
    ensures
      var front, m := plan[..|plan| - 1], plan[|plan| - 1];
      && (!m.act.Freed? ==> !HasReady(Run(Calls(front, packets), ssrc, tuning).state))
      && (m.act.Came? ==> InWindow(Turn(front), m.act.index, tuning))
      && (m.act.Waited? ==> Soon(front, m.now, tuning))
  {
    hide Run, HasReady, First, Turn, InWindow, Soon, Patient;
    assert !plan[|plan| - 1].act.Freed? ==> !HasReady(StateAt(plan, packets, ssrc, tuning, |plan| - 1));
    if plan[|plan| - 1].act.Waited? {
      SoonEnough(plan, tuning);
    }
  }

  lemma RunsOn(plan: seq<Moment>, packets: seq<Packet>, ssrc: u32, tuning: Tuning)
    requires |plan| > 0 && Within(plan, |packets|) && Timed(plan) && First(plan[..|plan| - 1]).Some?
    requires Within(plan[..|plan| - 1], |packets|)
    requires Tracks(Run(Calls(plan[..|plan| - 1], packets), ssrc, tuning), plan[..|plan| - 1], packets)
    ensures Running(Run(Calls(plan[..|plan| - 1], packets), ssrc, tuning), plan[..|plan| - 1], packets,
                    plan[|plan| - 1].now, tuning)
  {
    hide Run, Inv, Tiles, End, TraceInSequence, First, AcceptedAre, GapDates;
    var front, now := plan[..|plan| - 1], plan[|plan| - 1].now;
    var calls := Calls(front, packets);
    CallsClocked(front, packets);
    RunAccounted(calls, ssrc, tuning);
    assert LastTime(calls) <= now;
    LaterKeeps(Run(calls, ssrc, tuning).state, LastTime(calls), now, tuning);
  }

  // ----- The packets handed over -----

  lemma LosslessSequence(plan: seq<Moment>, packets: seq<Packet>, ssrc: u32, tuning: Tuning)
    requires Within(plan, |packets|) && Timed(plan) && NoLoss(Run(Calls(plan, packets), ssrc, tuning).log)
    ensures TraceInSequence(Run(Calls(plan, packets), ssrc, tuning), tuning.maxFrames)
  {
    hide Run, Inv, Tiles, End, TraceInSequence;
    CallsClocked(plan, packets);
    RunAccounted(Calls(plan, packets), ssrc, tuning);
  }

  lemma SequenceOf(t: Trace, plan: seq<Moment>, packets: seq<Packet>, first: nat, turn: nat, maxFrames: nat)
    requires t.state.next.Some? && TraceInSequence(t, maxFrames) && AcceptedAre(t, plan, packets, first)
    requires t.start <= t.state.next.value && IndexAt(t, first, t.state.next.value) == turn <= |packets| && first <= turn
    ensures Packets(t.log) == packets[first..turn]
  {
    hide Wire, Forward, PendingAre, AllKept, HandedAre, Arrived, Packets;
    PacketsHanded(t.start, t.log, t.accepted);
    var handed := Packets(t.log);
    forall k | 0 <= k < |handed|
      ensures handed[k] == packets[first..turn][k]
    {
      var p := t.start + k;
      assert p in t.accepted && handed[p - t.start] == t.accepted[p] && IndexAt(t, first, p) == first + k;
    }
  }

  /**
   * Whatever order the packets of a stream come in within the window, and however often: no loss is reported and
   * exactly the packets from the first that came up to the first still missing are handed over, in sequence.
   */
  lemma HandsInSequence(plan: seq<Moment>, packets: seq<Packet>, ssrc: u32, tuning: Tuning)
    requires Orderly(plan, packets, tuning) && Drained(plan, packets, ssrc, tuning) && First(plan).Some?
    requires !HasReady(Run(Calls(plan, packets), ssrc, tuning).state)
    ensures
      var t := Run(Calls(plan, packets), ssrc, tuning);
      && NoLoss(t.log) && First(plan).value <= Turn(plan) <= |packets|
      && Packets(t.log) == packets[First(plan).value..Turn(plan)]
  {
    hide Run, HasReady, Arrived, First, AcceptedAre, GapDates, NoLoss, TraceInSequence, Packets, Windowed, Patient, Drained;
    var t := Run(Calls(plan, packets), ssrc, tuning);
    PlanTracks(plan, packets, ssrc, tuning);
    LosslessSequence(plan, packets, ssrc, tuning);
    NextIsTurn(t, plan, packets, tuning.maxFrames);
    SequenceOf(t, plan, packets, First(plan).value, Turn(plan), tuning.maxFrames);
  }

  /** Every packet of the stream has come. */
  ghost predicate Complete(plan: seq<Moment>, count: nat) {
    forall i :: 0 <= i < count ==> i in Arrived(plan)
  }

  lemma {:induction false} ArrivedWithin(plan: seq<Moment>, count: nat)
    requires Within(plan, count)
    ensures forall i :: i in Arrived(plan) ==> i < count
    ensures First(plan).Some? ==> First(plan).value < count
  {
    if |plan| > 0 {
      ArrivedWithin(plan[..|plan| - 1], count);
    }
  }

  /**
   * When every packet has come, those handed over are the stream from the first arrival on. All of it is handed
   * over if and only if the stream's first packet came first; otherwise what precedes the first arrival is
   * refused without a report.
   */
  lemma CompleteStream(plan: seq<Moment>, packets: seq<Packet>, ssrc: u32, tuning: Tuning)
    requires Orderly(plan, packets, tuning) && Drained(plan, packets, ssrc, tuning) && First(plan).Some?
    requires Complete(plan, |packets|) && !HasReady(Run(Calls(plan, packets), ssrc, tuning).state)
    ensures
      var t := Run(Calls(plan, packets), ssrc, tuning);
      && NoLoss(t.log) && First(plan).value < |packets| && Packets(t.log) == packets[First(plan).value..]
      && (Packets(t.log) == packets <==> First(plan) == Some(0))
  {
    hide Run, HasReady, Arrived, First, NoLoss, Packets, Windowed, Patient, Drained, Turn;
    HandsInSequence(plan, packets, ssrc, tuning);
    ArrivedWithin(plan, |packets|);
    TurnIs(plan, |packets|);
    var first := First(plan).value;
    assert packets[first..|packets|] == packets[first..];
    assert first == 0 ==> packets[first..] == packets;
  }

  /** The frames that came out are those of an assembler fed the same packets in sequence. */
  lemma FramesOut(plan: seq<Moment>, packets: seq<Packet>, ssrc: u32, tuning: Tuning)
    requires Orderly(plan, packets, tuning) && Drained(plan, packets, ssrc, tuning) && First(plan).Some?
    requires Complete(plan, |packets|) && !HasReady(Run(Calls(plan, packets), ssrc, tuning).state)
    ensures First(plan).value < |packets|
    ensures
      var calls := Calls(plan, packets);
      var fed := Feed(EMPTY, packets[First(plan).value..]);
      && Outputs(calls, ssrc, tuning) == fed.frames + fed.state.completed
      && Run(calls, ssrc, tuning).state.assembler == State(fed.state.partial, [])
  {
    hide Run, Arrived, First, NoLoss, Packets, Windowed, Patient, Drained, Outputs, Feed, Wire;
    var calls := Calls(plan, packets);
    CompleteStream(plan, packets, ssrc, tuning);
    CallsClocked(plan, packets);
    RunMirrors(calls, ssrc, tuning);
    var a := Run(calls, ssrc, tuning).state.assembler;
    assert a.completed == [];
    assert Outputs(calls, ssrc, tuning) + [] == Outputs(calls, ssrc, tuning);
  }

  // ----- Draining is always possible -----

  function Released(s: Ssrc, n: nat): Ssrc
    decreases n
  {
    if n == 0 then s else Released(PopReady(s).state, n - 1)
  }

  ghost function Load(s: Ssrc): nat {
    3 * |s.pending| + |s.assembler.completed|
  }

  lemma FewFresh(partial: Option<Partial>, packet: Packet)
    ensures |Fresh(partial, packet)| <= 2
  {
    hide RtpPayload.ParsePayload, RtpPayload.Bytes;
  }

  lemma ReleaseLightens(s: Ssrc)
    requires HasReady(s)
    ensures Load(PopReady(s).state) < Load(s)
  {
    hide Wire, Assembler.Push, Fresh;
    if s.assembler.completed == [] {
      var seqno := Wire(s.next.value);
      Removed(s.pending, seqno);
      PushYields(s.assembler, s.pending[seqno]);
      FewFresh(s.assembler.partial, s.pending[seqno]);
    }
  }

  /** How often something can be taken before nothing is ready. */
  function Releases(s: Ssrc): nat
    decreases Load(s)
  {
    if !HasReady(s) then 0
    else
      ReleaseLightens(s);
      1 + Releases(PopReady(s).state)
  }

  /** Taking what is ready that often leaves nothing ready. */
  lemma {:induction false} DrainEnds(s: Ssrc)
    ensures !HasReady(Released(s, Releases(s)))
    decreases Load(s)
  {
    hide PopReady, Load, HasReady;
    if HasReady(s) {
      ReleaseLightens(s);
      DrainEnds(PopReady(s).state);
    }
  }
}
