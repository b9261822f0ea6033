/**
 * The RTP reorder buffer of one SSRC (cacophony/src/state.rs) as steps on values. The expected
 * sequence number is kept unwrapped, as a position; on the wire it is taken modulo 65536.
 */
module Reorder {
  import opened Prelude
  import opened Assembler

  const SPAN: nat := 0x1_0000
  const HALF: nat := 0x8000

  /** A sequence number that was skipped, and when. */
  datatype Missing = Missing(userId: Option<u64>, detectedAt: nat)

  datatype Report = Report(ssrc: u32, userId: Option<u64>, firstSeq: u16, lastSeq: u16, count: u16, age: nat)

  /** What leaves the buffer: a packet handed to the assembler, or a loss report. */
  datatype Event = Handed(packet: Packet) | Lost(report: Report)

  datatype Tuning = Tuning(ttl: nat, maxFrames: nat)

  /** `gap` are the numbers recorded as missing; they always run on from the next position. */
  datatype Ssrc = Ssrc(next: Option<nat>, gap: seq<Missing>, pending: map<u16, Packet>, assembler: State)

  const FRESH := Ssrc(None, [], map[], EMPTY)

  datatype Step = Step(state: Ssrc, events: seq<Event>, result: Assembler.Result)

  function Wire(position: nat): u16 {
    position % SPAN
  }

  /** How far a sequence number lies ahead of a position, wrapping. */
  function Forward(position: nat, seqno: u16): (f: nat)
    ensures f < SPAN
  {
    (seqno - position) % SPAN
  }

  function Rest(gap: seq<Missing>): seq<Missing> {
    if |gap| == 0 then [] else gap[1..]
  }

  /** The packet becomes the next one given to the assembler. */
  function Hand(s: Ssrc, position: nat, packet: Packet): Step {
    var (assembler, result) := Assembler.Push(s.assembler, packet);
    Step(Ssrc(Some(position + 1), s.gap, s.pending, assembler), [Handed(packet)], result)
  }

  /** Everything up to `forward` counts as missing, what is buffered already included. */
  function Marked(gap: seq<Missing>, forward: nat, userId: Option<u64>, now: nat): seq<Missing> {
    if forward <= |gap| then gap else gap + seq(forward - |gap|, _ => Missing(userId, now))
  }

  function PopReady(s: Ssrc): Step {
    if s.assembler.completed != [] then
      Step(s.(assembler := PopCompleted(s.assembler).0), [], Ok(PopCompleted(s.assembler).1))
    else if s.next.None? || Wire(s.next.value) !in s.pending then Step(s, [], Ok(None))
    else
      var seqno := Wire(s.next.value);
      Hand(s.(gap := Rest(s.gap), pending := s.pending - {seqno}), s.next.value, s.pending[seqno])
  }

  predicate Expired(missing: Missing, now: nat, ttl: nat) {
    now >= missing.detectedAt + ttl
  }

  /** How many leading entries have expired. */
  function ExpiredPrefix(gap: seq<Missing>, now: nat, ttl: nat): (k: nat)
    ensures k <= |gap|
    ensures forall i :: 0 <= i < k ==> Expired(gap[i], now, ttl)
    ensures k < |gap| ==> !Expired(gap[k], now, ttl)
  {
    if |gap| == 0 || !Expired(gap[0], now, ttl) then 0 else 1 + ExpiredPrefix(gap[1..], now, ttl)
  }

  /** The first known sender among skipped packets. */
  function FirstUser(gap: seq<Missing>): Option<u64> {
    if |gap| == 0 then None else if gap[0].userId.Some? then gap[0].userId else FirstUser(gap[1..])
  }

  function Taken(gap: seq<Missing>, now: nat, ttl: nat, force: bool): (k: nat)
    ensures k <= |gap|
  {
    if force then |gap| else ExpiredPrefix(gap, now, ttl)
  }

  function Since(now: nat, then_: nat): nat {
    if now < then_ then 0 else now - then_
  }

  function Saturating(count: nat): u16 {
    if count < SPAN then count else SPAN - 1
  }

  /** The expired head of the gap, or all of it, is given up with one report. */
  function Expire(s: Ssrc, ssrc: u32, now: nat, ttl: nat, force: bool): Step {
    var k := Taken(s.gap, now, ttl, force);
    if s.next.None? || k == 0 then Step(s, [], Ok(None))
    else
      var n := s.next.value;
      var age := Since(now, s.gap[0].detectedAt);
      var report := Report(ssrc, FirstUser(s.gap[..k]), Wire(n), Wire(n + k - 1), Saturating(k), age);
      Step(Ssrc(Some(n + k), s.gap[k..], s.pending, EMPTY), [Lost(report)], Ok(None))
  }

  /** A packet too far ahead: everything before it is given up. */
  function Jump(position: nat, forward: nat, packet: Packet): Step
    requires 0 < forward < HALF
  {
    var lost := Lost(Report(packet.rtp.ssrc, packet.userId, Wire(position), Wire(position + forward - 1), forward, 0));
    var step := Hand(FRESH, position + forward, packet);
    step.(events := [lost] + step.events)
  }

  /** A packet ahead of the next position, within the window, before anything is released. */
  function Buffered(s: Ssrc, forward: nat, packet: Packet, now: nat): Ssrc {
    var seqno := packet.rtp.seqno;
    s.(gap := Marked(s.gap, forward, packet.userId, now),
       pending := if seqno in s.pending then s.pending else s.pending[seqno := packet])
  }

  function Early(s: Ssrc, forward: nat, packet: Packet, now: nat, tuning: Tuning): Step {
    var s := Buffered(s, forward, packet, now);
    var expiry := if |s.pending| > tuning.maxFrames then Expire(s, packet.rtp.ssrc, now, tuning.ttl, true)
                  else Step(s, [], Ok(None));
    var step := PopReady(expiry.state);
    step.(events := expiry.events + step.events)
  }

  function PushMedia(s: Ssrc, packet: Packet, now: nat, tuning: Tuning): Step {
    var seqno := packet.rtp.seqno;
    if s.next.None? then Hand(s, seqno, packet)
    else
      var n := s.next.value;
      var forward := Forward(n, seqno);
      if forward == 0 then Hand(s.(gap := Rest(s.gap), pending := s.pending - {seqno}), n, packet)
      else if forward >= HALF then Step(s, [], Ok(None))
      else if forward > tuning.maxFrames then Jump(n, forward, packet)
      else Early(s, forward, packet, now, tuning)
  }

  // ----- What every step keeps -----

  ghost predicate Monotone(gap: seq<Missing>) {
    forall i, j :: 0 <= i < j < |gap| ==> gap[i].detectedAt <= gap[j].detectedAt
  }

  ghost predicate SeenBy(gap: seq<Missing>, now: nat) {
    forall i :: 0 <= i < |gap| ==> gap[i].detectedAt <= now
  }

  ghost predicate Filed(pending: map<u16, Packet>) {
    forall k :: k in pending ==> pending[k].rtp.seqno == k
  }

  /** Missing times never decrease, and just past a gap a packet waits. */
  ghost predicate Sound(s: Ssrc, now: nat, tuning: Tuning) {
    && |s.gap| <= tuning.maxFrames && |s.gap| < HALF
    && Monotone(s.gap) && SeenBy(s.gap, now)
    && Filed(s.pending)
    && (s.next.None? ==> s == FRESH)
    && (|s.gap| > 0 ==> Wire(s.next.value + |s.gap|) in s.pending)
  }

  /** The reorder buffer bound holds between calls. */
  ghost predicate Bounded(s: Ssrc, tuning: Tuning) {
    |s.pending| <= tuning.maxFrames
  }

  ghost predicate Inv(s: Ssrc, now: nat, tuning: Tuning) {
    Sound(s, now, tuning) && Bounded(s, tuning)
  }

  lemma WireForward(n: nat, seqno: u16)
    ensures Wire(n + Forward(n, seqno)) == seqno
  {
  }

  lemma ForwardWire(n: nat, i: nat)
    requires i < SPAN
    ensures Forward(n, Wire(n + i)) == i
  {
  }

  lemma ForwardNext(n: nat, seqno: u16)
    ensures Forward(n + 1, seqno) == if Forward(n, seqno) == 0 then SPAN - 1 else Forward(n, seqno) - 1
  {
  }

  lemma WireDiffers(n: nat, i: nat)
    requires 0 < i < SPAN
    ensures Wire(n + i) != Wire(n)
  {
  }

  /** Taking the next number out of the gap and the buffer keeps what lies beyond. */
  lemma AdvanceSound(s: Ssrc, now: nat, tuning: Tuning, packet: Packet)
    requires Sound(s, now, tuning) && s.next.Some?
    ensures
      var n := s.next.value;
      Sound(Hand(s.(gap := Rest(s.gap), pending := s.pending - {Wire(n)}), n, packet).state, now, tuning)
  {
    hide Assembler.Push;
    var n := s.next.value;
    if |s.gap| > 1 {
      WireDiffers(n, |s.gap|);
      assert n + 1 + |Rest(s.gap)| == n + |s.gap|;
    }
  }

  lemma PopReadySound(s: Ssrc, now: nat, tuning: Tuning)
    requires Sound(s, now, tuning)
    ensures Sound(PopReady(s).state, now, tuning)
  {
    hide Hand, Assembler.Push, Monotone, SeenBy, Filed;
    if s.assembler.completed == [] && s.next.Some? && Wire(s.next.value) in s.pending {
      AdvanceSound(s, now, tuning, s.pending[Wire(s.next.value)]);
    }
  }

  lemma ExpireSound(s: Ssrc, ssrc: u32, now: nat, tuning: Tuning, force: bool)
    requires Sound(s, now, tuning)
    ensures Sound(Expire(s, ssrc, now, tuning.ttl, force).state, now, tuning)
  {
    hide Wire, FirstUser, ExpiredPrefix;
    var k := Taken(s.gap, now, tuning.ttl, force);
    if s.next.Some? {
      assert s.next.value + k + |s.gap[k..]| == s.next.value + |s.gap|;
    }
  }

  lemma MarkedSound(gap: seq<Missing>, forward: nat, userId: Option<u64>, now: nat)
    requires Monotone(gap) && SeenBy(gap, now)
    ensures Monotone(Marked(gap, forward, userId, now)) && SeenBy(Marked(gap, forward, userId, now), now)
    ensures |Marked(gap, forward, userId, now)| == if |gap| < forward then forward else |gap|
  {
  }

  lemma BufferedSound(s: Ssrc, forward: nat, packet: Packet, now: nat, tuning: Tuning)
    requires Sound(s, now, tuning) && s.next.Some?
    requires forward == Forward(s.next.value, packet.rtp.seqno) && 0 < forward < HALF && forward <= tuning.maxFrames
    ensures Sound(Buffered(s, forward, packet, now), now, tuning)
    ensures |Buffered(s, forward, packet, now).gap| > 0
    ensures |Buffered(s, forward, packet, now).pending| <= |s.pending| + 1
  {
    hide Monotone, SeenBy, Marked;
    MarkedSound(s.gap, forward, packet.userId, now);
    WireForward(s.next.value, packet.rtp.seqno);
    hide Wire, Forward;
  }

  /** After a forced expiry the buffer holds the next packet and nothing is left to deliver first. */
  lemma ForcedReady(s: Ssrc, ssrc: u32, now: nat, tuning: Tuning)
    requires Sound(s, now, tuning) && |s.gap| > 0
    ensures
      var t := Expire(s, ssrc, now, tuning.ttl, true).state;
      && t.pending == s.pending && t.next.Some? && t.assembler == EMPTY
      && Wire(t.next.value) in t.pending
  {
    hide Wire, FirstUser, Monotone, SeenBy, Filed;
  }

  lemma PopReadyShrinks(s: Ssrc)
    ensures |PopReady(s).state.pending| <= |s.pending|
    ensures s.assembler.completed == [] && s.next.Some? && Wire(s.next.value) in s.pending ==>
              |PopReady(s).state.pending| == |s.pending| - 1
  {
    hide Wire, Assembler.Push;
    if s.assembler.completed == [] && s.next.Some? && Wire(s.next.value) in s.pending {
      Removed(s.pending, Wire(s.next.value));
    }
  }

  lemma Removed<K, V>(m: map<K, V>, k: K)
    requires k in m
    ensures |m - {k}| == |m| - 1
  {
    assert (m - {k}).Keys == m.Keys - {k};
  }

  lemma RemovedAny<K, V>(m: map<K, V>, k: K)
    ensures |m - {k}| <= |m|
  {
    if k in m {
      Removed(m, k);
    } else {
      assert m - {k} == m;
    }
  }

  /** A full buffer is relieved by the forced expiry: the bound holds again. */
  lemma EarlyKeeps(s: Ssrc, forward: nat, packet: Packet, now: nat, tuning: Tuning)
    requires Inv(s, now, tuning) && s.next.Some?
    requires forward == Forward(s.next.value, packet.rtp.seqno) && 0 < forward < HALF && forward <= tuning.maxFrames
    ensures Inv(Early(s, forward, packet, now, tuning).state, now, tuning)
  {
    hide Sound, Wire, Forward, PopReady, Expire;
    BufferedSound(s, forward, packet, now, tuning);
    var b := Buffered(s, forward, packet, now);
    hide Buffered;
    if |b.pending| > tuning.maxFrames {
      var t := Expire(b, packet.rtp.ssrc, now, tuning.ttl, true).state;
      ExpireSound(b, packet.rtp.ssrc, now, tuning, true);
      ForcedReady(b, packet.rtp.ssrc, now, tuning);
      PopReadySound(t, now, tuning);
      PopReadyShrinks(t);
    } else {
      PopReadySound(b, now, tuning);
      PopReadyShrinks(b);
    }
  }

  lemma HandFresh(position: nat, packet: Packet, now: nat, tuning: Tuning)
    ensures Inv(Hand(FRESH, position, packet).state, now, tuning)
  {
    hide Assembler.Push;
  }

  /** The packet whose turn it is, arriving or buffered. */
  lemma AdvanceKeeps(s: Ssrc, now: nat, tuning: Tuning, packet: Packet)
    requires Inv(s, now, tuning) && s.next.Some?
    ensures
      var n := s.next.value;
      Inv(Hand(s.(gap := Rest(s.gap), pending := s.pending - {Wire(n)}), n, packet).state, now, tuning)
  {
    AdvanceSound(s, now, tuning, packet);
    hide Sound, Wire, Assembler.Push;
    RemovedAny(s.pending, Wire(s.next.value));
  }

  /** Every push keeps the contiguous gap, its non-decreasing times and the buffer bound. */
  lemma PushKeeps(s: Ssrc, packet: Packet, now: nat, tuning: Tuning)
    requires Inv(s, now, tuning)
    ensures Inv(PushMedia(s, packet, now, tuning).state, now, tuning)
  {
    var seqno := packet.rtp.seqno;
    if s.next.None? {
      hide Hand, Early, Monotone, SeenBy, Filed, Wire;
      HandFresh(seqno, packet, now, tuning);
    } else {
      hide Inv, Hand, Early, Wire;
      var n := s.next.value;
      WireForward(n, seqno);
      var forward := Forward(n, seqno);
      if forward == 0 {
        AdvanceKeeps(s, now, tuning, packet);
      } else if forward >= HALF {
      } else if forward > tuning.maxFrames {
        HandFresh(n + forward, packet, now, tuning);
      } else {
        EarlyKeeps(s, forward, packet, now, tuning);
      }
    }
  }

  lemma PopReadyKeeps(s: Ssrc, now: nat, tuning: Tuning)
    requires Inv(s, now, tuning)
    ensures Inv(PopReady(s).state, now, tuning)
  {
    hide Sound, PopReady, Wire;
    PopReadySound(s, now, tuning);
    PopReadyShrinks(s);
  }

  lemma ExpireKeeps(s: Ssrc, ssrc: u32, now: nat, tuning: Tuning, force: bool)
    requires Inv(s, now, tuning)
    ensures Inv(Expire(s, ssrc, now, tuning.ttl, force).state, now, tuning)
  {
    ExpireSound(s, ssrc, now, tuning, force);
    hide Sound, Wire, FirstUser, Taken;
  }

  /** The deadline of the whole gap is that of its head. */
  function HeadDeadline(s: Ssrc, ttl: nat): Option<nat> {
    if s.next.None? || |s.gap| == 0 then None else Some(s.gap[0].detectedAt + ttl)
  }

  predicate HasReady(s: Ssrc) {
    s.assembler.completed != [] || (s.next.Some? && Wire(s.next.value) in s.pending)
  }

  lemma HeadDeadlineIsEarliest(s: Ssrc, now: nat, tuning: Tuning, i: nat)
    requires Sound(s, now, tuning) && i < |s.gap|
    ensures HeadDeadline(s, tuning.ttl).Some? && HeadDeadline(s, tuning.ttl).value <= s.gap[i].detectedAt + tuning.ttl
  {
    hide Wire, Filed, SeenBy;
  }

  /** A timed expiry gives up exactly the entries whose time has run out. */
  lemma ExpiresExactly(s: Ssrc, now: nat, tuning: Tuning, i: nat)
    requires Sound(s, now, tuning) && i < |s.gap|
    ensures i < Taken(s.gap, now, tuning.ttl, false) <==> Expired(s.gap[i], now, tuning.ttl)
  {
    hide Wire, Filed, SeenBy;
    var k := ExpiredPrefix(s.gap, now, tuning.ttl);
    if k <= i {
      assert s.gap[k].detectedAt <= s.gap[i].detectedAt;
    }
  }
}
