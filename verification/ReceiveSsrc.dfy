/** The receive state of one SSRC as the source updates it (cacophony/src/state.rs). */
module ReceiveSsrc {
  import opened Prelude
  import opened Assembler
  import opened Reorder
  import opened Interleave

  /** The map holds exactly the gap, each entry under its wrapped number. */
  ghost predicate Holds(missing: map<u16, Missing>, n: nat, gap: seq<Missing>) {
    && |gap| < HALF
    && (forall k: u16 :: k in missing <==> Forward(n, k) < |gap|)
    && (forall k: u16 :: k in missing ==> missing[k] == gap[Forward(n, k)])
  }

  ghost predicate Represents(nextSeq: Option<u16>, missing: map<u16, Missing>, model: Ssrc) {
    match model.next
    case None => nextSeq.None? && missing == map[] && model.gap == []
    case Some(n) => nextSeq == Some(Wire(n)) && Holds(missing, n, model.gap)
  }

  lemma HoldsHead(missing: map<u16, Missing>, n: nat, gap: seq<Missing>)
    requires Holds(missing, n, gap)
    ensures Wire(n) in missing <==> |gap| > 0
    ensures |gap| > 0 ==> missing[Wire(n)] == gap[0]
  {
    ForwardWire(n, 0);
    hide Wire, Forward;
  }

  lemma HoldsRest(missing: map<u16, Missing>, n: nat, gap: seq<Missing>)
    requires Holds(missing, n, gap)
    ensures Holds(missing - {Wire(n)}, n + 1, Rest(gap))
  {
    hide Wire, Forward;
    ForwardWire(n, 0);
    forall k: u16
      ensures Forward(n + 1, k) == (if Forward(n, k) == 0 then SPAN - 1 else Forward(n, k) - 1)
      ensures Forward(n, k) == 0 ==> k == Wire(n)
    {
      ForwardNext(n, k);
      WireForward(n, k);
    }
  }

  lemma HoldsEmpty(n: nat)
    ensures Holds(map[], n, [])
  {
  }

  /** One more number is recorded, unless it is already. */
  lemma HoldsMarked(missing: map<u16, Missing>, n: nat, gap: seq<Missing>, i: nat, userId: Option<u64>, now: nat)
    requires Holds(missing, n, Marked(gap, i, userId, now)) && i + 1 < HALF && |gap| < HALF
    ensures
      var k := Wire(n + i);
      Holds(if k in missing then missing else missing[k := Missing(userId, now)], n, Marked(gap, i + 1, userId, now))
  {
    hide Wire, Forward;
    ForwardWire(n, i);
    var before, after := Marked(gap, i, userId, now), Marked(gap, i + 1, userId, now);
    if |gap| <= i {
      assert after == before + [Missing(userId, now)];
      forall k: u16 | Forward(n, k) == i
        ensures k == Wire(n + i)
      {
        WireForward(n, k);
      }
    }
  }

  lemma WireNext(n: nat)
    ensures Wire(n + 1) == (Wire(n) + 1) % 0x1_0000
  {
  }

  lemma WireSmall(seqno: u16)
    ensures Wire(seqno) == seqno
  {
  }

  lemma WireBefore(n: nat)
    requires n > 0
    ensures Wire(n - 1) == (Wire(n) - 1) % 0x1_0000
  {
  }

  lemma WireAfter(n: nat, i: nat)
    ensures Wire(n + i) == (Wire(n) + i) % 0x1_0000
  {
  }

  lemma ForwardOnWire(n: nat, seqno: u16)
    ensures Forward(n, seqno) == (seqno - Wire(n)) % 0x1_0000
  {
  }

  /** The loop over the head of the gap has given up `k` entries. */
  ghost predicate Expiring(missing: map<u16, Missing>, n: nat, gap: seq<Missing>, k: nat, seqno: u16, lastSeq: u16,
                           count: u16, userId: Option<u64>) {
    && 0 < |gap| && k <= |gap| && Holds(missing, n + k, gap[k..])
    && seqno == Wire(n + k) && count == Saturating(k) && (k > 0 ==> lastSeq == Wire(n + k - 1))
    && userId == if k == 0 then gap[0].userId else FirstUser(gap[..k])
  }

  lemma ExpiryStart(missing: map<u16, Missing>, n: nat, gap: seq<Missing>)
    requires |gap| > 0 && Holds(missing, n, gap)
    ensures Expiring(missing, n, gap, 0, Wire(n), Wire(n), 0, gap[0].userId)
  {
    hide Holds, Wire, FirstUser;
    assert gap[0..] == gap;
  }

  lemma ExpiryStep(missing: map<u16, Missing>, n: nat, gap: seq<Missing>, k: nat, seqno: u16, lastSeq: u16,
                   count: u16, userId: Option<u64>)
    requires Expiring(missing, n, gap, k, seqno, lastSeq, count, userId) && seqno in missing
    ensures k < |gap| && missing[seqno] == gap[k]
    ensures Expiring(missing - {seqno}, n, gap, k + 1, (seqno + 1) % 0x1_0000, seqno,
                     if count == 0xFFFF then count else count + 1,
                     if userId.Some? then userId else missing[seqno].userId)
  {
    hide Holds, Wire, FirstUser;
    HoldsHead(missing, n + k, gap[k..]);
    HoldsRest(missing, n + k, gap[k..]);
    WireNext(n + k);
    assert gap[k..][1..] == gap[k + 1..];
    assert gap[..k + 1] == gap[..k] + [gap[k]];
    FirstUserSnoc(gap[..k], gap[k]);
    if k == 0 {
      FirstUserEmpty();
      assert gap[..k] == [];
    }
  }

  lemma FirstUserEmpty()
    ensures FirstUser([]) == None
  {
  }

  lemma ExpiryEnd(missing: map<u16, Missing>, n: nat, gap: seq<Missing>, k: nat, seqno: u16, lastSeq: u16,
                  count: u16, userId: Option<u64>)
    requires Expiring(missing, n, gap, k, seqno, lastSeq, count, userId)
    ensures seqno in missing <==> k < |gap|
    ensures k < |gap| ==> missing[seqno] == gap[k]
  {
    hide Wire, FirstUser;
    HoldsHead(missing, n + k, gap[k..]);
    hide Holds;
  }

  lemma TakenIs(gap: seq<Missing>, now: nat, ttl: nat, force: bool, k: nat)
    requires k <= |gap| && forall i :: 0 <= i < k ==> force || Expired(gap[i], now, ttl)
    requires k == |gap| || (!force && !Expired(gap[k], now, ttl))
    ensures k == Taken(gap, now, ttl, force)
  {
    if !force {
      PrefixIs(gap, now, ttl, k);
    }
  }

  lemma {:induction false} PrefixIs(gap: seq<Missing>, now: nat, ttl: nat, k: nat)
    requires k <= |gap| && forall i :: 0 <= i < k ==> Expired(gap[i], now, ttl)
    requires k == |gap| || !Expired(gap[k], now, ttl)
    ensures k == ExpiredPrefix(gap, now, ttl)
  {
    if k > 0 {
      PrefixIs(gap[1..], now, ttl, k - 1);
    }
  }

  lemma {:induction false} FirstUserSnoc(gap: seq<Missing>, missing: Missing)
    ensures FirstUser(gap + [missing]) == if FirstUser(gap).Some? then FirstUser(gap) else missing.userId
  {
    if |gap| > 0 {
      assert (gap + [missing])[1..] == gap[1..] + [missing];
      FirstUserSnoc(gap[1..], missing);
    }
  }

  ghost function Relieved(s: Ssrc, ssrc: u32, now: nat, tuning: Tuning): Step {
    if |s.pending| > tuning.maxFrames then Expire(s, ssrc, now, tuning.ttl, true) else Step(s, [], Ok(None))
  }

  lemma EarlySteps(s: Ssrc, forward: nat, packet: Packet, now: nat, tuning: Tuning)
    ensures
      var expiry := Relieved(Buffered(s, forward, packet, now), packet.rtp.ssrc, now, tuning);
      var step := PopReady(expiry.state);
      Early(s, forward, packet, now, tuning) == step.(events := expiry.events + step.events)
  {
    hide Buffered, Expire, PopReady;
  }

  class ReceiveSsrcState {
    const tuning: Tuning
    var nextSeq: Option<u16>
    var missing: map<u16, Missing>
    var pending: map<u16, Packet>
    const assembler: RtpFrameAssembler

    /** The value this object stands for, and everything that has left it. */
    ghost var model: Ssrc
    ghost var log: seq<Event>

    ghost predicate Valid()
      reads this, assembler
    {
      && Represents(nextSeq, missing, model)
      && pending == model.pending && assembler.Value() == model.assembler
    }

    constructor (tuning: Tuning)
      ensures Valid() && model == FRESH && log == [] && this.tuning == tuning && fresh(assembler)
    {
      this.tuning := tuning;
      nextSeq, missing, pending := None, map[], map[];
      assembler := new RtpFrameAssembler();
      model, log := FRESH, [];
    }

    method PushMediaPacket(packet: Packet, now: nat) returns (r: Assembler.Result)
      requires Valid()
      modifies this, assembler
      ensures Valid()
      ensures
        var step := PushMedia(old(model), packet, now, tuning);
        model == step.state && r == step.result && log == old(log) + step.events
    {
      hide Holds, Wire, Forward, Early, Assembler.Push;
      var seqno := packet.rtp.seqno;
      if nextSeq.None? {
        HoldsEmpty(seqno as int + 1);
        WireSmall(seqno);
        r := HandOver(packet, seqno, seqno);
        return;
      }
      ghost var n := model.next.value;
      ForwardOnWire(n, seqno);
      WireForward(n, seqno);
      var expected := nextSeq.value;
      if seqno == expected {
        HoldsRest(missing, n, model.gap);
        missing := missing - {seqno};
        pending := pending - {seqno};
        model := model.(gap := Rest(model.gap), pending := pending);
        r := HandOver(packet, seqno, n);
        return;
      }
      var forward := (seqno as int - expected) % 0x1_0000;
      if forward < 0x8000 {
        if forward > tuning.maxFrames {
          r := Skip(packet, forward, n);
        } else {
          r := Hold(packet, forward, now);
        }
        return;
      }
      assert log == log + [];
      return Ok(None);
    }

    /** The next number moves past the packet and the assembler gets it. */
    method HandOver(packet: Packet, seqno: u16, ghost position: nat) returns (r: Assembler.Result)
      requires seqno == Wire(position) && Holds(missing, position + 1, model.gap)
      requires pending == model.pending && assembler.Value() == model.assembler
      modifies this, assembler
      ensures Valid()
      ensures
        var step := Hand(old(model), position, packet);
        model == step.state && r == step.result && log == old(log) + step.events
    {
      hide Holds, Wire, Assembler.Push;
      WireNext(position);
      nextSeq := Some((seqno + 1) % 0x1_0000);
      r := assembler.PushPacket(packet);
      ghost var step := Hand(model, position, packet);
      model, log := step.state, log + step.events;
    }

    method Skip(packet: Packet, forward: nat, ghost n: nat) returns (r: Assembler.Result)
      requires Valid() && model.next == Some(n)
      requires 0 < forward < HALF && forward == Forward(n, packet.rtp.seqno)
      modifies this, assembler
      ensures Valid()
      ensures
        var step := Jump(n, forward, packet);
        model == step.state && r == step.result && log == old(log) + step.events
    {
      hide Holds, Wire, Forward, Hand;
      WireForward(n, packet.rtp.seqno);
      WireBefore(n + forward);
      var report := Report(packet.rtp.ssrc, packet.userId, nextSeq.value, (packet.rtp.seqno - 1) % 0x1_0000, forward, 0);
      ghost var before := log;
      log := log + [Lost(report)];
      missing, pending := map[], map[];
      assembler.Clear();
      model := FRESH;
      HoldsEmpty(n + forward + 1);
      r := HandOver(packet, packet.rtp.seqno, n + forward);
      ghost var events := Hand(FRESH, n + forward, packet).events;
      assert log == before + ([Lost(report)] + events);
    }

    method MarkMissing(expected: u16, forward: nat, userId: Option<u64>, detectedAt: nat, ghost n: nat)
      requires forward < HALF && expected == Wire(n) && Holds(missing, n, model.gap)
      modifies this`missing
      ensures Holds(missing, n, Marked(model.gap, forward, userId, detectedAt))
    {
      assert |model.gap| < HALF;
      hide Holds, Wire;
      var offset := 0;
      while offset < forward
        invariant 0 <= offset <= forward && Holds(missing, n, Marked(model.gap, offset, userId, detectedAt))
        decreases forward - offset
      {
        WireAfter(n, offset);
        HoldsMarked(missing, n, model.gap, offset, userId, detectedAt);
        var key := (expected + offset) % 0x1_0000;
        if key !in missing {
          missing := missing[key := Missing(userId, detectedAt)];
        }
        offset := offset + 1;
      }
    }

    /** A packet within the window, ahead of its turn. */
    method Hold(packet: Packet, forward: nat, now: nat) returns (r: Assembler.Result)
      requires Valid() && model.next.Some?
      requires 0 < forward < HALF && forward == Forward(model.next.value, packet.rtp.seqno)
      modifies this, assembler
      ensures Valid()
      ensures
        var step := Early(old(model), forward, packet, now, tuning);
        model == step.state && r == step.result && log == old(log) + step.events
    {
      hide Holds, Wire, Forward, Marked, Early;
      MarkMissing(nextSeq.value, forward, packet.userId, now, model.next.value);
      if packet.rtp.seqno !in pending {
        pending := pending[packet.rtp.seqno := packet];
      }
      model := Buffered(model, forward, packet, now);
      ghost var expiry := Relieved(model, packet.rtp.ssrc, now, tuning);
      EarlySteps(old(model), forward, packet, now, tuning);
      r := Release(packet.rtp.ssrc, now, expiry);
    }

    /** A buffer over its bound is relieved first; then what is ready is taken. */
    method Release(ssrc: u32, now: nat, ghost expiry: Step) returns (r: Assembler.Result)
      requires Valid() && expiry == Relieved(model, ssrc, now, tuning)
      modifies this, assembler
      ensures Valid()
      ensures
        var step := PopReady(expiry.state);
        model == step.state && r == step.result && log == old(log) + (expiry.events + step.events)
    {
      hide Represents, Expire, PopReady;
      assert log + [] == log;
      if |pending| > tuning.maxFrames {
        var expired := ExpireMissingHead(ssrc, now, true);
      }
      Associate(old(log), expiry.events, PopReady(expiry.state).events);
      r := PopReadyBufferedFrame();
    }

    method HasReadyBufferedMedia() returns (ready: bool)
      requires Valid()
      ensures ready == HasReady(model)
    {
      hide Holds, Wire;
      return assembler.completed != [] || (nextSeq.Some? && nextSeq.value in pending);
    }

    method PopReadyBufferedFrame() returns (r: Assembler.Result)
      requires Valid()
      modifies this, assembler
      ensures Valid()
      ensures
        var step := PopReady(old(model));
        model == step.state && r == step.result && log == old(log) + step.events
    {
      hide Holds, Wire, Assembler.Push;
      var frame := assembler.PopFirst();
      if frame.Some? {
        model := model.(assembler := assembler.Value());
        assert log == log + [];
        return Ok(frame);
      }
      if nextSeq.None? || nextSeq.value !in pending {
        assert log == log + [];
        return Ok(None);
      }
      var seqno := nextSeq.value;
      var packet := pending[seqno];
      pending := pending - {seqno};
      ghost var n := model.next.value;
      HoldsRest(missing, n, model.gap);
      missing := missing - {seqno};
      model := model.(gap := Rest(model.gap), pending := pending);
      r := HandOver(packet, seqno, n);
    }

    /** Gives up the expired head of the gap, or all of it when forced, with one report. */
    method ExpireMissingHead(ssrc: u32, now: nat, force: bool) returns (expired: bool)
      requires Valid()
      modifies this, assembler
      ensures Valid()
      ensures
        var step := Expire(old(model), ssrc, now, tuning.ttl, force);
        model == step.state && log == old(log) + step.events && (expired <==> step.events != [])
    {
      hide Holds, Wire, FirstUser, ExpiredPrefix;
      ghost var gap := model.gap;
      if nextSeq.None? {
        assert log == log + [];
        return false;
      }
      var seqno := nextSeq.value;
      ghost var n := model.next.value;
      HoldsHead(missing, n, gap);
      if seqno !in missing || (!force && now < missing[seqno].detectedAt + tuning.ttl) {
        assert log == log + [];
        return false;
      }
      var first := missing[seqno];
      var next, lastSeq, count, userId := DropExpired(seqno, first.userId, now, force, n);
      ghost var k := Taken(gap, now, tuning.ttl, force);
      hide Taken;
      assembler.Clear();
      nextSeq := Some(next);
      var report := Report(ssrc, userId, seqno, lastSeq, count, Since(now, first.detectedAt));
      model, log := Ssrc(Some(n + k), gap[k..], model.pending, EMPTY), log + [Lost(report)];
      return true;
    }

    /** Removes the entries from `first` on that are to be given up, which includes `first`. */
    method DropExpired(first: u16, firstUser: Option<u64>, now: nat, force: bool, ghost n: nat)
      returns (seqno: u16, lastSeq: u16, count: u16, userId: Option<u64>)
      requires Holds(missing, n, model.gap) && first == Wire(n) && first in missing
      requires firstUser == missing[first].userId && (force || Expired(missing[first], now, tuning.ttl))
      modifies this`missing
      ensures Taken(model.gap, now, tuning.ttl, force) > 0
      ensures Expiring(missing, n, model.gap, Taken(model.gap, now, tuning.ttl, force), seqno, lastSeq, count, userId)
    {
      hide Holds, Wire, FirstUser, Taken, Expiring;
      ghost var gap, k := model.gap, 0;
      HoldsHead(missing, n, gap);
      ExpiryStart(missing, n, gap);
      seqno, lastSeq, count, userId := first, first, 0, firstUser;
      while seqno in missing && (force || now >= missing[seqno].detectedAt + tuning.ttl)
        invariant k <= |gap| && Expiring(missing, n, gap, k, seqno, lastSeq, count, userId)
        invariant k > 0 || (seqno in missing && (force || now >= missing[seqno].detectedAt + tuning.ttl))
        invariant forall i :: 0 <= i < k ==> force || Expired(gap[i], now, tuning.ttl)
        decreases |gap| - k
      {
        ExpiryStep(missing, n, gap, k, seqno, lastSeq, count, userId);
        userId := if userId.Some? then userId else missing[seqno].userId;
        missing := missing - {seqno};
        lastSeq := seqno;
        count := if count == 0xFFFF then count else count + 1;
        seqno := (seqno as int + 1) % 0x1_0000;
        k := k + 1;
      }
      ExpiryEnd(missing, n, gap, k, seqno, lastSeq, count, userId);
      TakenIs(gap, now, tuning.ttl, force, k);
    }

    method PendingReorderDeadline() returns (r: Option<nat>)
      requires Valid()
      ensures r == HeadDeadline(model, tuning.ttl)
    {
      hide Holds, Wire;
      if nextSeq.None? {
        return None;
      }
      HoldsHead(missing, model.next.value, model.gap);
      if nextSeq.value !in missing {
        return None;
      }
      return Some(missing[nextSeq.value].detectedAt + tuning.ttl);
    }
  }
}
