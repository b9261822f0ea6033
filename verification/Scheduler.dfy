/** Receiving from many SSRCs: ready queue, deadline index and draining (cacophony/src/state.rs). */
module Scheduler {
  import opened Prelude
  import opened Assembler
  import opened Reorder
  import opened ReorderRun
  import opened Queue

  // ----- The work left in all buffers -----

  ghost function Weight(s: Ssrc): nat {
    |s.pending| + |s.gap|
  }

  ghost function Total(m: map<u32, Ssrc>): nat
    decreases |m|
  {
    if m == map[] then 0
    else
      var k :| k in m;
      Removed(m, k);
      Weight(m[k]) + Total(m - {k})
  }

  lemma {:induction false} TotalWithout(m: map<u32, Ssrc>, k: u32)
    requires k in m
    ensures Total(m) == Weight(m[k]) + Total(m - {k})
    decreases |m|
  {
    hide Weight;
    var c :| c in m && Total(m) == Weight(m[c]) + Total(m - {c});
    if c != k {
      Removed(m, c);
      TotalWithout(m - {c}, k);
      Removed(m, k);
      TotalWithout(m - {k}, c);
      assert m - {c} - {k} == m - {k} - {c};
    }
  }

  lemma TotalUpdate(m: map<u32, Ssrc>, k: u32, s: Ssrc)
    requires k in m && Weight(s) < Weight(m[k])
    ensures Total(m[k := s]) < Total(m)
  {
    hide Weight, Total;
    TotalWithout(m, k);
    TotalWithout(m[k := s], k);
    assert m[k := s] - {k} == m - {k};
  }

  lemma PopReadyWeighs(s: Ssrc)
    requires HasReady(s) && PopReady(s).result == Ok(None)
    ensures Weight(PopReady(s).state) < Weight(s)
  {
    hide Wire, Assembler.Push;
    PopReadyShrinks(s);
  }

  lemma ExpireWeighs(s: Ssrc, ssrc: u32, now: nat, ttl: nat)
    requires HeadDeadline(s, ttl).Some? && HeadDeadline(s, ttl).value <= now
    ensures Weight(Expire(s, ssrc, now, ttl, false).state) < Weight(s)
  {
    hide Wire, FirstUser;
  }

  // ----- Every SSRC's state is that of a run -----

  ghost predicate Ran(s: Ssrc, calls: seq<Call>, ssrc: u32, clock: nat, tuning: Tuning) {
    s == Run(calls, ssrc, tuning).state && Clocked(calls) && LastTime(calls) <= clock
  }

  lemma RanStep(s: Ssrc, calls: seq<Call>, ssrc: u32, call: Call, tuning: Tuning)
    requires Ran(s, calls, ssrc, call.now, tuning)
    ensures Ran(Do(s, call, ssrc, tuning).state, calls + [call], ssrc, call.now, tuning)
  {
    hide Do, Accept;
    var all := calls + [call];
    assert all[..|all| - 1] == calls;
    ClockedSnoc(calls, call);
  }

  lemma ClockedSnoc(calls: seq<Call>, call: Call)
    requires Clocked(calls) && LastTime(calls) <= call.now
    ensures Clocked(calls + [call])
  {
    var all := calls + [call];
    forall i, j | 0 <= i < j < |all|
      ensures all[i].now <= all[j].now
    {
      if j == |calls| && i < |calls| - 1 {
        assert calls[i].now <= calls[|calls| - 1].now;
      }
    }
  }

  lemma RanLater(s: Ssrc, calls: seq<Call>, ssrc: u32, clock: nat, later: nat, tuning: Tuning)
    requires Ran(s, calls, ssrc, clock, tuning) && clock <= later
    ensures Ran(s, calls, ssrc, later, tuning)
  {
    hide Run, Clocked;
  }

  lemma RanFresh(ssrc: u32, clock: nat, tuning: Tuning)
    ensures Ran(FRESH, [], ssrc, clock, tuning)
  {
  }

  // ----- The schedules -----

  ghost predicate Distinct(ready: seq<u32>) {
    forall i, j :: 0 <= i < j < |ready| ==> ready[i] != ready[j]
  }

  predicate Due(s: Ssrc, now: nat, ttl: nat) {
    HeadDeadline(s, ttl).Some? && HeadDeadline(s, ttl).value <= now
  }

  ghost predicate Listed(ready: seq<u32>, queued: set<u32>) {
    Distinct(ready) && (forall k :: k in queued <==> k in ready)
  }

  /** Every SSRC with something ready is queued. */
  ghost predicate QueuesReady(ssrc: map<u32, Ssrc>, queued: set<u32>, except: set<u32>) {
    forall k :: k in ssrc && k !in except && HasReady(ssrc[k]) ==> k in queued
  }

  /** The index holds exactly the head deadlines. */
  ghost predicate IndexesHeads(ssrc: map<u32, Ssrc>, keys: map<u32, nat>, ttl: nat, except: set<u32>) {
    && (forall k :: k in keys && k !in except ==> k in ssrc && HeadDeadline(ssrc[k], ttl) == Some(keys[k]))
    && (forall k :: k in ssrc && k !in except && HeadDeadline(ssrc[k], ttl).Some? ==> k in keys)
  }

  lemma PopFront(ready: seq<u32>, queued: set<u32>)
    requires Listed(ready, queued) && ready != []
    ensures Listed(ready[1..], queued - {ready[0]}) && ready[0] in queued
  {
    var k, rest := ready[0], ready[1..];
    forall x | x in ready
      ensures x == k || x in rest
    {
    }
    assert k !in rest;
  }

  lemma ListedIs(ready: seq<u32>, queued: set<u32>, k: u32)
    requires Listed(ready, queued)
    ensures k in queued <==> k in ready
  {
  }

  function Without(ready: seq<u32>, removed: set<u32>): (kept: seq<u32>)
    ensures forall k :: k in kept <==> k in ready && k !in removed
  {
    if ready == [] then [] else
    (if ready[0] in removed then [] else [ready[0]]) + Without(ready[1..], removed)
  }

  lemma {:induction false} WithoutDistinct(ready: seq<u32>, removed: set<u32>)
    requires Distinct(ready)
    ensures Distinct(Without(ready, removed))
  {
    if ready != [] {
      WithoutDistinct(ready[1..], removed);
      var rest := Without(ready[1..], removed);
      assert ready[0] !in ready[1..];
      forall i | 0 <= i < |rest|
        ensures rest[i] != ready[0]
      {
        assert rest[i] in rest;
      }
    }
  }

  lemma PrunedList(ready: seq<u32>, queued: set<u32>, removed: set<u32>)
    requires Listed(ready, queued)
    ensures Listed(Without(ready, removed), queued - removed)
  {
    WithoutDistinct(ready, removed);
  }

  lemma {:induction false} NothingRemoved(ready: seq<u32>)
    ensures Without(ready, {}) == ready
  {
    if ready != [] {
      NothingRemoved(ready[1..]);
    }
  }

  lemma Append(ready: seq<u32>, queued: set<u32>, k: u32)
    requires Listed(ready, queued) && k !in queued
    ensures Listed(ready + [k], queued + {k})
  {
  }

  lemma QueueUp(ssrc: map<u32, Ssrc>, queued: set<u32>, k: u32)
    requires QueuesReady(ssrc, queued, {k})
    ensures QueuesReady(ssrc, queued + {k}, {})
    ensures k in ssrc && !HasReady(ssrc[k]) ==> QueuesReady(ssrc, queued, {})
  {
    hide HasReady;
  }

  lemma IndexHead(ssrc: map<u32, Ssrc>, keys: map<u32, nat>, ttl: nat, k: u32)
    requires IndexesHeads(ssrc, keys, ttl, {k}) && k in ssrc
    ensures
      var head := HeadDeadline(ssrc[k], ttl);
      IndexesHeads(ssrc, if head.Some? then keys[k := head.value] else keys - {k}, ttl, {})
  {
    hide HeadDeadline;
  }

  /** Changing one SSRC leaves the schedules right for all others. */
  lemma Changed(ssrc: map<u32, Ssrc>, queued: set<u32>, keys: map<u32, nat>, ttl: nat, k: u32, s: Ssrc)
    requires QueuesReady(ssrc, queued, {}) || QueuesReady(ssrc, queued, {k})
    requires IndexesHeads(ssrc, keys, ttl, {}) || IndexesHeads(ssrc, keys, ttl, {k})
    ensures QueuesReady(ssrc[k := s], queued, {k}) && IndexesHeads(ssrc[k := s], keys, ttl, {k})
  {
    hide HasReady, HeadDeadline;
  }

  lemma Pruned(ssrc: map<u32, Ssrc>, queued: set<u32>, keys: map<u32, nat>, ttl: nat, removed: set<u32>)
    requires QueuesReady(ssrc, queued, {}) && IndexesHeads(ssrc, keys, ttl, {})
    ensures QueuesReady(ssrc - removed, queued - removed, {}) && IndexesHeads(ssrc - removed, keys - removed, ttl, {})
  {
    hide HasReady, HeadDeadline;
  }

  /** Draining only releases and times out. */
  ghost predicate Drained(before: seq<Call>, after: seq<Call>, now: nat) {
    && before <= after
    && forall i :: |before| <= i < |after| ==> !after[i].op.Arrive? && after[i].now == now
  }

  ghost predicate AllDrained(before: map<u32, seq<Call>>, after: map<u32, seq<Call>>, now: nat) {
    before.Keys == after.Keys && forall k :: k in after ==> Drained(before[k], after[k], now)
  }

  lemma AllDrainedStart(calls: map<u32, seq<Call>>, now: nat)
    ensures AllDrained(calls, calls, now)
  {
  }

  lemma AllDrainedStep(before: map<u32, seq<Call>>, after: map<u32, seq<Call>>, k: u32, call: Call)
    requires AllDrained(before, after, call.now) && k in after && !call.op.Arrive?
    ensures AllDrained(before, after[k := after[k] + [call]], call.now)
  {
    assert before[k] <= after[k] <= after[k] + [call];
  }

  /** The result is what the last call, a release, gave. */
  ghost predicate ReleasedLast(calls: seq<Call>, ssrc: u32, tuning: Tuning, result: Assembler.Result) {
    && |calls| > 0 && calls[|calls| - 1].op == Release
    && PopReady(Run(calls[..|calls| - 1], ssrc, tuning).state).result == result
  }

  lemma ReleasedNow(s: Ssrc, calls: seq<Call>, ssrc: u32, now: nat, tuning: Tuning)
    requires Ran(s, calls, ssrc, now, tuning)
    ensures ReleasedLast(calls + [Call(Release, now)], ssrc, tuning, PopReady(s).result)
  {
    hide Run, PopReady, Clocked;
    var all := calls + [Call(Release, now)];
    assert all[..|all| - 1] == calls;
  }

  // ----- What draining does, turn by turn -----

  /** One call on one of the SSRCs. */
  datatype Turn = Turn(ssrc: u32, call: Call)

  ghost function Played(m: map<u32, Ssrc>, turns: seq<Turn>, tuning: Tuning): map<u32, Ssrc> {
    if turns == [] then m
    else
      var before, turn := Played(m, turns[..|turns| - 1], tuning), turns[|turns| - 1];
      if turn.ssrc in before then before[turn.ssrc := Do(before[turn.ssrc], turn.call, turn.ssrc, tuning).state] else before
  }

  predicate NothingReady(m: map<u32, Ssrc>) {
    forall k :: k in m ==> !HasReady(m[k])
  }

  predicate NothingDue(m: map<u32, Ssrc>, now: nat, ttl: nat) {
    forall k :: k in m ==> !Due(m[k], now, ttl)
  }

  /** Among the states, this SSRC's head was the first to expire. */
  predicate FirstDue(m: map<u32, Ssrc>, k: u32, now: nat, ttl: nat) {
    && k in m && Due(m[k], now, ttl)
    && forall j :: j in m && HeadDeadline(m[j], ttl).Some? ==> HeadDeadline(m[k], ttl).value <= HeadDeadline(m[j], ttl).value
  }

  /** A turn in order: something ready is taken; or, when nothing is ready anywhere, the head that expired first is timed out. */
  ghost predicate InOrder(m: map<u32, Ssrc>, turn: Turn, now: nat, tuning: Tuning) {
    && turn.call.now == now
    && match turn.call.op
       case Release => turn.ssrc in m && HasReady(m[turn.ssrc])
       case TimeOut => NothingReady(m) && FirstDue(m, turn.ssrc, now, tuning.ttl)
       case Arrive(_) => false
  }

  ghost predicate AllInOrder(m: map<u32, Ssrc>, turns: seq<Turn>, now: nat, tuning: Tuning) {
    forall i :: 0 <= i < |turns| ==> InOrder(Played(m, turns[..i], tuning), turns[i], now, tuning)
  }

  /** What the turn gives its caller; nothing for a time-out. */
  ghost function Gives(m: map<u32, Ssrc>, turn: Turn): Assembler.Result {
    if turn.call.op == Release && turn.ssrc in m then PopReady(m[turn.ssrc]).result else Ok(None)
  }

  /** None of the turns gave anything. */
  ghost predicate AllSilent(m: map<u32, Ssrc>, turns: seq<Turn>, tuning: Tuning) {
    forall i :: 0 <= i < |turns| ==> Gives(Played(m, turns[..i], tuning), turns[i]) == Ok(None)
  }

  lemma NoTurns(m: map<u32, Ssrc>, now: nat, tuning: Tuning)
    ensures Played(m, [], tuning) == m && AllInOrder(m, [], now, tuning) && AllSilent(m, [], tuning)
  {
  }

  lemma PlayedSnoc(m: map<u32, Ssrc>, turns: seq<Turn>, turn: Turn, now: nat, tuning: Tuning)
    requires AllInOrder(m, turns, now, tuning) && AllSilent(m, turns, tuning)
    requires var before := Played(m, turns, tuning); turn.ssrc in before && InOrder(before, turn, now, tuning)
    ensures
      var before := Played(m, turns, tuning);
      Played(m, turns + [turn], tuning) == before[turn.ssrc := Do(before[turn.ssrc], turn.call, turn.ssrc, tuning).state]
    ensures AllInOrder(m, turns + [turn], now, tuning)
    ensures Gives(Played(m, turns, tuning), turn) == Ok(None) ==> AllSilent(m, turns + [turn], tuning)
  {
    hide Do, InOrder, Gives, Played;
    PlayedLast(m, turns, turn, tuning);
    var all := turns + [turn];
    assert all[..|turns|] == turns && all[|turns|] == turn;
    assert forall i :: 0 <= i < |turns| ==> all[..i] == turns[..i] && all[i] == turns[i];
  }

  lemma PlayedLast(m: map<u32, Ssrc>, turns: seq<Turn>, turn: Turn, tuning: Tuning)
    ensures
      var before := Played(m, turns, tuning);
      Played(m, turns + [turn], tuning)
      == if turn.ssrc in before then before[turn.ssrc := Do(before[turn.ssrc], turn.call, turn.ssrc, tuning).state] else before
  {
    hide Do;
    assert (turns + [turn])[..|turns|] == turns;
  }

  class ReceiveState {
    const tuning: Tuning
    var ssrc: map<u32, Ssrc>
    var ready: seq<u32>
    var queued: set<u32>
    const deadlines: DeadlineSet<u32>

    /** What was done to each SSRC so far, and the time of the latest call. */
    ghost var calls: map<u32, seq<Call>>
    ghost var clock: nat

    ghost predicate Agrees(except: set<u32>)
      reads this`ssrc, this`ready, this`queued, deadlines
    {
      && deadlines.Valid() && Listed(ready, queued)
      && QueuesReady(ssrc, queued, except) && IndexesHeads(ssrc, deadlines.keys, tuning.ttl, except)
    }

    ghost predicate Recorded()
      reads this`ssrc, this`calls, this`clock
    {
      calls.Keys == ssrc.Keys && forall k :: k in ssrc ==> Ran(ssrc[k], calls[k], k, clock, tuning)
    }

    ghost predicate Valid()
      reads this, deadlines
    {
      Agrees({}) && Recorded()
    }

    constructor (tuning: Tuning)
      ensures Valid() && ssrc == map[] && ready == [] && this.tuning == tuning && fresh(deadlines) && clock == 0
    {
      this.tuning := tuning;
      ssrc, ready, queued, calls, clock := map[], [], {}, map[], 0;
      deadlines := new DeadlineSet();
    }

    /** Time passes. */
    ghost method Tick(now: nat)
      requires Recorded() && clock <= now
      modifies this`clock
      ensures Recorded() && clock == now
    {
      hide Ran;
      forall k | k in ssrc
        ensures Ran(ssrc[k], calls[k], k, now, tuning)
      {
        RanLater(ssrc[k], calls[k], k, clock, now, tuning);
      }
      clock := now;
    }

    /** Stores the outcome of a call on one SSRC. */
    method Store(k: u32, s: Ssrc, ghost call: Call)
      requires k in ssrc && Recorded() && call.now == clock && s == Do(ssrc[k], call, k, tuning).state
      modifies this`ssrc, this`calls
      ensures Recorded() && ssrc == old(ssrc)[k := s] && calls == old(calls)[k := old(calls[k]) + [call]]
    {
      hide Ran, Do;
      RanStep(ssrc[k], calls[k], k, call, tuning);
      ssrc := ssrc[k := s];
      calls := calls[k := calls[k] + [call]];
    }

    method RefreshSsrcSchedules(k: u32)
      requires k in ssrc && Agrees({k})
      modifies this`ready, this`queued, deadlines
      ensures Agrees({})
      ensures ready == old(ready) + if HasReady(ssrc[k]) && k !in old(ready) then [k] else []
    {
      hide HasReady, HeadDeadline, Listed, QueuesReady, IndexesHeads;
      ListedIs(ready, queued, k);
      assert ready + [] == ready;
      var s := ssrc[k];
      QueueUp(ssrc, queued, k);
      IndexHead(ssrc, deadlines.keys, tuning.ttl, k);
      if HasReady(s) {
        if k !in queued {
          Append(ready, queued, k);
          queued := queued + {k};
          ready := ready + [k];
        } else {
          assert queued + {k} == queued;
        }
      }
      if HeadDeadline(s, tuning.ttl).Some? {
        deadlines.Insert(k, HeadDeadline(s, tuning.ttl).value);
      } else {
        var removed := deadlines.Remove(k);
      }
    }

    method PushMediaPacket(packet: Packet, now: nat) returns (r: Assembler.Result)
      requires Valid() && clock <= now
      modifies this, deadlines
      ensures Valid() && clock == now
      ensures
        var k := packet.rtp.ssrc;
        var before := if k in old(ssrc) then old(ssrc)[k] else FRESH;
        var step := PushMedia(before, packet, now, tuning);
        && ssrc == old(ssrc)[k := step.state] && r == step.result
        && calls == old(calls)[k := (if k in old(calls) then old(calls)[k] else []) + [Call(Arrive(packet), now)]]
    {
      hide Ran, Agrees, PushMedia;
      var k := packet.rtp.ssrc;
      Tick(now);
      if k !in ssrc {
        Open(k);
      }
      r := StepOn(k, Call(Arrive(packet), now));
    }

    /** A new SSRC. */
    method Open(k: u32)
      requires Agrees({}) && Recorded() && k !in ssrc
      modifies this`ssrc, this`calls
      ensures Agrees({k}) && Recorded() && ssrc == old(ssrc)[k := FRESH] && calls == old(calls)[k := []]
    {
      hide Ran, Listed, QueuesReady, IndexesHeads;
      RanFresh(k, clock, tuning);
      Changed(ssrc, queued, deadlines.keys, tuning.ttl, k, FRESH);
      ssrc, calls := ssrc[k := FRESH], calls[k := []];
    }

    /** One call on one SSRC, whose schedules are then brought up to date. */
    method StepOn(k: u32, call: Call) returns (r: Assembler.Result)
      requires k in ssrc && (Agrees({}) || Agrees({k})) && Recorded() && call.now == clock
      modifies this`ssrc, this`calls, this`ready, this`queued, deadlines
      ensures Valid()
      ensures
        var step := Do(old(ssrc[k]), call, k, tuning);
        && ssrc == old(ssrc)[k := step.state] && r == step.result
        && calls == old(calls)[k := old(calls[k]) + [call]]
    {
      hide Ran, Do, Listed, QueuesReady, IndexesHeads, HasReady, HeadDeadline;
      var step := Do(ssrc[k], call, k, tuning);
      Changed(ssrc, queued, deadlines.keys, tuning.ttl, k, step.state);
      Store(k, step.state, call);
      RefreshSsrcSchedules(k);
      return step.result;
    }

    method PruneSsrcs(removed: set<u32>)
      requires Valid()
      modifies this, deadlines
      ensures Valid() && clock == old(clock)
      ensures ssrc == old(ssrc) - removed && calls == old(calls) - removed
      ensures ready == Without(old(ready), removed)
    {
      hide Ran, QueuesReady, IndexesHeads, Listed;
      if removed == {} {
        NothingRemoved(ready);
        return;
      }
      PrunedList(ready, queued, removed);
      Pruned(ssrc, queued, deadlines.keys, tuning.ttl, removed);
      ssrc, calls := ssrc - removed, calls - removed;
      queued := queued - removed;
      ready := Without(ready, removed);
      RemoveDeadlines(removed);
    }

    method RemoveDeadlines(removed: set<u32>)
      requires deadlines.Valid()
      modifies deadlines
      ensures deadlines.Valid() && deadlines.keys == old(deadlines.keys) - removed
    {
      var left := removed;
      while left != {}
        invariant left <= removed && deadlines.Valid()
        invariant deadlines.keys == old(deadlines.keys) - (removed - left)
        decreases |left|
      {
        var k :| k in left;
        var was := deadlines.Remove(k);
        left := left - {k};
      }
      assert removed - left == removed;
    }

    /** The longest-queued SSRC that still has something ready; others found on the way are dropped. */
    method PopReadyBufferedSsrc() returns (r: Option<u32>)
      requires Agrees({})
      modifies this`ready, this`queued
      ensures r.None? ==> Agrees({}) && forall k :: k in ssrc ==> !HasReady(ssrc[k])
      ensures r.Some? ==> r.value in ssrc && HasReady(ssrc[r.value]) && Agrees({r.value})
      ensures r.Some? ==>
                var i := |old(ready)| - |ready| - 1;
                && 0 <= i && old(ready)[i] == r.value && ready == old(ready)[i + 1..]
                && forall j :: 0 <= j < i ==> !(old(ready)[j] in ssrc && HasReady(ssrc[old(ready)[j]]))
    {
      hide HasReady, HeadDeadline;
      while ready != []
        invariant Agrees({})
        invariant |ready| <= |old(ready)| && ready == old(ready)[|old(ready)| - |ready|..]
        invariant forall j :: 0 <= j < |old(ready)| - |ready| ==> !(old(ready)[j] in ssrc && HasReady(ssrc[old(ready)[j]]))
        decreases |ready|
      {
        var k := ready[0];
        PopFront(ready, queued);
        ready := ready[1..];
        queued := queued - {k};
        if k in ssrc && HasReady(ssrc[k]) {
          return Some(k);
        }
      }
      return None;
    }

    /**
     * The SSRC with the earliest expired head. The index is exact, so the SSRC it names is due and
     * the source's loop over stale entries never comes to a second one.
     */
    method ExpiredMissingSsrc(now: nat) returns (r: Option<u32>)
      requires Agrees({})
      modifies deadlines
      ensures r.None? ==> Agrees({}) && forall k :: k in ssrc ==> !Due(ssrc[k], now, tuning.ttl)
      ensures r.Some? ==> FirstDue(ssrc, r.value, now, tuning.ttl) && Agrees({r.value})
    {
      hide HasReady, HeadDeadline, Listed;
      r := deadlines.PopExpired(now);
    }

    method ReleaseNext(k: u32, now: nat) returns (r: Assembler.Result)
      requires k in ssrc && now == clock && HasReady(ssrc[k]) && Agrees({k}) && Recorded()
      modifies this`ssrc, this`calls, this`ready, this`queued, deadlines
      ensures Valid() && ssrc == old(ssrc)[k := PopReady(old(ssrc[k])).state] && r == PopReady(old(ssrc[k])).result
      ensures k in old(calls) && calls == old(calls)[k := old(calls[k]) + [Call(Release, now)]]
      ensures ReleasedLast(calls[k], k, tuning, r)
      ensures r == Ok(None) ==> Total(ssrc) < old(Total(ssrc))
    {
      hide Agrees, Ran, PopReady, HasReady, ReleasedLast, Total;
      ghost var s := ssrc[k];
      ReleasedNow(s, calls[k], k, now, tuning);
      r := StepOn(k, Call(Release, now));
      if r == Ok(None) {
        PopReadyWeighs(s);
        TotalUpdate(old(ssrc), k, PopReady(s).state);
      }
    }

    method TimeOutNext(k: u32, now: nat)
      requires k in ssrc && now == clock && Due(ssrc[k], now, tuning.ttl) && Agrees({k}) && Recorded()
      modifies this`ssrc, this`calls, this`ready, this`queued, deadlines
      ensures Valid() && ssrc == old(ssrc)[k := Expire(old(ssrc[k]), k, now, tuning.ttl, false).state]
      ensures k in old(calls) && calls == old(calls)[k := old(calls[k]) + [Call(TimeOut, now)]]
      ensures Total(ssrc) < old(Total(ssrc))
    {
      hide Agrees, Ran, Expire, HeadDeadline, Total;
      ghost var s := ssrc[k];
      var result := StepOn(k, Call(TimeOut, now));
      ExpireWeighs(s, k, now, tuning.ttl);
      TotalUpdate(old(ssrc), k, Expire(s, k, now, tuning.ttl, false).state);
    }

    /**
     * Delivers the next frame or error of any SSRC, by turns in order: nothing that a turn gave is kept back, and nothing is
     * returned only when no SSRC has anything ready and no gap at the head of an SSRC has expired.
     */
    method DrainOrderedMedia(now: nat) returns (r: Option<Assembler.Result>, ghost turns: seq<Turn>)
      requires Valid() && clock <= now
      modifies this, deadlines
      ensures Valid() && clock == now && ssrc.Keys == old(ssrc.Keys)
      ensures ssrc == Played(old(ssrc), turns, tuning) && AllInOrder(old(ssrc), turns, now, tuning)
      ensures r.None? ==> AllSilent(old(ssrc), turns, tuning) && NothingReady(ssrc) && NothingDue(ssrc, now, tuning.ttl)
      ensures r.Some? ==>
                && r.value != Ok(None) && turns != []
                && var n := |turns| - 1;
                   && AllSilent(old(ssrc), turns[..n], tuning)
                   && r.value == Gives(Played(old(ssrc), turns[..n], tuning), turns[n])
                   && turns[n].ssrc in calls && ReleasedLast(calls[turns[n].ssrc], turns[n].ssrc, tuning, r.value)
      ensures AllDrained(old(calls), calls, now)
    {
      hide Recorded, Agrees, HasReady, Due, PopReady, Expire, AllDrained, ReleasedLast, Total, Played, AllInOrder, AllSilent, HeadDeadline;
      Tick(now);
      AllDrainedStart(calls, now);
      turns := [];
      NoTurns(ssrc, now, tuning);
      while true
        invariant Valid() && clock == now && ssrc.Keys == old(ssrc.Keys) && AllDrained(old(calls), calls, now)
        invariant ssrc == Played(old(ssrc), turns, tuning)
        invariant AllInOrder(old(ssrc), turns, now, tuning) && AllSilent(old(ssrc), turns, tuning)
        decreases Total(ssrc)
      {
        var next := PopReadyBufferedSsrc();
        if next.Some? {
          ghost var before, turn := calls, Turn(next.value, Call(Release, now));
          PlayedSnoc(old(ssrc), turns, turn, now, tuning);
          var result := ReleaseNext(next.value, now);
          AllDrainedStep(old(calls), before, next.value, Call(Release, now));
          assert (turns + [turn])[..|turns|] == turns;
          turns := turns + [turn];
          if result != Ok(None) {
            return Some(result), turns;
          }
        } else {
          next := ExpiredMissingSsrc(now);
          if next.None? {
            return None, turns;
          }
          ghost var before, turn := calls, Turn(next.value, Call(TimeOut, now));
          PlayedSnoc(old(ssrc), turns, turn, now, tuning);
          TimeOutNext(next.value, now);
          AllDrainedStep(old(calls), before, next.value, Call(TimeOut, now));
          turns := turns + [turn];
        }
      }
    }
  }
}
