/** Paced Opus playout (cacophony/src/connection/playout.rs). Times are in nanoseconds. */
module Playout {
  import opened Prelude

  /** Every Opus packet lasts 20 ms. */
  const FRAME: nat := 20_000_000
  const MAX_STALE: nat := 3 * FRAME

  datatype Timing = Timing(due: nat, now: nat)

  /**
   * What became of a frame that left the queue. A send is `anew` when its due time does not continue the schedule: it is the
   * first, follows an underflow or was rebased. A stale frame `waited` when it was given up while DAVE media was awaited.
   */
  datatype Outcome<F> = Sent(frame: F, timing: Timing, anew: bool) | Stale(frame: F, waited: bool) | Unsent(frame: F)

  function FramesOf<F>(outcomes: seq<Outcome<F>>): seq<F> {
    seq(|outcomes|, i requires 0 <= i < |outcomes| => outcomes[i].frame)
  }

  function Timings<F>(outcomes: seq<Outcome<F>>): seq<Timing> {
    if |outcomes| == 0 then []
    else
      var (init, last) := (outcomes[..|outcomes| - 1], outcomes[|outcomes| - 1]);
      Timings(init) + if last.Sent? then [last.timing] else []
  }

  function StaleCount<F>(outcomes: seq<Outcome<F>>): nat {
    if |outcomes| == 0 then 0
    else
      var (init, last) := (outcomes[..|outcomes| - 1], outcomes[|outcomes| - 1]);
      StaleCount(init) + if last.Stale? then 1 else 0
  }

  /** When the next frame is due if nothing disturbs the schedule: 20 ms after the last send for every frame since. */
  function Expected<F>(outcomes: seq<Outcome<F>>): Option<nat> {
    if |outcomes| == 0 then None
    else
      var before, last := Expected(outcomes[..|outcomes| - 1]), outcomes[|outcomes| - 1];
      match last
      case Sent(_, timing, _) => Some(timing.due + 20_000_000)
      case Stale(_, waited) => if waited || before.None? then before else Some(before.value + 20_000_000)
      case Unsent(_) => None
  }

  /** Every send that is not anew has the due time expected. */
  ghost predicate Scheduled<F>(outcomes: seq<Outcome<F>>) {
    forall i :: 0 <= i < |outcomes| ==> ScheduledAt(outcomes, i)
  }

  ghost predicate ScheduledAt<F>(outcomes: seq<Outcome<F>>, i: nat)
    requires i < |outcomes|
  {
    outcomes[i].Sent? && !outcomes[i].anew ==>
      var expected := Expected(outcomes[..i]);
      expected.Some? ==> outcomes[i].timing.due == expected.value
  }

  /** The frames up to `b` that left the queue after `a` kept the schedule. */
  ghost predicate Steady<F>(outcomes: seq<Outcome<F>>, a: nat, b: nat) {
    b < |outcomes| && forall i :: a < i <= b ==> (outcomes[i].Sent? && !outcomes[i].anew) || (outcomes[i].Stale? && !outcomes[i].waited)
  }

  /**
   * Between two sends without a rebase, an underflow or a wait, due times differ by exactly 20 ms for every frame that left
   * the queue, sent or given up.
   */
  lemma {:induction false} SteadyDue<F>(outcomes: seq<Outcome<F>>, a: nat, b: nat)
    requires Scheduled(outcomes) && a <= b < |outcomes| && outcomes[a].Sent? && Steady(outcomes, a, b)
    ensures Expected(outcomes[..b + 1]) == Some(outcomes[a].timing.due + (b - a + 1) * 20_000_000)
    ensures outcomes[b].Sent? ==> outcomes[b].timing.due == outcomes[a].timing.due + (b - a) * 20_000_000
    decreases b
  {
    var upTo := outcomes[..b + 1];
    assert upTo[..b] == outcomes[..b] && upTo[b] == outcomes[b];
    if a < b {
      SteadyDue(outcomes, a, b - 1);
      assert outcomes[..b - 1 + 1] == outcomes[..b];
      assert ScheduledAt(outcomes, b);
    }
  }

  /** Every send is at most three frames late, and due times advance by at least one frame. */
  ghost predicate Paced(sends: seq<Timing>) {
    && (forall i :: 0 <= i < |sends| ==> OnTime(sends[i]))
    && (forall i, j :: 0 <= i && j == i + 1 && j < |sends| ==> sends[i].due + FRAME <= sends[j].due)
  }

  ghost predicate OnTime(t: Timing) {
    t.due <= t.now < t.due + MAX_STALE
  }

  /** The next send is due a frame after the last one, unless an underflow has passed that time. */
  ghost predicate Follows(nextSendAt: Option<nat>, last: Timing, clock: nat) {
    if nextSendAt.Some? then nextSendAt.value == last.due + FRAME else last.due + FRAME < clock
  }

  lemma {:induction false} DueAdvances(sends: seq<Timing>, i: nat, j: nat)
    requires Paced(sends) && i <= j < |sends|
    ensures sends[i].due + (j - i) * FRAME <= sends[j].due
    decreases j
  {
    if i < j {
      DueAdvances(sends, i, j - 1);
    }
  }

  /** Between two sends lie fewer frames than fit the elapsed time plus three. */
  lemma RateBound(sends: seq<Timing>, i: nat, j: nat)
    requires Paced(sends) && i <= j < |sends|
    ensures (j - i) * FRAME < sends[j].now - sends[i].now + MAX_STALE
  {
    DueAdvances(sends, i, j);
  }

  // ----- Frames given up -----

  /** How many frames are given up as stale when `n` are queued. */
  function Drops(due: nat, now: nat, n: nat): (k: nat)
    ensures k == 0 || k < n
    ensures k == 0 || now >= due + (k - 1) * FRAME + MAX_STALE
    ensures now >= due + k * FRAME + MAX_STALE ==> k + 1 >= n
    decreases n
  {
    if now >= due + MAX_STALE && n > 1 then 1 + Drops(due + FRAME, now, n - 1) else 0
  }

  /** When the frame that is left is sent: after the dropped ones, or now when still too late. */
  function DueAfter(due: nat, now: nat, n: nat): (r: nat)
    requires due <= now
    ensures due <= r && OnTime(Timing(r, now))
    ensures
      var kept := due + Drops(due, now, n) * 20_000_000;
      r == if now < kept + 60_000_000 then kept else now
  {
    var due := due + Drops(due, now, n) * FRAME;
    if now >= due + MAX_STALE then now else due
  }

  function StaleOutcomes<F>(frames: seq<F>, waited: bool): seq<Outcome<F>> {
    seq(|frames|, i requires 0 <= i < |frames| => Stale(frames[i], waited))
  }

  lemma SnocTimings<F>(outcomes: seq<Outcome<F>>, o: Outcome<F>)
    ensures Timings(outcomes + [o]) == Timings(outcomes) + if o.Sent? then [o.timing] else []
    ensures StaleCount(outcomes + [o]) == StaleCount(outcomes) + if o.Stale? then 1 else 0
    ensures FramesOf(outcomes + [o]) == FramesOf(outcomes) + [o.frame]
  {
    assert (outcomes + [o])[..|outcomes|] == outcomes;
  }

  lemma SnocScheduled<F>(outcomes: seq<Outcome<F>>, o: Outcome<F>)
    requires Scheduled(outcomes)
    requires o.Sent? && !o.anew && Expected(outcomes).Some? ==> o.timing.due == Expected(outcomes).value
    ensures Scheduled(outcomes + [o])
    ensures
      var before := Expected(outcomes);
      Expected(outcomes + [o])
      == match o
         case Sent(_, timing, _) => Some(timing.due + 20_000_000)
         case Stale(_, waited) => if waited || before.None? then before else Some(before.value + 20_000_000)
         case Unsent(_) => None
  {
    var all := outcomes + [o];
    assert all[..|outcomes|] == outcomes;
    forall i | 0 <= i < |all|
      ensures ScheduledAt(all, i)
    {
      assert all[..i] == outcomes[..i];
      if i < |outcomes| {
        assert ScheduledAt(outcomes, i);
      } else {
        assert outcomes[..i] == outcomes;
      }
    }
  }

  /** The front frame moves from the queue to the outcomes. */
  lemma MovesOn<F>(outcomes: seq<Outcome<F>>, frames: seq<F>, o: Outcome<F>)
    requires frames != [] && o.frame == frames[0]
    ensures FramesOf(outcomes + [o]) + frames[1..] == FramesOf(outcomes) + frames
  {
  }

  lemma StaleNone<F>(frames: seq<F>)
    ensures forall waited :: StaleOutcomes(frames[..0], waited) == []
  {
  }

  lemma StaleSnoc<F>(frames: seq<F>, k: nat, waited: bool)
    requires k < |frames|
    ensures StaleOutcomes(frames[..k + 1], waited) == StaleOutcomes(frames[..k], waited) + [Stale(frames[k], waited)]
  {
  }

  lemma PacedSnoc(sends: seq<Timing>, t: Timing)
    requires Paced(sends) && OnTime(t)
    requires |sends| > 0 ==> sends[|sends| - 1].due + FRAME <= t.due
    ensures Paced(sends + [t])
  {
  }

  /** The successive readings of the clock while a playout is resolved. */
  datatype Readings = Readings(ready: nat, first: nat, now: nat, wait: nat, check: nat) {
    ghost predicate Ordered() {
      ready <= first <= now <= wait <= check
    }
  }

  datatype Next = Idle | SentFrame | Completed | TimedOut | SendFailed

  class ActiveOpusPlayout<F> {
    var frames: seq<F>
    var nextSendAt: Option<nat>
    var mediaReadyDeadline: Option<nat>
    var finishing: bool
    var dropped: nat
    var underflows: nat
    var rebases: nat

    ghost var pushed: seq<F>
    ghost var outcomes: seq<Outcome<F>>
    ghost var clock: nat

    /** Frames leave in the order they were pushed, and none is lost or sent twice. */
    ghost predicate Conserves()
      reads this
    {
      pushed == FramesOf(outcomes) + frames && dropped == StaleCount(outcomes)
    }

    ghost predicate Keeps()
      reads this
    {
      var sends := Timings(outcomes);
      && Paced(sends) && (|sends| > 0 ==> Follows(nextSendAt, sends[|sends| - 1], clock))
      && OnSchedule()
    }

    /** The next due time is the expected one, as long as there is one. */
    ghost predicate OnSchedule()
      reads this
    {
      Scheduled(outcomes) && (nextSendAt.Some? && Expected(outcomes).Some? ==> nextSendAt == Expected(outcomes))
    }

    ghost predicate Valid()
      reads this
    {
      Conserves() && Keeps()
    }

    constructor ()
      ensures Valid() && frames == pushed == [] && outcomes == [] && clock == 0
      ensures nextSendAt == mediaReadyDeadline == None && !finishing && dropped == underflows == rebases == 0
    {
      frames, nextSendAt, mediaReadyDeadline, finishing := [], None, None, false;
      dropped, underflows, rebases := 0, 0, 0;
      pushed, outcomes, clock := [], [], 0;
    }

    /** A queue that ran dry past its due time starts a new schedule. */
    method RecordUnderflowIfNeeded(now: nat)
      requires Valid() && clock <= now
      modifies this`nextSendAt, this`underflows, this`clock
      ensures Valid() && clock == now
      ensures
        var underflow := frames == [] && !finishing && old(nextSendAt).Some? && now > old(nextSendAt).value;
        && nextSendAt == (if underflow then None else old(nextSendAt))
        && underflows == old(underflows) + if underflow then 1 else 0
    {
      hide Timings, StaleCount, FramesOf, Paced, Scheduled, Expected;
      if frames == [] && !finishing && nextSendAt.Some? && now > nextSendAt.value {
        nextSendAt := None;
        underflows := underflows + 1;
      }
      clock := now;
    }

    /** The schedule is given up, and counted, exactly if the queue was dry past its due time and more was to come. */
    twostate predicate Restarts(now: nat)
      reads this
    {
      var dry := old(frames) == [] && !old(finishing) && old(nextSendAt).Some? && now > old(nextSendAt).value;
      && nextSendAt == (if dry then None else old(nextSendAt)) && underflows == old(underflows) + (if dry then 1 else 0)
      && mediaReadyDeadline == old(mediaReadyDeadline) && finishing == old(finishing)
      && dropped == old(dropped) && rebases == old(rebases)
    }

    method Push(frame: F, now: nat)
      requires Valid() && clock <= now
      modifies this
      ensures Valid() && clock == now
      ensures frames == old(frames) + [frame] && pushed == old(pushed) + [frame] && outcomes == old(outcomes)
      ensures Restarts(now)
    {
      PushMany([frame], now);
    }

    method PushMany(more: seq<F>, now: nat)
      requires Valid() && clock <= now
      modifies this
      ensures Valid() && clock == now
      ensures frames == old(frames) + more && pushed == old(pushed) + more && outcomes == old(outcomes)
      ensures Restarts(now)
    {
      RecordUnderflowIfNeeded(now);
      frames := frames + more;
      pushed := pushed + more;
    }

    method Finish()
      requires Valid()
      modifies this`finishing
      ensures Valid() && finishing
    {
      finishing := true;
    }

    predicate ReadyToComplete(now: nat)
      reads this
    {
      finishing && frames == [] && (nextSendAt.None? || now >= nextSendAt.value)
    }

    /** What is expected next once `k` frames have been given up. */
    static ghost function Later(expected: Option<nat>, k: nat, waited: bool): Option<nat> {
      if waited || expected.None? then expected else Some(expected.value + k * 20_000_000)
    }

    /** Gives up stale frames and finds the due time of the one that is left. */
    method DropStale(due: nat, now: nat, ghost waited: bool) returns (dueAt: nat)
      requires Conserves() && Scheduled(outcomes) && frames != [] && due <= now
      modifies this`frames, this`dropped, this`rebases, this`outcomes
      ensures Conserves() && Scheduled(outcomes) && dueAt == DueAfter(due, now, old(|frames|))
      ensures
        var k := Drops(due, now, old(|frames|));
        && frames == old(frames)[k..] && outcomes == old(outcomes) + StaleOutcomes(old(frames)[..k], waited)
        && Expected(outcomes) == Later(old(Expected(outcomes)), k, waited)
        && rebases == old(rebases) + if now >= due + k * 20_000_000 + 60_000_000 then 1 else 0
      ensures frames != [] && Timings(outcomes) == old(Timings(outcomes))
    {
      hide Timings, StaleCount, FramesOf, StaleOutcomes, Scheduled, Expected;
      StaleNone(frames);
      assert outcomes + [] == outcomes;
      ghost var k := 0;
      dueAt := due;
      while now >= dueAt + MAX_STALE && |frames| > 1
        invariant 0 <= k < |old(frames)| && frames == old(frames)[k..] && dueAt == due + k * FRAME
        invariant Drops(due, now, old(|frames|)) == k + Drops(dueAt, now, |frames|)
        invariant outcomes == old(outcomes) + StaleOutcomes(old(frames)[..k], waited)
        invariant Conserves() && Timings(outcomes) == old(Timings(outcomes)) && rebases == old(rebases)
        invariant Scheduled(outcomes) && Expected(outcomes) == Later(old(Expected(outcomes)), k, waited)
        decreases |frames|
      {
        GiveUp(waited);
        StaleSnoc(old(frames), k, waited);
        dueAt := dueAt + FRAME;
        k := k + 1;
      }
      if now >= dueAt + MAX_STALE {
        rebases := rebases + 1;
        dueAt := now;
      }
    }

    /** One stale frame leaves the queue. */
    method GiveUp(ghost waited: bool)
      requires Conserves() && Scheduled(outcomes) && frames != []
      modifies this`frames, this`dropped, this`outcomes
      ensures Conserves() && Scheduled(outcomes) && frames == old(frames)[1..] && dropped == old(dropped) + 1
      ensures outcomes == old(outcomes) + [Stale(old(frames)[0], waited)] && Timings(outcomes) == old(Timings(outcomes))
      ensures Expected(outcomes) == Later(old(Expected(outcomes)), 1, waited)
    {
      hide Timings, StaleCount, FramesOf, Scheduled, Expected;
      SnocTimings(outcomes, Stale(frames[0], waited));
      SnocScheduled(outcomes, Stale(frames[0], waited));
      MovesOn(outcomes, frames, Stale(frames[0], waited));
      assert Timings(outcomes) + [] == Timings(outcomes);
      outcomes := outcomes + [Stale(frames[0], waited)];
      frames := frames[1..];
      dropped := dropped + 1;
    }

    /** The front frame is sent, or the attempt fails and the playout ends. */
    method SendFront(due: nat, now: nat, succeeds: bool, ghost anew: bool) returns (r: Next)
      requires Conserves() && frames != [] && OnTime(Timing(due, now)) && Scheduled(outcomes)
      requires !anew && Expected(outcomes).Some? ==> due == Expected(outcomes).value
      requires
        var sends := Timings(outcomes);
        Paced(sends) && (|sends| > 0 ==> Follows(nextSendAt, sends[|sends| - 1], clock) && sends[|sends| - 1].due + FRAME <= due)
      modifies this`frames, this`outcomes, this`nextSendAt
      ensures Valid() && frames == old(frames)[1..]
      ensures r == if succeeds then SentFrame else SendFailed
      ensures outcomes ==
              old(outcomes) + [if succeeds then Sent(old(frames)[0], Timing(due, now), anew) else Unsent(old(frames)[0])]
      ensures nextSendAt == if succeeds then Some(due + 20_000_000) else old(nextSendAt)
    {
      hide Timings, StaleCount, FramesOf, Paced, Scheduled, Expected;
      var frame := frames[0];
      ghost var o := if succeeds then Sent(frame, Timing(due, now), anew) else Unsent(frame);
      SnocTimings(outcomes, o);
      SnocScheduled(outcomes, o);
      PacedSnoc(Timings(outcomes), Timing(due, now));
      MovesOn(outcomes, frames, o);
      assert Timings(outcomes) + [] == Timings(outcomes);
      frames := frames[1..];
      outcomes := outcomes + [o];
      if !succeeds {
        return SendFailed;
      }
      nextSendAt := Some(due + FRAME);
      return SentFrame;
    }

    ghost function Due(t: Readings): nat
      reads this`nextSendAt
    {
      if nextSendAt.Some? then nextSendAt.value else t.first
    }

    /** A frame is due: stale ones go, then the front is sent unless DAVE media has to be awaited. */
    method ResolveLate(due: nat, t: Readings, waitsForDave: bool, timeout: nat, succeeds: bool) returns (r: Next)
      requires Valid() && frames != [] && due <= t.now
      requires nextSendAt.Some? ==> due == nextSendAt.value
      requires |Timings(outcomes)| > 0 ==> Timings(outcomes)[|Timings(outcomes)| - 1].due + FRAME <= due
      modifies this`frames, this`dropped, this`rebases, this`outcomes, this`nextSendAt, this`mediaReadyDeadline
      ensures Valid()
      ensures waitsForDave ==> Waited(due, t, timeout, r)
      ensures !waitsForDave ==> Went(due, t, succeeds, r)
    {
      hide Timings, StaleCount, Paced, Drops, DueAfter, FramesOf, Scheduled, Expected;
      var dueAt := DropStale(due, t.now, waitsForDave);
      if waitsForDave {
        if mediaReadyDeadline.None? {
          mediaReadyDeadline := Some(t.wait + timeout);
        }
        return if t.check >= mediaReadyDeadline.value then TimedOut else Idle;
      }
      mediaReadyDeadline := None;
      ghost var k := Drops(due, t.now, old(|frames|));
      r := SendFront(dueAt, t.now, succeeds, nextSendAt.None? || t.now >= due + k * 20_000_000 + 60_000_000);
    }

    twostate predicate Waited(due: nat, t: Readings, timeout: nat, r: Next)
      reads this
    {
      var k := Drops(due, t.now, |old(frames)|);
      && k <= |old(frames)| && frames == old(frames)[k..]
      && outcomes == old(outcomes) + StaleOutcomes(old(frames)[..k], true)
      && rebases == old(rebases) + (if t.now >= due + k * 20_000_000 + 60_000_000 then 1 else 0)
      && nextSendAt == old(nextSendAt)
      && mediaReadyDeadline
         == Some(if old(mediaReadyDeadline).Some? then old(mediaReadyDeadline).value else t.wait + timeout)
      && r == if t.check >= mediaReadyDeadline.value then TimedOut else Idle
    }

    twostate predicate Went(due: nat, t: Readings, succeeds: bool, r: Next)
      reads this
    {
      && due <= t.now
      && var k, dueAt := Drops(due, t.now, |old(frames)|), DueAfter(due, t.now, |old(frames)|);
      && k < |old(frames)| && frames == old(frames)[k + 1..] && mediaReadyDeadline == None
      && rebases == old(rebases) + (if t.now >= due + k * 20_000_000 + 60_000_000 then 1 else 0)
      && r == (if succeeds then SentFrame else SendFailed)
      && var anew := old(nextSendAt).None? || t.now >= due + k * 20_000_000 + 60_000_000;
      && outcomes == old(outcomes) + StaleOutcomes(old(frames)[..k], false)
                     + [if succeeds then Sent(old(frames)[k], Timing(dueAt, t.now), anew) else Unsent(old(frames)[k])]
      && nextSendAt == if succeeds then Some(dueAt + 20_000_000) else old(nextSendAt)
    }

    /**
      * The times alone: of `n` queued frames as many were given up as were 60 ms late and not the last, and the next send
      * is 20 ms for each frame gone behind the due time, or behind the clock when even the last one was that late.
      */
    ghost predicate KeepsTime(due: nat, now: nat, n: nat)
      reads this`frames, this`nextSendAt
    {
      && |frames| < n
      && var k := n - 1 - |frames|;
      && (k == 0 || now >= due + (k - 1) * 20_000_000 + 60_000_000)
      && (now >= due + k * 20_000_000 + 60_000_000 ==> frames == [])
      && nextSendAt
         == Some(if now < due + k * 20_000_000 + 60_000_000 then due + (k + 1) * 20_000_000 else now + 20_000_000)
    }

    twostate predicate Untouched()
      reads this
    {
      && frames == old(frames) && outcomes == old(outcomes) && nextSendAt == old(nextSendAt)
      && mediaReadyDeadline == old(mediaReadyDeadline) && rebases == old(rebases)
    }

    /** What the source decides from the queue, the clock and the DAVE state. */
    method Resolve(t: Readings, waitsForDave: bool, timeout: nat, succeeds: bool) returns (r: Next)
      requires Valid() && t.Ordered() && clock <= t.ready
      modifies this
      ensures Valid() && clock == t.check && pushed == old(pushed)
      ensures finishing == old(finishing) && underflows == old(underflows)
      ensures r == Completed <==> finishing && old(frames) == [] && (old(nextSendAt).None? || t.ready >= old(nextSendAt).value)
      ensures r == Completed ==> pushed == FramesOf(outcomes)
      ensures old(frames) == [] || t.now < old(Due(t)) ==> Untouched() && (r == Idle || r == Completed)
      ensures old(frames) != [] && old(Due(t)) <= t.now ==>
                if waitsForDave then Waited(old(Due(t)), t, timeout, r) else Went(old(Due(t)), t, succeeds, r)
      ensures r == SentFrame ==>
                nextSendAt.Some? && t.now < nextSendAt.value + 40_000_000 && nextSendAt.value <= t.now + 20_000_000
      ensures r == SentFrame ==> KeepsTime(old(Due(t)), t.now, old(|frames|))
    {
      hide Timings, StaleCount, Paced, Drops, DueAfter, Scheduled, Expected;
      clock := t.check;
      if ReadyToComplete(t.ready) {
        assert FramesOf(outcomes) + [] == FramesOf(outcomes);
        return Completed;
      }
      if frames == [] {
        return Idle;
      }
      var due := if nextSendAt.Some? then nextSendAt.value else t.first;
      if t.now < due {
        return Idle;
      }
      r := ResolveLate(due, t, waitsForDave, timeout, succeeds);
    }
  }
}
