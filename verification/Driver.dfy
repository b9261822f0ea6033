/**
 * The driver's way with one SSRC (cacophony/src/connection/receive.rs): after every packet that comes and every look at
 * the time-out it takes what is ready until nothing is.
 */
module Driver {
  import opened Prelude
  import opened Assembler
  import opened MediaPath
  import opened Reorder
  import opened ReorderRun
  import opened ReorderedMedia
  import opened Arrivals
  import opened StreamMedia

  function Frees(n: nat, now: nat): seq<Moment> {
    seq(n, _ => Moment(Freed, now))
  }

  /** The plan the driver makes of what happens to it. */
  ghost function Attended(acts: seq<Moment>, packets: seq<Packet>, ssrc: u32, tuning: Tuning): (plan: seq<Moment>)
    requires Within(acts, |packets|)
    ensures Within(plan, |packets|)
    decreases |acts|
  {
    if acts == [] then []
    else
      var n, m := |acts| - 1, acts[|acts| - 1];
      var taken := Attended(acts[..n], packets, ssrc, tuning) + [m];
      taken + Frees(Releases(Run(Calls(taken, packets), ssrc, tuning).state), m.now)
  }

  // ----- One more moment -----

  lemma FirstSnoc(plan: seq<Moment>, m: Moment)
    ensures Arrived(plan + [m]) == Arrived(plan) + if m.act.Came? then {m.act.index} else {}
    ensures First(plan + [m]) == if First(plan).Some? then First(plan) else if m.act.Came? then Some(m.act.index) else None
  {
    assert (plan + [m])[..|plan|] == plan;
  }

  lemma WindowedSnoc(plan: seq<Moment>, m: Moment, tuning: Tuning)
    requires Windowed(plan, tuning)
    requires m.act.Came? && First(plan).Some? ==> InWindow(Turn(plan), m.act.index, tuning)
    ensures Windowed(plan + [m], tuning)
  {
    hide First, Turn, InWindow;
    var all := plan + [m];
    forall j | 0 <= j < |all| && all[j].act.Came? && First(all[..j]).Some?
      ensures InWindow(Turn(all[..j]), all[j].act.index, tuning)
    {
      assert all[..j] == plan[..j];
      assert j == |plan| ==> plan[..j] == plan;
    }
  }

  lemma PatientSnoc(plan: seq<Moment>, m: Moment, tuning: Tuning)
    requires Patient(plan, tuning) && (m.act.Waited? && First(plan).Some? ==> Soon(plan, m.now, tuning))
    ensures Patient(plan + [m], tuning)
  {
    hide First, Turn;
    var all := plan + [m];
    forall j, u | 0 <= u < j < |all| && all[j].act.Waited? && all[u].act.Came?
      ensures PatientAt(all, tuning, j, u)
    {
      assert all[..j] == plan[..j];
      if j == |plan| {
        assert plan[..j] == plan;
      } else {
        assert PatientAt(plan, tuning, j, u);
      }
    }
  }

  lemma DrainedSnoc(plan: seq<Moment>, m: Moment, packets: seq<Packet>, ssrc: u32, tuning: Tuning)
    requires Within(plan, |packets|) && Drained(plan, packets, ssrc, tuning) && Within(plan + [m], |packets|)
    requires !m.act.Freed? ==> !HasReady(Run(Calls(plan, packets), ssrc, tuning).state)
    ensures Drained(plan + [m], packets, ssrc, tuning)
  {
    hide Run, HasReady, Calls;
    var all := plan + [m];
    forall j | 0 <= j < |all| && !all[j].act.Freed?
      ensures !HasReady(StateAt(all, packets, ssrc, tuning, j))
    {
      assert all[..j] == plan[..j];
      if j == |plan| {
        assert plan[..j] == plan;
      } else {
        assert !HasReady(StateAt(plan, packets, ssrc, tuning, j));
      }
    }
  }

  lemma TimedSnoc(plan: seq<Moment>, m: Moment)
    requires Timed(plan) && (forall i :: 0 <= i < |plan| ==> plan[i].now <= m.now)
    ensures Timed(plan + [m])
  {
  }

  /** The plan is as orderly as what happened: nothing else came, and no later than the last thing that happened. */
  ghost predicate Follows(plan: seq<Moment>, acts: seq<Moment>, packets: seq<Packet>, ssrc: u32, tuning: Tuning) {
    && Within(plan, |packets|) && Timed(plan) && Windowed(plan, tuning) && Patient(plan, tuning)
    && Drained(plan, packets, ssrc, tuning)
    && First(plan) == First(acts) && Arrived(plan) == Arrived(acts)
    && (forall i :: 0 <= i < |plan| && plan[i].act.Came? ==> plan[i] in acts)
    && (forall i :: 0 <= i < |plan| ==> acts != [] && plan[i].now <= acts[|acts| - 1].now)
  }

  lemma FreedFollows(plan: seq<Moment>, acts: seq<Moment>, packets: seq<Packet>, ssrc: u32, tuning: Tuning)
    requires Follows(plan, acts, packets, ssrc, tuning) && acts != []
    ensures Follows(plan + [Moment(Freed, acts[|acts| - 1].now)], acts, packets, ssrc, tuning)
  {
    hide Run, HasReady, Windowed, Patient, Drained, Timed, First, Arrived, Turn;
    var m := Moment(Freed, acts[|acts| - 1].now);
    FirstSnoc(plan, m);
    WindowedSnoc(plan, m, tuning);
    PatientSnoc(plan, m, tuning);
    TimedSnoc(plan, m);
    DrainedSnoc(plan, m, packets, ssrc, tuning);
  }

  lemma CallsFreed(plan: seq<Moment>, now: nat, packets: seq<Packet>, ssrc: u32, tuning: Tuning)
    requires Within(plan, |packets|)
    ensures Within(plan + [Moment(Freed, now)], |packets|)
    ensures Run(Calls(plan + [Moment(Freed, now)], packets), ssrc, tuning).state
            == PopReady(Run(Calls(plan, packets), ssrc, tuning).state).state
  {
    hide PopReady, Run;
    var all := plan + [Moment(Freed, now)];
    CallsSnoc(all, packets);
    assert all[..|plan|] == plan;
    RunSnoc(Calls(all, packets), ssrc, tuning);
  }

  /** Taking what is ready as often as that goes leaves nothing ready. */
  lemma {:induction false} FreesFollow(plan: seq<Moment>, acts: seq<Moment>, packets: seq<Packet>, ssrc: u32, tuning: Tuning)
    requires Follows(plan, acts, packets, ssrc, tuning) && acts != []
    ensures
      var s := Run(Calls(plan, packets), ssrc, tuning).state;
      var all := plan + Frees(Releases(s), acts[|acts| - 1].now);
      Follows(all, acts, packets, ssrc, tuning) && !HasReady(Run(Calls(all, packets), ssrc, tuning).state)
    decreases Load(Run(Calls(plan, packets), ssrc, tuning).state)
  {
    hide Run, HasReady, PopReady, Load, Follows, Calls, Within;
    WithinOf(plan, acts, packets, ssrc, tuning);
    var s, now := Run(Calls(plan, packets), ssrc, tuning).state, acts[|acts| - 1].now;
    if !HasReady(s) {
      assert plan + Frees(0, now) == plan;
    } else {
      ReleaseLightens(s);
      var longer := plan + [Moment(Freed, now)];
      FreedFollows(plan, acts, packets, ssrc, tuning);
      CallsFreed(plan, now, packets, ssrc, tuning);
      FreesFollow(longer, acts, packets, ssrc, tuning);
      var n := Releases(PopReady(s).state);
      assert plan + Frees(1 + n, now) == longer + Frees(n, now);
    }
  }

  lemma WithinOf(plan: seq<Moment>, acts: seq<Moment>, packets: seq<Packet>, ssrc: u32, tuning: Tuning)
    requires Follows(plan, acts, packets, ssrc, tuning)
    ensures Within(plan, |packets|)
  {
  }

  // ----- What happens next -----

  lemma FrontInOrder(acts: seq<Moment>, packets: seq<Packet>, tuning: Tuning)
    requires acts != [] && Orderly(acts, packets, tuning)
    ensures Orderly(acts[..|acts| - 1], packets, tuning)
  {
    hide First, Turn, InWindow, Patient, Windowed;
    FrontWindowed(acts, tuning);
    FrontPatient(acts, tuning);
  }

  /** The same packets have come, so the turn is the same and what came too soon is too. */
  lemma SoonFollows(plan: seq<Moment>, acts: seq<Moment>, now: nat, tuning: Tuning)
    requires First(plan) == First(acts) && First(acts).Some? && Arrived(plan) == Arrived(acts) && Soon(acts, now, tuning)
    requires forall i :: 0 <= i < |plan| && plan[i].act.Came? ==> plan[i] in acts
    ensures Soon(plan, now, tuning)
  {
    hide First, Arrived;
    forall u | 0 <= u < |plan| && plan[u].act.Came? && plan[u].act.index > Turn(plan)
      ensures now < plan[u].now + tuning.ttl
    {
      assert plan[u] in acts;
    }
  }

  lemma ActFollows(plan: seq<Moment>, acts: seq<Moment>, packets: seq<Packet>, ssrc: u32, tuning: Tuning)
    requires acts != [] && Orderly(acts, packets, tuning) && Follows(plan, acts[..|acts| - 1], packets, ssrc, tuning)
    requires !HasReady(Run(Calls(plan, packets), ssrc, tuning).state)
    ensures Follows(plan + [acts[|acts| - 1]], acts, packets, ssrc, tuning)
  {
    hide Run, HasReady, Windowed, Patient, Drained, Timed, First, Arrived, Soon, InWindow, Numbered;
    var front, m := acts[..|acts| - 1], acts[|acts| - 1];
    assert acts == front + [m];
    FirstSnoc(plan, m);
    FirstSnoc(front, m);
    if First(front).Some? {
      ActInOrder(acts, tuning);
      if m.act.Waited? {
        SoonFollows(plan, front, m.now, tuning);
      }
    }
    WindowedSnoc(plan, m, tuning);
    PatientSnoc(plan, m, tuning);
    LaterThanFront(acts);
    TimedSnoc(plan, m);
    DrainedSnoc(plan, m, packets, ssrc, tuning);
  }

  lemma LaterThanFront(acts: seq<Moment>)
    requires acts != [] && Timed(acts)
    ensures |acts| > 1 ==> acts[..|acts| - 1][|acts| - 2].now <= acts[|acts| - 1].now
  {
  }

  lemma ActInOrder(acts: seq<Moment>, tuning: Tuning)
    requires acts != [] && Windowed(acts, tuning) && Patient(acts, tuning) && First(acts[..|acts| - 1]).Some?
    ensures
      var front, m := acts[..|acts| - 1], acts[|acts| - 1];
      (m.act.Came? ==> InWindow(Turn(front), m.act.index, tuning)) && (m.act.Waited? ==> Soon(front, m.now, tuning))
  {
    hide First, Turn, InWindow, Soon, Patient;
    if acts[|acts| - 1].act.Waited? {
      SoonEnough(acts, tuning);
    }
  }

  /** Whatever happens within the window and in time, the driver's plan follows it and leaves nothing ready. */
  lemma {:induction false} AttendedFollows(acts: seq<Moment>, packets: seq<Packet>, ssrc: u32, tuning: Tuning)
    requires Orderly(acts, packets, tuning)
    ensures
      var plan := Attended(acts, packets, ssrc, tuning);
      Follows(plan, acts, packets, ssrc, tuning) && !HasReady(Run(Calls(plan, packets), ssrc, tuning).state)
    decreases |acts|
  {
    if acts == [] {
      NothingYet(packets, ssrc, tuning);
    } else {
      hide Run, HasReady, Orderly, Follows, Releases, Calls, Frees;
      var front, m := acts[..|acts| - 1], acts[|acts| - 1];
      FrontInOrder(acts, packets, tuning);
      AttendedFollows(front, packets, ssrc, tuning);
      var plan := Attended(front, packets, ssrc, tuning);
      ActFollows(plan, acts, packets, ssrc, tuning);
      FreesFollow(plan + [m], acts, packets, ssrc, tuning);
    }
  }

  lemma NothingYet(packets: seq<Packet>, ssrc: u32, tuning: Tuning)
    ensures Follows([], [], packets, ssrc, tuning) && !HasReady(Run(Calls([], packets), ssrc, tuning).state)
  {
    assert Calls([], packets) == [];
  }

  /** What the driver makes of an orderly and complete stream serves it: nothing is asked of the states it goes through. */
  lemma AttendedServes(acts: seq<Moment>, packets: seq<Packet>, ssrc: u32, tuning: Tuning)
    requires Orderly(acts, packets, tuning) && First(acts).Some? && Complete(acts, |packets|)
    ensures
      var plan := Attended(acts, packets, ssrc, tuning);
      Serves(plan, packets, ssrc, tuning) && First(plan) == First(acts)
  {
    hide Run, HasReady, Windowed, Patient, Drained, Timed, First, Arrived, Numbered, Attended;
    AttendedFollows(acts, packets, ssrc, tuning);
  }

  /** A stream of frames at the driver: packets in any order within the window, the stream's first one first. */
  lemma AttendedStream(stream: Stream, items: seq<Item>, seqno: u16, timestamp: u32, acts: seq<Moment>, tuning: Tuning)
    requires AllCarried(stream, items)
    requires
      var packets := Sent(stream, AllPieces(items), seqno, timestamp);
      Orderly(acts, packets, tuning) && Complete(acts, |packets|) && First(acts) == Some(0)
    ensures
      var packets := Sent(stream, AllPieces(items), seqno, timestamp);
      var calls := Calls(Attended(acts, packets, stream.ssrc, tuning), packets);
      && BytesOf(Outputs(calls, stream.ssrc, tuning)) == AllBytes(items)
      && Run(calls, stream.ssrc, tuning).state.assembler == EMPTY
  {
    hide Run, Outputs, Sent, First, Numbered, Timed, Windowed, Patient, Serves, AllPieces, AllCarried, BytesOf, Attended, Complete;
    var packets := Sent(stream, AllPieces(items), seqno, timestamp);
    AttendedServes(acts, packets, stream.ssrc, tuning);
    StreamDelivered(stream, items, seqno, timestamp, Attended(acts, packets, stream.ssrc, tuning), tuning);
  }
}
