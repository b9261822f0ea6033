/** The DAVE state that gateway messages drive (cacophony/src/state.rs, cacophony/src/dave.rs). */
module Gateway {
  import opened Prelude

  datatype Protocol = Unknown | Transport | Dave(version: u16) {
    function Version(): Option<u16> {
      match this
      case Unknown => None
      case Transport => Some(0)
      case Dave(version) => Some(version)
    }
  }

  function FromPrepared(version: u16): Protocol {
    if version == 0 then Transport else Dave(version)
  }

  function FromGateway(version: Option<u16>): Protocol {
    if version.None? then Unknown else FromPrepared(version.value)
  }

  datatype Phase =
    | Blank
    | Session(proto: Protocol)
    | PreparedTransition(id: u16, proto: Protocol)
    | PreparedEpoch(proto: Protocol, epoch: u64, seqno: u64, pendingId: Option<u16>)
  {
    function Protocol(): Protocol {
      if this.Blank? then Unknown else proto
    }

    function TransitionId(): Option<u16> {
      match this
      case PreparedTransition(id, _) => Some(id)
      case PreparedEpoch(_, _, _, pendingId) => pendingId
      case _ => None
    }

    function Epoch(): Option<u64> {
      if this.PreparedEpoch? then Some(epoch) else None
    }

    function EpochSeq(): u64 {
      if this.PreparedEpoch? then seqno else 0
    }

    function WithTransition(id: u16): Phase {
      if this.PreparedEpoch? then this.(pendingId := Some(id)) else PreparedTransition(id, Protocol())
    }

    function WithoutTransition(id: u16): Phase {
      if TransitionId() != Some(id) then this
      else if this.PreparedEpoch? then this.(pendingId := None)
      else Session(Protocol())
    }
  }

  datatype Kind = Commit | Welcome

  datatype Message = Message(kind: Kind, seqno: int, transitionId: u16, payload: seq<byte>)

  datatype State = State(phase: Phase, send: Protocol, receive: Protocol, proposals: seq<seq<byte>>,
                         commit: Option<Message>, welcome: Option<Message>)

  const INITIAL := State(Blank, Unknown, Unknown, [], None, None)

  datatype Event =
    | SetSession(version: Option<u16>)
    | PrepareTransition(id: u16, prepared: u16)
    | PrepareEpoch(prepared: u16, epoch: u64)
    | ExecuteTransition(id: u16)
    | SetPending(message: Message)
    | AddProposal(payload: seq<byte>)

  function Cleared(s: State): State {
    s.(proposals := [], commit := None, welcome := None)
  }

  function SetBoth(s: State, protocol: Protocol): State {
    s.(send := protocol, receive := protocol)
  }

  function Execute(s: State, id: u16): State {
    Cleared(if s.phase.TransitionId() == Some(id)
            then SetBoth(s, s.phase.Protocol()).(phase := s.phase.WithoutTransition(id)) else s)
  }

  function Prepared(phase: Phase, id: u16, protocol: Protocol): Phase {
    if phase.PreparedEpoch? then phase.(proto := protocol, pendingId := Some(id)) else PreparedTransition(id, protocol)
  }

  function SaturatingNext(n: u64): u64 {
    if n == 0xffff_ffff_ffff_ffff then n else n + 1
  }

  function Apply(s: State, e: Event): State {
    match e
    case SetSession(version) =>
      var protocol := FromGateway(version);
      var s := (if s.phase.Protocol() != protocol then Cleared(s) else s).(phase := Session(protocol));
      if protocol.Dave? then s else SetBoth(s, protocol)
    case PrepareTransition(id, prepared) =>
      var s := if s.phase.TransitionId() != Some(id) then Cleared(s) else s;
      var s := s.(phase := Prepared(s.phase, id, FromPrepared(prepared)));
      if s.phase.Epoch() == Some(1) && id == 0 && prepared != 0 then Execute(s, id) else s
    case PrepareEpoch(prepared, epoch) =>
      var phase := PreparedEpoch(FromPrepared(prepared), epoch, SaturatingNext(s.phase.EpochSeq()), s.phase.TransitionId());
      (if epoch == 1 || s.phase.Epoch() != Some(epoch) then Cleared(s) else s).(phase := phase)
    case ExecuteTransition(id) => Execute(s, id)
    case SetPending(message) =>
      var s := if s.phase.TransitionId() != Some(message.transitionId) then Cleared(s) else s;
      var s := s.(phase := s.phase.WithTransition(message.transitionId));
      if message.kind == Commit then s.(commit := Some(message)) else s.(welcome := Some(message))
    case AddProposal(payload) => s.(proposals := s.proposals + [payload])
  }

  function Run(events: seq<Event>): State {
    if |events| == 0 then INITIAL else Apply(Run(events[..|events| - 1]), events[|events| - 1])
  }

  // ----- Predicates on the state -----

  function Number(version: Option<u16>): u16 {
    if version.None? then 0 else version.value
  }

  predicate MediaReady(s: State) {
    s.phase.TransitionId().None? && s.commit.None? && s.welcome.None? && s.proposals == []
  }

  predicate TransitionZeroPending(s: State) {
    s.phase.TransitionId() == Some(0) && Number(s.phase.Protocol().Version()) > 0
  }

  predicate InitialNegotiationPending(s: State) {
    s.send.Version().None? && Number(s.phase.Protocol().Version()) > 0
  }

  predicate SendRequiresDave(s: State) {
    s.send.Dave? || TransitionZeroPending(s) || InitialNegotiationPending(s)
  }

  predicate ReceiveTransformActive(s: State) {
    s.receive.Dave? || TransitionZeroPending(s) || InitialNegotiationPending(s)
  }

  /** The same question answered from the published version numbers only. */
  predicate PublicSendRequiresDave(protocol: Option<u16>, active: Option<u16>, transitionId: Option<u16>) {
    || Number(active) > 0
    || (active.None? && Number(protocol) > 0)
    || (transitionId == Some(0) && Number(protocol) > 0)
  }

  // ----- What every event keeps -----

  ghost predicate Numbered(p: Protocol) {
    p.Dave? ==> p.version != 0
  }

  ghost predicate Tagged(slot: Option<Message>, kind: Kind, s: State) {
    slot.Some? ==>
      slot.value.kind == kind && (s.phase.TransitionId().Some? ==> s.phase.TransitionId().value == slot.value.transitionId)
  }

  ghost predicate Consistent(s: State) {
    && s.send == s.receive
    && (s.phase.Protocol() == Unknown ==> s.send == Unknown)
    && Numbered(s.send) && Numbered(s.phase.Protocol())
    && Tagged(s.commit, Commit, s) && Tagged(s.welcome, Welcome, s)
    && (s.commit.Some? && s.welcome.Some? ==> s.commit.value.transitionId == s.welcome.value.transitionId)
    // Messages that have outlived their transition are held by a plain session only.
    && ((s.commit.Some? || s.welcome.Some?) && s.phase.TransitionId().None? ==> s.phase.Session?)
  }

  lemma ExecuteKeeps(s: State, id: u16)
    requires Consistent(s)
    ensures Consistent(Execute(s, id))
  {
  }

  lemma PrepareKeeps(s: State, id: u16, prepared: u16)
    requires Consistent(s)
    ensures Consistent(Apply(s, Event.PrepareTransition(id, prepared)))
  {
    var kept := if s.phase.TransitionId() != Some(id) then Cleared(s) else s;
    var t := kept.(phase := Prepared(kept.phase, id, FromPrepared(prepared)));
    assert Consistent(t);
    ExecuteKeeps(t, id);
    hide Execute, Consistent;
  }

  lemma SetSessionKeeps(s: State, version: Option<u16>)
    requires Consistent(s)
    ensures Consistent(Apply(s, SetSession(version)))
  {
  }

  lemma PrepareEpochKeeps(s: State, prepared: u16, epoch: u64)
    requires Consistent(s)
    ensures Consistent(Apply(s, Event.PrepareEpoch(prepared, epoch)))
  {
  }

  lemma SetPendingKeeps(s: State, message: Message)
    requires Consistent(s)
    ensures Consistent(Apply(s, SetPending(message)))
  {
  }

  lemma AddProposalKeeps(s: State, payload: seq<byte>)
    requires Consistent(s)
    ensures Consistent(Apply(s, AddProposal(payload)))
  {
  }

  lemma ApplyKeeps(s: State, e: Event)
    requires Consistent(s)
    ensures Consistent(Apply(s, e))
  {
    hide Apply, Consistent;
    match e
    case SetSession(version) => SetSessionKeeps(s, version);
    case PrepareTransition(id, prepared) => PrepareKeeps(s, id, prepared);
    case PrepareEpoch(prepared, epoch) => PrepareEpochKeeps(s, prepared, epoch);
    case ExecuteTransition(id) => ExecuteEventKeeps(s, id);
    case SetPending(message) => SetPendingKeeps(s, message);
    case AddProposal(payload) => AddProposalKeeps(s, payload);
  }

  lemma ExecuteEventKeeps(s: State, id: u16)
    requires Consistent(s)
    ensures Consistent(Apply(s, Event.ExecuteTransition(id)))
  {
    ExecuteKeeps(s, id);
    hide Execute, Consistent;
  }

  /** Media is ready after an execution exactly when no other transition is waiting. */
  lemma ReadyAfterExecution(s: State, id: u16)
    ensures MediaReady(Apply(s, Event.ExecuteTransition(id))) <==>
            s.phase.TransitionId().None? || s.phase.TransitionId() == Some(id)
  {
  }

  /**
   * After any events: send and receive agree, an unknown protocol means unknown media, and all
   * pending messages carry one transition id, which is the phase's own when it has one.
   */
  lemma {:induction false} RunConsistent(events: seq<Event>)
    ensures Consistent(Run(events))
  {
    hide Apply, Consistent;
    if |events| > 0 {
      RunConsistent(events[..|events| - 1]);
      ApplyKeeps(Run(events[..|events| - 1]), events[|events| - 1]);
    } else {
      InitialConsistent();
    }
  }

  lemma InitialConsistent()
    ensures Consistent(INITIAL)
  {
  }

  /** Sending and receiving need DAVE together, and the published state says the same. */
  lemma ViewsAgree(events: seq<Event>)
    ensures
      var s := Run(events);
      && (SendRequiresDave(s) <==> ReceiveTransformActive(s))
      && (SendRequiresDave(s) <==>
          PublicSendRequiresDave(s.phase.Protocol().Version(), s.send.Version(), s.phase.TransitionId()))
  {
    hide Run;
    RunConsistent(events);
  }

  // ----- Leaving DAVE -----

  /** The only two ways out: a session without DAVE, or executing the prepared transport transition. */
  ghost predicate Leaves(s: State, e: Event) {
    || (e.SetSession? && !FromGateway(e.version).Dave?)
    || (e.ExecuteTransition? && s.phase.TransitionId() == Some(e.id) && s.phase.Protocol() == Transport)
  }

  lemma LeavesExactly(s: State, e: Event)
    requires Consistent(s) && s.send.Dave?
    ensures Apply(s, e).send.Dave? <==> !Leaves(s, e)
    ensures SendRequiresDave(Apply(s, e)) <==> !Leaves(s, e)
  {
  }

  /** None of the events after the first `from` leaves DAVE. */
  ghost predicate Stays(events: seq<Event>, from: nat) {
    forall i :: from <= i < |events| ==> !Leaves(Run(events[..i]), events[i])
  }

  /** Once DAVE is active, sending requires it until one of the two events occurs. */
  lemma {:induction false} DaveStays(events: seq<Event>, from: nat)
    requires from <= |events| && Run(events[..from]).send.Dave? && Stays(events, from)
    ensures Run(events).send.Dave? && SendRequiresDave(Run(events))
    decreases |events|
  {
    hide Run, Leaves, Consistent;
    if from == |events| {
      assert events[..from] == events;
    } else {
      var n := |events| - 1;
      var front := events[..n];
      assert front[..from] == events[..from];
      forall i | from <= i < |front|
        ensures !Leaves(Run(front[..i]), front[i])
      {
        assert front[..i] == events[..i];
      }
      DaveStays(front, from);
      RunConsistent(front);
      LeavesExactly(Run(front), events[n]);
      RunSnoc(events);
    }
  }

  lemma RunSnoc(events: seq<Event>)
    requires |events| > 0
    ensures Run(events) == Apply(Run(events[..|events| - 1]), events[|events| - 1])
  {
  }

  /** And it does end there. */
  lemma DaveEnds(events: seq<Event>, e: Event)
    requires Run(events).send.Dave? && Leaves(Run(events), e)
    ensures !SendRequiresDave(Run(events + [e]))
  {
    hide Run, Leaves, Consistent;
    RunConsistent(events);
    LeavesExactly(Run(events), e);
    RunSnoc(events + [e]);
    assert (events + [e])[..|events|] == events;
  }

  // ----- Entering DAVE -----

  /** The only two ways in: executing the prepared DAVE transition, or preparing transition zero of the first epoch. */
  ghost predicate Enters(s: State, e: Event) {
    || (e.ExecuteTransition? && s.phase.TransitionId() == Some(e.id) && s.phase.Protocol().Dave?)
    || (e.PrepareTransition? && e.id == 0 && e.prepared != 0 && s.phase.Epoch() == Some(1))
  }

  /** Without DAVE, one event makes it active exactly if it is one of the two, and with the version that was prepared. */
  lemma EntersExactly(s: State, e: Event)
    requires Consistent(s) && !s.send.Dave?
    ensures Apply(s, e).send.Dave? <==> Enters(s, e)
    ensures Apply(s, e).send == Apply(s, e).receive
    ensures Enters(s, e) && e.ExecuteTransition? ==> Apply(s, e).send == s.phase.Protocol()
    ensures Enters(s, e) && e.PrepareTransition? ==> Apply(s, e).send == Dave(e.prepared)
  {
  }

  /** What is active after an event, in any state: only three kinds of events change it. */
  lemma ActiveAfter(s: State, e: Event)
    requires Consistent(s)
    ensures
      var t := Apply(s, e);
      t.send == t.receive
      == match e
         case SetSession(None) => Unknown
         case SetSession(Some(version)) => if version == 0 then Transport else s.send
         case ExecuteTransition(id) => if s.phase.TransitionId() == Some(id) then s.phase.Protocol() else s.send
         case PrepareTransition(id, version) =>
           if id == 0 && version != 0 && s.phase.Epoch() == Some(1) then Dave(version) else s.send
         case _ => s.send
  {
  }

  /** A transition that is prepared and then executed takes effect in both directions, from every reachable state. */
  lemma PreparedTakesEffect(events: seq<Event>, id: u16, version: u16)
    ensures
      var s := Run(events + [Event.PrepareTransition(id, version)] + [Event.ExecuteTransition(id)]);
      && s.send == s.receive == (if version == 0 then Transport else Dave(version))
      && s.phase.TransitionId() == None && MediaReady(s)
  {
    hide Run, Consistent;
    var first, second := Event.PrepareTransition(id, version), Event.ExecuteTransition(id);
    RunThen(events, first);
    RunThen(events + [first], second);
    RunConsistent(events);
    RunConsistent(events + [first]);
    PhaseAfter(Run(events), first);
    ActiveAfter(Run(events), first);
    ActiveAfter(Run(events + [first]), second);
    ReadyAfterExecution(Run(events + [first]), id);
  }

  lemma RunThen(events: seq<Event>, e: Event)
    ensures Run(events + [e]) == Apply(Run(events), e)
  {
    RunSnoc(events + [e]);
    assert (events + [e])[..|events|] == events;
  }

  // ----- What can be seen of the phase and the pending messages -----

  /** The transition that waits, the negotiated protocol and the epoch with its number of preparations, after any event. */
  lemma PhaseAfter(s: State, e: Event)
    ensures
      var t, zero := Apply(s, e), e.PrepareTransition? && e.id == 0 && e.prepared != 0 && s.phase.Epoch() == Some(1);
      && t.phase.TransitionId()
         == (match e
             case SetSession(_) => None
             case PrepareTransition(id, _) => if zero then None else Some(id)
             case ExecuteTransition(id) => if s.phase.TransitionId() == Some(id) then None else s.phase.TransitionId()
             case SetPending(message) => Some(message.transitionId)
             case _ => s.phase.TransitionId())
      && t.phase.Protocol()
         == (match e
             case SetSession(None) => Unknown
             case SetSession(Some(version)) => if version == 0 then Transport else Dave(version)
             case PrepareTransition(_, version) => if version == 0 then Transport else Dave(version)
             case PrepareEpoch(version, _) => if version == 0 then Transport else Dave(version)
             case _ => s.phase.Protocol())
      && t.phase.Epoch() == (match e case SetSession(_) => None case PrepareEpoch(_, epoch) => Some(epoch) case _ => s.phase.Epoch())
      && t.phase.EpochSeq()
         == (match e
             case SetSession(_) => 0
             case PrepareEpoch(_, _) => if s.phase.EpochSeq() == 0xffff_ffff_ffff_ffff then s.phase.EpochSeq() else s.phase.EpochSeq() + 1
             case _ => s.phase.EpochSeq())
  {
  }

  /** The event makes everything pending obsolete. */
  ghost predicate Drops(s: State, e: Event) {
    match e
    case SetSession(version) => s.phase.Protocol() != FromGateway(version)
    case PrepareTransition(id, version) =>
      s.phase.TransitionId() != Some(id) || (id == 0 && version != 0 && s.phase.Epoch() == Some(1))
    case PrepareEpoch(_, epoch) => epoch == 1 || s.phase.Epoch() != Some(epoch)
    case ExecuteTransition(_) => true
    case SetPending(message) => s.phase.TransitionId() != Some(message.transitionId)
    case AddProposal(_) => false
  }

  /** Pending proposals and messages after any event: kept unless obsolete, and the new one in its place. */
  lemma PendingAfter(s: State, e: Event)
    ensures
      var t, left := Apply(s, e), if Drops(s, e) then State(s.phase, s.send, s.receive, [], None, None) else s;
      && t.proposals == left.proposals + (if e.AddProposal? then [e.payload] else [])
      && t.commit == (if e.SetPending? && e.message.kind.Commit? then Some(e.message) else left.commit)
      && t.welcome == (if e.SetPending? && e.message.kind.Welcome? then Some(e.message) else left.welcome)
  {
  }

  class DaveInternalState {
    var phase: Phase
    var send: Protocol
    var receive: Protocol
    var proposals: seq<seq<byte>>
    var commit: Option<Message>
    var welcome: Option<Message>

    ghost function Value(): State
      reads this
    {
      State(phase, send, receive, proposals, commit, welcome)
    }

    constructor ()
      ensures Value() == INITIAL
    {
      phase, send, receive, proposals, commit, welcome := Blank, Unknown, Unknown, [], None, None;
    }

    method ClearPendingMls()
      modifies this`proposals, this`commit, this`welcome
      ensures Value() == Cleared(old(Value()))
    {
      proposals := [];
      commit, welcome := None, None;
    }

    method SetSessionProtocol(version: Option<u16>)
      modifies this
      ensures Value() == Apply(old(Value()), SetSession(version))
    {
      var protocol := FromGateway(version);
      if phase.Protocol() != protocol {
        ClearPendingMls();
      }
      phase := Session(protocol);
      if !protocol.Dave? {
        send, receive := protocol, protocol;
      }
    }

    method PrepareTransition(id: u16, prepared: u16)
      modifies this
      ensures Value() == Apply(old(Value()), Event.PrepareTransition(id, prepared))
    {
      if phase.TransitionId() != Some(id) {
        ClearPendingMls();
      }
      var protocol := FromPrepared(prepared);
      phase := match phase
        case PreparedEpoch(_, epoch, seqno, _) => PreparedEpoch(protocol, epoch, seqno, Some(id))
        case _ => PreparedTransition(id, protocol);
      if phase.Epoch() == Some(1) && id == 0 && protocol.Dave? {
        ExecuteTransition(id);
      }
    }

    method PrepareEpoch(prepared: u16, epoch: u64)
      modifies this
      ensures Value() == Apply(old(Value()), Event.PrepareEpoch(prepared, epoch))
    {
      var seqno := SaturatingNext(phase.EpochSeq());
      if epoch == 1 || phase.Epoch() != Some(epoch) {
        ClearPendingMls();
      }
      phase := PreparedEpoch(FromPrepared(prepared), epoch, seqno, phase.TransitionId());
    }

    method ExecuteTransition(id: u16)
      modifies this
      ensures Value() == Apply(old(Value()), Event.ExecuteTransition(id))
    {
      if phase.TransitionId() == Some(id) {
        send, receive := phase.Protocol(), phase.Protocol();
        phase := phase.WithoutTransition(id);
      }
      ClearPendingMls();
    }

    method SetPendingMlsMessage(message: Message)
      modifies this
      ensures Value() == Apply(old(Value()), SetPending(message))
    {
      if phase.TransitionId() != Some(message.transitionId) {
        ClearPendingMls();
      }
      phase := phase.WithTransition(message.transitionId);
      match message.kind {
        case Commit => commit := Some(message);
        case Welcome => welcome := Some(message);
      }
    }
  }
}
