/** The replay window over unwrapped nonces (dave/src/ratchet.rs). */
module Replay {
  import opened Prelude

  const MAX_MISSING_NONCES: nat := 1000

  // ----- What the window promises, as a function of the frames accepted so far -----

  function Newest(log: seq<nat>): (m: nat)
    requires log != []
    ensures m in log && forall i :: 0 <= i < |log| ==> log[i] <= m
  {
    if |log| == 1 then log[0] else
    var rest := Newest(log[..|log| - 1]);
    if log[|log| - 1] > rest then log[|log| - 1] else rest
  }

  /**
    * A nonce may still be accepted when nothing was, when it is newer than everything, or when it is
    * unseen, newer than the first accepted nonce and at most 1000 behind the newest.
    */
  predicate Processable(log: seq<nat>, nonce: nat) {
    || log == []
    || nonce > Newest(log)
    || (nonce !in log && nonce > log[0] && nonce + MAX_MISSING_NONCES >= Newest(log))
  }

  /** A history in which every nonce was processable when it was accepted. */
  predicate Run(log: seq<nat>) {
    forall i :: 0 <= i < |log| ==> Processable(log[..i], log[i])
  }

  lemma RunGrows(log: seq<nat>, nonce: nat)
    requires Run(log) && Processable(log, nonce)
    ensures Run(log + [nonce])
  {
    var all := log + [nonce];
    forall i | 0 <= i < |all|
      ensures Processable(all[..i], all[i])
    {
      assert all[..i] == log[..i];
      if i == |log| {
        assert log[..i] == log;
      }
    }
  }

  /** No nonce is ever accepted twice, in any run. */
  lemma NeverTwice(log: seq<nat>, i: nat, j: nat)
    requires Run(log) && i < j < |log|
    ensures log[i] != log[j]
  {
    assert Processable(log[..j], log[j]);
    assert log[..j][i] == log[i];
  }

  /** Every accepted nonce is at least the first one. */
  lemma FirstIsOldest(log: seq<nat>, i: nat)
    requires Run(log) && i < |log|
    ensures log[0] <= log[i]
  {
    if i > 0 {
      assert Processable(log[..i], log[i]);
      assert log[..i][0] == log[0] && log[0] <= Newest(log[..i]);
    }
  }

  // ----- The window itself -----

  /** The nonces the window has to remember after `log`. */
  ghost function Missing(log: seq<nat>): set<nat> {
    if log == [] then {} else
    set x: nat | x < Newest(log) && log[0] < x && x + MAX_MISSING_NONCES >= Newest(log) && x !in log
  }

  /** The window after the newest nonce moved from `newest` on to `nonce`. */
  ghost function Advanced(members: set<nat>, newest: nat, nonce: nat): set<nat> {
    set x: nat | x < nonce && x + MAX_MISSING_NONCES >= nonce && (x in members || newest < x)
  }

  ghost predicate Increasing(s: seq<nat>) {
    forall i, j :: 0 <= i < j < |s| ==> s[i] < s[j]
  }

  lemma {:induction false} IncreasingSpan(s: seq<nat>, i: nat)
    requires Increasing(s) && i < |s|
    ensures s[0] + i <= s[i]
  {
    if i > 0 {
      IncreasingSpan(s, i - 1);
    }
  }

  lemma {:induction false} ElementsBound(s: seq<nat>, members: set<nat>)
    requires forall x :: x in members ==> x in s
    ensures |members| <= |s|
    decreases |s|
  {
    if s == [] {
      assert members == {};
    } else {
      var last := s[|s| - 1];
      ElementsBound(s[..|s| - 1], members - {last});
    }
  }

  /** Removal is lazy: a removed nonce stays in `order` until it is pruned. */
  class MissingNonceWindow {
    var order: seq<nat>
    var members: set<nat>

    ghost predicate Valid()
      reads this
    {
      Increasing(order) && forall x :: x in members ==> x in order
    }

    constructor ()
      ensures Valid() && order == [] && members == {}
    {
      order, members := [], {};
    }

    predicate Contains(nonce: nat)
      reads this
    {
      nonce in members
    }

    method Remove(nonce: nat)
      requires Valid()
      modifies this`members
      ensures Valid() && members == old(members) - {nonce}
    {
      members := members - {nonce};
    }

    method PruneBefore(oldest: nat)
      requires Valid()
      modifies this
      ensures Valid()
      ensures members == set x | x in old(members) && x >= oldest
      ensures forall x :: x in order ==> x in old(order) && x >= oldest
    {
      while order != [] && order[0] < oldest
        invariant Valid()
        invariant forall x :: x in order ==> x in old(order)
        invariant forall x :: x in members ==> x in old(members)
        invariant forall x :: x in old(members) && x >= oldest ==> x in members
        decreases |order|
      {
        var nonce := order[0];
        order := order[1..];
        members := members - {nonce};
      }
    }

    /** A member already there stays where it is; the order stays increasing if the nonce is the newest. */
    method PushBack(nonce: nat)
      requires Valid()
      modifies this
      ensures members == old(members) + {nonce}
      ensures order == if nonce in old(members) then old(order) else old(order) + [nonce]
      ensures (forall x :: x in old(order) ==> x < nonce) ==> Valid()
    {
      if nonce !in members {
        members := members + {nonce};
        order := order + [nonce];
        assert forall i :: 0 <= i < |order| - 1 ==> order[i] in old(order);
      }
    }

    /** At most 1000 nonces are kept, and no more are queued for pruning. */
    lemma Bounded(newest: nat)
      requires Valid()
      requires forall x :: x in order ==> x < newest && x + MAX_MISSING_NONCES >= newest
      ensures |members| <= |order| <= MAX_MISSING_NONCES
    {
      ElementsBound(order, members);
      if order != [] {
        IncreasingSpan(order, |order| - 1);
        assert order[0] in order && order[|order| - 1] in order;
      }
    }
  }

  /** What the window keeps stands for the whole history. */
  ghost predicate Stands(log: seq<nat>, newest: Option<nat>, members: set<nat>, order: seq<nat>) {
    && Run(log)
    && newest == (if log == [] then None else Some(Newest(log)))
    && members == Missing(log)
    && (log == [] ==> order == [])
    && (log != [] ==> forall x :: x in order ==> x < Newest(log) && x + MAX_MISSING_NONCES >= Newest(log))
  }

  lemma NewestKept(log: seq<nat>, newest: Option<nat>, members: set<nat>, order: seq<nat>)
    requires Stands(log, newest, members, order)
    ensures newest.None? ==> log == [] && order == []
    ensures newest.Some? ==>
              && log != [] && newest.value == Newest(log)
              && forall x :: x in order ==> x < newest.value && x + MAX_MISSING_NONCES >= newest.value
  {
    hide Newest, Run, Missing;
  }

  lemma StandsFirst(log: seq<nat>, members: set<nat>, order: seq<nat>, nonce: nat)
    requires Stands(log, None, members, order)
    ensures Stands(log + [nonce], Some(nonce), members, order)
  {
    hide Newest, Run, Missing;
    assert Processable(log, nonce);
    RunGrows(log, nonce);
    AppendNewest(log, nonce);
    MissingFirst(nonce);
  }

  lemma StandsAdvance(log: seq<nat>, newest: nat, members: set<nat>, order: seq<nat>, nonce: nat, after: seq<nat>)
    requires Stands(log, Some(newest), members, order) && nonce > newest
    requires forall x :: x in after ==> x < nonce && x + MAX_MISSING_NONCES >= nonce
    ensures Stands(log + [nonce], Some(nonce), Advanced(members, newest, nonce), after)
  {
    hide Newest, Run, Missing, Advanced;
    assert Processable(log, nonce);
    RunGrows(log, nonce);
    AppendNewest(log, nonce);
    MissingAdvance(log, nonce);
  }

  lemma StandsRemove(log: seq<nat>, newest: nat, members: set<nat>, order: seq<nat>, nonce: nat)
    requires Stands(log, Some(newest), members, order) && nonce <= newest && Processable(log, nonce)
    ensures Stands(log + [nonce], Some(newest), members - {nonce}, order)
  {
    hide Newest, Run, Missing;
    NotSeen(log, nonce);
    RunGrows(log, nonce);
    AppendNewest(log, nonce);
    MissingRemove(log, nonce);
  }

  /** The receiver's window with the history of what it accepted. */
  class ReplayWindow {
    var newestNonce: Option<nat>
    const missing: MissingNonceWindow
    ghost var log: seq<nat>

    ghost predicate Valid()
      reads this, missing
    {
      missing.Valid() && Stands(log, newestNonce, missing.members, missing.order)
    }

    constructor ()
      ensures Valid() && log == [] && fresh(missing)
    {
      newestNonce := None;
      missing := new MissingNonceWindow();
      log := [];
    }

    /** `can_process_nonce`: exact with respect to the whole history. */
    method CanProcess(nonce: nat) returns (ok: bool)
      requires Valid()
      ensures ok <==> Processable(log, nonce)
      ensures log != [] ==> (ok <==> nonce > Newest(log) || (nonce !in log && nonce > log[0] && nonce + 1000 >= Newest(log)))
    {
      hide Newest, Run, Increasing;
      ok := newestNonce.None? || nonce > newestNonce.value || missing.Contains(nonce);
    }

    /** The nonce part of `report_success`. */
    method Accept(nonce: nat)
      requires Valid() && Processable(log, nonce)
      modifies this, missing
      ensures Valid() && log == old(log) + [nonce]
      ensures |missing.members| <= |missing.order| <= MAX_MISSING_NONCES
    {
      hide Newest, Increasing, Processable, Advanced, Stands, MissingNonceWindow.Valid;
      ghost var before, order := log, missing.order;
      NewestKept(log, newestNonce, missing.members, missing.order);
      if newestNonce.None? {
        StandsFirst(log, missing.members, order, nonce);
        newestNonce := Some(nonce);
      } else if nonce > newestNonce.value {
        var newest := newestNonce.value;
        ghost var members := missing.members;
        AdvanceWindow(nonce, newest);
        StandsAdvance(before, newest, members, order, nonce, missing.order);
        newestNonce := Some(nonce);
      } else {
        StandsRemove(log, newestNonce.value, missing.members, order, nonce);
        missing.Remove(nonce);
      }
      log := log + [nonce];
      NewestKept(log, newestNonce, missing.members, missing.order);
      missing.Bounded(newestNonce.value);
    }

    /** Prunes what fell out of the window and records the skipped nonces. */
    method AdvanceWindow(nonce: nat, newest: nat)
      requires missing.Valid() && newest < nonce
      requires forall x :: x in missing.order ==> x < newest
      modifies missing
      ensures missing.Valid()
      ensures forall x :: x in missing.order ==> x < nonce && x + MAX_MISSING_NONCES >= nonce
      ensures missing.members == Advanced(old(missing.members), newest, nonce)
    {
      var oldestMissing := if nonce >= MAX_MISSING_NONCES then nonce - MAX_MISSING_NONCES else 0;
      missing.PruneBefore(oldestMissing);
      ghost var kept := missing.members;
      var from := if oldestMissing > newest + 1 then oldestMissing else newest + 1;
      for m := from to nonce
        invariant missing.Valid()
        invariant forall x :: x in missing.order ==> oldestMissing <= x < m
        invariant forall x :: x in missing.members <==> x in kept || from <= x < m
      {
        missing.PushBack(m);
      }
      assert forall x :: x in old(missing.members) ==> x in old(missing.order);
    }
  }

  lemma AppendNewest(log: seq<nat>, nonce: nat)
    ensures log + [nonce] != []
    ensures Newest(log + [nonce]) == if log != [] && Newest(log) > nonce then Newest(log) else nonce
  {
    assert (log + [nonce])[..|log|] == log;
  }

  lemma NotSeen(log: seq<nat>, nonce: nat)
    requires Processable(log, nonce)
    ensures nonce !in log
  {
  }

  lemma MissingFirst(nonce: nat)
    ensures Missing([] + [nonce]) == Missing([]) == {}
  {
  }

  lemma MissingAdvance(log: seq<nat>, nonce: nat)
    requires Run(log) && log != [] && nonce > Newest(log)
    ensures Missing(log + [nonce])
         == Advanced(Missing(log), Newest(log), nonce)
  {
    hide Newest, Run;
    AppendNewest(log, nonce);
    var all := log + [nonce];
    assert log[0] <= Newest(log) && all[0] == log[0];
    assert forall x :: x in all <==> x in log || x == nonce;
  }

  lemma MissingRemove(log: seq<nat>, nonce: nat)
    requires log != [] && nonce <= Newest(log) && nonce !in log
    ensures Missing(log + [nonce]) == Missing(log) - {nonce}
  {
    hide Newest;
    AppendNewest(log, nonce);
    assert forall x :: x in log + [nonce] <==> x in log || x == nonce;
  }
}
