/** Annex B byte streams: start codes and the NAL units between them (dave/src/codec.rs). */
module AnnexB {
  import opened Prelude

  const LONG_START_CODE: seq<byte> := [0, 0, 0, 1]

  datatype Nalu = Nalu(start: nat, startCodeLen: nat)

  predicate StartCodeAt(frame: seq<byte>, i: nat) {
    i + 3 <= |frame| && frame[i] == 0 && frame[i + 1] == 0 && frame[i + 2] == 1
  }

  /** The scanner does not look at a start code in the very last three bytes. */
  predicate Visible(frame: seq<byte>, i: nat) {
    i + 3 < |frame| && StartCodeAt(frame, i)
  }

  /** The first visible start code at or after `from`, looked for one position at a time. */
  function FirstCode(frame: seq<byte>, from: nat): (r: Option<nat>)
    ensures r.Some? ==> from <= r.value && Visible(frame, r.value)
    ensures forall i: nat :: from <= i && (r.Some? ==> i < r.value) ==> !Visible(frame, i)
    decreases |frame| - from
  {
    if from + 3 >= |frame| then None
    else if StartCodeAt(frame, from) then Some(from)
    else FirstCode(frame, from + 1)
  }

  lemma FirstCodeIs(frame: seq<byte>, from: nat, i: nat)
    requires from <= i && Visible(frame, i)
    requires forall j: nat :: from <= j < i ==> !Visible(frame, j)
    ensures FirstCode(frame, from) == Some(i)
  {
  }

  /** The NAL unit that starts behind the first visible start code. */
  function NextNalu(frame: seq<byte>, from: nat): (r: Option<Nalu>)
    ensures r.Some? ==> AfterCode(frame, r.value) && from + 3 <= r.value.start
    ensures r.Some? && AfterCode(frame, Nalu(from, 3)) ==> from <= r.value.start - r.value.startCodeLen
  {
    match FirstCode(frame, from)
    case None => None
    case Some(i) => Some(Nalu(i + 3, if i >= 1 && frame[i - 1] == 0 then 4 else 3))
  }

  /** A NAL unit's first byte exists and follows a start code. */
  predicate AfterCode(frame: seq<byte>, nalu: Nalu) {
    3 <= nalu.start < |frame| && StartCodeAt(frame, nalu.start - 3) && 3 <= nalu.startCodeLen <= nalu.start && nalu.startCodeLen <= 4
  }

  /** A byte above one at `index + 2`, or a one that ends no start code, rules out the next three positions. */
  lemma SkipThree(frame: seq<byte>, index: nat)
    requires index + 3 < |frame|
    requires frame[index + 2] > 0 && !StartCodeAt(frame, index)
    ensures FirstCode(frame, index) == FirstCode(frame, index + 3)
  {
    assert FirstCode(frame, index) == FirstCode(frame, index + 1);
    assert FirstCode(frame, index + 1) == FirstCode(frame, index + 2) by {
      assert !StartCodeAt(frame, index + 1);
    }
    assert FirstCode(frame, index + 2) == FirstCode(frame, index + 3) by {
      assert !StartCodeAt(frame, index + 2);
    }
  }

  /** The scan that skips three bytes at a time finds what the naive scan finds. */
  method FindNextNalu(frame: seq<byte>, searchStart: nat) returns (r: Option<Nalu>)
    ensures r == NextNalu(frame, searchStart)
  {
    if |frame| < 3 {
      return None;
    }
    var index := searchStart;
    while index < |frame| - 3
      invariant FirstCode(frame, searchStart) == FirstCode(frame, index)
    {
      if frame[index + 2] > 1 {
        SkipThree(frame, index);
        index := index + 3;
      } else if frame[index + 2] == 1 {
        if frame[index] == 0 && frame[index + 1] == 0 {
          return Some(Nalu(index + 3, if index >= 1 && frame[index - 1] == 0 then 4 else 3));
        }
        SkipThree(frame, index);
        index := index + 3;
      } else {
        index := index + 1;
      }
    }
    return None;
  }

  function NaluEnd(frame: seq<byte>, nalu: Nalu): (end: nat)
    requires AfterCode(frame, nalu)
    ensures nalu.start <= end <= |frame|
  {
    match NextNalu(frame, nalu.start)
    case Some(next) => next.start - next.startCodeLen
    case None => |frame|
  }

  /** The NAL units from `next` on, empty ones included. */
  function UnitsFrom(frame: seq<byte>, next: Option<Nalu>): seq<seq<byte>>
    requires next.Some? ==> AfterCode(frame, next.value)
    decreases if next.Some? then |frame| - next.value.start else 0
  {
    match next
    case None => []
    case Some(nalu) =>
      [frame[nalu.start..NaluEnd(frame, nalu)]] + UnitsFrom(frame, NextNalu(frame, nalu.start))
  }

  function Units(frame: seq<byte>): seq<seq<byte>> {
    UnitsFrom(frame, NextNalu(frame, 0))
  }

  function NonEmpty(units: seq<seq<byte>>): seq<seq<byte>> {
    if units == [] then []
    else if units[0] == [] then NonEmpty(units[1..])
    else [units[0]] + NonEmpty(units[1..])
  }

  /** `AnnexBFrame::nalus`: hands out the non-empty NAL units one by one. */
  class AnnexBNalus {
    const frame: seq<byte>
    var next: Option<Nalu>

    ghost predicate Valid()
      reads this
    {
      next.Some? ==> AfterCode(frame, next.value)
    }

    ghost function Remaining(): seq<seq<byte>>
      requires Valid()
      reads this
    {
      NonEmpty(UnitsFrom(frame, next))
    }

    constructor (frame: seq<byte>)
      ensures Valid() && this.frame == frame && Remaining() == NonEmpty(Units(frame))
    {
      this.frame := frame;
      new;
      next := FindNextNalu(frame, 0);
    }

    predicate IsEmpty()
      reads this
    {
      next.None?
    }

    method Next() returns (r: Option<seq<byte>>)
      requires Valid()
      modifies this
      ensures Valid()
      ensures old(Remaining()) == if r.None? then [] else [r.value] + Remaining()
      ensures r.None? ==> IsEmpty()
    {
      hide NonEmpty, UnitsFrom, NextNalu, NaluEnd, AfterCode;
      while next.Some?
        invariant Valid() && Remaining() == old(Remaining())
        decreases if next.Some? then |frame| - next.value.start else 0
      {
        var nalu := next.value;
        RemainingStep(frame, nalu);
        var following := FindNextNalu(frame, nalu.start);
        var end := if following.Some? then following.value.start - following.value.startCodeLen else |frame|;
        next := following;
        if end > nalu.start {
          return Some(frame[nalu.start..end]);
        }
      }
      RemainingEnd(frame);
      return None;
    }
  }

  lemma RemainingEnd(frame: seq<byte>)
    ensures NonEmpty(UnitsFrom(frame, None)) == []
  {
  }

  lemma RemainingStep(frame: seq<byte>, nalu: Nalu)
    requires AfterCode(frame, nalu)
    ensures var next := NextNalu(frame, nalu.start); var end := NaluEnd(frame, nalu);
            && end == (if next.Some? then next.value.start - next.value.startCodeLen else |frame|)
            && nalu.start <= end <= |frame| && nalu.start < |frame|
            && (next.Some? ==> AfterCode(frame, next.value) && nalu.start < next.value.start && next.value.startCodeLen <= next.value.start)
            && NonEmpty(UnitsFrom(frame, Some(nalu)))
               == (if end > nalu.start then [frame[nalu.start..end]] else []) + NonEmpty(UnitsFrom(frame, next))
  {
    var unit, rest := frame[nalu.start..NaluEnd(frame, nalu)], UnitsFrom(frame, NextNalu(frame, nalu.start));
    assert ([unit] + rest)[1..] == rest;
    assert [] + NonEmpty(rest) == NonEmpty(rest);
  }

  /** The iterator says it is empty exactly when nothing is left: the last NAL unit is never empty. */
  lemma {:induction false} EmptyIffNothingLeft(frame: seq<byte>, next: Option<Nalu>)
    requires next.Some? ==> AfterCode(frame, next.value)
    ensures next.None? <==> NonEmpty(UnitsFrom(frame, next)) == []
    decreases if next.Some? then |frame| - next.value.start else 0
  {
    if next.Some? {
      EmptyIffNothingLeft(frame, NextNalu(frame, next.value.start));
    }
  }

  ghost predicate CodeFree(unit: seq<byte>) {
    forall i: nat :: !StartCodeAt(unit, i)
  }

  ghost predicate Separable(units: seq<seq<byte>>) {
    forall k :: 0 <= k < |units| ==> |units[k]| > 0 && CodeFree(units[k])
  }

  /** Units that can be told apart again: they contain no start code and the last one is not empty. */
  ghost predicate Splittable(units: seq<seq<byte>>) {
    && (forall k :: 0 <= k < |units| ==> CodeFree(units[k]))
    && (units != [] ==> |units[|units| - 1]| > 0)
  }

  /** NAL units written one after the other, each behind the long start code. */
  function Join(units: seq<seq<byte>>): (frame: seq<byte>)
    ensures units != [] ==> LONG_START_CODE <= frame
  {
    if units == [] then [] else LONG_START_CODE + units[0] + Join(units[1..])
  }

  /** A unit followed by further joined units ends exactly where the next long start code begins. */
  lemma NextAfterUnit(frame: seq<byte>, at: nat, unit: seq<byte>, rest: seq<seq<byte>>)
    requires at <= |frame| && frame[at..] == unit + Join(rest)
    requires CodeFree(unit) && (rest != [] ==> |Join(rest)| > 4)
    ensures NextNalu(frame, at) == if rest == [] then None else Some(Nalu(at + |unit| + 4, 4))
    ensures forall nalu :: AfterCode(frame, nalu) && nalu.start == at ==> NaluEnd(frame, nalu) == at + |unit|
  {
    var tail := frame[at..];
    forall i: nat | at <= i < at + |unit| + 1
      ensures !Visible(frame, i)
    {
      UnitHidesCodes(unit, Join(rest), i - at);
      var k := i - at;
      if i + 3 <= |frame| {
        assert frame[i] == tail[k] && frame[i + 1] == tail[k + 1] && frame[i + 2] == tail[k + 2];
      }
    }
    var q := at + |unit| + 1;
    if rest == [] {
      assert forall i: nat :: i >= q ==> !Visible(frame, i);
    } else {
      var j := Join(rest);
      assert j == LONG_START_CODE + rest[0] + Join(rest[1..]);
      assert forall k | 0 <= k < 4 :: frame[at + |unit| + k] == tail[|unit| + k] == j[k];
      assert frame[q] == 0 && frame[q + 1] == 0 && frame[q + 2] == 1 && frame[q - 1] == 0;
      FirstCodeIs(frame, at, q);
    }
  }

  /** No start code begins inside a code-free unit or on the first byte behind it, unless it ends the bytes. */
  lemma UnitHidesCodes(unit: seq<byte>, joined: seq<byte>, i: nat)
    requires CodeFree(unit) && i <= |unit|
    requires joined == [] || LONG_START_CODE <= joined
    ensures !StartCodeAt(unit + joined, i)
  {
    var all := unit + joined;
    if i + 3 <= |unit| {
      assert !StartCodeAt(unit, i);
    } else if joined != [] {
      assert all[|unit|] == joined[0] == 0 && all[|unit| + 1] == joined[1] == 0 && all[|unit| + 2] == joined[2] == 0;
    }
  }

  lemma {:induction false} UnitsOfTail(frame: seq<byte>, nalu: Nalu, units: seq<seq<byte>>)
    requires AfterCode(frame, nalu) && units != [] && Splittable(units)
    requires nalu.start <= |frame| && frame[nalu.start..] == units[0] + Join(units[1..])
    ensures UnitsFrom(frame, Some(nalu)) == units
    decreases |units|
  {
    hide *;
    SplittableParts(units);
    UnitAndRest(frame, nalu.start, units);
    NextAfterUnit(frame, nalu.start, units[0], units[1..]);
    if |units| > 1 {
      UnitsOfTail(frame, Nalu(nalu.start + |units[0]| + 4, 4), units[1..]);
    }
    UnitsStep(frame, nalu, units);
  }

  lemma SplittableParts(units: seq<seq<byte>>)
    requires Splittable(units) && units != []
    ensures CodeFree(units[0]) && Splittable(units[1..]) && |Join(units)| > 4
    ensures |units| > 1 ==> |Join(units[1..])| > 4
  {
    hide CodeFree;
    JoinLong(units);
    if |units| > 1 {
      JoinLong(units[1..]);
    }
  }

  lemma {:induction false} JoinLong(units: seq<seq<byte>>)
    requires units != [] && |units[|units| - 1]| > 0
    ensures |Join(units)| > 4
  {
    if |units| > 1 {
      JoinLong(units[1..]);
    }
  }

  lemma UnitsStep(frame: seq<byte>, nalu: Nalu, units: seq<seq<byte>>)
    requires AfterCode(frame, nalu) && units != []
    requires NaluEnd(frame, nalu) == nalu.start + |units[0]|
    requires frame[nalu.start..NaluEnd(frame, nalu)] == units[0]
    requires |units| == 1 ==> NextNalu(frame, nalu.start).None?
    requires |units| > 1 ==> UnitsFrom(frame, NextNalu(frame, nalu.start)) == units[1..]
    ensures UnitsFrom(frame, Some(nalu)) == units
  {
  }

  lemma UnitAndRest(frame: seq<byte>, at: nat, units: seq<seq<byte>>)
    requires at <= |frame| && units != [] && frame[at..] == units[0] + Join(units[1..])
    ensures at + |units[0]| <= |frame| && frame[at..at + |units[0]|] == units[0]
    ensures |units| > 1 ==>
              var next := at + |units[0]| + 4;
              && next <= |frame| && frame[next..] == units[1..][0] + Join(units[1..][1..])
  {
    var tail, end := frame[at..], at + |units[0]|;
    assert frame[at..end] == tail[..|units[0]|];
    if |units| > 1 {
      assert tail[|units[0]| + 4..] == units[1..][0] + Join(units[1..][1..]);
      assert frame[end + 4..] == tail[|units[0]| + 4..];
    }
  }

  lemma JoinHead(units: seq<seq<byte>>)
    requires units != []
    ensures |Join(units)| >= 4 && Join(units)[4..] == units[0] + Join(units[1..])
  {
  }

  /** Splitting a join of start-code-free units gives back the same units, empty ones included. */
  lemma UnitsOfSplittable(units: seq<seq<byte>>)
    requires Splittable(units)
    ensures Units(Join(units)) == units
  {
    hide Join, NextNalu;
    var frame := Join(units);
    if units != [] {
      SplittableParts(units);
    }
    assert frame[0..] == [] + frame;
    NextAfterUnit(frame, 0, [], units);
    if units != [] {
      JoinHead(units);
      UnitsOfTail(frame, Nalu(4, 4), units);
    }
  }

  /** If none is empty the packetizer sees them all. */
  lemma UnitsOfJoin(units: seq<seq<byte>>)
    requires Separable(units)
    ensures Units(Join(units)) == units == NonEmpty(units)
  {
    hide Join, Units, CodeFree;
    UnitsOfSplittable(units);
    NonEmptyIsAll(units);
  }

  lemma {:induction false} NonEmptyIsAll(units: seq<seq<byte>>)
    requires forall k :: 0 <= k < |units| ==> |units[k]| > 0
    ensures NonEmpty(units) == units
  {
    if units != [] {
      NonEmptyIsAll(units[1..]);
    }
  }

  /** Behind every visible start code a unit begins. */
  lemma {:induction false} UnitBehind(frame: seq<byte>, from: nat, i: nat)
    requires from <= i && Visible(frame, i)
    ensures
      var nalu := Nalu(i + 3, if i >= 1 && frame[i - 1] == 0 then 4 else 3);
      AfterCode(frame, nalu) && frame[i + 3..NaluEnd(frame, nalu)] in UnitsFrom(frame, NextNalu(frame, from))
    decreases i - from
  {
    hide FirstCode, NaluEnd;
    var first := FirstCode(frame, from).value;
    if first < i {
      CodesApart(frame, first, i);
      UnitBehind(frame, first + 3, i);
    }
  }

  lemma CodesApart(frame: seq<byte>, i: nat, j: nat)
    requires i < j && StartCodeAt(frame, i) && StartCodeAt(frame, j)
    ensures i + 3 <= j
  {
  }

  lemma {:induction false} NonEmptyHas(units: seq<seq<byte>>, unit: seq<byte>)
    ensures unit in NonEmpty(units) <==> unit in units && unit != []
  {
    if units != [] {
      NonEmptyHas(units[1..], unit);
    }
  }

  /** Without a visible start code there is no unit. */
  lemma NoCodeNoUnit(frame: seq<byte>)
    requires forall i: nat :: !Visible(frame, i)
    ensures Units(frame) == []
  {
  }
}
