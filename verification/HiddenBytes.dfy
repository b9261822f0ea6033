/**
 * Which bytes of a frame are encrypted (dave/src/frame.rs), told codec by codec from the formats: sections 7.3.1 and 7.4.1
 * of ITU-T H.264 and 7.3.1.2 and 7.4.2.2 of ITU-T H.265, section 5.3 of the AV1 specification, section 9.1 of RFC 6386.
 */
module HiddenBytes {
  import opened Prelude
  import opened Codecs
  import opened Interleave
  import opened FrameProcessor
  import opened FrameCodecs
  import opened AnnexB
  import opened H26xFrame
  import Av1Frame

  // ----- Exp-Golomb numbers (section 9.1 of ITU-T H.264) -----

  predicate BitAt(payload: seq<byte>, at: nat)
    requires at < |payload| * 8
  {
    Bit(payload[at / 8], 7 - at % 8)
  }

  /** Byte `i` is an emulation prevention byte (section 7.4.1 of ITU-T H.264). */
  predicate Escape(payload: seq<byte>, i: nat) {
    2 <= i < |payload| && payload[i] == 3 && payload[i - 1] == 0 && payload[i - 2] == 0
  }

  datatype Prefix = Prefix(zeros: nat, one: nat)

  /** The zero bits from `at` on and where the one behind them is; a prevention byte met at its first bit is passed over. */
  function Leading(payload: seq<byte>, at: nat): (r: Prefix)
    ensures at <= |payload| * 8 ==> r.one <= |payload| * 8
    decreases |payload| * 8 - at
  {
    if at >= |payload| * 8 then Prefix(0, at)
    else if at % 8 == 0 && Escape(payload, at / 8) then Leading(payload, at + 8)
    else if BitAt(payload, at) then Prefix(0, at)
    else
      var rest := Leading(payload, at + 1);
      Prefix(rest.zeros + 1, rest.one)
  }

  /** Where the number at `at` ends: `n` zeros, a one and `n` more bits, of which the last ones may be missing. */
  function NumberEnd(payload: seq<byte>, at: nat): Option<nat> {
    var Prefix(n, one) := Leading(payload, at);
    if one >= |payload| * 8 || n >= 32 then None else Some(one + 1 + n)
  }

  function NumbersEnd(payload: seq<byte>, at: nat, count: nat): Option<nat>
    decreases count
  {
    if count == 0 then Some(at)
    else if NumberEnd(payload, at).None? then None
    else NumbersEnd(payload, NumberEnd(payload, at).value, count - 1)
  }

  /** One turn of the loop. */
  lemma PpsStep(payload: seq<byte>, at: nat, seen: nat, parsed: nat)
    requires parsed < 3 && at <= |payload| * 8 + 32 && seen < 32
    ensures
      PpsBytes(payload, at, seen, parsed)
      == if at >= |payload| * 8 then None
         else if at % 8 == 0 && Escape(payload, at / 8) then PpsBytes(payload, at + 8, seen, parsed)
         else if BitAt(payload, at) then PpsBytes(payload, at + 1 + seen, 0, parsed + 1)
         else if seen == 31 then None
         else PpsBytes(payload, at + 1, seen + 1, parsed)
  {
    hide Bit;
    assert at < |payload| * 8 ==> (EmulationByteAt(payload, at) <==> at % 8 == 0 && Escape(payload, at / 8));
  }

  lemma {:induction false} LeadingCount(payload: seq<byte>, at: nat, seen: nat, parsed: nat)
    requires parsed < 3 && at <= |payload| * 8 && seen < 32
    ensures
      var Prefix(n, one) := Leading(payload, at);
      PpsBytes(payload, at, seen, parsed)
      == if one >= |payload| * 8 || seen + n >= 32 then None
         else PpsBytes(payload, one + 1 + (seen + n), 0, parsed + 1)
    decreases |payload| * 8 - at
  {
    hide PpsBytes, BitAt, Escape;
    PpsStep(payload, at, seen, parsed);
    if at >= |payload| * 8 {
    } else if at % 8 == 0 && Escape(payload, at / 8) {
      LeadingCount(payload, at + 8, seen, parsed);
    } else if !BitAt(payload, at) && seen < 31 {
      LeadingCount(payload, at + 1, seen + 1, parsed);
    }
  }

  lemma PpsEnds(payload: seq<byte>, at: nat)
    requires at <= |payload| * 8 + 32
    ensures PpsBytes(payload, at, 0, 3) == Some(at / 8 + 1)
  {
  }

  /** The loop reads three numbers, one behind the other, and gives the bytes that cover what follows their last bit. */
  lemma {:induction false} PpsReadsNumbers(payload: seq<byte>, at: nat, parsed: nat)
    requires parsed <= 3 && at <= |payload| * 8 + 32
    ensures
      var end := NumbersEnd(payload, at, 3 - parsed);
      PpsBytes(payload, at, 0, parsed) == if end.None? then None else Some(end.value / 8 + 1)
    decreases 3 - parsed
  {
    hide PpsBytes, Leading;
    if parsed == 3 {
      PpsEnds(payload, at);
    } else {
      PpsStep(payload, at, 0, parsed);
      if at <= |payload| * 8 {
        LeadingCount(payload, at, 0, parsed);
      } else {
        NothingLeads(payload, at);
      }
      if NumberEnd(payload, at).Some? {
        PpsReadsNumbers(payload, NumberEnd(payload, at).value, parsed + 1);
      }
    }
  }

  lemma NothingLeads(payload: seq<byte>, at: nat)
    requires at >= |payload| * 8
    ensures Leading(payload, at) == Prefix(0, at)
  {
  }

  /** How many zero bits there are from `at` on. */
  function Zeros(payload: seq<byte>, at: nat): nat
    decreases |payload| * 8 - at
  {
    if at >= |payload| * 8 || BitAt(payload, at) then 0 else 1 + Zeros(payload, at + 1)
  }

  /** Without prevention bytes the numbers are exp-Golomb codes: as many bits behind the one as zeros before it. */
  lemma {:induction false} PlainNumber(payload: seq<byte>, at: nat)
    requires forall i: nat :: !Escape(payload, i)
    ensures
      var n := Zeros(payload, at);
      && Leading(payload, at) == Prefix(n, at + n)
      && NumberEnd(payload, at) == if at + n >= |payload| * 8 || n >= 32 then None else Some(at + 2 * n + 1)
    decreases |payload| * 8 - at
  {
    hide BitAt, Escape;
    if at < |payload| * 8 && !BitAt(payload, at) {
      PlainNumber(payload, at + 1);
    }
  }

  // ----- H264 and H265 -----

  /** A coded slice: types 1 and 5 of H264, types below 32 of H265. */
  predicate Slice(codec: H26x, unit: seq<byte>)
    requires unit != []
  {
    if codec.H264? then unit[0] % 32 == 1 || unit[0] % 32 == 5 else unit[0] / 2 % 64 < 32
  }

  /** The bytes of a slice that stay clear: its header, and for H264 what covers the first three numbers. */
  function SliceHead(codec: H26x, unit: seq<byte>): Option<nat>
    requires unit != []
  {
    if codec.H265? then (if |unit| >= 2 then Some(2) else None)
    else
      match PpsBytes(unit[1..], 0, 0, 0)
      case None => None
      case Some(n) => if 1 + n <= |unit| then Some(1 + n) else None
  }

  /** A unit that can be protected; an empty one is taken for a slice of H265. */
  predicate Coverable(codec: H26x, unit: seq<byte>) {
    if unit == [] then codec.H264? else Slice(codec, unit) ==> SliceHead(codec, unit).Some?
  }

  /** What is hidden of a unit: the rest of a slice, nothing of any other unit. */
  function UnitTail(codec: H26x, unit: seq<byte>): seq<byte>
    requires Coverable(codec, unit)
  {
    if unit == [] || !Slice(codec, unit) then [] else unit[SliceHead(codec, unit).value..]
  }

  function UnitHead(codec: H26x, unit: seq<byte>): seq<byte>
    requires Coverable(codec, unit)
  {
    if unit == [] || !Slice(codec, unit) then unit else unit[..SliceHead(codec, unit).value]
  }

  predicate AllCoverable(codec: H26x, units: seq<seq<byte>>) {
    forall i :: 0 <= i < |units| ==> Coverable(codec, units[i])
  }

  function Tails(codec: H26x, units: seq<seq<byte>>): seq<byte>
    requires AllCoverable(codec, units)
  {
    if units == [] then [] else UnitTail(codec, units[0]) + Tails(codec, units[1..])
  }

  function Heads(codec: H26x, units: seq<seq<byte>>): seq<byte>
    requires AllCoverable(codec, units)
  {
    if units == [] then [] else [0, 0, 0, 1] + UnitHead(codec, units[0]) + Heads(codec, units[1..])
  }

  /** An empty unit is followed at once by the zero of the next start code. */
  lemma EmptyBeforeCode(frame: seq<byte>, nalu: Nalu)
    requires AfterCode(frame, nalu) && NaluEnd(frame, nalu) == nalu.start
    ensures frame[nalu.start] == 0
  {
    var next := NextNalu(frame, nalu.start);
    assert next.Some?;
    var i := FirstCode(frame, nalu.start).value;
    assert StartCodeAt(frame, i);
  }

  /** How much of a unit stays clear, told by the unit alone. */
  lemma ClearOfUnit(codec: H26x, frame: seq<byte>, nalu: Nalu)
    requires AfterCode(frame, nalu)
    ensures
      var unit := frame[nalu.start..NaluEnd(frame, nalu)];
      ClearBytes(codec, frame, nalu.start, NaluEnd(frame, nalu))
      == if Coverable(codec, unit) then Some(|UnitHead(codec, unit)|) else None
  {
    hide PpsBytes, NextNalu;
    var end := NaluEnd(frame, nalu);
    var unit := frame[nalu.start..end];
    if unit == [] {
      EmptyBeforeCode(frame, nalu);
    } else {
      assert unit[0] == frame[nalu.start];
    }
  }

  lemma HeadAndTail(codec: H26x, unit: seq<byte>)
    requires Coverable(codec, unit)
    ensures UnitHead(codec, unit) + UnitTail(codec, unit) == unit
  {
  }

  /** The units still to come, laid out behind what is there, hide exactly their tails. */
  lemma {:induction false} HiddenFrom(codec: H26x, frame: seq<byte>, next: Option<Nalu>, laid: seq<byte>, ranges: seq<Range>)
    requires next.Some? ==> AfterCode(frame, next.value)
    requires Placed(ranges, |laid|) && Coalesced(ranges)
    ensures
      var kept := KeptFrom(frame, next);
      RangesFrom(codec, frame, next, |laid|, ranges).Some? <==> AllCoverable(codec, kept)
    ensures
      var kept := KeptFrom(frame, next);
      AllCoverable(codec, kept) ==>
        var all, final := laid + Join(kept), RangesFrom(codec, frame, next, |laid|, ranges).value;
        && Placed(final, |all|)
        && Hidden(all, final) == Hidden(laid, ranges) + Tails(codec, kept)
        && Clear(all, final) == Clear(laid, ranges) + Heads(codec, kept)
    decreases if next.Some? then |frame| - next.value.start else 0
  {
    hide Placed, Coalesced, Clear, Hidden, Extended, NextNalu, NaluEnd, AfterCode, Coverable, UnitTail, UnitHead, ClearBytes,
         RangesFrom, KeptFrom, Join;
    if next.None? || next.value.start >= |frame| - 1 {
      NothingKept(codec, frame, next, laid, ranges);
    } else {
      var nalu := next.value;
      UnitBounds(frame, nalu);
      var unit, following := frame[nalu.start..NaluEnd(frame, nalu)], NextNalu(frame, nalu.start);
      RangesStep(codec, frame, nalu, |laid|, ranges);
      ClearOfUnit(codec, frame, nalu);
      KeptStepIs(frame, nalu);
      var rest := KeptFrom(frame, following);
      CoverableCons(codec, unit, rest);
      if Coverable(codec, unit) {
        UnitHidden(codec, unit, laid, ranges);
        var coded := laid + LONG_START_CODE + unit;
        var wider := Extended(Extended(ranges, |laid|, 4), |laid| + 4, |UnitHead(codec, unit)|);
        HiddenFrom(codec, frame, following, coded, wider);
        if AllCoverable(codec, rest) {
          ConsParts(codec, unit, rest, laid);
          Associate(Hidden(laid, ranges), UnitTail(codec, unit), Tails(codec, rest));
          Associate(Clear(laid, ranges), [0, 0, 0, 1] + UnitHead(codec, unit), Heads(codec, rest));
        }
      }
    }
  }

  lemma NothingKept(codec: H26x, frame: seq<byte>, next: Option<Nalu>, laid: seq<byte>, ranges: seq<Range>)
    requires next.Some? ==> AfterCode(frame, next.value)
    requires (next.None? || next.value.start >= |frame| - 1) && Placed(ranges, |laid|)
    ensures KeptFrom(frame, next) == [] && RangesFrom(codec, frame, next, |laid|, ranges) == Some(ranges)
    ensures AllCoverable(codec, []) && Tails(codec, []) == [] && Heads(codec, []) == [] && laid + Join([]) == laid
    ensures Hidden(laid, ranges) + [] == Hidden(laid, ranges) && Clear(laid, ranges) + [] == Clear(laid, ranges)
  {
  }

  lemma KeptStepIs(frame: seq<byte>, nalu: Nalu)
    requires AfterCode(frame, nalu) && nalu.start < |frame| - 1
    ensures
      var next := NextNalu(frame, nalu.start);
      && (next.Some? ==> AfterCode(frame, next.value) && nalu.start < next.value.start)
      && KeptFrom(frame, Some(nalu)) == [frame[nalu.start..NaluEnd(frame, nalu)]] + KeptFrom(frame, next)
  {
  }

  lemma CoverableCons(codec: H26x, unit: seq<byte>, rest: seq<seq<byte>>)
    ensures AllCoverable(codec, [unit] + rest) <==> Coverable(codec, unit) && AllCoverable(codec, rest)
  {
    hide Coverable;
    var all := [unit] + rest;
    if AllCoverable(codec, all) {
      assert all[0] == unit;
      forall i | 0 <= i < |rest|
        ensures Coverable(codec, rest[i])
      {
        assert all[i + 1] == rest[i];
      }
    }
  }

  lemma ConsParts(codec: H26x, unit: seq<byte>, rest: seq<seq<byte>>, laid: seq<byte>)
    requires AllCoverable(codec, [unit] + rest) && Coverable(codec, unit) && AllCoverable(codec, rest)
    ensures Tails(codec, [unit] + rest) == UnitTail(codec, unit) + Tails(codec, rest)
    ensures Heads(codec, [unit] + rest) == [0, 0, 0, 1] + UnitHead(codec, unit) + Heads(codec, rest)
    ensures laid + Join([unit] + rest) == laid + LONG_START_CODE + unit + Join(rest)
  {
    hide UnitTail, UnitHead, Coverable;
    assert ([unit] + rest)[1..] == rest;
    Associate(laid, LONG_START_CODE, unit);
    Associate(laid, LONG_START_CODE + unit, Join(rest));
  }

  lemma UnitHidden(codec: H26x, unit: seq<byte>, laid: seq<byte>, ranges: seq<Range>)
    requires Coverable(codec, unit) && Placed(ranges, |laid|) && Coalesced(ranges)
    ensures
      var coded := laid + LONG_START_CODE + unit;
      var wider := Extended(Extended(ranges, |laid|, 4), |laid| + 4, |UnitHead(codec, unit)|);
      && Placed(wider, |coded|) && Coalesced(wider)
      && Hidden(coded, wider) == Hidden(laid, ranges) + UnitTail(codec, unit)
      && Clear(coded, wider) == Clear(laid, ranges) + ([0, 0, 0, 1] + UnitHead(codec, unit))
  {
    hide Placed, Coalesced, Clear, Hidden, Extended, Coverable, UnitTail, UnitHead;
    var head, tail := UnitHead(codec, unit), UnitTail(codec, unit);
    var started := laid + LONG_START_CODE;
    var first := Extended(ranges, |laid|, 4);
    ExtendedKeeps(laid, ranges, LONG_START_CODE);
    ExtendedKeeps(started, first, head);
    AppendHidden(started + head, Extended(first, |laid| + 4, |head|), tail);
    HeadAndTail(codec, unit);
    assert started + head + tail == started + unit;
    Associate(Clear(laid, ranges), LONG_START_CODE, head);
  }

  /**
   * H264 and H265: a frame is processed exactly if it is long enough, shows a start code and every slice has a head; then the
   * hidden bytes are the rests of the slices, one after the other, and everything else is clear.
   */
  lemma H26xHidden(codec: H26x, frame: seq<byte>)
    ensures Ranges(codec, frame).Some? <==>
              && |frame| >= (if codec.H264? then 4 else 5) && (exists i: nat :: Visible(frame, i))
              && AllCoverable(codec, Kept(frame))
    ensures Ranges(codec, frame).Some? ==>
              var laid, ranges := Join(Kept(frame)), Ranges(codec, frame).value;
              && Placed(ranges, |laid|) && AllCoverable(codec, Kept(frame))
              && Hidden(laid, ranges) == Tails(codec, Kept(frame)) && Clear(laid, ranges) == Heads(codec, Kept(frame))
  {
    hide Placed, Coalesced, RangesFrom, KeptFrom, Join, AllCoverable, Tails, Heads, Visible;
    var next := NextNalu(frame, 0);
    CodeOrNone(frame);
    NothingLaid();
    HiddenFrom(codec, frame, next, [], []);
    var kept := KeptFrom(frame, next);
    assert [] + Join(kept) == Join(kept);
    if AllCoverable(codec, kept) {
      assert [] + Tails(codec, kept) == Tails(codec, kept) && [] + Heads(codec, kept) == Heads(codec, kept);
    }
  }

  lemma CodeOrNone(frame: seq<byte>)
    ensures NextNalu(frame, 0).Some? <==> exists i: nat :: Visible(frame, i)
  {
    if NextNalu(frame, 0).Some? {
      assert Visible(frame, FirstCode(frame, 0).value);
    }
  }

  lemma NothingLaid()
    ensures Placed([], 0) && Coalesced([]) && Hidden<byte>([], []) == [] && Clear<byte>([], []) == []
  {
  }

  // ----- AV1 -----

  /** The payloads of all OBUs but temporal delimiters, tile lists and padding. */
  function Payloads(obus: seq<Av1Frame.Obu>): seq<byte> {
    if obus == [] then []
    else
      var t := obus[0].header / 8 % 16;
      (if t == 2 || t == 8 || t == 15 then [] else obus[0].payload) + Payloads(obus[1..])
  }

  lemma {:induction false} Av1HiddenFrom(bytes: seq<byte>, laid: seq<byte>, ranges: seq<Range>)
    requires |bytes| <= ISIZE_MAX && Av1Frame.Rewrite(bytes).Some? && Placed(ranges, |laid|) && Coalesced(ranges)
    ensures Av1Frame.ReadObus(bytes).Some?
    ensures
      var all, final := laid + Av1Frame.Rewrite(bytes).value, Av1Frame.RangesFrom(bytes, |laid|, ranges);
      Placed(final, |all|) && Hidden(all, final) == Hidden(laid, ranges) + Payloads(Av1Frame.ReadObus(bytes).value)
    decreases |bytes|
  {
    hide Placed, Coalesced, Clear, Hidden, Extended, Av1Frame.OneObu, Av1Frame.LaidHead;
    if bytes == [] {
      assert laid + [] == laid && Hidden(laid, ranges) + [] == Hidden(laid, ranges);
    } else {
      var step := Av1Frame.OneObu(bytes).value;
      Av1Frame.StepWellFormed(bytes);
      var done := Av1Frame.Laid(step);
      if Av1Frame.Dropped(step.obu.Type()) {
        Av1HiddenFrom(step.rest, laid, ranges);
        assert laid + ([] + Av1Frame.Rewrite(step.rest).value) == laid + Av1Frame.Rewrite(step.rest).value;
        PayloadsCons(step.obu, Av1Frame.ReadObus(step.rest).value);
      } else {
        var head, payload := Av1Frame.LaidHead(step), step.obu.payload;
        ExtendedKeeps(laid, ranges, head);
        AppendHidden(laid + head, Extended(ranges, |laid|, |head|), payload);
        Associate(laid, head, payload);
        Av1HiddenFrom(step.rest, laid + done, Extended(ranges, |laid|, |head|));
        var rest := Av1Frame.ReadObus(step.rest).value;
        Associate(laid, done, Av1Frame.Rewrite(step.rest).value);
        Associate(Hidden(laid, ranges), payload, Payloads(rest));
        PayloadsCons(step.obu, rest);
      }
    }
  }

  lemma PayloadsCons(obu: Av1Frame.Obu, rest: seq<Av1Frame.Obu>)
    ensures Payloads([obu] + rest) == (if Av1Frame.Dropped(obu.Type()) then [] else obu.payload) + Payloads(rest)
    ensures Av1Frame.Dropped(obu.Type()) ==> Payloads([obu] + rest) == Payloads(rest)
  {
    assert ([obu] + rest)[1..] == rest;
    assert [] + Payloads(rest) == Payloads(rest);
  }

  // ----- Any codec -----

  /** VP8: a key frame, told by its lowest bit, shows its ten-byte header; any other frame its first byte. */
  function Vp8Tail(frame: seq<byte>): seq<byte> {
    if frame == [] then []
    else if frame[0] % 2 == 0 then (if |frame| < 10 then frame else frame[10..])
    else frame[1..]
  }

  /** What is hidden of a frame: everything, unless its format says otherwise. */
  ghost function Secret(codec: Codec, frame: seq<byte>): seq<byte>
    requires |frame| <= ISIZE_MAX
  {
    match codec
    case Opus => frame
    case Vp9 => frame
    case Vp8 => Vp8Tail(frame)
    case H264 => H26xSecret(H26x.H264, frame)
    case H265 => H26xSecret(H26x.H265, frame)
    case Av1 =>
      if Av1Frame.Rewrite(frame).Some? && Av1Frame.ReadObus(frame).Some? then Payloads(Av1Frame.ReadObus(frame).value) else frame
  }

  ghost function H26xSecret(codec: H26x, frame: seq<byte>): seq<byte> {
    if |frame| >= (if codec.H264? then 4 else 5) && (exists i: nat :: Visible(frame, i)) && AllCoverable(codec, Kept(frame))
    then Tails(codec, Kept(frame)) else frame
  }

  lemma HiddenWhole(frame: seq<byte>)
    ensures Placed([], |frame|) && Hidden(frame, []) == frame
  {
  }

  /** Every codec: the hidden bytes of the layout are exactly the secret ones. */
  lemma HidesSecret(codec: Codec, frame: seq<byte>)
    requires |frame| <= ISIZE_MAX
    ensures
      var layout := FrameLayout(codec, frame);
      Placed(layout.ranges, |layout.laid|) && Hidden(layout.laid, layout.ranges) == Secret(codec, frame)
  {
    hide Placed, Hidden, Ranges, Join, Kept, AllCoverable, Tails, Heads, Av1Frame.Rewrite, Av1Frame.RangesFrom,
         Av1Frame.ReadObus, Payloads, Coalesced, Visible;
    HiddenWhole(frame);
    match codec
    case Opus =>
    case Vp9 =>
    case Vp8 => Vp8Hidden(frame);
    case H264 => H26xHidden(H26x.H264, frame);
    case H265 => H26xHidden(H26x.H265, frame);
    case Av1 =>
      if Av1Frame.Rewrite(frame).Some? {
        NothingLaid();
        Av1HiddenFrom(frame, [], []);
        assert [] + Av1Frame.Rewrite(frame).value == Av1Frame.Rewrite(frame).value;
        assert [] + Payloads(Av1Frame.ReadObus(frame).value) == Payloads(Av1Frame.ReadObus(frame).value);
      }
  }

  lemma Vp8Hidden(frame: seq<byte>)
    ensures Vp8ClearBytes(frame).Some? ==>
              var ranges := [Range(0, Vp8ClearBytes(frame).value)];
              Placed(ranges, |frame|) && Hidden(frame, ranges) == Vp8Tail(frame)
    ensures Vp8ClearBytes(frame).None? ==> Vp8Tail(frame) == frame
  {
    if Vp8ClearBytes(frame).Some? {
      var n := Vp8ClearBytes(frame).value;
      assert Front([Range(0, n)]) == [];
      assert Hidden(frame[..0], []) == [];
      assert [] + frame[n..] == frame[n..];
    }
  }
}
