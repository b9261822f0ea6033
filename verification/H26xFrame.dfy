/** H264 and H265 frames: what stays clear, and why encryption keeps the NAL boundaries (dave/src/frame.rs). */
module H26xFrame {
  import opened Prelude
  import opened Interleave
  import opened FrameProcessor
  import opened AnnexB

  datatype H26x = H264 | H265

  function NalHeaderBytes(codec: H26x): nat {
    match codec
    case H264 => 1
    case H265 => 2
  }

  function NalType(codec: H26x, header: byte): nat {
    match codec
    case H264 => header % 32
    case H265 => header / 2 % 64
  }

  /** Slices are encrypted: types 1 and 5 in H264, every VCL type in H265. */
  predicate EncryptsPayload(codec: H26x, nalType: nat) {
    match codec
    case H264 => nalType == 1 || nalType == 5
    case H265 => nalType < 32
  }

  // ----- What the processor lays out -----

  /** The units the processor keeps: all but a final one of a single byte. */
  function KeptFrom(frame: seq<byte>, next: Option<Nalu>): seq<seq<byte>>
    requires next.Some? ==> AfterCode(frame, next.value)
    decreases if next.Some? then |frame| - next.value.start else 0
  {
    if next.None? || next.value.start >= |frame| - 1 then [] else
    [frame[next.value.start..NaluEnd(frame, next.value)]] + KeptFrom(frame, NextNalu(frame, next.value.start))
  }

  function Kept(frame: seq<byte>): seq<seq<byte>> {
    KeptFrom(frame, NextNalu(frame, 0))
  }

  /** Kept units are the frame's units, save a last one of one byte. */
  lemma {:induction false} KeptIsUnits(frame: seq<byte>, next: Option<Nalu>)
    requires next.Some? ==> AfterCode(frame, next.value)
    ensures var units := UnitsFrom(frame, next);
            if units != [] && |units[|units| - 1]| == 1
            then KeptFrom(frame, next) == units[..|units| - 1] else KeptFrom(frame, next) == units
    decreases if next.Some? then |frame| - next.value.start else 0
  {
    if next.Some? {
      var nalu := next.value;
      var following := NextNalu(frame, nalu.start);
      KeptIsUnits(frame, following);
      var unit, rest := frame[nalu.start..NaluEnd(frame, nalu)], UnitsFrom(frame, following);
      assert UnitsFrom(frame, next) == [unit] + rest;
      if rest != [] {
        assert ([unit] + rest)[..|rest|] == [unit] + rest[..|rest| - 1];
      }
    }
  }

  /** `[i, i + n)` lies inside one range. */
  ghost predicate Covers(ranges: seq<Range>, i: nat, n: nat) {
    exists k :: 0 <= k < |ranges| && ranges[k].offset <= i && i + n <= ranges[k].End()
  }

  ghost predicate LongAt(laid: seq<byte>, at: nat) {
    at + 4 <= |laid| && laid[at] == 0 && laid[at + 1] == 0 && laid[at + 2] == 0 && laid[at + 3] == 1
  }

  /** Every range opens with a long start code. */
  ghost predicate OpenWithCode(laid: seq<byte>, ranges: seq<Range>) {
    forall k :: 0 <= k < |ranges| ==> ranges[k].len >= 4 && LongAt(laid, ranges[k].offset)
  }

  /** Every start code that ends `slack` bytes before the end is wholly clear. */
  ghost predicate CodesClear(laid: seq<byte>, ranges: seq<Range>, slack: nat) {
    forall i: nat :: i + 3 + slack <= |laid| && StartCodeAt(laid, i) ==> Covers(ranges, i, 3)
  }

  ghost predicate NalSafe(laid: seq<byte>, ranges: seq<Range>, slack: nat) {
    OpenWithCode(laid, ranges) && CodesClear(laid, ranges, slack)
  }

  lemma ExtendedCovers(ranges: seq<Range>, at: nat, m: nat, i: nat, n: nat)
    requires m > 0
    requires Covers(ranges, i, n) || (at <= i && i + n <= at + m)
    ensures Covers(Extended(ranges, at, m), i, n)
  {
    var wider := Extended(ranges, at, m);
    if Covers(ranges, i, n) {
      var k :| 0 <= k < |ranges| && ranges[k].offset <= i && i + n <= ranges[k].End();
      assert wider[k].offset <= i && i + n <= wider[k].End();
    } else {
      var k := |wider| - 1;
      assert wider[k].offset <= i && i + n <= wider[k].End();
    }
  }

  lemma StaysPut(laid: seq<byte>, more: seq<byte>, at: nat)
    ensures LongAt(laid, at) ==> LongAt(laid + more, at)
    ensures at + 3 <= |laid| ==> StartCodeAt(laid + more, at) == StartCodeAt(laid, at)
  {
  }

  /** Clear bytes that either continue the last range or begin with a long start code leave every range opening with one. */
  lemma OpenExtended(laid: seq<byte>, ranges: seq<Range>, more: seq<byte>)
    requires OpenWithCode(laid, ranges)
    requires (ranges != [] && Last(ranges).End() == |laid|) || LongAt(laid + more, |laid|)
    ensures OpenWithCode(laid + more, Extended(ranges, |laid|, |more|))
  {
    hide LongAt;
    var wider := Extended(ranges, |laid|, |more|);
    assert LongAt(laid + more, |laid|) ==> |more| >= 4 by { LongIsLong(laid + more, |laid|); }
    forall k | 0 <= k < |wider|
      ensures wider[k].len >= 4 && LongAt(laid + more, wider[k].offset)
    {
      if k < |ranges| {
        StaysPut(laid, more, ranges[k].offset);
      }
    }
  }

  lemma LongIsLong(laid: seq<byte>, at: nat)
    ensures LongAt(laid, at) ==> at + 4 <= |laid|
  {
  }

  /** Clear bytes keep every code clear if those that reach back before them do not start further than the last range. */
  lemma ClearExtended(laid: seq<byte>, ranges: seq<Range>, more: seq<byte>)
    requires CodesClear(laid, ranges, 0) && |more| > 0
    requires forall i: nat :: i < |laid| < i + 3 && StartCodeAt(laid + more, i) ==>
                                ranges != [] && Last(ranges).offset <= i && Last(ranges).End() == |laid|
    ensures CodesClear(laid + more, Extended(ranges, |laid|, |more|), 0)
  {
    hide StartCodeAt, Covers;
    var wider := Extended(ranges, |laid|, |more|);
    forall i: nat | i + 3 <= |laid + more| && StartCodeAt(laid + more, i)
      ensures Covers(wider, i, 3)
    {
      StaysPut(laid, more, i);
      if i < |laid| < i + 3 {
        CoversLast(wider, i, 3);
      } else {
        ExtendedCovers(ranges, |laid|, |more|, i, 3);
      }
    }
  }

  lemma CoversLast(ranges: seq<Range>, i: nat, n: nat)
    requires ranges != [] && Last(ranges).offset <= i && i + n <= Last(ranges).End()
    ensures Covers(ranges, i, n)
  {
    var k := |ranges| - 1;
    assert ranges[k].offset <= i && i + n <= ranges[k].End();
  }

  /** Adding a long start code keeps the layout safe: it is clear, and straddles nothing. */
  lemma SafeStartCode(laid: seq<byte>, ranges: seq<Range>)
    requires NalSafe(laid, ranges, 0)
    ensures NalSafe(laid + LONG_START_CODE, Extended(ranges, |laid|, 4), 0)
  {
    hide OpenWithCode, CodesClear, Extended;
    var more := laid + LONG_START_CODE;
    assert more[|laid|] == 0 && more[|laid| + 1] == 0 && more[|laid| + 2] == 0 && more[|laid| + 3] == 1;
    OpenExtended(laid, ranges, LONG_START_CODE);
    ClearExtended(laid, ranges, LONG_START_CODE);
  }

  /** Clear bytes behind a start code join its range, so any code among them is clear. */
  lemma SafeClear(laid: seq<byte>, ranges: seq<Range>, more: seq<byte>)
    requires NalSafe(laid, ranges, 0) && ranges != [] && Last(ranges).End() == |laid|
    ensures NalSafe(laid + more, Extended(ranges, |laid|, |more|), 0)
  {
    OpenExtended(laid, ranges, more);
    assert Last(ranges).len >= 4;
    if |more| > 0 {
      ClearExtended(laid, ranges, more);
    } else {
      assert laid + more == laid;
    }
  }

  /** Hidden bytes that make no start code with the clear bytes before them keep the layout safe. */
  lemma SafeHidden(laid: seq<byte>, ranges: seq<Range>, more: seq<byte>, slack: nat)
    requires NalSafe(laid, ranges, 0)
    requires forall i: nat :: i + 3 > |laid| && i + 3 + slack <= |laid + more| ==> !StartCodeAt(laid + more, i)
    ensures NalSafe(laid + more, ranges, slack)
  {
    var all := laid + more;
    forall k | 0 <= k < |ranges|
      ensures ranges[k].len >= 4 && LongAt(all, ranges[k].offset)
    {
      assert LongAt(laid, ranges[k].offset);
    }
    forall i: nat | i + 3 + slack <= |all| && StartCodeAt(all, i)
      ensures Covers(ranges, i, 3)
    {
      if i + 3 <= |laid| {
        assert StartCodeAt(laid, i);
      }
    }
  }

  /** Inside `pre + start code + unit`, a code behind the start code would lie inside the unit. */
  lemma CodeInsideUnit(pre: seq<byte>, unit: seq<byte>, i: nat)
    requires i > |pre| + 1 && i + 3 <= |pre| + 4 + |unit|
    requires StartCodeAt(pre + LONG_START_CODE + unit, i)
    ensures i >= |pre| + 4 && StartCodeAt(unit, i - |pre| - 4)
  {
    var all := pre + LONG_START_CODE + unit;
    assert all[|pre| + 2] == 0 && all[|pre| + 3] == 1;
    if i >= |pre| + 4 {
      var k := i - |pre| - 4;
      assert all[i] == unit[k] && all[i + 1] == unit[k + 1] && all[i + 2] == unit[k + 2];
    }
  }

  /** No visible code starts inside a unit; only the last unit can hide one in its last three bytes. */
  lemma UnitIsQuiet(frame: seq<byte>, nalu: Nalu, i: nat)
    requires AfterCode(frame, nalu)
    requires var unit := frame[nalu.start..NaluEnd(frame, nalu)];
             i + 3 + (if NextNalu(frame, nalu.start).None? then 1 else 0) <= |unit|
    ensures !StartCodeAt(frame[nalu.start..NaluEnd(frame, nalu)], i)
  {
    var unit := frame[nalu.start..NaluEnd(frame, nalu)];
    var at := nalu.start + i;
    assert !Visible(frame, at);
    assert unit[i] == frame[at] && unit[i + 1] == frame[at + 1] && unit[i + 2] == frame[at + 2];
  }

  // ----- Processing -----

  /**
    * `bytes_covering_h264_pps`: the bytes that cover three exp-Golomb numbers, stepping over emulation
    * prevention bytes between numbers' bits.
    */
  function PpsBytes(payload: seq<byte>, bitIndex: nat, zeroBits: nat, parsed: nat): (r: Option<nat>)
    requires zeroBits < 32 && parsed <= 3 && bitIndex <= |payload| * 8 + 32
    ensures r.Some? ==> 1 <= r.value <= |payload| + 5
    decreases |payload| * 8 + 32 - bitIndex
  {
    if bitIndex >= |payload| * 8 || parsed == 3 then
      if parsed == 3 then Some(bitIndex / 8 + 1) else None
    else if EmulationByteAt(payload, bitIndex) then PpsBytes(payload, bitIndex + 8, zeroBits, parsed)
    else if !Bit(payload[bitIndex / 8], 7 - bitIndex % 8) then
      if zeroBits == 31 then None else PpsBytes(payload, bitIndex + 1, zeroBits + 1, parsed)
    else PpsBytes(payload, bitIndex + 1 + zeroBits, 0, parsed + 1)
  }

  predicate EmulationByteAt(payload: seq<byte>, bitIndex: nat)
    requires bitIndex < |payload| * 8
  {
    var i := bitIndex / 8;
    bitIndex % 8 == 0 && i >= 2 && payload[i] == 3 && payload[i - 1] == 0 && payload[i - 2] == 0
  }

  method BytesCoveringPps(payload: seq<byte>) returns (r: Option<nat>)
    ensures r == PpsBytes(payload, 0, 0, 0)
  {
    var bitIndex, zeroBits, parsed := 0, 0, 0;
    while bitIndex < |payload| * 8 && parsed < 3
      invariant 0 <= bitIndex <= |payload| * 8 + 32 && 0 <= zeroBits < 32 && 0 <= parsed <= 3
      invariant PpsBytes(payload, 0, 0, 0) == PpsBytes(payload, bitIndex, zeroBits, parsed)
      decreases |payload| * 8 + 32 - bitIndex
    {
      var byteIndex, intra := bitIndex / 8, bitIndex % 8;
      var b := payload[byteIndex];
      if intra == 0 && byteIndex >= 2 && b == 3 && payload[byteIndex - 1] == 0 && payload[byteIndex - 2] == 0 {
        bitIndex := bitIndex + 8;
      } else if !Bit(b, 7 - intra) {
        zeroBits := zeroBits + 1;
        bitIndex := bitIndex + 1;
        if zeroBits >= 32 {
          return None;
        }
      } else {
        parsed := parsed + 1;
        bitIndex := bitIndex + 1 + zeroBits;
        zeroBits := 0;
      }
    }
    return if parsed == 3 then Some(bitIndex / 8 + 1) else None;
  }

  /** The clear bytes at the head of an encrypted unit. */
  function UnencryptedPrefix(codec: H26x, nalu: seq<byte>): Option<nat> {
    match codec
    case H264 =>
      if nalu == [] then None else
      (match PpsBytes(nalu[1..], 0, 0, 0)
       case None => None
       case Some(n) => Some(1 + n))
    case H265 => if |nalu| >= 2 then Some(2) else None
  }

  /** How much of the unit `frame[start..end]` stays clear; `None` asks for the fallback. */
  function ClearBytes(codec: H26x, frame: seq<byte>, start: nat, end: nat): (n: Option<nat>)
    requires start <= end <= |frame| && start < |frame|
    ensures n.Some? ==> n.value <= end - start
  {
    if !EncryptsPayload(codec, NalType(codec, frame[start])) then Some(end - start) else
    match UnencryptedPrefix(codec, frame[start..end])
    case None => None
    case Some(n) => if start + n > end then None else Some(n)
  }

  /** The ranges once all kept units from `next` on are laid out behind `at` bytes; `None` is the fallback. */
  function RangesFrom(codec: H26x, frame: seq<byte>, next: Option<Nalu>, at: nat, ranges: seq<Range>): Option<seq<Range>>
    requires next.Some? ==> AfterCode(frame, next.value)
    decreases if next.Some? then |frame| - next.value.start else 0
  {
    if next.None? || next.value.start >= |frame| - 1 then Some(ranges) else
    var start, end := next.value.start, NaluEnd(frame, next.value);
    match ClearBytes(codec, frame, start, end)
    case None => None
    case Some(n) =>
      RangesFrom(codec, frame, NextNalu(frame, start), at + 4 + (end - start),
                 Extended(Extended(ranges, at, 4), at + 4, n))
  }

  function Ranges(codec: H26x, frame: seq<byte>): Option<seq<Range>> {
    if |frame| < 3 + NalHeaderBytes(codec) || NextNalu(frame, 0).None? then None
    else RangesFrom(codec, frame, NextNalu(frame, 0), 0, [])
  }

  method FindClearBytes(codec: H26x, frame: seq<byte>, start: nat, end: nat) returns (n: Option<nat>)
    requires start <= end <= |frame| && start < |frame|
    ensures n == ClearBytes(codec, frame, start, end)
  {
    hide PpsBytes;
    if !EncryptsPayload(codec, NalType(codec, frame[start])) {
      return Some(end - start);
    }
    var unit := frame[start..end];
    var unencrypted: Option<nat>;
    match codec {
      case H264 =>
        if |unit| < 1 {
          return None;
        }
        var pps := BytesCoveringPps(unit[1..]);
        unencrypted := if pps.Some? then Some(1 + pps.value) else None;
      case H265 =>
        unencrypted := if |unit| >= 2 then Some(2) else None;
    }
    return if unencrypted.None? || start + unencrypted.value > end then None else unencrypted;
  }

  /** Lays out one unit behind a start code; false asks for the fallback. */
  method ProcessUnit(codec: H26x, frame: seq<byte>, nalu: Nalu, end: nat, processor: OutboundFrameProcessor)
    returns (ok: bool)
    requires AfterCode(frame, nalu) && end == NaluEnd(frame, nalu)
    requires processor.Valid()
    modifies processor
    ensures processor.Valid()
    ensures ok <==> ClearBytes(codec, frame, nalu.start, end).Some?
    ensures ok ==>
              && processor.laid == old(processor.laid) + LONG_START_CODE + frame[nalu.start..end]
              && processor.unencryptedRanges
                 == Extended(Extended(old(processor.unencryptedRanges), old(|processor.laid|), 4),
                             old(|processor.laid|) + 4, ClearBytes(codec, frame, nalu.start, end).value)
  {
    hide Coalesced, NextNalu, NaluEnd, AfterCode, Placed, Clear, Hidden, Extended, ClearBytes;
    UnitBounds(frame, nalu);
    ghost var pre := processor.laid;
    processor.AddUnencryptedBytes(LONG_START_CODE);
    var unit := frame[nalu.start..end];
    var clearLen := FindClearBytes(codec, frame, nalu.start, end);
    if clearLen.None? {
      return false;
    }
    processor.AddUnencryptedBytes(unit[..clearLen.value]);
    processor.AddEncryptedBytes(unit[clearLen.value..]);
    Rejoin(pre + LONG_START_CODE, unit, clearLen.value);
    return true;
  }

  lemma Rejoin(pre: seq<byte>, unit: seq<byte>, n: nat)
    requires n <= |unit|
    ensures pre + unit[..n] + unit[n..] == pre + unit
  {
  }

  /** One unit laid out behind a start code, its first `clearLen` bytes clear, keeps the layout safe. */
  lemma SafeUnit(frame: seq<byte>, nalu: Nalu, pre: seq<byte>, ranges: seq<Range>, clearLen: nat)
    requires AfterCode(frame, nalu) && clearLen <= NaluEnd(frame, nalu) - nalu.start
    requires NalSafe(pre, ranges, 0)
    ensures var unit := frame[nalu.start..NaluEnd(frame, nalu)];
            var wider := Extended(Extended(ranges, |pre|, 4), |pre| + 4, clearLen);
            NalSafe(pre + LONG_START_CODE + unit, wider, if NextNalu(frame, nalu.start).None? then 1 else 0)
  {
    hide NalSafe, NextNalu, NaluEnd, AfterCode, StartCodeAt;
    var unit := frame[nalu.start..NaluEnd(frame, nalu)];
    var coded := pre + LONG_START_CODE;
    var slack := if NextNalu(frame, nalu.start).None? then 1 else 0;
    SafeStartCode(pre, ranges);
    SafeClear(coded, Extended(ranges, |pre|, 4), unit[..clearLen]);
    QuietBehind(frame, nalu, pre, clearLen);
    Rejoin(coded, unit, clearLen);
    SafeHidden(coded + unit[..clearLen], Extended(Extended(ranges, |pre|, 4), |pre| + 4, clearLen), unit[clearLen..], slack);
  }

  lemma UnitBounds(frame: seq<byte>, nalu: Nalu)
    requires AfterCode(frame, nalu)
    ensures 3 <= nalu.start <= NaluEnd(frame, nalu) <= |frame| && nalu.start < |frame|
  {
  }

  lemma QuietBehind(frame: seq<byte>, nalu: Nalu, pre: seq<byte>, clearLen: nat)
    requires AfterCode(frame, nalu)
    requires clearLen <= NaluEnd(frame, nalu) - nalu.start
    ensures var unit := frame[nalu.start..NaluEnd(frame, nalu)];
            var slack := if NextNalu(frame, nalu.start).None? then 1 else 0;
            forall i: nat :: i + 3 > |pre| + 4 + clearLen && i + 3 + slack <= |pre| + 4 + |unit|
                             ==> !StartCodeAt(pre + LONG_START_CODE + unit, i)
  {
    var unit := frame[nalu.start..NaluEnd(frame, nalu)];
    var slack := if NextNalu(frame, nalu.start).None? then 1 else 0;
    forall i: nat | i + 3 > |pre| + 4 + clearLen && i + 3 + slack <= |pre| + 4 + |unit|
      ensures !StartCodeAt(pre + LONG_START_CODE + unit, i)
    {
      if StartCodeAt(pre + LONG_START_CODE + unit, i) {
        CodeInsideUnit(pre, unit, i);
        UnitIsQuiet(frame, nalu, i - |pre| - 4);
      }
    }
  }

  /**
    * Unless it falls back, lays out the frame's units (save a final one-byte unit), each behind a long
    * start code, so that every visible start code is clear.
    */
  method ProcessH26xFrame(codec: H26x, frame: seq<byte>, processor: OutboundFrameProcessor) returns (result: ProcessResult)
    requires processor.Blank()
    modifies processor
    ensures processor.Valid()
    ensures result.Processed? <==> Ranges(codec, frame).Some?
    ensures result.Processed? ==>
              && processor.laid == Join(Kept(frame))
              && processor.unencryptedRanges == Ranges(codec, frame).value
              && NalSafe(processor.laid, processor.unencryptedRanges, 1)
  {
    hide *;
    BlankIsValid(processor);
    StartProgress(codec, frame);
    if |frame| < 3 + NalHeaderBytes(codec) {
      return FallbackAllEncrypted;
    }
    var next := FindNextNalu(frame, 0);
    if next.None? {
      return FallbackAllEncrypted;
    }
    while next.Some? && next.value.start < |frame| - 1
      invariant processor.Valid()
      invariant Progress(codec, frame, next, processor.laid, processor.unencryptedRanges)
      decreases if next.Some? then |frame| - next.value.start else 0
    {
      var nalu := next.value;
      StepProgress(codec, frame, nalu, processor.laid, processor.unencryptedRanges);
      next := FindNextNalu(frame, nalu.start);
      var end := if next.Some? then next.value.start - next.value.startCodeLen else |frame|;
      var ok := ProcessUnit(codec, frame, nalu, end, processor);
      if !ok {
        return FallbackAllEncrypted;
      }
    }
    EndProgress(codec, frame, next, processor.laid, processor.unencryptedRanges);
    return Processed;
  }

  lemma BlankIsValid(processor: OutboundFrameProcessor)
    requires processor.Blank()
    ensures processor.Valid() && processor.laid == [] && processor.unencryptedRanges == []
  {
  }

  /** The units before `next` are laid out; the others are still to come. */
  ghost predicate Progress(codec: H26x, frame: seq<byte>, next: Option<Nalu>, laid: seq<byte>, ranges: seq<Range>) {
    && (next.Some? ==> AfterCode(frame, next.value))
    && NalSafe(laid, ranges, if next.None? then 1 else 0)
    && Join(Kept(frame)) == laid + Join(KeptFrom(frame, next))
    && Ranges(codec, frame) == RangesFrom(codec, frame, next, |laid|, ranges)
  }

  lemma StartProgress(codec: H26x, frame: seq<byte>)
    ensures |frame| < 3 + NalHeaderBytes(codec) || NextNalu(frame, 0).None? ==> Ranges(codec, frame).None?
    ensures |frame| >= 3 + NalHeaderBytes(codec) && NextNalu(frame, 0).Some? ==>
              Progress(codec, frame, NextNalu(frame, 0), [], [])
  {
    assert [] + Join(Kept(frame)) == Join(Kept(frame));
  }

  lemma StepProgress(codec: H26x, frame: seq<byte>, nalu: Nalu, laid: seq<byte>, ranges: seq<Range>)
    requires Progress(codec, frame, Some(nalu), laid, ranges) && nalu.start < |frame| - 1
    ensures AfterCode(frame, nalu)
    ensures var next := NextNalu(frame, nalu.start); var end := NaluEnd(frame, nalu);
            && end == (if next.Some? then next.value.start - next.value.startCodeLen else |frame|)
            && nalu.start <= end <= |frame|
            && (next.Some? ==> 4 <= next.value.start && next.value.startCodeLen <= 4 && nalu.start < next.value.start)
            && var n := ClearBytes(codec, frame, nalu.start, end);
               if n.None? then Ranges(codec, frame).None? else
               Progress(codec, frame, next, laid + LONG_START_CODE + frame[nalu.start..end],
                        Extended(Extended(ranges, |laid|, 4), |laid| + 4, n.value))
  {
    hide Join, Kept, KeptFrom, NalSafe, Ranges, RangesFrom, Extended, ClearBytes;
    KeptStep(frame, nalu, laid);
    RangesStep(codec, frame, nalu, |laid|, ranges);
    var n := ClearBytes(codec, frame, nalu.start, NaluEnd(frame, nalu));
    if n.Some? {
      SafeUnit(frame, nalu, laid, ranges, n.value);
    }
  }

  lemma EndProgress(codec: H26x, frame: seq<byte>, next: Option<Nalu>, laid: seq<byte>, ranges: seq<Range>)
    requires Progress(codec, frame, next, laid, ranges)
    requires next.None? || next.value.start >= |frame| - 1
    ensures laid == Join(Kept(frame)) && NalSafe(laid, ranges, 1) && Ranges(codec, frame) == Some(ranges)
  {
  }

  lemma KeptStep(frame: seq<byte>, nalu: Nalu, laid: seq<byte>)
    requires AfterCode(frame, nalu) && nalu.start < |frame| - 1
    ensures laid + Join(KeptFrom(frame, Some(nalu)))
         == laid + LONG_START_CODE + frame[nalu.start..NaluEnd(frame, nalu)]
            + Join(KeptFrom(frame, NextNalu(frame, nalu.start)))
  {
    var unit, rest := frame[nalu.start..NaluEnd(frame, nalu)], KeptFrom(frame, NextNalu(frame, nalu.start));
    assert KeptFrom(frame, Some(nalu)) == [unit] + rest;
    assert ([unit] + rest)[1..] == rest;
    Associate(laid, LONG_START_CODE, unit);
    Associate(laid, LONG_START_CODE + unit, Join(rest));
  }

  lemma RangesStep(codec: H26x, frame: seq<byte>, nalu: Nalu, at: nat, ranges: seq<Range>)
    requires AfterCode(frame, nalu) && nalu.start < |frame| - 1
    ensures var end := NaluEnd(frame, nalu);
            RangesFrom(codec, frame, Some(nalu), at, ranges) ==
            match ClearBytes(codec, frame, nalu.start, end)
            case None => None
            case Some(n) =>
              RangesFrom(codec, frame, NextNalu(frame, nalu.start), at + 4 + (end - nalu.start),
                         Extended(Extended(ranges, at, 4), at + 4, n))
  {
    hide ClearBytes, Extended, NextNalu;
  }
}
