/** The AV1 open bitstream unit rewrite (dave/src/frame.rs), read with section 5.3 of the AV1 bitstream specification. */
module Av1Frame {
  import opened Prelude
  import opened Interleave
  import opened FrameProcessor
  import Leb128

  /** An OBU as a decoder sees it: `header` has its size flag cleared, which only says how the end is found. */
  datatype Obu = Obu(header: byte, extension: Option<byte>, payload: seq<byte>) {
    function Type(): nat {
      header / 8 % 16
    }

    predicate WellFormed() {
      !Bit(header, 1) && (Bit(header, 2) <==> extension.Some?) && |payload| <= ISIZE_MAX
    }
  }

  datatype Step = Step(obu: Obu, hasSize: bool, rest: seq<byte>)

  /** Header byte plus the extension byte, if flagged. */
  function HeaderLen(header: byte): nat {
    if Bit(header, 2) then 2 else 1
  }

  function WithoutSizeFlag(header: byte): (h: byte)
    ensures !Bit(h, 1) && Bit(h, 2) == Bit(header, 2) && h / 8 == header / 8
    ensures h == if Bit(header, 1) then header - 2 else header
  {
    if Bit(header, 1) then header - 2 else header
  }

  /** The OBU at the head of `bytes`: sized by its size field, or up to the end without one. */
  function OneObu(bytes: seq<byte>): (r: Option<Step>)
    ensures r.Some? ==> |r.value.rest| < |bytes|
  {
    if bytes == [] then None else
    var n := HeaderLen(bytes[0]);
    if n > |bytes| then None else
    var header := WithoutSizeFlag(bytes[0]);
    var extension := if n == 2 then Some(bytes[1]) else None;
    if !Bit(bytes[0], 1) then Some(Step(Obu(header, extension, bytes[n..]), false, [])) else
    match Leb128.Decode(bytes[n..])
    case None => None
    case Some(size) =>
      var start, end := n + size.len, n + size.len + size.value;
      if end > |bytes| then None else
      Some(Step(Obu(header, extension, bytes[start..end]), true, bytes[end..]))
  }

  /** The whole list of OBUs, or nothing when the bytes are malformed. */
  function ReadObus(bytes: seq<byte>): Option<seq<Obu>>
    decreases |bytes|
  {
    if bytes == [] then Some([]) else
    match OneObu(bytes)
    case None => None
    case Some(step) =>
      match ReadObus(step.rest)
      case None => None
      case Some(rest) => Some([step.obu] + rest)
  }

  /** Temporal delimiters, tile lists and padding are not sent. */
  predicate Dropped(obuType: nat) {
    obuType == 2 || obuType == 8 || obuType == 15
  }

  function Kept(obus: seq<Obu>): seq<Obu> {
    if obus == [] then []
    else if Dropped(obus[0].Type()) then Kept(obus[1..])
    else [obus[0]] + Kept(obus[1..])
  }

  /** The clear bytes in front of an OBU's payload. */
  function Head(obu: Obu, sized: bool): seq<byte>
    requires obu.WellFormed()
  {
    [FirstByte(obu, sized)]
      + (if obu.extension.Some? then [obu.extension.value] else [])
      + (if sized then Leb128.Encode(|obu.payload|) else [])
  }

  lemma StepWellFormed(bytes: seq<byte>)
    requires |bytes| <= ISIZE_MAX
    ensures var r := OneObu(bytes); r.Some? ==> r.value.obu.WellFormed()
  {
  }

  /**
    * The rewrite: drops what is not sent, re-encodes sizes and omits the size of an OBU that ends the frame.
    * `None` is the fallback.
    */
  function Rewrite(bytes: seq<byte>): Option<seq<byte>>
    requires |bytes| <= ISIZE_MAX
    decreases |bytes|
  {
    if bytes == [] then Some([])
    else if HeaderLen(bytes[0]) >= |bytes| then None else
    match OneObu(bytes)
    case None => None
    case Some(step) =>
      StepWellFormed(bytes);
      Then(Laid(step), Rewrite(step.rest))
  }

  function Laid(step: Step): seq<byte>
    requires step.obu.WellFormed()
  {
    if Dropped(step.obu.Type()) then [] else LaidHead(step) + step.obu.payload
  }

  /** The size is omitted for the OBU that ends the frame. */
  function LaidHead(step: Step): seq<byte>
    requires step.obu.WellFormed()
  {
    Head(step.obu, step.hasSize && step.rest != [])
  }

  /** The ranges of the rewrite: each kept OBU's head is clear, its payload is not. */
  function RangesFrom(bytes: seq<byte>, at: nat, ranges: seq<Range>): seq<Range>
    requires |bytes| <= ISIZE_MAX
    decreases |bytes|
  {
    if bytes == [] || OneObu(bytes).None? then ranges else
    var step := OneObu(bytes).value;
    StepWellFormed(bytes);
    if Dropped(step.obu.Type()) then RangesFrom(step.rest, at, ranges) else
    RangesFrom(step.rest, at + |Laid(step)|, Extended(ranges, at, |LaidHead(step)|))
  }

  function Then(done: seq<byte>, rest: Option<seq<byte>>): Option<seq<byte>> {
    if rest.None? then None else Some(done + rest.value)
  }

  /** A sized OBU reads back whatever follows it; an unsized one reads back when nothing follows. */
  lemma ReadBack(obu: Obu, sized: bool, rest: seq<byte>)
    requires obu.WellFormed() && (!sized ==> rest == [])
    ensures OneObu(Head(obu, sized) + obu.payload + rest) == Some(Step(obu, sized, rest))
  {
    hide Leb128.Encode, Leb128.Decode, Bit, WithoutSizeFlag, Head;
    var bytes, n := Head(obu, sized) + obu.payload + rest, if obu.extension.Some? then 2 else 1;
    FlagsOf(obu.header, sized);
    HeadBytes(obu, sized, obu.payload + rest);
    Associate(Head(obu, sized), obu.payload, rest);
    if sized {
      var size := Leb128.Encode(|obu.payload|);
      Leb128.DecodeEncode(|obu.payload|, obu.payload + rest);
      var start, end := n + |size|, n + |size| + |obu.payload|;
      DropDrop(bytes, n, |size|);
      assert bytes[start..] == obu.payload + rest;
      assert bytes[start..end] == bytes[start..][..|obu.payload|] == obu.payload;
      DropDrop(bytes, start, |obu.payload|);
      assert bytes[end..] == rest;
    } else {
      assert bytes[n..] == obu.payload;
    }
  }

  lemma HeadBytes(obu: Obu, sized: bool, more: seq<byte>)
    requires obu.WellFormed()
    ensures
      var bytes, n := Head(obu, sized) + more, if obu.extension.Some? then 2 else 1;
      && n <= |bytes| && bytes[0] == obu.header + (if sized then 2 else 0)
      && (n == 2 ==> bytes[1] == obu.extension.value)
      && bytes[n..] == (if sized then Leb128.Encode(|obu.payload|) else []) + more
  {
    hide Leb128.Encode, Bit;
  }

  lemma FlagsOf(header: byte, sized: bool)
    requires !Bit(header, 1)
    ensures var first := header + if sized then 2 else 0;
            && first < 256 && Bit(first, 1) == sized && Bit(first, 2) == Bit(header, 2)
            && WithoutSizeFlag(first) == header
  {
  }

  /**
    * When processing does not fall back, reading what was laid out gives the input's OBUs minus the
    * dropped ones, with the same types, extensions and payloads.
    */
  lemma {:induction false} RewriteKeepsMeaning(bytes: seq<byte>)
    requires |bytes| <= ISIZE_MAX && Rewrite(bytes).Some?
    ensures ReadObus(bytes).Some?
    ensures ReadObus(Rewrite(bytes).value) == Some(Kept(ReadObus(bytes).value))
    decreases |bytes|
  {
    if bytes != [] {
      hide OneObu, Head;
      var step := OneObu(bytes).value;
      StepWellFormed(bytes);
      RewriteKeepsMeaning(step.rest);
      var out := Rewrite(step.rest).value;
      var obus := ReadObus(step.rest).value;
      assert ([step.obu] + obus)[1..] == obus;
      if Dropped(step.obu.Type()) {
        assert [] + out == out;
      } else {
        var sized := step.hasSize && step.rest != [];
        NothingFollows(bytes, step);
        ReadBack(step.obu, sized, out);
        var written := Head(step.obu, sized) + step.obu.payload + out;
        assert ReadObus(written) == Some([step.obu] + Kept(obus));
      }
    }
  }

  lemma NothingFollows(bytes: seq<byte>, step: Step)
    requires |bytes| <= ISIZE_MAX && OneObu(bytes) == Some(step) && |step.rest| <= ISIZE_MAX
    ensures !(step.hasSize && step.rest != []) ==> step.rest == [] && Rewrite(step.rest) == Some([])
  {
  }

  /** The last OBU of a frame. */
  function LastStep(bytes: seq<byte>): (r: Option<Step>)
    decreases |bytes|
  {
    match OneObu(bytes)
    case None => None
    case Some(step) => if step.rest == [] then Some(step) else LastStep(step.rest)
  }

  /** A frame whose last OBU has neither size nor payload. */
  predicate EndsBare(bytes: seq<byte>) {
    var last := LastStep(bytes);
    last.Some? && !last.value.hasSize && last.value.obu.payload == []
  }

  lemma BareHere(bytes: seq<byte>)
    requires bytes != [] && OneObu(bytes).Some?
    ensures
      var step := OneObu(bytes).value;
      && (HeaderLen(bytes[0]) >= |bytes| <==> !step.hasSize && step.obu.payload == [])
      && (!step.hasSize ==> step.rest == [])
  {
  }

  /** Processing falls back exactly on a frame that is no list of OBUs or ends in a bare header. */
  lemma {:induction false} RewritesExactly(bytes: seq<byte>)
    requires |bytes| <= ISIZE_MAX
    ensures Rewrite(bytes).Some? <==> ReadObus(bytes).Some? && !EndsBare(bytes)
    decreases |bytes|
  {
    hide OneObu, HeaderLen, Head;
    if bytes == [] {
      NoObu();
    } else if OneObu(bytes).Some? {
      var step := OneObu(bytes).value;
      BareHere(bytes);
      StepWellFormed(bytes);
      RewritesExactly(step.rest);
    }
  }

  lemma NoObu()
    ensures OneObu([]).None?
  {
  }

  /** The OBU that ends the frame loses its size field; if that one is dropped, every OBU sent has a size. */
  lemma {:induction false} LastLosesSize(bytes: seq<byte>)
    requires |bytes| <= ISIZE_MAX && Rewrite(bytes).Some? && Rewrite(bytes).value != []
    ensures LastStep(bytes).Some? && LastStep(Rewrite(bytes).value).Some?
    ensures LastStep(Rewrite(bytes).value).value.hasSize <==> Dropped(LastStep(bytes).value.obu.Type())
    decreases |bytes|
  {
    hide OneObu, Head;
    var step := OneObu(bytes).value;
    StepWellFormed(bytes);
    var rest := Rewrite(step.rest).value;
    if Dropped(step.obu.Type()) {
      assert [] + rest == rest;
      LastLosesSize(step.rest);
    } else {
      var sized := step.hasSize && step.rest != [];
      NothingFollows(bytes, step);
      ReadBack(step.obu, sized, rest);
      if rest != [] {
        LastLosesSize(step.rest);
      } else if step.rest != [] {
        AllDropped(step.rest);
      }
    }
  }

  /** A rewrite to nothing means that everything was dropped. */
  lemma {:induction false} AllDropped(bytes: seq<byte>)
    requires bytes != [] && |bytes| <= ISIZE_MAX && Rewrite(bytes) == Some([])
    ensures LastStep(bytes).Some? && Dropped(LastStep(bytes).value.obu.Type())
    decreases |bytes|
  {
    hide OneObu;
    var step := OneObu(bytes).value;
    StepWellFormed(bytes);
    if step.rest != [] {
      AllDropped(step.rest);
    }
  }

  /** The rewrite never lengthens a frame. */
  lemma {:induction false} RewriteFits(bytes: seq<byte>)
    requires |bytes| <= ISIZE_MAX && Rewrite(bytes).Some?
    ensures |Rewrite(bytes).value| <= |bytes|
    decreases |bytes|
  {
    if bytes != [] {
      var step := OneObu(bytes).value;
      StepWellFormed(bytes);
      RewriteFits(step.rest);
      Leb128.DecodedIsU64(bytes[HeaderLen(bytes[0])..]);
    }
  }

  /** Where the OBU at `index` keeps its payload, and where the next one starts. */
  datatype Bounds = Bounds(payload: nat, next: nat)

  /** Reads one OBU's header, extension and size in place; `None` asks for the fallback. */
  method FindBounds(frame: seq<byte>, index: nat) returns (r: Option<Bounds>)
    requires index < |frame| <= ISIZE_MAX
    ensures var tail := frame[index..];
            r.None? <==> HeaderLen(tail[0]) >= |tail| || OneObu(tail).None?
    ensures r.Some? ==>
              && index < r.value.payload <= r.value.next <= |frame|
              && OneObu(frame[index..]) == Some(Step(
                   Obu(WithoutSizeFlag(frame[index]), if Bit(frame[index], 2) then Some(frame[index + 1]) else None,
                       frame[r.value.payload..r.value.next]),
                   Bit(frame[index], 1), frame[r.value.next..]))
              && (Bit(frame[index], 2) ==> index + 2 <= r.value.payload)
  {
    hide Leb128.Decode;
    var header := frame[index];
    ghost var tail := frame[index..];
    var body := index + if Bit(header, 2) then 2 else 1;
    if body >= |frame| {
      return None;
    }
    DropDrop(frame, index, body - index);
    if !Bit(header, 1) {
      assert frame[body..|frame|] == frame[body..] && frame[|frame|..] == [];
      return Some(Bounds(body, |frame|));
    }
    var size := Leb128.Read(frame[body..]);
    if size.None? {
      return None;
    }
    var payload := body + size.value.len;
    var next := payload + size.value.value;
    if next > |frame| {
      return None;
    }
    DropDrop(frame, index, next - index);
    assert tail[payload - index..next - index] == frame[payload..next];
    return Some(Bounds(payload, next));
  }

  /** Adds one kept OBU: header, extension and size clear, payload encrypted. */
  method LayOut(step: Step, processor: OutboundFrameProcessor)
    requires processor.Valid() && step.obu.WellFormed() && !Dropped(step.obu.Type())
    modifies processor
    ensures processor.Valid() && processor.laid == old(processor.laid) + Laid(step)
    ensures processor.unencryptedRanges == Extended(old(processor.unencryptedRanges), old(|processor.laid|), |LaidHead(step)|)
  {
    hide Coalesced, Placed, Clear, Hidden, Bit, Leb128.Encode, Extended;
    var obu := step.obu;
    var withSize := step.hasSize && step.rest != [];
    ghost var before, ranges := processor.laid, processor.unencryptedRanges;
    var header := FirstByte(obu, withSize);
    processor.AddUnencryptedBytes([header]);
    ghost var head := [header];
    if obu.extension.Some? {
      processor.AddUnencryptedBytes([obu.extension.value]);
      Associate(before, head, [obu.extension.value]);
      ExtendedTwice(ranges, |before|, |head|, 1);
      head := head + [obu.extension.value];
    }
    if withSize {
      AddSize(|obu.payload|, processor);
      Associate(before, head, Leb128.Encode(|obu.payload|));
      ExtendedTwice(ranges, |before|, |head|, |Leb128.Encode(|obu.payload|)|);
      head := head + Leb128.Encode(|obu.payload|);
    }
    assert Head(obu, withSize) == head;
    Associate(before, head, obu.payload);
    processor.AddEncryptedBytes(obu.payload);
  }

  function FirstByte(obu: Obu, sized: bool): (b: byte)
    requires obu.WellFormed()
    ensures b == obu.header + if sized then 2 else 0
  {
    FlagsOf(obu.header, sized);
    obu.header + if sized then 2 else 0
  }

  /** The size field, written into a ten-byte buffer first. */
  method AddSize(size: nat, processor: OutboundFrameProcessor)
    requires processor.Valid() && size <= ISIZE_MAX
    modifies processor
    ensures processor.Valid() && processor.laid == old(processor.laid) + Leb128.Encode(size)
    ensures processor.unencryptedRanges == Extended(old(processor.unencryptedRanges), old(|processor.laid|), |Leb128.Encode(size)|)
  {
    hide Coalesced, Placed, Clear, Hidden, Leb128.Encode, Extended;
    var buffer := new byte[10];
    EncodedFits(size);
    var written := Leb128.WriteTo(size, buffer, 0);
    assert buffer[..written.value] == Leb128.Encode(size);
    processor.AddUnencryptedBytes(buffer[..written.value]);
  }

  lemma EncodedFits(n: nat)
    requires n <= ISIZE_MAX
    ensures |Leb128.Encode(n)| <= 10
  {
    Leb128.DecodeEncode(n, []);
    assert Leb128.Encode(n) + [] == Leb128.Encode(n);
  }

  method ProcessAv1Frame(frame: seq<byte>, processor: OutboundFrameProcessor) returns (result: ProcessResult)
    requires processor.Blank() && |frame| <= ISIZE_MAX
    modifies processor
    ensures processor.Valid()
    ensures result.Processed? <==> Rewrite(frame).Some?
    ensures result.Processed? ==>
              && processor.laid == Rewrite(frame).value
              && processor.unencryptedRanges == RangesFrom(frame, 0, [])
  {
    hide Coalesced, Placed, Clear, Hidden, Rewrite, OneObu, HeaderLen, RangesFrom, Head, Extended;
    var index := 0;
    RewriteStart(frame);
    while index < |frame|
      invariant 0 <= index <= |frame| && processor.Valid()
      invariant Rewrite(frame) == Then(processor.laid, Rewrite(frame[index..]))
      invariant RangesFrom(frame, 0, []) == RangesFrom(frame[index..], |processor.laid|, processor.unencryptedRanges)
    {
      RewriteStep(processor.laid, frame[index..]);
      var header := frame[index];
      var bounds := FindBounds(frame, index);
      if bounds.None? {
        return FallbackAllEncrypted;
      }
      RangesStep(frame[index..], |processor.laid|, processor.unencryptedRanges);
      var next := bounds.value.next;
      var extension := if Bit(header, 2) then Some(frame[index + 1]) else None;
      var step := Step(Obu(WithoutSizeFlag(header), extension, frame[bounds.value.payload..next]), Bit(header, 1), frame[next..]);
      if !Dropped(header / 8 % 16) {
        LayOut(step, processor);
      } else {
        assert processor.laid + Laid(step) == processor.laid;
      }
      index := next;
    }
    assert frame[index..] == [];
    return Processed;
  }

  lemma RewriteStart(frame: seq<byte>)
    requires |frame| <= ISIZE_MAX
    ensures Rewrite(frame) == Then([], Rewrite(frame[0..]))
    ensures Rewrite([]) == Some([])
    ensures RangesFrom(frame, 0, []) == RangesFrom(frame[0..], 0, [])
    ensures forall at, ranges :: RangesFrom([], at, ranges) == ranges
  {
    assert frame[0..] == frame;
    if Rewrite(frame).Some? {
      assert [] + Rewrite(frame).value == Rewrite(frame).value;
    }
  }

  lemma RangesStep(tail: seq<byte>, at: nat, ranges: seq<Range>)
    requires 0 < |tail| <= ISIZE_MAX && OneObu(tail).Some?
    ensures var step := OneObu(tail).value;
            && step.obu.WellFormed()
            && RangesFrom(tail, at, ranges) ==
               if Dropped(step.obu.Type()) then RangesFrom(step.rest, at, ranges) else
               RangesFrom(step.rest, at + |Laid(step)|, Extended(ranges, at, |LaidHead(step)|))
  {
    StepWellFormed(tail);
  }

  lemma RewriteStep(done: seq<byte>, tail: seq<byte>)
    requires 0 < |tail| <= ISIZE_MAX
    ensures HeaderLen(tail[0]) >= |tail| || OneObu(tail).None? ==> Rewrite(tail).None?
    ensures HeaderLen(tail[0]) < |tail| && OneObu(tail).Some? ==>
              var step := OneObu(tail).value;
              && step.obu.WellFormed() && |step.rest| < |tail|
              && Then(done, Rewrite(tail)) == Then(done + Laid(step), Rewrite(step.rest))
  {
    if HeaderLen(tail[0]) < |tail| && OneObu(tail).Some? {
      StepWellFormed(tail);
      var step := OneObu(tail).value;
      if Rewrite(step.rest).Some? {
        Associate(done, Laid(step), Rewrite(step.rest).value);
      }
    }
  }
}
