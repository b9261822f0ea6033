/** Sending a protected AV1 frame: which ones the packetizer takes (dave/src/frame.rs, cacophony/src/rtp_payload.rs). */
module Av1Protected {
  import opened Prelude
  import opened Codecs
  import opened Interleave
  import opened Frame
  import opened FrameProcessor
  import opened FrameCodecs
  import opened Packetizer
  import opened Av1Frame
  import opened Ciphers
  import opened H26xValidation
  import H26xFrame
  import Leb128

  // ----- The packetizer reads OBUs -----

  lemma ObuEndIs(frame: seq<byte>, offset: nat)
    requires offset < |frame|
    ensures
      match OneObu(frame[offset..])
      case None => ObuEnd(frame, offset).None?
      case Some(step) =>
        && ObuEnd(frame, offset) == Some(|frame| - |step.rest|)
        && |step.rest| <= |frame| && frame[|frame| - |step.rest|..] == step.rest
  {
    hide Leb128.Decode;
    var tail := frame[offset..];
    var n := HeaderLen(tail[0]);
    if n <= |tail| {
      DropDrop(frame, offset, n);
      if OneObu(tail).Some? {
        DropDrop(frame, offset, |tail| - |OneObu(tail).value.rest|);
      }
    }
  }

  lemma {:induction false} RestFails(frame: seq<byte>, start: nat, end: nat, at: nat)
    requires start <= at < end <= |frame|
    ensures Av1Rest(frame, start, end, at).failed == Av1From(frame, end).failed
    decreases end - at
  {
    hide Av1Piece;
    var stop := Min(at + (MAX_PAYLOAD - 1), end);
    if stop < end {
      RestFails(frame, start, end, stop);
    }
  }

  /** The packetizer fails exactly on what does not read as a list of OBUs. */
  lemma {:induction false} FailsIffUnreadable(frame: seq<byte>, start: nat)
    requires start <= |frame|
    ensures Av1From(frame, start).failed <==> ReadObus(frame[start..]).None?
    decreases |frame| - start
  {
    hide OneObu, ObuEnd, Av1Rest, Av1From, ReadObus;
    Av1FromStep(frame, start);
    ReadsStep(frame[start..]);
    if start < |frame| {
      ObuEndIs(frame, start);
      if OneObu(frame[start..]).Some? {
        var end := ObuEnd(frame, start).value;
        RestFails(frame, start, end, start);
        FailsIffUnreadable(frame, end);
      }
    }
  }

  lemma ReadsStep(bytes: seq<byte>)
    ensures |bytes| == 0 ==> ReadObus(bytes).Some?
    ensures |bytes| > 0 ==> (ReadObus(bytes).Some? <==> OneObu(bytes).Some? && ReadObus(OneObu(bytes).value.rest).Some?)
  {
    hide OneObu;
  }

  // ----- The heads stay readable -----

  /** The frame's last OBU is one that is sent. */
  ghost predicate EndsKept(bytes: seq<byte>) {
    && ReadObus(bytes).Some?
    && var obus := ReadObus(bytes).value;
       obus != [] && !Dropped(obus[|obus| - 1].Type())
  }

  lemma EndsStep(bytes: seq<byte>)
    requires bytes != [] && OneObu(bytes).Some? && ReadObus(bytes).Some?
    ensures
      var step := OneObu(bytes).value;
      EndsKept(bytes) <==> if step.rest == [] then !Dropped(step.obu.Type()) else EndsKept(step.rest)
  {
    hide OneObu;
    var step := OneObu(bytes).value;
    if step.rest != [] {
      var rest := ReadObus(step.rest).value;
      assert OneObu(step.rest).Some?;
      assert rest != [];
      assert ([step.obu] + rest)[|rest|] == rest[|rest| - 1];
    }
  }

  /** `out` shows the head of every kept OBU where the rewrite puts it. */
  ghost predicate Shows(bytes: seq<byte>, out: seq<byte>)
    requires |bytes| <= ISIZE_MAX
    decreases |bytes|
  {
    if bytes == [] then true
    else
      && OneObu(bytes).Some?
      && var step := OneObu(bytes).value;
         StepWellFormed(bytes);
         if Dropped(step.obu.Type()) then Shows(step.rest, out)
         else |Laid(step)| <= |out| && LaidHead(step) <= out && Shows(step.rest, out[|Laid(step)|..])
  }

  /** A shown head with other bytes behind it reads as an OBU of the same size, or up to the end. */
  lemma ReadsShown(step: Step, out: seq<byte>)
    requires step.obu.WellFormed() && !Dropped(step.obu.Type()) && (!step.hasSize ==> step.rest == [])
    requires |Laid(step)| <= |out| <= ISIZE_MAX && LaidHead(step) <= out
    ensures
      var r := OneObu(out);
      r.Some? && r.value.rest == if step.rest == [] then [] else out[|Laid(step)|..]
  {
    hide OneObu, Leb128.Encode;
    var sized := step.hasSize && step.rest != [];
    var head := LaidHead(step);
    if sized {
      var obu := step.obu.(payload := out[|head|..|Laid(step)|]);
      ReadBack(obu, true, out[|Laid(step)|..]);
      assert Head(obu, true) == head;
      assert out == head + obu.payload + out[|Laid(step)|..];
    } else {
      var obu := step.obu.(payload := out[|head|..]);
      ReadBack(obu, false, []);
      assert Head(obu, false) == head;
      assert out == head + obu.payload + [];
    }
  }

  lemma UnsizedEnds(bytes: seq<byte>)
    requires OneObu(bytes).Some?
    ensures !OneObu(bytes).value.hasSize ==> OneObu(bytes).value.rest == []
  {
  }

  /** If the last OBU is kept it is sent without a size, and takes in whatever is appended to the frame. */
  lemma {:induction false} ShownReads(bytes: seq<byte>, out: seq<byte>)
    requires |bytes| <= ISIZE_MAX && |out| <= ISIZE_MAX && Rewrite(bytes).Some? && EndsKept(bytes) && Shows(bytes, out)
    ensures ReadObus(out).Some?
    decreases |bytes|
  {
    hide OneObu, LaidHead, Laid, EndsKept;
    RewriteKeepsMeaning(bytes);
    NotNothing(bytes);
    var step := OneObu(bytes).value;
    StepWellFormed(bytes);
    EndsStep(bytes);
    UnsizedEnds(bytes);
    if Dropped(step.obu.Type()) {
      ShownReads(step.rest, out);
    } else {
      ReadsShown(step, out);
      if step.rest != [] {
        ShownReads(step.rest, out[|Laid(step)|..]);
      }
    }
  }

  lemma NotNothing(bytes: seq<byte>)
    requires EndsKept(bytes)
    ensures bytes != []
  {
  }

  /** If it is not, the bytes behind the rewrite are read as an OBU of their own. */
  lemma {:induction false} ShownFails(bytes: seq<byte>, out: seq<byte>)
    requires |bytes| <= ISIZE_MAX && |out| <= ISIZE_MAX && Rewrite(bytes).Some? && !EndsKept(bytes) && Shows(bytes, out)
    requires |Rewrite(bytes).value| < |out| && OneObu(out[|Rewrite(bytes).value|..]).None?
    ensures ReadObus(out).None?
    decreases |bytes|
  {
    hide OneObu, LaidHead, Laid, EndsKept;
    if bytes == [] {
      assert out[0..] == out;
    } else {
      RewriteKeepsMeaning(bytes);
      var step := OneObu(bytes).value;
      StepWellFormed(bytes);
      EndsStep(bytes);
      UnsizedEnds(bytes);
      var rest := Rewrite(step.rest).value;
      NothingKept();
      if Dropped(step.obu.Type()) {
        LaidNothing(step);
        assert [] + rest == rest;
        ShownFails(step.rest, out);
      } else {
        ReadsShown(step, out);
        DropDrop(out, |Laid(step)|, |rest|);
        ShownFails(step.rest, out[|Laid(step)|..]);
      }
    }
  }

  lemma NothingKept()
    ensures !EndsKept([])
  {
  }

  lemma LaidNothing(step: Step)
    requires step.obu.WellFormed() && Dropped(step.obu.Type())
    ensures Laid(step) == []
  {
  }

  // ----- What the ciphertext shows -----

  lemma {:induction false} CoversLater(bytes: seq<byte>, at: nat, ranges: seq<Range>, i: nat, n: nat)
    requires |bytes| <= ISIZE_MAX && H26xFrame.Covers(ranges, i, n)
    ensures H26xFrame.Covers(RangesFrom(bytes, at, ranges), i, n)
    decreases |bytes|
  {
    hide OneObu, H26xFrame.Covers, Extended, Laid;
    if bytes != [] && OneObu(bytes).Some? {
      var step := OneObu(bytes).value;
      StepWellFormed(bytes);
      if Dropped(step.obu.Type()) {
        CoversLater(step.rest, at, ranges, i, n);
      } else {
        var m := |LaidHead(step)|;
        H26xFrame.ExtendedCovers(ranges, at, m, i, n);
        CoversLater(step.rest, at + |Laid(step)|, Extended(ranges, at, m), i, n);
      }
    }
  }

  /** A frame that agrees with the rewrite on its ranges shows all heads, whatever is appended. */
  lemma {:induction false} AgreeingShows(bytes: seq<byte>, at: nat, ranges: seq<Range>, laid: seq<byte>, w: seq<byte>, tail: seq<byte>)
    requires |bytes| <= ISIZE_MAX && Rewrite(bytes).Some? && at <= |laid| && laid[at..] == Rewrite(bytes).value
    requires AgreeOn(RangesFrom(bytes, at, ranges), w, laid)
    ensures Shows(bytes, w[at..] + tail)
    decreases |bytes|
  {
    hide OneObu, H26xFrame.Covers, Extended, LaidHead, Laid, AgreeOn;
    SameLength(RangesFrom(bytes, at, ranges), w, laid);
    if bytes != [] {
      var step := OneObu(bytes).value;
      StepWellFormed(bytes);
      var rest := Rewrite(step.rest).value;
      RangesStep(bytes, at, ranges);
      if Dropped(step.obu.Type()) {
        LaidNothing(step);
        assert [] + rest == rest;
        AgreeingShows(step.rest, at, ranges, laid, w, tail);
      } else {
        AgreeingHead(bytes, at, ranges, laid, w, tail);
        var next := at + |Laid(step)|;
        DropDrop(laid, at, |Laid(step)|);
        AgreeingShows(step.rest, next, Extended(ranges, at, |LaidHead(step)|), laid, w, tail);
        DropDrop(w, at, |Laid(step)|);
        assert (w[at..] + tail)[|Laid(step)|..] == w[next..] + tail;
      }
    }
  }

  lemma AgreeingHead(bytes: seq<byte>, at: nat, ranges: seq<Range>, laid: seq<byte>, w: seq<byte>, tail: seq<byte>)
    requires 0 < |bytes| <= ISIZE_MAX && Rewrite(bytes).Some? && at <= |laid| && laid[at..] == Rewrite(bytes).value
    requires AgreeOn(RangesFrom(bytes, at, ranges), w, laid)
    requires OneObu(bytes).Some? && OneObu(bytes).value.obu.WellFormed() && !Dropped(OneObu(bytes).value.obu.Type())
    ensures
      var step := OneObu(bytes).value;
      at + |Laid(step)| <= |laid| && LaidHead(step) <= w[at..] + tail
  {
    hide OneObu, RangesFrom, H26xFrame.Covers, Extended, LaidHead;
    var step := OneObu(bytes).value;
    var head, rest := LaidHead(step), Rewrite(step.rest).value;
    assert laid[at..] == head + step.obu.payload + rest;
    HeadSome(step);
    HeadCovered(bytes, at, ranges);
    assert w[at..at + |head|] == laid[at..at + |head|] == head;
    assert (w[at..] + tail)[..|head|] == w[at..at + |head|];
  }

  lemma HeadSome(step: Step)
    requires step.obu.WellFormed()
    ensures |LaidHead(step)| > 0
  {
  }

  lemma HeadCovered(bytes: seq<byte>, at: nat, ranges: seq<Range>)
    requires 0 < |bytes| <= ISIZE_MAX && OneObu(bytes).Some?
    requires OneObu(bytes).value.obu.WellFormed() && !Dropped(OneObu(bytes).value.obu.Type())
    ensures H26xFrame.Covers(RangesFrom(bytes, at, ranges), at, |LaidHead(OneObu(bytes).value)|)
  {
    hide OneObu, RangesFrom, H26xFrame.Covers, Extended, LaidHead;
    var step := OneObu(bytes).value;
    var m := |LaidHead(step)|;
    HeadSome(step);
    RangesStep(bytes, at, ranges);
    H26xFrame.ExtendedCovers(ranges, at, m, at, m);
    CoversLater(step.rest, at + |Laid(step)|, Extended(ranges, at, m), at, m);
  }

  /**
   * A protected AV1 frame whose last OBU is kept is taken by the packetizer, whatever the key, the nonce and the
   * ciphertext.
   */
  lemma KeptIsSent(cipher: Cipher, frame: seq<byte>, output: seq<byte>, nonce: u32, laid: seq<byte>, ranges: seq<Range>)
    requires |frame| <= ISIZE_MAX && |output| <= ISIZE_MAX && Rewrite(frame) == Some(laid) && EndsKept(frame)
    requires ranges == RangesFrom(frame, 0, []) && Placed(ranges, |laid|) && Faithful(cipher)
    requires Recovers(cipher, ParseFrame(output), nonce, laid, ranges)
    ensures !Av1From(output, 0).failed
  {
    hide Placed, Clear, ParseFrame, Faithful, EndsKept, Rewrite, RangesFrom, AgreeOn, Shows, Av1From, ReadObus, Open;
    var w := ParseFrame(output).interleavedFrame;
    ParsedPrefix(output);
    ClearAgreesOn(ranges, w, laid);
    assert laid[0..] == laid && w[0..] == w && output == w + output[|w|..];
    AgreeingShows(frame, 0, [], laid, w, output[|w|..]);
    ShownReads(frame, output);
    FailsIffUnreadable(output, 0);
    assert output[0..] == output;
  }

  lemma ParsedPrefix(frame: seq<byte>)
    ensures ParseFrame(frame).encrypted ==> ParseFrame(frame).interleavedFrame <= frame
  {
    hide ParseRanges;
  }

  // ----- When the last OBU is not kept -----

  lemma {:induction false} RangesPlaced(bytes: seq<byte>, at: nat, ranges: seq<Range>)
    requires |bytes| <= ISIZE_MAX && Rewrite(bytes).Some? && Placed(ranges, at) && Coalesced(ranges)
    ensures Placed(RangesFrom(bytes, at, ranges), at + |Rewrite(bytes).value|)
    decreases |bytes|
  {
    hide OneObu, Placed, Coalesced, Extended, LaidHead;
    if bytes != [] {
      var step := OneObu(bytes).value;
      StepWellFormed(bytes);
      if Dropped(step.obu.Type()) {
        RangesPlaced(step.rest, at, ranges);
      } else {
        var m := |LaidHead(step)|;
        ExtendedPlaced(ranges, at, m);
        PlacedMonotone(Extended(ranges, at, m), at + m, at + |Laid(step)|);
        RangesPlaced(step.rest, at + |Laid(step)|, Extended(ranges, at, m));
      }
    }
  }

  lemma LayoutPlaced(frame: seq<byte>)
    requires |frame| <= ISIZE_MAX
    ensures
      var layout := FrameLayout(Av1, frame);
      Placed(layout.ranges, |layout.laid|) && |layout.laid| <= |frame|
  {
    hide Rewrite, RangesFrom;
    if Rewrite(frame).Some? {
      RangesPlaced(frame, 0, []);
      RewriteFits(frame);
    }
  }

  /** The first `m` bytes are all ones. */
  predicate StartsWithOnes(data: seq<byte>, m: nat) {
    m <= |data| && forall i :: 0 <= i < m ==> data[i] == 255
  }

  lemma {:induction false} DecodeOnes(data: seq<byte>, depth: nat, m: nat)
    requires StartsWithOnes(data, m) && depth + m <= 10 && depth <= 9
    ensures Leb128.Decode(data, depth).Some? ==> Leb128.Decode(data, depth).value.value + 1 >= Leb128.Pow128(m)
    ensures depth + m == 10 ==> Leb128.Decode(data, depth).None?
    decreases m
  {
    if m > 0 && depth < 9 {
      DecodeOnes(data[1..], depth + 1, m - 1);
    }
  }

  /** All ones make a header that announces more than there is. */
  lemma OnesUnreadable(out: seq<byte>)
    requires StartsWithOnes(out, 8) && (|out| < 16383 || StartsWithOnes(out, 12))
    ensures OneObu(out).None?
  {
    assert HeaderLen(255) == 2 && Bit(255, 1);
    if |out| < 16383 {
      DecodeOnes(out[2..], 0, 2);
      assert Leb128.Pow128(2) == 16384;
    } else {
      DecodeOnes(out[2..], 0, 10);
    }
    hide Leb128.Decode;
  }

  /** For every key and ciphertext the packetizer takes what comes out, if anything does. */
  ghost predicate AlwaysSent(layout: Layout, nonce: u32)
    requires Placed(layout.ranges, |layout.laid|)
  {
    forall cipher: Cipher :: Faithful(cipher) ==> SentWith(cipher, layout, nonce)
  }

  ghost predicate SentWith(cipher: Cipher, layout: Layout, nonce: u32)
    requires Placed(layout.ranges, |layout.laid|) && Faithful(cipher)
  {
    var sealed := Seal(cipher, nonce, Clear(layout.laid, layout.ranges), Hidden(layout.laid, layout.ranges), layout.ranges);
    sealed.Ok? ==> !Av1From(sealed.output, 0).failed
  }

  lemma TailLength(nonce: u32, ranges: seq<Range>)
    requires SupplementalSize(nonce, ranges) <= 0xFF
    ensures |ONES + Tail(nonce, ranges)| == SupplementalSize(nonce, ranges) && StartsWithOnes(ONES + Tail(nonce, ranges), 8)
  {
    hide Leb128.Encode;
  }

  /** The last OBU is dropped: with an all-ones tag the packetizer fails. */
  lemma DroppedIsRefused(frame: seq<byte>, nonce: u32)
    requires |frame| + 0x200 <= ISIZE_MAX && Rewrite(frame).Some? && !EndsKept(frame)
    requires
      var layout := FrameLayout(Av1, frame);
      Placed(layout.ranges, |layout.laid|) && SupplementalSize(nonce, layout.ranges) <= 0xFF && Faithful(Adding([], ONES))
    ensures !SentWith(Adding([], ONES), FrameLayout(Av1, frame), nonce)
  {
    hide Placed, Clear, Hidden, Weave, AddKey, Faithful, EndsKept, Rewrite, RangesFrom, Seal, Av1From, ReadObus, OneObu,
         SupplementalSize, Tail, Adding;
    var layout := FrameLayout(Av1, frame);
    var laid, ranges := layout.laid, layout.ranges;
    var tail := ONES + Tail(nonce, ranges);
    SealAdding([], ONES, layout.laid, layout.ranges, nonce);
    AddNothing(Hidden(laid, ranges));
    WeaveOfSplit(laid, ranges);
    Associate(laid, ONES, Tail(nonce, ranges));
    var output := laid + tail;
    TailLength(nonce, ranges);
    RewriteFits(frame);
    AgreesWithItself(ranges, laid);
    assert laid[0..] == laid;
    AgreeingShows(frame, 0, [], laid, laid, tail);
    assert output[|laid|..] == tail && output[0..] == output;
    OnesUnreadable(tail);
    ShownFails(frame, output);
    FailsIffUnreadable(output, 0);
  }

  /** The frame falls back to being wholly hidden: with an all-ones ciphertext the packetizer fails. */
  lemma FallbackIsRefused(frame: seq<byte>, nonce: u32)
    requires |frame| <= ISIZE_MAX && Rewrite(frame).None? && SupplementalSize(nonce, []) <= 0xFF
    requires Faithful(Adding(Complement(frame), ONES))
    ensures FrameLayout(Av1, frame) == Layout(frame, [])
    ensures !SentWith(Adding(Complement(frame), ONES), FrameLayout(Av1, frame), nonce)
  {
    hide Clear, Hidden, Weave, AddKey, Faithful, Rewrite, Seal, Av1From, ReadObus, OneObu, SupplementalSize, Tail, Adding,
         Placed, Complement, FrameLayout;
    FallbackLayout(frame);
    var layout, key := Layout(frame, []), Complement(frame);
    var c, tail := AddKey(frame, key), ONES + Tail(nonce, []);
    NoRanges(frame, c);
    SealAdding(key, ONES, layout.laid, layout.ranges, nonce);
    AddComplement(frame);
    TailLength(nonce, []);
    Associate(c, ONES, Tail(nonce, []));
    var output := c + tail;
    OnesOnward(c, tail);
    OnesUnreadable(output);
    ReadsStep(output);
    FailsIffUnreadable(output, 0);
    assert output[0..] == output;
  }

  lemma NoRanges(frame: seq<byte>, c: seq<byte>)
    ensures Placed([], |frame|) && Clear(frame, []) == [] && Hidden(frame, []) == frame
    ensures Weavable([], c, []) && Weave([], c, []) == c
  {
  }

  lemma OnesOnward(c: seq<byte>, tail: seq<byte>)
    requires StartsWithOnes(c, |c|) && StartsWithOnes(tail, 8) && |tail| <= 0xFF
    ensures StartsWithOnes(c + tail, 8) && (|c + tail| < 16383 || StartsWithOnes(c + tail, 12))
  {
  }

  /** A sealed frame recovers what was laid out, and its last OBU being kept is enough. */
  lemma KeptIsAlwaysSent(cipher: Cipher, frame: seq<byte>, nonce: u32)
    requires |frame| + 0x200 <= ISIZE_MAX && Rewrite(frame).Some? && EndsKept(frame) && Faithful(cipher)
    requires
      var layout := FrameLayout(Av1, frame);
      Placed(layout.ranges, |layout.laid|)
    ensures SentWith(cipher, FrameLayout(Av1, frame), nonce)
  {
    hide Placed, Clear, Hidden, Faithful, EndsKept, Rewrite, RangesFrom, Av1From, ParseFrame, Recovers, Weave, Tail;
    var layout := FrameLayout(Av1, frame);
    var laid, ranges := layout.laid, layout.ranges;
    RewriteFits(frame);
    OpenOfSeal(cipher, nonce, laid, ranges);
    var sealed := Seal(cipher, nonce, Clear(laid, ranges), Hidden(laid, ranges), ranges);
    if sealed.Ok? {
      SealedSize(cipher, nonce, laid, ranges);
      KeptIsSent(cipher, frame, sealed.output, nonce, laid, ranges);
    }
  }

  /**
   * Every way of protecting an AV1 frame gives something the packetizer takes if and only if the frame reads as
   * OBUs the rewrite accepts and the last of them is kept.
   */
  lemma SentExactly(frame: seq<byte>, nonce: u32)
    requires |frame| + 0x200 <= ISIZE_MAX && SupplementalSize(nonce, FrameLayout(Av1, frame).ranges) <= 0xFF
    ensures
      var layout := FrameLayout(Av1, frame);
      && Placed(layout.ranges, |layout.laid|)
      && (AlwaysSent(layout, nonce) <==> Rewrite(frame).Some? && EndsKept(frame))
  {
    hide Placed, Faithful, EndsKept, Rewrite, SentWith, FrameLayout, SupplementalSize, Adding;
    var layout := FrameLayout(Av1, frame);
    LayoutPlaced(frame);
    AddingFaithful([], ONES);
    AddingFaithful(Complement(frame), ONES);
    if Rewrite(frame).Some? && EndsKept(frame) {
      forall cipher: Cipher | Faithful(cipher)
        ensures SentWith(cipher, layout, nonce)
      {
        KeptIsAlwaysSent(cipher, frame, nonce);
      }
    } else if Rewrite(frame).Some? {
      DroppedIsRefused(frame, nonce);
    } else {
      FallbackLayout(frame);
      FallbackIsRefused(frame, nonce);
    }
  }

  lemma FallbackLayout(frame: seq<byte>)
    requires |frame| <= ISIZE_MAX && Rewrite(frame).None?
    ensures FrameLayout(Av1, frame) == Layout(frame, [])
  {
    hide Rewrite, RangesFrom, H26xLayout;
  }

  /**
   * A frame that ends in padding: the rewrite keeps the size of the OBU before it, and the tag is read as an OBU. Under
   * every nonce some ciphertext of it is refused.
   */
  lemma PaddingExample(nonce: u32)
    ensures
      var frame: seq<byte> := [0x32, 1, 7, 0x7A, 1, 0];
      var layout := FrameLayout(Av1, frame);
      && Rewrite(frame) == Some([0x32, 1, 7]) && !EndsKept(frame)
      && SupplementalSize(nonce, layout.ranges) <= 0xFF
      && Placed(layout.ranges, |layout.laid|) && !AlwaysSent(layout, nonce)
  {
    hide Rewrite, EndsKept, RangesFrom, SupplementalSize, Placed, AlwaysSent;
    PaddingDropped();
    PaddingRanges();
    ShortNonce(nonce);
    SentExactly([0x32, 1, 7, 0x7A, 1, 0], nonce);
  }

  lemma ShortNonce(nonce: u32)
    ensures SupplementalSize(nonce, [Range(0, 2)]) <= 0xFF
  {
    hide Leb128.Encode;
    Leb128.AtMostFive(nonce);
    assert RangeBytes([]) == [] && RangeBytes([Range(0, 2)]) == Leb128.Encode(0) + Leb128.Encode(2) + [];
    TwoBytes();
  }

  lemma TwoBytes()
    ensures |Leb128.Encode(0)| == 1 && |Leb128.Encode(2)| == 1
  {
  }

  lemma PaddingRanges()
    ensures RangesFrom([0x32, 1, 7, 0x7A, 1, 0], 0, []) == [Range(0, 2)]
  {
    hide Head, OneObu;
    PaddingReads();
    var frame: seq<byte> := [0x32, 1, 7, 0x7A, 1, 0];
    var rest: seq<byte> := [0x7A, 1, 0];
    assert RangesFrom(rest, 3, [Range(0, 2)]) == [Range(0, 2)];
  }

  lemma PaddingDropped()
    ensures
      var frame: seq<byte> := [0x32, 1, 7, 0x7A, 1, 0];
      Rewrite(frame) == Some([0x32, 1, 7]) && !EndsKept(frame)
  {
    hide Head, OneObu;
    var frame: seq<byte> := [0x32, 1, 7, 0x7A, 1, 0];
    var rest: seq<byte> := [0x7A, 1, 0];
    PaddingReads();
    var nothing: seq<byte> := [];
    assert nothing + nothing == nothing;
    assert Rewrite(rest) == Some(nothing);
    var obu := Obu(0x30, None, [7]);
    assert Laid(Step(obu, true, rest)) == [0x32, 1, 7] && [0x32, 1, 7] + nothing == [0x32, 1, 7];
    EndsStep(frame);
    EndsStep(rest);
  }

  lemma PaddingReads()
    ensures OneObu([0x32, 1, 7, 0x7A, 1, 0]) == Some(Step(Obu(0x30, None, [7]), true, [0x7A, 1, 0]))
    ensures OneObu([0x7A, 1, 0]) == Some(Step(Obu(0x78, None, [0]), true, []))
    ensures Head(Obu(0x30, None, [7]), true) == [0x32, 1]
  {
    var frame: seq<byte> := [0x32, 1, 7, 0x7A, 1, 0];
    var rest: seq<byte> := [0x7A, 1, 0];
    assert Leb128.Decode(frame[1..]) == Some(Leb128.Decoded(1, 1));
    assert Leb128.Decode(rest[1..]) == Some(Leb128.Decoded(1, 1));
    assert frame[3..] == rest && frame[2..3] == [7] && rest[2..3] == [0] && rest[3..] == [];
    assert Leb128.Encode(1) == [1];
  }
}
