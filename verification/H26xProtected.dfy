/** Sending a protected H264 or H265 frame: which ones come back whole (dave/src/frame.rs, cacophony/src/rtp_payload.rs). */
module H26xProtected {
  import opened Prelude
  import opened Codecs
  import opened Interleave
  import opened AnnexB
  import opened Frame
  import opened FrameProcessor
  import opened FrameCodecs
  import opened H26xFrame
  import opened H26xValidation
  import opened RtpPayload
  import opened Packetizer
  import opened MediaPath
  import opened H26xMediaPath
  import opened StreamMedia
  import opened Ciphers
  import Assembler
  import Leb128

  // ----- Units cut out of the protected bytes -----

  /** `bytes` shows a long start code and the first byte of every unit where their join has them. */
  ghost predicate ShowsHeads(units: seq<seq<byte>>, bytes: seq<byte>) {
    if units == [] then true
    else
      && 4 + |units[0]| <= |bytes| && LONG_START_CODE <= bytes
      && (units[0] != [] ==> bytes[4] == units[0][0])
      && ShowsHeads(units[1..], bytes[4 + |units[0]|..])
  }

  /** What `bytes` has in the places of the units; the last one takes the rest. */
  ghost function Recut(units: seq<seq<byte>>, bytes: seq<byte>): (cut: seq<seq<byte>>)
    requires ShowsHeads(units, bytes)
    ensures |cut| == |units|
  {
    if units == [] then []
    else if |units| == 1 then [bytes[4..]]
    else [bytes[4..4 + |units[0]|]] + Recut(units[1..], bytes[4 + |units[0]|..])
  }

  lemma {:induction false} RecutJoins(units: seq<seq<byte>>, bytes: seq<byte>)
    requires ShowsHeads(units, bytes) && units != []
    ensures Join(Recut(units, bytes)) == bytes
    decreases |units|
  {
    var cut := Recut(units, bytes);
    if |units| == 1 {
      assert Join(cut[1..]) == [];
      assert bytes == LONG_START_CODE + bytes[4..] + [];
    } else {
      var n := 4 + |units[0]|;
      RecutJoins(units[1..], bytes[n..]);
      assert cut[1..] == Recut(units[1..], bytes[n..]);
      assert bytes == LONG_START_CODE + bytes[4..n] + bytes[n..];
    }
  }

  /** The cut units have the sizes of the units, but for what is appended to the last one, and their first bytes. */
  lemma {:induction false} RecutAt(units: seq<seq<byte>>, bytes: seq<byte>, k: nat)
    requires ShowsHeads(units, bytes) && k < |units|
    ensures |Join(units)| <= |bytes|
    ensures |Recut(units, bytes)[k]| == SentSize(units, k, |bytes| - |Join(units)|)
    ensures units[k] != [] ==> Recut(units, bytes)[k][0] == units[k][0]
    decreases |units|
  {
    var n := 4 + |units[0]|;
    if |units| == 1 {
      assert Join(units[1..]) == [];
    } else {
      RecutAt(units[1..], bytes[n..], if k == 0 then 0 else k - 1);
    }
  }

  /** What unit `k` measures on the wire when `extra` bytes follow the last one. */
  function SentSize(units: seq<seq<byte>>, k: nat, extra: nat): nat
    requires k < |units|
  {
    |units[k]| + if k == |units| - 1 then extra else 0
  }

  lemma HeadsStep(units: seq<seq<byte>>, bytes: seq<byte>)
    requires ShowsHeads(units, bytes) && units != []
    ensures
      var n := 4 + |units[0]|;
      && n <= |bytes| && LONG_START_CODE <= bytes && ShowsHeads(units[1..], bytes[n..])
      && |Join(units)| == n + |Join(units[1..])| && (|units| == 1 ==> |Join(units)| == n)
  {
  }

  /** An empty last unit would show its start code as soon as something follows it. */
  lemma {:induction false} EmptyLastShows(units: seq<seq<byte>>, bytes: seq<byte>)
    requires ShowsHeads(units, bytes) && units != []
    ensures units[|units| - 1] == [] ==> |Join(units)| >= 4 && StartCodeAt(bytes, |Join(units)| - 3)
    decreases |units|
  {
    hide StartCodeAt, ShowsHeads, Join;
    HeadsStep(units, bytes);
    if |units| == 1 {
      OpensWithCode(bytes);
    } else {
      var n, j := 4 + |units[0]|, |Join(units[1..])|;
      EmptyLastShows(units[1..], bytes[n..]);
      JoinedShown(units[1..], bytes[n..]);
      assert bytes[n..|bytes|] == bytes[n..];
      if j >= 4 {
        SliceCode(bytes, n, |bytes|, j - 3);
      }
    }
  }

  lemma {:induction false} JoinedShown(units: seq<seq<byte>>, bytes: seq<byte>)
    requires ShowsHeads(units, bytes)
    ensures |Join(units)| <= |bytes|
  {
    if units != [] {
      JoinedShown(units[1..], bytes[4 + |units[0]|..]);
    }
  }

  lemma OpensWithCode(bytes: seq<byte>)
    requires LONG_START_CODE <= bytes
    ensures StartCodeAt(bytes, 1)
  {
    assert bytes[1] == LONG_START_CODE[1] && bytes[2] == LONG_START_CODE[2] && bytes[3] == LONG_START_CODE[3];
  }

  lemma LastNotEmpty(units: seq<seq<byte>>, bytes: seq<byte>)
    requires ShowsHeads(units, bytes) && units != [] && |Join(units)| < |bytes|
    requires forall i: nat :: Visible(bytes, i) <==> Visible(Join(units), i)
    ensures units[|units| - 1] != []
  {
    hide ShowsHeads, Join, StartCodeAt;
    EmptyLastShows(units, bytes);
    assert |Join(units)| >= 4 ==> !Visible(bytes, |Join(units)| - 3);
  }

  // ----- Heads are clear -----

  lemma {:induction false} CoversLater(codec: H26x, frame: seq<byte>, next: Option<Nalu>, at: nat, ranges: seq<Range>, i: nat, n: nat)
    requires next.Some? ==> AfterCode(frame, next.value)
    requires RangesFrom(codec, frame, next, at, ranges).Some? && Covers(ranges, i, n)
    ensures Covers(RangesFrom(codec, frame, next, at, ranges).value, i, n)
    decreases if next.Some? then |frame| - next.value.start else 0
  {
    hide Covers, Extended, ClearBytes, NextNalu, AfterCode;
    if next.Some? && next.value.start < |frame| - 1 {
      var nalu := next.value;
      UnitBounds(frame, nalu);
      NextLater(frame, nalu);
      var end := NaluEnd(frame, nalu);
      var m := ClearBytes(codec, frame, nalu.start, end).value;
      CoversExtended(ranges, at, 4, i, n);
      CoversExtended(Extended(ranges, at, 4), at + 4, m, i, n);
      CoversLater(codec, frame, NextNalu(frame, nalu.start), at + 4 + (end - nalu.start),
                  Extended(Extended(ranges, at, 4), at + 4, m), i, n);
    }
  }

  lemma NextLater(frame: seq<byte>, nalu: Nalu)
    requires AfterCode(frame, nalu)
    ensures var next := NextNalu(frame, nalu.start); next.Some? ==> AfterCode(frame, next.value) && nalu.start < next.value.start
  {
  }

  lemma CoversExtended(ranges: seq<Range>, at: nat, m: nat, i: nat, n: nat)
    requires Covers(ranges, i, n)
    ensures Covers(Extended(ranges, at, m), i, n)
  {
    hide Covers;
    if m > 0 {
      ExtendedCovers(ranges, at, m, i, n);
    }
  }

  /** The first byte of a unit is clear. */
  lemma ClearSome(codec: H26x, frame: seq<byte>, start: nat, end: nat)
    requires start < end <= |frame|
    ensures ClearBytes(codec, frame, start, end).Some? ==> ClearBytes(codec, frame, start, end).value > 0
  {
    hide PpsBytes;
  }

  /** The start code and the first byte of the unit at `next` are clear. */
  lemma HeadCovered(codec: H26x, frame: seq<byte>, nalu: Nalu, at: nat, ranges: seq<Range>)
    requires AfterCode(frame, nalu) && nalu.start < |frame| - 1 && RangesFrom(codec, frame, Some(nalu), at, ranges).Some?
    ensures
      var all := RangesFrom(codec, frame, Some(nalu), at, ranges).value;
      Covers(all, at, 4) && (NaluEnd(frame, nalu) > nalu.start ==> Covers(all, at + 4, 1))
  {
    hide Covers, Extended, ClearBytes, NextNalu, AfterCode, RangesFrom;
    UnitBounds(frame, nalu);
    NextLater(frame, nalu);
    RangesStep(codec, frame, nalu, at, ranges);
    var end := NaluEnd(frame, nalu);
    var m := ClearBytes(codec, frame, nalu.start, end).value;
    var first := Extended(ranges, at, 4);
    var wider := Extended(first, at + 4, m);
    var next, after := NextNalu(frame, nalu.start), at + 4 + (end - nalu.start);
    ExtendedCovers(ranges, at, 4, at, 4);
    CoversExtended(first, at + 4, m, at, 4);
    CoversLater(codec, frame, next, after, wider, at, 4);
    if end > nalu.start {
      ClearSome(codec, frame, nalu.start, end);
      ExtendedCovers(first, at + 4, m, at + 4, 1);
      CoversLater(codec, frame, next, after, wider, at + 4, 1);
    }
  }

  /** Bytes that agree with the laid-out ones where those are clear show all heads, whatever is appended. */
  lemma {:induction false} AgreeingHeads(codec: H26x, frame: seq<byte>, next: Option<Nalu>, at: nat, ranges: seq<Range>,
                                         laid: seq<byte>, w: seq<byte>, tail: seq<byte>)
    requires next.Some? ==> AfterCode(frame, next.value)
    requires RangesFrom(codec, frame, next, at, ranges).Some? && at <= |laid| && laid[at..] == Join(KeptFrom(frame, next))
    requires AgreeOn(RangesFrom(codec, frame, next, at, ranges).value, w, laid)
    ensures at <= |w| && ShowsHeads(KeptFrom(frame, next), w[at..] + tail)
    decreases if next.Some? then |frame| - next.value.start else 0
  {
    hide Covers, Extended, ClearBytes, NextNalu, AfterCode, AgreeOn, RangesFrom, Join;
    SameLength(RangesFrom(codec, frame, next, at, ranges).value, w, laid);
    if next.Some? && next.value.start < |frame| - 1 {
      var nalu := next.value;
      UnitBounds(frame, nalu);
      NextLater(frame, nalu);
      RangesStep(codec, frame, nalu, at, ranges);
      KeptHead(frame, nalu, at, laid);
      AgreeingHead(codec, frame, nalu, at, ranges, laid, w, tail);
      var end := NaluEnd(frame, nalu);
      var after, m := at + 4 + (end - nalu.start), ClearBytes(codec, frame, nalu.start, end).value;
      AgreeingHeads(codec, frame, NextNalu(frame, nalu.start), after, Extended(Extended(ranges, at, 4), at + 4, m), laid, w, tail);
      assert (w[at..] + tail)[after - at..] == w[after..] + tail;
    }
  }

  lemma KeptHead(frame: seq<byte>, nalu: Nalu, at: nat, laid: seq<byte>)
    requires AfterCode(frame, nalu) && nalu.start < |frame| - 1
    requires at <= |laid| && laid[at..] == Join(KeptFrom(frame, Some(nalu)))
    ensures
      var unit, rest := frame[nalu.start..NaluEnd(frame, nalu)], KeptFrom(frame, NextNalu(frame, nalu.start));
      var after := at + 4 + |unit|;
      && KeptFrom(frame, Some(nalu)) == [unit] + rest && KeptFrom(frame, Some(nalu))[1..] == rest
      && after <= |laid| && laid[at..at + 4] == LONG_START_CODE && laid[at + 4..after] == unit && laid[after..] == Join(rest)
  {
    hide NextNalu, NaluEnd;
    var unit, rest := frame[nalu.start..NaluEnd(frame, nalu)], KeptFrom(frame, NextNalu(frame, nalu.start));
    var kept := KeptFrom(frame, Some(nalu));
    assert kept == [unit] + rest && kept[1..] == rest;
    ThreeParts(laid, at, LONG_START_CODE, unit, Join(rest));
  }

  lemma ThreeParts(bytes: seq<byte>, at: nat, a: seq<byte>, b: seq<byte>, c: seq<byte>)
    requires at <= |bytes| && bytes[at..] == a + b + c
    ensures
      var i, j := at + |a|, at + |a| + |b|;
      j <= |bytes| && bytes[at..i] == a && bytes[i..j] == b && bytes[j..] == c
  {
    var all := bytes[at..];
    assert bytes[at..at + |a|] == all[..|a|] && bytes[at + |a|..at + |a| + |b|] == all[|a|..|a| + |b|];
    assert bytes[at + |a| + |b|..] == all[|a| + |b|..];
  }

  lemma AgreeingHead(codec: H26x, frame: seq<byte>, nalu: Nalu, at: nat, ranges: seq<Range>, laid: seq<byte>, w: seq<byte>,
                     tail: seq<byte>)
    requires AfterCode(frame, nalu) && nalu.start < |frame| - 1 && RangesFrom(codec, frame, Some(nalu), at, ranges).Some?
    requires AgreeOn(RangesFrom(codec, frame, Some(nalu), at, ranges).value, w, laid)
    requires at + 4 + (NaluEnd(frame, nalu) - nalu.start) <= |laid| && laid[at..at + 4] == LONG_START_CODE
    requires laid[at + 4..at + 4 + (NaluEnd(frame, nalu) - nalu.start)] == frame[nalu.start..NaluEnd(frame, nalu)]
    ensures at <= |w| && LONG_START_CODE <= w[at..] + tail
    ensures NaluEnd(frame, nalu) > nalu.start ==> |w[at..] + tail| > 4 && (w[at..] + tail)[4] == frame[nalu.start]
  {
    hide Covers, NextNalu, AfterCode, RangesFrom;
    HeadCovered(codec, frame, nalu, at, ranges);
    assert w[at..at + 4] == LONG_START_CODE;
    assert (w[at..] + tail)[..4] == w[at..at + 4];
    if NaluEnd(frame, nalu) > nalu.start {
      var unit := laid[at + 4..at + 4 + (NaluEnd(frame, nalu) - nalu.start)];
      assert laid[at + 4] == unit[0] == frame[nalu.start];
      assert w[at + 4..at + 4 + 1][0] == laid[at + 4..at + 4 + 1][0];
    }
  }

  // ----- The units of the output -----

  /** No start code hides at the very end. */
  predicate PlainEnd(bytes: seq<byte>) {
    bytes != [] && bytes[|bytes| - 1] != 1
  }

  ghost predicate NoNewCodes(laid: seq<byte>, output: seq<byte>) {
    PlainEnd(output) && forall i: nat :: Visible(output, i) ==> Visible(laid, i)
  }

  ghost predicate AllFree(units: seq<seq<byte>>) {
    forall k :: 0 <= k < |units| ==> CodeFree(units[k])
  }

  lemma AllFreeCons(unit: seq<byte>, rest: seq<seq<byte>>)
    requires CodeFree(unit) && AllFree(rest)
    ensures AllFree([unit] + rest)
  {
    hide CodeFree;
  }

  /** The units cut out of `bytes` from `at` on. */
  ghost function RecutFrom(units: seq<seq<byte>>, bytes: seq<byte>, at: nat): seq<seq<byte>>
    requires at <= |bytes| && ShowsHeads(units, bytes[at..])
  {
    Recut(units, bytes[at..])
  }

  lemma NothingFree(bytes: seq<byte>, at: nat)
    requires at <= |bytes| && ShowsHeads([], bytes[at..])
    ensures AllFree(RecutFrom([], bytes, at))
  {
  }

  lemma KeptSome(frame: seq<byte>, next: Option<Nalu>)
    requires (next.Some? ==> AfterCode(frame, next.value)) && KeptFrom(frame, next) != []
    ensures next.Some? && next.value.start < |frame| - 1
  {
  }

  /** If the output shows no other start codes than the laid-out bytes, the cut units contain none. */
  lemma {:induction false} RecutFree(frame: seq<byte>, next: Option<Nalu>, at: nat, laid: seq<byte>, output: seq<byte>,
                                     kept: seq<seq<byte>>)
    requires next.Some? ==> AfterCode(frame, next.value)
    requires kept == KeptFrom(frame, next) && at <= |laid| && laid[at..] == Join(kept)
    requires at <= |output| && ShowsHeads(kept, output[at..]) && NoNewCodes(laid, output)
    ensures AllFree(RecutFrom(kept, output, at))
    decreases |kept|
  {
    hide NextNalu, NaluEnd, AfterCode, Join, NoNewCodes, CodeFree, KeptFrom, RecutFrom, ShowsHeads, AllFree;
    if kept == [] {
      NothingFree(output, at);
    } else {
      KeptSome(frame, next);
      var nalu := next.value;
      UnitBounds(frame, nalu);
      NextLater(frame, nalu);
      KeptHead(frame, nalu, at, laid);
      RecutStep(kept, output, at);
      NextIfMore(frame, nalu);
      var unit, rest, after := kept[0], kept[1..], at + 4 + |kept[0]|;
      FirstFree(frame, nalu, at, laid, output, unit, rest);
      RecutFree(frame, NextNalu(frame, nalu.start), after, laid, output, rest);
      AllFreeCons(if rest == [] then output[at + 4..] else output[at + 4..after], RecutFrom(rest, output, after));
    }
  }

  lemma NextIfMore(frame: seq<byte>, nalu: Nalu)
    requires AfterCode(frame, nalu)
    ensures
      var rest := KeptFrom(frame, NextNalu(frame, nalu.start));
      (rest != [] ==> NextNalu(frame, nalu.start).Some?) && (rest == [] ==> Join(rest) == [])
  {
    hide NextNalu;
  }

  lemma RecutStep(units: seq<seq<byte>>, bytes: seq<byte>, at: nat)
    requires at <= |bytes| && ShowsHeads(units, bytes[at..]) && units != []
    ensures
      var after := at + 4 + |units[0]|;
      && after <= |bytes| && ShowsHeads(units[1..], bytes[after..])
      && RecutFrom(units, bytes, at)
         == [if units[1..] == [] then bytes[at + 4..] else bytes[at + 4..after]] + RecutFrom(units[1..], bytes, after)
  {
    var tail, after := bytes[at..], at + 4 + |units[0]|;
    assert tail[4 + |units[0]|..] == bytes[after..];
    assert tail[4..4 + |units[0]|] == bytes[at + 4..after] && tail[4..] == bytes[at + 4..];
  }

  lemma FirstFree(frame: seq<byte>, nalu: Nalu, at: nat, laid: seq<byte>, output: seq<byte>, unit: seq<byte>, rest: seq<seq<byte>>)
    requires AfterCode(frame, nalu) && unit == frame[nalu.start..NaluEnd(frame, nalu)]
    requires rest != [] ==> NextNalu(frame, nalu.start).Some?
    requires at + 4 + |unit| <= |laid| && at + 4 + |unit| <= |output|
    requires laid[at + 4..at + 4 + |unit|] == unit && (rest == [] ==> |laid| == at + 4 + |unit|)
    requires NoNewCodes(laid, output)
    ensures CodeFree(if rest == [] then output[at + 4..] else output[at + 4..at + 4 + |unit|])
  {
    hide NextNalu, NaluEnd, AfterCode;
    var after := at + 4 + |unit|;
    var end := if rest == [] then |output| else after;
    var cut := output[at + 4..end];
    assert rest == [] ==> output[at + 4..] == cut && |laid| == after;
    forall i: nat
      ensures !StartCodeAt(cut, i)
    {
      if StartCodeAt(cut, i) {
        var p := at + 4 + i;
        SliceCode(output, at + 4, end, i);
        assert Visible(output, p);
        if p + 3 <= after {
          SliceCode(laid, at + 4, after, i);
          UnitIsQuiet(frame, nalu, i);
        }
      }
    }
  }

  /** The units of the output are the kept units, hidden bytes enciphered, with tag and trailer on the last one. */
  lemma UnitsAre(frame: seq<byte>, laid: seq<byte>, output: seq<byte>)
    requires laid == Join(Kept(frame)) && Kept(frame) != [] && |laid| < |output|
    requires ShowsHeads(Kept(frame), output) && PlainEnd(output)
    requires forall i: nat :: Visible(output, i) <==> Visible(laid, i)
    ensures Units(output) == Recut(Kept(frame), output) && Kept(frame)[|Kept(frame)| - 1] != []
  {
    hide NextNalu, Join, Units, CodeFree, ShowsHeads, KeptFrom, Recut, StartCodeAt;
    var kept := Kept(frame);
    assert laid[0..] == laid && output[0..] == output;
    var cut := Recut(kept, output);
    RecutFree(frame, NextNalu(frame, 0), 0, laid, output, kept);
    RecutAt(kept, output, |kept| - 1);
    RecutJoins(kept, output);
    UnitsOfSplittable(cut);
    LastNotEmpty(kept, output);
  }

  // ----- Which units travel -----

  predicate OrdinaryUnit(codec: H26x, unit: seq<byte>)
    requires unit != []
  {
    NalType(codec, unit[0]) != AggregationType(codec) && NalType(codec, unit[0]) != FragmentType(codec)
  }

  /** No unit has one of the two types that only payload formats use (sections 5.2 of RFC 6184 and 4.4 of RFC 7798). */
  predicate Ordinary(codec: H26x, units: seq<seq<byte>>) {
    forall i :: 0 <= i < |units| && units[i] != [] ==> OrdinaryUnit(codec, units[i])
  }

  predicate UnitTravels(codec: H26x, units: seq<seq<byte>>, i: nat, extra: nat)
    requires i < |units|
  {
    && units[i] != []
    && if SentSize(units, i, extra) > MAX_PAYLOAD then i == 0
       else SentSize(units, i, extra) >= NalHeaderBytes(codec) && IsSingleType(codec, NalType(codec, units[i][0]))
  }

  /**
   * With `extra` bytes behind the last unit: none is empty, only the first is fragmented, and those that travel whole
   * are of a type that may.
   */
  predicate Travels(codec: H26x, units: seq<seq<byte>>, extra: nat) {
    forall i :: 0 <= i < |units| ==> UnitTravels(codec, units, i, extra)
  }

  /** What becomes of a cut unit follows from size and first byte of the unit. */
  lemma CutUnit(codec: H26x, units: seq<seq<byte>>, bytes: seq<byte>, k: nat)
    requires ShowsHeads(units, bytes) && |Join(units)| <= |bytes| && k < |units| && units[k] != [] && OrdinaryUnit(codec, units[k])
    ensures
      var cut := Recut(units, bytes)[k];
      && cut != [] && (Sendable(codec, cut) || Unreadable(codec, cut))
      && (UnitTravels(codec, units, k, |bytes| - |Join(units)|) <==> Sendable(codec, cut) && (Fragmented(cut) ==> k == 0))
      && (Unreadable(codec, cut) ==> !Sendable(codec, cut))
  {
    hide ShowsHeads, Recut, Join;
    RecutAt(units, bytes, k);
  }

  lemma {:induction false} JoinNonEmpty(units: seq<seq<byte>>)
    ensures |Join(NonEmpty(units))| <= |Join(units)|
    ensures [] in units ==> |Join(NonEmpty(units))| < |Join(units)|
  {
    if units != [] {
      JoinNonEmpty(units[1..]);
      assert units[0] != [] ==> NonEmpty(units)[1..] == NonEmpty(units[1..]);
    }
  }

  lemma UnreadableNotCarried(codec: H26x, sent: seq<seq<byte>>, unit: seq<byte>, bytes: seq<byte>, stream: Stream)
    requires unit in sent && Unreadable(codec, unit) && stream.codec == CodecOf(codec)
    ensures !Carries(stream, H26xPieces(codec, sent), bytes)
  {
    hide Unreadable, H26xPieces, Feed, Sent;
    UnreadableFails(codec, sent, unit, stream, Assembler.EMPTY, 0, 0);
    assert !CarriesAt(stream, H26xPieces(codec, sent), bytes, 0, 0);
  }

  lemma ShortNotCarried(codec: H26x, sent: seq<seq<byte>>, bytes: seq<byte>, stream: Stream)
    requires AllSendable(codec, sent) && sent != [] && |Join(sent)| < |bytes| && stream.codec == CodecOf(codec)
    ensures !Carries(stream, H26xPieces(codec, sent), bytes)
  {
    hide AllSendable, H26xPieces, Feed, Sent, Join, AnyFragmented;
    H26xRoundTrip(codec, sent, stream, 0, 0);
    assert !CarriesAt(stream, H26xPieces(codec, sent), bytes, 0, 0);
  }

  lemma NothingNotCarried(codec: H26x, bytes: seq<byte>, stream: Stream)
    ensures !Carries(stream, H26xPieces(codec, []), bytes)
  {
    assert !CarriesAt(stream, H26xPieces(codec, []), bytes, 0, 0);
  }

  /** What the packetizer makes of the output's units: each is sent or refused by the receiver. */
  lemma SentOrUnreadable(codec: H26x, units: seq<seq<byte>>, bytes: seq<byte>, unit: seq<byte>)
    requires ShowsHeads(units, bytes) && units != [] && |Join(units)| <= |bytes|
    requires units[|units| - 1] != [] && Ordinary(codec, units) && unit in NonEmpty(Recut(units, bytes))
    ensures Sendable(codec, unit) || Unreadable(codec, unit)
  {
    hide ShowsHeads, Recut, Join, NonEmpty, Sendable, Unreadable, OrdinaryUnit;
    NonEmptyHas(Recut(units, bytes), unit);
    var k :| 0 <= k < |units| && Recut(units, bytes)[k] == unit;
    RecutAt(units, bytes, k);
    CutUnit(codec, units, bytes, k);
  }

  lemma SomethingSent(units: seq<seq<byte>>, bytes: seq<byte>)
    requires ShowsHeads(units, bytes) && units != [] && |Join(units)| < |bytes|
    ensures NonEmpty(Recut(units, bytes)) != []
  {
    hide ShowsHeads, Recut, Join, NonEmpty;
    RecutAt(units, bytes, |units| - 1);
    NonEmptyHas(Recut(units, bytes), Recut(units, bytes)[|units| - 1]);
  }

  /** An empty unit is not sent, so bytes are missing. */
  lemma EmptyNotCarried(codec: H26x, units: seq<seq<byte>>, bytes: seq<byte>, stream: Stream)
    requires ShowsHeads(units, bytes) && units != [] && |Join(units)| < |bytes|
    requires units[|units| - 1] != [] && Ordinary(codec, units) && [] in units && stream.codec == CodecOf(codec)
    ensures !Carries(stream, H26xPieces(codec, NonEmpty(Recut(units, bytes))), bytes)
  {
    hide ShowsHeads, Recut, Join, NonEmpty, Sendable, Unreadable, Carries, H26xPieces, Ordinary;
    var cut := Recut(units, bytes);
    var sent := NonEmpty(cut);
    var k :| 0 <= k < |units| && units[k] == [];
    RecutAt(units, bytes, k);
    assert cut[k] == [];
    JoinNonEmpty(cut);
    RecutJoins(units, bytes);
    SomethingSent(units, bytes);
    if u :| u in sent && Unreadable(codec, u) {
      UnreadableNotCarried(codec, sent, u, bytes, stream);
    } else {
      forall i | 0 <= i < |sent|
        ensures Sendable(codec, sent[i])
      {
        SentOrUnreadable(codec, units, bytes, sent[i]);
      }
      ShortNotCarried(codec, sent, bytes, stream);
    }
  }

  /** Without an empty unit all cut units are sent. */
  lemma AllSent(units: seq<seq<byte>>, bytes: seq<byte>)
    requires ShowsHeads(units, bytes) && [] !in units
    ensures NonEmpty(Recut(units, bytes)) == Recut(units, bytes)
  {
    hide ShowsHeads, Recut, Join, NonEmpty;
    var cut := Recut(units, bytes);
    forall k | 0 <= k < |cut|
      ensures |cut[k]| > 0
    {
      assert units[k] in units;
      RecutAt(units, bytes, k);
    }
    NonEmptyIsAll(cut);
  }

  lemma FullCarried(codec: H26x, units: seq<seq<byte>>, bytes: seq<byte>, stream: Stream)
    requires ShowsHeads(units, bytes) && units != [] && |Join(units)| < |bytes|
    requires Ordinary(codec, units) && [] !in units && stream.codec == CodecOf(codec)
    ensures Carries(stream, H26xPieces(codec, Recut(units, bytes)), bytes)
            <==> Travels(codec, units, |bytes| - |Join(units)|)
  {
    hide ShowsHeads, Recut, Join, Sendable, Unreadable, Carries, H26xPieces, OrdinaryUnit, UnitTravels, Fragmented;
    var cut, extra := Recut(units, bytes), |bytes| - |Join(units)|;
    forall k | 0 <= k < |units|
      ensures Sendable(codec, cut[k]) || Unreadable(codec, cut[k])
      ensures UnitTravels(codec, units, k, extra) <==> Sendable(codec, cut[k]) && (Fragmented(cut[k]) ==> k == 0)
      ensures Unreadable(codec, cut[k]) ==> !Sendable(codec, cut[k])
    {
      assert units[k] in units;
      CutUnit(codec, units, bytes, k);
    }
    if k :| 0 <= k < |cut| && Unreadable(codec, cut[k]) {
      assert cut[k] in cut;
      UnreadableNotCarried(codec, cut, cut[k], bytes, stream);
      assert !UnitTravels(codec, units, k, extra);
    } else {
      RecutJoins(units, bytes);
      H26xCarries(codec, cut, stream);
      OnlyFirst(codec, units, cut, extra);
    }
  }

  lemma OnlyFirst(codec: H26x, units: seq<seq<byte>>, cut: seq<seq<byte>>, extra: nat)
    requires |cut| == |units| > 0
    requires forall k :: 0 <= k < |units| ==> (UnitTravels(codec, units, k, extra) <==> (Fragmented(cut[k]) ==> k == 0))
    ensures Travels(codec, units, extra) <==> !AnyFragmented(cut[1..])
  {
    hide UnitTravels, Fragmented;
    if AnyFragmented(cut[1..]) {
      var i :| 0 <= i < |cut[1..]| && Fragmented(cut[1..][i]);
      assert Fragmented(cut[i + 1]) && !UnitTravels(codec, units, i + 1, extra);
    } else {
      forall k | 0 <= k < |units|
        ensures UnitTravels(codec, units, k, extra)
      {
        assert k > 0 ==> cut[k] == cut[1..][k - 1];
      }
    }
  }

  /** Output whose units are the cut ones comes back whole exactly if the units travel. */
  lemma CarriedExactly(codec: H26x, units: seq<seq<byte>>, output: seq<byte>, stream: Stream)
    requires ShowsHeads(units, output) && units != [] && |Join(units)| < |output| && Units(output) == Recut(units, output)
    requires units[|units| - 1] != [] && Ordinary(codec, units) && stream.codec == CodecOf(codec)
    ensures Carries(stream, H26xPieces(codec, NonEmpty(Units(output))), output)
            <==> Travels(codec, units, |output| - |Join(units)|)
  {
    hide ShowsHeads, Recut, Join, Carries, H26xPieces, Ordinary, NonEmpty, Units;
    if [] in units {
      EmptyNotCarried(codec, units, output, stream);
      var k :| 0 <= k < |units| && units[k] == [];
      assert !UnitTravels(codec, units, k, |output| - |Join(units)|);
    } else {
      AllSent(units, output);
      FullCarried(codec, units, output, stream);
    }
  }

  /** What a protected frame shows when the codec did not give up and its last byte is hidden. */
  ghost predicate Shown(codec: H26x, frame: seq<byte>, laid: seq<byte>, ranges: seq<Range>, output: seq<byte>) {
    && Ranges(codec, frame) == Some(ranges) && laid == Join(Kept(frame)) && laid != [] && |laid| < |output| && PlainEnd(output)
    && Placed(ranges, |laid|) && Clear(output[..|laid|], ranges) == Clear(laid, ranges)
    && forall i: nat :: Visible(output, i) <==> Visible(laid, i)
  }

  /**
   * The packetizer finds the kept units again, hidden bytes enciphered and tag and trailer on the last, and the frame comes
   * back whole exactly if they travel.
   */
  lemma ShownExactly(codec: H26x, frame: seq<byte>, laid: seq<byte>, ranges: seq<Range>, output: seq<byte>, stream: Stream)
    requires Shown(codec, frame, laid, ranges, output) && Ordinary(codec, Kept(frame)) && stream.codec == CodecOf(codec)
    ensures ShowsHeads(Kept(frame), output) && Units(output) == Recut(Kept(frame), output)
    ensures Carries(stream, H26xPieces(codec, NonEmpty(Units(output))), output)
            <==> Travels(codec, Kept(frame), |output| - |laid|)
  {
    hide Placed, Clear, KeptFrom, Carries, H26xPieces, NonEmpty, Units, ShowsHeads, AgreeOn, RangesFrom, Recut, Join, Travels,
         Ordinary, NextNalu, StartCodeAt;
    var w, tail := output[..|laid|], output[|laid|..];
    ClearAgreesOn(ranges, w, laid);
    assert laid[0..] == laid && w[0..] == w && w + tail == output;
    RangesStart(codec, frame);
    NothingJoined();
    AgreeingHeads(codec, frame, NextNalu(frame, 0), 0, [], laid, w, tail);
    UnitsAre(frame, laid, output);
    CarriedExactly(codec, Kept(frame), output, stream);
  }

  lemma RangesStart(codec: H26x, frame: seq<byte>)
    requires Ranges(codec, frame).Some?
    ensures RangesFrom(codec, frame, NextNalu(frame, 0), 0, []) == Ranges(codec, frame)
  {
    hide RangesFrom, NextNalu;
  }

  lemma NothingJoined()
    ensures Join([]) == []
  {
  }

  // ----- Layouts are safe -----

  lemma {:induction false} SafeFrom(codec: H26x, frame: seq<byte>, next: Option<Nalu>, laid: seq<byte>, ranges: seq<Range>)
    requires Progress(codec, frame, next, laid, ranges) && Ranges(codec, frame).Some?
    requires Placed(ranges, |laid|) && Coalesced(ranges)
    ensures
      var all := Ranges(codec, frame).value;
      Placed(all, |Join(Kept(frame))|) && Coalesced(all) && NalSafe(Join(Kept(frame)), all, 1)
    decreases if next.Some? then |frame| - next.value.start else 0
  {
    hide Progress, Placed, Coalesced, NalSafe, Ranges, Join, Kept, ClearBytes, Extended, NextNalu, NaluEnd;
    if next.None? || next.value.start >= |frame| - 1 {
      EndProgress(codec, frame, next, laid, ranges);
    } else {
      var nalu := next.value;
      StepProgress(codec, frame, nalu, laid, ranges);
      var end := NaluEnd(frame, nalu);
      var n := ClearBytes(codec, frame, nalu.start, end).value;
      var first := Extended(ranges, |laid|, 4);
      ExtendedPlaced(ranges, |laid|, 4);
      ExtendedPlaced(first, |laid| + 4, n);
      PlacedMonotone(Extended(first, |laid| + 4, n), |laid| + 4 + n, |laid| + 4 + (end - nalu.start));
      SafeFrom(codec, frame, NextNalu(frame, nalu.start), laid + LONG_START_CODE + frame[nalu.start..end],
               Extended(first, |laid| + 4, n));
    }
  }

  lemma LayoutSafe(codec: H26x, frame: seq<byte>)
    requires Ranges(codec, frame).Some?
    ensures
      var all := Ranges(codec, frame).value;
      Placed(all, |Join(Kept(frame))|) && Coalesced(all) && NalSafe(Join(Kept(frame)), all, 1)
  {
    hide RangesFrom, Join, KeptFrom, NalSafe, NextNalu, Progress;
    StartProgress(codec, frame);
    SafeFrom(codec, frame, NextNalu(frame, 0), [], []);
  }

  // ----- A ciphertext that is accepted -----

  /** A byte of a hidden section is among the hidden bytes. */
  lemma {:induction false} HiddenAt(w: seq<byte>, ranges: seq<Range>, k: nat, p: nat)
    requires Placed(ranges, |w|) && k <= |ranges| && SectionStart(ranges, k) <= p < SectionEnd(ranges, |w|, k)
    ensures p < |w| && w[p] in Hidden(w, ranges)
    decreases |ranges|
  {
    if ranges != [] {
      hide Placed;
      var last := Last(ranges);
      PlacedFront(ranges, |w|);
      var before := Hidden(w[..last.offset], Front(ranges));
      assert Hidden(w, ranges) == before + w[last.End()..];
      if k == |ranges| {
        assert w[last.End()..][p - last.End()] == w[p];
      } else {
        HiddenAt(w[..last.offset], Front(ranges), k, p);
      }
    }
  }

  predicate AllOnes(bytes: seq<byte>) {
    forall i :: 0 <= i < |bytes| ==> bytes[i] == 255
  }

  lemma NoCodeOver(output: seq<byte>, i: nat, p: nat)
    requires i <= p < i + 3 && p < |output| && output[p] == 255
    ensures !StartCodeAt(output, i)
  {
  }

  /** A scan of a hidden section sees no start code, as far as it touches the section. */
  lemma OnesQuiet(ranges: seq<Range>, w: seq<byte>, tail: seq<byte>, k: nat, i: nat)
    requires Placed(ranges, |w|) && AllOnes(Hidden(w, ranges)) && (EndsHidden(w, ranges) ==> CodeFree(tail)) && k <= |ranges|
    requires SectionStart(ranges, k) < SectionEnd(ranges, |w|, k) <= |w|
    requires SectionStart(ranges, k) <= i + 2 && i + 3 < ScanEnd(ranges, w + tail, k)
    ensures !StartCodeAt(w + tail, i)
  {
    hide Placed, Hidden, StartCodeAt;
    var output, start := w + tail, SectionStart(ranges, k);
    if i < |w| {
      var p := if i < start then start else i;
      HiddenAt(w, ranges, k, p);
      NoCodeOver(output, i, p);
    } else {
      SliceCode(output, |w|, |output|, i - |w|);
      assert output[|w|..|output|] == tail;
    }
  }

  /** Hidden bytes of all ones are part of no start code, so the validator accepts. */
  lemma OnesAccepted(ranges: seq<Range>, w: seq<byte>, tail: seq<byte>)
    requires Placed(ranges, |w|) && AllOnes(Hidden(w, ranges)) && (EndsHidden(w, ranges) ==> CodeFree(tail))
    ensures Clean(ranges, |w|, w + tail)
  {
    hide Placed, Hidden, StartCodeAt, AllOnes, EndsHidden, CodeFree, SectionStart, SectionEnd, ScanEnd;
    forall k: nat | k <= |ranges|
      ensures CleanAt(ranges, |w|, w + tail, k)
    {
      SectionInside(ranges, |w|, k);
      if SectionStart(ranges, k) != SectionEnd(ranges, |w|, k) {
        forall i: nat | SectionStart(ranges, k) <= i + 2 && i + 3 < ScanEnd(ranges, w + tail, k)
          ensures !StartCodeAt(w + tail, i)
        {
          OnesQuiet(ranges, w, tail, k, i);
        }
      }
    }
  }

  lemma SectionInside(ranges: seq<Range>, limit: nat, k: nat)
    requires Placed(ranges, limit) && k <= |ranges|
    ensures SectionStart(ranges, k) <= SectionEnd(ranges, limit, k) <= limit
  {
    if k > 0 {
      assert ranges[k - 1].End() <= GapEnd(ranges, limit, k - 1);
    }
    if k < |ranges| {
      hide Placed;
      PlacedAt(ranges, limit, k);
      ClearLenPrefix(ranges, k);
    }
  }

  // ----- The trailer -----

  predicate ZeroFree(bytes: seq<byte>) {
    forall i :: 0 <= i < |bytes| ==> bytes[i] != 0
  }

  lemma {:induction false} EncodedZeroFree(v: nat)
    ensures if v == 0 then Leb128.Encode(v) == [0] else ZeroFree(Leb128.Encode(v))
    ensures v != 1 ==> Leb128.Encode(v)[0] != 1
  {
    if v >= 0x80 {
      EncodedZeroFree(v / 0x80);
    }
  }

  /** Every range has an offset and a length above zero. */
  predicate Positive(ranges: seq<Range>) {
    forall i :: 0 <= i < |ranges| ==> ranges[i].offset > 0 && ranges[i].len > 0
  }

  lemma {:induction false} RangesZeroFree(ranges: seq<Range>)
    requires Positive(ranges)
    ensures ZeroFree(RangeBytes(ranges))
  {
    hide Leb128.Encode;
    if ranges != [] {
      EncodedZeroFree(ranges[0].offset);
      EncodedZeroFree(ranges[0].len);
      RangesZeroFree(ranges[1..]);
    }
  }

  /** Two zeros meet at most once, and no one follows them. */
  lemma FewZeros(a: seq<byte>, b: seq<byte>, rest: seq<byte>)
    requires (a == [0] || ZeroFree(a)) && (b == [0] || ZeroFree(b)) && ZeroFree(rest) && rest != [] && rest[0] != 1
    ensures CodeFree(ONES + a + b + rest)
  {
    var all := ONES + a + b + rest;
    forall i: nat
      ensures !StartCodeAt(all, i)
    {
      if i + 3 <= |all| {
        ZeroPlaces(a, b, rest, i);
        ZeroPlaces(a, b, rest, i + 1);
        assert all[8 + |a| + |b|] == rest[0];
      }
    }
  }

  lemma ZeroPlaces(a: seq<byte>, b: seq<byte>, rest: seq<byte>, i: nat)
    requires (a == [0] || ZeroFree(a)) && (b == [0] || ZeroFree(b)) && ZeroFree(rest) && i < |ONES + a + b + rest|
    ensures (ONES + a + b + rest)[i] == 0 ==> (a == [0] && i == 8) || (b == [0] && i == 8 + |a|)
  {
    var all := ONES + a + b + rest;
    var x, y := 8 + |a|, 8 + |a| + |b|;
    assert i < 8 ==> all[i] == ONES[i];
    assert 8 <= i < x ==> all[i] == a[i - 8];
    assert x <= i < y ==> all[i] == b[i - x];
    assert y <= i ==> all[i] == rest[i - y];
  }

  lemma TailFree(laid: seq<byte>, ranges: seq<Range>, nonce: u32)
    requires Placed(ranges, |laid|) && OpenWithCode(laid, ranges) && SupplementalSize(nonce, ranges) <= 0xFF
    ensures CodeFree(ONES + Frame.Tail(nonce, ranges))
  {
    hide Leb128.Encode, CodeFree, ZeroFree, SupplementalSize, Placed, OpenWithCode, RangeBytes, Positive, Frame.Tail;
    var size, a := SupplementalSize(nonce, ranges), Leb128.Encode(nonce);
    SizeIsLarge(nonce, ranges);
    EndZeroFree(size);
    EncodedZeroFree(nonce);
    if ranges == [] {
      NothingZeroFree();
      FewZeros(a, [], [size] + MARKER);
      BareTail(nonce);
    } else {
      LaterPositive(laid, ranges);
      var first, rest := ranges[0], RangeBytes(ranges[1..]);
      var c := Leb128.Encode(first.len);
      EncodedZeroFree(first.offset);
      EncodedZeroFree(first.len);
      RangesZeroFree(ranges[1..]);
      ZeroFreeAppend(c, rest);
      ZeroFreeAppend(c + rest, [size] + MARKER);
      FewZeros(a, Leb128.Encode(first.offset), c + rest + ([size] + MARKER));
      TailParts(nonce, ranges);
    }
  }

  lemma BareTail(nonce: u32)
    requires SupplementalSize(nonce, []) <= 0xFF
    ensures ONES + Frame.Tail(nonce, []) == ONES + Leb128.Encode(nonce) + [] + ([SupplementalSize(nonce, [])] + MARKER)
  {
    hide Leb128.Encode, SupplementalSize;
  }

  lemma TailParts(nonce: u32, ranges: seq<Range>)
    requires ranges != [] && SupplementalSize(nonce, ranges) <= 0xFF
    ensures
      var b, c, rest := Leb128.Encode(ranges[0].offset), Leb128.Encode(ranges[0].len), RangeBytes(ranges[1..]);
      ONES + Frame.Tail(nonce, ranges)
      == ONES + Leb128.Encode(nonce) + b + (c + rest + ([SupplementalSize(nonce, ranges)] + MARKER))
  {
    hide Leb128.Encode, SupplementalSize;
    Regroup(ONES, Leb128.Encode(nonce), Leb128.Encode(ranges[0].offset), Leb128.Encode(ranges[0].len), RangeBytes(ranges[1..]),
            [SupplementalSize(nonce, ranges)], MARKER);
  }

  lemma Regroup(o: seq<byte>, a: seq<byte>, b: seq<byte>, c: seq<byte>, r: seq<byte>, x: seq<byte>, m: seq<byte>)
    ensures o + (a + (b + c + r) + x + m) == o + a + b + (c + r + (x + m))
  {
  }

  lemma SizeIsLarge(nonce: nat, ranges: seq<Range>)
    ensures SupplementalSize(nonce, ranges) >= SUPPLEMENTAL_BASE_BYTES
  {
  }

  lemma EndZeroFree(size: byte)
    requires size > 1
    ensures ZeroFree([size] + MARKER) && ([size] + MARKER)[0] != 1
  {
  }

  lemma NothingZeroFree()
    ensures ZeroFree([])
  {
  }

  lemma ZeroFreeAppend(a: seq<byte>, b: seq<byte>)
    requires ZeroFree(a) && ZeroFree(b)
    ensures ZeroFree(a + b)
  {
  }

  lemma LaterPositive(laid: seq<byte>, ranges: seq<Range>)
    requires Placed(ranges, |laid|) && OpenWithCode(laid, ranges) && ranges != []
    ensures Positive(ranges[1..]) && ranges[0].len >= 4
  {
    hide Placed, LongAt;
    forall i | 0 <= i < |ranges[1..]|
      ensures ranges[1..][i].offset > 0 && ranges[1..][i].len > 0
    {
      PlacedAt(ranges, |laid|, i + 1);
      assert ranges[i].len >= 4 && ranges[i + 1].len >= 4;
    }
  }

  // ----- Every ciphertext -----

  /** What comes out under this cipher, if the validator accepts it, comes back whole. */
  ghost predicate CarriedWith(cipher: Cipher, codec: H26x, layout: Layout, nonce: u32, stream: Stream)
    requires Placed(layout.ranges, |layout.laid|) && Faithful(cipher)
  {
    var sealed := Seal(cipher, nonce, Clear(layout.laid, layout.ranges), Hidden(layout.laid, layout.ranges), layout.ranges);
    sealed.Ok? && Clean(layout.ranges, |layout.laid|, sealed.output) ==>
      Carries(stream, H26xPieces(codec, NonEmpty(Units(sealed.output))), sealed.output)
  }

  ghost predicate AlwaysCarried(codec: H26x, layout: Layout, nonce: u32, stream: Stream)
    requires Placed(layout.ranges, |layout.laid|)
  {
    forall cipher: Cipher :: Faithful(cipher) ==> CarriedWith(cipher, codec, layout, nonce, stream)
  }

  /** The cipher that turns every hidden byte of the layout into all ones. */
  function Whitening(layout: Layout, tag: seq<byte>): Cipher
    requires Placed(layout.ranges, |layout.laid|)
  {
    Adding(Complement(Hidden(layout.laid, layout.ranges)), tag)
  }

  /** Its output is accepted, unless tag and trailer show a start code behind a hidden end. */
  lemma WhiteningAccepted(layout: Layout, tag: seq<byte>, nonce: u32) returns (w: seq<byte>)
    requires Placed(layout.ranges, |layout.laid|) && SupplementalSize(nonce, layout.ranges) <= 0xFF && |tag| == TAG_BYTES
    requires EndsHidden(layout.laid, layout.ranges) ==> CodeFree(tag + Frame.Tail(nonce, layout.ranges))
    ensures |w| == |layout.laid| && Faithful(Whitening(layout, tag))
    ensures
      var output := w + (tag + Frame.Tail(nonce, layout.ranges));
      && Seal(Whitening(layout, tag), nonce, Clear(layout.laid, layout.ranges), Hidden(layout.laid, layout.ranges), layout.ranges)
         == Ok(output)
      && Clean(layout.ranges, |layout.laid|, output)
  {
    hide Placed, Clear, Hidden, Weave, AddKey, Complement, Faithful, Seal, Frame.Tail, SupplementalSize, CodeFree, Clean, Adding;
    var laid, ranges := layout.laid, layout.ranges;
    var clear, hidden := Clear(laid, ranges), Hidden(laid, ranges);
    var key, tail := Complement(hidden), Frame.Tail(nonce, ranges);
    AddingFaithful(key, tag);
    SealAdding(key, tag, laid, ranges, nonce);
    AddComplement(hidden);
    w := Weave(clear, AddKey(hidden, key), ranges);
    SplitOfWeave(clear, AddKey(hidden, key), ranges);
    Associate(w, tag, tail);
    OnesAccepted(ranges, w, tag + tail);
  }

  /** A tag with two start codes and one byte between them that no receiver takes for a unit. */
  const SPLIT: seq<byte> := [3, 0, 0, 1, 32, 0, 0, 1]

  lemma SplitUnit(w: seq<byte>, tail: seq<byte>)
    requires tail != []
    ensures [32] in NonEmpty(Units(w + (SPLIT + tail)))
  {
    hide Units, NonEmpty, NaluEnd, AfterCode, NextNalu, UnitsFrom, Visible;
    var output, i := w + (SPLIT + tail), |w| + 1;
    assert forall k :: 0 <= k < 8 ==> output[|w| + k] == SPLIT[k];
    SplitCodes(output, |w|);
    UnitBehind(output, 0, i);
    UnitsFromStart(output);
    NonEmptyHas(Units(output), [32]);
  }

  lemma UnitsFromStart(frame: seq<byte>)
    ensures Units(frame) == UnitsFrom(frame, NextNalu(frame, 0))
  {
  }

  lemma SplitCodes(output: seq<byte>, at: nat)
    requires at + 8 < |output| && forall k :: 0 <= k < 8 ==> output[at + k] == SPLIT[k]
    ensures Visible(output, at + 1) && output[at] != 0 && output[at + 4..at + 5] == [32]
    ensures AfterCode(output, Nalu(at + 4, 3)) && NaluEnd(output, Nalu(at + 4, 3)) == at + 5
  {
    assert SPLIT[0] == output[at + 0] && SPLIT[1] == output[at + 1] && SPLIT[2] == output[at + 2] && SPLIT[3] == output[at + 3];
    assert SPLIT[4] == output[at + 4] && SPLIT[5] == output[at + 5] && SPLIT[6] == output[at + 6] && SPLIT[7] == output[at + 7];
    FirstCodeIs(output, at + 4, at + 5);
  }

  /** The last byte is clear, so tag and trailer are not looked at: with this tag the receiver reports an error. */
  lemma EndsClearIsLost(codec: H26x, layout: Layout, nonce: u32, stream: Stream)
    requires Placed(layout.ranges, |layout.laid|) && SupplementalSize(nonce, layout.ranges) <= 0xFF
    requires !EndsHidden(layout.laid, layout.ranges) && stream.codec == CodecOf(codec)
    ensures !AlwaysCarried(codec, layout, nonce, stream)
  {
    hide Placed, Clear, Hidden, Faithful, Seal, Clean, Carries, H26xPieces, NonEmpty, Units, Whitening, SupplementalSize, EndsHidden,
         CodeFree;
    var w := WhiteningAccepted(layout, SPLIT, nonce);
    var tail := Frame.Tail(nonce, layout.ranges);
    SplitUnit(w, tail);
    var output := w + (SPLIT + tail);
    assert Unreadable(codec, [32]);
    UnreadableNotCarried(codec, NonEmpty(Units(output)), [32], output, stream);
    assert !CarriedWith(Whitening(layout, SPLIT), codec, layout, nonce, stream);
  }

  /** The codec gave up: the packetizer finds no unit. */
  lemma FallbackIsLost(codec: H26x, layout: Layout, nonce: u32, stream: Stream)
    requires layout.laid != [] && layout.ranges == [] && SupplementalSize(nonce, []) <= 0xFF
    ensures Placed([], |layout.laid|) && !AlwaysCarried(codec, layout, nonce, stream)
  {
    hide Clear, Hidden, Faithful, Seal, Clean, Carries, H26xPieces, Whitening, SupplementalSize, CodeFree, Frame.Tail, Visible;
    TailFree(layout.laid, [], nonce);
    var w := WhiteningAccepted(layout, ONES, nonce);
    var output := w + (ONES + Frame.Tail(nonce, []));
    WhollyHidden(layout.laid, output);
    NoCodeNoUnit(output);
    NothingNotCarried(codec, output, stream);
    assert !CarriedWith(Whitening(layout, ONES), codec, layout, nonce, stream);
  }

  lemma SealedShows(cipher: Cipher, codec: H26x, frame: seq<byte>, nonce: u32, layout: Layout)
    requires Faithful(cipher) && H26xLayout(codec, frame) == Some(layout) && EndsHidden(layout.laid, layout.ranges)
    requires Placed(layout.ranges, |layout.laid|) && Coalesced(layout.ranges) && NalSafe(layout.laid, layout.ranges, 1)
    ensures
      var laid, ranges := layout.laid, layout.ranges;
      var sealed := Seal(cipher, nonce, Clear(laid, ranges), Hidden(laid, ranges), ranges);
      sealed.Ok? && Clean(ranges, |laid|, sealed.output) ==>
        Shown(codec, frame, laid, ranges, sealed.output) && |sealed.output| == |laid| + SupplementalSize(nonce, ranges)
  {
    hide Placed, Coalesced, NalSafe, Clear, Hidden, Weave, Clean, Visible, Ranges, Join, Kept, SupplementalSize;
    var laid, ranges := layout.laid, layout.ranges;
    var clear, hidden := Clear(laid, ranges), Hidden(laid, ranges);
    var sealed := Seal(cipher, nonce, clear, hidden, ranges);
    if sealed.Ok? && Clean(ranges, |laid|, sealed.output) {
      var (c, t) := cipher.seal(NonceFromTruncated(nonce), clear, hidden).value;
      var body := Weave(clear, c, ranges);
      SealedSize(cipher, nonce, laid, ranges);
      SizeIsLarge(nonce, ranges);
      SplitOfWeave(clear, c, ranges);
      assert sealed.output == body + t + Frame.Tail(nonce, ranges);
      assert sealed.output[..|laid|] == body;
      EndsPlain(body + t, nonce, ranges);
      KeepsAllBoundaries(laid, ranges, body, sealed.output);
    }
  }

  lemma EndsPlain(bytes: seq<byte>, nonce: u32, ranges: seq<Range>)
    requires SupplementalSize(nonce, ranges) <= 0xFF
    ensures PlainEnd(bytes + Frame.Tail(nonce, ranges))
  {
    hide SupplementalSize, RangeBytes, Leb128.Encode;
  }

  lemma LayoutFacts(codec: H26x, frame: seq<byte>, layout: Layout)
    requires H26xLayout(codec, frame) == Some(layout)
    ensures Placed(layout.ranges, |layout.laid|) && Coalesced(layout.ranges)
    ensures NalSafe(layout.laid, layout.ranges, 1) && OpenWithCode(layout.laid, layout.ranges)
  {
    hide Placed, Coalesced, OpenWithCode, CodesClear, Ranges, Join, Kept;
    LayoutSafe(codec, frame);
  }

  /** A hidden end: what any cipher makes, if it is accepted, comes back whole exactly if the kept units travel. */
  lemma OneCipher(cipher: Cipher, codec: H26x, frame: seq<byte>, nonce: u32, layout: Layout, stream: Stream)
    requires H26xLayout(codec, frame) == Some(layout) && EndsHidden(layout.laid, layout.ranges)
    requires Placed(layout.ranges, |layout.laid|) && Faithful(cipher)
    requires Ordinary(codec, Kept(frame)) && stream.codec == CodecOf(codec)
    ensures
      var laid, ranges := layout.laid, layout.ranges;
      var sealed := Seal(cipher, nonce, Clear(laid, ranges), Hidden(laid, ranges), ranges);
      sealed.Ok? && Clean(ranges, |laid|, sealed.output) ==>
        (Carries(stream, H26xPieces(codec, NonEmpty(Units(sealed.output))), sealed.output)
         <==> Travels(codec, Kept(frame), SupplementalSize(nonce, ranges)))
  {
    hide Placed, Coalesced, Clear, Hidden, Faithful, Seal, Clean, Carries, H26xPieces, NonEmpty, Units, SupplementalSize, EndsHidden,
         OpenWithCode, NalSafe, Travels, Ordinary, Kept, H26xLayout, Shown, Recut, ShowsHeads;
    var laid, ranges := layout.laid, layout.ranges;
    LayoutFacts(codec, frame, layout);
    SealedShows(cipher, codec, frame, nonce, layout);
    var sealed := Seal(cipher, nonce, Clear(laid, ranges), Hidden(laid, ranges), ranges);
    if sealed.Ok? && Clean(ranges, |laid|, sealed.output) {
      ShownExactly(codec, frame, laid, ranges, sealed.output, stream);
    }
  }

  lemma EndsHiddenExactly(codec: H26x, frame: seq<byte>, nonce: u32, layout: Layout, stream: Stream)
    requires H26xLayout(codec, frame) == Some(layout) && EndsHidden(layout.laid, layout.ranges)
    requires SupplementalSize(nonce, layout.ranges) <= 0xFF && Ordinary(codec, Kept(frame)) && stream.codec == CodecOf(codec)
    ensures Placed(layout.ranges, |layout.laid|)
    ensures AlwaysCarried(codec, layout, nonce, stream) <==> Travels(codec, Kept(frame), SupplementalSize(nonce, layout.ranges))
  {
    hide Placed, Coalesced, Clear, Hidden, Faithful, Seal, Clean, Carries, H26xPieces, NonEmpty, Units, Whitening, SupplementalSize,
         CodeFree, Frame.Tail, EndsHidden, OpenWithCode, NalSafe, Travels, Ordinary, Kept, H26xLayout;
    LayoutFacts(codec, frame, layout);
    if Travels(codec, Kept(frame), SupplementalSize(nonce, layout.ranges)) {
      forall cipher: Cipher | Faithful(cipher)
        ensures CarriedWith(cipher, codec, layout, nonce, stream)
      {
        OneCipher(cipher, codec, frame, nonce, layout, stream);
      }
    } else {
      TailFree(layout.laid, layout.ranges, nonce);
      var w := WhiteningAccepted(layout, ONES, nonce);
      OneCipher(Whitening(layout, ONES), codec, frame, nonce, layout, stream);
      assert !CarriedWith(Whitening(layout, ONES), codec, layout, nonce, stream);
    }
  }

  /**
   * Every way of protecting an H264 or H265 frame comes back whole if and only if the codec does not give up, the last
   * byte laid out is hidden, and the kept units travel with tag and trailer on the last one.
   */
  lemma H26xSentExactly(codec: H26x, frame: seq<byte>, nonce: u32, stream: Stream)
    requires |frame| <= ISIZE_MAX && SupplementalSize(nonce, FrameLayout(CodecOf(codec), frame).ranges) <= 0xFF
    requires Ordinary(codec, Kept(frame)) && stream.codec == CodecOf(codec)
    ensures
      var layout := FrameLayout(CodecOf(codec), frame);
      && Placed(layout.ranges, |layout.laid|)
      && (AlwaysCarried(codec, layout, nonce, stream) <==>
            && CodecLayout(CodecOf(codec), frame).Some? && EndsHidden(layout.laid, layout.ranges)
            && Travels(codec, Kept(frame), SupplementalSize(nonce, layout.ranges)))
  {
    hide Placed, AlwaysCarried, EndsHidden, Travels, SupplementalSize, Ordinary, H26xLayout;
    LayoutIs(codec, frame);
    var layout := FrameLayout(CodecOf(codec), frame);
    if H26xLayout(codec, frame).Some? {
      LayoutPlaced(codec, frame);
      if EndsHidden(layout.laid, layout.ranges) {
        EndsHiddenExactly(codec, frame, nonce, layout, stream);
      } else {
        EndsClearIsLost(codec, layout, nonce, stream);
      }
    } else if frame != [] {
      FallbackIsLost(codec, layout, nonce, stream);
    } else {
      NothingLaid();
      EndsClearIsLost(codec, layout, nonce, stream);
    }
  }

  lemma LayoutIs(codec: H26x, frame: seq<byte>)
    requires |frame| <= ISIZE_MAX
    ensures CodecLayout(CodecOf(codec), frame) == H26xLayout(codec, frame)
    ensures H26xLayout(codec, frame).None? ==> FrameLayout(CodecOf(codec), frame) == Layout(frame, [])
    ensures H26xLayout(codec, frame).Some? ==> FrameLayout(CodecOf(codec), frame) == H26xLayout(codec, frame).value
  {
    hide H26xLayout;
  }

  lemma LayoutPlaced(codec: H26x, frame: seq<byte>)
    requires H26xLayout(codec, frame).Some?
    ensures var layout := H26xLayout(codec, frame).value; Placed(layout.ranges, |layout.laid|)
  {
    hide Placed, Coalesced, NalSafe, Ranges, Join, Kept;
    LayoutSafe(codec, frame);
  }

  lemma NothingLaid()
    ensures Placed([], 0) && !EndsHidden([], [])
  {
  }

  // ----- A frame that ends clear -----

  /** A lone parameter set: nothing of it is hidden, so the tag behind it is not looked at. */
  lemma ParameterSetExample(nonce: u32, stream: Stream)
    requires stream.codec == Codec.H264
    ensures
      var frame: seq<byte> := [0, 0, 0, 1, 0x67, 1];
      var layout := FrameLayout(Codec.H264, frame);
      && layout == Layout(frame, [Range(0, 6)]) && Ordinary(H26x.H264, Kept(frame)) && SupplementalSize(nonce, layout.ranges) <= 0xFF
      && Placed(layout.ranges, |layout.laid|) && !AlwaysCarried(H26x.H264, layout, nonce, stream)
  {
    hide Ordinary, SupplementalSize, Travels, AlwaysCarried, Placed;
    ParameterSetLayout();
    SmallTrailer(nonce);
    H26xSentExactly(H26x.H264, [0, 0, 0, 1, 0x67, 1], nonce, stream);
  }

  lemma SmallTrailer(nonce: u32)
    ensures SupplementalSize(nonce, [Range(0, 6)]) <= 0xFF
  {
    assert RangeBytes([]) == [] && RangeBytes([Range(0, 6)]) == [0] + [6] + [];
    hide Leb128.Encode, RangeBytes;
    Leb128.AtMostFive(nonce);
  }

  lemma ParameterSetLayout()
    ensures
      var frame: seq<byte> := [0, 0, 0, 1, 0x67, 1];
      FrameLayout(Codec.H264, frame) == Layout(frame, [Range(0, 6)]) && Ordinary(H26x.H264, Kept(frame))
  {
    hide NextNalu, NaluEnd, Join, Ranges, Ordinary;
    var frame: seq<byte> := [0, 0, 0, 1, 0x67, 1];
    var nalu := Nalu(4, 4);
    ParameterSetUnit(frame);
    ParameterSetKept(frame, nalu);
    ParameterSetRanges(frame, nalu);
  }

  lemma ParameterSetUnit(frame: seq<byte>)
    requires frame == [0, 0, 0, 1, 0x67, 1]
    ensures NextNalu(frame, 0) == Some(Nalu(4, 4)) && NextNalu(frame, 4) == None
    ensures AfterCode(frame, Nalu(4, 4)) && NaluEnd(frame, Nalu(4, 4)) == 6
  {
    FirstCodeIs(frame, 0, 1);
    assert FirstCode(frame, 4) == None;
  }

  lemma ParameterSetKept(frame: seq<byte>, nalu: Nalu)
    requires frame == [0, 0, 0, 1, 0x67, 1] && nalu == Nalu(4, 4) && AfterCode(frame, nalu)
    requires NextNalu(frame, 0) == Some(nalu) && NextNalu(frame, 4) == None && NaluEnd(frame, nalu) == 6
    ensures Join(Kept(frame)) == frame && Ordinary(H26x.H264, Kept(frame))
  {
    hide NextNalu, NaluEnd, AfterCode;
    var unit: seq<byte> := [0x67, 1];
    assert KeptFrom(frame, None) == [];
    assert Kept(frame) == [frame[4..6]] && frame[4..6] == unit;
    assert Join([unit][1..]) == [] && Join([unit]) == LONG_START_CODE + unit + [];
  }

  lemma ParameterSetRanges(frame: seq<byte>, nalu: Nalu)
    requires frame == [0, 0, 0, 1, 0x67, 1] && nalu == Nalu(4, 4) && AfterCode(frame, nalu)
    requires NextNalu(frame, 0) == Some(nalu) && NextNalu(frame, 4) == None && NaluEnd(frame, nalu) == 6
    ensures Ranges(H26x.H264, frame) == Some([Range(0, 6)])
  {
    hide NextNalu, NaluEnd, AfterCode, RangesFrom, ClearBytes, Extended;
    assert ClearBytes(H26x.H264, frame, 4, 6) == Some(2) by { ParameterSetClear(frame); }
    RangesStep(H26x.H264, frame, nalu, 0, []);
    ParameterSetExtended(frame);
  }

  lemma ParameterSetClear(frame: seq<byte>)
    requires frame == [0, 0, 0, 1, 0x67, 1]
    ensures ClearBytes(H26x.H264, frame, 4, 6) == Some(2)
  {
    hide PpsBytes;
  }

  lemma ParameterSetExtended(frame: seq<byte>)
    ensures Extended(Extended([], 0, 4), 4, 2) == [Range(0, 6)]
    ensures RangesFrom(H26x.H264, frame, None, 6, [Range(0, 6)]) == Some([Range(0, 6)])
  {
    assert Extended([], 0, 4) == [Range(0, 4)] && Extended([Range(0, 4)], 4, 2) == [Range(0, 6)];
  }
}
