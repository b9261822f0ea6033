/** Ciphertext validation for H264 and H265, and what it guarantees (dave/src/frame.rs). */
module H26xValidation {
  import opened Prelude
  import opened Interleave
  import opened FrameProcessor
  import opened AnnexB
  import opened H26xFrame

  /** Where the hidden section in front of range `k` (or behind the last range) begins. */
  function SectionStart(ranges: seq<Range>, k: nat): nat
    requires k <= |ranges|
  {
    if k == 0 then 0 else ranges[k - 1].End()
  }

  function SectionEnd(ranges: seq<Range>, frameIndex: nat, k: nat): nat
    requires k <= |ranges|
  {
    if k < |ranges| then ranges[k].offset else frameIndex
  }

  /** How far the scan of section `k` looks: two bytes into the next range, or to the end of the output. */
  function ScanEnd(ranges: seq<Range>, output: seq<byte>, k: nat): nat
    requires k <= |ranges|
  {
    if k < |ranges| && ranges[k].offset + 2 <= |output| then ranges[k].offset + 2 else |output|
  }

  /** No start code visible to a scan that begins two bytes before `start` and stops at `end`. */
  ghost predicate SectionClean(output: seq<byte>, start: nat, end: nat) {
    forall i: nat :: start <= i + 2 && i + 3 < end ==> !StartCodeAt(output, i)
  }

  ghost predicate CleanAt(ranges: seq<Range>, frameIndex: nat, output: seq<byte>, k: nat)
    requires k <= |ranges|
  {
    SectionStart(ranges, k) != SectionEnd(ranges, frameIndex, k) ==>
      SectionClean(output, SectionStart(ranges, k), ScanEnd(ranges, output, k))
  }

  /** What the validator accepts: every non-empty hidden section is clean. */
  ghost predicate Clean(ranges: seq<Range>, frameIndex: nat, output: seq<byte>) {
    forall k :: 0 <= k <= |ranges| ==> CleanAt(ranges, frameIndex, output, k)
  }

  /** Scanning a slice sees exactly the codes that end before the slice's last byte. */
  lemma SliceScan(output: seq<byte>, start: nat, end: nat)
    requires start <= end <= |output|
    ensures NextNalu(output[start..end], 0).None? <==>
            forall i: nat :: start <= i && i + 3 < end ==> !StartCodeAt(output, i)
  {
    hide StartCodeAt;
    var slice := output[start..end];
    forall i: nat | i + 3 <= |slice|
      ensures StartCodeAt(slice, i) == StartCodeAt(output, start + i)
    {
      SliceCode(output, start, end, i);
    }
    if NextNalu(slice, 0).None? {
      forall i: nat | start <= i && i + 3 < end
        ensures !StartCodeAt(output, i)
      {
        assert !Visible(slice, i - start);
      }
    } else {
      var i := FirstCode(slice, 0).value;
      assert Visible(slice, i) && StartCodeAt(output, start + i);
    }
  }

  lemma SliceCode(output: seq<byte>, start: nat, end: nat, i: nat)
    requires start <= end <= |output| && i + 3 <= end - start
    ensures StartCodeAt(output[start..end], i) == StartCodeAt(output, start + i)
  {
    var slice := output[start..end];
    assert slice[i] == output[start + i] && slice[i + 1] == output[start + i + 1] && slice[i + 2] == output[start + i + 2];
  }

  method ScanSection(output: seq<byte>, sectionStart: nat, end: nat) returns (clean: bool)
    requires sectionStart <= end <= |output|
    ensures clean <==> SectionClean(output, sectionStart, end)
  {
    hide StartCodeAt, NextNalu;
    var start := if sectionStart >= 2 then sectionStart - 2 else 0;
    SliceScan(output, start, end);
    var found := FindNextNalu(output[start..end], 0);
    assert SectionClean(output, sectionStart, end) <==>
           forall i: nat :: start <= i && i + 3 < end ==> !StartCodeAt(output, i);
    return found.None?;
  }

  /** `validate_h26x_encrypted_frame`. */
  method Validate(ranges: seq<Range>, frameIndex: nat, output: seq<byte>) returns (ok: bool)
    requires Placed(ranges, frameIndex) && frameIndex <= |output|
    ensures ok <==> Clean(ranges, frameIndex, output)
  {
    hide SectionClean, Placed, GapEnd, ClearLen;
    var sectionStart := 0;
    for k := 0 to |ranges|
      invariant sectionStart == SectionStart(ranges, k) <= |output|
      invariant forall j :: 0 <= j < k ==> CleanAt(ranges, frameIndex, output, j)
    {
      var range := ranges[k];
      PlacedAt(ranges, frameIndex, k);
      ClearLenPrefix(ranges, k);
      if sectionStart == range.offset {
        sectionStart := sectionStart + range.len;
      } else {
        var end := if range.offset + 2 <= |output| then range.offset + 2 else |output|;
        var clean := ScanSection(output, sectionStart, end);
        if !clean {
          assert !CleanAt(ranges, frameIndex, output, k);
          return false;
        }
        sectionStart := range.End();
      }
    }
    if sectionStart == frameIndex {
      return true;
    }
    ok := ScanSection(output, sectionStart, |output|);
    assert ok <==> CleanAt(ranges, frameIndex, output, |ranges|);
  }

  // ----- Same clear bytes, same start codes -----

  /** Two frames with the same clear half agree on every byte inside a range. */
  lemma {:induction false} ClearAgrees(a: seq<byte>, b: seq<byte>, ranges: seq<Range>, k: nat, j: nat)
    requires |a| == |b| && Placed(ranges, |a|) && Clear(a, ranges) == Clear(b, ranges)
    requires k < |ranges| && ranges[k].offset <= j < ranges[k].End()
    ensures j < |a| && a[j] == b[j]
    decreases |ranges|
  {
    hide Placed;
    var last := Last(ranges);
    PlacedFront(ranges, |a|);
    var ca, cb := Clear(a[..last.offset], Front(ranges)), Clear(b[..last.offset], Front(ranges));
    assert Clear(a, ranges) == ca + a[last.offset..last.End()] && Clear(b, ranges) == cb + b[last.offset..last.End()];
    SamePieces(ca, a[last.offset..last.End()], cb, b[last.offset..last.End()]);
    if k == |ranges| - 1 {
      assert a[last.offset..last.End()][j - last.offset] == b[last.offset..last.End()][j - last.offset];
    } else {
      ClearAgrees(a[..last.offset], b[..last.offset], Front(ranges), k, j);
    }
  }

  lemma SamePieces<T>(a: seq<T>, x: seq<T>, b: seq<T>, y: seq<T>)
    requires a + x == b + y && |a| == |b|
    ensures a == b && x == y
  {
    assert a == (a + x)[..|a|] && b == (b + y)[..|b|];
    assert x == (a + x)[|a|..] && y == (b + y)[|b|..];
  }

  /** The two agree on every byte inside the ranges. */
  ghost predicate AgreeOn(ranges: seq<Range>, a: seq<byte>, b: seq<byte>) {
    && |a| == |b|
    && forall i: nat, n: nat :: Covers(ranges, i, n) && i + n <= |a| ==> a[i..i + n] == b[i..i + n]
  }

  lemma SameLength(ranges: seq<Range>, w: seq<byte>, laid: seq<byte>)
    requires AgreeOn(ranges, w, laid)
    ensures |w| == |laid|
  {
  }

  lemma ClearAgreesOn(ranges: seq<Range>, a: seq<byte>, b: seq<byte>)
    requires |a| == |b| && Placed(ranges, |a|) && Clear(a, ranges) == Clear(b, ranges)
    ensures AgreeOn(ranges, a, b)
  {
    hide Placed, Clear;
    forall i: nat, n: nat | Covers(ranges, i, n) && i + n <= |a|
      ensures a[i..i + n] == b[i..i + n]
    {
      var k :| 0 <= k < |ranges| && ranges[k].offset <= i && i + n <= ranges[k].End();
      forall j | i <= j < i + n
        ensures a[j] == b[j]
      {
        ClearAgrees(a, b, ranges, k, j);
      }
    }
  }

  lemma AgreesWithItself(ranges: seq<Range>, a: seq<byte>)
    ensures AgreeOn(ranges, a, a)
  {
    hide Covers;
  }

  /** Every position is in a range or in a hidden section. */
  lemma {:induction false} Locate(ranges: seq<Range>, limit: nat, p: nat, n: nat)
    requires Placed(ranges, limit) && p < limit && n <= |ranges|
    requires SectionStart(ranges, n) <= p
    ensures (exists k :: 0 <= k < |ranges| && ranges[k].offset <= p < ranges[k].End())
         || (exists k :: 0 <= k <= |ranges| && SectionStart(ranges, k) <= p < SectionEnd(ranges, limit, k))
    decreases |ranges| - n
  {
    if p < SectionEnd(ranges, limit, n) {
    } else if p < ranges[n].End() {
    } else {
      Locate(ranges, limit, p, n + 1);
    }
  }

  /** A window that no single range covers touches a hidden section. */
  lemma TouchesHidden(ranges: seq<Range>, limit: nat, i: nat) returns (k: nat, p: nat)
    requires Placed(ranges, limit) && Coalesced(ranges) && i + 3 <= limit && !Covers(ranges, i, 3)
    ensures k <= |ranges| && i <= p < i + 3
    ensures SectionStart(ranges, k) <= p < SectionEnd(ranges, limit, k)
  {
    hide Placed;
    p := i;
    Locate(ranges, limit, i, 0);
    if a :| 0 <= a < |ranges| && ranges[a].offset <= i < ranges[a].End() {
      p := ranges[a].End();
      k := a + 1;
      assert SectionStart(ranges, k) == p;
    } else {
      k :| 0 <= k <= |ranges| && SectionStart(ranges, k) <= p < SectionEnd(ranges, limit, k);
    }
  }

  lemma CoveredAgrees(a: seq<byte>, b: seq<byte>, ranges: seq<Range>, i: nat)
    requires |a| == |b| && Placed(ranges, |a|) && Clear(a, ranges) == Clear(b, ranges)
    requires Covers(ranges, i, 3)
    ensures StartCodeAt(a, i) == StartCodeAt(b, i)
  {
    hide Placed, Clear;
    var k :| 0 <= k < |ranges| && ranges[k].offset <= i && i + 3 <= ranges[k].End();
    ClearAgrees(a, b, ranges, k, i);
    ClearAgrees(a, b, ranges, k, i + 1);
    ClearAgrees(a, b, ranges, k, i + 2);
  }

  lemma OpensWithZeros(laid: seq<byte>, ranges: seq<Range>, k: nat)
    requires OpenWithCode(laid, ranges) && k < |ranges|
    ensures ranges[k].offset + 4 <= ranges[k].End() && ranges[k].offset + 1 < |laid| && laid[ranges[k].offset + 1] == 0
  {
    assert LongAt(laid, ranges[k].offset);
  }

  /**
    * No start code of the accepted output touches a hidden section. The scan of an inner section misses a
    * code that begins on the section's last byte; the long start code opening the next range rules it out.
    */
  lemma HiddenHasNoCode(laid: seq<byte>, ranges: seq<Range>, body: seq<byte>, output: seq<byte>, i: nat, k: nat, p: nat)
    requires Placed(ranges, |laid|) && |body| == |laid| && Clear(body, ranges) == Clear(laid, ranges)
    requires body <= output && |laid| < |output|
    requires OpenWithCode(laid, ranges) && Clean(ranges, |laid|, output)
    requires i + 3 <= |laid| && k <= |ranges| && i <= p < i + 3
    requires SectionStart(ranges, k) <= p < SectionEnd(ranges, |laid|, k)
    ensures !StartCodeAt(body, i)
  {
    hide Placed, Clear, OpenWithCode;
    assert CleanAt(ranges, |laid|, output, k);
    assert body == output[..|body|];
    SliceCode(output, 0, |body|, i);
    if i + 3 >= ScanEnd(ranges, output, k) {
      OpensWithZeros(laid, ranges, k);
      ClearAgrees(body, laid, ranges, k, i + 2);
    }
  }

  /**
    * Whenever the validator accepts a frame processed without fallback, the visible start codes of the
    * interleaved ciphertext are exactly those of the laid-out plaintext.
    */
  lemma KeepsNalBoundaries(laid: seq<byte>, ranges: seq<Range>, body: seq<byte>, output: seq<byte>)
    requires Placed(ranges, |laid|) && Coalesced(ranges) && NalSafe(laid, ranges, 1)
    requires |body| == |laid| && Clear(body, ranges) == Clear(laid, ranges)
    requires body <= output && |laid| < |output|
    requires Clean(ranges, |laid|, output)
    ensures forall i: nat :: Visible(body, i) <==> Visible(laid, i)
  {
    hide Placed, Clear, Coalesced, Covers, Clean, StartCodeAt;
    forall i: nat
      ensures Visible(body, i) <==> Visible(laid, i)
    {
      if i + 3 < |laid| {
        if Covers(ranges, i, 3) {
          CoveredAgrees(body, laid, ranges, i);
        } else {
          var k, p := TouchesHidden(ranges, |laid|, i);
          HiddenHasNoCode(laid, ranges, body, output, i, k, p);
        }
      }
    }
  }

  // ----- The whole output -----

  /** The last byte laid out is hidden. */
  predicate EndsHidden(laid: seq<byte>, ranges: seq<Range>) {
    SectionStart(ranges, |ranges|) < |laid|
  }

  /** The last scan runs to the end of the output, so behind a hidden end neither tag nor trailer shows a start code. */
  lemma KeepsAllBoundaries(laid: seq<byte>, ranges: seq<Range>, body: seq<byte>, output: seq<byte>)
    requires Placed(ranges, |laid|) && Coalesced(ranges) && NalSafe(laid, ranges, 1)
    requires |body| == |laid| && Clear(body, ranges) == Clear(laid, ranges)
    requires body <= output && |laid| < |output|
    requires Clean(ranges, |laid|, output) && EndsHidden(laid, ranges)
    ensures forall i: nat :: Visible(output, i) <==> Visible(laid, i)
  {
    hide Placed, Clear, Coalesced, NalSafe, StartCodeAt;
    KeepsNalBoundaries(laid, ranges, body, output);
    assert CleanAt(ranges, |laid|, output, |ranges|);
    assert body == output[0..|body|];
    forall i: nat
      ensures Visible(output, i) <==> Visible(laid, i)
    {
      if i + 3 < |laid| {
        SliceCode(output, 0, |body|, i);
      }
    }
  }

  lemma {:induction false} RangeOrder(ranges: seq<Range>, limit: nat, m: nat, k: nat)
    requires Placed(ranges, limit) && m < |ranges| && k <= |ranges|
    ensures m < k ==> ranges[m].End() <= SectionStart(ranges, k)
    ensures k <= m ==> SectionEnd(ranges, limit, k) <= ranges[m].offset
    decreases if m < k then k - m else m - k
  {
    if m + 1 < k {
      RangeOrder(ranges, limit, m, k - 1);
      assert ranges[k - 2].End() <= GapEnd(ranges, limit, k - 2);
    } else if k < m {
      RangeOrder(ranges, limit, m, k + 1);
      assert ranges[k].End() <= GapEnd(ranges, limit, k);
    }
  }

  /** A code inside one range meets no scan of a hidden section. */
  lemma CoveredUnseen(ranges: seq<Range>, limit: nat, i: nat, k: nat)
    requires Placed(ranges, limit) && k <= |ranges|
    requires SectionStart(ranges, k) <= i + 2 && (k < |ranges| ==> i < ranges[k].offset)
    ensures !Covers(ranges, i, 3)
  {
    hide Placed;
    forall m | 0 <= m < |ranges|
      ensures i < ranges[m].offset || ranges[m].End() < i + 3
    {
      RangeOrder(ranges, limit, m, k);
    }
  }

  /** The codes an output may show: inside one range, or, if a range ends the frame, not before its end. */
  ghost predicate Harmless(laid: seq<byte>, ranges: seq<Range>, i: nat) {
    Covers(ranges, i, 3) || (!EndsHidden(laid, ranges) && i + 3 > |laid|)
  }

  /** Exactly which outputs are accepted: those whose visible start codes are all harmless. */
  lemma AcceptsExactly(laid: seq<byte>, ranges: seq<Range>, body: seq<byte>, output: seq<byte>)
    requires Placed(ranges, |laid|) && Coalesced(ranges) && OpenWithCode(laid, ranges)
    requires |body| == |laid| && Clear(body, ranges) == Clear(laid, ranges)
    requires body <= output && |laid| < |output|
    ensures Clean(ranges, |laid|, output) <==> forall i: nat :: Visible(output, i) ==> Harmless(laid, ranges, i)
  {
    hide Placed, Clear, Coalesced, Covers, StartCodeAt, OpenWithCode;
    if Clean(ranges, |laid|, output) {
      forall i: nat | Visible(output, i)
        ensures Harmless(laid, ranges, i)
      {
        if i + 3 <= |laid| {
          NoneInside(laid, ranges, body, output, i);
        } else {
          NoneBehind(laid, ranges, output, i);
        }
      }
    } else {
      var k :| 0 <= k <= |ranges| && !CleanAt(ranges, |laid|, output, k);
      var i: nat :| SectionStart(ranges, k) <= i + 2 && i + 3 < ScanEnd(ranges, output, k) && StartCodeAt(output, i);
      RefusedHarmful(laid, ranges, output, i, k);
    }
  }

  lemma NoneInside(laid: seq<byte>, ranges: seq<Range>, body: seq<byte>, output: seq<byte>, i: nat)
    requires Placed(ranges, |laid|) && Coalesced(ranges) && OpenWithCode(laid, ranges)
    requires |body| == |laid| && Clear(body, ranges) == Clear(laid, ranges)
    requires body <= output && |laid| < |output|
    requires Clean(ranges, |laid|, output) && i + 3 <= |laid|
    ensures StartCodeAt(output, i) ==> Covers(ranges, i, 3)
  {
    hide Placed, Clear, Coalesced, Covers, StartCodeAt, OpenWithCode;
    if !Covers(ranges, i, 3) {
      var k, p := TouchesHidden(ranges, |laid|, i);
      HiddenHasNoCode(laid, ranges, body, output, i, k, p);
      assert body == output[0..|body|];
      SliceCode(output, 0, |body|, i);
    }
  }

  lemma NoneBehind(laid: seq<byte>, ranges: seq<Range>, output: seq<byte>, i: nat)
    requires Clean(ranges, |laid|, output) && i + 3 > |laid|
    ensures EndsHidden(laid, ranges) ==> !Visible(output, i)
  {
    hide StartCodeAt;
    assert CleanAt(ranges, |laid|, output, |ranges|);
  }

  lemma RefusedHarmful(laid: seq<byte>, ranges: seq<Range>, output: seq<byte>, i: nat, k: nat)
    requires Placed(ranges, |laid|) && OpenWithCode(laid, ranges) && |laid| < |output| && k <= |ranges|
    requires SectionStart(ranges, k) != SectionEnd(ranges, |laid|, k)
    requires SectionStart(ranges, k) <= i + 2 && i + 3 < ScanEnd(ranges, output, k)
    ensures !Harmless(laid, ranges, i)
  {
    hide Placed, Covers, OpenWithCode;
    if k < |ranges| {
      OpensWithZeros(laid, ranges, k);
      PlacedAt(ranges, |laid|, k);
      ClearLenPrefix(ranges, k);
    } else if k > 0 {
      PlacedAt(ranges, |laid|, k - 1);
    }
    CoveredUnseen(ranges, |laid|, i, k);
  }

  /** An accepted output that is hidden from its first byte on shows no start code at all. */
  lemma WhollyHidden(laid: seq<byte>, output: seq<byte>)
    requires laid != [] && Clean([], |laid|, output)
    ensures forall i: nat :: !Visible(output, i)
  {
    assert CleanAt([], |laid|, output, 0);
  }
}
