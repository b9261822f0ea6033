/** Splitting a frame into authenticated and encrypted bytes and weaving them back (dave/src/frame.rs). */
module Interleave {

  datatype Range = Range(offset: nat, len: nat) {
    function End(): nat {
      offset + len
    }
  }

  /** Where the byte run after range `i` ends. */
  function GapEnd(ranges: seq<Range>, limit: nat, i: nat): nat
    requires i < |ranges|
  {
    if i + 1 < |ranges| then ranges[i + 1].offset else limit
  }

  /** The ranges are in order, do not overlap and end within `limit`. */
  predicate Placed(ranges: seq<Range>, limit: nat) {
    forall i :: 0 <= i < |ranges| ==> ranges[i].End() <= GapEnd(ranges, limit, i)
  }

  function Last(ranges: seq<Range>): Range
    requires ranges != []
  {
    ranges[|ranges| - 1]
  }

  function Front(ranges: seq<Range>): seq<Range>
    requires ranges != []
  {
    ranges[..|ranges| - 1]
  }

  lemma PlacedFront(ranges: seq<Range>, limit: nat)
    requires Placed(ranges, limit) && ranges != []
    ensures Last(ranges).End() <= limit && Placed(Front(ranges), Last(ranges).offset)
  {
    assert GapEnd(ranges, limit, |ranges| - 1) == limit;
    var front := Front(ranges);
    forall i | 0 <= i < |front|
      ensures front[i].End() <= GapEnd(front, Last(ranges).offset, i)
    {
      assert ranges[i].End() <= GapEnd(ranges, limit, i);
    }
  }

  function ClearLen(ranges: seq<Range>): (n: nat) {
    if ranges == [] then 0 else ClearLen(Front(ranges)) + Last(ranges).len
  }

  lemma PlacedRoom(ranges: seq<Range>, limit: nat)
    requires Placed(ranges, limit)
    ensures ClearLen(ranges) <= limit
  {
    if ranges != [] {
      PlacedFront(ranges, limit);
      PlacedRoom(Front(ranges), Last(ranges).offset);
    }
  }

  /** The bytes of `frame` inside the ranges. */
  function Clear<T>(frame: seq<T>, ranges: seq<Range>): (bytes: seq<T>)
    requires Placed(ranges, |frame|)
    ensures |bytes| == ClearLen(ranges)
    decreases |ranges|
  {
    if ranges == [] then [] else
    var last := Last(ranges);
    PlacedFront(ranges, |frame|);
    Clear(frame[..last.offset], Front(ranges)) + frame[last.offset..last.End()]
  }

  /** The bytes of `frame` outside the ranges. */
  function Hidden<T>(frame: seq<T>, ranges: seq<Range>): (bytes: seq<T>)
    requires Placed(ranges, |frame|)
    ensures |bytes| + ClearLen(ranges) == |frame|
    decreases |ranges|
  {
    if ranges == [] then frame else
    var last := Last(ranges);
    PlacedFront(ranges, |frame|);
    Hidden(frame[..last.offset], Front(ranges)) + frame[last.End()..]
  }

  predicate Weavable<T>(clear: seq<T>, hidden: seq<T>, ranges: seq<Range>) {
    |clear| == ClearLen(ranges) && Placed(ranges, |clear| + |hidden|)
  }

  /** The frame whose range bytes are `clear` and whose other bytes are `hidden`, both in order. */
  function Weave<T>(clear: seq<T>, hidden: seq<T>, ranges: seq<Range>): (frame: seq<T>)
    requires Weavable(clear, hidden, ranges)
    ensures |frame| == |clear| + |hidden|
    decreases |ranges|
  {
    if ranges == [] then hidden else
    var (c, h) := Cuts(clear, hidden, ranges);
    Weave(clear[..c], hidden[..h], Front(ranges)) + clear[c..] + hidden[h..]
  }

  /** Where the two halves are cut in front of the last range. */
  function Cuts<T>(clear: seq<T>, hidden: seq<T>, ranges: seq<Range>): (cuts: (nat, nat))
    requires Weavable(clear, hidden, ranges) && ranges != []
    ensures cuts.0 <= |clear| && cuts.1 <= |hidden|
    ensures cuts.0 + cuts.1 == Last(ranges).offset && |clear| - cuts.0 == Last(ranges).len
    ensures Weavable(clear[..cuts.0], hidden[..cuts.1], Front(ranges))
  {
    PlacedFront(ranges, |clear| + |hidden|);
    PlacedRoom(Front(ranges), Last(ranges).offset);
    var c := |clear| - Last(ranges).len;
    (c, Last(ranges).offset - c)
  }

  lemma ThreeParts<T>(frame: seq<T>, i: nat, j: nat)
    requires i <= j <= |frame|
    ensures frame == frame[..i] + frame[i..j] + frame[j..]
  {
  }

  lemma DropDrop<T>(s: seq<T>, i: nat, j: nat)
    requires i + j <= |s|
    ensures s[i..][j..] == s[i + j..]
  {
  }

  lemma SliceSlice<T>(s: seq<T>, i: nat, j: nat, k: nat)
    requires j <= k && i + k <= |s|
    ensures s[i..][j..k] == s[i + j..i + k]
  {
  }

  lemma ConsAppend<T>(x: T, xs: seq<T>, ys: seq<T>)
    ensures var all := [x] + xs + ys; all[0] == x && all[1..] == xs + ys
  {
  }

  lemma Associate<T>(a: seq<T>, b: seq<T>, c: seq<T>)
    ensures a + (b + c) == (a + b) + c
  {
  }

  lemma Parts<T>(a: seq<T>, b: seq<T>, c: seq<T>)
    ensures var all := a + b + c;
            all[..|a|] == a && all[|a|..|a| + |b|] == b && all[|a| + |b|..] == c
  {
  }

  /** Weaving the two halves of a frame gives the frame. */
  lemma {:induction false} WeaveOfSplit<T>(frame: seq<T>, ranges: seq<Range>)
    requires Placed(ranges, |frame|)
    ensures Weave(Clear(frame, ranges), Hidden(frame, ranges), ranges) == frame
    decreases |ranges|
  {
    if ranges != [] {
      var last := Last(ranges);
      PlacedFront(ranges, |frame|);
      WeaveOfSplit(frame[..last.offset], Front(ranges));
      ThreeParts(frame, last.offset, last.End());
      var c := Clear(frame[..last.offset], Front(ranges));
      var h := Hidden(frame[..last.offset], Front(ranges));
      Parts(c, frame[last.offset..last.End()], []);
      Parts(h, frame[last.End()..], []);
      var cuts := Cuts(Clear(frame, ranges), Hidden(frame, ranges), ranges);
      assert cuts == (|c|, |h|);
    }
  }

  /** Splitting a woven frame gives back both halves. */
  lemma {:induction false} SplitOfWeave<T>(clear: seq<T>, hidden: seq<T>, ranges: seq<Range>)
    requires Weavable(clear, hidden, ranges)
    ensures Clear(Weave(clear, hidden, ranges), ranges) == clear
    ensures Hidden(Weave(clear, hidden, ranges), ranges) == hidden
    decreases |ranges|
  {
    if ranges != [] {
      var (c, h) := Cuts(clear, hidden, ranges);
      SplitOfWeave(clear[..c], hidden[..h], Front(ranges));
      Parts(Weave(clear[..c], hidden[..h], Front(ranges)), clear[c..], hidden[h..]);
      ThreeParts(clear, c, |clear|);
      ThreeParts(hidden, h, |hidden|);
    }
  }

  /** Bytes appended outside every range extend only the hidden half. */
  lemma AppendHidden<T>(frame: seq<T>, ranges: seq<Range>, more: seq<T>)
    requires Placed(ranges, |frame|)
    ensures Placed(ranges, |frame + more|)
    ensures Clear(frame + more, ranges) == Clear(frame, ranges)
    ensures Hidden(frame + more, ranges) == Hidden(frame, ranges) + more
  {
    PlacedMonotone(ranges, |frame|, |frame + more|);
    if ranges != [] {
      var last := Last(ranges);
      PlacedFront(ranges, |frame|);
      var whole := frame + more;
      assert whole[..last.offset] == frame[..last.offset];
      assert whole[last.offset..last.End()] == frame[last.offset..last.End()];
      assert whole[last.End()..] == frame[last.End()..] + more;
    }
  }

  lemma PlacedMonotone(ranges: seq<Range>, limit: nat, wider: nat)
    requires Placed(ranges, limit) && limit <= wider
    ensures Placed(ranges, wider)
  {
    forall i | 0 <= i < |ranges|
      ensures ranges[i].End() <= GapEnd(ranges, wider, i)
    {
      assert ranges[i].End() <= GapEnd(ranges, limit, i);
    }
  }

  lemma PlacedSnoc(ranges: seq<Range>, last: Range, limit: nat)
    requires Placed(ranges, last.offset) && last.End() <= limit
    ensures Placed(ranges + [last], limit)
  {
    var all := ranges + [last];
    forall i | 0 <= i < |all|
      ensures all[i].End() <= GapEnd(all, limit, i)
    {
      if i < |ranges| {
        assert ranges[i].End() <= GapEnd(ranges, last.offset, i);
      }
    }
  }

  /** A range placed over freshly appended bytes extends only the clear half. */
  lemma AppendClear<T>(frame: seq<T>, ranges: seq<Range>, more: seq<T>)
    requires Placed(ranges, |frame|)
    ensures var wider := ranges + [Range(|frame|, |more|)];
            && Placed(wider, |frame + more|)
            && Clear(frame + more, wider) == Clear(frame, ranges) + more
            && Hidden(frame + more, wider) == Hidden(frame, ranges)
  {
    var last := Range(|frame|, |more|);
    PlacedSnoc(ranges, last, |frame + more|);
    assert Front(ranges + [last]) == ranges;
    assert (frame + more)[..|frame|] == frame;
  }

  /** Growing a last range that ends at the frame's end does the same. */
  lemma GrowClear<T>(frame: seq<T>, ranges: seq<Range>, more: seq<T>)
    requires Placed(ranges, |frame|) && ranges != [] && Last(ranges).End() == |frame|
    ensures var grown := Front(ranges) + [Range(Last(ranges).offset, Last(ranges).len + |more|)];
            && Placed(grown, |frame + more|)
            && Clear(frame + more, grown) == Clear(frame, ranges) + more
            && Hidden(frame + more, grown) == Hidden(frame, ranges)
  {
    var last := Last(ranges);
    var wide := Range(last.offset, last.len + |more|);
    PlacedFront(ranges, |frame|);
    PlacedSnoc(Front(ranges), wide, |frame + more|);
    hide Placed, GapEnd, ClearLen;
    assert Front(Front(ranges) + [wide]) == Front(ranges);
    var whole := frame + more;
    assert whole[..last.offset] == frame[..last.offset];
    assert whole[last.offset..wide.End()] == frame[last.offset..last.End()] + more;
    assert whole[wide.End()..] == [] && frame[last.End()..] == [];
    Associate(Clear(frame[..last.offset], Front(ranges)), frame[last.offset..last.End()], more);
  }

  lemma PlacedAt(ranges: seq<Range>, limit: nat, i: nat)
    requires Placed(ranges, limit) && i < |ranges|
    ensures ranges[i].offset + ClearLen(ranges) <= limit + ClearLen(ranges[..i])
    ensures i > 0 ==> ranges[i - 1].End() <= ranges[i].offset
    decreases |ranges|
  {
    if i > 0 {
      assert ranges[i - 1].End() <= GapEnd(ranges, limit, i - 1);
    }
    PlacedFront(ranges, limit);
    if i < |ranges| - 1 {
      PlacedAt(Front(ranges), Last(ranges).offset, i);
      assert Front(ranges)[..i] == ranges[..i];
    }
  }

  lemma ClearLenPrefix(ranges: seq<Range>, i: nat)
    requires i < |ranges|
    ensures ClearLen(ranges[..i + 1]) == ClearLen(ranges[..i]) + ranges[i].len <= ClearLen(ranges)
    decreases |ranges|
  {
    assert Front(ranges[..i + 1]) == ranges[..i];
    if i == |ranges| - 1 {
      assert ranges[..i + 1] == ranges;
    } else {
      ClearLenPrefix(Front(ranges), i);
      assert Front(ranges)[..i] == ranges[..i] && Front(ranges)[..i + 1] == ranges[..i + 1];
    }
  }

  /** The first `i` ranges split the first `at` bytes of the frame into `clear` and `hidden`. */
  ghost predicate SplitUpTo<T>(frame: seq<T>, ranges: seq<Range>, i: nat, at: nat, clear: seq<T>, hidden: seq<T>) {
    && i <= |ranges| && at <= |frame| && Placed(ranges[..i], at)
    && at == (if i == 0 then 0 else ranges[i - 1].End())
    && clear == Clear(frame[..at], ranges[..i])
    && hidden == Hidden(frame[..at], ranges[..i])
  }

  lemma SplitStep<T>(frame: seq<T>, ranges: seq<Range>, i: nat, at: nat, clear: seq<T>, hidden: seq<T>)
    requires Placed(ranges, |frame|) && i < |ranges|
    requires SplitUpTo(frame, ranges, i, at, clear, hidden)
    ensures var r := ranges[i];
            && at <= r.offset && r.End() <= |frame|
            && SplitUpTo(frame, ranges, i + 1, r.End(), clear + frame[r.offset..r.End()], hidden + frame[at..r.offset])
  {
    hide Clear, Hidden, Placed, GapEnd, Last, Front;
    var r := ranges[i];
    PlacedAt(ranges, |frame|, i);
    ClearLenPrefix(ranges, i);
    AppendHidden(frame[..at], ranges[..i], frame[at..r.offset]);
    assert frame[..at] + frame[at..r.offset] == frame[..r.offset];
    AppendClear(frame[..r.offset], ranges[..i], frame[r.offset..r.End()]);
    assert frame[..r.offset] + frame[r.offset..r.End()] == frame[..r.End()];
    assert ranges[..i] + [r] == ranges[..i + 1];
  }

  lemma SplitEnd<T>(frame: seq<T>, ranges: seq<Range>, at: nat, clear: seq<T>, hidden: seq<T>)
    requires Placed(ranges, |frame|)
    requires SplitUpTo(frame, ranges, |ranges|, at, clear, hidden)
    ensures clear == Clear(frame, ranges) && hidden + frame[at..] == Hidden(frame, ranges)
  {
    assert ranges[..|ranges|] == ranges;
    AppendHidden(frame[..at], ranges, frame[at..]);
    assert frame[..at] + frame[at..] == frame;
  }

  method Split<T>(frame: seq<T>, ranges: seq<Range>) returns (authenticated: seq<T>, encrypted: seq<T>)
    requires Placed(ranges, |frame|)
    ensures authenticated == Clear(frame, ranges)
    ensures encrypted == Hidden(frame, ranges)
  {
    authenticated, encrypted := [], [];
    var frameIndex := 0;
    for i := 0 to |ranges|
      invariant frameIndex >= 0
      invariant SplitUpTo(frame, ranges, i, frameIndex, authenticated, encrypted)
    {
      var range := ranges[i];
      SplitStep(frame, ranges, i, frameIndex, authenticated, encrypted);
      if range.offset > frameIndex {
        encrypted := encrypted + frame[frameIndex..range.offset];
      }
      authenticated := authenticated + frame[range.offset..range.End()];
      frameIndex := range.End();
    }
    SplitEnd(frame, ranges, frameIndex, authenticated, encrypted);
    if frameIndex < |frame| {
      encrypted := encrypted + frame[frameIndex..];
    }
  }

  /** More hidden bytes at the end are appended to the woven frame. */
  lemma WeaveMoreHidden<T>(clear: seq<T>, hidden: seq<T>, ranges: seq<Range>, more: seq<T>)
    requires Weavable(clear, hidden, ranges)
    ensures Weavable(clear, hidden + more, ranges)
    ensures Weave(clear, hidden + more, ranges) == Weave(clear, hidden, ranges) + more
  {
    PlacedMonotone(ranges, |clear| + |hidden|, |clear| + |hidden + more|);
    hide Placed, GapEnd, ClearLen;
    if ranges != [] {
      var (c, h) := Cuts(clear, hidden, ranges);
      assert Cuts(clear, hidden + more, ranges) == (c, h);
      assert (hidden + more)[..h] == hidden[..h];
      assert (hidden + more)[h..] == hidden[h..] + more;
      Associate(Weave(clear[..c], hidden[..h], Front(ranges)) + clear[c..], hidden[h..], more);
    }
  }

  /** A range right at the end of the woven frame appends its clear bytes. */
  lemma WeaveMoreClear<T>(clear: seq<T>, hidden: seq<T>, ranges: seq<Range>, more: seq<T>)
    requires Weavable(clear, hidden, ranges)
    ensures var wider := ranges + [Range(|clear| + |hidden|, |more|)];
            && Weavable(clear + more, hidden, wider)
            && Weave(clear + more, hidden, wider) == Weave(clear, hidden, ranges) + more
  {
    var last := Range(|clear| + |hidden|, |more|);
    PlacedSnoc(ranges, last, |clear + more| + |hidden|);
    assert Front(ranges + [last]) == ranges;
    assert Cuts(clear + more, hidden, ranges + [last]) == (|clear|, |hidden|);
    assert (clear + more)[..|clear|] == clear;
    assert hidden[..|hidden|] == hidden;
  }

  /** The first `i` ranges weave the first `a` clear and `e` hidden bytes into `output`. */
  ghost predicate WovenUpTo<T>(clear: seq<T>, hidden: seq<T>, ranges: seq<Range>, i: nat, a: nat, e: nat, output: seq<T>) {
    && i <= |ranges| && a <= |clear| && e <= |hidden|
    && a == ClearLen(ranges[..i])
    && a + e == (if i == 0 then 0 else ranges[i - 1].End())
    && Weavable(clear[..a], hidden[..e], ranges[..i])
    && output == Weave(clear[..a], hidden[..e], ranges[..i])
  }

  lemma WovenStart<T>(clear: seq<T>, hidden: seq<T>, ranges: seq<Range>)
    ensures WovenUpTo(clear, hidden, ranges, 0, 0, 0, [])
  {
  }

  lemma WovenStep<T>(clear: seq<T>, hidden: seq<T>, ranges: seq<Range>, i: nat, a: nat, e: nat, output: seq<T>)
    requires Weavable(clear, hidden, ranges) && i < |ranges|
    requires WovenUpTo(clear, hidden, ranges, i, a, e, output)
    ensures var r := ranges[i]; var h := e + (r.offset - (a + e)); var c := a + r.len;
            && e <= h <= |hidden| && c <= |clear| && h + c == r.End()
            && WovenUpTo(clear, hidden, ranges, i + 1, c, h, output + hidden[e..h] + clear[a..c])
  {
    hide Weave, Placed, GapEnd, Cuts, Last, Front;
    var r := ranges[i];
    PlacedAt(ranges, |clear| + |hidden|, i);
    ClearLenPrefix(ranges, i);
    var h, c := e + (r.offset - (a + e)), a + r.len;
    WeaveMoreHidden(clear[..a], hidden[..e], ranges[..i], hidden[e..h]);
    assert hidden[..e] + hidden[e..h] == hidden[..h];
    WeaveMoreClear(clear[..a], hidden[..h], ranges[..i], clear[a..c]);
    assert clear[..a] + clear[a..c] == clear[..c];
    assert ranges[..i] + [r] == ranges[..i + 1];
  }

  lemma WovenEnd<T>(clear: seq<T>, hidden: seq<T>, ranges: seq<Range>, a: nat, e: nat, output: seq<T>)
    requires Weavable(clear, hidden, ranges)
    requires WovenUpTo(clear, hidden, ranges, |ranges|, a, e, output)
    ensures e <= |hidden| && output + hidden[e..] == Weave(clear, hidden, ranges)
  {
    assert ranges[..|ranges|] == ranges && clear[..a] == clear;
    WeaveMoreHidden(clear, hidden[..e], ranges, hidden[e..]);
    assert hidden[..e] + hidden[e..] == hidden;
  }

  /** The source's assertions on the lengths are the precondition here. */
  method Reconstruct<T>(authenticated: seq<T>, encrypted: seq<T>, ranges: seq<Range>) returns (output: seq<T>)
    requires Weavable(authenticated, encrypted, ranges)
    ensures output == Weave(authenticated, encrypted, ranges)
  {
    hide *;
    output := [];
    var frameIndex, a, e := 0, 0, 0;
    WovenStart(authenticated, encrypted, ranges);
    for i := 0 to |ranges|
      invariant a >= 0 && e >= 0 && frameIndex == a + e
      invariant WovenUpTo(authenticated, encrypted, ranges, i, a, e, output)
    {
      var range := ranges[i];
      ghost var before, start := output, e;
      WovenStep(authenticated, encrypted, ranges, i, a, e, output);
      if range.offset > frameIndex {
        var len := range.offset - frameIndex;
        output := output + encrypted[e..e + len];
        e := e + len;
      }
      assert output == before + encrypted[start..e];
      output := output + authenticated[a..a + range.len];
      a := a + range.len;
      frameIndex := range.End();
    }
    WovenEnd(authenticated, encrypted, ranges, a, e, output);
    if e < |encrypted| {
      output := output + encrypted[e..];
    }
  }
}
