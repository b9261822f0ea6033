/** VP8 and VP9 payload descriptors written out field by field are skipped exactly (cacophony/src/rtp_payload.rs). */
module Descriptors {
  import opened Prelude
  import opened RtpPayload

  /** A picture id of one byte, or of two with the top bit set. */
  predicate PictureId(id: seq<byte>) {
    (|id| == 1 && !Bit(id[0], 7)) || (|id| == 2 && Bit(id[0], 7))
  }

  // ----- Section 4.2 of RFC 7741 -----

  /** The optional bytes of a VP8 descriptor: picture id, TL0PICIDX, and TID with KEYIDX. */
  datatype Vp8Fields = Vp8Fields(flags: byte, id: seq<byte>, tl0: seq<byte>, tid: seq<byte>) {
    predicate WellFormed() {
      && (if Bit(flags, 7) then PictureId(id) else id == [])
      && |tl0| == (if Bit(flags, 6) then 1 else 0)
      && |tid| == if Bit(flags, 5) || Bit(flags, 4) then 1 else 0
    }

    function Write(): seq<byte> {
      [flags] + id + tl0 + tid
    }
  }

  /** Without the extension bit the descriptor is its first byte; a frame starts with partition zero's start bit. */
  lemma Vp8Short(first: byte, rest: seq<byte>)
    requires !Bit(first, 7)
    ensures Vp8Descriptor([first] + rest) == Some(Descriptor(1, Bit(first, 4) && first % 16 == 0, false))
  {
  }

  lemma Vp8Long(first: byte, fields: Vp8Fields, rest: seq<byte>)
    requires Bit(first, 7) && fields.WellFormed()
    ensures Vp8Descriptor([first] + fields.Write() + rest)
            == Some(Descriptor(1 + |fields.Write()|, Bit(first, 4) && first % 16 == 0, false))
  {
    hide Bit;
    var payload := [first] + fields.Write() + rest;
    assert payload[0] == first && payload[1] == fields.flags;
    assert Bit(fields.flags, 7) ==> payload[2] == fields.id[0];
  }

  // ----- Section 4.2 of RFC 9628 -----

  /** Reference indices: all but the last say that another follows. */
  predicate References(refs: seq<byte>) {
    |refs| > 0 && refs[|refs| - 1] % 2 == 0 && forall i :: 0 <= i < |refs| - 1 ==> refs[i] % 2 == 1
  }

  /** One picture of a picture group with its reference bytes. */
  predicate Picture(p: seq<byte>) {
    |p| > 0 && |p| == 1 + p[0] % 4
  }

  function Pictures(pictures: seq<seq<byte>>): seq<byte> {
    if |pictures| == 0 then [] else pictures[0] + Pictures(pictures[1..])
  }

  /** A scalability structure: header, layer sizes, and a counted picture group. */
  datatype Structure = Structure(header: byte, sizes: seq<byte>, group: seq<seq<byte>>) {
    predicate WellFormed() {
      && |sizes| == (if Bit(header, 4) then (header % 8 + 1) * 4 else 0)
      && |group| < 256 && (!Bit(header, 3) ==> group == [])
      && forall i :: 0 <= i < |group| ==> Picture(group[i])
    }

    function Write(): seq<byte>
      requires WellFormed()
    {
      [header] + sizes + if Bit(header, 3) then [|group|] + Pictures(group) else []
    }
  }

  datatype Vp9Fields = Vp9Fields(flags: byte, id: seq<byte>, layers: seq<byte>, refs: seq<byte>, structure: Option<Structure>) {
    predicate WellFormed() {
      && (if Bit(flags, 7) then PictureId(id) else id == [])
      && |layers| == (if !Bit(flags, 5) then 0 else if Bit(flags, 4) then 1 else 2)
      && (if Bit(flags, 4) && Bit(flags, 6) then References(refs) else refs == [])
      && (Bit(flags, 1) <==> structure.Some?) && (structure.Some? ==> structure.value.WellFormed())
    }

    function Write(): seq<byte>
      requires WellFormed()
    {
      [flags] + id + layers + refs + if structure.Some? then structure.value.Write() else []
    }
  }

  lemma {:induction false} SkipsReferences(before: seq<byte>, refs: seq<byte>, rest: seq<byte>, k: nat)
    requires References(refs) && k < |refs|
    ensures SkipReferences(before + refs + rest, |before| + k) == Some(|before| + |refs|)
    decreases |refs| - k
  {
    assert (before + refs + rest)[|before| + k] == refs[k];
    if k < |refs| - 1 {
      SkipsReferences(before, refs, rest, k + 1);
    }
  }

  lemma {:induction false} SkipsPictures(before: seq<byte>, group: seq<seq<byte>>, rest: seq<byte>)
    requires forall i :: 0 <= i < |group| ==> Picture(group[i])
    ensures SkipPictures(before + Pictures(group) + rest, |before|, |group|) == Some(|before| + |Pictures(group)|)
    decreases |group|
  {
    if |group| > 0 {
      var first, more := group[0], Pictures(group[1..]);
      assert Picture(first);
      SkipsPictures(before + first, group[1..], rest);
      var payload := before + Pictures(group) + rest;
      assert payload == before + first + more + rest;
      assert payload[|before|] == first[0];
    }
  }

  lemma SkipsStructure(before: seq<byte>, structure: Structure, rest: seq<byte>)
    requires structure.WellFormed()
    ensures SkipScalability(before + structure.Write() + rest, |before|) == Some(|before| + |structure.Write()|)
  {
    hide Bit, SkipPictures, Pictures;
    var header, sizes, group := structure.header, structure.sizes, structure.group;
    var payload := before + structure.Write() + rest;
    assert payload[|before|] == header;
    if Bit(header, 3) {
      var counted := before + [header] + sizes + [|group|];
      assert payload == counted + Pictures(group) + rest;
      assert payload[|counted| - 1] == |group|;
      SkipsPictures(counted, group, rest);
    }
  }

  /** A written VP9 descriptor is skipped whole, and its start and end bits are found. */
  lemma Vp9Long(fields: Vp9Fields, rest: seq<byte>)
    requires fields.WellFormed()
    ensures Vp9Descriptor(fields.Write() + rest)
            == Some(Descriptor(|fields.Write()|, Bit(fields.flags, 3), Bit(fields.flags, 2)))
  {
    hide Bit, SkipReferences, SkipScalability, References, Structure.Write, Structure.WellFormed;
    var flags, id, layers, refs := fields.flags, fields.id, fields.layers, fields.refs;
    var tail := if fields.structure.Some? then fields.structure.value.Write() else [];
    var payload := fields.Write() + rest;
    var early := [flags] + id + layers;
    assert payload[0] == flags && (Bit(flags, 7) ==> payload[1] == id[0]);
    assert payload == early + refs + (tail + rest);
    assert payload == (early + refs) + tail + rest;
    if Bit(flags, 4) && Bit(flags, 6) {
      SomeReference(refs);
      SkipsReferences(early, refs, tail + rest, 0);
    }
    if fields.structure.Some? {
      SkipsStructure(early + refs, fields.structure.value, rest);
    }
  }

  lemma SomeReference(refs: seq<byte>)
    requires References(refs)
    ensures |refs| > 0
  {
  }
}
