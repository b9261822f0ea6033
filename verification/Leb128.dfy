/** ULEB128 integers of at most 64 bits (dave/src/leb128.rs). */
module Leb128 {
  import opened Prelude

  datatype Decoded = Decoded(value: nat, len: nat)

  /** The shortest encoding of `v`: seven bits a byte, low group first, top bit set on all but the last byte. */
  function Encode(v: nat): (bytes: seq<byte>)
    ensures 1 <= |bytes|
    decreases v
  {
    if v < 0x80 then [v] else [v % 0x80 + 0x80] + Encode(v / 0x80)
  }

  /**
    * The number at the head of `input` and how many bytes it takes, after `depth` bytes of it were read.
    * The tenth byte has only one bit left, so anything but 0 or 1 there is refused.
    */
  function Decode(input: seq<byte>, depth: nat := 0): (r: Option<Decoded>)
    requires depth <= 9
    ensures r.Some? ==> 1 <= r.value.len <= |input| && r.value.len + depth <= 10
    decreases 9 - depth
  {
    if input == [] then None
    else if depth == 9 then
      if input[0] > 1 then None else Some(Decoded(input[0], 1))
    else if input[0] < 0x80 then Some(Decoded(input[0], 1))
    else
      match Decode(input[1..], depth + 1)
      case None => None
      case Some(d) => Some(Decoded(input[0] - 0x80 + 0x80 * d.value, d.len + 1))
  }

  /** What the low seven bits of the bytes denote, the first ones lowest. */
  function Value(bytes: seq<byte>): nat {
    if bytes == [] then 0 else bytes[0] % 128 + 128 * Value(bytes[1..])
  }

  /** The written bytes denote the number, all but the last have their top bit set, and the last is not an idle zero. */
  lemma {:induction false} EncodedIs(v: nat)
    ensures
      var bytes := Encode(v);
      && Value(bytes) == v && bytes[|bytes| - 1] < 128
      && (forall i :: 0 <= i < |bytes| - 1 ==> bytes[i] >= 128)
      && (|bytes| > 1 ==> bytes[|bytes| - 1] > 0)
  {
    if v >= 128 {
      EncodedIs(v / 128);
      assert Encode(v)[1..] == Encode(v / 128);
    }
  }

  /** The numbers that still fit when `depth` groups of seven bits are already taken. */
  function Room(depth: nat): (limit: nat)
    requires depth <= 9
    ensures limit >= 2
    decreases 9 - depth
  {
    if depth == 9 then 2 else 0x80 * Room(depth + 1)
  }

  lemma {:induction false} DecodeEncodeFrom(v: nat, rest: seq<byte>, depth: nat)
    requires depth <= 9 && v < Room(depth)
    ensures Decode(Encode(v) + rest, depth) == Some(Decoded(v, |Encode(v)|))
    decreases v
  {
    var whole := Encode(v) + rest;
    if v < 0x80 {
      assert whole[0] == v;
    } else {
      var low, high := v % 0x80, v / 0x80;
      DecodeEncodeFrom(high, rest, depth + 1);
      assert whole[1..] == Encode(high) + rest;
      assert whole[0] == low + 0x80;
    }
  }

  lemma RoomIsU64()
    ensures Room(0) == 0x1_0000_0000_0000_0000
  {
    assert Room(7) == 0x8000;
    assert Room(5) == 0x2000_0000;
    assert Room(3) == 0x800_0000_0000;
    assert Room(1) == 0x200_0000_0000_0000;
  }

  /** Reading gives back every u64 that was written, whatever follows it. */
  lemma DecodeEncode(v: u64, rest: seq<byte>)
    ensures Decode(Encode(v) + rest) == Some(Decoded(v, |Encode(v)|))
  {
    RoomIsU64();
    DecodeEncodeFrom(v, rest, 0);
  }

  /** What is read always fits the groups it may use, and no shorter byte string denotes it. */
  lemma {:induction false} DecodeFits(input: seq<byte>, depth: nat)
    requires depth <= 9
    ensures match Decode(input, depth)
            case None => true
            case Some(d) => d.value < Room(depth) && |Encode(d.value)| <= d.len
    decreases 9 - depth
  {
    if input != [] && depth < 9 && input[0] >= 0x80 {
      DecodeFits(input[1..], depth + 1);
    }
  }

  /** A number read from a frame is a u64 and re-encodes in at most the bytes it was read from. */
  lemma DecodedIsU64(input: seq<byte>)
    ensures match Decode(input)
            case None => true
            case Some(d) => d.value < 0x1_0000_0000_0000_0000 && |Encode(d.value)| <= d.len
  {
    RoomIsU64();
    DecodeFits(input, 0);
  }

  method EncodedLen(v: u64) returns (size: nat)
    ensures size == |Encode(v)|
  {
    var value: nat := v;
    size := 1;
    while value >= 0x80
      invariant size + |Encode(value)| == |Encode(v)| + 1
    {
      value := value / 0x80;
      size := size + 1;
    }
  }

  /** Writes into the caller's buffer from `start`; `None` when it is too short. */
  method WriteTo(v: u64, output: array<byte>, start: nat) returns (written: Option<nat>)
    requires start <= output.Length
    modifies output
    ensures written.Some? <==> start + |Encode(v)| <= output.Length
    ensures written.Some? ==>
              && written.value == |Encode(v)|
              && output[..] == Spliced(old(output[..]), start, Encode(v))
  {
    hide Spliced;
    SplicedNothing(output[..], start);
    var value: nat := v;
    var n: nat := 0;
    ghost var done: seq<byte> := [];
    while true
      invariant |done| == n && start + n <= output.Length
      invariant output[..] == Spliced(old(output[..]), start, done)
      invariant Encode(v) == done + Encode(value)
      decreases value
    {
      var group: byte := value % 0x80;
      value := value / 0x80;
      if start + n >= output.Length {
        return None;
      }
      var next: byte := if value == 0 then group else group + 0x80;
      ghost var before := output[..];
      output[start + n] := next;
      assert output[..] == before[start + n := next];
      SplicedStep(old(output[..]), start, done, next);
      done := done + [next];
      n := n + 1;
      if value == 0 {
        return Some(n);
      }
    }
  }

  /** `whole` with `part` laid over it from `start`. */
  ghost function Spliced(whole: seq<byte>, start: nat, part: seq<byte>): (s: seq<byte>)
    requires start + |part| <= |whole|
    ensures |s| == |whole|
  {
    whole[..start] + part + whole[start + |part|..]
  }

  lemma SplicedNothing(whole: seq<byte>, start: nat)
    requires start <= |whole|
    ensures Spliced(whole, start, []) == whole
  {
  }

  lemma SplicedStep(whole: seq<byte>, start: nat, part: seq<byte>, b: byte)
    requires start + |part| < |whole|
    ensures Spliced(whole, start, part)[start + |part| := b] == Spliced(whole, start, part + [b])
  {
  }

  function Pow128(k: nat): (p: nat)
    ensures p >= 1
  {
    if k == 0 then 1 else 0x80 * Pow128(k - 1)
  }

  /** A group of bits put above the `depth` groups in `low`; `low < Pow128(depth)` makes the source's OR an addition. */
  function Place(low: nat, group: nat, depth: nat): (v: nat) {
    low + group * Pow128(depth)
  }

  /** A decoded tail placed above the `depth` groups already read. */
  ghost function Shifted(tail: Option<Decoded>, low: nat, depth: nat): Option<Decoded> {
    match tail
    case None => None
    case Some(d) => Some(Decoded(Place(low, d.value, depth), d.len + depth))
  }

  lemma PlaceStep(low: nat, group: nat, above: nat, depth: nat)
    ensures Place(low, group + 0x80 * above, depth) == Place(Place(low, group, depth), above, depth + 1)
    ensures group < 0x80 && low < Pow128(depth) ==> Place(low, group, depth) < Pow128(depth + 1)
  {
    var p := Pow128(depth);
    assert (group + 0x80 * above) * p == group * p + above * (0x80 * p);
    if group < 0x80 {
      assert group * p <= 0x7f * p;
    }
  }

  lemma ShiftedStep(input: seq<byte>, low: nat, depth: nat)
    requires depth < 9 && input != [] && input[0] >= 0x80 && low < Pow128(depth)
    ensures Shifted(Decode(input, depth), low, depth)
         == Shifted(Decode(input[1..], depth + 1), Place(low, input[0] - 0x80, depth), depth + 1)
    ensures Place(low, input[0] - 0x80, depth) < Pow128(depth + 1)
  {
    var tail := Decode(input[1..], depth + 1);
    PlaceStep(low, input[0] - 0x80, if tail.Some? then tail.value.value else 0, depth);
  }

  method Read(input: seq<byte>) returns (r: Option<Decoded>)
    ensures r == Decode(input)
  {
    hide Place, Pow128, Shifted;
    ShiftedNothing(input);
    var value: nat := 0;
    var index := 0;
    while index < |input|
      invariant 0 <= index <= |input| && index <= 9
      invariant value < Pow128(index)
      invariant Decode(input) == Shifted(Decode(input[index..], index), value, index)
    {
      var b := input[index];
      if index == 9 {
        if b > 1 {
          ShiftedLast(input[index..], value, index);
          return None;
        }
        ShiftedLast(input[index..], value, index);
        return Some(Decoded(Place(value, b, 9), 10));
      }
      if b < 0x80 {
        ShiftedLast(input[index..], value, index);
        return Some(Decoded(Place(value, b, index), index + 1));
      }
      assert input[index..][1..] == input[index + 1..];
      ShiftedStep(input[index..], value, index);
      value := Place(value, b - 0x80, index);
      index := index + 1;
    }
    ShiftedEnd(input[index..], value, index);
    return None;
  }

  lemma ShiftedNothing(input: seq<byte>)
    ensures Pow128(0) == 1 && input[0..] == input
    ensures Decode(input) == Shifted(Decode(input[0..], 0), 0, 0)
  {
    assert input[0..] == input;
  }

  lemma ShiftedEnd(input: seq<byte>, low: nat, depth: nat)
    requires depth <= 9 && input == []
    ensures Shifted(Decode(input, depth), low, depth) == None
  {
  }

  lemma ShiftedLast(input: seq<byte>, low: nat, depth: nat)
    requires depth <= 9 && input != [] && (depth == 9 || input[0] < 0x80)
    ensures Shifted(Decode(input, depth), low, depth)
         == if depth == 9 && input[0] > 1 then None else Some(Decoded(Place(low, input[0], depth), depth + 1))
  {
  }

  lemma AtMostFive(v: u32)
    ensures |Encode(v)| <= 5
  {
    assert |Encode(v / 0x80 / 0x80 / 0x80 / 0x80)| == 1;
    assert |Encode(v / 0x80 / 0x80 / 0x80)| <= 2;
    assert |Encode(v / 0x80 / 0x80)| <= 3;
    assert |Encode(v / 0x80)| <= 4;
  }
}
