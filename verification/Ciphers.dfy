/** Ciphers that meet the hypotheses and whose output can be told: for showing what some ciphertext does. */
module Ciphers {
  import opened Prelude
  import opened Interleave
  import opened Frame

  const ONES: seq<byte> := [255, 255, 255, 255, 255, 255, 255, 255]

  function KeyByte(key: seq<byte>, i: nat): byte {
    if i < |key| then key[i] else 0
  }

  function AddKey(p: seq<byte>, key: seq<byte>): seq<byte> {
    seq(|p|, i requires 0 <= i < |p| => (p[i] as int + KeyByte(key, i)) % 256)
  }

  function TakeKey(c: seq<byte>, key: seq<byte>): seq<byte> {
    seq(|c|, i requires 0 <= i < |c| => (c[i] as int - KeyByte(key, i)) % 256)
  }

  /** A cipher that adds a key byte by byte and always makes the tag `tag`. */
  function Adding(key: seq<byte>, tag: seq<byte>): Cipher {
    Cipher((n, a, p) => Some((AddKey(p, key), tag)), (n, a, c, t) => Some(TakeKey(c, key)))
  }

  lemma TakeOfAdd(p: seq<byte>, key: seq<byte>)
    ensures TakeKey(AddKey(p, key), key) == p
  {
    forall i | 0 <= i < |p|
      ensures TakeKey(AddKey(p, key), key)[i] == p[i]
    {
      AddTake(p[i], KeyByte(key, i));
    }
  }

  lemma AddTake(b: byte, k: byte)
    ensures ((b as int + k) % 256 - k) % 256 == b
  {
  }

  lemma AddingFaithful(key: seq<byte>, tag: seq<byte>)
    requires |tag| == TAG_BYTES
    ensures Faithful(Adding(key, tag))
  {
    hide AddKey, TakeKey;
    forall p
      ensures |AddKey(p, key)| == |p| && |TakeKey(p, key)| == |p| && TakeKey(AddKey(p, key), key) == p
    {
      TakeOfAdd(p, key);
      AddLengths(p, key);
    }
  }

  lemma AddLengths(p: seq<byte>, key: seq<byte>)
    ensures |AddKey(p, key)| == |p| && |TakeKey(p, key)| == |p|
  {
  }

  lemma AddNothing(p: seq<byte>)
    ensures AddKey(p, []) == p
  {
  }

  function Complement(p: seq<byte>): seq<byte> {
    seq(|p|, i requires 0 <= i < |p| => 255 - p[i])
  }

  lemma AddComplement(p: seq<byte>)
    ensures |AddKey(p, Complement(p))| == |p|
    ensures forall i :: 0 <= i < |p| ==> AddKey(p, Complement(p))[i] == 255
  {
  }

  lemma SealAdding(key: seq<byte>, tag: seq<byte>, laid: seq<byte>, ranges: seq<Range>, nonce: u32)
    requires Placed(ranges, |laid|) && SupplementalSize(nonce, ranges) <= 0xFF && Faithful(Adding(key, tag))
    ensures
      var clear, hidden := Clear(laid, ranges), Hidden(laid, ranges);
      && Weavable(clear, AddKey(hidden, key), ranges)
      && Seal(Adding(key, tag), nonce, clear, hidden, ranges)
         == Ok(Weave(clear, AddKey(hidden, key), ranges) + tag + Tail(nonce, ranges))
  {
    hide Placed, Clear, Hidden, Weave, AddKey, TakeKey, NonceFromTruncated, Tail, SupplementalSize, Faithful;
    AddLengths(Hidden(laid, ranges), key);
  }
}
