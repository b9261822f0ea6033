/** Generations, nonces and the hash ratchet (dave/src/ratchet.rs). */
module Ratchet {
  import opened Prelude

  /** The number of frames one generation's key protects: 2^24. */
  const GENERATION_FRAMES: nat := 0x100_0000
  const GENERATION_WRAP: nat := 0x100

  // ----- Counters -----

  /** `compute_wrapped_generation`: the first generation at or above `oldest` with this low byte. */
  function WrappedGeneration(oldest: nat, generation: nat): nat
    requires generation < GENERATION_WRAP
  {
    var factor := oldest / GENERATION_WRAP + if generation < oldest % GENERATION_WRAP then 1 else 0;
    factor * GENERATION_WRAP + generation
  }

  function WrappedNonce(generation: nat, nonce: u32): nat {
    generation * GENERATION_FRAMES + nonce % GENERATION_FRAMES
  }

  /** The generation byte a truncated nonce carries. */
  function GenerationByte(nonce: u32): (g: nat)
    ensures g < GENERATION_WRAP
  {
    nonce / GENERATION_FRAMES
  }

  /** The receiver recovers a sender's generation exactly when it is less than 256 ahead of the oldest one kept. */
  lemma UnwrapsExactly(oldest: nat, generation: nat)
    ensures WrappedGeneration(oldest, generation % GENERATION_WRAP) == generation
            <==> oldest <= generation < oldest + GENERATION_WRAP
    ensures oldest <= WrappedGeneration(oldest, generation % GENERATION_WRAP) < oldest + GENERATION_WRAP
  {
    var q, r := oldest / 256, oldest % 256;
    var p, g := generation / 256, generation % 256;
    assert oldest == q * 256 + r && generation == p * 256 + g;
    if g < r {
      assert WrappedGeneration(oldest, g) == (q + 1) * 256 + g;
    } else {
      assert WrappedGeneration(oldest, g) == q * 256 + g;
    }
  }

  /** The truncated nonce and generation of the `n`-th frame since activation. */
  function TruncatedAt(n: nat): u32 {
    n % 0x1_0000_0000
  }

  function GenerationAt(n: nat): nat {
    n / GENERATION_FRAMES
  }

  lemma TruncatedGeneration(n: nat)
    ensures GenerationByte(TruncatedAt(n)) == GenerationAt(n) % GENERATION_WRAP
    ensures WrappedNonce(GenerationAt(n), TruncatedAt(n)) == n
  {
    var q, r := n / 0x1_0000_0000, n % 0x1_0000_0000;
    assert n == q * 0x1_0000_0000 + r;
    assert n / 0x100_0000 == q * 0x100 + r / 0x100_0000;
    assert n % 0x100_0000 == r % 0x100_0000;
  }

  /** Counting one frame on from frame `n`, the sender finds the next frame's generation. */
  lemma SenderStep(n: nat)
    ensures WrappedGeneration(GenerationAt(n), GenerationByte(TruncatedAt(n + 1))) == GenerationAt(n + 1)
  {
    TruncatedGeneration(n + 1);
    assert GenerationAt(n) <= GenerationAt(n + 1) <= GenerationAt(n) + 1;
    UnwrapsExactly(GenerationAt(n), GenerationAt(n + 1));
  }

  /** Two frames of one activation never share both key generation and truncated nonce. */
  lemma NoNonceReuse(m: nat, n: nat)
    requires GenerationAt(m) == GenerationAt(n) && TruncatedAt(m) == TruncatedAt(n)
    ensures m == n
  {
    TruncatedGeneration(m);
    TruncatedGeneration(n);
  }

  // ----- The key schedule -----

  datatype Label = Key | Nonce | Secret

  /** `derive_tree_secret` of a secret, a label, a generation and a length; section 9.1 of RFC 9420. */
  type Kdf = (seq<byte>, Label, nat, nat) -> seq<byte>

  datatype GenerationSecrets = GenerationSecrets(key: seq<byte>, nonce: seq<byte>)

  function SecretAt(kdf: Kdf, root: seq<byte>, generation: nat): seq<byte> {
    if generation == 0 then root else kdf(SecretAt(kdf, root, generation - 1), Secret, generation - 1, 32)
  }

  function SecretsAt(kdf: Kdf, root: seq<byte>, generation: nat): GenerationSecrets {
    var secret := SecretAt(kdf, root, generation);
    GenerationSecrets(kdf(secret, Key, generation, 16), kdf(secret, Nonce, generation, 12))
  }

  function KeyAt(kdf: Kdf, root: seq<byte>, generation: nat): seq<byte> {
    SecretsAt(kdf, root, generation).key
  }

  /** The next generation after `steps` turns of the deriving loop, which wraps around at 32 bits. */
  function NextAfter(next: u32, steps: nat): u32 {
    (next + steps) % 0x1_0000_0000
  }

  /**
    * The loop `while next_generation <= generation` of `get` goes on for ever exactly when the generation asked for
    * is 2^32 - 1; otherwise it ends after the generations up to it are derived.
    */
  lemma LoopEndsUnlessLast(next: u32, generation: u32)
    requires next <= generation
    ensures (forall steps: nat :: NextAfter(next, steps) <= generation) <==> generation == 0xFFFF_FFFF
    ensures generation < 0xFFFF_FFFF ==> NextAfter(next, generation - next + 1) == generation + 1
    ensures forall steps: nat :: steps <= generation - next ==> NextAfter(next, steps) == next + steps <= generation
  {
    if generation < 0xFFFF_FFFF {
      assert NextAfter(next, generation - next + 1) > generation;
    }
  }

  /**
    * Derives generations in order and caches them. `get(u32::MAX)` would never leave the source's loop, so
    * callers stay below it.
    */
  class HashRatchet {
    const kdf: Kdf
    ghost const root: seq<byte>
    var nextSecret: seq<byte>
    var nextGeneration: u32
    var cache: map<nat, GenerationSecrets>

    /** The cache only holds entries of the recursive key schedule, all of them below the next generation. */
    ghost predicate Valid()
      reads this
    {
      && nextSecret == SecretAt(kdf, root, nextGeneration)
      && forall g :: g in cache ==> g < nextGeneration && cache[g] == SecretsAt(kdf, root, g)
    }

    constructor (kdf: Kdf, secret: seq<byte>)
      ensures Valid() && root == secret && this.kdf == kdf && nextGeneration == 0 && cache == map[]
    {
      this.kdf, root := kdf, secret;
      nextSecret, nextGeneration, cache := secret, 0, map[];
    }

    /** The schedule's secrets for a generation, unless it was erased. */
    method Get(generation: u32) returns (r: Option<GenerationSecrets>)
      requires Valid() && generation < 0xFFFF_FFFF
      modifies this
      ensures Valid()
      ensures r == if generation in old(cache) || generation >= old(nextGeneration)
                   then Some(SecretsAt(kdf, root, generation)) else None
      ensures nextGeneration == if generation >= old(nextGeneration) then generation + 1 else old(nextGeneration)
      ensures forall g: nat :: g in cache <==> g in old(cache) || old(nextGeneration) <= g < nextGeneration
    {
      if generation !in cache {
        if nextGeneration > generation {
          return None;
        }
        while nextGeneration <= generation
          invariant Valid() && old(nextGeneration) <= nextGeneration <= generation + 1
          invariant forall g: nat :: g in cache <==> g in old(cache) || old(nextGeneration) <= g < nextGeneration
          decreases generation - nextGeneration
        {
          Next();
        }
      }
      return Some(cache[generation]);
    }

    method Erase(generation: u32)
      requires Valid()
      modifies this`cache
      ensures Valid() && cache == old(cache) - {generation}
    {
      cache := cache - {generation};
    }

    method Next()
      requires Valid() && nextGeneration < 0xFFFF_FFFF
      modifies this
      ensures Valid() && nextGeneration == old(nextGeneration) + 1
      ensures nextSecret == kdf(old(nextSecret), Secret, old(nextGeneration), 32)
      ensures cache == old(cache)[old(nextGeneration) := GenerationSecrets(kdf(old(nextSecret), Key, old(nextGeneration), 16),
                                                                           kdf(old(nextSecret), Nonce, old(nextGeneration), 12))]
    {
      var generation := nextGeneration;
      var key := kdf(nextSecret, Key, generation, 16);
      var nonce := kdf(nextSecret, Nonce, generation, 12);
      nextSecret := kdf(nextSecret, Secret, generation, 32);
      nextGeneration := NextAfter(nextGeneration, 1);
      cache := cache[generation := GenerationSecrets(key, nonce)];
    }
  }
}
