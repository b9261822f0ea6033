/** The inbound side: `CryptorManager` (dave/src/ratchet.rs). */
module Receiver {
  import opened Prelude
  import opened Interleave
  import opened Frame
  import opened Ratchet
  import opened Replay
  import opened Sender

  const MAX_GENERATION_GAP: nat := 250
  const CIPHER_EXPIRY: nat := 10_000

  /** Generations stay far below 2^32 unless the clock has run for millions of years. */
  const CLOCK_GENERATION_LIMIT: nat := 0xFFFF_FE00

  datatype ExpiringCipher = ExpiringCipher(key: seq<byte>, expiry: Option<nat>)

  datatype DecryptResult = Opened(plain: seq<byte>) | ReplayedNonce | MissingCryptor | AeadFailed

  class CryptorManager {
    const aead: Aead
    const ratchet: HashRatchet
    const window: ReplayWindow
    var ciphers: map<nat, ExpiringCipher>
    var oldestGeneration: nat
    var newestGeneration: nat

    /**
      * The ratchet caches exactly the generations from the oldest up to the next one to derive; every cipher is
      * the schedule's key for its generation; exactly the ciphers below the newest generation expire.
      */
    ghost predicate Valid()
      reads this, ratchet, window, window.missing
    {
      && Trusted(ratchet.kdf, aead) && window.Valid()
      && KeysValid()
    }

    ghost predicate KeysValid()
      reads this, ratchet
    {
      && ratchet.Valid()
      && oldestGeneration <= newestGeneration < CLOCK_GENERATION_LIMIT
      && (newestGeneration > 0 ==> newestGeneration < ratchet.nextGeneration)
      && (forall g: nat :: g in ratchet.cache <==> oldestGeneration <= g < ratchet.nextGeneration)
      && (forall g: nat :: g in ciphers ==> CipherValid(g))
    }

    ghost predicate CipherValid(g: nat)
      requires g in ciphers
      reads this, ratchet
    {
      && oldestGeneration <= g < ratchet.nextGeneration
      && ciphers[g].key == KeyAt(ratchet.kdf, ratchet.root, g)
      && (ciphers[g].expiry.Some? <==> g < newestGeneration)
    }

    constructor (aead: Aead, ratchet: HashRatchet)
      requires ratchet.Valid() && ratchet.nextGeneration == 0 && Trusted(ratchet.kdf, aead)
      ensures Valid() && window.log == [] && this.ratchet == ratchet && this.aead == aead
      ensures oldestGeneration == newestGeneration == 0 && ciphers == map[]
      ensures fresh(window) && fresh(window.missing)
    {
      this.aead, this.ratchet := aead, ratchet;
      window := new ReplayWindow();
      ciphers, oldestGeneration, newestGeneration := map[], 0, 0;
    }

    /** Drops expired ciphers, then erases generations from the oldest on until one is still in use. */
    method CleanupExpiredCiphers(elapsed: nat)
      requires KeysValid()
      modifies this`ciphers, this`oldestGeneration, ratchet
      ensures KeysValid() && ratchet.nextGeneration == old(ratchet.nextGeneration)
      ensures ciphers == map g | g in old(ciphers) && !Expired(old(ciphers)[g], elapsed) :: old(ciphers)[g]
      ensures forall g :: g in ciphers <==>
                g in old(ciphers) && (old(ciphers)[g].expiry.None? || elapsed < old(ciphers)[g].expiry.value)
      ensures old(oldestGeneration) <= oldestGeneration
      ensures forall g :: old(oldestGeneration) <= g < oldestGeneration ==> g !in ciphers
      ensures oldestGeneration < newestGeneration ==> oldestGeneration in ciphers
    {
      hide KeyAt, SecretAt, SecretsAt;
      ciphers := map g | g in ciphers && !Expired(ciphers[g], elapsed) :: ciphers[g];
      EraseUnused();
    }

    method EraseUnused()
      requires KeysValid()
      modifies this`oldestGeneration, ratchet
      ensures KeysValid() && ratchet.nextGeneration == old(ratchet.nextGeneration)
      ensures old(oldestGeneration) <= oldestGeneration
      ensures forall g :: old(oldestGeneration) <= g < oldestGeneration ==> g !in ciphers
      ensures oldestGeneration < newestGeneration ==> oldestGeneration in ciphers
    {
      hide KeyAt, SecretAt, SecretsAt;
      while oldestGeneration < newestGeneration && oldestGeneration !in ciphers
        invariant KeysValid() && ratchet.nextGeneration == old(ratchet.nextGeneration)
        invariant old(oldestGeneration) <= oldestGeneration
        invariant forall g :: old(oldestGeneration) <= g < oldestGeneration ==> g !in ciphers
        decreases newestGeneration - oldestGeneration
      {
        ratchet.Erase(oldestGeneration);
        oldestGeneration := oldestGeneration + 1;
      }
    }

    /** The generation's cipher has not expired. */
    static ghost predicate StillKept(ciphers: map<nat, ExpiringCipher>, generation: nat, elapsed: nat) {
      generation in ciphers && (ciphers[generation].expiry.None? || elapsed < ciphers[generation].expiry.value)
    }

    /**
      * In times: a generation is served as long as its cipher has not expired. One older than the newest is served only while
      * the oldest one kept, at or below it, has not; its cipher, if made anew, expires ten seconds later.
      */
    ghost predicate ServedInTime(before: map<nat, ExpiringCipher>, generation: nat, elapsed: nat, limit: nat, key: Option<seq<byte>>)
      reads this
    {
      && (StillKept(before, generation, elapsed) && generation <= newestGeneration + 250 && generation <= limit ==> key.Some?)
      && (key.Some? && generation < newestGeneration ==>
            oldestGeneration <= generation && StillKept(before, oldestGeneration, elapsed))
      && (key.Some? ==>
            && generation in ciphers
            && ciphers[generation].expiry == (if StillKept(before, generation, elapsed) then before[generation].expiry
                                              else if generation < newestGeneration then Some(elapsed + 10_000) else None))
    }

    /** A generation is served iff it is kept, at most 250 ahead, and reachable within the ratchet's lifetime. */
    ghost predicate Servable(generation: nat, maxLifetimeGeneration: nat)
      reads this
    {
      oldestGeneration <= generation <= newestGeneration + 250 && generation <= maxLifetimeGeneration
    }

    /** `cipher`: the schedule's key for the generation, or nothing. */
    method FindCipher(generation: nat, elapsed: nat, maxLifetimeGeneration: nat) returns (key: Option<seq<byte>>)
      requires KeysValid() && maxLifetimeGeneration < CLOCK_GENERATION_LIMIT
      modifies this`ciphers, this`oldestGeneration, ratchet
      ensures KeysValid() && old(oldestGeneration) <= oldestGeneration
      ensures key == if Servable(generation, maxLifetimeGeneration)
                     then Some(KeyAt(ratchet.kdf, ratchet.root, generation)) else None
      ensures key.Some? ==> generation in ciphers
      ensures ServedInTime(old(ciphers), generation, elapsed, maxLifetimeGeneration, key)
    {
      hide KeyAt, SecretAt, SecretsAt;
      CleanupExpiredCiphers(elapsed);
      if generation < oldestGeneration || generation > newestGeneration + MAX_GENERATION_GAP
         || generation > maxLifetimeGeneration
      {
        return None;
      }
      if generation !in ciphers {
        var secrets := ratchet.Get(generation);
        KeyIsSecretsKey(ratchet.kdf, ratchet.root, generation);
        var expiry := if generation < newestGeneration then Some(elapsed + CIPHER_EXPIRY) else None;
        ciphers := ciphers[generation := ExpiringCipher(secrets.value.key, expiry)];
      }
      return Some(ciphers[generation].key);
    }

    /** The generation part of `report_success`: a newer generation starts the expiry of all older ciphers. */
    method ReportGeneration(generation: nat, elapsed: nat)
      requires KeysValid() && generation < CLOCK_GENERATION_LIMIT
      modifies this`ciphers, this`newestGeneration
      ensures KeysValid() && ciphers.Keys == old(ciphers.Keys)
      ensures newestGeneration == if generation > old(newestGeneration) && generation in ciphers
                                  then generation else old(newestGeneration)
      ensures ciphers == if newestGeneration == old(newestGeneration) then old(ciphers)
                         else map g | g in old(ciphers) ::
                                ExpiringCipher(old(ciphers)[g].key,
                                               if g < newestGeneration then Some(elapsed + 10_000) else old(ciphers)[g].expiry)
    {
      hide KeyAt, SecretAt, SecretsAt;
      if generation <= newestGeneration || generation !in ciphers {
        return;
      }
      newestGeneration := generation;
      var expiry := elapsed + CIPHER_EXPIRY;
      ciphers := map g | g in ciphers ::
        if g < newestGeneration then ExpiringCipher(ciphers[g].key, Some(expiry)) else ciphers[g];
    }

    /**
      * `decrypt`. The outcome is settled by the history of accepted counters, the generations kept and the
      * schedule's key; only an opened frame enters the history.
      */
    method Decrypt(p: ParsedFrame, elapsed: nat, maxLifetimeGeneration: nat) returns (r: DecryptResult)
      requires Valid() && maxLifetimeGeneration < CLOCK_GENERATION_LIMIT
      requires Placed(p.unencryptedRanges, |p.interleavedFrame|) && p.truncatedNonce < 0x1_0000_0000
      modifies this, ratchet, window, window.missing
      ensures Valid() && old(oldestGeneration) <= oldestGeneration
      ensures var generation := WrappedGeneration(old(oldestGeneration), GenerationByte(p.truncatedNonce));
              var counter := WrappedNonce(generation, p.truncatedNonce);
              && (r.ReplayedNonce? <==> !Processable(old(window.log), counter))
              && (r.Opened? ==> window.log == old(window.log) + [counter])
              && (!r.Opened? ==> window.log == old(window.log))
              && (!r.ReplayedNonce? ==>
                    Outcome(r, p, generation, KeyAt(ratchet.kdf, ratchet.root, generation),
                            oldestGeneration <= generation <= old(newestGeneration) + 250
                            && generation <= maxLifetimeGeneration))
              && newestGeneration == if r.Opened? && generation > old(newestGeneration) then generation else old(newestGeneration)
    {
      hide Trusted, KeyAt, SecretAt, SecretsAt, WrappedGeneration, WrappedNonce, GenerationByte, Processable, Placed,
           CryptorManager.KeysValid, CryptorManager.ServedInTime, ReplayWindow.Valid, MissingNonceWindow.Valid;
      var generation := WrappedGeneration(oldestGeneration, GenerationByte(p.truncatedNonce));
      var counter := WrappedNonce(generation, p.truncatedNonce);
      var fresh' := window.CanProcess(counter);
      if !fresh' {
        return ReplayedNonce;
      }
      var key := FindCipher(generation, elapsed, maxLifetimeGeneration);
      if key.None? {
        return MissingCryptor;
      }
      KeyIsUsable(ratchet.kdf, aead, ratchet.root, generation);
      var plain := DecryptInto(aead(key.value), p);
      if plain.None? {
        return AeadFailed;
      }
      window.Accept(counter);
      ReportGeneration(generation, elapsed);
      return Opened(plain.value);
    }

    ghost predicate Outcome(r: DecryptResult, p: ParsedFrame, generation: nat, key: seq<byte>, servable: bool)
      requires Placed(p.unencryptedRanges, |p.interleavedFrame|) && p.truncatedNonce < 0x1_0000_0000
    {
      if !servable then r == MissingCryptor else
      && Faithful(aead(key))
      && r == match Open(aead(key), p)
              case None => AeadFailed
              case Some(plain) => Opened(plain)
    }
  }

  predicate Expired(cipher: ExpiringCipher, elapsed: nat) {
    cipher.expiry.Some? && cipher.expiry.value <= elapsed
  }
}
