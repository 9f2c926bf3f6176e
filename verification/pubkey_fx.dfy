/** The feature extensions whose credentials carry public keys (Ed25519 and
    Schnorr): owners are addresses, and signature checks are remembered. */
module PubKeyFx {
  import opened Bytes
  import opened FxCommon
  import opened Sorting
  import opened VerifyCache
  import Secp256k1Fx

  /** Owner lists are the same as for secp256k1. */
  type OutputOwners = Secp256k1Fx.OutputOwners

  const PUB_KEY_LEN := 32

  datatype Scheme = Ed25519 | Schnorr(tag: Bytes)

  datatype Crypto = Crypto(
    hash: Hash,
    address: Bytes -> ShortID,
    parsesKey: Bytes -> bool,
    parsesSig: Bytes -> bool,
    verifies: (Bytes, Bytes, Bytes) -> bool)

  datatype Credential = Credential(sigs: seq<Bytes>, pubKeys: seq<Bytes>)

  datatype FxError =
    | OwnersError(error: Secp256k1Fx.FxError)
    | EmptyCredential
    | IndicesNotSortedUnique
    | Timelocked
    | TooManySigners
    | TooFewSigners
    | InputCredentialSignersMismatch
    | InputOutputIndexOutOfBounds
    | WrongSig

  /** The bytes whose hash is checked: the transaction, or its BIP-340 tagged form. */
  function Message(scheme: Scheme, hash: Hash, tx: Bytes): Bytes {
    match scheme
    case Ed25519 => tx
    case Schnorr(tag) => hash(tag) + hash(tag) + tx
  }

  /** The true result of a check: a key or signature that does not parse is a failed check. Ed25519
      parses everything. */
  function Genuine(scheme: Scheme, crypto: Crypto): Check -> bool {
    (c: Check) =>
      && (scheme.Schnorr? ==> crypto.parsesKey(c.pk) && crypto.parsesSig(c.sig))
      && crypto.verifies(c.pk, c.msg, c.sig)
  }

  function CheckOf(scheme: Scheme, crypto: Crypto, tx: Bytes, cred: Credential, i: nat): Check
    requires i < |cred.sigs| && i < |cred.pubKeys|
  {
    Check(0, cred.pubKeys[i], Message(scheme, crypto.hash, tx), cred.sigs[i])
  }

  /** The i-th public key is the indexed owner's, and the i-th signature is true under it. */
  predicate OwnerSigned(scheme: Scheme, crypto: Crypto, tx: Bytes, sigIndices: seq<uint32>, cred: Credential,
                        o: OutputOwners, i: nat)
    requires i < |sigIndices| && i < |cred.sigs|
  {
    && sigIndices[i] < ToUint32(|o.addrs|)
    && i < |cred.pubKeys| && |cred.pubKeys[i]| == PUB_KEY_LEN
    && crypto.address(cred.pubKeys[i]) == o.addrs[sigIndices[i]]
    && Genuine(scheme, crypto)(CheckOf(scheme, crypto, tx, cred, i))
  }

  /** The verdict of VerifyCredentials without any cache. */
  ghost predicate Authorized(scheme: Scheme, crypto: Crypto, bootstrapped: bool, now: uint64, tx: Bytes,
                             sigIndices: seq<uint32>, cred: Credential, o: OutputOwners) {
    && o.locktime <= now
    && o.threshold == ToUint32(|sigIndices|)
    && |sigIndices| == |cred.sigs|
    && (bootstrapped ==> forall i :: 0 <= i < |sigIndices| ==> OwnerSigned(scheme, crypto, tx, sigIndices, cred, o, i))
  }

  /** The verdict without any cache, in plain terms: before bootstrapping time and
      counts decide; after it, at each place the credential must also carry a
      32-byte public key whose address is the owner that the index names, and which
      verifies the signature: for Ed25519 on the transaction, for Schnorr, where key
      and signature must parse, on its tagged form. */
  lemma AuthorizedInPlainTerms(scheme: Scheme, crypto: Crypto, now: uint64, tx: Bytes, sigIndices: seq<uint32>,
                               cred: Credential, o: OutputOwners)
    ensures Authorized(scheme, crypto, false, now, tx, sigIndices, cred, o) <==>
              && o.locktime <= now && o.threshold == |sigIndices| % 0x1_0000_0000 && |sigIndices| == |cred.sigs|
    ensures Authorized(scheme, crypto, true, now, tx, sigIndices, cred, o) <==>
              && o.locktime <= now && o.threshold == |sigIndices| % 0x1_0000_0000 && |sigIndices| == |cred.sigs|
              && |cred.sigs| <= |cred.pubKeys|
              && forall i :: 0 <= i < |cred.sigs| ==>
                   && sigIndices[i] < |o.addrs| % 0x1_0000_0000
                   && |cred.pubKeys[i]| == 32 && crypto.address(cred.pubKeys[i]) == o.addrs[sigIndices[i]]
                   && match scheme {
                     case Ed25519 => crypto.verifies(cred.pubKeys[i], tx, cred.sigs[i])
                     case Schnorr(tag) =>
                       && crypto.parsesKey(cred.pubKeys[i]) && crypto.parsesSig(cred.sigs[i])
                       && crypto.verifies(cred.pubKeys[i], crypto.hash(tag) + crypto.hash(tag) + tx, cred.sigs[i])
                   }
  {
    if |sigIndices| == |cred.sigs| {
      if Authorized(scheme, crypto, true, now, tx, sigIndices, cred, o) && |cred.sigs| > 0 {
        assert OwnerSigned(scheme, crypto, tx, sigIndices, cred, o, |cred.sigs| - 1);
      }
      if |cred.sigs| <= |cred.pubKeys| {
        forall i | 0 <= i < |cred.sigs|
          ensures OwnerSigned(scheme, crypto, tx, sigIndices, cred, o, i) <==>
                    && sigIndices[i] < |o.addrs| % 0x1_0000_0000
                    && |cred.pubKeys[i]| == 32 && crypto.address(cred.pubKeys[i]) == o.addrs[sigIndices[i]]
                    && SignatureHolds(scheme, crypto, cred.pubKeys[i], tx, cred.sigs[i])
        {
        }
        hide OwnerSigned;
      }
    }
  }

  /** A signature on the transaction, in plain terms. */
  predicate SignatureHolds(scheme: Scheme, crypto: Crypto, pk: Bytes, tx: Bytes, sig: Bytes) {
    match scheme
    case Ed25519 => crypto.verifies(pk, tx, sig)
    case Schnorr(tag) =>
      && crypto.parsesKey(pk) && crypto.parsesSig(sig)
      && crypto.verifies(pk, crypto.hash(tag) + crypto.hash(tag) + tx, sig)
  }

  /** There is one parameter set. */
  function NoLevels(): nat -> nat {
    (len: nat) => 0
  }

  lemma LevelsAreZero(seen: set<Check>)
    requires forall c :: c in seen ==> c.level == 0
    ensures LevelsTold(NoLevels(), seen)
  {
  }

  class Fx {
    const scheme: Scheme
    const crypto: Crypto
    var bootstrapped: bool
    var verifyCache: map<ID, bool>
    /** All checks ever asked for. */
    ghost var seen: set<Check>

    ghost predicate Valid()
      reads this
    {
      Sound(crypto.hash, Genuine(scheme, crypto), seen, verifyCache) && forall c :: c in seen ==> c.level == 0
    }

    constructor (scheme: Scheme, crypto: Crypto)
      ensures Valid() && this.scheme == scheme && this.crypto == crypto && seen == {}
    {
      this.scheme, this.crypto := scheme, crypto;
      bootstrapped, verifyCache, seen := false, map[], {};
    }

    method Bootstrapped()
      requires Valid()
      modifies this`bootstrapped
      ensures Valid() && bootstrapped
    {
      bootstrapped := true;
    }

    method Forget(keep: set<ID>)
      requires Valid()
      modifies this`verifyCache
      ensures Valid() && verifyCache.Keys <= keep
    {
      ghost var cache := verifyCache;
      verifyCache := Evict(verifyCache, keep);
      SoundWhenMoreSeen(crypto.hash, Genuine(scheme, crypto), seen, seen, cache, verifyCache);
    }

    /** The remembered result, or the check itself; failures to parse are remembered as failed checks. */
    method CheckSignature(c: Check) returns (ok: bool)
      requires Valid() && c.level == 0
      modifies this`verifyCache, this`seen
      ensures Valid() && seen == old(seen) + {c}
      ensures NoCollision(crypto.hash, seen) ==> ok == Genuine(scheme, crypto)(c)
    {
      hide Sound, NoCollision, CacheKey, LevelsTold;
      SoundWhenMoreSeen(crypto.hash, Genuine(scheme, crypto), seen, seen + {c}, verifyCache, verifyCache);
      seen := seen + {c};
      var cacheKey := CacheKey(crypto.hash, c);
      if cacheKey in verifyCache {
        if NoCollision(crypto.hash, seen) {
          LevelsAreZero(seen);
          CacheAnswers(crypto.hash, Genuine(scheme, crypto), NoLevels(), seen, verifyCache, c);
        }
        return verifyCache[cacheKey];
      }
      if scheme.Schnorr? && !crypto.parsesKey(c.pk) {
        ok := false;
      } else if scheme.Schnorr? && !crypto.parsesSig(c.sig) {
        ok := false;
      } else {
        ok := crypto.verifies(c.pk, c.msg, c.sig);
      }
      SoundAfterPut(crypto.hash, Genuine(scheme, crypto), seen, verifyCache, c);
      verifyCache := verifyCache[cacheKey := ok];
      var keep: set<ID> := *;
      Forget(keep);
    }

    /** VerifyCredentials: over any history and any evictions, the verdict is
        the one without a cache, unless hashes collided. */
    method VerifyCredentials(now: uint64, tx: Bytes, sigIndices: seq<uint32>, cred: Credential, o: OutputOwners)
      returns (err: Option<FxError>)
      requires Valid()
      modifies this`verifyCache, this`seen
      ensures Valid() && AskedOnly(old(seen), seen, Message(scheme, crypto.hash, tx), cred.pubKeys, cred.sigs)
      ensures err == Some(Timelocked) <==> o.locktime > now
      ensures err == Some(TooManySigners) <==> o.locktime <= now && ToUint32(|sigIndices|) > o.threshold
      ensures err == Some(TooFewSigners) <==> o.locktime <= now && ToUint32(|sigIndices|) < o.threshold
      ensures err == Some(InputCredentialSignersMismatch) <==>
                o.locktime <= now && ToUint32(|sigIndices|) == o.threshold && |sigIndices| != |cred.sigs|
      ensures NoCollision(crypto.hash, seen) ==>
                (err.None? <==> Authorized(scheme, crypto, bootstrapped, now, tx, sigIndices, cred, o))
    {
      hide Valid, NoCollision, Genuine;
      var numSigs := |sigIndices|;
      if o.locktime > now {
        return Some(Timelocked);
      } else if o.threshold < ToUint32(numSigs) {
        return Some(TooManySigners);
      } else if o.threshold > ToUint32(numSigs) {
        return Some(TooFewSigners);
      } else if numSigs != |cred.sigs| {
        return Some(InputCredentialSignersMismatch);
      } else if !bootstrapped {
        return None;
      }
      var i := 0;
      while i < |sigIndices|
        invariant i <= |sigIndices| && Valid()
        invariant AskedOnly(old(seen), seen, Message(scheme, crypto.hash, tx), cred.pubKeys, cred.sigs)
        invariant NoCollision(crypto.hash, seen) ==>
                    forall k :: 0 <= k < i ==> OwnerSigned(scheme, crypto, tx, sigIndices, cred, o, k)
      {
        var index := sigIndices[i];
        assert Authorized(scheme, crypto, bootstrapped, now, tx, sigIndices, cred, o) ==>
            OwnerSigned(scheme, crypto, tx, sigIndices, cred, o, i);
        if index >= ToUint32(|o.addrs|) {
          return Some(InputOutputIndexOutOfBounds);
        }
        if i >= |cred.pubKeys| || |cred.pubKeys[i]| != PUB_KEY_LEN {
          return Some(WrongSig);
        }
        if crypto.address(cred.pubKeys[i]) != o.addrs[index] {
          return Some(WrongSig);
        }
        ghost var before := seen;
        var ok := CheckSignature(CheckOf(scheme, crypto, tx, cred, i));
        FewerCollisions(crypto.hash, before, seen);
        if !ok {
          return Some(WrongSig);
        }
        i := i + 1;
      }
      return None;
    }

    /** VerifyPermission */
    method VerifyPermission(now: uint64, tx: Bytes, sigIndices: seq<uint32>, cred: Credential, owner: OutputOwners)
      returns (err: Option<FxError>)
      requires Valid()
      modifies this`verifyCache, this`seen
      ensures Valid() && AskedOnly(old(seen), seen, Message(scheme, crypto.hash, tx), cred.pubKeys, cred.sigs)
      ensures NoCollision(crypto.hash, seen) ==>
                (err.None? <==>
                  && IndicesOk(sigIndices) && cred.sigs != [] && Secp256k1Fx.OwnersOk(owner)
                  && Authorized(scheme, crypto, bootstrapped, now, tx, sigIndices, cred, owner))
    {
      var ok := VerifyIndices(sigIndices);
      if !ok {
        return Some(IndicesNotSortedUnique);
      }
      if |cred.sigs| == 0 {
        return Some(EmptyCredential);
      }
      var e := Secp256k1Fx.VerifyOwners(owner);
      if e.Some? {
        return Some(OwnersError(e.value));
      }
      err := VerifyCredentials(now, tx, sigIndices, cred, owner);
    }
  }

  lemma FewerCollisions(hash: Hash, before: set<Check>, after: set<Check>)
    requires before <= after
    ensures NoCollision(hash, after) ==> NoCollision(hash, before)
  {
  }

  /** Once bootstrapped, acceptance names Threshold pairwise distinct owners,
      each with a key of that address under which a signature is true. */
  lemma AcceptanceNeedsThresholdOwners(scheme: Scheme, crypto: Crypto, now: uint64, tx: Bytes,
                                       sigIndices: seq<uint32>, cred: Credential, o: OutputOwners)
    requires IndicesOk(sigIndices) && Secp256k1Fx.OwnersOk(o)
    requires Authorized(scheme, crypto, true, now, tx, sigIndices, cred, o)
    ensures |sigIndices| == |cred.sigs| == o.threshold
    ensures |Signers(sigIndices, o.addrs)| == o.threshold
    ensures forall a :: a in Signers(sigIndices, o.addrs) ==>
              && a in o.addrs
              && exists k :: 0 <= k < |cred.sigs| && k < |cred.pubKeys| && crypto.address(cred.pubKeys[k]) == a
                             && SignatureHolds(scheme, crypto, cred.pubKeys[k], tx, cred.sigs[k])
  {
    forall i | 0 <= i < |sigIndices| ensures sigIndices[i] < ToUint32(|o.addrs|) {
      assert OwnerSigned(scheme, crypto, tx, sigIndices, cred, o, i);
    }
    AscendingIffDistinct(o.addrs);
    IndicesNameOwners(sigIndices, o.addrs);
    forall a | a in Signers(sigIndices, o.addrs)
      ensures exists k :: 0 <= k < |cred.sigs| && k < |cred.pubKeys| && crypto.address(cred.pubKeys[k]) == a
                          && SignatureHolds(scheme, crypto, cred.pubKeys[k], tx, cred.sigs[k])
    {
      var i :| 0 <= i < |sigIndices| && sigIndices[i] < |o.addrs| && a == o.addrs[sigIndices[i]];
      assert OwnerSigned(scheme, crypto, tx, sigIndices, cred, o, i);
    }
  }
}
