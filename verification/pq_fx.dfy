/** The post-quantum feature extensions (ML-DSA and SLH-DSA): owners are full
    public keys of one parameter set, and signature checks are remembered. */
module PQFx {
  import opened Bytes
  import opened FxCommon
  import opened Sorting
  import opened VerifyCache

  /** The two extensions differ in their lengths only. */
  datatype Scheme = MLDSA | SLHDSA

  /** SecurityLevel is a byte; 0, 1 and 2 name parameter sets. */
  type Level = n: nat | n < 256

  function PubKeyLen(scheme: Scheme, level: Level): nat {
    match scheme
    case MLDSA => if level == 0 then 1312 else if level == 1 then 1952 else if level == 2 then 2592 else 0
    case SLHDSA => if level == 0 then 32 else if level == 1 then 48 else if level == 2 then 64 else 0
  }

  function SignatureLen(scheme: Scheme, level: Level): nat {
    match scheme
    case MLDSA => if level == 0 then 2420 else if level == 1 then 3309 else if level == 2 then 4627 else 0
    case SLHDSA => if level == 0 then 17088 else if level == 1 then 35664 else if level == 2 then 49856 else 0
  }

  /** mldsaMode and slhdsaMode: unknown levels are read as the default parameter set. */
  function Mode(level: Level): Level {
    if level <= 2 then level else 1
  }

  /** The parameter set that a key length belongs to. */
  function LevelOf(scheme: Scheme): nat -> nat {
    (len: nat) => LevelOfLength(scheme, len)
  }

  function LevelOfLength(scheme: Scheme, len: nat): nat {
    if len == PubKeyLen(scheme, 0) then 0 else if len == PubKeyLen(scheme, 1) then 1 else 2
  }

  /** PublicKeyFromBytes as a yes or no, and VerifySignatureCtx. */
  datatype Crypto = Crypto(
    hash: Hash,
    parses: (Level, Bytes) -> bool,
    verifies: (Level, Bytes, Bytes, Bytes) -> bool)

  datatype OutputOwners = OutputOwners(level: Level, locktime: uint64, threshold: uint32, addrs: seq<Bytes>)

  datatype Credential = Credential(level: Level, sigs: seq<Bytes>)

  datatype TransferInput = TransferInput(amt: uint64, sigIndices: seq<uint32>)

  datatype TransferOutput = TransferOutput(amt: uint64, owners: OutputOwners)

  datatype MintOperation = MintOperation(
    mintInput: seq<uint32>,
    mintOutput: OutputOwners,
    transferOutput: TransferOutput)

  datatype FxError =
    | ThresholdExceeded
    | OutputUnoptimized
    | InvalidSecLevel
    | InvalidPubKeyLength
    | AddrsNotSorted
    | EmptyCredential
    | MismatchedSecLevel
    | IndicesNotSortedUnique
    | NoValue
    | MismatchedAmounts
    | WrongMintCreated
    | Timelocked
    | TooManySigners
    | TooFewSigners
    | InputCredentialSignersMismatch
    | InputOutputIndexOutOfBounds
    | WrongSig

  // ----- well-formedness -----

  /** What OutputOwners.Verify accepts. */
  ghost predicate OwnersOk(scheme: Scheme, o: OutputOwners) {
    && o.threshold <= ToUint32(|o.addrs|)
    && (o.threshold == 0 ==> o.addrs == [])
    && o.level <= 2
    && AllOfLength(o.addrs, PubKeyLen(scheme, o.level))
    && Ascending(Compare, o.addrs)
  }

  method CheckLengths(bs: seq<Bytes>, n: nat) returns (ok: bool)
    ensures ok <==> AllOfLength(bs, n)
  {
    var i := 0;
    while i < |bs|
      invariant i <= |bs| && AllOfLength(bs[..i], n)
    {
      if |bs[i]| != n {
        return false;
      }
      i := i + 1;
    }
    assert bs[..i] == bs;
    return true;
  }

  method VerifyOwners(scheme: Scheme, o: OutputOwners) returns (err: Option<FxError>)
    ensures err.None? <==> OwnersOk(scheme, o)
    ensures err == Some(ThresholdExceeded) <==> o.threshold > |o.addrs| % 0x1_0000_0000
    ensures err == Some(OutputUnoptimized) <==> o.threshold == 0 && |o.addrs| > 0
    ensures err == Some(InvalidSecLevel) ==> o.level > 2
    ensures err == Some(InvalidPubKeyLength) ==> o.level <= 2 && !AllOfLength(o.addrs, PubKeyLen(scheme, o.level))
  {
    if o.threshold > ToUint32(|o.addrs|) {
      return Some(ThresholdExceeded);
    }
    if o.threshold == 0 && |o.addrs| > 0 {
      return Some(OutputUnoptimized);
    }
    var expected := PubKeyLen(scheme, o.level);
    if expected == 0 {
      return Some(InvalidSecLevel);
    }
    var ok := CheckLengths(o.addrs, expected);
    if !ok {
      return Some(InvalidPubKeyLength);
    }
    BytesAreOrdered();
    ok := IsSortedAndUniqueByCompare<Bytes>(Compare, o.addrs);
    return if ok then None else Some(AddrsNotSorted);
  }

  ghost predicate CredentialOk(scheme: Scheme, cred: Credential) {
    cred.sigs != [] && cred.level <= 2 && AllOfLength(cred.sigs, SignatureLen(scheme, cred.level))
  }

  method VerifyCredential(scheme: Scheme, cred: Credential) returns (err: Option<FxError>)
    ensures err.None? <==> CredentialOk(scheme, cred)
    ensures err == Some(EmptyCredential) <==> |cred.sigs| == 0
    ensures err == Some(InvalidSecLevel) <==> |cred.sigs| > 0 && cred.level > 2
  {
    if |cred.sigs| == 0 {
      return Some(EmptyCredential);
    }
    var expected := SignatureLen(scheme, cred.level);
    if expected == 0 {
      return Some(InvalidSecLevel);
    }
    var ok := CheckLengths(cred.sigs, expected);
    return if ok then None else Some(MismatchedSecLevel);
  }

  /** The parameter sets: key and signature lengths of both schemes. */
  function Lengths(scheme: Scheme): seq<(nat, nat)> {
    match scheme
    case MLDSA => [(1312, 2420), (1952, 3309), (2592, 4627)]
    case SLHDSA => [(32, 17088), (48, 35664), (64, 49856)]
  }

  /** What the checks of owners and credentials accept, in plain terms. */
  lemma ChecksInPlainTerms(scheme: Scheme, o: OutputOwners, cred: Credential)
    ensures OwnersOk(scheme, o) <==>
              && o.level < |Lengths(scheme)|
              && o.threshold <= |o.addrs| % 0x1_0000_0000 && (o.threshold == 0 ==> |o.addrs| == 0)
              && (forall pk :: pk in o.addrs ==> |pk| == Lengths(scheme)[o.level].0)
              && (forall i, j :: 0 <= i < j < |o.addrs| ==> Compare(o.addrs[i], o.addrs[j]) < 0)
    ensures CredentialOk(scheme, cred) <==>
              && cred.level < |Lengths(scheme)|
              && |cred.sigs| > 0
              && forall sig :: sig in cred.sigs ==> |sig| == Lengths(scheme)[cred.level].1
  {
    LengthsAre(scheme, o.level);
    LengthsAre(scheme, cred.level);
    hide Compare, PubKeyLen, SignatureLen, Lengths;
    assert (forall pk :: pk in o.addrs ==> |pk| == PubKeyLen(scheme, o.level)) <==>
        AllOfLength(o.addrs, PubKeyLen(scheme, o.level));
    assert (forall sig :: sig in cred.sigs ==> |sig| == SignatureLen(scheme, cred.level)) <==>
        AllOfLength(cred.sigs, SignatureLen(scheme, cred.level));
  }

  lemma LengthsAre(scheme: Scheme, level: Level)
    ensures |Lengths(scheme)| == 3
    ensures level <= 2 ==> Lengths(scheme)[level] == (PubKeyLen(scheme, level), SignatureLen(scheme, level))
    ensures level > 2 ==> PubKeyLen(scheme, level) == SignatureLen(scheme, level) == 0
  {
  }

  // ----- verdicts -----

  /** The true result of a check. */
  function Genuine(crypto: Crypto): Check -> bool {
    (c: Check) => c.level < 256 && crypto.parses(c.level, c.pk) && crypto.verifies(c.level, c.pk, c.msg, c.sig)
  }

  function CheckOf(o: OutputOwners, tx: Bytes, sig: Bytes, index: uint32): Check
    requires index < |o.addrs|
  {
    Check(Mode(o.level), o.addrs[index], tx, sig)
  }

  /** Signature i is a true signature under the indexed owner's key. */
  predicate OwnerSigned(crypto: Crypto, tx: Bytes, sigIndices: seq<uint32>, sigs: seq<Bytes>, o: OutputOwners, i: nat)
    requires i < |sigIndices| && i < |sigs|
  {
    sigIndices[i] < ToUint32(|o.addrs|) && Genuine(crypto)(CheckOf(o, tx, sigs[i], sigIndices[i]))
  }

  /** The verdict of VerifyCredentials without any cache. */
  ghost predicate Authorized(crypto: Crypto, bootstrapped: bool, now: uint64, tx: Bytes, sigIndices: seq<uint32>,
                             sigs: seq<Bytes>, o: OutputOwners)
  {
    && o.locktime <= now
    && o.threshold == ToUint32(|sigIndices|)
    && |sigIndices| == |sigs|
    && (bootstrapped ==> forall i :: 0 <= i < |sigIndices| ==> OwnerSigned(crypto, tx, sigIndices, sigs, o, i))
  }

  /** The verdict without any cache, in plain terms: before bootstrapping time and
      counts decide; after it, at each place the owner key that the index names must
      also parse at the owners' level (an unknown level is read as level 1) and
      verify the signature on the transaction. */
  lemma AuthorizedInPlainTerms(crypto: Crypto, now: uint64, tx: Bytes, sigIndices: seq<uint32>, sigs: seq<Bytes>,
                               o: OutputOwners)
    ensures Authorized(crypto, false, now, tx, sigIndices, sigs, o) <==>
              && o.locktime <= now && o.threshold == |sigIndices| % 0x1_0000_0000 && |sigIndices| == |sigs|
    ensures Authorized(crypto, true, now, tx, sigIndices, sigs, o) <==>
              && o.locktime <= now && o.threshold == |sigIndices| % 0x1_0000_0000 && |sigIndices| == |sigs|
              && forall i :: 0 <= i < |sigs| ==>
                   && sigIndices[i] < |o.addrs| % 0x1_0000_0000
                   && crypto.parses(if o.level <= 2 then o.level else 1, o.addrs[sigIndices[i]])
                   && crypto.verifies(if o.level <= 2 then o.level else 1, o.addrs[sigIndices[i]], tx, sigs[i])
  {
    if |sigIndices| == |sigs| {
      forall i | 0 <= i < |sigs|
        ensures OwnerSigned(crypto, tx, sigIndices, sigs, o, i) <==>
                  && sigIndices[i] < |o.addrs| % 0x1_0000_0000
                  && crypto.parses(if o.level <= 2 then o.level else 1, o.addrs[sigIndices[i]])
                  && crypto.verifies(if o.level <= 2 then o.level else 1, o.addrs[sigIndices[i]], tx, sigs[i])
      {
      }
      hide OwnerSigned;
    }
  }

  /** Signature i is the first that is not its owner's. */
  ghost predicate FirstBad(crypto: Crypto, tx: Bytes, sigIndices: seq<uint32>, sigs: seq<Bytes>, o: OutputOwners,
                           i: nat)
  {
    && i < |sigIndices| == |sigs|
    && !OwnerSigned(crypto, tx, sigIndices, sigs, o, i)
    && forall k :: 0 <= k < i ==> OwnerSigned(crypto, tx, sigIndices, sigs, o, k)
  }

  // ----- the memory of checks -----

  /** Keys parse only at the level whose length they have. */
  ghost predicate LengthsPinned(scheme: Scheme, crypto: Crypto) {
    forall level: Level, pk :: level <= 2 && crypto.parses(level, pk) ==> |pk| == PubKeyLen(scheme, level)
  }

  /** The key does not have the length of another level. */
  predicate KeyFits(scheme: Scheme, level: Level, pk: Bytes) {
    forall other: Level :: other <= 2 && |pk| == PubKeyLen(scheme, other) ==> other == level
  }

  /** No owner key that an index names has another level's length. */
  ghost predicate KeysFit(scheme: Scheme, o: OutputOwners, sigIndices: seq<uint32>) {
    forall i :: 0 <= i < |sigIndices| && sigIndices[i] < |o.addrs| ==>
      KeyFits(scheme, Mode(o.level), o.addrs[sigIndices[i]])
  }

  /** Of the checks asked for, some were made: their keys parsed, and what is remembered are their results. */
  ghost predicate StateOk(scheme: Scheme, crypto: Crypto, seen: set<Check>, made: set<Check>, cache: map<ID, bool>) {
    && made <= seen
    && Sound(crypto.hash, Genuine(crypto), made, cache)
    && forall c :: c in made ==> c.level <= 2 && crypto.parses(c.level, c.pk)
  }

  /** When what is remembered must not show in the answer to a check. */
  ghost predicate ClearFor(scheme: Scheme, crypto: Crypto, seen: set<Check>, c: Check)
    requires c.level <= 2
  {
    && NoCollision(crypto.hash, seen)
    && (LevelsTold(LevelOf(scheme), seen) || (LengthsPinned(scheme, crypto) && KeyFits(scheme, c.level, c.pk)))
  }

  /** A remembered result is the true one, in every history in which lengths
      told levels, and in any history if keys parse at one level only and this one fits its level. */
  lemma RememberedIsTrue(scheme: Scheme, crypto: Crypto, seen: set<Check>, made: set<Check>, cache: map<ID, bool>,
                         c: Check)
    requires StateOk(scheme, crypto, seen, made, cache) && c in seen && c.level <= 2
    requires CacheKey(crypto.hash, c) in cache && ClearFor(scheme, crypto, seen, c)
    ensures cache[CacheKey(crypto.hash, c)] == Genuine(crypto)(c)
  {
    var key := CacheKey(crypto.hash, c);
    var c' :| c' in made && CacheKey(crypto.hash, c') == key && cache[key] == Genuine(crypto)(c');
    assert NoCollisionBetween(crypto.hash, c, c');
    KeyDeterminesCheck(crypto.hash, c, c');
    assert c'.level == c.level;
  }

  /** However the other parts of the world are, a lookup answers this check truly. */
  ghost predicate AlwaysAnswered(scheme: Scheme, hash: Hash, c: Check)
    requires c.level <= 2
  {
    forall crypto: Crypto, seen: set<Check>, made: set<Check>, cache: map<ID, bool> ::
      StateOk(scheme, crypto, seen, made, cache) && crypto.hash == hash && LengthsPinned(scheme, crypto)
      && c in seen && NoCollision(hash, seen) && CacheKey(hash, c) in cache
      ==> cache[CacheKey(hash, c)] == Genuine(crypto)(c)
  }

  /** The cache key leaves out the level. What is remembered answers a check
      truly in every history exactly when the key does not have another level's length. */
  lemma AlwaysAnsweredIff(scheme: Scheme, hash: Hash, c: Check)
    requires c.level <= 2 && NoCollision(hash, {c})
    ensures AlwaysAnswered(scheme, hash, c) <==> KeyFits(scheme, c.level, c.pk)
  {
    if KeyFits(scheme, c.level, c.pk) {
      forall crypto: Crypto, seen: set<Check>, made: set<Check>, cache: map<ID, bool> |
        StateOk(scheme, crypto, seen, made, cache) && crypto.hash == hash && LengthsPinned(scheme, crypto)
        && c in seen && NoCollision(hash, seen) && CacheKey(hash, c) in cache
        ensures cache[CacheKey(hash, c)] == Genuine(crypto)(c)
      {
        RememberedIsTrue(scheme, crypto, seen, made, cache, c);
      }
    } else {
      var crypto, seen, made, cache := OtherLengthShows(scheme, hash, c);
    }
  }

  /** A key that has another level's length: one true check at that level, and
      the same key, message and signature pass at this level, where the key does not even parse. */
  lemma OtherLengthShows(scheme: Scheme, hash: Hash, c: Check)
    returns (crypto: Crypto, seen: set<Check>, made: set<Check>, cache: map<ID, bool>)
    requires c.level <= 2 && !KeyFits(scheme, c.level, c.pk) && NoCollision(hash, {c})
    ensures StateOk(scheme, crypto, seen, made, cache) && crypto.hash == hash && LengthsPinned(scheme, crypto)
    ensures c in seen && NoCollision(hash, seen) && CacheKey(hash, c) in cache
    ensures cache[CacheKey(hash, c)] && !Genuine(crypto)(c)
  {
    var other: Level :| other <= 2 && |c.pk| == PubKeyLen(scheme, other) && other != c.level;
    crypto := Crypto(hash, (level: Level, pk: Bytes) => level <= 2 && |pk| == PubKeyLen(scheme, level),
                     (level: Level, pk: Bytes, msg: Bytes, sig: Bytes) => true);
    var c0 := c.(level := other);
    seen, made, cache := {c, c0}, {c0}, map[CacheKey(hash, c0) := true];
    assert Genuine(crypto)(c0);
    assert Hashed(hash, c0) == Hashed(hash, c);
    assert NoCollisionBetween(hash, c, c);
    LengthTellsLevel(scheme, other);
    LengthTellsLevel(scheme, c.level);
  }

  /** When the cache must not show in a call about these owners: no hash
      collision, and either lengths told levels all along, or keys parse at
      one level only and no owner key that an index names has another level's length. */
  ghost predicate Transparent(scheme: Scheme, crypto: Crypto, seen: set<Check>, o: OutputOwners,
                              sigIndices: seq<uint32>)
  {
    && NoCollision(crypto.hash, seen)
    && (LevelsTold(LevelOf(scheme), seen) || (LengthsPinned(scheme, crypto) && KeysFit(scheme, o, sigIndices)))
  }

  /** All results that this call asks for are remembered as true. */
  ghost predicate AllRemembered(crypto: Crypto, cache: map<ID, bool>, tx: Bytes, sigIndices: seq<uint32>,
                                sigs: seq<Bytes>, o: OutputOwners)
  {
    && |sigs| == |sigIndices|
    && forall i :: 0 <= i < |sigIndices| ==>
         && sigIndices[i] < ToUint32(|o.addrs|)
         && var key := CacheKey(crypto.hash, CheckOf(o, tx, sigs[i], sigIndices[i])); key in cache && cache[key]
  }

  class Fx {
    const scheme: Scheme
    const crypto: Crypto
    var bootstrapped: bool
    var verifyCache: map<ID, bool>
    /** All checks ever asked for, and those that got as far as a verification. */
    ghost var seen: set<Check>
    ghost var made: set<Check>

    ghost predicate Valid()
      reads this
    {
      StateOk(scheme, crypto, seen, made, verifyCache)
    }

    /** Key lengths told levels so far. */
    ghost predicate Told()
      reads this
    {
      LevelsTold(LevelOf(scheme), seen)
    }

    constructor (scheme: Scheme, crypto: Crypto)
      ensures Valid() && this.scheme == scheme && this.crypto == crypto && seen == {} && !bootstrapped
    {
      this.scheme, this.crypto := scheme, crypto;
      bootstrapped, verifyCache, seen, made := false, map[], {}, {};
    }

    method Bootstrapped()
      requires Valid()
      modifies this`bootstrapped
      ensures Valid() && bootstrapped
    {
      bootstrapped := true;
    }

    /** The cache may forget at any time. */
    method Forget(keep: set<ID>)
      requires Valid()
      modifies this`verifyCache
      ensures Valid() && verifyCache.Keys <= keep
    {
      ghost var cache := verifyCache;
      verifyCache := Evict(verifyCache, keep);
      SoundWhenMoreSeen(crypto.hash, Genuine(crypto), made, made, cache, verifyCache);
    }

    /** One turn of the loop in VerifyCredentials: the remembered result, or the check itself. */
    method CheckSignature(c: Check) returns (ok: bool)
      requires Valid() && c.level <= 2
      modifies this`verifyCache, this`seen, this`made
      ensures Valid() && seen == old(seen) + {c}
      ensures ok == if CacheKey(crypto.hash, c) in old(verifyCache) then old(verifyCache)[CacheKey(crypto.hash, c)]
                    else Genuine(crypto)(c)
      ensures CacheKey(crypto.hash, c) in old(verifyCache) ==> verifyCache == old(verifyCache)
      ensures ClearFor(scheme, crypto, seen, c) ==> ok == Genuine(crypto)(c)
    {
      hide Sound, NoCollision, LevelsTold, LengthsPinned, KeyFits, CacheKey;
      seen := seen + {c};
      var cacheKey := CacheKey(crypto.hash, c);
      if cacheKey in verifyCache {
        if ClearFor(scheme, crypto, seen, c) {
          RememberedIsTrue(scheme, crypto, seen, made, verifyCache, c);
        }
        return verifyCache[cacheKey];
      }
      if !crypto.parses(c.level, c.pk) {
        return false;
      }
      ok := crypto.verifies(c.level, c.pk, c.msg, c.sig);
      SoundWhenMoreSeen(crypto.hash, Genuine(crypto), made, made + {c}, verifyCache, verifyCache);
      made := made + {c};
      SoundAfterPut(crypto.hash, Genuine(crypto), made, verifyCache, c);
      verifyCache := verifyCache[cacheKey := ok];
      var keep: set<ID> := *;
      Forget(keep);
    }

    /** VerifyCredentials, which may be called directly with owners that were not checked. */
    method VerifyCredentials(now: uint64, tx: Bytes, sigIndices: seq<uint32>, sigs: seq<Bytes>, o: OutputOwners)
      returns (err: Option<FxError>)
      requires Valid()
      modifies this`verifyCache, this`seen, this`made
      ensures Valid() && old(seen) <= seen
      ensures forall c :: c in seen ==> c in old(seen) || (c.level == Mode(o.level) && c.pk in o.addrs)
      ensures err == Some(Timelocked) <==> o.locktime > now
      ensures err == Some(TooManySigners) <==> o.locktime <= now && ToUint32(|sigIndices|) > o.threshold
      ensures err == Some(TooFewSigners) <==> o.locktime <= now && ToUint32(|sigIndices|) < o.threshold
      ensures err == Some(InputCredentialSignersMismatch) <==>
                o.locktime <= now && ToUint32(|sigIndices|) == o.threshold && |sigIndices| != |sigs|
      ensures AskedOnly(old(seen), seen, tx, o.addrs, sigs)
      ensures AllRemembered(crypto, old(verifyCache), tx, sigIndices, sigs, o)
              && o.locktime <= now && o.threshold == ToUint32(|sigIndices|)
              ==> err.None?
      ensures Transparent(scheme, crypto, seen, o, sigIndices) ==>
                (err.None? <==> Authorized(crypto, bootstrapped, now, tx, sigIndices, sigs, o))
      ensures Transparent(scheme, crypto, seen, o, sigIndices) && err == Some(InputOutputIndexOutOfBounds) ==>
                exists i: nat :: FirstBad(crypto, tx, sigIndices, sigs, o, i) && sigIndices[i] >= ToUint32(|o.addrs|)
      ensures Transparent(scheme, crypto, seen, o, sigIndices) && err == Some(WrongSig) ==>
                exists i: nat :: FirstBad(crypto, tx, sigIndices, sigs, o, i) && sigIndices[i] < ToUint32(|o.addrs|)
    {
      hide Valid, Transparent, ClearFor, Genuine;
      var numSigs := |sigIndices|;
      if o.locktime > now {
        return Some(Timelocked);
      } else if o.threshold < ToUint32(numSigs) {
        return Some(TooManySigners);
      } else if o.threshold > ToUint32(numSigs) {
        return Some(TooFewSigners);
      } else if numSigs != |sigs| {
        return Some(InputCredentialSignersMismatch);
      } else if !bootstrapped {
        return None;
      }
      var i := 0;
      while i < |sigIndices|
        invariant i <= |sigIndices| && Valid() && old(seen) <= seen
        invariant forall c :: c in seen ==> c in old(seen) || (c.level == Mode(o.level) && c.pk in o.addrs)
        invariant AskedOnly(old(seen), seen, tx, o.addrs, sigs)
        invariant AllRemembered(crypto, old(verifyCache), tx, sigIndices, sigs, o) ==>
                    verifyCache == old(verifyCache)
        invariant Transparent(scheme, crypto, seen, o, sigIndices) ==>
                    forall k :: 0 <= k < i ==> OwnerSigned(crypto, tx, sigIndices, sigs, o, k)
      {
        var index := sigIndices[i];
        assert !OwnerSigned(crypto, tx, sigIndices, sigs, o, i) ==>
            !Authorized(crypto, bootstrapped, now, tx, sigIndices, sigs, o);
        if index >= ToUint32(|o.addrs|) {
          return Some(InputOutputIndexOutOfBounds);
        }
        ghost var before := seen;
        var c := CheckOf(o, tx, sigs[i], index);
        var ok := CheckSignature(c);
        StaysTransparent(scheme, crypto, before, seen, o, sigIndices);
        ClearForOwner(scheme, crypto, seen, o, sigIndices, i, c);
        if !ok {
          return Some(WrongSig);
        }
        i := i + 1;
      }
      return None;
    }

    /** VerifyPermission: over any history of calls and evictions the verdict is
        the one without a cache, unless hashes collided, if keys parse at one
        level only; and without that, over any history that kept to checked calls. */
    method VerifyPermission(now: uint64, tx: Bytes, sigIndices: seq<uint32>, cred: Credential, owner: OutputOwners)
      returns (err: Option<FxError>)
      requires Valid()
      modifies this`verifyCache, this`seen, this`made
      ensures Valid() && (old(Told()) ==> Told()) && AskedOnly(old(seen), seen, tx, owner.addrs, cred.sigs)
      ensures NoCollision(crypto.hash, seen) && (old(Told()) || LengthsPinned(scheme, crypto)) ==>
                (err.None? <==>
                  && IndicesOk(sigIndices) && CredentialOk(scheme, cred) && OwnersOk(scheme, owner)
                  && Authorized(crypto, bootstrapped, now, tx, sigIndices, cred.sigs, owner))
    {
      var ok := VerifyIndices(sigIndices);
      if !ok {
        return Some(IndicesNotSortedUnique);
      }
      err := VerifyCredential(scheme, cred);
      if err.Some? {
        return;
      }
      err := VerifyOwners(scheme, owner);
      if err.Some? {
        return;
      }
      ghost var before := seen;
      err := VerifyCredentials(now, tx, sigIndices, cred.sigs, owner);
      OwnersFit(scheme, owner, sigIndices);
      if old(Told()) {
        LevelsStayTold(scheme, owner, before, seen);
      }
    }

    /** VerifySpend */
    method VerifySpend(now: uint64, tx: Bytes, input: TransferInput, cred: Credential, utxo: TransferOutput)
      returns (err: Option<FxError>)
      requires Valid()
      modifies this`verifyCache, this`seen, this`made
      ensures Valid() && (old(Told()) ==> Told()) && AskedOnly(old(seen), seen, tx, utxo.owners.addrs, cred.sigs)
      ensures NoCollision(crypto.hash, seen) && (old(Told()) || LengthsPinned(scheme, crypto)) ==>
                (err.None? <==>
                  && utxo.amt == input.amt > 0
                  && IndicesOk(input.sigIndices) && CredentialOk(scheme, cred) && OwnersOk(scheme, utxo.owners)
                  && Authorized(crypto, bootstrapped, now, tx, input.sigIndices, cred.sigs, utxo.owners))
    {
      if utxo.amt == 0 {
        return Some(NoValue);
      }
      err := VerifyOwners(scheme, utxo.owners);
      if err.Some? {
        return;
      }
      if input.amt == 0 {
        return Some(NoValue);
      }
      var ok := VerifyIndices(input.sigIndices);
      if !ok {
        return Some(IndicesNotSortedUnique);
      }
      err := VerifyCredential(scheme, cred);
      if err.Some? {
        return;
      }
      if utxo.amt != input.amt {
        return Some(MismatchedAmounts);
      }
      ghost var before := seen;
      err := VerifyCredentials(now, tx, input.sigIndices, cred.sigs, utxo.owners);
      OwnersFit(scheme, utxo.owners, input.sigIndices);
      if old(Told()) {
        LevelsStayTold(scheme, utxo.owners, before, seen);
      }
    }

    /** verifyOperation */
    method VerifyOperation(now: uint64, tx: Bytes, op: MintOperation, cred: Credential, utxo: OutputOwners)
      returns (err: Option<FxError>)
      requires Valid()
      modifies this`verifyCache, this`seen, this`made
      ensures Valid() && (old(Told()) ==> Told()) && AskedOnly(old(seen), seen, tx, utxo.addrs, cred.sigs)
      ensures NoCollision(crypto.hash, seen) && (old(Told()) || LengthsPinned(scheme, crypto)) ==>
                (err.None? <==>
                  && op.transferOutput.amt > 0 && OwnersOk(scheme, op.transferOutput.owners)
                  && op.mintOutput == utxo
                  && IndicesOk(op.mintInput) && CredentialOk(scheme, cred) && OwnersOk(scheme, utxo)
                  && Authorized(crypto, bootstrapped, now, tx, op.mintInput, cred.sigs, utxo))
    {
      var ok := VerifyIndices(op.mintInput);
      if !ok {
        return Some(IndicesNotSortedUnique);
      }
      err := VerifyOwners(scheme, op.mintOutput);
      if err.Some? {
        return;
      }
      if op.transferOutput.amt == 0 {
        return Some(NoValue);
      }
      err := VerifyOwners(scheme, op.transferOutput.owners);
      if err.Some? {
        return;
      }
      err := VerifyCredential(scheme, cred);
      if err.Some? {
        return;
      }
      err := VerifyOwners(scheme, utxo);
      if err.Some? {
        return;
      }
      var equal := EqualOwners(utxo, op.mintOutput);
      if !equal {
        return Some(WrongMintCreated);
      }
      ghost var before := seen;
      err := VerifyCredentials(now, tx, op.mintInput, cred.sigs, utxo);
      OwnersFit(scheme, utxo, op.mintInput);
      if old(Told()) {
        LevelsStayTold(scheme, utxo, before, seen);
      }
    }
  }

  /** Keys parse at the level whose length they have, and every signature is true. */
  function PinnedWorld(scheme: Scheme, hash: Hash): Crypto {
    Crypto(hash, (level: Level, pk: Bytes) => level <= 2 && |pk| == PubKeyLen(scheme, level),
           (level: Level, pk: Bytes, msg: Bytes, sig: Bytes) => true)
  }

  function SoleOwner(c: Check): OutputOwners
    requires c.level <= 2
  {
    OutputOwners(c.level, 0, 1, [c.pk])
  }

  lemma SoleOwnerSigned(scheme: Scheme, hash: Hash, c: Check)
    requires c.level <= 2
    ensures LengthsPinned(scheme, PinnedWorld(scheme, hash))
    ensures CheckOf(SoleOwner(c), c.msg, c.sig, 0) == c
    ensures Genuine(PinnedWorld(scheme, hash))(c) <==> |c.pk| == PubKeyLen(scheme, c.level)
    ensures Authorized(PinnedWorld(scheme, hash), true, 0, c.msg, [0], [c.sig], SoleOwner(c)) <==>
              |c.pk| == PubKeyLen(scheme, c.level)
  {
    var world, o := PinnedWorld(scheme, hash), SoleOwner(c);
    assert Genuine(world)(c) <==> |c.pk| == PubKeyLen(scheme, c.level);
    assert OwnerSigned(world, c.msg, [0], [c.sig], o, 0) <==> Genuine(world)(c);
  }

  /** The condition is needed: for every key that has another level's length,
      two direct calls. The first is accepted for a true signature at that level.
      In the second the owner has the same key at the level asked for, where it
      does not parse; as long as the first result is kept, it is accepted too. */
  method DirectCallsShowTheCache(scheme: Scheme, hash: Hash, c: Check)
    returns (first: Option<FxError>, kept: bool, second: Option<FxError>)
    requires c.level <= 2 && !KeyFits(scheme, c.level, c.pk) && NoCollision(hash, {c})
    ensures LengthsPinned(scheme, PinnedWorld(scheme, hash))
    ensures !Authorized(PinnedWorld(scheme, hash), true, 0, c.msg, [0], [c.sig], SoleOwner(c))
    ensures first.None? && (kept ==> second.None?)
  {
    var other: Level :| other <= 2 && |c.pk| == PubKeyLen(scheme, other) && other != c.level;
    LengthTellsLevel(scheme, other);
    LengthTellsLevel(scheme, c.level);
    var c0 := c.(level := other);
    hide *;
    SoleOwnerSigned(scheme, hash, c0);
    SoleOwnerSigned(scheme, hash, c);
    SameStrings(hash, c, c0);
    var world := PinnedWorld(scheme, hash);
    var fx := new Fx(scheme, world);
    WorldHash(scheme, hash);
    fx.Bootstrapped();
    first := fx.VerifyCredentials(0, c.msg, [0], [c.sig], SoleOwner(c0));
    SoleOwnerIs(c0);
    OnlyOneAsked(scheme, world, fx.seen, c0);
    var key := CacheKey(hash, c);
    kept := key in fx.verifyCache;
    if kept {
      RememberedHere(fx, c, c0);
    }
    SoleOwnerIs(c);
    second := fx.VerifyCredentials(0, c.msg, [0], [c.sig], SoleOwner(c));
  }

  lemma WorldHash(scheme: Scheme, hash: Hash)
    ensures PinnedWorld(scheme, hash).hash == hash
  {
  }

  lemma SoleOwnerIs(c: Check)
    requires c.level <= 2
    ensures var o := SoleOwner(c);
            && o.locktime == 0 && o.threshold == 1 == ToUint32(|[0 as uint32]|)
            && o.addrs == [c.pk] && Mode(o.level) == c.level
  {
  }

  lemma RememberedHere(fx: Fx, c: Check, c0: Check)
    requires fx.Valid() && fx.seen <= {c0} && c.level <= 2 && Genuine(fx.crypto)(c0)
    requires CacheKey(fx.crypto.hash, c) in fx.verifyCache
    ensures AllRemembered(fx.crypto, fx.verifyCache, c.msg, [0], [c.sig], SoleOwner(c))
  {
    OnlyOneRemembered(fx.scheme, fx.crypto, fx.seen, fx.made, fx.verifyCache, c0, CacheKey(fx.crypto.hash, c));
    assert CheckOf(SoleOwner(c), c.msg, c.sig, 0) == c;
  }

  /** A check at another level hashes the same strings. */
  lemma SameStrings(hash: Hash, c: Check, c0: Check)
    requires NoCollision(hash, {c}) && c0 == c.(level := c0.level)
    ensures NoCollision(hash, {c0}) && CacheKey(hash, c0) == CacheKey(hash, c)
  {
    assert Hashed(hash, c0) == Hashed(hash, c);
    assert NoCollisionBetween(hash, c, c);
  }

  lemma OnlyOneAsked(scheme: Scheme, crypto: Crypto, seen: set<Check>, c0: Check)
    requires AskedOnly({}, seen, c0.msg, [c0.pk], [c0.sig])
    requires forall c :: c in seen ==> c.level == c0.level
    requires c0.level <= 2 && NoCollision(crypto.hash, {c0}) && |c0.pk| == PubKeyLen(scheme, c0.level)
    ensures seen <= {c0} && Transparent(scheme, crypto, seen, SoleOwner(c0), [0])
  {
    LengthTellsLevel(scheme, c0.level);
    forall c | c in seen ensures c == c0 {
    }
  }

  lemma OnlyOneRemembered(scheme: Scheme, crypto: Crypto, seen: set<Check>, made: set<Check>, cache: map<ID, bool>,
                          c0: Check, key: ID)
    requires StateOk(scheme, crypto, seen, made, cache) && seen <= {c0}
    requires key in cache && Genuine(crypto)(c0)
    ensures cache[key]
  {
    assert forall c :: c in made ==> c == c0;
  }

  /** OutputOwners.Equals */
  method EqualOwners(a: OutputOwners, b: OutputOwners) returns (equal: bool)
    ensures equal <==> a == b
  {
    if a.level != b.level || a.locktime != b.locktime || a.threshold != b.threshold || |a.addrs| != |b.addrs| {
      return false;
    }
    var i := 0;
    while i < |a.addrs|
      invariant i <= |a.addrs| && a.addrs[..i] == b.addrs[..i]
    {
      if a.addrs[i] != b.addrs[i] {
        return false;
      }
      i := i + 1;
    }
    return true;
  }

  /** The verdict that all three entry points share, without any cache. */
  ghost predicate Permits(scheme: Scheme, crypto: Crypto, bootstrapped: bool, now: uint64, tx: Bytes,
                          sigIndices: seq<uint32>, cred: Credential, o: OutputOwners) {
    && IndicesOk(sigIndices) && CredentialOk(scheme, cred) && OwnersOk(scheme, o)
    && Authorized(crypto, bootstrapped, now, tx, sigIndices, cred.sigs, o)
  }

  /** The key lengths of the parameter sets are pairwise different. */
  lemma LengthTellsLevel(scheme: Scheme, level: Level)
    requires level <= 2
    ensures LevelOf(scheme)(PubKeyLen(scheme, level)) == level == Mode(level)
  {
    assert level == 0 || level == 1 || level == 2;
    assert LevelOfLength(scheme, PubKeyLen(scheme, level)) == level by {
      match scheme
      case MLDSA =>
      case SLHDSA =>
    }
  }

  /** Verified owners pin the key length to the level, so their checks tell their level. */
  lemma LevelsStayTold(scheme: Scheme, o: OutputOwners, before: set<Check>, after: set<Check>)
    requires OwnersOk(scheme, o) && LevelsTold(LevelOf(scheme), before)
    requires forall c :: c in after ==> c in before || (c.level == Mode(o.level) && c.pk in o.addrs)
    ensures LevelsTold(LevelOf(scheme), after)
  {
    forall c | c in after ensures c.level == LevelOf(scheme)(|c.pk|) {
      if c !in before {
        var i :| 0 <= i < |o.addrs| && o.addrs[i] == c.pk;
        assert |o.addrs[i]| == PubKeyLen(scheme, o.level);
        LengthTellsLevel(scheme, o.level);
      }
    }
  }

  /** Once bootstrapped, a permitted spend is signed under Threshold pairwise distinct owner keys. */
  lemma PermitsNeedThresholdKeys(scheme: Scheme, crypto: Crypto, now: uint64, tx: Bytes, sigIndices: seq<uint32>,
                                 cred: Credential, o: OutputOwners)
    requires Permits(scheme, crypto, true, now, tx, sigIndices, cred, o)
    ensures |sigIndices| == |cred.sigs| == o.threshold
    ensures |Signers(sigIndices, o.addrs)| == o.threshold
    ensures forall pk :: pk in Signers(sigIndices, o.addrs) ==>
              pk in o.addrs && exists k :: 0 <= k < |cred.sigs| && crypto.verifies(o.level, pk, tx, cred.sigs[k])
  {
    forall i | 0 <= i < |sigIndices| ensures sigIndices[i] < ToUint32(|o.addrs|) {
      assert OwnerSigned(crypto, tx, sigIndices, cred.sigs, o, i);
    }
    forall i, j | 0 <= i < j < |o.addrs| ensures o.addrs[i] != o.addrs[j] {
      CompareZero(o.addrs[i], o.addrs[j]);
    }
    IndicesNameOwners(sigIndices, o.addrs);
    forall pk | pk in Signers(sigIndices, o.addrs)
      ensures exists k :: 0 <= k < |cred.sigs| && crypto.verifies(o.level, pk, tx, cred.sigs[k])
    {
      var i :| 0 <= i < |sigIndices| && sigIndices[i] < |o.addrs| && pk == o.addrs[sigIndices[i]];
      assert OwnerSigned(crypto, tx, sigIndices, cred.sigs, o, i);
    }
  }

  /** Verified owners have keys of their level's length. */
  lemma OwnersFit(scheme: Scheme, o: OutputOwners, sigIndices: seq<uint32>)
    requires OwnersOk(scheme, o)
    ensures KeysFit(scheme, o, sigIndices)
  {
    forall i | 0 <= i < |sigIndices| && sigIndices[i] < |o.addrs|
      ensures KeyFits(scheme, Mode(o.level), o.addrs[sigIndices[i]])
    {
      LengthTellsLevel(scheme, o.level);
      forall other: Level | other <= 2 && |o.addrs[sigIndices[i]]| == PubKeyLen(scheme, other)
        ensures other == Mode(o.level)
      {
        LengthTellsLevel(scheme, other);
      }
    }
  }

  lemma ClearForOwner(scheme: Scheme, crypto: Crypto, seen: set<Check>, o: OutputOwners, sigIndices: seq<uint32>,
                      i: nat, c: Check)
    requires i < |sigIndices| && sigIndices[i] < |o.addrs|
    requires c.level == Mode(o.level) && c.pk == o.addrs[sigIndices[i]]
    ensures Transparent(scheme, crypto, seen, o, sigIndices) ==> ClearFor(scheme, crypto, seen, c)
  {
  }

  /** With fewer checks seen there are fewer ways for the cache to show. */
  lemma StaysTransparent(scheme: Scheme, crypto: Crypto, before: set<Check>, after: set<Check>, o: OutputOwners,
                         sigIndices: seq<uint32>)
    requires before <= after
    ensures Transparent(scheme, crypto, after, o, sigIndices) ==> Transparent(scheme, crypto, before, o, sigIndices)
  {
  }
}
