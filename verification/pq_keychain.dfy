/** The ML-DSA wallet: owners are full public keys, the keychain is indexed by
    the addresses derived from them. */
module PQKeychain {
  import opened Bytes
  import opened FxCommon
  import opened Sorting
  import PQFx
  import K = Keychain

  /** Key generation aside: public key, address derivation, and SignCtx on the transaction bytes. */
  datatype Signer = Signer(
    publicKey: Bytes -> Bytes,
    address: Bytes -> ShortID,
    sign: (Bytes, Bytes) -> Bytes)

  /** The wallet view that the matching theory of the secp256k1 keychain needs. */
  function AsWallet(s: Signer): K.Wallet {
    K.Wallet(s.publicKey, s.address, s.address, s.sign)
  }

  /** The addresses derived from the owners' public keys. */
  function OwnerAddrs(s: Signer, o: PQFx.OutputOwners): seq<ShortID> {
    AddressesOf(s, o.addrs)
  }

  function AddressesOf(s: Signer, publicKeys: seq<Bytes>): seq<ShortID> {
    if publicKeys == [] then [] else [s.address(publicKeys[0])] + AddressesOf(s, publicKeys[1..])
  }

  lemma {:induction false} AddressesAre(s: Signer, publicKeys: seq<Bytes>)
    ensures |AddressesOf(s, publicKeys)| == |publicKeys|
    ensures forall i :: 0 <= i < |publicKeys| ==> AddressesOf(s, publicKeys)[i] == s.address(publicKeys[i])
  {
    if publicKeys == [] {
    } else {
      AddressesAre(s, publicKeys[1..]);
    }
  }

  class Keychain {
    const s: Signer
    var addrToKeyIndex: map<ShortID, nat>
    var addrs: set<ShortID>
    var keys: seq<Bytes>

    ghost predicate Valid()
      reads this
    {
      && addrs == addrToKeyIndex.Keys
      && K.IndexLeads(AsWallet(s), K.UTXOAddress, addrToKeyIndex, keys)
      && K.OneKeyEach(AsWallet(s), keys)
    }

    constructor (s: Signer)
      ensures Valid() && this.s == s && addrs == {} && keys == []
    {
      this.s := s;
      addrToKeyIndex, addrs, keys := map[], {}, [];
    }

    method Add(key: Bytes)
      requires Valid()
      modifies this
      ensures Valid()
      ensures addrs == old(addrs) + {s.address(s.publicKey(key))}
      ensures keys == if s.address(s.publicKey(key)) in old(addrs) then old(keys) else old(keys) + [key]
    {
      hide K.IndexLeads, K.OneKeyEach;
      var addr := s.address(s.publicKey(key));
      assert addr == K.AddressOf(AsWallet(s), key);
      if addr !in addrToKeyIndex {
        K.IndexGrows(AsWallet(s), K.UTXOAddress, addrToKeyIndex, keys, key);
        K.OneKeyGrows(AsWallet(s), addrToKeyIndex, keys, key);
        addrToKeyIndex := addrToKeyIndex[addr := |keys|];
        keys := keys + [key];
        addrs := addrs + {addr};
      }
    }

    method Get(addr: ShortID) returns (key: Option<Bytes>)
      requires Valid()
      ensures key.Some? <==> addr in addrs
      ensures key.Some? ==> key.value in keys && K.AddressOf(AsWallet(s), key.value) == addr
    {
      if addr in addrToKeyIndex {
        return Some(keys[addrToKeyIndex[addr]]);
      }
      return None;
    }

    /** Match: derive the address of each owner key and look it up. */
    method Match(o: PQFx.OutputOwners, time: uint64) returns (sigs: seq<uint32>, ks: seq<Bytes>, able: bool)
      requires Valid()
      ensures K.IsMatch(AsWallet(s), addrs, o.locktime, o.threshold, OwnerAddrs(s, o), time, sigs, ks, able)
      ensures forall k :: k in ks ==> k in keys
    {
      hide *;
      ghost var w, owners := AsWallet(s), OwnerAddrs(s, o);
      OwnerAddrsAre(s, o);
      if time < o.locktime {
        K.TooEarly(w, addrs, o.locktime, o.threshold, owners, time);
        return [], [], false;
      }
      K.NoKeysFit(w, owners, addrs);
      K.UintBounds(|o.addrs|);
      sigs, ks := [], [];
      var i: uint32 := 0;
      while i < ToUint32(|o.addrs|) && ToUint32(|ks|) < o.threshold
        invariant i <= ToUint32(|o.addrs|) <= |o.addrs| == |owners|
        invariant sigs == K.HeldIndices(owners, addrs, i)
        invariant |ks| == |sigs| <= o.threshold && K.KeysFit(w, owners, sigs, ks)
        invariant forall k :: k in ks ==> k in keys
        decreases ToUint32(|o.addrs|) - i
      {
        K.UintBounds(|ks|);
        K.HeldStep(owners, addrs, i);
        var key := Get(s.address(o.addrs[i]));
        if key.Some? {
          K.KeysFitSnoc(w, owners, sigs, ks, i, key.value);
          sigs := sigs + [i];
          ks := ks + [key.value];
        }
        i := i + 1;
      }
      K.UintBounds(|ks|);
      K.MatchEnds(w, addrs, o.locktime, o.threshold, owners, time, i, sigs, ks);
      able := ToUint32(|ks|) == o.threshold;
    }
  }

  lemma OwnerAddrsAre(s: Signer, o: PQFx.OutputOwners)
    ensures |OwnerAddrs(s, o)| == |o.addrs|
    ensures forall i :: 0 <= i < |o.addrs| ==> OwnerAddrs(s, o)[i] == s.address(o.addrs[i])
  {
    AddressesAre(s, o.addrs);
  }

  /** Match, in plain terms, as for the secp256k1 keychain: the owners' addresses are derived from their keys. */
  lemma MatchInPlainTerms(s: Signer, held: set<ShortID>, o: PQFx.OutputOwners, time: uint64, sigs: seq<uint32>,
                          keys: seq<Bytes>, able: bool)
    requires K.IsMatch(AsWallet(s), held, o.locktime, o.threshold, OwnerAddrs(s, o), time, sigs, keys, able)
    ensures var heldAt := set i: nat | i < |o.addrs| % 0x1_0000_0000 && i < |o.addrs| && s.address(o.addrs[i]) in held;
            && (able <==> time >= o.locktime && |heldAt| >= o.threshold)
            && (able ==> |sigs| == o.threshold)
            && |keys| == |sigs|
            && (forall k :: 0 <= k < |sigs| ==>
                  sigs[k] in heldAt && s.address(s.publicKey(keys[k])) == s.address(o.addrs[sigs[k]]))
            && (forall j, k :: 0 <= j < k < |sigs| ==> sigs[j] < sigs[k])
            && (forall i: nat, k :: i in heldAt && 0 <= k < |sigs| && i < sigs[k] ==> i in sigs)
  {
    OwnerAddrsAre(s, o);
    var heldAt := set i: nat | i < |o.addrs| % 0x1_0000_0000 && i < |o.addrs| && s.address(o.addrs[i]) in held;
    assert heldAt == K.HeldAt(OwnerAddrs(s, o), held);
    K.MatchInPlainTerms(AsWallet(s), held, o.locktime, o.threshold, OwnerAddrs(s, o), time, sigs, keys, able);
    hide K.IsMatch, OwnerAddrs;
  }

  /** Keys of a parameter set's length sign at that parameter set. */
  ghost predicate SignaturesVerify(scheme: PQFx.Scheme, crypto: PQFx.Crypto, s: Signer) {
    forall level: PQFx.Level, k, tx :: level <= 2 && |s.publicKey(k)| == PQFx.PubKeyLen(scheme, level) ==>
      && crypto.parses(level, s.publicKey(k))
      && crypto.verifies(level, s.publicKey(k), tx, s.sign(k, tx))
      && |s.sign(k, tx)| == PQFx.SignatureLen(scheme, level)
  }

  /** No returned key shares its address with a different owner key. */
  ghost predicate NoAddressCollision(s: Signer, o: PQFx.OutputOwners, keys: seq<Bytes>) {
    forall k, pk :: k in keys && pk in o.addrs && s.address(s.publicKey(k)) == s.address(pk) ==> s.publicKey(k) == pk
  }

  function SignAll(s: Signer, tx: Bytes, keys: seq<Bytes>): seq<Bytes> {
    seq(|keys|, i requires 0 <= i < |keys| => s.sign(keys[i], tx))
  }

  /** Match names in-range owners in ascending order, and each returned key is the owner it stands for. */
  lemma MatchedOwners(s: Signer, held: set<ShortID>, o: PQFx.OutputOwners, time: uint64, sigs: seq<uint32>,
                      keys: seq<Bytes>)
    requires K.IsMatch(AsWallet(s), held, o.locktime, o.threshold, OwnerAddrs(s, o), time, sigs, keys, true)
    requires NoAddressCollision(s, o, keys)
    ensures o.locktime <= time && IndicesOk(sigs) && |sigs| == |keys| == o.threshold
    ensures forall i :: 0 <= i < |sigs| ==> sigs[i] < ToUint32(|o.addrs|) && s.publicKey(keys[i]) == o.addrs[sigs[i]]
  {
    var owners := OwnerAddrs(s, o);
    OwnerAddrsAre(s, o);
    var all := K.AllHeld(owners, held);
    K.HeldIndicesAre(owners, held, ToUint32(|owners|));
    hide OwnerAddrs;
    forall i | 0 <= i < |sigs| ensures sigs[i] < ToUint32(|o.addrs|) && s.publicKey(keys[i]) == o.addrs[sigs[i]] {
      assert sigs[i] == all[i] && all[i] in all;
      assert K.AddressOf(AsWallet(s), keys[i]) == owners[sigs[i]] == s.address(o.addrs[sigs[i]]);
      assert keys[i] in keys && o.addrs[sigs[i]] in o.addrs;
    }
  }

  lemma OwnSignature(scheme: PQFx.Scheme, crypto: PQFx.Crypto, s: Signer, o: PQFx.OutputOwners, key: Bytes, tx: Bytes,
                     index: uint32)
    requires PQFx.OwnersOk(scheme, o) && SignaturesVerify(scheme, crypto, s)
    requires index < ToUint32(|o.addrs|) && s.publicKey(key) == o.addrs[index]
    ensures PQFx.Genuine(crypto)(PQFx.CheckOf(o, tx, s.sign(key, tx), index))
    ensures |s.sign(key, tx)| == PQFx.SignatureLen(scheme, o.level)
  {
  }

  /** What Match returns for a verified output, signed by the returned keys in order, authorizes. */
  lemma MatchAuthorizes(scheme: PQFx.Scheme, crypto: PQFx.Crypto, s: Signer, held: set<ShortID>,
                        o: PQFx.OutputOwners, time: uint64, sigs: seq<uint32>, keys: seq<Bytes>,
                        bootstrapped: bool, now: uint64, tx: Bytes)
    requires PQFx.OwnersOk(scheme, o) && SignaturesVerify(scheme, crypto, s)
    requires K.IsMatch(AsWallet(s), held, o.locktime, o.threshold, OwnerAddrs(s, o), time, sigs, keys, true)
    requires NoAddressCollision(s, o, keys)
    requires now >= time
    ensures IndicesOk(sigs) && |SignAll(s, tx, keys)| == |sigs| == o.threshold
    ensures PQFx.Authorized(crypto, bootstrapped, now, tx, sigs, SignAll(s, tx, keys), o)
    ensures AllOfLength(SignAll(s, tx, keys), PQFx.SignatureLen(scheme, o.level))
  {
    MatchedOwners(s, held, o, time, sigs, keys);
    var made := SignAll(s, tx, keys);
    assert |made| == |keys| && forall i :: 0 <= i < |made| ==> made[i] == s.sign(keys[i], tx);
    hide K.IsMatch, NoAddressCollision, SignAll, SignaturesVerify, PQFx.Genuine, OwnerAddrs, IndicesOk;
    hide PQFx.OwnersOk, PQFx.SignatureLen;
    K.UintBounds(|sigs|);
    forall i | 0 <= i < |sigs|
      ensures PQFx.OwnerSigned(crypto, tx, sigs, made, o, i)
      ensures |made[i]| == PQFx.SignatureLen(scheme, o.level)
    {
      OwnSignature(scheme, crypto, s, o, keys[i], tx, sigs[i]);
    }
  }

  /** What Match returns for a verified output, signed by the returned keys in
      order, is permitted at every clock from the asked time on, exactly when
      the output asks for a signature at all: Match is able for a threshold of
      zero, but Credential.Verify refuses an empty credential. */
  lemma WalletMeetsVerifierIff(scheme: PQFx.Scheme, crypto: PQFx.Crypto, s: Signer, held: set<ShortID>,
                               o: PQFx.OutputOwners, time: uint64, sigs: seq<uint32>, keys: seq<Bytes>,
                               bootstrapped: bool, now: uint64, tx: Bytes)
    requires PQFx.OwnersOk(scheme, o) && SignaturesVerify(scheme, crypto, s)
    requires K.IsMatch(AsWallet(s), held, o.locktime, o.threshold, OwnerAddrs(s, o), time, sigs, keys, true)
    requires NoAddressCollision(s, o, keys)
    requires now >= time
    ensures var cred := PQFx.Credential(o.level, SignAll(s, tx, keys));
            PQFx.Permits(scheme, crypto, bootstrapped, now, tx, sigs, cred, o) <==> o.threshold > 0
  {
    hide K.IsMatch, NoAddressCollision, SignAll, SignaturesVerify, PQFx.Authorized, AllOfLength, IndicesOk, OwnerAddrs;
    LevelKnown(scheme, o);
    hide PQFx.OwnersOk, PQFx.SignatureLen;
    MatchAuthorizes(scheme, crypto, s, held, o, time, sigs, keys, bootstrapped, now, tx);
  }

  lemma LevelKnown(scheme: PQFx.Scheme, o: PQFx.OutputOwners)
    requires PQFx.OwnersOk(scheme, o)
    ensures o.level <= 2
  {
  }
}
