/** The wallet's keychain, and the meeting of wallet and verifier. */
module Keychain {
  import opened Bytes
  import opened FxCommon
  import opened Sorting
  import opened Secp256k1Fx

  /** The secret-key side of the cryptography; evmAddress is the second address form. */
  datatype Wallet = Wallet(
    publicKey: Bytes -> Bytes,
    address: Bytes -> ShortID,
    evmAddress: Bytes -> ShortID,
    sign: (Bytes, Bytes) -> Bytes)

  /** The two address forms of a key. */
  datatype Form = UTXOAddress | EVMAddress

  function FormOf(w: Wallet, form: Form, key: Bytes): ShortID {
    if form.UTXOAddress? then w.address(w.publicKey(key)) else w.evmAddress(w.publicKey(key))
  }

  function AddressOf(w: Wallet, key: Bytes): ShortID {
    FormOf(w, UTXOAddress, key)
  }

  function EVMAddressOf(w: Wallet, key: Bytes): ShortID {
    FormOf(w, EVMAddress, key)
  }

  /** Every entry leads to a key of its address, and every key's address has an entry. */
  ghost predicate IndexLeads(w: Wallet, form: Form, index: map<ShortID, nat>, keys: seq<Bytes>) {
    && (forall a :: a in index ==> index[a] < |keys| && FormOf(w, form, keys[index[a]]) == a)
    && (forall k :: 0 <= k < |keys| ==> FormOf(w, form, keys[k]) in index)
  }

  lemma IndexGrows(w: Wallet, form: Form, index: map<ShortID, nat>, keys: seq<Bytes>, key: Bytes)
    requires IndexLeads(w, form, index, keys)
    ensures IndexLeads(w, form, index[FormOf(w, form, key) := |keys|], keys + [key])
  {
  }

  ghost predicate OneKeyEach(w: Wallet, keys: seq<Bytes>) {
    forall j, k :: 0 <= j < k < |keys| ==> AddressOf(w, keys[j]) != AddressOf(w, keys[k])
  }

  lemma OneKeyGrows(w: Wallet, index: map<ShortID, nat>, keys: seq<Bytes>, key: Bytes)
    requires OneKeyEach(w, keys) && IndexLeads(w, UTXOAddress, index, keys)
    requires AddressOf(w, key) !in index
    ensures OneKeyEach(w, keys + [key])
  {
    forall k | 0 <= k < |keys| ensures AddressOf(w, keys[k]) != AddressOf(w, key) {
      assert FormOf(w, UTXOAddress, keys[k]) in index;
    }
  }

  /** keys[i] is a key of the owner address that sigs[i] points to. */
  ghost predicate KeysFit(w: Wallet, ownerAddrs: seq<ShortID>, sigs: seq<uint32>, keys: seq<Bytes>) {
    && |keys| == |sigs|
    && forall i :: 0 <= i < |sigs| ==> sigs[i] < |ownerAddrs| && AddressOf(w, keys[i]) == ownerAddrs[sigs[i]]
  }

  lemma NoKeysFit(w: Wallet, ownerAddrs: seq<ShortID>, held: set<ShortID>)
    ensures KeysFit(w, ownerAddrs, [], [])
    ensures HeldIndices(ownerAddrs, held, 0) == []
  {
  }

  lemma KeysFitSnoc(w: Wallet, ownerAddrs: seq<ShortID>, sigs: seq<uint32>, keys: seq<Bytes>, i: uint32, key: Bytes)
    requires KeysFit(w, ownerAddrs, sigs, keys) && i < |ownerAddrs| && AddressOf(w, key) == ownerAddrs[i]
    ensures KeysFit(w, ownerAddrs, sigs + [i], keys + [key])
  {
  }

  function AddressesOf(w: Wallet, keys: seq<Bytes>): set<ShortID> {
    set k | k in keys :: AddressOf(w, k)
  }

  /** The outputs Spend distinguishes. */
  datatype Spendable = Mint(owners: OutputOwners) | Transfer(utxo: TransferOutput) | Other

  datatype SpendInput = MintInput(sigIndices: seq<uint32>) | SpendTransfer(input: TransferInput)

  datatype SpendError = CantSpend | UnexpectedType

  /** The indices below n whose address is held, in ascending order. */
  function HeldIndices(addrs: seq<ShortID>, held: set<ShortID>, n: nat): seq<uint32>
    requires n <= |addrs| && n < 0x1_0000_0000
  {
    if n == 0 then []
    else HeldIndices(addrs, held, n - 1) + if addrs[n - 1] in held then [n - 1] else []
  }

  /** All held indices that Match can see: it looks at as many addresses as uint32(len) says. */
  function AllHeld(ownerAddrs: seq<ShortID>, held: set<ShortID>): seq<uint32> {
    HeldIndices(ownerAddrs, held, ToUint32(|ownerAddrs|))
  }

  /** Match's answer: the threshold smallest held indices with their keys, provided that the time has come. */
  ghost predicate IsMatch(w: Wallet, held: set<ShortID>, locktime: uint64, threshold: uint32,
                          ownerAddrs: seq<ShortID>, time: uint64, sigs: seq<uint32>, keys: seq<Bytes>, able: bool)
  {
    var all := AllHeld(ownerAddrs, held);
    if time < locktime then
      !able && sigs == [] && keys == []
    else
      && (able <==> |all| >= threshold)
      && sigs == (if able then all[..threshold] else all)
      && KeysFit(w, ownerAddrs, sigs, keys)
  }

  class Keychain {
    const w: Wallet
    var utxoAddrToKeyIndex: map<ShortID, nat>
    var evmAddrToKeyIndex: map<ShortID, nat>
    var addrs: set<ShortID>
    var evmAddrs: set<ShortID>
    var keys: seq<Bytes>

    /** Both indexes lead to a key with the address looked up, every key can be found, and no address has two keys. */
    ghost predicate Valid()
      reads this
    {
      && addrs == utxoAddrToKeyIndex.Keys && evmAddrs == evmAddrToKeyIndex.Keys
      && IndexLeads(w, UTXOAddress, utxoAddrToKeyIndex, keys)
      && IndexLeads(w, EVMAddress, evmAddrToKeyIndex, keys)
      && OneKeyEach(w, keys)
    }

    /** NewKeychain */
    constructor (w: Wallet, given: seq<Bytes>)
      ensures Valid() && this.w == w
      ensures addrs == AddressesOf(w, given)
    {
      this.w := w;
      utxoAddrToKeyIndex, evmAddrToKeyIndex, addrs, evmAddrs, keys := map[], map[], {}, {}, [];
      new;
      AddAll(given);
    }

    method AddAll(given: seq<Bytes>)
      requires Valid()
      modifies this
      ensures Valid()
      ensures addrs == old(addrs) + AddressesOf(w, given)
    {
      hide Valid;
      var i := 0;
      while i < |given|
        invariant i <= |given| && Valid()
        invariant addrs == old(addrs) + AddressesOf(w, given[..i])
      {
        Add(given[i]);
        assert forall k :: k in given[..i + 1] <==> k in given[..i] || k == given[i];
        i := i + 1;
      }
      assert given[..i] == given;
    }

    /** Add: a key whose address is already held changes nothing. */
    method Add(key: Bytes)
      requires Valid()
      modifies this
      ensures Valid()
      ensures addrs == old(addrs) + {AddressOf(w, key)}
      ensures keys == if AddressOf(w, key) in old(addrs) then old(keys) else old(keys) + [key]
      ensures evmAddrs == if AddressOf(w, key) in old(addrs) then old(evmAddrs)
                          else old(evmAddrs) + {EVMAddressOf(w, key)}
    {
      hide IndexLeads, OneKeyEach;
      var utxoAddr := AddressOf(w, key);
      if utxoAddr !in utxoAddrToKeyIndex {
        IndexGrows(w, UTXOAddress, utxoAddrToKeyIndex, keys, key);
        IndexGrows(w, EVMAddress, evmAddrToKeyIndex, keys, key);
        OneKeyGrows(w, utxoAddrToKeyIndex, keys, key);
        utxoAddrToKeyIndex := utxoAddrToKeyIndex[utxoAddr := |keys|];
        var evmAddr := EVMAddressOf(w, key);
        evmAddrToKeyIndex := evmAddrToKeyIndex[evmAddr := |keys|];
        keys := keys + [key];
        addrs := addrs + {utxoAddr};
        evmAddrs := evmAddrs + {evmAddr};
      }
    }

    /** get: finds a key exactly for the held addresses, and it is a key of that address. */
    method Get(id: ShortID) returns (key: Option<Bytes>)
      requires Valid()
      ensures key.Some? <==> id in addrs
      ensures key.Some? ==> key.value in keys && AddressOf(w, key.value) == id
      ensures key.Some? ==> w.address(w.publicKey(key.value)) == id
    {
      if id in utxoAddrToKeyIndex {
        return Some(keys[utxoAddrToKeyIndex[id]]);
      }
      return None;
    }

    method GetByEVM(addr: ShortID) returns (key: Option<Bytes>)
      requires Valid()
      ensures key.Some? <==> addr in evmAddrs
      ensures key.Some? ==> key.value in keys && w.evmAddress(w.publicKey(key.value)) == addr
    {
      if addr in evmAddrToKeyIndex {
        return Some(keys[evmAddrToKeyIndex[addr]]);
      }
      return None;
    }

    method Match(o: OutputOwners, time: uint64) returns (sigs: seq<uint32>, ks: seq<Bytes>, able: bool)
      requires Valid()
      ensures IsMatch(w, addrs, o.locktime, o.threshold, o.addrs, time, sigs, ks, able)
      ensures forall k :: k in ks ==> k in keys
    {
      hide *;
      if time < o.locktime {
        TooEarly(w, addrs, o.locktime, o.threshold, o.addrs, time);
        return [], [], false;
      }
      NoKeysFit(w, o.addrs, addrs);
      UintBounds(|o.addrs|);
      sigs, ks := [], [];
      var i: uint32 := 0;
      while i < ToUint32(|o.addrs|) && ToUint32(|ks|) < o.threshold
        invariant i <= ToUint32(|o.addrs|) <= |o.addrs|
        invariant sigs == HeldIndices(o.addrs, addrs, i)
        invariant |ks| == |sigs| <= o.threshold && KeysFit(w, o.addrs, sigs, ks)
        invariant forall k :: k in ks ==> k in keys
        decreases ToUint32(|o.addrs|) - i
      {
        UintBounds(|ks|);
        HeldStep(o.addrs, addrs, i);
        var key := Get(o.addrs[i]);
        if key.Some? {
          KeysFitSnoc(w, o.addrs, sigs, ks, i, key.value);
          sigs := sigs + [i];
          ks := ks + [key.value];
        }
        i := i + 1;
      }
      UintBounds(|ks|);
      MatchEnds(w, addrs, o.locktime, o.threshold, o.addrs, time, i, sigs, ks);
      able := ToUint32(|ks|) == o.threshold;
    }

    method Spend(out: Spendable, time: uint64) returns (r: Result<(SpendInput, seq<Bytes>), SpendError>)
      requires Valid()
      ensures r == Failure(UnexpectedType) <==> out.Other?
      ensures r.Success? && out.Mint? ==>
                && r.value.0.MintInput?
                && IsMatch(w, addrs, out.owners.locktime, out.owners.threshold, out.owners.addrs, time,
                           r.value.0.sigIndices, r.value.1, true)
      ensures r.Success? && out.Transfer? ==>
                && r.value.0.SpendTransfer? && r.value.0.input.amt == out.utxo.amt
                && IsMatch(w, addrs, out.utxo.owners.locktime, out.utxo.owners.threshold, out.utxo.owners.addrs, time,
                           r.value.0.input.sigIndices, r.value.1, true)
      ensures !out.Other? ==>
                var o := if out.Mint? then out.owners else out.utxo.owners;
                r.Success? <==> time >= o.locktime && |AllHeld(o.addrs, addrs)| >= o.threshold
    {
      match out {
        case Mint(owners) =>
          var sigIndices, ks, able := Match(owners, time);
          if able {
            return Success((MintInput(sigIndices), ks));
          }
          return Failure(CantSpend);
        case Transfer(utxo) =>
          var sigIndices, ks, able := Match(utxo.owners, time);
          if able {
            return Success((SpendTransfer(TransferInput(utxo.amt, sigIndices)), ks));
          }
          return Failure(CantSpend);
        case Other =>
          return Failure(UnexpectedType);
      }
    }
  }

  // ----- held indices -----

  lemma {:induction false} HeldPrefix(addrs: seq<ShortID>, held: set<ShortID>, n: nat, m: nat)
    requires n <= m <= |addrs| && m < 0x1_0000_0000
    ensures HeldIndices(addrs, held, n) <= HeldIndices(addrs, held, m)
    decreases m
  {
    if n == m {
    } else {
      HeldPrefix(addrs, held, n, m - 1);
    }
  }

  lemma HeldStep(addrs: seq<ShortID>, held: set<ShortID>, n: nat)
    requires n < |addrs| && n + 1 < 0x1_0000_0000
    ensures HeldIndices(addrs, held, n + 1) == HeldIndices(addrs, held, n) + if addrs[n] in held then [n] else []
  {
  }

  lemma UintBounds(n: nat)
    ensures ToUint32(n) <= n
    ensures n < 0x1_0000_0000 ==> ToUint32(n) == n
  {
  }

  lemma TooEarly(w: Wallet, held: set<ShortID>, locktime: uint64, threshold: uint32, ownerAddrs: seq<ShortID>,
                 time: uint64)
    requires time < locktime
    ensures IsMatch(w, held, locktime, threshold, ownerAddrs, time, [], [], false)
  {
  }

  /** Whether the scan stopped for enough keys or for want of addresses, it holds Match's answer. */
  lemma MatchEnds(w: Wallet, held: set<ShortID>, locktime: uint64, threshold: uint32, ownerAddrs: seq<ShortID>,
                  time: uint64, i: nat, sigs: seq<uint32>, keys: seq<Bytes>)
    requires time >= locktime && i <= ToUint32(|ownerAddrs|) <= |ownerAddrs|
    requires sigs == HeldIndices(ownerAddrs, held, i) && KeysFit(w, ownerAddrs, sigs, keys)
    requires |sigs| <= threshold && (|sigs| == threshold || i == ToUint32(|ownerAddrs|))
    ensures IsMatch(w, held, locktime, threshold, ownerAddrs, time, sigs, keys, |keys| == threshold)
  {
    HeldPrefix(ownerAddrs, held, i, ToUint32(|ownerAddrs|));
  }

  /** The held indices are exactly the positions of held addresses, each once, in ascending order. */
  lemma {:induction false} HeldIndicesAre(addrs: seq<ShortID>, held: set<ShortID>, n: nat)
    requires n <= |addrs| && n < 0x1_0000_0000
    ensures IndicesOk(HeldIndices(addrs, held, n))
    ensures forall i :: i in HeldIndices(addrs, held, n) <==> 0 <= i < n && addrs[i] in held
  {
    if n == 0 {
    } else {
      HeldIndicesAre(addrs, held, n - 1);
      var before := HeldIndices(addrs, held, n - 1);
      forall k | 0 <= k < |before| ensures before[k] < n - 1 {
        assert before[k] in before;
      }
      IndicesSnoc(before, n - 1);
      hide IndicesOk;
    }
  }

  lemma IndicesSnoc(s: seq<uint32>, last: uint32)
    requires IndicesOk(s) && forall k :: 0 <= k < |s| ==> s[k] < last
    ensures IndicesOk(s + [last])
  {
  }

  /** The positions of held owners, as many as Match can see. */
  ghost function HeldAt(addrs: seq<ShortID>, held: set<ShortID>): set<nat> {
    set i: nat | i < |addrs| % 0x1_0000_0000 && i < |addrs| && addrs[i] in held
  }

  lemma SmallerIsEarlier(s: seq<nat>, p: nat, k: nat)
    requires IndicesOk(s) && p < |s| && k < |s| && s[p] < s[k]
    ensures p < k
  {
  }

  lemma HeldCount(all: seq<nat>, heldAt: set<nat>)
    requires IndicesOk(all) && forall i: nat :: i in heldAt <==> i in all
    ensures |heldAt| == |all|
  {
    assert Distinct(all);
    DistinctSize(all);
    assert Elems(all) == heldAt;
  }

  /** Match, in plain terms: able exactly from the locktime on and with Threshold held
      owners; what it names are held positions in ascending order, no held position
      below a named one is left out, and each key has the address of its owner. */
  lemma MatchInPlainTerms(w: Wallet, held: set<ShortID>, locktime: uint64, threshold: uint32, addrs: seq<ShortID>,
                          time: uint64, sigs: seq<uint32>, keys: seq<Bytes>, able: bool)
    requires IsMatch(w, held, locktime, threshold, addrs, time, sigs, keys, able)
    ensures able <==> time >= locktime && |HeldAt(addrs, held)| >= threshold
    ensures able ==> |sigs| == threshold
    ensures |keys| == |sigs|
    ensures forall k :: 0 <= k < |sigs| ==>
              sigs[k] in HeldAt(addrs, held) && w.address(w.publicKey(keys[k])) == addrs[sigs[k]]
    ensures forall j, k :: 0 <= j < k < |sigs| ==> sigs[j] < sigs[k]
    ensures forall i: nat, k :: i in HeldAt(addrs, held) && 0 <= k < |sigs| && i < sigs[k] ==> i in sigs
  {
    var all := AllHeld(addrs, held);
    UintBounds(|addrs|);
    HeldIndicesAre(addrs, held, ToUint32(|addrs|));
    assert forall i: nat :: i in HeldAt(addrs, held) <==> i in all;
    HeldCount(all, HeldAt(addrs, held));
    hide HeldIndices, HeldAt, AllHeld;
    if time >= locktime {
      assert forall k :: 0 <= k < |sigs| ==> sigs[k] == all[k] && all[k] in all;
      forall i: nat, k | i in all && 0 <= k < |sigs| && i < sigs[k] ensures i in sigs {
        var p :| 0 <= p < |all| && all[p] == i;
        SmallerIsEarlier(all, p, k);
        assert sigs[p] == i;
      }
    }
  }

  // ----- wallet meets verifier -----

  /** Signing then recovering gives back the signer's public key, and both sides derive addresses alike. */
  ghost predicate SignaturesRecover(crypto: Crypto, w: Wallet) {
    && crypto.address == w.address
    && forall key, h :: crypto.recover(h, w.sign(key, h)) == Some(w.publicKey(key))
  }

  function SignAll(crypto: Crypto, w: Wallet, tx: Bytes, keys: seq<Bytes>): seq<Bytes> {
    seq(|keys|, i requires 0 <= i < |keys| => w.sign(keys[i], crypto.hash(tx)))
  }

  /** Match names in-range owners in ascending order, with a key of each. */
  lemma MatchedOwners(w: Wallet, held: set<ShortID>, o: OutputOwners, time: uint64, sigs: seq<uint32>, keys: seq<Bytes>)
    requires IsMatch(w, held, o.locktime, o.threshold, o.addrs, time, sigs, keys, true)
    ensures o.locktime <= time && IndicesOk(sigs) && |sigs| == |keys| == o.threshold
    ensures forall i :: 0 <= i < |sigs| ==> sigs[i] < ToUint32(|o.addrs|) && AddressOf(w, keys[i]) == o.addrs[sigs[i]]
  {
    var all := AllHeld(o.addrs, held);
    UintBounds(|o.addrs|);
    HeldIndicesAre(o.addrs, held, ToUint32(|o.addrs|));
    hide HeldIndices, ToUint32;
    forall i | 0 <= i < |sigs| ensures sigs[i] < ToUint32(|o.addrs|) && AddressOf(w, keys[i]) == o.addrs[sigs[i]] {
      assert sigs[i] == all[i] && all[i] in all;
    }
  }

  /** What Match returns, signed by the returned keys in order, authorizes at
      every clock from the asked time on. */
  lemma MatchAuthorizes(crypto: Crypto, w: Wallet, held: set<ShortID>, o: OutputOwners, time: uint64,
                        sigIndices: seq<uint32>, keys: seq<Bytes>, bootstrapped: bool, now: uint64, tx: Bytes)
    requires SignaturesRecover(crypto, w)
    requires IsMatch(w, held, o.locktime, o.threshold, o.addrs, time, sigIndices, keys, true)
    requires now >= time
    ensures IndicesOk(sigIndices)
    ensures Authorized(crypto, bootstrapped, now, tx, sigIndices, SignAll(crypto, w, tx, keys), o)
  {
    var sigs := SignAll(crypto, w, tx, keys);
    MatchedOwners(w, held, o, time, sigIndices, keys);
    assert |sigs| == |keys| && forall i :: 0 <= i < |sigs| ==> sigs[i] == w.sign(keys[i], crypto.hash(tx));
    hide IsMatch, SignAll, ToUint32, IndicesOk;
    UintBounds(|sigIndices|);
    forall i | 0 <= i < |sigIndices| ensures OwnerSigned(crypto, tx, sigIndices, sigs, o, i) {
      assert crypto.recover(crypto.hash(tx), sigs[i]) == Some(w.publicKey(keys[i]));
    }
  }

  /** What Spend returns for a transfer output, signed by the returned keys in
      order, is accepted by VerifySpend at every clock from the asked time on. */
  lemma WalletMeetsVerifier(crypto: Crypto, w: Wallet, held: set<ShortID>, utxo: TransferOutput, time: uint64,
                            input: TransferInput, keys: seq<Bytes>, bootstrapped: bool, now: uint64, tx: Bytes)
    requires SignaturesRecover(crypto, w)
    requires utxo.amt > 0 && OwnersOk(utxo.owners)
    requires input.amt == utxo.amt
    requires IsMatch(w, held, utxo.owners.locktime, utxo.owners.threshold, utxo.owners.addrs, time,
                     input.sigIndices, keys, true)
    requires now >= time
    ensures Spends(crypto, bootstrapped, now, tx, input, SignAll(crypto, w, tx, keys), utxo)
  {
    hide IsMatch, Authorized, SignAll, SignaturesRecover, IndicesOk, OwnersOk;
    MatchAuthorizes(crypto, w, held, utxo.owners, time, input.sigIndices, keys, bootstrapped, now, tx);
  }

  /** What Spend returns for a mint output, in an operation that recreates the
      owners and makes a well-formed transfer output, is accepted by verifyOperation. */
  lemma MinterMeetsVerifier(crypto: Crypto, w: Wallet, held: set<ShortID>, o: OutputOwners, time: uint64,
                            op: MintOperation, keys: seq<Bytes>, bootstrapped: bool, now: uint64, tx: Bytes)
    requires SignaturesRecover(crypto, w) && OwnersOk(o)
    requires op.mintOutput == o && op.transferOutput.amt > 0 && OwnersOk(op.transferOutput.owners)
    requires IsMatch(w, held, o.locktime, o.threshold, o.addrs, time, op.mintInput, keys, true)
    requires now >= time
    ensures Mints(crypto, bootstrapped, now, tx, op, SignAll(crypto, w, tx, keys), o)
  {
    hide IsMatch, Authorized, SignAll, SignaturesRecover, IndicesOk, OwnersOk;
    MatchAuthorizes(crypto, w, held, o, time, op.mintInput, keys, bootstrapped, now, tx);
  }

  /** Conversely, when Match is not able for want of keys, no accepted credential is signed by held owners alone. */
  lemma NoSpendWithoutKeys(crypto: Crypto, held: set<ShortID>, o: OutputOwners, now: uint64, tx: Bytes,
                           sigIndices: seq<uint32>, sigs: seq<Bytes>)
    requires IndicesOk(sigIndices) && OwnersOk(o)
    requires Authorized(crypto, true, now, tx, sigIndices, sigs, o)
    requires Signers(sigIndices, o.addrs) <= held
    ensures |AllHeld(o.addrs, held)| >= o.threshold
  {
    var all := AllHeld(o.addrs, held);
    HeldIndicesAre(o.addrs, held, ToUint32(|o.addrs|));
    AcceptanceNeedsThresholdOwners(crypto, now, tx, sigIndices, sigs, o);
    forall i | i in Elems(sigIndices) ensures i in Elems(all) {
      var k :| 0 <= k < |sigIndices| && sigIndices[k] == i;
      assert OwnerSigned(crypto, tx, sigIndices, sigs, o, k);
      assert o.addrs[i] in Signers(sigIndices, o.addrs);
    }
    IndicesSize(sigIndices);
    IndicesSize(all);
    SubsetSize(Elems(sigIndices), Elems(all));
  }

  lemma IndicesSize(s: seq<uint32>)
    requires IndicesOk(s)
    ensures |Elems(s)| == |s|
  {
    assert Distinct(s);
    DistinctSize(s);
  }
}
