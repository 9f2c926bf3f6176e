/** Threshold multisignature authorization with locktime, by public-key recovery. */
module Secp256k1Fx {
  import opened Bytes
  import opened FxCommon
  import opened Sorting

  /** Cryptography is a parameter: hashing, public-key recovery, address derivation. */
  datatype Crypto = Crypto(
    hash: Bytes -> Bytes,
    recover: (Bytes, Bytes) -> Option<Bytes>,
    address: Bytes -> ShortID)

  datatype OutputOwners = OutputOwners(locktime: uint64, threshold: uint32, addrs: seq<ShortID>)

  datatype TransferOutput = TransferOutput(amt: uint64, owners: OutputOwners)

  datatype TransferInput = TransferInput(amt: uint64, sigIndices: seq<uint32>)

  datatype MintOperation = MintOperation(
    mintInput: seq<uint32>,
    mintOutput: OutputOwners,
    transferOutput: TransferOutput)

  datatype FxError =
    | OutputUnspendable
    | OutputUnoptimized
    | AddrsNotSortedUnique
    | InputIndicesNotSortedUnique
    | NoValueInput
    | NoValueOutput
    | MismatchedAmounts
    | WrongMintCreated
    | Timelocked
    | TooManySigners
    | TooFewSigners
    | InputCredentialSignersMismatch
    | InputOutputIndexOutOfBounds
    | CannotRecover
    | WrongSig

  // ----- well-formedness -----

  /** What OutputOwners.Verify accepts; the number of addresses is compared as a uint32. */
  ghost predicate OwnersOk(o: OutputOwners) {
    && o.threshold <= ToUint32(|o.addrs|)
    && (o.threshold == 0 ==> o.addrs == [])
    && Ascending(CompareShortIDs, o.addrs)
  }

  method VerifyOwners(o: OutputOwners) returns (err: Option<FxError>)
    ensures err.None? <==> OwnersOk(o)
    ensures err == Some(OutputUnspendable) <==> o.threshold > |o.addrs| % 0x1_0000_0000
    ensures err == Some(OutputUnoptimized) <==> o.threshold == 0 && |o.addrs| > 0
    ensures err == Some(AddrsNotSortedUnique) <==>
              && o.threshold <= |o.addrs| % 0x1_0000_0000 && (o.threshold == 0 ==> |o.addrs| == 0)
              && !forall i, j :: 0 <= i < j < |o.addrs| ==> Compare(o.addrs[i], o.addrs[j]) < 0
    ensures err.None? <==>
              && o.threshold <= |o.addrs| % 0x1_0000_0000 && (o.threshold == 0 ==> |o.addrs| == 0)
              && forall i, j :: 0 <= i < j < |o.addrs| ==> Compare(o.addrs[i], o.addrs[j]) < 0
  {
    if o.threshold > ToUint32(|o.addrs|) {
      return Some(OutputUnspendable);
    }
    if o.threshold == 0 && |o.addrs| > 0 {
      return Some(OutputUnoptimized);
    }
    CompareIsOrder();
    AscendingAddresses(o.addrs);
    var ok := IsSortedAndUniqueByCompare(CompareShortIDs, o.addrs);
    return if ok then None else Some(AddrsNotSortedUnique);
  }

  lemma AscendingAddresses(addrs: seq<ShortID>)
    ensures Ascending(CompareShortIDs, addrs) <==>
              forall i, j :: 0 <= i < j < |addrs| ==> Compare(addrs[i], addrs[j]) < 0
  {
    if forall i, j :: 0 <= i < j < |addrs| ==> Compare(addrs[i], addrs[j]) < 0 {
      forall i, j | 0 <= i < j < |addrs| ensures CompareShortIDs(addrs[i], addrs[j]) < 0 {
        assert Compare(addrs[i], addrs[j]) < 0;
      }
    }
    if Ascending(CompareShortIDs, addrs) {
      forall i, j | 0 <= i < j < |addrs| ensures Compare(addrs[i], addrs[j]) < 0 {
        assert CompareShortIDs(addrs[i], addrs[j]) < 0;
      }
    }
  }

  /** OutputOwners.Equals */
  method EqualOwners(a: OutputOwners, b: OutputOwners) returns (equal: bool)
    ensures equal <==> a == b
  {
    if a.locktime != b.locktime || a.threshold != b.threshold || |a.addrs| != |b.addrs| {
      return false;
    }
    var i := 0;
    while i < |a.addrs|
      invariant i <= |a.addrs| && a.addrs[..i] == b.addrs[..i]
    {
      if a.addrs[i] != b.addrs[i] {
        return false;
      }
      i := i + 1;
    }
    return true;
  }

  // ----- authorization -----

  /** The signature on the transaction recovers to the key of this address. */
  predicate SignedBy(crypto: Crypto, tx: Bytes, sig: Bytes, addr: ShortID) {
    var pk := crypto.recover(crypto.hash(tx), sig);
    pk.Some? && crypto.address(pk.value) == addr
  }

  /** Index i names an owner, and the i-th signature is that owner's. */
  predicate OwnerSigned(crypto: Crypto, tx: Bytes, sigIndices: seq<uint32>, sigs: seq<Bytes>, o: OutputOwners, i: nat)
    requires i < |sigIndices| && i < |sigs|
  {
    sigIndices[i] < ToUint32(|o.addrs|) && SignedBy(crypto, tx, sigs[i], o.addrs[sigIndices[i]])
  }

  /** Signature i is the first that is not its owner's. */
  ghost predicate FirstBad(crypto: Crypto, tx: Bytes, sigIndices: seq<uint32>, sigs: seq<Bytes>, o: OutputOwners,
                           i: nat)
  {
    && i < |sigIndices| == |sigs|
    && !OwnerSigned(crypto, tx, sigIndices, sigs, o, i)
    && forall k :: 0 <= k < i ==> OwnerSigned(crypto, tx, sigIndices, sigs, o, k)
  }

  /** What VerifyCredentials accepts. Signatures are only looked at once bootstrapped. */
  ghost predicate Authorized(crypto: Crypto, bootstrapped: bool, now: uint64, tx: Bytes, sigIndices: seq<uint32>,
                             sigs: seq<Bytes>, o: OutputOwners)
  {
    && o.locktime <= now
    && o.threshold == ToUint32(|sigIndices|)
    && |sigIndices| == |sigs|
    && (bootstrapped ==> forall i :: 0 <= i < |sigIndices| ==> OwnerSigned(crypto, tx, sigIndices, sigs, o, i))
  }

  /** The verdict, in plain terms: before bootstrapping time and counts decide;
      after it, each signature on the transaction must also recover to a key whose
      address is the owner that the index of the same place names. */
  lemma AuthorizedInPlainTerms(crypto: Crypto, now: uint64, tx: Bytes, sigIndices: seq<uint32>, sigs: seq<Bytes>,
                               o: OutputOwners)
    ensures Authorized(crypto, false, now, tx, sigIndices, sigs, o) <==>
              && o.locktime <= now && o.threshold == |sigIndices| % 0x1_0000_0000 && |sigIndices| == |sigs|
    ensures Authorized(crypto, true, now, tx, sigIndices, sigs, o) <==>
              && o.locktime <= now && o.threshold == |sigIndices| % 0x1_0000_0000 && |sigIndices| == |sigs|
              && forall i :: 0 <= i < |sigs| ==>
                   && sigIndices[i] < |o.addrs| % 0x1_0000_0000
                   && crypto.recover(crypto.hash(tx), sigs[i]).Some?
                   && crypto.address(crypto.recover(crypto.hash(tx), sigs[i]).value) == o.addrs[sigIndices[i]]
  {
    if |sigIndices| == |sigs| {
      forall i | 0 <= i < |sigs|
        ensures OwnerSigned(crypto, tx, sigIndices, sigs, o, i) <==>
                  && sigIndices[i] < |o.addrs| % 0x1_0000_0000
                  && crypto.recover(crypto.hash(tx), sigs[i]).Some?
                  && crypto.address(crypto.recover(crypto.hash(tx), sigs[i]).value) == o.addrs[sigIndices[i]]
      {
      }
      hide OwnerSigned, SignedBy;
    }
  }

  class Fx {
    const crypto: Crypto
    var bootstrapped: bool

    constructor (crypto: Crypto)
      ensures this.crypto == crypto && !bootstrapped
    {
      this.crypto := crypto;
      bootstrapped := false;
    }

    method Bootstrapped()
      modifies this
      ensures bootstrapped
    {
      bootstrapped := true;
    }

    method VerifyCredentials(now: uint64, tx: Bytes, sigIndices: seq<uint32>, sigs: seq<Bytes>, o: OutputOwners)
      returns (err: Option<FxError>)
      ensures err.None? <==> Authorized(crypto, bootstrapped, now, tx, sigIndices, sigs, o)
      ensures bootstrapped && err.None? <==>
                && bootstrapped
                && o.locktime <= now && o.threshold == |sigIndices| % 0x1_0000_0000 && |sigIndices| == |sigs|
                && forall i :: 0 <= i < |sigs| ==>
                     && sigIndices[i] < |o.addrs| % 0x1_0000_0000
                     && crypto.recover(crypto.hash(tx), sigs[i]).Some?
                     && crypto.address(crypto.recover(crypto.hash(tx), sigs[i]).value) == o.addrs[sigIndices[i]]
      ensures err == Some(Timelocked) <==> o.locktime > now
      ensures err == Some(TooManySigners) <==> o.locktime <= now && ToUint32(|sigIndices|) > o.threshold
      ensures err == Some(TooFewSigners) <==> o.locktime <= now && ToUint32(|sigIndices|) < o.threshold
      ensures err == Some(InputCredentialSignersMismatch) <==>
                o.locktime <= now && ToUint32(|sigIndices|) == o.threshold && |sigIndices| != |sigs|
      ensures err == Some(InputOutputIndexOutOfBounds) ==>
                exists i: nat :: FirstBad(crypto, tx, sigIndices, sigs, o, i) && sigIndices[i] >= ToUint32(|o.addrs|)
      ensures err == Some(CannotRecover) || err == Some(WrongSig) ==>
                exists i: nat :: FirstBad(crypto, tx, sigIndices, sigs, o, i) && sigIndices[i] < ToUint32(|o.addrs|)
                            && (err.value.CannotRecover? <==> crypto.recover(crypto.hash(tx), sigs[i]).None?)
    {
      AuthorizedInPlainTerms(crypto, now, tx, sigIndices, sigs, o);
      var numSigs := |sigIndices|;
      if o.locktime > now {
        return Some(Timelocked);
      } else if o.threshold < ToUint32(numSigs) {
        return Some(TooManySigners);
      } else if o.threshold > ToUint32(numSigs) {
        return Some(TooFewSigners);
      } else if numSigs != |sigs| {
        return Some(InputCredentialSignersMismatch);
      } else if !bootstrapped {
        return None;
      }
      var txHash := crypto.hash(tx);
      var i := 0;
      while i < |sigIndices|
        invariant i <= |sigIndices|
        invariant forall k :: 0 <= k < i ==> OwnerSigned(crypto, tx, sigIndices, sigs, o, k)
      {
        var index := sigIndices[i];
        assert !OwnerSigned(crypto, tx, sigIndices, sigs, o, i) ==>
            !Authorized(crypto, bootstrapped, now, tx, sigIndices, sigs, o)
            && FirstBad(crypto, tx, sigIndices, sigs, o, i);
        if index >= ToUint32(|o.addrs|) {
          return Some(InputOutputIndexOutOfBounds);
        }
        var pk := crypto.recover(txHash, sigs[i]);
        if pk.None? {
          return Some(CannotRecover);
        }
        if o.addrs[index] != crypto.address(pk.value) {
          return Some(WrongSig);
        }
        i := i + 1;
      }
      return None;
    }

    /** VerifyPermission: accepts exactly when input and owners are well formed and the credential authorizes. */
    method VerifyPermission(now: uint64, tx: Bytes, sigIndices: seq<uint32>, sigs: seq<Bytes>, owner: OutputOwners)
      returns (err: Option<FxError>)
      ensures err.None? <==>
                && IndicesOk(sigIndices) && OwnersOk(owner)
                && Authorized(crypto, bootstrapped, now, tx, sigIndices, sigs, owner)
    {
      var ok := VerifyIndices(sigIndices);
      if !ok {
        return Some(InputIndicesNotSortedUnique);
      }
      err := VerifyOwners(owner);
      if err.Some? {
        return;
      }
      err := VerifyCredentials(now, tx, sigIndices, sigs, owner);
    }

    /** VerifySpend */
    method VerifySpend(now: uint64, tx: Bytes, input: TransferInput, sigs: seq<Bytes>, utxo: TransferOutput)
      returns (err: Option<FxError>)
      ensures err.None? <==> Spends(crypto, bootstrapped, now, tx, input, sigs, utxo)
      ensures err.None? <==>
                && utxo.amt == input.amt && utxo.amt > 0
                && OwnersOk(utxo.owners) && IndicesOk(input.sigIndices)
                && Authorized(crypto, bootstrapped, now, tx, input.sigIndices, sigs, utxo.owners)
    {
      if utxo.amt == 0 {
        return Some(NoValueOutput);
      }
      err := VerifyOwners(utxo.owners);
      if err.Some? {
        return;
      }
      if input.amt == 0 {
        return Some(NoValueInput);
      }
      var ok := VerifyIndices(input.sigIndices);
      if !ok {
        return Some(InputIndicesNotSortedUnique);
      }
      if utxo.amt != input.amt {
        return Some(MismatchedAmounts);
      }
      err := VerifyCredentials(now, tx, input.sigIndices, sigs, utxo.owners);
    }

    /** verifyOperation: minting must recreate the same owners. */
    method VerifyOperation(now: uint64, tx: Bytes, op: MintOperation, sigs: seq<Bytes>, utxo: OutputOwners)
      returns (err: Option<FxError>)
      ensures err.None? <==> Mints(crypto, bootstrapped, now, tx, op, sigs, utxo)
      ensures err.None? <==>
                && op.mintOutput == utxo && op.transferOutput.amt > 0
                && OwnersOk(op.transferOutput.owners) && OwnersOk(utxo) && IndicesOk(op.mintInput)
                && Authorized(crypto, bootstrapped, now, tx, op.mintInput, sigs, utxo)
    {
      var ok := VerifyIndices(op.mintInput);
      if !ok {
        return Some(InputIndicesNotSortedUnique);
      }
      err := VerifyOwners(op.mintOutput);
      if err.Some? {
        return;
      }
      if op.transferOutput.amt == 0 {
        return Some(NoValueOutput);
      }
      err := VerifyOwners(op.transferOutput.owners);
      if err.Some? {
        return;
      }
      err := VerifyOwners(utxo);
      if err.Some? {
        return;
      }
      var equal := EqualOwners(utxo, op.mintOutput);
      if !equal {
        return Some(WrongMintCreated);
      }
      err := VerifyCredentials(now, tx, op.mintInput, sigs, utxo);
    }
  }

  /** What VerifySpend accepts. */
  ghost predicate Spends(crypto: Crypto, bootstrapped: bool, now: uint64, tx: Bytes, input: TransferInput,
                         sigs: seq<Bytes>, utxo: TransferOutput)
  {
    && utxo.amt == input.amt > 0
    && OwnersOk(utxo.owners) && IndicesOk(input.sigIndices)
    && Authorized(crypto, bootstrapped, now, tx, input.sigIndices, sigs, utxo.owners)
  }

  /** What verifyOperation accepts. */
  ghost predicate Mints(crypto: Crypto, bootstrapped: bool, now: uint64, tx: Bytes, op: MintOperation,
                        sigs: seq<Bytes>, utxo: OutputOwners)
  {
    && IndicesOk(op.mintInput) && op.transferOutput.amt > 0 && OwnersOk(op.transferOutput.owners)
    && OwnersOk(utxo) && op.mintOutput == utxo
    && Authorized(crypto, bootstrapped, now, tx, op.mintInput, sigs, utxo)
  }

  // ----- what acceptance means -----

  /** Once bootstrapped, acceptance takes exactly Threshold signatures, whose
      owners are Threshold pairwise distinct addresses of the output, each of
      which signed this transaction; no length bound is assumed. */
  lemma AcceptanceNeedsThresholdOwners(crypto: Crypto, now: uint64, tx: Bytes, sigIndices: seq<uint32>,
                                       sigs: seq<Bytes>, o: OutputOwners)
    requires IndicesOk(sigIndices) && OwnersOk(o)
    requires Authorized(crypto, true, now, tx, sigIndices, sigs, o)
    ensures |sigIndices| == |sigs| == o.threshold
    ensures |Signers(sigIndices, o.addrs)| == o.threshold
    ensures forall a :: a in Signers(sigIndices, o.addrs) ==>
              && a in o.addrs
              && exists k :: 0 <= k < |sigs| && crypto.recover(crypto.hash(tx), sigs[k]).Some?
                             && crypto.address(crypto.recover(crypto.hash(tx), sigs[k]).value) == a
  {
    forall i | 0 <= i < |sigIndices| ensures sigIndices[i] < ToUint32(|o.addrs|) {
      assert OwnerSigned(crypto, tx, sigIndices, sigs, o, i);
    }
    AscendingIffDistinct(o.addrs);
    IndicesNameOwners(sigIndices, o.addrs);
    forall a | a in Signers(sigIndices, o.addrs)
      ensures exists k :: 0 <= k < |sigs| && crypto.recover(crypto.hash(tx), sigs[k]).Some?
                          && crypto.address(crypto.recover(crypto.hash(tx), sigs[k]).value) == a
    {
      var i :| 0 <= i < |sigIndices| && sigIndices[i] < |o.addrs| && a == o.addrs[sigIndices[i]];
      assert OwnerSigned(crypto, tx, sigIndices, sigs, o, i);
    }
  }
}
