/** Credentials on the wire: signatures and public keys joined without
    separators and split again by a fixed stride. */
module CredentialWire {
  import opened Bytes
  import opened Sorting
  import opened Wire
  import PQFx

  const TYPE_MLDSA: Byte := 0x02
  const TYPE_SLHDSA: Byte := 0x03
  const TYPE_ED25519: Byte := 0x04

  const ED_SIG_LEN := 64
  const ED_PUB_KEY_LEN := 32

  /** The fields of a credential envelope, as they are stored and read back. */
  datatype WireCredential = WireCredential(tk: Byte, level: PQFx.Level, sigBytes: Bytes, pubKeyBytes: Bytes)

  datatype CredentialError = WrongType | UnknownSecurityLevel

  // ----- joining and splitting -----

  /** Whole pieces of one length; a shorter rest is dropped. */
  function Chunks(b: Bytes, stride: nat): seq<Bytes>
    requires stride > 0
  {
    if |b| < stride then [] else [b[..stride]] + Chunks(b[stride..], stride)
  }

  lemma {:induction false} ChunksLength(b: Bytes, stride: nat)
    requires stride > 0
    ensures AllOfLength(Chunks(b, stride), stride)
    ensures |Chunks(b, stride)| * stride <= |b| < |Chunks(b, stride)| * stride + stride
  {
    if |b| < stride {
    } else {
      ChunksLength(b[stride..], stride);
      Distribute(|Chunks(b[stride..], stride)|, stride);
    }
  }

  lemma ChunksStep(b: Bytes, i: nat, stride: nat)
    requires stride > 0 && i <= |b|
    ensures Chunks(b[i..], stride)
         == if i + stride <= |b| then [b[i..i + stride]] + Chunks(b[i + stride..], stride) else []
  {
    if i + stride <= |b| {
      assert b[i..][..stride] == b[i..i + stride] && b[i..][stride..] == b[i + stride..];
    }
  }

  lemma Distribute(n: nat, stride: nat)
    ensures (1 + n) * stride == stride + n * stride
  {
  }

  lemma Window(i: nat, stride: nat)
    ensures (i + 1) * stride == i * stride + stride
    ensures i > 0 ==> i * stride == (i - 1) * stride + stride
  {
  }

  lemma Slide(b: Bytes, stride: nat, low: nat)
    requires stride + low + stride <= |b|
    ensures b[stride..][low..low + stride] == b[low + stride..low + stride + stride]
  {
  }

  /** The i-th piece is the i-th window of the run. */
  lemma {:induction false} ChunkAt(b: Bytes, stride: nat, i: nat)
    requires stride > 0 && i * stride + stride <= |b|
    ensures i < |Chunks(b, stride)|
    ensures Chunks(b, stride)[i] == b[i * stride..i * stride + stride]
  {
    if i == 0 {
    } else {
      Window(i, stride);
      ChunkAt(b[stride..], stride, i - 1);
      Slide(b, stride, (i - 1) * stride);
    }
  }

  /** Splitting undoes joining exactly when every piece has the stride's length. */
  lemma {:induction false} SplitUndoesJoinIff(bs: seq<Bytes>, stride: nat)
    requires stride > 0
    ensures Chunks(Concat(bs), stride) == bs <==> AllOfLength(bs, stride)
  {
    if AllOfLength(bs, stride) {
      SplitUndoesJoin(bs, stride);
    } else {
      ChunksLength(Concat(bs), stride);
    }
  }

  lemma {:induction false} SplitUndoesJoin(bs: seq<Bytes>, stride: nat)
    requires stride > 0 && AllOfLength(bs, stride)
    ensures Chunks(Concat(bs), stride) == bs
    ensures |Concat(bs)| == |bs| * stride
  {
    if bs == [] {
    } else {
      SplitUndoesJoin(bs[1..], stride);
      assert |bs[0]| == stride;
      assert Concat(bs)[..stride] == bs[0] && Concat(bs)[stride..] == Concat(bs[1..]);
      Distribute(|bs| - 1, stride);
    }
  }

  /** Joining undoes splitting exactly when the run is a whole number of strides. */
  lemma {:induction false} JoinUndoesSplitIff(b: Bytes, stride: nat)
    requires stride > 0
    ensures Concat(Chunks(b, stride)) == b <==> |b| % stride == 0
  {
    if |b| >= stride {
      JoinUndoesSplitIff(b[stride..], stride);
      assert Chunks(b, stride)[1..] == Chunks(b[stride..], stride);
      assert b == b[..stride] + b[stride..];
      StrideMod(|b|, stride);
    } else {
      SmallMod(|b|, stride);
    }
  }

  lemma StrideMod(n: nat, stride: nat)
    requires 0 < stride <= n
    ensures (n - stride) % stride == n % stride
  {
    var q, r := (n - stride) / stride, (n - stride) % stride;
    assert n == (q + 1) * stride + r;
    assert n % stride == r by {
      ModUnique(n, stride, q + 1, r);
    }
  }

  lemma ModUnique(n: nat, stride: nat, q: nat, r: nat)
    requires stride > 0 && r < stride && n == q * stride + r
    ensures n % stride == r && n / stride == q
  {
    var q', r' := n / stride, n % stride;
    assert n == q' * stride + r';
    Less(q, r, q', r', stride);
    Less(q', r', q, r, stride);
  }

  lemma Less(q: int, r: nat, q': int, r': nat, stride: nat)
    requires q * stride + r == q' * stride + r' && r < stride && r' < stride
    ensures q' <= q
  {
    if q < q' {
      assert (q' - q) * stride == r - r';
      assert (q' - q) * stride >= stride by {
        MulMonotone(1, q' - q, stride);
      }
    }
  }

  lemma SmallMod(n: nat, stride: nat)
    requires n < stride
    ensures n % stride == n
  {
  }

  // ----- the accessors of the wire credential -----

  /** SignatureCount */
  function SignatureCount(w: WireCredential, sigSize: int): nat {
    if sigSize <= 0 || |w.sigBytes| % sigSize != 0 then 0 else |w.sigBytes| / sigSize
  }

  /** SignatureAt; nothing when out of range. */
  function SignatureAt(w: WireCredential, i: int, sigSize: int): Option<Bytes> {
    if sigSize <= 0 || i < 0 then None
    else
      var start := i * sigSize;
      var end := start + sigSize;
      if end > |w.sigBytes| || start < 0 then None else Some(w.sigBytes[start..end])
  }

  /** Reading all signatures one by one gives the pieces, or none when the run is not whole. */
  method ReadSignatures(w: WireCredential, sigSize: nat) returns (sigs: seq<Bytes>)
    requires sigSize > 0
    ensures sigs == if |w.sigBytes| % sigSize == 0 then Chunks(w.sigBytes, sigSize) else []
  {
    var n := SignatureCount(w, sigSize);
    CountIsChunks(w, sigSize);
    sigs := [];
    var i := 0;
    while i < n
      invariant i <= n && |sigs| == i
      invariant forall k :: 0 <= k < i ==> sigs[k] == Chunks(w.sigBytes, sigSize)[k]
    {
      SignatureIsChunk(w, sigSize, i);
      var raw := SignatureAt(w, i, sigSize);
      sigs := sigs + [raw.value];
      i := i + 1;
    }
  }

  lemma CountIsChunks(w: WireCredential, sigSize: nat)
    requires sigSize > 0
    ensures |w.sigBytes| % sigSize == 0 ==> SignatureCount(w, sigSize) == |Chunks(w.sigBytes, sigSize)|
  {
    ChunksLength(w.sigBytes, sigSize);
    var m := |Chunks(w.sigBytes, sigSize)|;
    ModUnique(|w.sigBytes|, sigSize, m, |w.sigBytes| - m * sigSize);
  }

  lemma SignatureIsChunk(w: WireCredential, sigSize: nat, i: nat)
    requires sigSize > 0 && i < SignatureCount(w, sigSize)
    ensures i < |Chunks(w.sigBytes, sigSize)|
    ensures SignatureAt(w, i, sigSize) == Some(Chunks(w.sigBytes, sigSize)[i])
  {
    CountIsChunks(w, sigSize);
    ChunksLength(w.sigBytes, sigSize);
    var m := |Chunks(w.sigBytes, sigSize)|;
    Window(i, sigSize);
    MulMonotone(i + 1, m, sigSize);
    ChunkAt(w.sigBytes, sigSize, i);
  }

  lemma MulMonotone(a: nat, b: nat, c: nat)
    requires a <= b
    ensures a * c <= b * c
  {
  }

  // ----- Ed25519 -----

  /** Signatures are 64-byte arrays; public keys are slices of any length. */
  type Signature64 = s: Bytes | |s| == 64 witness Zeros(64)

  datatype EdCredential = EdCredential(sigs: seq<Signature64>, pubKeys: seq<Bytes>)

  /** Credential.Bytes */
  method EdBytes(cr: EdCredential) returns (w: WireCredential)
    ensures w == WireCredential(TYPE_ED25519, 0, Concat(cr.sigs), Concat(cr.pubKeys))
  {
    var sigs := ConcatAll(cr.sigs);
    var pks := ConcatAll(cr.pubKeys);
    w := WireCredential(TYPE_ED25519, 0, sigs, pks);
  }

  /** WrapCredential, as a function of the stored fields. */
  function EdParsed(w: WireCredential): Result<(seq<Bytes>, seq<Bytes>), CredentialError> {
    if w.tk != TYPE_ED25519 then Failure(WrongType)
    else
      var sigs := if |w.sigBytes| % ED_SIG_LEN == 0 then Chunks(w.sigBytes, ED_SIG_LEN) else [];
      Success((sigs, Chunks(w.pubKeyBytes, ED_PUB_KEY_LEN)))
  }

  method EdWrap(w: WireCredential) returns (r: Result<(seq<Bytes>, seq<Bytes>), CredentialError>)
    ensures r == EdParsed(w)
  {
    if w.tk != TYPE_ED25519 {
      return Failure(WrongType);
    }
    var sigs := ReadSignatures(w, ED_SIG_LEN);
    var pks := SplitPubKeys(w.pubKeyBytes);
    return Success((sigs, pks));
  }

  /** WrapCredential's loop over the public key run. */
  method SplitPubKeys(all: Bytes) returns (pks: seq<Bytes>)
    ensures pks == Chunks(all, ED_PUB_KEY_LEN)
  {
    hide Chunks;
    pks := [];
    var i := 0;
    assert all[i..] == all;
    while i + ED_PUB_KEY_LEN <= |all|
      invariant 0 <= i <= |all|
      invariant pks + Chunks(all[i..], ED_PUB_KEY_LEN) == Chunks(all, ED_PUB_KEY_LEN)
    {
      ChunksStep(all, i, ED_PUB_KEY_LEN);
      pks := pks + [all[i..i + ED_PUB_KEY_LEN]];
      i := i + ED_PUB_KEY_LEN;
    }
    ChunksStep(all, i, ED_PUB_KEY_LEN);
  }

  /** A credential comes back from the wire exactly when every public key has 32 bytes. */
  lemma EdRoundTripIff(cr: EdCredential)
    ensures EdParsed(WireCredential(TYPE_ED25519, 0, Concat(cr.sigs), Concat(cr.pubKeys)))
              == Success((cr.sigs, cr.pubKeys))
       <==> AllOfLength(cr.pubKeys, ED_PUB_KEY_LEN)
  {
    SplitUndoesJoin(cr.sigs, ED_SIG_LEN);
    ModUnique(|Concat(cr.sigs)|, ED_SIG_LEN, |cr.sigs|, 0);
    SplitUndoesJoinIff(cr.pubKeys, ED_PUB_KEY_LEN);
  }

  // ----- ML-DSA and SLH-DSA -----

  function TypeOf(scheme: PQFx.Scheme): Byte {
    if scheme.MLDSA? then TYPE_MLDSA else TYPE_SLHDSA
  }

  /** Credential.Bytes */
  method PQBytes(scheme: PQFx.Scheme, cr: PQFx.Credential) returns (w: WireCredential)
    ensures w == WireCredential(TypeOf(scheme), cr.level, Concat(cr.sigs), [])
  {
    var sigs := ConcatAll(cr.sigs);
    w := WireCredential(TypeOf(scheme), cr.level, sigs, []);
  }

  /** WrapCredential, as a function of the stored fields: the level byte chooses the stride. */
  function PQParsed(scheme: PQFx.Scheme, w: WireCredential): Result<PQFx.Credential, CredentialError> {
    var sigLen := PQFx.SignatureLen(scheme, w.level);
    if w.tk != TypeOf(scheme) then Failure(WrongType)
    else if sigLen == 0 then Failure(UnknownSecurityLevel)
    else Success(PQFx.Credential(w.level, if |w.sigBytes| % sigLen == 0 then Chunks(w.sigBytes, sigLen) else []))
  }

  method PQWrap(scheme: PQFx.Scheme, w: WireCredential) returns (r: Result<PQFx.Credential, CredentialError>)
    ensures r == PQParsed(scheme, w)
  {
    if w.tk != TypeOf(scheme) {
      return Failure(WrongType);
    }
    var sigLen := PQFx.SignatureLen(scheme, w.level);
    if sigLen == 0 {
      return Failure(UnknownSecurityLevel);
    }
    var sigs := ReadSignatures(w, sigLen);
    return Success(PQFx.Credential(w.level, sigs));
  }

  /** Every reader accepts the envelopes of its own scheme only: Ed25519 type 4,
      ML-DSA type 2 with levels 0 to 2, SLH-DSA type 3 with levels 0 to 2. */
  lemma OtherTypesRefused(w: WireCredential)
    ensures EdParsed(w).Success? <==> w.tk == 0x04
    ensures EdParsed(w).Failure? ==> EdParsed(w).error == WrongType
    ensures PQParsed(PQFx.MLDSA, w).Success? <==> w.tk == 0x02 && w.level <= 2
    ensures PQParsed(PQFx.SLHDSA, w).Success? <==> w.tk == 0x03 && w.level <= 2
    ensures PQParsed(PQFx.MLDSA, w).Failure? && w.tk != 0x02 ==> PQParsed(PQFx.MLDSA, w).error == WrongType
    ensures PQParsed(PQFx.SLHDSA, w).Failure? && w.tk != 0x03 ==> PQParsed(PQFx.SLHDSA, w).error == WrongType
    ensures w.tk == 0x02 && w.level > 2 ==> PQParsed(PQFx.MLDSA, w) == Failure(UnknownSecurityLevel)
    ensures w.tk == 0x03 && w.level > 2 ==> PQParsed(PQFx.SLHDSA, w) == Failure(UnknownSecurityLevel)
  {
  }

  /** A credential comes back from the wire exactly when its level is known and every signature has
      that level's length. */
  lemma PQRoundTripIff(scheme: PQFx.Scheme, cr: PQFx.Credential)
    ensures PQParsed(scheme, WireCredential(TypeOf(scheme), cr.level, Concat(cr.sigs), [])) == Success(cr)
       <==> cr.level <= 2 && AllOfLength(cr.sigs, PQFx.SignatureLen(scheme, cr.level))
  {
    var sigLen := PQFx.SignatureLen(scheme, cr.level);
    if sigLen > 0 {
      SplitUndoesJoinIff(cr.sigs, sigLen);
      if AllOfLength(cr.sigs, sigLen) {
        SplitUndoesJoin(cr.sigs, sigLen);
        ModUnique(|Concat(cr.sigs)|, sigLen, |cr.sigs|, 0);
      }
    }
  }
}
