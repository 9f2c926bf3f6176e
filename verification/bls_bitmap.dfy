/** The signer bitmap of BLS attestations: popcount, bit extraction, and the gate that compares them. */
module BlsBitmap {
  import opened Bytes
  import opened FxCommon
  import opened Sorting

  const PUB_KEY_LEN := 48

  datatype AttestationOutput = AttestationOutput(attestedHash: Bytes, threshold: uint32, pubKeys: seq<Bytes>)

  datatype GateError =
    | EmptyPubKeys
    | ThresholdZero
    | ThresholdExceedsPubKeys
    | InvalidPubKeyLen
    | PubKeysNotSortedUnique
    | SignerBitmapPopcount
    | SignerBitmapOutOfRange

  // ----- bits -----

  predicate Bit(b: Byte, j: nat)
    requires j < 8
  {
    b & (1 << j) != 0
  }

  function Ones(b: Byte, j: nat): nat
    requires j < 8
  {
    if Bit(b, j) then 1 else 0
  }

  /** The number of set bits of a byte. */
  function BitCount(b: Byte): nat {
    Ones(b, 0) + Ones(b, 1) + Ones(b, 2) + Ones(b, 3) + Ones(b, 4) + Ones(b, 5) + Ones(b, 6) + Ones(b, 7)
  }

  /** The number of set bits of a bitmap. */
  function BitCountAll(b: Bytes): nat {
    if b == [] then 0 else BitCountAll(b[..|b| - 1]) + BitCount(b[|b| - 1])
  }

  /** Bit i of a bitmap; bits past its end are clear. */
  predicate BitAt(b: Bytes, i: nat) {
    i / 8 < |b| && Bit(b[i / 8], i % 8)
  }

  /** The set bits below n, in ascending order. */
  function SetBits(b: Bytes, n: nat): seq<nat> {
    if n == 0 then []
    else SetBits(b, n - 1) + if BitAt(b, n - 1) then [n - 1] else []
  }

  lemma KernighanStep(b: Byte)
    requires b != 0
    ensures BitCount(b & (b - 1)) == BitCount(b) - 1
  {
  }

  /** popcount8: clearing the lowest set bit until none is left. */
  method Popcount8(x: Byte) returns (n: nat)
    ensures n == BitCount(x)
  {
    var b := x;
    n := 0;
    while b != 0
      invariant n + BitCount(b) == BitCount(x)
      decreases BitCount(b)
    {
      KernighanStep(b);
      b := b & (b - 1);
      n := n + 1;
    }
  }

  /** popcountBitmap: the sum is kept in a uint32 and wraps around. */
  method PopcountBitmap(b: Bytes) returns (n: uint32)
    ensures n == ToUint32(BitCountAll(b))
  {
    hide ToUint32, BitCountAll, BitCount;
    WrapAdd(0, 0);
    EmptyBitmap(b);
    n := 0;
    var i := 0;
    while i < |b|
      invariant i <= |b| && n == ToUint32(BitCountAll(b[..i]))
    {
      var c := Popcount8(b[i]);
      BitCountAllSnoc(b, i);
      WrapAdd(BitCountAll(b[..i]), c);
      n := ToUint32(n + c);
      i := i + 1;
    }
    assert b[..i] == b;
  }

  lemma WrapAdd(a: nat, c: nat)
    ensures ToUint32(ToUint32(a) + c) == ToUint32(a + c)
    ensures ToUint32(0) == 0
  {
  }

  lemma EmptyBitmap(b: Bytes)
    ensures BitCountAll(b[..0]) == 0 == |SetBits(b, 0)|
  {
  }

  /** bitmapSetBits */
  method BitmapSetBits(b: Bytes, maxBits: nat) returns (out: seq<nat>)
    ensures out == SetBits(b, maxBits)
  {
    out := [];
    var i := 0;
    while i < maxBits
      invariant i <= maxBits && out == SetBits(b, i)
    {
      if i / 8 >= |b| {
        NoBitsPastEnd(b, i, maxBits);
        break;
      }
      if b[i / 8] & (1 << (i % 8)) != 0 {
        out := out + [i];
      }
      i := i + 1;
    }
  }

  lemma {:induction false} NoBitsPastEnd(b: Bytes, i: nat, n: nat)
    requires i / 8 >= |b| && i <= n
    ensures SetBits(b, n) == SetBits(b, i)
  {
    if i == n {
    } else {
      NoBitsPastEnd(b, i, n - 1);
    }
  }

  /** SetBits lists exactly the set bits below n, each once, ascending. */
  lemma {:induction false} SetBitsAre(b: Bytes, n: nat)
    ensures IndicesOk(SetBits(b, n))
    ensures forall i :: i in SetBits(b, n) <==> 0 <= i < n && BitAt(b, i)
    ensures |SetBits(b, n)| <= n
  {
    hide BitAt;
    if n == 0 {
    } else {
      SetBitsAre(b, n - 1);
      var before := SetBits(b, n - 1);
      forall k | 0 <= k < |before| ensures before[k] < n - 1 {
        assert before[k] in before;
      }
    }
  }

  // ----- popcount and extraction agree -----

  lemma BitOfByte(b: Bytes, k: nat, j: nat)
    requires k < |b| && j < 8
    ensures |SetBits(b, 8 * k + j + 1)| == |SetBits(b, 8 * k + j)| + Ones(b[k], j)
  {
    assert (8 * k + j) / 8 == k && (8 * k + j) % 8 == j;
  }

  lemma OneByte(b: Bytes, k: nat)
    requires k < |b|
    ensures |SetBits(b, 8 * k + 8)| == |SetBits(b, 8 * k)| + BitCount(b[k])
  {
    hide SetBits, Ones;
    BitOfByte(b, k, 0);
    BitOfByte(b, k, 1);
    BitOfByte(b, k, 2);
    BitOfByte(b, k, 3);
    BitOfByte(b, k, 4);
    BitOfByte(b, k, 5);
    BitOfByte(b, k, 6);
    BitOfByte(b, k, 7);
  }

  lemma BitCountAllSnoc(b: Bytes, k: nat)
    requires k < |b|
    ensures BitCountAll(b[..k + 1]) == BitCountAll(b[..k]) + BitCount(b[k])
  {
    hide BitCount;
    assert b[..k + 1][..k] == b[..k];
  }

  lemma {:induction false} CountsAgree(b: Bytes, k: nat)
    requires k <= |b|
    ensures |SetBits(b, 8 * k)| == BitCountAll(b[..k])
  {
    hide SetBits, BitCount, BitCountAll;
    if k == 0 {
      EmptyBitmap(b);
    } else {
      assert 8 * (k - 1) + 8 == 8 * k;
      CountsAgree(b, k - 1);
      OneByte(b, k - 1);
      BitCountAllSnoc(b, k - 1);
    }
  }

  /** The number of set bits from m up to n. */
  function CountFrom(b: Bytes, m: nat, n: nat): nat
    requires m <= n
  {
    if m == n then 0 else CountFrom(b, m, n - 1) + if BitAt(b, n - 1) then 1 else 0
  }

  lemma {:induction false} CountFromIs(b: Bytes, m: nat, n: nat)
    requires m <= n
    ensures |SetBits(b, n)| == |SetBits(b, m)| + CountFrom(b, m, n)
    ensures CountFrom(b, m, n) == 0 <==> forall i :: m <= i < n ==> !BitAt(b, i)
    ensures CountFrom(b, m, n) <= n - m
  {
    hide BitAt;
    if m == n {
    } else {
      CountFromIs(b, m, n - 1);
    }
  }

  /** The number of set bits that name no one of m keys. */
  function Beyond(b: Bytes, m: nat): nat {
    if m >= 8 * |b| then 0 else CountFrom(b, m, 8 * |b|)
  }

  /** Every set bit is either extracted or beyond the committee. */
  lemma PopcountSplits(b: Bytes, m: nat)
    ensures BitCountAll(b) == |SetBits(b, m)| + Beyond(b, m)
    ensures Beyond(b, m) == 0 <==> forall i :: m <= i ==> !BitAt(b, i)
    ensures Beyond(b, m) <= if m < 8 * |b| then 8 * |b| - m else 0
  {
    CountsAgree(b, |b|);
    assert b[..|b|] == b;
    if m >= 8 * |b| {
      NoBitsPastEnd(b, 8 * |b|, m);
    } else {
      CountFromIs(b, m, 8 * |b|);
      if Beyond(b, m) == 0 {
        forall i | m <= i ensures !BitAt(b, i) {
          assert i < 8 * |b| || i / 8 >= |b|;
        }
      }
    }
  }

  // ----- the output and the gate -----

  /** byteLess: shorter first, then lexicographic. */
  method ByteLess(a: Bytes, b: Bytes) returns (less: bool)
    ensures less <==> |a| < |b| || (|a| == |b| && Compare(a, b) < 0)
  {
    if |a| < |b| {
      return true;
    }
    if |a| > |b| {
      return false;
    }
    var i := 0;
    while i < |a|
      invariant i <= |a| == |b| && Compare(a, b) == Compare(a[i..], b[i..])
    {
      if a[i] != b[i] {
        return a[i] < b[i];
      }
      assert a[i..][1..] == a[i + 1..] && b[i..][1..] == b[i + 1..];
      i := i + 1;
    }
    return false;
  }

  /** What AttestationOutput.Verify accepts. */
  ghost predicate OutputOk(out: AttestationOutput) {
    && out.pubKeys != []
    && 0 < out.threshold <= ToUint32(|out.pubKeys|)
    && (forall i :: 0 <= i < |out.pubKeys| ==> |out.pubKeys[i]| == PUB_KEY_LEN)
    && Distinct(out.pubKeys)
    && forall i, j :: 0 <= i < j < |out.pubKeys| ==> Compare(out.pubKeys[i], out.pubKeys[j]) < 0
  }

  lemma ExtendAscending(pks: seq<Bytes>, i: nat)
    requires i < |pks|
    requires forall p, q :: 0 <= p < q < i ==> Compare(pks[p], pks[q]) < 0
    requires i > 0 ==> Compare(pks[i - 1], pks[i]) < 0
    ensures forall p :: 0 <= p < i ==> Compare(pks[p], pks[i]) < 0
  {
    forall p | 0 <= p < i - 1 ensures Compare(pks[p], pks[i]) < 0 {
      CompareTransitive(pks[p], pks[i - 1], pks[i]);
    }
  }

  method VerifyOutput(out: AttestationOutput) returns (err: Option<GateError>)
    ensures err.None? <==> OutputOk(out)
    ensures err.None? <==>
              && |out.pubKeys| > 0 && 0 < out.threshold <= |out.pubKeys| % 0x1_0000_0000
              && (forall i :: 0 <= i < |out.pubKeys| ==> |out.pubKeys[i]| == 48)
              && forall i, j :: 0 <= i < j < |out.pubKeys| ==> Compare(out.pubKeys[i], out.pubKeys[j]) < 0
    ensures err == Some(EmptyPubKeys) <==> |out.pubKeys| == 0
    ensures err == Some(ThresholdZero) <==> |out.pubKeys| > 0 && out.threshold == 0
    ensures err == Some(ThresholdExceedsPubKeys) <==>
              |out.pubKeys| > 0 && out.threshold > 0 && out.threshold > |out.pubKeys| % 0x1_0000_0000
  {
    if |out.pubKeys| == 0 {
      return Some(EmptyPubKeys);
    }
    if out.threshold == 0 {
      return Some(ThresholdZero);
    }
    if out.threshold > ToUint32(|out.pubKeys|) {
      return Some(ThresholdExceedsPubKeys);
    }
    var i := 0;
    while i < |out.pubKeys|
      invariant i <= |out.pubKeys|
      invariant forall k :: 0 <= k < i ==> |out.pubKeys[k]| == PUB_KEY_LEN
      invariant forall p, q :: 0 <= p < q < i ==> Compare(out.pubKeys[p], out.pubKeys[q]) < 0
    {
      if |out.pubKeys[i]| != PUB_KEY_LEN {
        return Some(InvalidPubKeyLen);
      }
      if i > 0 {
        var less := ByteLess(out.pubKeys[i - 1], out.pubKeys[i]);
        if !less {
          return Some(PubKeysNotSortedUnique);
        }
      }
      ExtendAscending(out.pubKeys, i);
      i := i + 1;
    }
    forall p, q | 0 <= p < q < |out.pubKeys| ensures out.pubKeys[p] != out.pubKeys[q] {
      CompareZero(out.pubKeys[p], out.pubKeys[q]);
    }
    return None;
  }

  /** The gate at the start of verifyAttestation. For every bitmap and
      committee size it passes exactly when enough bits are in range and the
      number of bits out of range is a multiple of 2^32. */
  method Gate(signers: Bytes, out: AttestationOutput) returns (err: Option<GateError>, setBits: seq<nat>)
    ensures setBits == SetBits(signers, |out.pubKeys|)
    ensures err.None? <==> GatePasses(signers, out)
    ensures err.Some? ==> err == Some(SignerBitmapPopcount) || err == Some(SignerBitmapOutOfRange)
    ensures err == Some(SignerBitmapPopcount) <==> ToUint32(|SetBits(signers, |out.pubKeys|)|) < out.threshold
  {
    hide SetBits, BitCountAll, Beyond;
    setBits := BitmapSetBits(signers, |out.pubKeys|);
    PopcountSplits(signers, |out.pubKeys|);
    if ToUint32(|setBits|) < out.threshold {
      return Some(SignerBitmapPopcount), setBits;
    }
    var totalSet := PopcountBitmap(signers);
    if totalSet != |setBits| {
      return Some(SignerBitmapOutOfRange), setBits;
    }
    return None, setBits;
  }

  ghost predicate GatePasses(signers: Bytes, out: AttestationOutput) {
    var inRange := |SetBits(signers, |out.pubKeys|)|;
    out.threshold <= inRange < 0x1_0000_0000 && Beyond(signers, |out.pubKeys|) % 0x1_0000_0000 == 0
  }

  /** What the gate is for: all set bits name keys, and enough of them do. */
  ghost predicate Covers(signers: Bytes, out: AttestationOutput) {
    && (forall i: nat :: BitAt(signers, i) ==> i < |out.pubKeys|)
    && out.threshold <= |SetBits(signers, |out.pubKeys|)|
  }

  /** As long as neither the bits in range nor those out of range can number
      2^32, the one comparison detects every out-of-range bit. */
  lemma GateDetectsOutOfRange(signers: Bytes, out: AttestationOutput)
    requires 8 * |signers| < BitLimit(|out.pubKeys|)
    ensures GatePasses(signers, out) <==> Covers(signers, out)
  {
    hide SetBits, BitCountAll, Beyond, BitAt;
    var n := |out.pubKeys|;
    PopcountSplits(signers, n);
    SetBitsAre(signers, n);
    CountBound(signers);
    assert Beyond(signers, n) < 0x1_0000_0000;
  }

  lemma CountBound(signers: Bytes)
    ensures BitCountAll(signers) <= 8 * |signers|
  {
    hide BitCountAll;
    CountsAgree(signers, |signers|);
    assert signers[..|signers|] == signers;
    SetBitsAre(signers, 8 * |signers|);
  }

  /** The number of bits from which on the gate may err, for n keys. */
  function BitLimit(n: nat): nat {
    0x1_0000_0000 + if n < 0x1_0000_0000 then n else 0
  }

  // ----- the bitmap whose set bits are a range -----

  function Pack(p0: bool, p1: bool, p2: bool, p3: bool, p4: bool, p5: bool, p6: bool, p7: bool): Byte {
    (if p0 then 1 else 0) | (if p1 then 2 else 0) | (if p2 then 4 else 0) | (if p3 then 8 else 0)
    | (if p4 then 16 else 0) | (if p5 then 32 else 0) | (if p6 then 64 else 0) | (if p7 then 128 else 0)
  }

  lemma PackBits(p0: bool, p1: bool, p2: bool, p3: bool, p4: bool, p5: bool, p6: bool, p7: bool)
    ensures var b := Pack(p0, p1, p2, p3, p4, p5, p6, p7);
            && Bit(b, 0) == p0 && Bit(b, 1) == p1 && Bit(b, 2) == p2 && Bit(b, 3) == p3
            && Bit(b, 4) == p4 && Bit(b, 5) == p5 && Bit(b, 6) == p6 && Bit(b, 7) == p7
  {
  }

  /** Byte k of the bitmap whose set bits are lo, ..., hi - 1. */
  function RangeByte(lo: nat, hi: nat, k: nat): Byte {
    Pack(lo <= 8 * k < hi, lo <= 8 * k + 1 < hi, lo <= 8 * k + 2 < hi, lo <= 8 * k + 3 < hi,
         lo <= 8 * k + 4 < hi, lo <= 8 * k + 5 < hi, lo <= 8 * k + 6 < hi, lo <= 8 * k + 7 < hi)
  }

  function Range(lo: nat, hi: nat, len: nat): Bytes {
    seq(len, k requires 0 <= k < len => RangeByte(lo, hi, k))
  }

  lemma RangeByteBit(lo: nat, hi: nat, k: nat, j: nat)
    requires j < 8
    ensures Bit(RangeByte(lo, hi, k), j) <==> lo <= 8 * k + j < hi
  {
    PackBits(lo <= 8 * k < hi, lo <= 8 * k + 1 < hi, lo <= 8 * k + 2 < hi, lo <= 8 * k + 3 < hi,
             lo <= 8 * k + 4 < hi, lo <= 8 * k + 5 < hi, lo <= 8 * k + 6 < hi, lo <= 8 * k + 7 < hi);
    hide Pack, Bit;
    assert j == 0 || j == 1 || j == 2 || j == 3 || j == 4 || j == 5 || j == 6 || j == 7;
  }

  lemma RangeBit(lo: nat, hi: nat, len: nat, i: nat)
    requires hi <= 8 * len
    ensures BitAt(Range(lo, hi, len), i) <==> lo <= i < hi
  {
    RangeByteBit(lo, hi, i / 8, i % 8);
    hide RangeByte, Bit;
    assert 8 * (i / 8) + i % 8 == i;
  }

  lemma {:induction false} RangeCount(lo: nat, hi: nat, len: nat, m: nat)
    requires lo <= hi <= 8 * len
    ensures |SetBits(Range(lo, hi, len), m)| == if m <= lo then 0 else if m <= hi then m - lo else hi - lo
  {
    hide BitAt, Range;
    if m == 0 {
    } else {
      RangeCount(lo, hi, len, m - 1);
      RangeBit(lo, hi, len, m - 1);
    }
  }

  /** From the limit on the 32-bit popcount can wrap around: with the last
      Threshold committee bits and the 2^32 bits behind them the gate passes,
      although these name no key. */
  lemma WrapHidesOutOfRange(out: AttestationOutput, len: nat) returns (signers: Bytes)
    requires out.threshold <= |out.pubKeys| < 0x1_0000_0000 && 8 * len >= 0x1_0000_0000 + |out.pubKeys|
    ensures |signers| == len
    ensures GatePasses(signers, out) && BitAt(signers, |out.pubKeys|)
  {
    hide SetBits, BitAt, Range, CountFrom;
    var n := |out.pubKeys|;
    var lo, hi := n - out.threshold, n + 0x1_0000_0000;
    signers := Range(lo, hi, len);
    assert |signers| == len by {
      RangeLength(lo, hi, len);
    }
    RangeCount(lo, hi, len, n);
    RangeCount(lo, hi, len, 8 * len);
    CountFromIs(signers, n, 8 * len);
    RangeBit(lo, hi, len, n);
  }

  lemma RangeLength(lo: nat, hi: nat, len: nat)
    ensures |Range(lo, hi, len)| == len
  {
  }

  /** With 2^32 keys or more, 2^32 bits in range are too many for the 32-bit count. */
  lemma WrapRefusesCover(out: AttestationOutput, len: nat) returns (signers: Bytes)
    requires out.threshold < 0x1_0000_0000 <= |out.pubKeys| && 8 * len >= 0x1_0000_0000
    ensures |signers| == len
    ensures !GatePasses(signers, out) && Covers(signers, out)
  {
    hide SetBits, BitAt, Range, CountFrom;
    var n := |out.pubKeys|;
    signers := Range(0, 0x1_0000_0000, len);
    RangeLength(0, 0x1_0000_0000, len);
    RangeCount(0, 0x1_0000_0000, len, n);
    forall i: nat | BitAt(signers, i) ensures i < n {
      RangeBit(0, 0x1_0000_0000, len, i);
    }
  }

  /** The gate does what it is for on every bitmap of this length. */
  ghost predicate GateExact(out: AttestationOutput, len: nat) {
    forall signers: Bytes :: |signers| == len ==> (GatePasses(signers, out) <==> Covers(signers, out))
  }

  /** For a verified output the gate is exact on the bitmaps of a length if and only if they have
      fewer bits than the limit. */
  lemma GateExactIff(out: AttestationOutput, len: nat)
    requires OutputOk(out)
    ensures GateExact(out, len) <==> 8 * len < BitLimit(|out.pubKeys|)
  {
    hide GatePasses, Covers, OutputOk;
    if 8 * len < BitLimit(|out.pubKeys|) {
      forall signers: Bytes | |signers| == len ensures GatePasses(signers, out) <==> Covers(signers, out) {
        GateDetectsOutOfRange(signers, out);
      }
    } else if |out.pubKeys| < 0x1_0000_0000 {
      ThresholdInRange(out);
      var signers := WrapHidesOutOfRange(out, len);
      BitBehindKeys(signers, out);
    } else {
      var signers := WrapRefusesCover(out, len);
    }
  }

  lemma ThresholdInRange(out: AttestationOutput)
    requires OutputOk(out)
    ensures out.threshold <= |out.pubKeys|
  {
  }

  lemma BitBehindKeys(signers: Bytes, out: AttestationOutput)
    requires BitAt(signers, |out.pubKeys|)
    ensures !Covers(signers, out)
  {
  }

  /** A bitmap that passes over a verified output names at least Threshold pairwise distinct committee keys. */
  lemma AcceptedBitmapNamesDistinctKeys(signers: Bytes, out: AttestationOutput)
    requires OutputOk(out) && GatePasses(signers, out)
    ensures var named := Signers(SetBits(signers, |out.pubKeys|), out.pubKeys);
            |named| >= out.threshold && forall pk :: pk in named ==> pk in out.pubKeys
  {
    var bits := SetBits(signers, |out.pubKeys|);
    SetBitsAre(signers, |out.pubKeys|);
    forall i | 0 <= i < |bits| ensures bits[i] < |out.pubKeys| {
      assert bits[i] in bits;
    }
    assert bits[..|bits|] == bits;
    DistinctSigners(bits, out.pubKeys, |bits|);
  }
}
