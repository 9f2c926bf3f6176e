/** Byte strings, the fixed-length identifiers built from them, their
    lexicographic order (bytes.Compare) and the XOR of two identifiers. */
module Bytes {

  type Byte = bv8
  type Bytes = seq<Byte>

  /** ids.ID: 32 bytes. */
  type ID = s: Bytes | |s| == 32 witness seq(32, _ => 0)

  /** ids.ShortID: 20 bytes. */
  type ShortID = s: Bytes | |s| == 20 witness seq(20, _ => 0)

  /** ids.Empty and ids.ShortEmpty. */
  const EMPTY: ID := Zeros(32)
  const SHORT_EMPTY: ShortID := Zeros(20)

  function Zeros(n: nat): Bytes {
    seq(n, _ => 0)
  }

  const MAX_UINT64: nat := 0xFFFF_FFFF_FFFF_FFFF
  const TWO_TO_THE_32: nat := 0x1_0000_0000
  const MAX_INT: nat := 0x7FFF_FFFF_FFFF_FFFF

  type uint64 = n: nat | n <= 0xFFFF_FFFF_FFFF_FFFF
  type uint32 = n: nat | n < 0x1_0000_0000

  /** The conversion uint32(n) of a length. */
  function ToUint32(n: nat): uint32 {
    n % 0x1_0000_0000
  }

  datatype Option<+T> = None | Some(value: T)

  datatype Result<+T, +E> = Success(value: T) | Failure(error: E)

  /** bytes.Compare: lexicographic, a proper prefix is smaller. */
  function Compare(a: Bytes, b: Bytes): int {
    if a == [] && b == [] then 0
    else if a == [] then -1
    else if b == [] then 1
    else if a[0] < b[0] then -1
    else if b[0] < a[0] then 1
    else Compare(a[1..], b[1..])
  }

  /** ids.ShortID.Compare */
  function CompareShortIDs(a: ShortID, b: ShortID): int {
    Compare(a, b)
  }

  ghost predicate AllOfLength(bs: seq<Bytes>, n: nat) {
    forall i :: 0 <= i < |bs| ==> |bs[i]| == n
  }

  lemma {:induction false} CompareZero(a: Bytes, b: Bytes)
    ensures Compare(a, b) == 0 <==> a == b
  {
    if a == [] || b == [] || a[0] != b[0] {
    } else {
      CompareZero(a[1..], b[1..]);
      assert a == [a[0]] + a[1..] && b == [b[0]] + b[1..];
    }
  }

  lemma {:induction false} CompareReverse(a: Bytes, b: Bytes)
    ensures Compare(b, a) == -Compare(a, b)
  {
    if a == [] || b == [] {
    } else {
      CompareReverse(a[1..], b[1..]);
    }
  }

  lemma {:induction false} CompareTransitive(a: Bytes, b: Bytes, c: Bytes)
    requires Compare(a, b) <= 0 && Compare(b, c) <= 0
    ensures Compare(a, c) <= 0
    ensures Compare(a, c) == 0 ==> Compare(a, b) == 0 && Compare(b, c) == 0
  {
    if a == [] || b == [] || c == [] || a[0] != b[0] || b[0] != c[0] {
    } else {
      CompareTransitive(a[1..], b[1..], c[1..]);
    }
  }

  /** a and b agree before place k, where a ends or has the smaller byte. */
  ghost predicate SmallerAt(a: Bytes, b: Bytes, k: nat) {
    && k <= |a| && k < |b|
    && a[..k] == b[..k]
    && (k == |a| || a[k] < b[k])
  }

  lemma PrefixHeads(a: Bytes, b: Bytes, k: nat)
    requires 0 < k <= |a| && k <= |b| && a[..k] == b[..k]
    ensures a[0] == b[0]
  {
    assert a[..k][0] == a[0] && b[..k][0] == b[0];
  }

  /** The first byte that differs decides, and a proper prefix is smaller. */
  lemma {:induction false} CompareIff(a: Bytes, b: Bytes)
    ensures Compare(a, b) < 0 <==> exists k: nat :: SmallerAt(a, b, k)
  {
    if a == [] || b == [] || a[0] != b[0] {
      assert b != [] && (a == [] || a[0] < b[0]) ==> SmallerAt(a, b, 0);
      forall k: nat | SmallerAt(a, b, k) ensures Compare(a, b) < 0 {
        if k > 0 {
          PrefixHeads(a, b, k);
        }
      }
    } else {
      CompareIff(a[1..], b[1..]);
      if Compare(a, b) < 0 {
        var k: nat :| SmallerAt(a[1..], b[1..], k);
        assert a[..k + 1] == [a[0]] + a[1..][..k] && b[..k + 1] == [b[0]] + b[1..][..k];
        assert SmallerAt(a, b, k + 1);
      }
      forall k: nat | SmallerAt(a, b, k) ensures Compare(a, b) < 0 {
        assert k > 0;
        assert a[1..][..k - 1] == a[..k][1..] && b[1..][..k - 1] == b[..k][1..];
        assert SmallerAt(a[1..], b[1..], k - 1);
      }
    }
  }

  /** ids.ID.XOR */
  function Xor(a: ID, b: ID): ID {
    seq(32, i requires 0 <= i < 32 => a[i] ^ b[i])
  }

  lemma XorSelf(a: ID, b: ID)
    ensures Xor(a, a) == EMPTY
    ensures Xor(a, Xor(a, b)) == b
  {
    assert Xor(a, a) == EMPTY;
    assert Xor(a, Xor(a, b)) == b;
  }

  lemma XorCommutes(a: ID, b: ID, c: ID)
    ensures Xor(a, b) == Xor(b, a)
    ensures Xor(a, Xor(b, c)) == Xor(b, Xor(a, c))
  {
    assert Xor(a, b) == Xor(b, a);
    assert Xor(a, Xor(b, c)) == Xor(b, Xor(a, c));
  }

  lemma XorEmpty(a: ID)
    ensures Xor(a, EMPTY) == a == Xor(EMPTY, a)
  {
    assert Xor(a, EMPTY) == a;
    assert Xor(EMPTY, a) == a;
  }
}
