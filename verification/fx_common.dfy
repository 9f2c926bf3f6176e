/** What the signature feature extensions share: signature indices and the set of owners they name. */
module FxCommon {
  import opened Bytes
  import opened Sorting

  /** What Input.Verify accepts. */
  ghost predicate IndicesOk(sigIndices: seq<nat>) {
    forall i, j :: 0 <= i < j < |sigIndices| ==> sigIndices[i] < sigIndices[j]
  }

  function CompareIndices(a: uint32, b: uint32): int {
    a - b
  }

  /** IsSortedAndUniqueOrdered on the indices of an input. */
  method VerifyIndices(sigIndices: seq<uint32>) returns (ok: bool)
    ensures ok <==> IndicesOk(sigIndices)
    ensures ok <==> forall i, j :: 0 <= i < j < |sigIndices| ==> sigIndices[i] < sigIndices[j]
  {
    ok := IsSortedAndUniqueByCompare(CompareIndices, sigIndices);
    if ok {
      forall i, j | 0 <= i < j < |sigIndices| ensures sigIndices[i] < sigIndices[j] {
        assert CompareIndices(sigIndices[i], sigIndices[j]) < 0;
      }
    }
  }

  lemma {:induction false} AscendingBound(s: seq<nat>, k: nat)
    requires IndicesOk(s) && k < |s|
    ensures s[k] >= k
  {
    if k == 0 {
    } else {
      AscendingBound(s, k - 1);
    }
  }

  /** The owners that the indices name. */
  ghost function Signers<A>(sigIndices: seq<nat>, addrs: seq<A>): set<A> {
    set i | 0 <= i < |sigIndices| && sigIndices[i] < |addrs| :: addrs[sigIndices[i]]
  }

  lemma SignersSnoc<A>(before: seq<nat>, last: nat, addrs: seq<A>)
    requires last < |addrs|
    ensures Signers(before + [last], addrs) == Signers(before, addrs) + {addrs[last]}
  {
    var s := before + [last];
    forall x | x in Signers(before, addrs) + {addrs[last]} ensures x in Signers(s, addrs) {
      if x in Signers(before, addrs) {
        var i :| 0 <= i < |before| && before[i] < |addrs| && x == addrs[before[i]];
        assert s[i] == before[i];
      } else {
        assert s[|before|] == last;
      }
    }
  }

  lemma NotNamedBefore<A>(sigIndices: seq<nat>, addrs: seq<A>, n: nat)
    requires IndicesOk(sigIndices) && Distinct(addrs) && n < |sigIndices| && sigIndices[n] < |addrs|
    ensures addrs[sigIndices[n]] !in Signers(sigIndices[..n], addrs)
  {
    forall i | 0 <= i < n && sigIndices[i] < |addrs| ensures addrs[sigIndices[i]] != addrs[sigIndices[n]] {
      assert sigIndices[i] < sigIndices[n];
    }
  }

  lemma NobodySigned<A>(addrs: seq<A>)
    ensures Signers([], addrs) == {}
  {
  }

  lemma {:induction false} DistinctSigners<A>(sigIndices: seq<nat>, addrs: seq<A>, n: nat)
    requires IndicesOk(sigIndices) && Distinct(addrs) && n <= |sigIndices|
    requires forall i :: 0 <= i < |sigIndices| ==> sigIndices[i] < |addrs|
    ensures |Signers(sigIndices[..n], addrs)| == n
  {
    hide Signers, Distinct, IndicesOk;
    if n == 0 {
      assert sigIndices[..n] == [];
      NobodySigned(addrs);
    } else {
      var before, last := sigIndices[..n - 1], sigIndices[n - 1];
      DistinctSigners(sigIndices, addrs, n - 1);
      NotNamedBefore(sigIndices, addrs, n - 1);
      assert sigIndices[..n] == before + [last];
      SignersSnoc(before, last, addrs);
    }
  }

  /** In-range ascending indices into distinct owners name as many owners as
      there are indices, and their number survives the conversion to uint32. */
  lemma IndicesNameOwners<A>(sigIndices: seq<nat>, addrs: seq<A>)
    requires IndicesOk(sigIndices) && Distinct(addrs)
    requires forall i :: 0 <= i < |sigIndices| ==> sigIndices[i] < ToUint32(|addrs|)
    ensures |Signers(sigIndices, addrs)| == |sigIndices| == ToUint32(|sigIndices|)
    ensures forall a :: a in Signers(sigIndices, addrs) ==> a in addrs
  {
    if |sigIndices| > 0 {
      AscendingBound(sigIndices, |sigIndices| - 1);
    }
    assert sigIndices[..|sigIndices|] == sigIndices;
    DistinctSigners(sigIndices, addrs, |sigIndices|);
  }
}
