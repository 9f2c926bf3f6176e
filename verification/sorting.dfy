/** Sorting and the "sorted and unique" scan that every owner list, address
    list and input list goes through. */
module Sorting {
  import opened Bytes

  /** A three-way comparison that orders its arguments by some key. */
  ghost predicate IsOrder<T(!new)>(cmp: (T, T) -> int) {
    && (forall a, b :: cmp(a, b) < 0 <==> cmp(b, a) > 0)
    && (forall a, b, c :: cmp(a, b) < 0 && cmp(b, c) < 0 ==> cmp(a, c) < 0)
  }

  function Elems<T>(s: seq<T>): set<T> {
    set x | x in s
  }

  function Flatten<T>(ss: seq<seq<T>>): seq<T> {
    if ss == [] then [] else Flatten(ss[..|ss| - 1]) + ss[|ss| - 1]
  }

  lemma ElemsConcat<T>(s: seq<T>, t: seq<T>)
    ensures Elems(s + t) == Elems(s) + Elems(t)
  {
    assert forall x :: x in s + t <==> x in s || x in t;
  }

  lemma ElemsSnoc<T>(s: seq<T>, x: T)
    ensures Elems(s + [x]) == Elems(s) + {x}
    ensures x !in Elems(s) && Distinct(s) ==> Distinct(s + [x])
  {
    assert forall y :: y in s + [x] <==> y in s || y == x;
  }

  /** Every earlier element is strictly below every later one. */
  ghost predicate Ascending<T>(cmp: (T, T) -> int, s: seq<T>) {
    forall i, j :: 0 <= i < j < |s| ==> cmp(s[i], s[j]) < 0
  }

  ghost predicate Sorted<T>(cmp: (T, T) -> int, s: seq<T>) {
    forall i, j :: 0 <= i < j < |s| ==> cmp(s[i], s[j]) <= 0
  }

  ghost predicate Distinct<T>(s: seq<T>) {
    forall i, j :: 0 <= i < j < |s| ==> s[i] != s[j]
  }

  lemma BytesAreOrdered()
    ensures IsOrder<Bytes>(Compare)
  {
    forall a: Bytes, b: Bytes ensures Compare(a, b) < 0 <==> Compare(b, a) > 0 {
      CompareReverse(a, b);
    }
    forall a: Bytes, b: Bytes, c: Bytes | Compare(a, b) < 0 && Compare(b, c) < 0 ensures Compare(a, c) < 0 {
      CompareTransitive(a, b, c);
    }
  }

  lemma CompareIsOrder()
    ensures IsOrder(CompareShortIDs)
    ensures forall a, b :: CompareShortIDs(a, b) == 0 <==> a == b
  {
    forall a: ShortID, b: ShortID
      ensures (Compare(a, b) == 0 <==> a == b) && (Compare(a, b) < 0 <==> Compare(b, a) > 0)
    {
      CompareZero(a, b);
      CompareReverse(a, b);
    }
    forall a: ShortID, b: ShortID, c: ShortID | Compare(a, b) < 0 && Compare(b, c) < 0 ensures Compare(a, c) < 0 {
      CompareTransitive(a, b, c);
    }
  }

  lemma {:induction false} AdjacentIsEnough<T(!new)>(cmp: (T, T) -> int, s: seq<T>, i: nat, j: nat)
    requires IsOrder(cmp)
    requires forall k :: 0 < k < |s| ==> cmp(s[k - 1], s[k]) < 0
    requires i < j < |s|
    ensures cmp(s[i], s[j]) < 0
    decreases j - i
  {
    assert cmp(s[j - 1], s[j]) < 0;
    if i == j - 1 {
    } else {
      AdjacentIsEnough(cmp, s, i, j - 1);
    }
  }

  /** isSortedAndUniqueByCompare: one pass over neighbours decides the property of all pairs. */
  method IsSortedAndUniqueByCompare<T(!new)>(cmp: (T, T) -> int, s: seq<T>) returns (ok: bool)
    requires IsOrder(cmp)
    ensures ok <==> Ascending(cmp, s)
  {
    var i := 1;
    while i < |s|
      invariant 1 <= i && (|s| > 0 ==> i <= |s|)
      invariant forall k :: 0 < k < i && k < |s| ==> cmp(s[k - 1], s[k]) < 0
    {
      if cmp(s[i - 1], s[i]) >= 0 {
        return false;
      }
      i := i + 1;
    }
    forall p, q | 0 <= p < q < |s| ensures cmp(s[p], s[q]) < 0 {
      AdjacentIsEnough(cmp, s, p, q);
    }
    return true;
  }

  /** Sorting first makes the scan a duplicate check. */
  lemma AscendingIffDistinct(s: seq<ShortID>)
    ensures Ascending(CompareShortIDs, s) <==> Sorted(CompareShortIDs, s) && Distinct(s)
  {
    CompareIsOrder();
    if Ascending(CompareShortIDs, s) {
      forall i, j | 0 <= i < j < |s| ensures s[i] != s[j] {
        assert CompareShortIDs(s[i], s[j]) < 0;
      }
    }
  }

  /** A list is distinct exactly when no value occurs twice in it, so distinctness survives any reordering. */
  lemma DistinctIsOrderFree<T>(s: seq<T>, t: seq<T>)
    requires multiset(s) == multiset(t)
    requires Distinct(s)
    ensures Distinct(t)
  {
    forall i, j | 0 <= i < j < |t| ensures t[i] != t[j] {
      if t[i] == t[j] {
        var x := t[i];
        assert t == t[..j] + [t[j]] + t[j + 1..];
        assert t[..j] == t[..i] + [t[i]] + t[..j][i + 1..];
        assert multiset(t)[x] >= 2;
        OccursOnce(s, x);
      }
    }
  }

  lemma {:induction false} OccursOnce<T>(s: seq<T>, x: T)
    requires Distinct(s)
    ensures multiset(s)[x] <= 1
  {
    if s == [] {
    } else {
      assert s == [s[0]] + s[1..];
      if s[0] == x {
        assert x !in s[1..];
      } else {
        OccursOnce(s[1..], x);
      }
    }
  }

  /** One exchange of neighbours in sortShortIDs. */
  method SwapNeighbours(addrs: array<ShortID>, j: nat)
    requires 0 < j < addrs.Length
    modifies addrs
    ensures addrs[..] == Exchanged(old(addrs[..]), j)
    ensures multiset(addrs[..]) == old(multiset(addrs[..]))
  {
    addrs[j - 1], addrs[j] := addrs[j], addrs[j - 1];
  }

  /** The first n elements are in order, except that s[j] may be smaller than those before it. */
  ghost predicate SortedExcept(s: seq<ShortID>, n: nat, j: nat)
    requires n <= |s|
  {
    forall p, q :: 0 <= p < q < n && q != j ==> CompareShortIDs(s[p], s[q]) <= 0
  }

  ghost function Exchanged(s: seq<ShortID>, j: nat): seq<ShortID>
    requires 0 < j < |s|
  {
    s[j - 1 := s[j]][j := s[j - 1]]
  }

  lemma ExchangeKeepsOrder(s: seq<ShortID>, n: nat, j: nat)
    requires 0 < j < n <= |s|
    requires SortedExcept(s, n, j)
    requires CompareShortIDs(s[j - 1], s[j]) > 0
    ensures SortedExcept(Exchanged(s, j), n, j - 1)
  {
    CompareReverse(s[j - 1], s[j]);
  }

  lemma Settled(s: seq<ShortID>, n: nat, j: nat)
    requires j < n <= |s|
    requires SortedExcept(s, n, j)
    requires j > 0 ==> CompareShortIDs(s[j - 1], s[j]) <= 0
    ensures SortedExcept(s, n, n)
  {
    hide Compare;
    forall p, q | 0 <= p < q < n ensures CompareShortIDs(s[p], s[q]) <= 0 {
      if q == j && p < j - 1 {
        CompareTransitive(s[p], s[j - 1], s[j]);
      }
    }
  }

  /** The inner loop of sortShortIDs: addrs[i] sinks to its place among the first i addresses. */
  method Sink(addrs: array<ShortID>, i: nat)
    requires i < addrs.Length
    requires SortedExcept(addrs[..], i, i)
    modifies addrs
    ensures SortedExcept(addrs[..], i + 1, i + 1)
    ensures multiset(addrs[..]) == old(multiset(addrs[..]))
  {
    var j := i;
    while j > 0 && CompareShortIDs(addrs[j - 1], addrs[j]) > 0
      invariant 0 <= j <= i < addrs.Length
      invariant SortedExcept(addrs[..], i + 1, j)
      invariant multiset(addrs[..]) == old(multiset(addrs[..]))
    {
      ExchangeKeepsOrder(addrs[..], i + 1, j);
      SwapNeighbours(addrs, j);
      j := j - 1;
    }
    Settled(addrs[..], i + 1, j);
  }

  /** sortShortIDs: insertion sort in place. */
  method SortShortIDs(addrs: array<ShortID>)
    modifies addrs
    ensures Sorted(CompareShortIDs, addrs[..])
    ensures multiset(addrs[..]) == old(multiset(addrs[..]))
  {
    var i := 1;
    while i < addrs.Length
      invariant 1 <= i && (addrs.Length > 0 ==> i <= addrs.Length)
      invariant i <= addrs.Length ==> SortedExcept(addrs[..], i, i)
      invariant multiset(addrs[..]) == old(multiset(addrs[..]))
    {
      Sink(addrs, i);
      i := i + 1;
    }
  }

  /** After SortShortIDs the owner check accepts exactly the lists without duplicates. */
  method SortThenCheck(addrs: array<ShortID>) returns (ok: bool)
    modifies addrs
    ensures ok <==> Distinct(old(addrs[..]))
    ensures ok <==> Ascending(CompareShortIDs, addrs[..])
    ensures multiset(addrs[..]) == old(multiset(addrs[..]))
  {
    SortShortIDs(addrs);
    CompareIsOrder();
    ok := IsSortedAndUniqueByCompare(CompareShortIDs, addrs[..]);
    AscendingIffDistinct(addrs[..]);
    if Distinct(old(addrs[..])) {
      DistinctIsOrderFree(old(addrs[..]), addrs[..]);
    }
    if Distinct(addrs[..]) {
      DistinctIsOrderFree(addrs[..], old(addrs[..]));
    }
  }

  lemma {:induction false} DistinctSize<T>(s: seq<T>)
    requires Distinct(s)
    ensures |Elems(s)| == |s|
  {
    if s == [] {
    } else {
      DistinctSize(s[1..]);
      assert Elems(s) == {s[0]} + Elems(s[1..]);
      assert s[0] !in s[1..];
    }
  }

  lemma {:induction false} SubsetSize<T>(a: set<T>, b: set<T>)
    requires a <= b
    ensures |a| <= |b|
    decreases |a|
  {
    if a == {} {
    } else {
      var x :| x in a;
      SubsetSize(a - {x}, b - {x});
    }
  }
}
