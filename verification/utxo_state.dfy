/** The UTXO store: a cache with negative entries over a table, one ordered
    list of identifiers per address, and an XOR checksum of the stored identifiers. */
module UtxoState {
  import opened Bytes
  import opened Folds
  import opened Sorting
  import opened Utxo

  /** The derivation of a UTXO's identifier from its transaction and output index. */
  type Prefix = (ID, uint32) -> ID

  function InputID(prefix: Prefix, u: UTXO): ID {
    prefix(u.txID, u.outputIndex)
  }

  /** A snapshot of the store's fields. A None in the cache records a known absence. */
  datatype Store = Store(
    cache: map<ID, Option<UTXO>>,
    table: map<ID, UTXO>,
    index: map<Bytes, seq<ID>>,
    checksum: ID)

  /** The fixed parameters of a store. */
  datatype Config = Config(prefix: Prefix, trackChecksum: bool)

  datatype Op =
    | Get(id: ID)
    | Put(u: UTXO)
    | Delete(id: ID)
    | List(addr: Bytes, start: ID, limit: int)
    | Evict(keep: set<ID>)

  datatype Reply = Got(utxo: Option<UTXO>) | Listed(ids: seq<ID>) | Done | Refused

  // ----- index lists -----

  function ListOf(index: map<Bytes, seq<ID>>, addr: Bytes): seq<ID> {
    if addr in index then index[addr] else []
  }

  function Without(l: seq<ID>, id: ID): seq<ID> {
    if l == [] then []
    else if l[0] == id then l[1..]
    else [l[0]] + Without(l[1..], id)
  }

  /** Putting a key that is listed changes nothing; a new one enters at one place. */
  ghost predicate Inserted(l: seq<ID>, id: ID, l': seq<ID>) {
    if id in l then l' == l
    else exists k :: 0 <= k <= |l| && l' == InsertedAt(l, id, k)
  }

  function InsertedAt(l: seq<ID>, id: ID, k: nat): seq<ID>
    requires k <= |l|
  {
    l[..k] + [id] + l[k..]
  }

  /** Where the iterator starts: at start itself when it is listed, else at the head. */
  function From(l: seq<ID>, start: ID): seq<ID> {
    if start in l then l[Position(l, start)..] else l
  }

  function Position(l: seq<ID>, id: ID): (k: nat)
    requires id in l
    ensures k < |l| && l[k] == id && (forall i :: 0 <= i < k ==> l[i] != id)
  {
    if l[0] == id then 0 else 1 + Position(l[1..], id)
  }

  /** The listing loop: skip start, then collect until limit, forgetting start at the first hit. */
  function Collect(l: seq<ID>, start: ID, limit: int): seq<ID> {
    if l == [] || limit <= 0 then []
    else if l[0] == start then Collect(l[1..], start, limit)
    else [l[0]] + Collect(l[1..], EMPTY, limit - 1)
  }

  lemma CollectStep(l: seq<ID>, i: nat, start: ID, limit: int)
    requires i < |l| && limit > 0
    ensures Collect(l[i..], start, limit)
         == if l[i] == start then Collect(l[i + 1..], start, limit) else [l[i]] + Collect(l[i + 1..], EMPTY, limit - 1)
  {
    assert l[i..][1..] == l[i + 1..];
  }

  lemma CollectStops(l: seq<ID>, start: ID, limit: int)
    requires l == [] || limit <= 0
    ensures Collect(l, start, limit) == []
  {
  }

  /** The entries strictly after start, or all of them when start is not listed. */
  function After(l: seq<ID>, start: ID): seq<ID> {
    if start in l then l[Position(l, start) + 1..] else l
  }

  function Take<T>(s: seq<T>, limit: int): seq<T> {
    if limit <= 0 then [] else if limit <= |s| then s[..limit] else s
  }

  /** What an unlimited listing shows of the entries after the start: the zero
      identifier is passed over, unless it comes first. */
  function Visible(l: seq<ID>): seq<ID> {
    if l != [] && l[0] == EMPTY then l else Without(l, EMPTY)
  }

  function Shown(l: seq<ID>, start: ID): seq<ID> {
    Visible(After(l, start))
  }

  lemma TakeStep<T>(l: seq<T>, limit: int)
    requires l != [] && limit > 0
    ensures Take(l, limit) == [l[0]] + Take(l[1..], limit - 1)
  {
  }

  /** Once the start is forgotten, only the zero identifier is skipped. */
  lemma {:induction false} CollectAll(l: seq<ID>, limit: int)
    requires Distinct(l)
    ensures Collect(l, EMPTY, limit) == Take(Without(l, EMPTY), limit)
  {
    if l == [] || limit <= 0 {
    } else if l[0] == EMPTY {
      CollectAll(l[1..], limit);
      WithoutAbsent(l[1..], EMPTY);
    } else {
      CollectAll(l[1..], limit - 1);
      TakeStep([l[0]] + Without(l[1..], EMPTY), limit);
    }
  }

  lemma VisibleStep(l: seq<ID>)
    requires Distinct(l) && l != []
    ensures Visible(l) != [] && Visible(l)[0] == l[0] && Visible(l)[1..] == Without(l[1..], EMPTY)
  {
    hide Without, Distinct;
    WithoutStep(l, EMPTY);
    if l[0] == EMPTY {
      NotBehind(l, 0);
      WithoutAbsent(l[1..], EMPTY);
    } else {
      assert ([l[0]] + Without(l[1..], EMPTY))[1..] == Without(l[1..], EMPTY);
    }
  }

  lemma CollectFirst(l: seq<ID>, start: ID, limit: int)
    requires l != [] && limit > 0 && start != l[0]
    ensures Collect(l, start, limit) == [l[0]] + Collect(l[1..], EMPTY, limit - 1)
  {
  }

  lemma CollectAfter(l: seq<ID>, start: ID, limit: int)
    requires Distinct(l) && start !in l
    ensures Collect(l, start, limit) == Take(Visible(l), limit)
  {
    if l == [] || limit <= 0 {
    } else {
      assert start != l[0];
      RestDistinct(l);
      hide Collect, Distinct, Visible, Without, Take;
      CollectFirst(l, start, limit);
      CollectAll(l[1..], limit - 1);
      VisibleStep(l);
      TakeStep(Visible(l), limit);
    }
  }

  lemma AfterAt(l: seq<ID>, k: nat)
    requires Distinct(l) && k < |l|
    ensures After(l, l[k]) == l[k + 1..]
    ensures l[k] !in l[k + 1..]
    ensures From(l, l[k]) == [l[k]] + l[k + 1..]
  {
    assert Position(l, l[k]) == k;
  }

  lemma AfterIsSuffix(l: seq<ID>, start: ID) returns (q: nat)
    requires Distinct(l)
    ensures q <= |l| && After(l, start) == l[q..] && Distinct(l[q..]) && start !in l[q..]
  {
    q := 0;
    if start in l {
      q := Position(l, start) + 1;
      AfterAt(l, q - 1);
    }
  }

  /** A listing is the first part of what the list shows after the start, for all lists and starts. */
  lemma ListingIsShown(l: seq<ID>, start: ID, limit: int)
    requires Distinct(l)
    ensures Collect(From(l, start), start, limit) == Take(Shown(l, start), limit)
  {
    var q := AfterIsSuffix(l, start);
    CollectAfter(l[q..], start, limit);
    if start in l && limit > 0 {
      AfterAt(l, q - 1);
    }
  }

  lemma {:induction false} WithoutPrefix(l: seq<ID>, id: ID, limit: int)
    requires id !in Take(l, limit)
    ensures Take(Without(l, id), limit) == Take(l, limit)
  {
    if l == [] || limit <= 0 {
    } else {
      TakeStep(l, limit);
      WithoutPrefix(l[1..], id, limit - 1);
      TakeStep(Without(l, id), limit);
    }
  }

  /** A listing is the documented page of the list, the first entries after the
      start, exactly when the zero identifier is not among them behind the first. */
  lemma ListingIsPageIff(l: seq<ID>, start: ID, limit: int)
    requires Distinct(l)
    ensures var page := Take(After(l, start), limit);
            Collect(From(l, start), start, limit) == page <==> forall i :: 0 < i < |page| ==> page[i] != EMPTY
  {
    ListingIsShown(l, start, limit);
    var q := AfterIsSuffix(l, start);
    assert Shown(l, start) == Visible(l[q..]);
    hide Collect, From, After, Shown, Visible, Take, Distinct;
    VisiblePageIff(l[q..], limit);
  }

  lemma VisiblePageIff(m: seq<ID>, limit: int)
    requires Distinct(m)
    ensures var page := Take(m, limit);
            Take(Visible(m), limit) == page <==> forall i :: 0 < i < |page| ==> page[i] != EMPTY
  {
    var page := Take(m, limit);
    WithoutMembers(m, EMPTY);
    if page == [] || page[0] == EMPTY {
      assert Take(Visible(m), limit) == page;
    } else if EMPTY !in page {
      WithoutPrefix(m, EMPTY, limit);
    } else {
      hide Without;
      var i :| 0 <= i < |page| && page[i] == EMPTY;
      assert EMPTY !in Take(Visible(m), limit);
    }
  }

  /** Without a zero identifier after the start everything after it is shown. */
  lemma ShownIsAfter(l: seq<ID>, start: ID)
    requires EMPTY !in After(l, start)
    ensures Shown(l, start) == After(l, start)
  {
    WithoutAbsent(After(l, start), EMPTY);
  }

  lemma ShownDistinct(l: seq<ID>, start: ID)
    requires Distinct(l)
    ensures Distinct(Shown(l, start))
    ensures forall x :: x in Shown(l, start) ==> x in After(l, start)
    ensures forall x :: x in After(l, start) ==> x in l
  {
    var q := AfterIsSuffix(l, start);
    WithoutMembers(l[q..], EMPTY);
  }

  /** From the empty start, exactly what comes after the zero identifier is shown, or all when it is not listed. */
  lemma ShownFromStart(l: seq<ID>)
    requires Distinct(l)
    ensures EMPTY !in After(l, EMPTY) && Shown(l, EMPTY) == After(l, EMPTY)
  {
    var q := AfterIsSuffix(l, EMPTY);
    ShownIsAfter(l, EMPTY);
  }

  lemma WithoutStep(l: seq<ID>, id: ID)
    requires l != []
    ensures Without(l, id) == if l[0] == id then l[1..] else [l[0]] + Without(l[1..], id)
  {
  }

  lemma ConsStep<T>(x: T, s: seq<T>, j: nat)
    requires 0 < j <= |s|
    ensures ([x] + s)[j] == s[j - 1] && ([x] + s)[j + 1..] == s[j..]
  {
  }

  lemma {:induction false} WithoutTail(l: seq<ID>, id: ID, j: nat) returns (p: nat)
    requires Distinct(l) && l != [] && j < |Without(l, id)|
    ensures p < |l| && l[p] == Without(l, id)[j]
    ensures Without(l, id)[j + 1..] == Without(l[p + 1..], id)
  {
    hide Without, Distinct;
    WithoutStep(l, id);
    if l[0] == id {
      p := j + 1;
      SliceTwice(l, 1, j);
      NotBehind(l, p);
      WithoutAbsent(l[p + 1..], id);
    } else if j == 0 {
      p := 0;
      assert ([l[0]] + Without(l[1..], id))[1..] == Without(l[1..], id);
    } else {
      RestDistinct(l);
      ConsStep(l[0], Without(l[1..], id), j);
      WithoutNothing(id);
      var p' := WithoutTail(l[1..], id, j - 1);
      p := p' + 1;
      SliceTwice(l, 1, p');
    }
  }

  lemma RestDistinct(l: seq<ID>)
    requires Distinct(l) && l != []
    ensures Distinct(l[1..])
  {
  }

  lemma WithoutNothing(id: ID)
    ensures Without([], id) == []
  {
  }

  /** What is shown behind the j-th shown identifier. */
  lemma ShownTail(l: seq<ID>, start: ID, j: nat) returns (p: nat)
    requires Distinct(l) && j < |Shown(l, start)|
    ensures p < |l| && l[p] == Shown(l, start)[j]
    ensures Shown(l, start)[j + 1..] == Without(l[p + 1..], EMPTY)
  {
    hide After, Distinct, Without;
    var q := AfterIsSuffix(l, start);
    var m := l[q..];
    assert Shown(l, start) == Visible(m);
    hide Shown, Visible;
    p := VisibleTail(m, j);
    SliceTwice(l, q, p);
    p := q + p;
  }

  lemma SliceTwice<T>(l: seq<T>, q: nat, p: nat)
    requires q <= |l| && p < |l[q..]|
    ensures l[q..][p] == l[q + p] && l[q..][p + 1..] == l[q + p + 1..]
  {
  }

  lemma VisibleTail(m: seq<ID>, j: nat) returns (p: nat)
    requires Distinct(m) && j < |Visible(m)|
    ensures p < |m| && m[p] == Visible(m)[j]
    ensures Visible(m)[j + 1..] == Without(m[p + 1..], EMPTY)
  {
    hide Without, Distinct;
    WithoutNothing(EMPTY);
    if m[0] == EMPTY {
      assert Visible(m) == m;
      hide Visible;
      p := j;
      NotBehind(m, j);
      WithoutAbsent(m[j + 1..], EMPTY);
    } else {
      assert Visible(m) == Without(m, EMPTY);
      hide Visible;
      p := WithoutTail(m, EMPTY, j);
    }
  }

  lemma NotBehind(m: seq<ID>, j: nat)
    requires Distinct(m) && j < |m|
    ensures m[0] !in m[j + 1..]
  {
  }

  lemma VisibleIff(m: seq<ID>)
    requires Distinct(m)
    ensures Visible(m) == Without(m, EMPTY) <==> (m != [] ==> m[0] != EMPTY)
  {
    WithoutMembers(m, EMPTY);
  }

  /** Listing again from an identifier that was shown continues exactly where the
      listing stood, unless the zero identifier directly follows it in the list. */
  lemma ResumesIff(l: seq<ID>, start: ID, j: nat)
    requires Distinct(l) && j < |Shown(l, start)|
    ensures var next := After(l, Shown(l, start)[j]);
            Shown(l, Shown(l, start)[j]) == Shown(l, start)[j + 1..] <==> (next != [] ==> next[0] != EMPTY)
  {
    var p := ShownTail(l, start, j);
    AfterAt(l, p);
    VisibleIff(l[p + 1..]);
  }

  /** The zero identifier is what the listing loop uses for "no start": a
      list is read in full from the empty start exactly when it does not hold it. */
  lemma {:induction false} FullListingIff(l: seq<ID>)
    requires Distinct(l)
    ensures Collect(From(l, EMPTY), EMPTY, |l|) == l <==> EMPTY !in l
  {
    if EMPTY !in l {
      ListingIsPageIff(l, EMPTY, |l|);
    } else {
      NeverCollected(From(l, EMPTY), |l|);
    }
  }

  lemma {:induction false} NeverCollected(l: seq<ID>, limit: int)
    ensures EMPTY !in Collect(l, EMPTY, limit)
  {
    if l == [] || limit <= 0 {
    } else {
      NeverCollected(l[1..], limit);
      NeverCollected(l[1..], limit - 1);
    }
  }

  /** A page in plain terms: from a start that is not listed, the first limit entries of the list. */
  lemma PageFromHead(l: seq<ID>, start: ID, limit: nat)
    requires Distinct(l) && EMPTY !in l && start !in l
    ensures Collect(From(l, start), start, limit) == l[..if limit <= |l| then limit else |l|]
  {
    hide Collect, From, After, Distinct;
    AfterUnlisted(l, start);
    ListingIsPageIff(l, start, limit);
  }

  /** From a listed start, the first limit entries behind it. */
  lemma PageBehind(l: seq<ID>, k: nat, limit: nat)
    requires Distinct(l) && EMPTY !in l && k < |l|
    ensures Collect(From(l, l[k]), l[k], limit) == l[k + 1..if k + 1 + limit <= |l| then k + 1 + limit else |l|]
  {
    hide Collect, From, After, Distinct;
    AfterAt(l, k);
    ListingIsPageIff(l, l[k], limit);
  }

  // ----- the documented order -----

  ghost predicate AllGreater(ids: seq<ID>, start: ID) {
    forall i :: 0 <= i < |ids| ==> Compare(ids[i], start) > 0
  }

  ghost predicate InByteOrder(l: seq<ID>) {
    forall i, j :: 0 <= i < j < |l| ==> Compare(l[i], l[j]) < 0
  }

  /** Listing from this start returns identifiers greater than it only, as the reader's documentation promises. */
  ghost predicate ListsGreaterOnly(l: seq<ID>, start: ID, limit: int) {
    AllGreater(Collect(From(l, start), start, limit), start)
  }

  /** Every page shows the entry right behind the start, and nothing that is not behind it. */
  lemma PageBounds(l: seq<ID>, start: ID, limit: int)
    requires Distinct(l) && limit >= 1
    ensures var page, after := Collect(From(l, start), start, limit), After(l, start);
            && (forall x :: x in page ==> x in after)
            && (after != [] ==> page != [] && page[0] == after[0])
  {
    hide Collect, From, After, Distinct;
    ListingIsShown(l, start, limit);
    ShownDistinct(l, start);
    if After(l, start) != [] {
      WithoutStep(After(l, start), EMPTY);
      hide Without;
    }
  }

  lemma GreaterBehind(l: seq<ID>, k: nat)
    requires InByteOrder(l) && k < |l|
    ensures forall x :: x in l[k + 1..] ==> Compare(x, l[k]) > 0
  {
    forall j | k < j < |l| ensures Compare(l[j], l[k]) > 0 {
      CompareReverse(l[k], l[j]);
    }
  }

  lemma GreaterThanBelow(l: seq<ID>, start: ID)
    requires InByteOrder(l) && l != [] && Compare(start, l[0]) < 0
    ensures forall x :: x in l ==> Compare(x, start) > 0
  {
    forall j | 0 <= j < |l| ensures Compare(l[j], start) > 0 {
      CompareReverse(start, l[j]);
      if j > 0 {
        CompareTransitive(start, l[0], l[j]);
      }
    }
  }

  /** A start that is listed. */
  lemma KeptBehind(l: seq<ID>, start: ID, limit: int)
    requires Distinct(l) && InByteOrder(l) && limit >= 1 && start in l
    ensures ListsGreaterOnly(l, start, limit)
  {
    hide Collect, From, After, InByteOrder, Distinct, Compare;
    PageBounds(l, start, limit);
    AfterAt(l, Position(l, start));
    GreaterBehind(l, Position(l, start));
  }

  /** A start that is not listed, so that the listing begins at the head. */
  lemma KeptBelowIff(l: seq<ID>, start: ID, limit: int)
    requires Distinct(l) && InByteOrder(l) && limit >= 1 && start !in l && l != []
    ensures ListsGreaterOnly(l, start, limit) <==> Compare(start, l[0]) < 0
  {
    hide Collect, From, After, InByteOrder, Distinct, Compare;
    var page := Collect(From(l, start), start, limit);
    PageBounds(l, start, limit);
    AfterUnlisted(l, start);
    CompareReverse(start, l[0]);
    CompareZero(start, l[0]);
    if Compare(start, l[0]) < 0 {
      GreaterThanBelow(l, start);
      assert AllGreater(page, start);
    } else {
      assert page[0] == l[0] && !(Compare(page[0], start) > 0);
      assert !AllGreater(page, start);
    }
  }

  /** On a list in byte order the promise is kept for a start exactly when the
      start is listed or lies below the whole list: from any other start the
      listing begins at the head, with a smaller identifier. */
  lemma DocumentedOrderIff(l: seq<ID>, start: ID, limit: int)
    requires Distinct(l) && InByteOrder(l) && limit >= 1
    ensures ListsGreaterOnly(l, start, limit) <==> start in l || l == [] || Compare(start, l[0]) < 0
  {
    if start in l {
      KeptBehind(l, start, limit);
    } else if l == [] {
      assert Collect(From(l, start), start, limit) == [];
    } else {
      hide ListsGreaterOnly;
      KeptBelowIff(l, start, limit);
    }
  }

  lemma AfterUnlisted(l: seq<ID>, start: ID)
    requires start !in l
    ensures After(l, start) == l
  {
  }

  ghost predicate KeptForListed(l: seq<ID>, limit: int) {
    forall k :: 0 <= k < |l| ==> ListsGreaterOnly(l, l[k], limit)
  }

  /** The promise is kept for every listed start exactly when the list is in byte order. */
  lemma ListedStartsIff(l: seq<ID>, limit: int)
    requires Distinct(l) && limit >= 1
    ensures KeptForListed(l, limit) <==> InByteOrder(l)
  {
    hide Collect, From;
    if InByteOrder(l) {
      forall k | 0 <= k < |l| ensures ListsGreaterOnly(l, l[k], limit) {
        DocumentedOrderIff(l, l[k], limit);
      }
    } else if KeptForListed(l, limit) {
      forall k | 0 < k < |l| ensures Compare(l[k - 1], l[k]) < 0 {
        NextIsGreater(l, k - 1, limit);
      }
      BytesAreOrdered();
      forall i, j | 0 <= i < j < |l| ensures Compare(l[i], l[j]) < 0 {
        AdjacentIsEnough<Bytes>(Compare, l, i, j);
      }
    }
  }

  lemma NextIsGreater(l: seq<ID>, k: nat, limit: int)
    requires Distinct(l) && limit >= 1 && k + 1 < |l|
    requires ListsGreaterOnly(l, l[k], limit)
    ensures Compare(l[k], l[k + 1]) < 0
  {
    AfterAt(l, k);
    PageBounds(l, l[k], limit);
    CompareReverse(l[k], l[k + 1]);
  }

  /** A listed start from which a page returns a smaller identifier: the list is not in byte order. */
  lemma SmallerIDListed(low: ID, high: ID, limit: int)
    requires low != EMPTY && Compare(low, high) < 0 && limit >= 1
    ensures Collect(From([high, low], high), high, limit) == [low]
  {
    CompareZero(low, high);
    var l := [high, low];
    assert l[1..] == [low] && l[2..] == [];
    AfterAt(l, 0);
    ListingIsPageIff(l, high, limit);
  }

  /** A start that is not listed, from which a page of a list in byte order returns a smaller identifier. */
  lemma SmallerIDFromUnlisted(low: ID, mid: ID, high: ID, limit: int)
    requires Compare(low, mid) < 0 && Compare(mid, high) < 0 && limit >= 2 && high != EMPTY
    ensures InByteOrder([low, high])
    ensures Collect(From([low, high], mid), mid, limit) == [low, high]
  {
    CompareZero(low, mid);
    CompareZero(mid, high);
    CompareTransitive(low, mid, high);
    CompareZero(low, high);
    ListingIsPageIff([low, high], mid, limit);
  }

  // ----- one step -----

  /** What the cache answers, or the table when the cache is silent. */
  function Find(s: Store, id: ID): Option<UTXO> {
    if id in s.cache then s.cache[id] else Lookup(s.table, id)
  }

  function Lookup(table: map<ID, UTXO>, id: ID): Option<UTXO> {
    if id in table then Some(table[id]) else None
  }

  /** The cache may lose any entries at any time. */
  ghost predicate CacheWithin(c: map<ID, Option<UTXO>>, bound: map<ID, Option<UTXO>>) {
    forall id :: id in c ==> id in bound && c[id] == bound[id]
  }

  ghost predicate IndexAdds(index: map<Bytes, seq<ID>>, addrs: set<Bytes>, id: ID, index': map<Bytes, seq<ID>>) {
    forall a :: if a in addrs then Inserted(ListOf(index, a), id, ListOf(index', a))
                else ListOf(index', a) == ListOf(index, a)
  }

  ghost predicate IndexDrops(index: map<Bytes, seq<ID>>, addrs: set<Bytes>, id: ID, index': map<Bytes, seq<ID>>) {
    forall a :: ListOf(index', a) == if a in addrs then Without(ListOf(index, a), id) else ListOf(index, a)
  }

  function Toggle(config: Config, checksum: ID, id: ID): ID {
    if config.trackChecksum then Xor(checksum, id) else checksum
  }

  /** The effect of one call on the fields. */
  ghost predicate Next(config: Config, s: Store, op: Op, s': Store, reply: Reply) {
    match op
    case Get(id) =>
      && reply == Got(Find(s, id))
      && s' == s.(cache := s'.cache)
      && CacheWithin(s'.cache, s.cache[id := Find(s, id)])
    case Put(u) =>
      if u.out.wire.None? then
        reply == Refused && s' == s
      else
        var id := InputID(config.prefix, u);
        && reply == Done
        && s'.table == s.table[id := u]
        && s'.checksum == Toggle(config, s.checksum, id)
        && IndexAdds(s.index, IndexedUnder(u), id, s'.index)
        && CacheWithin(s'.cache, s.cache[id := Some(u)])
    case Delete(id) =>
      && reply == Done
      && (match Find(s, id)
          case None =>
            s' == s.(cache := s'.cache) && CacheWithin(s'.cache, s.cache[id := None])
          case Some(u) =>
            && s'.table == s.table - {id}
            && s'.checksum == Toggle(config, s.checksum, id)
            && IndexDrops(s.index, IndexedUnder(u), id, s'.index)
            && CacheWithin(s'.cache, s.cache[id := None]))
    case List(addr, start, limit) =>
      reply == Listed(Collect(From(ListOf(s.index, addr), start), start, limit)) && s' == s
    case Evict(keep) =>
      && reply == Done
      && s' == s.(cache := s'.cache)
      && CacheWithin(s'.cache, s.cache)
  }

  // ----- invariants -----

  /** Kept by every call. */
  ghost predicate Coherent(s: Store) {
    && (forall id :: id in s.cache ==> s.cache[id] == Lookup(s.table, id))
    && (forall a :: Distinct(ListOf(s.index, a)))
  }

  ghost predicate IndexExact(s: Store) {
    forall a, id :: id in ListOf(s.index, a) <==> id in s.table && a in IndexedUnder(s.table[id])
  }

  ghost predicate ChecksumExact(config: Config, s: Store) {
    s.checksum == if config.trackChecksum then XorSet(s.table.Keys) else EMPTY
  }

  ghost predicate Invariant(config: Config, s: Store) {
    Coherent(s) && IndexExact(s) && ChecksumExact(config, s)
  }

  /** A put is fresh when nothing is stored under its identifier. */
  predicate Fresh(config: Config, table: map<ID, UTXO>, op: Op) {
    op.Put? ==> InputID(config.prefix, op.u) !in table
  }

  /** The store's meaning: the same call on a plain map. */
  function Plain(config: Config, table: map<ID, UTXO>, op: Op): map<ID, UTXO> {
    match op
    case Put(u) => if u.out.wire.None? then table else table[InputID(config.prefix, u) := u]
    case Delete(id) => table - {id}
    case _ => table
  }

  lemma {:induction false} WithoutMembers(l: seq<ID>, id: ID)
    requires Distinct(l)
    ensures Distinct(Without(l, id))
    ensures forall x :: x in Without(l, id) <==> x in l && x != id
  {
    if l == [] {
    } else {
      assert l == [l[0]] + l[1..];
      assert Distinct(l[1..]) && l[0] !in l[1..];
      WithoutMembers(l[1..], id);
    }
  }

  lemma InsertedAtMembers(l: seq<ID>, id: ID, k: nat)
    requires Distinct(l) && id !in l && k <= |l|
    ensures Distinct(InsertedAt(l, id, k))
    ensures forall x :: x in InsertedAt(l, id, k) <==> x in l || x == id
  {
    var l' := InsertedAt(l, id, k);
    forall i, j | 0 <= i < j < |l'| ensures l'[i] != l'[j] {
      assert l'[i] == if i < k then l[i] else if i == k then id else l[i - 1];
      assert l'[j] == if j < k then l[j] else if j == k then id else l[j - 1];
    }
    assert l == l[..k] + l[k..];
  }

  lemma InsertedMembers(l: seq<ID>, id: ID, l': seq<ID>)
    requires Distinct(l) && Inserted(l, id, l')
    ensures Distinct(l')
    ensures forall x :: x in l' <==> x in l || x == id
  {
    if id !in l {
      var k :| 0 <= k <= |l| && l' == InsertedAt(l, id, k);
      InsertedAtMembers(l, id, k);
    }
  }

  /** Removing an entry keeps the order of the others. */
  lemma {:induction false} WithoutJoins(before: seq<ID>, id: ID, after: seq<ID>)
    requires id !in before
    ensures Without(before + [id] + after, id) == before + after
  {
    var l := before + [id] + after;
    if before == [] {
      assert l == [id] + after && l[1..] == after;
    } else {
      assert l[0] == before[0] && l[1..] == before[1..] + [id] + after;
      WithoutJoins(before[1..], id, after);
      assert [before[0]] + (before[1..] + after) == before + after;
    }
  }

  /** A put of a new key keeps the order of the others: taking the key out again gives back the list. */
  lemma InsertedUndone(l: seq<ID>, id: ID, l': seq<ID>)
    requires id !in l && Inserted(l, id, l')
    ensures Without(l', id) == l
  {
    hide Without;
    var k :| 0 <= k <= |l| && l' == InsertedAt(l, id, k);
    WithoutJoins(l[..k], id, l[k..]);
    assert l[..k] + l[k..] == l;
  }

  lemma PutLists(config: Config, s: Store, u: UTXO, s': Store, reply: Reply, a: Bytes)
    requires Coherent(s) && Next(config, s, Put(u), s', reply) && reply.Done?
    ensures Distinct(ListOf(s'.index, a))
    ensures forall x :: x in ListOf(s'.index, a) <==>
              x in ListOf(s.index, a) || (x == InputID(config.prefix, u) && a in IndexedUnder(u))
  {
    if a in IndexedUnder(u) {
      InsertedMembers(ListOf(s.index, a), InputID(config.prefix, u), ListOf(s'.index, a));
    }
  }

  /** Every call keeps the cache honest and acts as the plain map does, so a lookup is a plain map lookup. */
  lemma CallsAreCoherent(config: Config, s: Store, op: Op, s': Store, reply: Reply)
    requires Coherent(s) && Next(config, s, op, s', reply)
    ensures Coherent(s')
    ensures s'.table == Plain(config, s.table, op)
    ensures op.Get? ==> reply == Got(Lookup(s.table, op.id))
  {
    match op {
      case Put(u) =>
        if reply.Done? {
          forall a ensures Distinct(ListOf(s'.index, a)) {
            PutLists(config, s, u, s', reply, a);
          }
        }
      case Delete(id) =>
        forall a ensures Distinct(ListOf(s'.index, a)) {
          WithoutMembers(ListOf(s.index, a), id);
        }
      case _ =>
    }
  }

  /** What a put does, in plain terms: the UTXO is stored under the identifier
      of its transaction and output index, the checksum toggles, and the
      identifier enters the lists of all its output's addresses, and no other. */
  lemma PutInPlainTerms(config: Config, s: Store, u: UTXO, s': Store, reply: Reply)
    requires Coherent(s) && Next(config, s, Put(u), s', reply)
    ensures u.out.wire.None? ==> reply == Refused && s' == s
    ensures u.out.wire.Some? ==>
              var id := config.prefix(u.txID, u.outputIndex);
              && reply == Done
              && s'.table == s.table[id := u]
              && s'.checksum == (if config.trackChecksum then Xor(s.checksum, id) else s.checksum)
              && (u.out.addresses.Some? ==>
                    && (forall i :: 0 <= i < |u.out.addresses.value| ==>
                          id in ListOf(s'.index, u.out.addresses.value[i]))
                    && (forall a :: a !in u.out.addresses.value ==> ListOf(s'.index, a) == ListOf(s.index, a)))
              && (u.out.addresses.None? ==> forall a :: ListOf(s'.index, a) == ListOf(s.index, a))
              && (forall a, x :: x != id ==> (x in ListOf(s'.index, a) <==> x in ListOf(s.index, a)))
  {
    if u.out.wire.Some? {
      forall a ensures forall x :: x in ListOf(s'.index, a) <==>
                         x in ListOf(s.index, a) || (x == InputID(config.prefix, u) && a in IndexedUnder(u))
      {
        PutLists(config, s, u, s', reply, a);
      }
    }
  }

  /** What a delete does, in plain terms: nothing but forgetting when the
      identifier is absent; otherwise the UTXO is gone, the checksum toggles, and
      the identifier leaves the lists of all its output's addresses, and no other. */
  lemma DeleteInPlainTerms(config: Config, s: Store, id: ID, s': Store, reply: Reply)
    requires Coherent(s) && Next(config, s, Delete(id), s', reply)
    ensures reply == Done
    ensures id !in s.table ==> s'.table == s.table && s'.index == s.index && s'.checksum == s.checksum
    ensures id in s.table ==>
              var out := s.table[id].out;
              && s'.table == s.table - {id}
              && s'.checksum == (if config.trackChecksum then Xor(s.checksum, id) else s.checksum)
              && (out.addresses.Some? ==>
                    && (forall i :: 0 <= i < |out.addresses.value| ==> id !in ListOf(s'.index, out.addresses.value[i]))
                    && (forall a :: a !in out.addresses.value ==> ListOf(s'.index, a) == ListOf(s.index, a)))
              && (out.addresses.None? ==> forall a :: ListOf(s'.index, a) == ListOf(s.index, a))
              && (forall a, x :: x != id ==> (x in ListOf(s'.index, a) <==> x in ListOf(s.index, a)))
  {
    if id in s.table {
      assert Find(s, id) == Some(s.table[id]);
      forall a ensures forall x :: x in ListOf(s'.index, a) <==>
                         x in ListOf(s.index, a) && !(x == id && a in IndexedUnder(s.table[id]))
      {
        WithoutMembers(ListOf(s.index, a), id);
      }
    } else {
      assert Find(s, id) == None;
    }
  }

  /** An exact index, in plain terms: an identifier is listed under an address
      exactly when it is stored and its output names that address among its addresses. */
  lemma IndexInPlainTerms(s: Store)
    ensures IndexExact(s) <==>
              forall a, id :: id in ListOf(s.index, a) <==>
                && id in s.table && s.table[id].out.addresses.Some?
                && a in s.table[id].out.addresses.value
  {
    forall u: UTXO, a: Bytes
      ensures a in IndexedUnder(u) <==> u.out.addresses.Some? && a in u.out.addresses.value
    {
    }
  }

  /** Every call keeps index and checksum exact, as long as puts are fresh. */
  lemma FreshCallsKeepInvariant(config: Config, s: Store, op: Op, s': Store, reply: Reply)
    requires Invariant(config, s) && Next(config, s, op, s', reply)
    requires Fresh(config, s.table, op)
    ensures Invariant(config, s')
  {
    CallsAreCoherent(config, s, op, s', reply);
    match op {
      case Put(u) =>
        if reply.Done? {
          PutKeepsIndexIff(config, s, u, s', reply);
          PutKeepsChecksumIff(config, s, u, s', reply);
        }
      case Delete(id) =>
        if Find(s, id).Some? {
          forall a ensures forall x :: x in ListOf(s'.index, a) <==> x in ListOf(s.index, a) && x != id {
            WithoutMembers(ListOf(s.index, a), id);
          }
          XorRemove(s.table.Keys, id);
          assert s'.table.Keys == s.table.Keys - {id};
        }
      case _ =>
    }
  }

  /** A put leaves stale index entries behind exactly when it replaces a UTXO some of whose
      addresses the new one lacks. */
  lemma PutKeepsIndexIff(config: Config, s: Store, u: UTXO, s': Store, reply: Reply)
    requires Coherent(s) && IndexExact(s) && Next(config, s, Put(u), s', reply) && reply.Done?
    ensures var id := InputID(config.prefix, u);
            IndexExact(s') <==> (id in s.table ==> IndexedUnder(s.table[id]) <= IndexedUnder(u))
  {
    var id := InputID(config.prefix, u);
    forall a
      ensures forall x :: x in ListOf(s'.index, a) <==>
                x in ListOf(s.index, a) || (x == id && a in IndexedUnder(u))
    {
      PutLists(config, s, u, s', reply, a);
    }
    if id in s.table && !(IndexedUnder(s.table[id]) <= IndexedUnder(u)) {
      var a :| a in IndexedUnder(s.table[id]) && a !in IndexedUnder(u);
      assert id in ListOf(s.index, a) && id in ListOf(s'.index, a);
      assert s'.table[id] == u;
    } else {
      forall a, x ensures x in ListOf(s'.index, a) <==> x in s'.table && a in IndexedUnder(s'.table[x]) {
        assert x in ListOf(s.index, a) <==> x in s.table && a in IndexedUnder(s.table[x]);
      }
    }
  }

  /** A tracked checksum survives a put exactly when the identifier is new (or is the zero identifier). */
  lemma PutKeepsChecksumIff(config: Config, s: Store, u: UTXO, s': Store, reply: Reply)
    requires ChecksumExact(config, s) && Next(config, s, Put(u), s', reply) && reply.Done?
    ensures var id := InputID(config.prefix, u);
            ChecksumExact(config, s') <==> !config.trackChecksum || id !in s.table || id == EMPTY
  {
    var id := InputID(config.prefix, u);
    if id !in s.table {
      XorAdd(s.table.Keys, id);
      assert s'.table.Keys == s.table.Keys + {id};
    } else {
      assert s'.table.Keys == s.table.Keys;
      XorEmpty(s.checksum);
      XorSelf(s.checksum, id);
      XorSelf(s.checksum, EMPTY);
    }
  }

  // ----- whole runs -----

  /** A history: each state follows from the one before by its call. */
  ghost predicate History(config: Config, ss: seq<Store>, ops: seq<Op>, replies: seq<Reply>) {
    && |ss| == |ops| + 1 && |replies| == |ops|
    && forall i :: 0 <= i < |ops| ==> Next(config, ss[i], ops[i], ss[i + 1], replies[i])
  }

  function PlainRun(config: Config, table: map<ID, UTXO>, ops: seq<Op>): map<ID, UTXO> {
    if ops == [] then table
    else Plain(config, PlainRun(config, table, ops[..|ops| - 1]), ops[|ops| - 1])
  }

  lemma {:induction false} RunTo(config: Config, ss: seq<Store>, ops: seq<Op>, replies: seq<Reply>, n: nat)
    requires History(config, ss, ops, replies) && Coherent(ss[0]) && n <= |ops|
    ensures Coherent(ss[n]) && ss[n].table == PlainRun(config, ss[0].table, ops[..n])
  {
    if n == 0 {
    } else {
      RunTo(config, ss, ops, replies, n - 1);
      assert Next(config, ss[n - 1], ops[n - 1], ss[n - 1 + 1], replies[n - 1]);
      CallsAreCoherent(config, ss[n - 1], ops[n - 1], ss[n], replies[n - 1]);
      assert ops[..n][..n - 1] == ops[..n - 1];
    }
  }

  lemma {:induction false} FreshRunTo(config: Config, ss: seq<Store>, ops: seq<Op>, replies: seq<Reply>, n: nat)
    requires History(config, ss, ops, replies) && Invariant(config, ss[0]) && n <= |ops|
    requires forall i :: 0 <= i < n ==> Fresh(config, ss[i].table, ops[i])
    ensures Invariant(config, ss[n])
  {
    if n == 0 {
    } else {
      FreshRunTo(config, ss, ops, replies, n - 1);
      assert Next(config, ss[n - 1], ops[n - 1], ss[n - 1 + 1], replies[n - 1]);
      FreshCallsKeepInvariant(config, ss[n - 1], ops[n - 1], ss[n], replies[n - 1]);
    }
  }

  /** At every point of every history of calls and evictions, the store holds
      what a plain map would hold, a lookup answers what that map answers, and
      if all puts so far were fresh the index and the checksum are exact. */
  lemma HistoryRefinesPlainMap(config: Config, ss: seq<Store>, ops: seq<Op>, replies: seq<Reply>, n: nat)
    requires History(config, ss, ops, replies)
    requires Invariant(config, ss[0])
    requires n <= |ops|
    ensures Coherent(ss[n])
    ensures ss[n].table == PlainRun(config, ss[0].table, ops[..n])
    ensures n < |ops| && ops[n].Get? ==> replies[n] == Got(Lookup(PlainRun(config, ss[0].table, ops[..n]), ops[n].id))
    ensures (forall i :: 0 <= i < n ==> Fresh(config, PlainRun(config, ss[0].table, ops[..i]), ops[i]))
              ==> Invariant(config, ss[n])
  {
    RunTo(config, ss, ops, replies, n);
    if n < |ops| {
      assert Next(config, ss[n], ops[n], ss[n + 1], replies[n]);
      CallsAreCoherent(config, ss[n], ops[n], ss[n + 1], replies[n]);
    }
    if forall i :: 0 <= i < n ==> Fresh(config, PlainRun(config, ss[0].table, ops[..i]), ops[i]) {
      forall i | 0 <= i < n ensures Fresh(config, ss[i].table, ops[i]) {
        RunTo(config, ss, ops, replies, i);
      }
      FreshRunTo(config, ss, ops, replies, n);
    }
  }

  // ----- the object -----

  class UtxoState {
    var utxoCache: map<ID, Option<UTXO>>
    var utxoDB: map<ID, UTXO>
    var indexDB: map<Bytes, seq<ID>>
    var checksum: ID
    const config: Config

    ghost function View(): Store
      reads this
    {
      Store(utxoCache, utxoDB, indexDB, checksum)
    }

    /** NewUTXOState over an existing database; iterated is the order in which its table is walked. */
    constructor (config: Config, table: map<ID, UTXO>, index: map<Bytes, seq<ID>>, iterated: seq<ID>)
      requires Distinct(iterated) && table.Keys == Elems(iterated)
      ensures this.config == config
      ensures View() == Store(map[], table, index, if config.trackChecksum then XorSet(table.Keys) else EMPTY)
    {
      this.config := config;
      utxoCache, utxoDB, indexDB, checksum := map[], table, index, EMPTY;
      new;
      InitChecksum(iterated);
    }

    /** initChecksum */
    method InitChecksum(iterated: seq<ID>)
      requires Distinct(iterated)
      requires checksum == EMPTY
      modifies this`checksum
      ensures checksum == if config.trackChecksum then XorSet(Elems(iterated)) else EMPTY
    {
      if !config.trackChecksum {
        return;
      }
      hide XorSet, Elems, Distinct, Xor;
      XorOfNone();
      assert iterated[..0] == [];
      var i := 0;
      while i < |iterated|
        invariant i <= |iterated|
        invariant checksum == XorSet(Elems(iterated[..i]))
      {
        assert iterated[..i + 1] == iterated[..i] + [iterated[i]];
        ElemsSnoc(iterated[..i], iterated[i]);
        NotAmong(iterated, i);
        XorAdd(Elems(iterated[..i]), iterated[i]);
        UpdateChecksum(iterated[i]);
        i := i + 1;
      }
      assert iterated[..i] == iterated;
    }

    method UpdateChecksum(modifiedID: ID)
      modifies this`checksum
      ensures checksum == Toggle(config, old(checksum), modifiedID)
    {
      if config.trackChecksum {
        checksum := Xor(checksum, modifiedID);
      }
    }

    /** The cache loses all but some of the kept entries. */
    method EvictCache(keep: set<ID>)
      modifies this`utxoCache
      ensures Next(config, old(View()), Evict(keep), View(), Done)
      ensures utxoCache.Keys <= keep
    {
      utxoCache := map id | id in utxoCache && id in keep :: utxoCache[id];
    }

    /** cache.Put, which may push out any entries. */
    method CachePut(id: ID, u: Option<UTXO>)
      modifies this`utxoCache
      ensures CacheWithin(utxoCache, old(utxoCache)[id := u])
    {
      utxoCache := utxoCache[id := u];
      var keep: set<ID> := *;
      EvictCache(keep);
    }

    method GetUTXO(utxoID: ID) returns (r: Option<UTXO>)
      modifies this`utxoCache
      ensures Next(config, old(View()), Get(utxoID), View(), Got(r))
      ensures old(Coherent(View())) ==> Coherent(View()) && r == Lookup(utxoDB, utxoID)
      ensures old(Coherent(View())) ==> r == if utxoID in utxoDB then Some(utxoDB[utxoID]) else None
    {
      if utxoID in utxoCache {
        return utxoCache[utxoID];
      }
      if utxoID !in utxoDB {
        CachePut(utxoID, None);
        return None;
      }
      r := Some(utxoDB[utxoID]);
      CachePut(utxoID, r);
    }

    /** Some implementation of the list's Put: the place of a new key is up to the list. */
    method IndexPut(addr: Bytes, id: ID)
      modifies this`indexDB
      ensures Inserted(ListOf(old(indexDB), addr), id, ListOf(indexDB, addr))
      ensures forall a :: a != addr ==> ListOf(indexDB, a) == ListOf(old(indexDB), a)
    {
      var l := ListOf(indexDB, addr);
      if id !in l {
        var k :| 0 <= k <= |l|;
        indexDB := indexDB[addr := InsertedAt(l, id, k)];
      }
    }

    method IndexDelete(addr: Bytes, id: ID)
      modifies this`indexDB
      ensures ListOf(indexDB, addr) == Without(ListOf(old(indexDB), addr), id)
      ensures forall a :: a != addr ==> ListOf(indexDB, a) == ListOf(old(indexDB), a)
    {
      indexDB := indexDB[addr := Without(ListOf(indexDB, addr), id)];
    }

    /** Put id into the list of each address. */
    method IndexAll(addresses: seq<Bytes>, id: ID)
      requires forall a :: Distinct(ListOf(indexDB, a))
      modifies this`indexDB
      ensures IndexAdds(old(indexDB), Elems(addresses), id, indexDB)
    {
      ghost var index := indexDB;
      var i := 0;
      while i < |addresses|
        invariant i <= |addresses|
        invariant IndexAdds(index, Elems(addresses[..i]), id, indexDB)
      {
        ghost var l := ListOf(indexDB, addresses[i]);
        assert addresses[..i + 1] == addresses[..i] + [addresses[i]];
        ElemsSnoc(addresses[..i], addresses[i]);
        IndexPut(addresses[i], id);
        if addresses[i] in Elems(addresses[..i]) {
          InsertedMembers(ListOf(index, addresses[i]), id, l);
        }
        i := i + 1;
      }
      assert addresses[..i] == addresses;
    }

    /** Remove id from the list of each address. */
    method UnindexAll(addresses: seq<Bytes>, id: ID)
      requires forall a :: Distinct(ListOf(indexDB, a))
      modifies this`indexDB
      ensures IndexDrops(old(indexDB), Elems(addresses), id, indexDB)
    {
      ghost var index := indexDB;
      var i := 0;
      while i < |addresses|
        invariant i <= |addresses|
        invariant IndexDrops(index, Elems(addresses[..i]), id, indexDB)
      {
        hide IndexDrops, ListOf, Elems, Without;
        assert addresses[..i + 1] == addresses[..i] + [addresses[i]];
        ElemsSnoc(addresses[..i], addresses[i]);
        ghost var before := indexDB;
        IndexDelete(addresses[i], id);
        DropsOneMore(index, Elems(addresses[..i]), id, before, addresses[i], indexDB);
        i := i + 1;
      }
      assert addresses[..i] == addresses;
    }

    method PutUTXO(u: UTXO) returns (reply: Reply)
      requires Coherent(View())
      modifies this
      ensures Next(config, old(View()), Put(u), View(), reply)
      ensures Coherent(View())
    {
      ghost var s := View();
      if u.out.wire.None? {
        return Refused;
      }
      var utxoID := InputID(config.prefix, u);
      UpdateChecksum(utxoID);
      CachePut(utxoID, Some(u));
      utxoDB := utxoDB[utxoID := u];
      if u.out.addresses.Some? {
        IndexAll(u.out.addresses.value, utxoID);
      }
      reply := Done;
      CallsAreCoherent(config, s, Put(u), View(), reply);
    }

    method DeleteUTXO(utxoID: ID) returns (reply: Reply)
      requires Coherent(View())
      modifies this
      ensures Next(config, old(View()), Delete(utxoID), View(), reply)
      ensures Coherent(View())
    {
      ghost var s := View();
      var got := GetUTXO(utxoID);
      if got.None? {
        return Done;
      }
      UpdateChecksum(utxoID);
      CachePut(utxoID, None);
      utxoDB := utxoDB - {utxoID};
      if got.value.out.addresses.Some? {
        UnindexAll(got.value.out.addresses.value, utxoID);
      }
      reply := Done;
      CallsAreCoherent(config, s, Delete(utxoID), View(), reply);
    }

    method UTXOIDs(addr: Bytes, start: ID, limit: int) returns (utxoIDs: seq<ID>)
      ensures Next(config, View(), List(addr, start, limit), View(), Listed(utxoIDs))
    {
      hide From, ListOf, Zeros, Collect;
      var iter := From(ListOf(indexDB, addr), start);
      var s := start;
      utxoIDs := [];
      var i := 0;
      assert iter[i..] == iter;
      while |utxoIDs| < limit && i < |iter|
        invariant i <= |iter|
        invariant utxoIDs + Collect(iter[i..], s, limit - |utxoIDs|) == Collect(iter, start, limit)
        decreases |iter| - i
      {
        CollectStep(iter, i, s, limit - |utxoIDs|);
        var utxoID := iter[i];
        i := i + 1;
        if utxoID != s {
          s := EMPTY;
          utxoIDs := utxoIDs + [utxoID];
        }
      }
      CollectStops(iter[i..], s, limit - |utxoIDs|);
    }
  }

  lemma NotAmong(s: seq<ID>, i: nat)
    requires Distinct(s) && i < |s|
    ensures s[i] !in Elems(s[..i])
  {
  }

  lemma XorOfNone()
    ensures XorSet(Elems([])) == EMPTY
  {
    assert Elems<ID>([]) == {};
  }

  lemma DropsOneMore(index: map<Bytes, seq<ID>>, addrs: set<Bytes>, id: ID, before: map<Bytes, seq<ID>>, addr: Bytes,
                     after: map<Bytes, seq<ID>>)
    requires IndexDrops(index, addrs, id, before) && Distinct(ListOf(index, addr))
    requires ListOf(after, addr) == Without(ListOf(before, addr), id)
    requires forall a :: a != addr ==> ListOf(after, a) == ListOf(before, a)
    ensures IndexDrops(index, addrs + {addr}, id, after)
  {
    hide ListOf, Without;
    WithoutTwice(ListOf(index, addr), id);
  }

  lemma WithoutTwice(l: seq<ID>, id: ID)
    requires Distinct(l)
    ensures Without(Without(l, id), id) == Without(l, id)
  {
    WithoutMembers(l, id);
    WithoutAbsent(Without(l, id), id);
  }

  lemma {:induction false} WithoutAbsent(l: seq<ID>, id: ID)
    requires id !in l
    ensures Without(l, id) == l
  {
    if l == [] {
    } else {
      WithoutAbsent(l[1..], id);
      assert l == [l[0]] + l[1..];
    }
  }

  /** Closing and reopening: the checksum rebuilt from the table is the tracked one. */
  method Reopen(s: UtxoState, iterated: seq<ID>) returns (s': UtxoState)
    requires Invariant(s.config, s.View())
    requires Distinct(iterated) && s.utxoDB.Keys == Elems(iterated)
    ensures fresh(s') && s'.config == s.config
    ensures s'.View() == s.View().(cache := map[])
    ensures Invariant(s'.config, s'.View())
  {
    s' := new UtxoState(s.config, s.utxoDB, s.indexDB, iterated);
  }
}
