/** The cursor-paginated reader over the store, and the balance of a set of addresses. */
module UtxoFetching {
  import opened Bytes
  import opened Folds
  import opened Sorting
  import opened Utxo
  import opened UtxoState

  /** The last address searched and the last identifier searched in its list. */
  datatype Cursor = Cursor(addr: ShortID, id: ID)

  datatype Page = Page(utxos: seq<UTXO>, cursor: Cursor)

  datatype FetchError = CouldNotGet(id: ID) | Overflow

  const START := Cursor(SHORT_EMPTY, EMPTY)

  // ----- what a page is -----

  /** The entries of one address list that lie after the cursor. */
  function Entries(index: map<Bytes, seq<ID>>, addr: ShortID, c: Cursor): seq<ID> {
    if Compare(addr, c.addr) < 0 then [] else Shown(ListOf(index, addr), StartFor(addr, c))
  }

  /** Where the listing of an address starts: at the cursor's identifier for its own address, else at the head. */
  function StartFor(addr: ShortID, c: Cursor): ID {
    if Compare(addr, c.addr) == 0 then c.id else EMPTY
  }

  /** Everything after the cursor, address by address. */
  function Remaining(index: map<Bytes, seq<ID>>, addrs: seq<ShortID>, c: Cursor): seq<ID> {
    if addrs == [] then [] else Entries(index, addrs[0], c) + Remaining(index, addrs[1..], c)
  }

  /** First occurrences only. */
  function Dedup(s: seq<ID>): seq<ID> {
    if s == [] then []
    else
      var d := Dedup(s[..|s| - 1]);
      if s[|s| - 1] in d then d else d + [s[|s| - 1]]
  }

  lemma {:induction false} DedupMembers(s: seq<ID>)
    ensures Elems(Dedup(s)) == Elems(s)
    ensures Distinct(Dedup(s))
  {
    if s == [] {
    } else {
      DedupMembers(s[..|s| - 1]);
      assert s == s[..|s| - 1] + [s[|s| - 1]];
      assert s[|s| - 1] in Dedup(s[..|s| - 1]) <==> s[|s| - 1] in Elems(s[..|s| - 1]);
      assert forall x :: x in Elems(s) <==> x in Elems(s[..|s| - 1]) || x == s[|s| - 1];
    }
  }

  /** page holds, without duplicates, the identifiers of the run of entries
      that leads from before to after; it falls short of the limit only when
      nothing is left. */
  ghost predicate IsCut(before: seq<ID>, limit: int, page: seq<ID>, after: seq<ID>) {
    && |after| <= |before|
    && after == before[|before| - |after|..]
    && page == Dedup(before[..|before| - |after|])
    && |page| <= limit
    && (|page| < limit ==> after == [])
  }

  /** The zero identifier, which a listing takes for "no start", does not lie after the cursor in its list. */
  ghost predicate Clear(index: map<Bytes, seq<ID>>, c: Cursor) {
    EMPTY !in After(ListOf(index, c.addr), c.id)
  }

  /** A short page holds all that remains after its cursor. A full page leads
      from a clear cursor to a clear cursor and takes exactly the entries
      between them; from any other cursor it takes the first of the entries. */
  ghost predicate IsPage(index: map<Bytes, seq<ID>>, addrs: seq<ShortID>, c: Cursor, limit: int, ids: seq<ID>,
                         c': Cursor)
  {
    var before, after := Remaining(index, addrs, c), Remaining(index, addrs, c');
    if |ids| < limit then
      && IsCut(before, limit, ids, [])
      && c' == EndCursor(index, addrs, c)
      && (NoZeroID(index) ==> after == [])
    else
      && NamesLast(index, addrs, c, ids, c')
      && if Clear(index, c) then IsCut(before, limit, ids, after) && Clear(index, c')
         else exists k :: 0 <= k <= |before| && IsCut(before, limit, ids, before[k..])
  }

  /** What the documentation promises of the returned cursor: it is the last
      identifier fetched, with the address in whose list it was found. */
  ghost predicate NamesLast(index: map<Bytes, seq<ID>>, addrs: seq<ShortID>, c: Cursor, ids: seq<ID>, c': Cursor) {
    && ids != [] && c'.id == ids[|ids| - 1]
    && c'.addr in addrs && c'.id in Entries(index, c'.addr, c)
  }

  /** The identifier searched last: the last entry, or the cursor's own when there is none. */
  function EndID(c: Cursor, entries: seq<ID>): ID {
    if entries == [] then c.id else entries[|entries| - 1]
  }

  /** Where reading to the end leaves the cursor: at the last address and the last identifier searched. */
  function EndCursor(index: map<Bytes, seq<ID>>, addrs: seq<ShortID>, c: Cursor): Cursor {
    if addrs == [] || Compare(addrs[|addrs| - 1], c.addr) < 0 then c
    else Cursor(addrs[|addrs| - 1], EndID(c, Remaining(index, addrs, c)))
  }

  lemma CutCovers(before: seq<ID>, limit: int, page: seq<ID>, after: seq<ID>)
    requires IsCut(before, limit, page, after)
    ensures Distinct(page)
    ensures Elems(before) == Elems(page) + Elems(after)
  {
    var front := before[..|before| - |after|];
    DedupMembers(front);
    ElemsConcat(front, after);
    assert before == front + after;
  }

  ghost predicate Fetched(table: map<ID, UTXO>, ids: seq<ID>, utxos: seq<UTXO>) {
    && |utxos| == |ids|
    && forall k :: 0 <= k < |ids| ==> ids[k] in table && utxos[k] == table[ids[k]]
  }

  ghost predicate NoZeroID(index: map<Bytes, seq<ID>>) {
    forall a :: EMPTY !in ListOf(index, a)
  }

  // ----- cursors -----

  lemma {:induction false} RemainingSplit(index: map<Bytes, seq<ID>>, addrs: seq<ShortID>, c: Cursor, i: nat)
    requires i <= |addrs|
    ensures Remaining(index, addrs, c) == Remaining(index, addrs[..i], c) + Remaining(index, addrs[i..], c)
  {
    hide Entries;
    if i == 0 {
      assert addrs[0..] == addrs;
    } else {
      RemainingSplit(index, addrs[1..], c, i - 1);
      assert addrs[1..][..i - 1] == addrs[..i][1..];
      assert addrs[1..][i - 1..] == addrs[i..];
    }
  }

  lemma {:induction false} RemainingBelow(index: map<Bytes, seq<ID>>, addrs: seq<ShortID>, c: Cursor)
    requires forall k :: 0 <= k < |addrs| ==> Compare(addrs[k], c.addr) < 0
    ensures Remaining(index, addrs, c) == []
  {
    if addrs == [] {
    } else {
      RemainingBelow(index, addrs[1..], c);
    }
  }

  lemma {:induction false} RemainingAbove(index: map<Bytes, seq<ID>>, addrs: seq<ShortID>, c: Cursor, c': Cursor)
    requires forall k :: 0 <= k < |addrs| ==> Compare(addrs[k], c.addr) > 0 && Compare(addrs[k], c'.addr) > 0
    ensures Remaining(index, addrs, c) == Remaining(index, addrs, c')
  {
    if addrs == [] {
    } else {
      RemainingAbove(index, addrs[1..], c, c');
    }
  }

  lemma Above(a: ShortID, b: ShortID, c: ShortID)
    requires Compare(a, b) < 0 && Compare(a, c) >= 0
    ensures Compare(b, a) > 0 && Compare(b, c) > 0
  {
    CompareReverse(a, b);
    CompareReverse(a, c);
    CompareReverse(b, c);
    if Compare(b, c) <= 0 {
      CompareTransitive(a, b, c);
      CompareTransitive(b, c, a);
    }
  }

  lemma EarlierListsDone(index: map<Bytes, seq<ID>>, addrs: seq<ShortID>, i: nat, id: ID)
    requires Ascending(CompareShortIDs, addrs) && i < |addrs|
    ensures Remaining(index, addrs[..i], Cursor(addrs[i], id)) == []
  {
    hide Compare;
    var cur := Cursor(addrs[i], id);
    forall k | 0 <= k < i ensures Compare(addrs[..i][k], cur.addr) < 0 {
      assert CompareShortIDs(addrs[k], addrs[i]) < 0;
    }
    RemainingBelow(index, addrs[..i], cur);
  }

  lemma LaterListsWhole(index: map<Bytes, seq<ID>>, addrs: seq<ShortID>, c: Cursor, i: nat, id: ID)
    requires Ascending(CompareShortIDs, addrs) && i < |addrs| && Compare(addrs[i], c.addr) >= 0
    ensures Remaining(index, addrs[i + 1..], Cursor(addrs[i], id)) == Remaining(index, addrs[i + 1..], c)
  {
    hide Compare, Remaining;
    var cur, later := Cursor(addrs[i], id), addrs[i + 1..];
    forall k | 0 <= k < |later| ensures Compare(later[k], cur.addr) > 0 && Compare(later[k], c.addr) > 0 {
      assert CompareShortIDs(addrs[i], addrs[i + 1 + k]) < 0;
      Above(addrs[i], later[k], c.addr);
    }
    RemainingAbove(index, later, cur, c);
  }

  lemma RemainingStep(index: map<Bytes, seq<ID>>, addrs: seq<ShortID>, c: Cursor, i: nat)
    requires i < |addrs|
    ensures Remaining(index, addrs[i..], c) == Entries(index, addrs[i], c) + Remaining(index, addrs[i + 1..], c)
  {
    hide Entries;
    assert addrs[i..][0] == addrs[i] && addrs[i..][1..] == addrs[i + 1..];
  }

  /** A cursor on addrs[i] leaves the rest of that list and all later lists. */
  lemma CursorAt(index: map<Bytes, seq<ID>>, addrs: seq<ShortID>, c: Cursor, i: nat, id: ID)
    requires Ascending(CompareShortIDs, addrs) && i < |addrs|
    requires Compare(addrs[i], c.addr) >= 0
    ensures Remaining(index, addrs, Cursor(addrs[i], id))
         == Shown(ListOf(index, addrs[i]), id) + Remaining(index, addrs[i + 1..], c)
  {
    hide Remaining, Shown, Compare, Ascending;
    var cur := Cursor(addrs[i], id);
    EarlierListsDone(index, addrs, i, id);
    LaterListsWhole(index, addrs, c, i, id);
    RemainingSplit(index, addrs, cur, i);
    RemainingStep(index, addrs, cur, i);
    CompareZero(addrs[i], cur.addr);
  }

  /** Pigeonhole: distinct identifiers that have all been seen number no more than the seen ones. */
  lemma SeenBounds(fetch: seq<ID>, seen: set<ID>)
    requires Distinct(fetch) && Elems(fetch) <= seen
    ensures |fetch| <= |seen|
  {
    DistinctSize(fetch);
    SubsetSize(Elems(fetch), seen);
  }

  lemma DedupSize(s: seq<ID>)
    ensures |Dedup(s)| == |Elems(s)|
  {
    DedupMembers(s);
    DistinctSize(Dedup(s));
  }

  lemma DedupSnoc(s: seq<ID>, id: ID)
    ensures Dedup(s + [id]) == if id in Elems(s) then Dedup(s) else Dedup(s) + [id]
    ensures Elems(s + [id]) == Elems(s) + {id}
  {
    DedupMembers(s);
    assert (s + [id])[..|s|] == s;
    assert id in Dedup(s) <==> id in Elems(Dedup(s));
  }

  // ----- the reader -----

  /** The members of a set in some order. */
  method List(addrs: set<ShortID>) returns (list: seq<ShortID>)
    ensures Distinct(list) && Elems(list) == addrs
  {
    var rest := addrs;
    list := [];
    while rest != {}
      invariant Distinct(list) && rest <= addrs && Elems(list) == addrs - rest
      decreases |rest|
    {
      var a :| a in rest;
      ElemsSnoc(list, a);
      rest := rest - {a};
      list := list + [a];
    }
  }

  /** The addresses in ascending order: the library's sort of the list. */
  method SortedList(addrs: set<ShortID>) returns (list: seq<ShortID>)
    ensures Ascending(CompareShortIDs, list) && Elems(list) == addrs
  {
    var l := List(addrs);
    var arr := new ShortID[|l|](i requires 0 <= i < |l| => l[i]);
    assert arr[..] == l;
    SortShortIDs(arr);
    list := arr[..];
    SortedDistinct(l, list);
  }

  lemma SortedDistinct(l: seq<ShortID>, list: seq<ShortID>)
    requires Distinct(l) && Sorted(CompareShortIDs, list) && multiset(l) == multiset(list)
    ensures Ascending(CompareShortIDs, list) && Elems(list) == Elems(l)
  {
    DistinctIsOrderFree(l, list);
    AscendingIffDistinct(list);
    forall x ensures x in Elems(list) <==> x in Elems(l) {
      assert x in list <==> x in multiset(list);
      assert x in l <==> x in multiset(l);
    }
  }

  /** utxos and seen are what reading the identifiers of front leaves behind. */
  ghost predicate Gathered(table: map<ID, UTXO>, front: seq<ID>, utxos: seq<UTXO>, seen: set<ID>) {
    seen == Elems(front) && Fetched(table, Dedup(front), utxos)
  }

  lemma GatherStep(table: map<ID, UTXO>, front: seq<ID>, utxos: seq<UTXO>, seen: set<ID>, id: ID)
    requires Gathered(table, front, utxos, seen)
    ensures id !in seen ==> id !in Elems(front)
    ensures id in seen ==> Gathered(table, front + [id], utxos, seen)
    ensures id !in seen && id in table ==> Gathered(table, front + [id], utxos + [table[id]], seen + {id})
  {
    hide Dedup, Elems;
    DedupSnoc(front, id);
    if id in seen {
      assert seen + {id} == seen;
    } else if id in table {
      FetchedSnoc(table, Dedup(front), utxos, id);
    }
  }

  lemma FetchedSnoc(table: map<ID, UTXO>, ids: seq<ID>, utxos: seq<UTXO>, id: ID)
    requires Fetched(table, ids, utxos) && id in table
    ensures Fetched(table, ids + [id], utxos + [table[id]])
  {
  }

  datatype Progress = Progress(utxos: seq<UTXO>, limit: int, last: ID, seen: set<ID>, read: nat)

  /** The identifiers read so far are gathered; reading stops when limit new ones were found or none is left. */
  ghost predicate Scanned(table: map<ID, UTXO>, fetch: seq<ID>, utxos: seq<UTXO>, limit: int, last: ID,
                          front: seq<ID>, p: Progress)
  {
    && p.read <= |fetch|
    && Gathered(table, front + fetch[..p.read], p.utxos, p.seen)
    && p.limit == limit - (|p.utxos| - |utxos|)
    && p.last == (if p.read == 0 then last else fetch[p.read - 1])
    && (fetch == [] ==> p.utxos == utxos)
    && (limit >= 1 ==> p.limit >= 0)
    && (if limit >= 1 && p.limit == 0 then p.read > 0 && p.last !in Elems(front + fetch[..p.read - 1])
        else p.read == |fetch|)
  }

  /** The inner loop: read the fetched identifiers until limit new ones were found. */
  method Scan(db: UtxoState, fetch: seq<ID>, utxos: seq<UTXO>, limit: int, last: ID, seen: set<ID>,
              ghost front: seq<ID>)
    returns (r: Result<Progress, FetchError>)
    requires Coherent(db.View()) && (limit >= 1 || fetch == [])
    requires Gathered(db.utxoDB, front, utxos, seen)
    modifies db`utxoCache
    ensures Coherent(db.View())
    ensures r.Failure? ==> r.error.CouldNotGet? && r.error.id in fetch && r.error.id !in db.utxoDB
    ensures r.Success? ==> Scanned(db.utxoDB, fetch, utxos, limit, last, front, r.value)
  {
    hide Gathered, Coherent, Elems;
    var p := Progress(utxos, limit, last, seen, 0);
    ghost var front' := front;
    while p.read < |fetch|
      invariant p.read <= |fetch| && front' == front + fetch[..p.read]
      invariant Coherent(db.View())
      invariant Gathered(db.utxoDB, front', p.utxos, p.seen)
      invariant p.limit == limit - (|p.utxos| - |utxos|) && (limit >= 1 ==> p.limit >= 1)
      invariant p.last == if p.read == 0 then last else fetch[p.read - 1]
      invariant p.read == 0 ==> p.utxos == utxos
      decreases |fetch| - p.read
    {
      var utxoID := fetch[p.read];
      GatherStep(db.utxoDB, front', p.utxos, p.seen, utxoID);
      front' := front' + [utxoID];
      p := p.(last := utxoID, read := p.read + 1);
      assert front' == front + fetch[..p.read];
      if utxoID in p.seen {
        continue;
      }
      var got := db.GetUTXO(utxoID);
      if got.None? {
        return Failure(CouldNotGet(utxoID));
      }
      p := p.(utxos := p.utxos + [got.value], seen := p.seen + {utxoID}, limit := p.limit - 1);
      if p.limit <= 0 {
        return Success(p);
      }
    }
    return Success(p);
  }

  /** Where the outer loop stands: before the first searched address, or past the whole list of addrs[i - 1]. */
  ghost predicate AtBoundary(index: map<Bytes, seq<ID>>, addrs: seq<ShortID>, start: Cursor, cur: Cursor, i: nat)
    requires i <= |addrs|
  {
    || (cur == start && forall k :: 0 <= k < i ==> Compare(addrs[k], start.addr) < 0)
    || (i > 0 && cur.addr == addrs[i - 1] && Compare(cur.addr, start.addr) >= 0
        && (NoZeroID(index) ==> Shown(ListOf(index, cur.addr), cur.id) == []))
  }

  lemma BoundaryRemaining(index: map<Bytes, seq<ID>>, addrs: seq<ShortID>, start: Cursor, cur: Cursor)
    requires Ascending(CompareShortIDs, addrs) && NoZeroID(index)
    requires AtBoundary(index, addrs, start, cur, |addrs|)
    ensures Remaining(index, addrs, cur) == []
  {
    if cur == start && forall k :: 0 <= k < |addrs| ==> Compare(addrs[k], start.addr) < 0 {
      RemainingBelow(index, addrs, start);
    } else {
      CursorAt(index, addrs, start, |addrs| - 1, cur.id);
    }
  }

  /** The start chosen for addrs[i] makes the fetch begin where the page's cursor says. */
  lemma BoundaryStart(index: map<Bytes, seq<ID>>, addrs: seq<ShortID>, start: Cursor, cur: Cursor, i: nat)
    requires Ascending(CompareShortIDs, addrs) && i < |addrs|
    requires AtBoundary(index, addrs, start, cur, i)
    ensures Compare(addrs[i], cur.addr) < 0 <==> Compare(addrs[i], start.addr) < 0
    ensures Compare(addrs[i], cur.addr) < 0 ==> cur == start
    ensures Compare(addrs[i], cur.addr) == 0 ==> cur == start
    ensures Compare(addrs[i], cur.addr) >= 0 ==>
              Entries(index, addrs[i], start) == Shown(ListOf(index, addrs[i]), StartFor(addrs[i], cur))
  {
    if i > 0 && cur.addr == addrs[i - 1] && Compare(cur.addr, start.addr) >= 0 {
      assert CompareShortIDs(addrs[i - 1], addrs[i]) < 0;
      Above(addrs[i - 1], addrs[i], start.addr);
    }
  }

  /** The first i addresses are fully read: front is what they hold after the cursor. */
  ghost predicate Searched(index: map<Bytes, seq<ID>>, addrs: seq<ShortID>, start: Cursor, i: nat, cur: Cursor,
                           front: seq<ID>)
  {
    && Ascending(CompareShortIDs, addrs) && i <= |addrs|
    && AtBoundary(index, addrs, start, cur, i)
    && front == Remaining(index, addrs[..i], start)
    && cur.id == EndID(start, front)
  }

  lemma FrontGrows(index: map<Bytes, seq<ID>>, addrs: seq<ShortID>, start: Cursor, i: nat)
    requires i < |addrs|
    ensures Remaining(index, addrs[..i + 1], start)
              == Remaining(index, addrs[..i], start) + Entries(index, addrs[i], start)
    ensures Remaining(index, addrs, start)
              == Remaining(index, addrs[..i + 1], start) + Remaining(index, addrs[i + 1..], start)
  {
    RemainingSplit(index, addrs[..i + 1], start, i);
    assert addrs[..i + 1][..i] == addrs[..i] && addrs[..i + 1][i..] == [addrs[i]];
    assert Remaining(index, [addrs[i]], start) == Entries(index, addrs[i], start) + Remaining(index, [], start);
    RemainingSplit(index, addrs, start, i + 1);
  }

  lemma SkippedAddress(index: map<Bytes, seq<ID>>, addrs: seq<ShortID>, start: Cursor, i: nat, cur: Cursor,
                       front: seq<ID>)
    requires Searched(index, addrs, start, i, cur, front) && i < |addrs|
    requires Compare(addrs[i], cur.addr) < 0
    ensures Searched(index, addrs, start, i + 1, cur, front)
  {
    BoundaryStart(index, addrs, start, cur, i);
    FrontGrows(index, addrs, start, i);
    assert front + Entries(index, addrs[i], start) == front;
    forall k | 0 <= k < i ensures Compare(addrs[k], start.addr) < 0 {
      assert CompareShortIDs(addrs[k], addrs[i]) < 0;
      CompareTransitive(addrs[k], addrs[i], start.addr);
    }
  }

  /** What one call of UTXOIDs returns for addrs[i]: a bounded prefix of the entries after the page's cursor. */
  lemma FetchIsPrefix(index: map<Bytes, seq<ID>>, addrs: seq<ShortID>, start: Cursor, i: nat, cur: Cursor,
                      front: seq<ID>, searchSize: int)
    requires Searched(index, addrs, start, i, cur, front) && i < |addrs|
    requires Compare(addrs[i], cur.addr) >= 0 && Distinct(ListOf(index, addrs[i]))
    ensures var l, from := ListOf(index, addrs[i]), StartFor(addrs[i], cur);
            && Entries(index, addrs[i], start) == Shown(l, from)
            && Collect(From(l, from), from, searchSize) == Take(Shown(l, from), searchSize)
            && Distinct(Shown(l, from))
            && Compare(addrs[i], start.addr) >= 0
  {
    BoundaryStart(index, addrs, start, cur, i);
    ListingIsShown(ListOf(index, addrs[i]), StartFor(addrs[i], cur), searchSize);
    ShownDistinct(ListOf(index, addrs[i]), StartFor(addrs[i], cur));
  }

  lemma AfterStep(l: seq<ID>, start: ID, j: nat)
    requires Distinct(l) && j < |After(l, start)|
    ensures After(l, After(l, start)[j]) == After(l, start)[j + 1..]
  {
    hide After, Position, Distinct;
    var q := AfterIsSuffix(l, start);
    SliceTwice(l, q, j);
    AfterAt(l, q + j);
  }

  /** Within a list, moving the cursor to the j-th entry leaves the entries behind it. */
  lemma ShownStep(l: seq<ID>, start: ID, j: nat)
    requires Distinct(l) && j < |Shown(l, start)|
    requires EMPTY !in After(l, start)
    ensures Shown(l, Shown(l, start)[j]) == Shown(l, start)[j + 1..]
    ensures EMPTY !in After(l, Shown(l, start)[j])
  {
    ShownIsAfter(l, start);
    hide Shown, After, Distinct;
    AfterStep(l, start, j);
    ShownIsAfter(l, After(l, start)[j]);
  }

  /** After the last entry shown nothing is shown. */
  lemma EndOfList(l: seq<ID>, start: ID, id: ID)
    requires Distinct(l) && EMPTY !in l && (start == id || start == EMPTY)
    ensures var shown := Shown(l, start);
            Shown(l, if shown == [] then id else shown[|shown| - 1]) == []
  {
    ShownDistinct(l, start);
    var shown := Shown(l, start);
    if shown != [] {
      ShownStep(l, start, |shown| - 1);
    } else {
      ShownIsAfter(l, start);
    }
  }

  /** The cursor's own list, and every later list, holds no zero identifier behind the place where it is read. */
  lemma ReadsClear(index: map<Bytes, seq<ID>>, addr: ShortID, c: Cursor)
    requires Clear(index, c) && Distinct(ListOf(index, addr))
    ensures EMPTY !in After(ListOf(index, addr), StartFor(addr, c))
  {
    ShownFromStart(ListOf(index, addr));
    CompareZero(addr, c.addr);
  }

  /** A full fetch of searchSize distinct identifiers would have held as many
      unseen ones as were still wanted; so the fetch was the whole list. */
  lemma FetchIsWhole(index: map<Bytes, seq<ID>>, addrs: seq<ShortID>, start: Cursor, i: nat, cur: Cursor,
                     front: seq<ID>, searchSize: int, fetch: seq<ID>)
    requires Searched(index, addrs, start, i, cur, front) && i < |addrs|
    requires Compare(addrs[i], cur.addr) >= 0 && Distinct(ListOf(index, addrs[i]))
    requires fetch == Take(Shown(ListOf(index, addrs[i]), StartFor(addrs[i], cur)), searchSize)
    requires |Dedup(front + fetch)| < searchSize
    ensures fetch == Shown(ListOf(index, addrs[i]), StartFor(addrs[i], cur)) == Entries(index, addrs[i], start)
    ensures Compare(addrs[i], start.addr) >= 0
  {
    hide Shown, Dedup, After, ListOf, AtBoundary, Remaining, Entries, StartFor, Compare;
    FetchIsPrefix(index, addrs, start, i, cur, front, searchSize);
    DedupSize(front + fetch);
    SeenBounds(fetch, Elems(front + fetch));
  }

  /** Moving on skips nothing. */
  lemma NothingSkipped(index: map<Bytes, seq<ID>>, addrs: seq<ShortID>, start: Cursor, i: nat, cur: Cursor,
                       front: seq<ID>, searchSize: int, fetch: seq<ID>, last: ID)
    requires Searched(index, addrs, start, i, cur, front) && i < |addrs|
    requires Compare(addrs[i], cur.addr) >= 0 && Distinct(ListOf(index, addrs[i]))
    requires fetch == Take(Shown(ListOf(index, addrs[i]), StartFor(addrs[i], cur)), searchSize)
    requires last == EndOfFetch(fetch, cur.id)
    requires |Dedup(front + fetch)| < searchSize
    ensures fetch == Entries(index, addrs[i], start)
    ensures Searched(index, addrs, start, i + 1, Cursor(addrs[i], last), front + fetch)
  {
    hide Shown, Dedup, Elems, After, ListOf, Distinct, Take, Remaining, Entries, Compare;
    FetchIsWhole(index, addrs, start, i, cur, front, searchSize, fetch);
    if NoZeroID(index) {
      NoZeroListed(index, addrs[i]);
      EndOfList(ListOf(index, addrs[i]), StartFor(addrs[i], cur), cur.id);
    }
    FrontGrows(index, addrs, start, i);
    EndIDGrows(start, front, fetch, cur.id);
  }

  function EndOfFetch(fetch: seq<ID>, id: ID): ID {
    if fetch == [] then id else fetch[|fetch| - 1]
  }

  lemma EndIDGrows(start: Cursor, front: seq<ID>, fetch: seq<ID>, id: ID)
    requires id == EndID(start, front)
    ensures EndOfFetch(fetch, id) == EndID(start, front + fetch)
  {
    assert fetch == [] ==> front + fetch == front;
  }

  lemma NoZeroListed(index: map<Bytes, seq<ID>>, addr: ShortID)
    requires NoZeroID(index)
    ensures EMPTY !in ListOf(index, addr)
  {
  }

  lemma PageCut(front: seq<ID>, entries: seq<ID>, rest: seq<ID>, j: nat, limit: int)
    requires j <= |entries|
    requires |Dedup(front + entries[..j])| == limit
    ensures IsCut(front + entries + rest, limit, Dedup(front + entries[..j]), entries[j..] + rest)
  {
    var all, after := front + entries + rest, entries[j..] + rest;
    assert all[|all| - |after|..] == after;
    assert all[..|all| - |after|] == front + entries[..j];
  }

  lemma TakePrefix<T>(entries: seq<T>, limit: int, j: nat)
    requires 0 < j <= |Take(entries, limit)|
    ensures j <= |entries| && Take(entries, limit)[..j] == entries[..j]
    ensures Take(entries, limit)[j - 1] == entries[j - 1]
  {
  }

  /** Stopping in the middle of a list makes a full page. */
  lemma StoppedInside(index: map<Bytes, seq<ID>>, addrs: seq<ShortID>, start: Cursor, i: nat, cur: Cursor,
                      front: seq<ID>, searchSize: int, fetch: seq<ID>, j: nat)
    requires Searched(index, addrs, start, i, cur, front) && i < |addrs|
    requires Compare(addrs[i], cur.addr) >= 0 && Distinct(ListOf(index, addrs[i]))
    requires fetch == Take(Shown(ListOf(index, addrs[i]), StartFor(addrs[i], cur)), searchSize)
    requires 0 < j <= |fetch|
    requires |Dedup(front + fetch[..j])| == searchSize && fetch[j - 1] !in Elems(front + fetch[..j - 1])
    ensures IsPage(index, addrs, start, searchSize, Dedup(front + fetch[..j]), Cursor(addrs[i], fetch[j - 1]))
  {
    hide Remaining, IsCut, Dedup, Shown, After, Take, Position, AtBoundary, Entries, Compare, StartFor, ListOf;
    hide Elems, NamesLast, EndCursor, Ascending, Distinct;
    var l, from := ListOf(index, addrs[i]), StartFor(addrs[i], cur);
    FetchIsPrefix(index, addrs, start, i, cur, front, searchSize);
    var entries, rest := Shown(l, from), Remaining(index, addrs[i + 1..], start);
    TakePrefix(entries, searchSize, j);
    CursorAt(index, addrs, start, i, fetch[j - 1]);
    FrontGrows(index, addrs, start, i);
    PageCut(front, entries, rest, j, searchSize);
    assert Remaining(index, addrs, start) == front + entries + rest;
    assert entries[j - 1] in Entries(index, addrs[i], start);
    StopNames(index, addrs, start, i, front, fetch, j);
    if Clear(index, start) {
      StartIsClear(index, addrs, start, i, cur, front);
      ShownStep(l, from, j - 1);
    } else {
      CutHasPlace(front + entries + rest, searchSize, Dedup(front + fetch[..j]), entries[j..] + rest);
    }
  }

  lemma StopNames(index: map<Bytes, seq<ID>>, addrs: seq<ShortID>, start: Cursor, i: nat, front: seq<ID>,
                  fetch: seq<ID>, j: nat)
    requires i < |addrs| && 0 < j <= |fetch|
    requires fetch[j - 1] !in Elems(front + fetch[..j - 1]) && fetch[j - 1] in Entries(index, addrs[i], start)
    ensures NamesLast(index, addrs, start, Dedup(front + fetch[..j]), Cursor(addrs[i], fetch[j - 1]))
  {
    hide Dedup, Entries, Elems;
    LastIsNew(front + fetch[..j - 1], fetch[j - 1]);
    assert front + fetch[..j - 1] + [fetch[j - 1]] == front + fetch[..j];
  }

  lemma LastIsNew(s: seq<ID>, id: ID)
    requires id !in Elems(s)
    ensures Dedup(s + [id]) == Dedup(s) + [id]
  {
    DedupSnoc(s, id);
  }

  lemma StartIsClear(index: map<Bytes, seq<ID>>, addrs: seq<ShortID>, start: Cursor, i: nat, cur: Cursor,
                     front: seq<ID>)
    requires Searched(index, addrs, start, i, cur, front) && i < |addrs| && Compare(addrs[i], cur.addr) >= 0
    requires Clear(index, start) && Distinct(ListOf(index, addrs[i]))
    ensures EMPTY !in After(ListOf(index, addrs[i]), StartFor(addrs[i], cur))
  {
    BoundaryStart(index, addrs, start, cur, i);
    ReadsClear(index, addrs[i], start);
    ShownFromStart(ListOf(index, addrs[i]));
  }

  lemma CutHasPlace(before: seq<ID>, limit: int, page: seq<ID>, after: seq<ID>)
    requires IsCut(before, limit, page, after)
    ensures exists k :: 0 <= k <= |before| && IsCut(before, limit, page, before[k..])
  {
    assert IsCut(before, limit, page, before[|before| - |after|..]);
  }

  lemma ReadToTheEnd(index: map<Bytes, seq<ID>>, addrs: seq<ShortID>, start: Cursor, cur: Cursor, front: seq<ID>,
                     limit: int)
    requires Searched(index, addrs, start, |addrs|, cur, front)
    requires |Dedup(front)| < limit
    ensures IsPage(index, addrs, start, limit, Dedup(front), cur)
  {
    hide Remaining, Dedup, Shown, ListOf, Compare, Ascending;
    if NoZeroID(index) {
      BoundaryRemaining(index, addrs, start, cur);
    }
    assert addrs[..|addrs|] == addrs;
    assert front[..|front|] == front;
    CursorAtEnd(index, addrs, start, cur);
  }

  lemma CursorAtEnd(index: map<Bytes, seq<ID>>, addrs: seq<ShortID>, start: Cursor, cur: Cursor)
    requires AtBoundary(index, addrs, start, cur, |addrs|)
    requires cur.id == EndID(start, Remaining(index, addrs, start))
    ensures cur == EndCursor(index, addrs, start)
  {
  }

  // ----- the documented cursor -----

  lemma ConcatSnoc<T>(s: seq<T>, t: seq<T>)
    requires t != []
    ensures s + t == s + t[..|t| - 1] + [t[|t| - 1]]
  {
  }

  /** First occurrences only grow at the end. */
  lemma {:induction false} DedupExtends(s: seq<ID>, t: seq<ID>) returns (new_: seq<ID>)
    ensures Dedup(s + t) == Dedup(s) + new_
    decreases |t|
  {
    hide Dedup, Elems;
    if t == [] {
      assert s + t == s;
      new_ := [];
    } else {
      var n := |t| - 1;
      var before := DedupExtends(s, t[..n]);
      ConcatSnoc(s, t);
      DedupSnoc(s + t[..n], t[n]);
      new_ := if t[n] in Elems(s + t[..n]) then before else before + [t[n]];
    }
  }

  lemma DedupGrowsIff(s: seq<ID>, t: seq<ID>) returns (new_: seq<ID>)
    ensures Dedup(s + t) == Dedup(s) + new_
    ensures new_ == [] <==> Elems(s + t) == Elems(s)
  {
    new_ := DedupExtends(s, t);
    hide Dedup, Elems;
    DedupSize(s);
    DedupSize(s + t);
    DedupMembers(s);
    DedupMembers(s + t);
    if new_ == [] {
      assert Dedup(s + t) == Dedup(s);
    } else {
      assert |Elems(s + t)| > |Elems(s)|;
    }
  }

  lemma LastOf(d: seq<ID>, before: seq<ID>, id: ID, new_: seq<ID>)
    requires d == before + [id] + new_ && Distinct(d)
    ensures d != [] && (d[|d| - 1] == id <==> new_ == [])
  {
    assert d[|before|] == id;
  }

  lemma FirstMet(s: seq<ID>, id: ID)
    requires id in s
    ensures var p := Position(s, id);
            && Dedup(s[..p + 1]) == Dedup(s[..p]) + [id]
            && s[..p + 1] + s[p + 1..] == s
  {
    hide Dedup, Position;
    var p := Position(s, id);
    assert id !in Elems(s[..p]);
    LastIsNew(s[..p], id);
    assert s[..p] + [id] == s[..p + 1];
  }

  /** The identifier searched last is the one fetched last exactly when nothing
      new was searched after it was first met. */
  lemma LastFetchedIff(s: seq<ID>)
    requires s != []
    ensures var last := s[|s| - 1];
            && Dedup(s) != []
            && (Dedup(s)[|Dedup(s)| - 1] == last <==> Elems(s[..Position(s, last) + 1]) == Elems(s))
  {
    hide Dedup, Position, Elems, Distinct;
    var last := s[|s| - 1];
    var p := Position(s, last);
    FirstMet(s, last);
    var new_ := DedupGrowsIff(s[..p + 1], s[p + 1..]);
    DedupMembers(s);
    LastOf(Dedup(s), Dedup(s[..p]), last, new_);
  }

  /** Nothing new was searched after the last identifier searched was first met. */
  ghost predicate NothingNewAfterLast(searched: seq<ID>) {
    searched != [] && Elems(searched[..Position(searched, searched[|searched| - 1]) + 1]) == Elems(searched)
  }

  /** On a page that falls short, the cursor is what the documentation promises
      exactly when something was left to read for the last address, and nothing
      new was searched after the last identifier searched was first met. */
  lemma ShortCursorIff(index: map<Bytes, seq<ID>>, addrs: seq<ShortID>, c: Cursor, limit: int, ids: seq<ID>,
                       c': Cursor)
    requires Ascending(CompareShortIDs, addrs)
    requires IsPage(index, addrs, c, limit, ids, c') && |ids| < limit
    ensures NamesLast(index, addrs, c, ids, c') <==>
              && addrs != [] && Entries(index, addrs[|addrs| - 1], c) != []
              && NothingNewAfterLast(Remaining(index, addrs, c))
  {
    hide Remaining, Entries, Dedup, IsPage, IsCut, Compare, Elems, Position, EndCursor, Ascending;
    var searched := Remaining(index, addrs, c);
    ShortPageIs(index, addrs, c, limit, ids, c');
    if searched == [] {
      NothingDeduped();
    } else {
      SomethingSearched(index, addrs, c);
      LastFetchedIff(searched);
      assert addrs[|addrs| - 1] in addrs;
    }
  }

  lemma ShortPageIs(index: map<Bytes, seq<ID>>, addrs: seq<ShortID>, c: Cursor, limit: int, ids: seq<ID>, c': Cursor)
    requires IsPage(index, addrs, c, limit, ids, c') && |ids| < limit
    ensures ids == Dedup(Remaining(index, addrs, c)) && c' == EndCursor(index, addrs, c)
  {
    hide Remaining, Dedup, EndCursor;
    var searched := Remaining(index, addrs, c);
    assert searched[..|searched|] == searched;
  }

  lemma NothingDeduped()
    ensures Dedup([]) == []
  {
  }

  /** When something was searched, the cursor ends at the last address, whose
      entries, if it has any, end with the last identifier searched. */
  lemma SomethingSearched(index: map<Bytes, seq<ID>>, addrs: seq<ShortID>, c: Cursor)
    requires Ascending(CompareShortIDs, addrs) && Remaining(index, addrs, c) != []
    ensures addrs != []
    ensures var n, searched := |addrs| - 1, Remaining(index, addrs, c);
            var last := searched[|searched| - 1];
            && EndCursor(index, addrs, c) == Cursor(addrs[n], last)
            && (last in Entries(index, addrs[n], c) <==> Entries(index, addrs[n], c) != [])
  {
    hide Entries, Shown, Compare, Ascending;
    if addrs == [] {
      NothingRemains(index, c);
    }
    var n := |addrs| - 1;
    if Compare(addrs[n], c.addr) < 0 {
      forall k | 0 <= k < |addrs| ensures Compare(addrs[k], c.addr) < 0 {
        LastIsGreatest(addrs, k, c.addr);
      }
      RemainingBelow(index, addrs, c);
    }
    FrontGrows(index, addrs, c, n);
    assert addrs[..n + 1] == addrs;
    hide Remaining;
    LastOfJoined(Remaining(index, addrs[..n], c), Entries(index, addrs[n], c));
  }

  lemma NothingRemains(index: map<Bytes, seq<ID>>, c: Cursor)
    ensures Remaining(index, [], c) == []
  {
  }

  lemma LastOfJoined(s: seq<ID>, t: seq<ID>)
    requires s + t != []
    ensures (s + t)[|s + t| - 1] in t <==> t != []
  {
  }

  lemma LastIsGreatest(addrs: seq<ShortID>, k: nat, addr: ShortID)
    requires Ascending(CompareShortIDs, addrs) && k < |addrs| && Compare(addrs[|addrs| - 1], addr) < 0
    ensures Compare(addrs[k], addr) < 0
  {
    if k < |addrs| - 1 {
      assert CompareShortIDs(addrs[k], addrs[|addrs| - 1]) < 0;
      CompareTransitive(addrs[k], addrs[|addrs| - 1], addr);
    }
  }

  /** utxos are the stored UTXOs of a page that leads from one cursor to the other. */
  ghost predicate IsPageOf(index: map<Bytes, seq<ID>>, table: map<ID, UTXO>, addrs: seq<ShortID>, start: Cursor,
                           limit: int, page: Page)
  {
    exists ids :: IsPage(index, addrs, start, limit, ids, page.cursor) && Fetched(table, ids, page.utxos)
  }

  /** The outer loop's state before addrs[i]: nothing skipped so far, and more wanted (unless nothing was asked for). */
  ghost predicate Standing(index: map<Bytes, seq<ID>>, table: map<ID, UTXO>, addrs: seq<ShortID>, start: Cursor,
                           searchSize: int, i: nat, cur: Cursor, utxos: seq<UTXO>, left: int, seen: set<ID>,
                           front: seq<ID>)
  {
    && |utxos| + left == searchSize
    && Gathered(table, front, utxos, seen)
    && if searchSize <= 0 then utxos == [] else left >= 1 && Searched(index, addrs, start, i, cur, front)
  }

  lemma AddressIsRead(index: map<Bytes, seq<ID>>, table: map<ID, UTXO>, addrs: seq<ShortID>, start: Cursor,
                      searchSize: int, i: nat, cur: Cursor, utxos: seq<UTXO>, left: int, seen: set<ID>,
                      front: seq<ID>, fetch: seq<ID>, p: Progress)
    requires i < |addrs| && Compare(addrs[i], cur.addr) >= 0 && Distinct(ListOf(index, addrs[i]))
    requires Standing(index, table, addrs, start, searchSize, i, cur, utxos, left, seen, front)
    requires fetch == Take(Shown(ListOf(index, addrs[i]), StartFor(addrs[i], cur)), searchSize)
    requires Scanned(table, fetch, utxos, left, cur.id, front, p)
    ensures var cur' := Cursor(addrs[i], p.last);
            if searchSize >= 1 && p.limit <= 0 then
              IsPageOf(index, table, addrs, start, searchSize, Page(p.utxos, cur'))
            else Standing(index, table, addrs, start, searchSize, i + 1, cur', p.utxos, p.limit, p.seen, front + fetch)
  {
    hide Shown, ListOf, StartFor, Searched, Dedup, Elems, IsPage, Distinct, Compare;
    if searchSize >= 1 && p.limit <= 0 {
      StoppedInside(index, addrs, start, i, cur, front, searchSize, fetch, p.read);
    } else {
      assert fetch[..p.read] == fetch;
      if searchSize >= 1 {
        NothingSkipped(index, addrs, start, i, cur, front, searchSize, fetch, p.last);
      }
    }
  }

  lemma FetchOf(index: map<Bytes, seq<ID>>, addrs: seq<ShortID>, start: Cursor, searchSize: int, i: nat, cur: Cursor,
                front: seq<ID>)
    requires i < |addrs| && Compare(addrs[i], cur.addr) >= 0 && Distinct(ListOf(index, addrs[i]))
    requires searchSize >= 1 ==> Searched(index, addrs, start, i, cur, front)
    ensures var l, from := ListOf(index, addrs[i]), StartFor(addrs[i], cur);
            && Collect(From(l, from), from, searchSize) == Take(Shown(l, from), searchSize)
            && forall id :: id in Take(Shown(l, from), searchSize) ==> id in Remaining(index, addrs, start)
  {
    var l, from := ListOf(index, addrs[i]), StartFor(addrs[i], cur);
    ListingIsShown(l, from, searchSize);
    forall id | id in Take(Shown(l, from), searchSize) ensures id in Remaining(index, addrs, start) {
      FetchIsPrefix(index, addrs, start, i, cur, front, searchSize);
      FrontGrows(index, addrs, start, i);
    }
  }

  /** The body of the outer loop for an address at or after the cursor: fetch its identifiers, then read them. */
  method SearchAddress(db: UtxoState, addrs: seq<ShortID>, ghost start: Cursor, searchSize: int, i: nat, cur: Cursor,
                       utxos: seq<UTXO>, left: int, seen: set<ID>, ghost front: seq<ID>)
    returns (r: Result<Progress, FetchError>, ghost front': seq<ID>)
    requires Coherent(db.View()) && i < |addrs| && Compare(addrs[i], cur.addr) >= 0
    requires Standing(db.indexDB, db.utxoDB, addrs, start, searchSize, i, cur, utxos, left, seen, front)
    modifies db`utxoCache
    ensures Coherent(db.View())
    ensures r.Failure? ==> Dangling(db.indexDB, db.utxoDB, addrs, start, r.error)
    ensures r.Success? ==>
              var p, cur' := r.value, Cursor(addrs[i], r.value.last);
              if searchSize >= 1 && p.limit <= 0 then
                IsPageOf(db.indexDB, db.utxoDB, addrs, start, searchSize, Page(p.utxos, cur'))
              else
                Standing(db.indexDB, db.utxoDB, addrs, start, searchSize, i + 1, cur', p.utxos, p.limit, p.seen, front')
  {
    ghost var index := db.indexDB;
    assert Distinct(ListOf(index, addrs[i]));
    var fetch := db.UTXOIDs(addrs[i], StartFor(addrs[i], cur), searchSize);
    FetchOf(index, addrs, start, searchSize, i, cur, front);
    front' := front + fetch;
    r := Scan(db, fetch, utxos, left, cur.id, seen, front);
    if r.Success? {
      AddressIsRead(index, db.utxoDB, addrs, start, searchSize, i, cur, utxos, left, seen, front, fetch, r.value);
    }
  }

  /** The error of a page: an index entry after the cursor names no stored UTXO. */
  ghost predicate Dangling(index: map<Bytes, seq<ID>>, table: map<ID, UTXO>, addrs: seq<ShortID>, start: Cursor,
                           e: FetchError)
  {
    e.CouldNotGet? && e.id !in table && e.id in Remaining(index, addrs, start)
  }

  lemma StandsAtStart(index: map<Bytes, seq<ID>>, table: map<ID, UTXO>, addrs: seq<ShortID>, start: Cursor,
                      searchSize: int)
    requires Ascending(CompareShortIDs, addrs)
    ensures Standing(index, table, addrs, start, searchSize, 0, start, [], searchSize, {}, [])
  {
  }

  lemma Skipped(index: map<Bytes, seq<ID>>, table: map<ID, UTXO>, addrs: seq<ShortID>, start: Cursor, searchSize: int,
                i: nat, cur: Cursor, utxos: seq<UTXO>, left: int, seen: set<ID>, front: seq<ID>)
    requires i < |addrs| && Compare(addrs[i], cur.addr) < 0
    requires Standing(index, table, addrs, start, searchSize, i, cur, utxos, left, seen, front)
    ensures Standing(index, table, addrs, start, searchSize, i + 1, cur, utxos, left, seen, front)
  {
    if searchSize >= 1 {
      SkippedAddress(index, addrs, start, i, cur, front);
    }
  }

  lemma LastPage(index: map<Bytes, seq<ID>>, table: map<ID, UTXO>, addrs: seq<ShortID>, start: Cursor, searchSize: int,
                 cur: Cursor, utxos: seq<UTXO>, left: int, seen: set<ID>, front: seq<ID>)
    requires Standing(index, table, addrs, start, searchSize, |addrs|, cur, utxos, left, seen, front)
    ensures if searchSize <= 0 then utxos == [] else IsPageOf(index, table, addrs, start, searchSize, Page(utxos, cur))
  {
    if searchSize >= 1 {
      ReadToTheEnd(index, addrs, start, cur, front, searchSize);
    }
  }

  /** GetPaginatedUTXOs. The ghost result is the sorted address list. A limit below one returns nothing. */
  method GetPaginatedUTXOs(db: UtxoState, addrs: set<ShortID>, start: Cursor, limit: int)
    returns (r: Result<Page, FetchError>, ghost list: seq<ShortID>)
    requires Coherent(db.View())
    modifies db`utxoCache
    ensures Coherent(db.View())
    ensures Ascending(CompareShortIDs, list) && Elems(list) == addrs
    ensures r.Failure? ==> Dangling(db.indexDB, db.utxoDB, list, start, r.error)
    ensures r.Success? ==>
              if limit <= 0 then r.value.utxos == []
              else IsPageOf(db.indexDB, db.utxoDB, list, start, limit, r.value)
  {
    hide *;
    var utxos: seq<UTXO>, seen: set<ID>, left := [], {}, limit;
    var searchSize := limit;
    var addrsList := SortedList(addrs);
    list := addrsList;
    var cur := start;
    ghost var front: seq<ID> := [];
    StandsAtStart(db.indexDB, db.utxoDB, addrsList, start, searchSize);
    var i := 0;
    while i < |addrsList|
      invariant i <= |addrsList| && Coherent(db.View())
      invariant Standing(db.indexDB, db.utxoDB, addrsList, start, searchSize, i, cur, utxos, left, seen, front)
    {
      var addr := addrsList[i];
      if Compare(addr, cur.addr) < 0 {
        Skipped(db.indexDB, db.utxoDB, addrsList, start, searchSize, i, cur, utxos, left, seen, front);
      } else {
        var searched, front' := SearchAddress(db, addrsList, start, searchSize, i, cur, utxos, left, seen, front);
        if searched.Failure? {
          return Failure(searched.error), addrsList;
        }
        var p := searched.value;
        utxos, left, cur, seen, front := p.utxos, p.limit, Cursor(addr, p.last), p.seen, front';
        if searchSize >= 1 && left <= 0 {
          return Success(Page(utxos, cur)), addrsList;
        }
      }
      i := i + 1;
    }
    LastPage(db.indexDB, db.utxoDB, addrsList, start, searchSize, cur, utxos, left, seen, front);
    return Success(Page(utxos, cur)), addrsList;
  }

  // ----- runs of pages -----

  /** Pages fetched one after the other from an unchanging store, each from the
      cursor the one before returned; all but the last are full. */
  ghost predicate PageRun(index: map<Bytes, seq<ID>>, addrs: seq<ShortID>, limit: int, cursors: seq<Cursor>,
                          pages: seq<seq<ID>>)
  {
    && |cursors| == |pages| + 1
    && (forall i :: 0 <= i < |pages| ==> IsPage(index, addrs, cursors[i], limit, pages[i], cursors[i + 1]))
    && (forall i :: 0 <= i < |pages| - 1 ==> |pages[i]| == limit)
  }

  /** A full page moves the cursor on, and takes from what remains exactly what it returns. */
  lemma FullPageAdvances(index: map<Bytes, seq<ID>>, addrs: seq<ShortID>, c: Cursor, limit: int, ids: seq<ID>,
                         c': Cursor)
    requires IsPage(index, addrs, c, limit, ids, c') && Clear(index, c) && |ids| == limit >= 1
    ensures Clear(index, c')
    ensures |Remaining(index, addrs, c')| < |Remaining(index, addrs, c)|
    ensures Elems(Remaining(index, addrs, c)) == Elems(ids) + Elems(Remaining(index, addrs, c'))
  {
    CutCovers(Remaining(index, addrs, c), limit, ids, Remaining(index, addrs, c'));
  }

  /** A short page takes all that remains. */
  lemma ShortPageEnds(index: map<Bytes, seq<ID>>, addrs: seq<ShortID>, c: Cursor, limit: int, ids: seq<ID>, c': Cursor)
    requires IsPage(index, addrs, c, limit, ids, c') && |ids| < limit
    ensures Elems(Remaining(index, addrs, c)) == Elems(ids)
  {
    CutCovers(Remaining(index, addrs, c), limit, ids, []);
  }

  /** A run of full pages cannot be longer than the number of entries after its
      first cursor: paging ends. Nothing is lost on the way. */
  lemma {:induction false} FullPagesAdvance(index: map<Bytes, seq<ID>>, addrs: seq<ShortID>, limit: int,
                                            cursors: seq<Cursor>, pages: seq<seq<ID>>)
    requires PageRun(index, addrs, limit, cursors, pages) && limit >= 1 && Clear(index, cursors[0])
    requires pages != [] ==> |pages[|pages| - 1]| == limit
    ensures Clear(index, cursors[|pages|])
    ensures |Remaining(index, addrs, cursors[|pages|])| + |pages| <= |Remaining(index, addrs, cursors[0])|
    ensures Elems(Remaining(index, addrs, cursors[0]))
         == Elems(Flatten(pages)) + Elems(Remaining(index, addrs, cursors[|pages|]))
    decreases |pages|
  {
    hide IsPage, Remaining, Clear;
    if pages == [] {
    } else {
      var n := |pages| - 1;
      FullPagesAdvance(index, addrs, limit, cursors[..n + 1], pages[..n]);
      assert IsPage(index, addrs, cursors[n], limit, pages[n], cursors[n + 1]);
      FullPageAdvances(index, addrs, cursors[n], limit, pages[n], cursors[n + 1]);
      ElemsConcat(Flatten(pages[..n]), pages[n]);
    }
  }

  lemma {:induction false} ZerosAreLeast(b: Bytes, n: nat)
    requires |b| == n
    ensures Compare(b, Zeros(n)) >= 0
  {
    if n == 0 {
    } else {
      ZerosAreLeast(b[1..], n - 1);
      assert Zeros(n)[1..] == Zeros(n - 1);
    }
  }

  ghost predicate DistinctLists(index: map<Bytes, seq<ID>>) {
    forall a :: Distinct(ListOf(index, a))
  }

  /** From the empty cursor, which is clear, the part of each list behind the zero identifier is still to come. */
  lemma {:induction false} StartSeesAll(index: map<Bytes, seq<ID>>, addrs: seq<ShortID>, id: ID)
    requires DistinctLists(index)
    ensures Clear(index, START)
    ensures id in Remaining(index, addrs, START) <==> exists a :: a in addrs && id in After(ListOf(index, a), EMPTY)
  {
    ShownFromStart(ListOf(index, START.addr));
    if addrs == [] {
    } else {
      ZerosAreLeast(addrs[0], 20);
      ShownFromStart(ListOf(index, addrs[0]));
      StartSeesAll(index, addrs[1..], id);
      assert Entries(index, addrs[0], START) == After(ListOf(index, addrs[0]), EMPTY);
      assert forall a :: a in addrs <==> a == addrs[0] || a in addrs[1..];
    }
  }

  /** The union of the index lists of the requested addresses. */
  ghost function AllListed(index: map<Bytes, seq<ID>>, addrs: seq<ShortID>): set<ID> {
    set a, id | a in addrs && id in ListOf(index, a) :: id
  }

  /** What the empty cursor sees is that union exactly when it does not hold the zero identifier. */
  lemma StartSeesUnionIff(index: map<Bytes, seq<ID>>, addrs: seq<ShortID>)
    requires DistinctLists(index)
    ensures Elems(Remaining(index, addrs, START)) <= AllListed(index, addrs)
    ensures EMPTY !in Elems(Remaining(index, addrs, START))
    ensures Elems(Remaining(index, addrs, START)) == AllListed(index, addrs) <==> EMPTY !in AllListed(index, addrs)
  {
    forall id
      ensures id in Remaining(index, addrs, START) ==> id in AllListed(index, addrs) && id != EMPTY
      ensures EMPTY !in AllListed(index, addrs) && id in AllListed(index, addrs) ==>
                id in Remaining(index, addrs, START)
    {
      StartSeesAll(index, addrs, id);
      if id in Remaining(index, addrs, START) {
        var a :| a in addrs && id in After(ListOf(index, a), EMPTY);
        ShownDistinct(ListOf(index, a), EMPTY);
        ShownFromStart(ListOf(index, a));
      }
    }
  }

  /** Paging from the empty cursor until a page falls short of the limit yields
      exactly the union of the index lists of the requested addresses, if and
      only if none of these lists holds the zero identifier. */
  lemma PaginationIsCompleteIff(index: map<Bytes, seq<ID>>, addrs: seq<ShortID>, limit: int, cursors: seq<Cursor>,
                                pages: seq<seq<ID>>)
    requires DistinctLists(index) && limit >= 1
    requires PageRun(index, addrs, limit, cursors, pages) && cursors[0] == START
    requires pages != [] && |pages[|pages| - 1]| < limit
    ensures Elems(Flatten(pages)) == AllListed(index, addrs) <==> EMPTY !in AllListed(index, addrs)
  {
    hide IsPage, Remaining, Clear, AllListed;
    var n := |pages| - 1;
    StartSeesAll(index, addrs, EMPTY);
    FullPagesAdvance(index, addrs, limit, cursors[..n + 1], pages[..n]);
    assert IsPage(index, addrs, cursors[n], limit, pages[n], cursors[n + 1]);
    ShortPageEnds(index, addrs, cursors[n], limit, pages[n], cursors[n + 1]);
    ElemsConcat(Flatten(pages[..n]), pages[n]);
    StartSeesUnionIff(index, addrs);
  }

  // ----- reading all pages -----

  /** The stored UTXOs that name one of the addresses. */
  ghost function Owned(table: map<ID, UTXO>, addrs: set<ShortID>): set<ID> {
    set id | id in table && NamesOneOf(table[id], addrs)
  }

  ghost predicate NamesOneOf(u: UTXO, addrs: set<ShortID>) {
    exists a :: a in addrs && a in IndexedUnder(u)
  }

  /** Owned, in plain terms: stored, and one of the addresses is among those of its output. */
  lemma OwnedInPlainTerms(table: map<ID, UTXO>, addrs: set<ShortID>, id: ID)
    ensures id in Owned(table, addrs) <==>
              && id in table && table[id].out.addresses.Some?
              && exists a :: a in addrs && a in table[id].out.addresses.value
  {
    if id in table && table[id].out.addresses.Some? {
      assert forall a :: a in table[id].out.addresses.value <==> a in IndexedUnder(table[id]);
    }
  }

  lemma ListedIsOwned(s: Store, addrs: set<ShortID>, list: seq<ShortID>)
    requires IndexExact(s) && Elems(list) == addrs
    ensures AllListed(s.index, list) == Owned(s.table, addrs)
  {
    assert forall a :: a in list <==> a in addrs;
    forall id | id in Owned(s.table, addrs) ensures id in AllListed(s.index, list) {
      var a :| a in addrs && a in IndexedUnder(s.table[id]);
      assert a in list && id in ListOf(s.index, a);
    }
  }

  /** With an exact index, what lies after the empty cursor is owned, and no entry dangles. */
  lemma OwnedIsRemaining(s: Store, addrs: set<ShortID>, list: seq<ShortID>)
    requires Coherent(s) && IndexExact(s) && Elems(list) == addrs
    ensures var seen := Elems(Remaining(s.index, list, START));
            && seen <= Owned(s.table, addrs)
            && (seen == Owned(s.table, addrs) <==> EMPTY !in Owned(s.table, addrs))
    ensures Clear(s.index, START)
    ensures forall e :: !Dangling(s.index, s.table, list, START, e)
  {
    StartSeesAll(s.index, list, EMPTY);
    StartSeesUnionIff(s.index, list);
    ListedIsOwned(s, addrs, list);
    forall e ensures !Dangling(s.index, s.table, list, START, e) {
      if e.CouldNotGet? && e.id in Remaining(s.index, list, START) {
        assert e.id in Elems(Remaining(s.index, list, START));
      }
    }
  }

  lemma CacheOnly(config: Config, s: Store, s': Store)
    requires Invariant(config, s) && s' == s.(cache := s'.cache) && Coherent(s')
    ensures Invariant(config, s')
  {
  }

  /** A set has one strictly ascending list. */
  lemma {:induction false} AscendingUnique(s: seq<ShortID>, t: seq<ShortID>)
    requires Ascending(CompareShortIDs, s) && Ascending(CompareShortIDs, t) && Elems(s) == Elems(t)
    ensures s == t
  {
    if s == [] || t == [] {
      HasElems(s);
      HasElems(t);
    } else {
      FirstIsLeast(s, t);
      FirstIsLeast(t, s);
      CompareReverse(s[0], t[0]);
      CompareZero(s[0], t[0]);
      RestOf(s);
      RestOf(t);
      AscendingUnique(s[1..], t[1..]);
    }
  }

  lemma HasElems(s: seq<ShortID>)
    ensures Elems(s) == {} <==> s == []
  {
    if s != [] {
      assert s[0] in Elems(s);
    }
  }

  lemma FirstIsLeast(s: seq<ShortID>, t: seq<ShortID>)
    requires Ascending(CompareShortIDs, s) && s != [] && t != [] && t[0] in Elems(s)
    ensures Compare(s[0], t[0]) <= 0
  {
    var k :| 0 <= k < |s| && s[k] == t[0];
    CompareZero(s[0], t[0]);
    assert k > 0 ==> CompareShortIDs(s[0], s[k]) < 0;
  }

  lemma RestOf(s: seq<ShortID>)
    requires Ascending(CompareShortIDs, s) && s != []
    ensures Ascending(CompareShortIDs, s[1..]) && Elems(s[1..]) == Elems(s) - {s[0]}
  {
    AscendingIffDistinct(s);
    assert forall x :: x in s <==> x == s[0] || x in s[1..];
  }

  lemma {:induction false} FetchedConcat(table: map<ID, UTXO>, ids: seq<ID>, utxos: seq<UTXO>, ids': seq<ID>,
                                         utxos': seq<UTXO>)
    requires Fetched(table, ids, utxos) && Fetched(table, ids', utxos')
    ensures Fetched(table, ids + ids', utxos + utxos')
  {
  }

  /** What one more call adds to a reading of all pages. */
  lemma NextPage(index: map<Bytes, seq<ID>>, table: map<ID, UTXO>, addrs: seq<ShortID>, c: Cursor, limit: int,
                 page: Page, ids: seq<ID>, all: seq<UTXO>) returns (ids': seq<ID>)
    requires IsPageOf(index, table, addrs, c, limit, page) && limit >= 1 && Clear(index, c)
    requires Fetched(table, ids, all)
    ensures Fetched(table, ids', all + page.utxos)
    ensures if |page.utxos| < limit then Elems(ids') == Elems(ids) + Elems(Remaining(index, addrs, c))
            else
              && Clear(index, page.cursor)
              && |Remaining(index, addrs, page.cursor)| < |Remaining(index, addrs, c)|
              && Elems(ids) + Elems(Remaining(index, addrs, c))
                == Elems(ids') + Elems(Remaining(index, addrs, page.cursor))
  {
    hide IsPage, Remaining, Clear;
    var new_ :| IsPage(index, addrs, c, limit, new_, page.cursor) && Fetched(table, new_, page.utxos);
    ids' := ids + new_;
    FetchedConcat(table, ids, all, new_, page.utxos);
    ElemsConcat(ids, new_);
    if |new_| < limit {
      ShortPageEnds(index, addrs, c, limit, new_, page.cursor);
    } else {
      PageSize(index, addrs, c, limit, new_, page.cursor);
      FullPageAdvances(index, addrs, c, limit, new_, page.cursor);
    }
  }

  lemma PageSize(index: map<Bytes, seq<ID>>, addrs: seq<ShortID>, c: Cursor, limit: int, ids: seq<ID>, c': Cursor)
    requires IsPage(index, addrs, c, limit, ids, c')
    ensures |ids| <= limit
  {
  }

  lemma StillOwned(index: map<Bytes, seq<ID>>, table: map<ID, UTXO>, addrs: seq<ShortID>, c: Cursor, owned: set<ID>)
    requires Elems(Remaining(index, addrs, c)) <= owned <= table.Keys
    ensures forall e :: !Dangling(index, table, addrs, c, e)
  {
    forall e ensures !Dangling(index, table, addrs, c, e) {
      if e.CouldNotGet? && e.id in Remaining(index, addrs, c) {
        assert e.id in Elems(Remaining(index, addrs, c));
      }
    }
  }

  /** How a caller reads all pages: from the empty cursor, feeding the returned
      cursor back until a page is short. It ends, never fails on an exact
      index, returns stored owned UTXOs only, and misses none exactly when the
      zero identifier is not owned, for every limit. */
  method ReadAllPages(db: UtxoState, addrs: set<ShortID>, limit: int)
    returns (r: Result<seq<UTXO>, FetchError>, ghost ids: seq<ID>)
    requires Invariant(db.config, db.View()) && limit >= 1
    modifies db`utxoCache
    ensures Invariant(db.config, db.View())
    ensures r.Success? && Fetched(db.utxoDB, ids, r.value)
    ensures Elems(ids) <= Owned(db.utxoDB, addrs)
    ensures Elems(ids) == Owned(db.utxoDB, addrs) <==> EMPTY !in Owned(db.utxoDB, addrs)
  {
    hide Clear, Remaining, IsPageOf, Owned, IndexExact, ChecksumExact, Coherent, Fetched, Dangling, Elems, Ascending;
    ghost var s, owned := db.View(), Owned(db.utxoDB, addrs);
    var list := SortedList(addrs);
    OwnedIsRemaining(s, addrs, list);
    NothingFetched(db.utxoDB);
    OwnedIsStored(db.utxoDB, addrs);
    var all: seq<UTXO>, cur := [], START;
    ids := [];
    while true
      invariant Invariant(db.config, db.View())
      invariant Clear(db.indexDB, cur) && Fetched(db.utxoDB, ids, all)
      invariant Elems(ids) + Elems(Remaining(db.indexDB, list, cur)) == Elems(Remaining(db.indexDB, list, START))
      decreases |Remaining(db.indexDB, list, cur)|
    {
      StillOwned(db.indexDB, db.utxoDB, list, cur, owned);
      ghost var before := db.View();
      var page, l := GetPaginatedUTXOs(db, addrs, cur, limit);
      CacheOnly(db.config, before, db.View());
      AscendingUnique(l, list);
      ids := NextPage(db.indexDB, db.utxoDB, list, cur, limit, page.value, ids, all);
      all, cur := all + page.value.utxos, page.value.cursor;
      if |page.value.utxos| < limit {
        return Success(all), ids;
      }
    }
  }

  lemma NothingFetched(table: map<ID, UTXO>)
    ensures Fetched(table, [], []) && Elems<ID>([]) == {}
  {
  }

  lemma OwnedIsStored(table: map<ID, UTXO>, addrs: set<ShortID>)
    ensures Owned(table, addrs) <= table.Keys
  {
  }

  // ----- all UTXOs in one page, and the balance -----

  lemma WholePage(index: map<Bytes, seq<ID>>, table: map<ID, UTXO>, list: seq<ShortID>, limit: int, page: Page)
    returns (ids: seq<ID>)
    requires IsPageOf(index, table, list, START, limit, page) && Clear(index, START)
    ensures Distinct(ids) && Fetched(table, ids, page.utxos)
    ensures var all := Elems(Remaining(index, list, START));
            Elems(ids) <= all && (Elems(ids) == all <==> |all| <= limit)
  {
    hide Remaining;
    ids :| IsPage(index, list, START, limit, ids, page.cursor) && Fetched(table, ids, page.utxos);
    var before := Remaining(index, list, START);
    CutOfAll(before, limit, ids, if |ids| < limit then [] else Remaining(index, list, page.cursor));
  }

  /** A single page is the whole list exactly when the list has no more members than the limit. */
  lemma CutOfAll(before: seq<ID>, limit: int, page: seq<ID>, after: seq<ID>)
    requires IsCut(before, limit, page, after)
    ensures Distinct(page) && Elems(page) <= Elems(before)
    ensures Elems(page) == Elems(before) <==> |Elems(before)| <= limit
  {
    CutCovers(before, limit, page, after);
    DistinctSize(page);
    if |Elems(before)| <= limit && after != [] {
      EqualSize(Elems(page), Elems(before));
    }
  }

  lemma EqualSize<T>(a: set<T>, b: set<T>)
    requires a <= b && |b| <= |a|
    ensures a == b
  {
    if exists x :: x in b && x !in a {
      var x :| x in b && x !in a;
      SubsetSize(a, b - {x});
    }
  }

  /** GetAllUTXOs: never fails on a store with an exact index, returns each
      UTXO once and owned ones only; all of them exactly when they number at
      most MaxInt and the zero identifier is not one of theirs. */
  method GetAllUTXOs(db: UtxoState, addrs: set<ShortID>)
    returns (r: Result<seq<UTXO>, FetchError>, ghost ids: seq<ID>)
    requires Invariant(db.config, db.View())
    modifies db`utxoCache
    ensures Invariant(db.config, db.View())
    ensures r.Success?
    ensures Distinct(ids) && Fetched(db.utxoDB, ids, r.value)
    ensures Elems(ids) <= Owned(db.utxoDB, addrs)
    ensures Elems(ids) == Owned(db.utxoDB, addrs) <==>
              EMPTY !in Owned(db.utxoDB, addrs) && |Owned(db.utxoDB, addrs)| <= MAX_INT
  {
    hide Clear, Remaining, IsPageOf, Owned, IndexExact, ChecksumExact, Dangling;
    ghost var s := db.View();
    var page, list := GetPaginatedUTXOs(db, addrs, START, MAX_INT);
    CacheOnly(db.config, s, db.View());
    OwnedIsRemaining(s, addrs, list);
    StartSeesUnionIff(s.index, list);
    ids := WholePage(db.indexDB, db.utxoDB, list, MAX_INT, page.value);
    return Success(page.value.utxos), ids;
  }

  function SumAmounts(utxos: seq<UTXO>): nat {
    if utxos == [] then 0 else SumAmounts(utxos[..|utxos| - 1]) + AmountOf(utxos[|utxos| - 1])
  }

  lemma {:induction false} SumAmountsBound(utxos: seq<UTXO>, i: nat)
    requires i <= |utxos|
    ensures SumAmounts(utxos[..i]) <= SumAmounts(utxos)
    decreases |utxos|
  {
    if i < |utxos| {
      var init := utxos[..|utxos| - 1];
      assert init[..i] == utxos[..i];
      SumAmountsBound(init, i);
    } else {
      assert utxos[..i] == utxos;
    }
  }

  function Restrict(table: map<ID, UTXO>, ids: set<ID>): map<ID, UTXO> {
    map id | id in table && id in ids :: table[id]
  }

  lemma RestrictSnoc(table: map<ID, UTXO>, ids: seq<ID>, id: ID)
    requires id !in Elems(ids) && id in table
    ensures id !in Restrict(table, Elems(ids))
    ensures Restrict(table, Elems(ids + [id])) == Restrict(table, Elems(ids))[id := table[id]]
  {
    ElemsSnoc(ids, id);
  }

  lemma SumOfNothing(table: map<ID, UTXO>)
    ensures SumValues(Restrict(table, Elems([])), AmountOf) == 0
  {
    assert Restrict(table, Elems([])) == map[];
  }

  /** The running sum over a page does not depend on its order. */
  lemma {:induction false} SumOfFetched(table: map<ID, UTXO>, ids: seq<ID>, utxos: seq<UTXO>)
    requires Distinct(ids) && Fetched(table, ids, utxos)
    ensures SumAmounts(utxos) == SumValues(Restrict(table, Elems(ids)), AmountOf)
    decreases |ids|
  {
    hide Restrict, SumValues, Elems;
    if ids == [] {
      SumOfNothing(table);
    } else {
      var n := |ids| - 1;
      SumOfFetched(table, ids[..n], utxos[..n]);
      assert ids == ids[..n] + [ids[n]];
      NotAmong(ids, n);
      RestrictSnoc(table, ids[..n], ids[n]);
      SumAdd(Restrict(table, Elems(ids[..n])), AmountOf, ids[n], table[ids[n]]);
    }
  }

  /** The balance loop: checked 64-bit addition over a page. */
  method AddUp(utxos: seq<UTXO>) returns (r: Result<uint64, FetchError>)
    ensures r == if SumAmounts(utxos) <= MAX_UINT64 then Success(SumAmounts(utxos)) else Failure(Overflow)
  {
    var balance: uint64 := 0;
    var i := 0;
    while i < |utxos|
      invariant i <= |utxos| && balance == SumAmounts(utxos[..i])
    {
      assert utxos[..i + 1][..i] == utxos[..i];
      SumAmountsBound(utxos, i + 1);
      if utxos[i].out.amount.Some? {
        if utxos[i].out.amount.value > MAX_UINT64 - balance {
          return Failure(Overflow);
        }
        balance := utxos[i].out.amount.value + balance;
      }
      i := i + 1;
    }
    assert utxos[..i] == utxos;
    return Success(balance);
  }

  /** GetBalance: the exact sum of the owned amounts when it fits in 64 bits,
      an error otherwise. The ghost result is what was counted. */
  method GetBalance(db: UtxoState, addrs: set<ShortID>)
    returns (r: Result<uint64, FetchError>, ghost counted: set<ID>)
    requires Invariant(db.config, db.View())
    modifies db`utxoCache
    ensures Invariant(db.config, db.View())
    ensures counted <= Owned(db.utxoDB, addrs)
    ensures counted == Owned(db.utxoDB, addrs) <==>
              EMPTY !in Owned(db.utxoDB, addrs) && |Owned(db.utxoDB, addrs)| <= MAX_INT
    ensures var total := SumValues(Restrict(db.utxoDB, counted), AmountOf);
            r == if total <= MAX_UINT64 then Success(total) else Failure(Overflow)
  {
    var all, ids := GetAllUTXOs(db, addrs);
    counted := Elems(ids);
    SumOfFetched(db.utxoDB, ids, all.value);
    r := AddUp(all.value);
  }
}
