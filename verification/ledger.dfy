/** The ledger step of an accepted transaction: Consume its inputs, Produce its outputs. */
module Ledger {
  import opened Bytes
  import opened Folds
  import opened Sorting
  import opened Transferables
  import opened Utxo
  import opened UtxoState

  // ----- the two loops -----

  function SourceID(prefix: Prefix, i: Input): ID {
    prefix(i.txID, i.outputIndex)
  }

  function SourceIDs(prefix: Prefix, ins: seq<Input>): set<ID> {
    set i | i in ins :: SourceID(prefix, i)
  }

  /** The UTXO made from the k-th output of a transaction. */
  function Created(txID: ID, outs: seq<Output>, k: nat): UTXO
    requires k < |outs|
  {
    UTXO(txID, ToUint32(k), outs[k].asset, outs[k].out.value)
  }

  function ProduceAll(config: Config, table: map<ID, UTXO>, txID: ID, outs: seq<Output>, n: nat): map<ID, UTXO>
    requires n <= |outs|
  {
    if n == 0 then table
    else Plain(config, ProduceAll(config, table, txID, outs, n - 1), Put(Created(txID, outs, n - 1)))
  }

  /** No output of the transaction takes an identifier that is stored or that another of its outputs takes. */
  ghost predicate FreshOutputs(config: Config, table: map<ID, UTXO>, txID: ID, outs: seq<Output>) {
    && (forall k :: 0 <= k < |outs| ==> InputID(config.prefix, Created(txID, outs, k)) !in table)
    && (forall j, k :: 0 <= j < k < |outs| ==>
          InputID(config.prefix, Created(txID, outs, j)) != InputID(config.prefix, Created(txID, outs, k)))
  }

  /** The outputs of the transaction take pairwise different identifiers. */
  ghost predicate DistinctIDs(prefix: Prefix, txID: ID, outs: seq<Output>) {
    forall j, k :: 0 <= j < k < |outs| ==> prefix(txID, ToUint32(j)) != prefix(txID, ToUint32(k))
  }

  /** What producing does, in plain terms: output k is stored under the identifier of
      the transaction and the index k, as it is, unless it has no wire bytes;
      nothing else changes. */
  ghost predicate OutputsStored(prefix: Prefix, txID: ID, outs: seq<Output>, before: map<ID, UTXO>,
                                after: map<ID, UTXO>)
  {
    HasOutputs(prefix, txID, outs, after) && OthersKept(prefix, txID, outs, before, after)
  }

  ghost predicate HasOutputs(prefix: Prefix, txID: ID, outs: seq<Output>, after: map<ID, UTXO>) {
    forall k :: 0 <= k < |outs| && outs[k].out.value.wire.Some? ==>
      && prefix(txID, ToUint32(k)) in after
      && after[prefix(txID, ToUint32(k))] == UTXO(txID, ToUint32(k), outs[k].asset, outs[k].out.value)
  }

  /** No storable output takes this identifier. */
  ghost predicate Untaken(prefix: Prefix, txID: ID, outs: seq<Output>, id: ID) {
    forall k :: 0 <= k < |outs| && outs[k].out.value.wire.Some? ==> prefix(txID, ToUint32(k)) != id
  }

  ghost predicate OthersKept(prefix: Prefix, txID: ID, outs: seq<Output>, before: map<ID, UTXO>, after: map<ID, UTXO>) {
    forall id :: Untaken(prefix, txID, outs, id) ==>
      (id in after <==> id in before) && (id in after ==> after[id] == before[id])
  }

  /** What consuming does, in plain terms: the identifiers of the inputs' sources are gone, nothing else changes. */
  ghost predicate SourcesGone(prefix: Prefix, ins: seq<Input>, before: map<ID, UTXO>, after: map<ID, UTXO>) {
    && (forall i :: 0 <= i < |ins| ==> prefix(ins[i].txID, ins[i].outputIndex) !in after)
    && (forall id :: (forall i :: 0 <= i < |ins| ==> prefix(ins[i].txID, ins[i].outputIndex) != id) ==>
          && (id in after <==> id in before)
          && (id in after ==> after[id] == before[id]))
  }

  lemma SourcesAreGone(prefix: Prefix, ins: seq<Input>, before: map<ID, UTXO>)
    ensures SourcesGone(prefix, ins, before, before - SourceIDs(prefix, ins))
  {
    forall i | 0 <= i < |ins| ensures prefix(ins[i].txID, ins[i].outputIndex) in SourceIDs(prefix, ins) {
      assert ins[i] in ins;
    }
  }

  lemma OneOutput(config: Config, txID: ID, outs: seq<Output>, before: map<ID, UTXO>, after: map<ID, UTXO>)
    requires outs != [] && DistinctIDs(config.prefix, txID, outs)
    requires var n := |outs| - 1; OutputsStored(config.prefix, txID, outs[..n], before, after)
    ensures OutputsStored(config.prefix, txID, outs, before,
                          Plain(config, after, Put(Created(txID, outs, |outs| - 1))))
  {
    var n := |outs| - 1;
    var last := config.prefix(txID, ToUint32(n));
    var u := UTXO(txID, ToUint32(n), outs[n].asset, outs[n].out.value);
    var now := Plain(config, after, Put(Created(txID, outs, n)));
    assert now == if outs[n].out.value.wire.Some? then after[last := u] else after;
    LastApart(config.prefix, txID, outs);
    hide ToUint32, Plain, Created, DistinctIDs;
    StoredSnoc(config.prefix, txID, outs, before, after, now);
  }

  lemma LastApart(prefix: Prefix, txID: ID, outs: seq<Output>)
    requires outs != [] && DistinctIDs(prefix, txID, outs)
    ensures forall k :: 0 <= k < |outs| - 1 ==> prefix(txID, ToUint32(k)) != prefix(txID, ToUint32(|outs| - 1))
  {
  }

  lemma StoredSnoc(prefix: Prefix, txID: ID, outs: seq<Output>, before: map<ID, UTXO>, after: map<ID, UTXO>,
                   now: map<ID, UTXO>)
    requires outs != []
    requires forall k :: 0 <= k < |outs| - 1 ==> prefix(txID, ToUint32(k)) != prefix(txID, ToUint32(|outs| - 1))
    requires OutputsStored(prefix, txID, outs[..|outs| - 1], before, after)
    requires var n := |outs| - 1;
             now == if outs[n].out.value.wire.Some?
                    then after[prefix(txID, ToUint32(n)) := UTXO(txID, ToUint32(n), outs[n].asset, outs[n].out.value)]
                    else after
    ensures OutputsStored(prefix, txID, outs, before, now)
  {
    var n := |outs| - 1;
    var init := outs[..n];
    assert forall k :: 0 <= k < n ==> init[k] == outs[k];
    hide ToUint32;
    assert HasOutputs(prefix, txID, outs, now) by {
      hide OthersKept;
    }
    forall id | Untaken(prefix, txID, outs, id)
      ensures (id in now <==> id in before) && (id in now ==> now[id] == before[id])
    {
      hide HasOutputs;
      UntakenBefore(prefix, txID, outs, id);
    }
    hide HasOutputs;
  }

  lemma UntakenBefore(prefix: Prefix, txID: ID, outs: seq<Output>, id: ID)
    requires outs != [] && Untaken(prefix, txID, outs, id)
    ensures Untaken(prefix, txID, outs[..|outs| - 1], id)
    ensures outs[|outs| - 1].out.value.wire.Some? ==> prefix(txID, ToUint32(|outs| - 1)) != id
  {
    hide ToUint32;
  }

  lemma {:induction false} OutputsAreStored(config: Config, txID: ID, outs: seq<Output>, before: map<ID, UTXO>, n: nat)
    requires n <= |outs| && DistinctIDs(config.prefix, txID, outs)
    ensures OutputsStored(config.prefix, txID, outs[..n], before, ProduceAll(config, before, txID, outs, n))
  {
    hide OutputsStored, Plain;
    if n == 0 {
      NothingStored(config.prefix, txID, before);
      assert outs[..0] == [];
    } else {
      OutputsAreStored(config, txID, outs, before, n - 1);
      assert outs[..n][..n - 1] == outs[..n - 1];
      OneOutput(config, txID, outs[..n], before, ProduceAll(config, before, txID, outs, n - 1));
    }
  }

  lemma NothingStored(prefix: Prefix, txID: ID, before: map<ID, UTXO>)
    ensures OutputsStored(prefix, txID, [], before, before)
  {
  }

  lemma {:induction false} StillFresh(config: Config, table: map<ID, UTXO>, txID: ID, outs: seq<Output>, n: nat, k: nat)
    requires FreshOutputs(config, table, txID, outs) && n <= k < |outs|
    ensures InputID(config.prefix, Created(txID, outs, k)) !in ProduceAll(config, table, txID, outs, n)
  {
    if n == 0 {
    } else {
      StillFresh(config, table, txID, outs, n - 1, k);
    }
  }

  /** Consume: every named UTXO is gone, nothing else changes, and an exact store stays exact. */
  method Consume(db: UtxoState, ins: seq<Input>)
    requires Coherent(db.View())
    modifies db
    ensures Coherent(db.View())
    ensures db.utxoDB == old(db.utxoDB) - SourceIDs(db.config.prefix, ins)
    ensures SourcesGone(db.config.prefix, ins, old(db.utxoDB), db.utxoDB)
    ensures old(Invariant(db.config, db.View())) ==> Invariant(db.config, db.View())
  {
    hide Next, Coherent, IndexExact, ChecksumExact;
    var k := 0;
    while k < |ins|
      invariant k <= |ins| && Coherent(db.View())
      invariant db.utxoDB == old(db.utxoDB) - SourceIDs(db.config.prefix, ins[..k])
      invariant old(Invariant(db.config, db.View())) ==> Invariant(db.config, db.View())
    {
      ghost var s := db.View();
      var id := SourceID(db.config.prefix, ins[k]);
      var reply := db.DeleteUTXO(id);
      CallsAreCoherent(db.config, s, Delete(id), db.View(), reply);
      if Invariant(db.config, s) {
        FreshCallsKeepInvariant(db.config, s, Delete(id), db.View(), reply);
      }
      assert ins[..k + 1] == ins[..k] + [ins[k]];
      SourceIDsSnoc(db.config.prefix, ins[..k], ins[k]);
      k := k + 1;
    }
    assert ins[..k] == ins;
    SourcesAreGone(db.config.prefix, ins, old(db.utxoDB));
  }

  lemma SourceIDsSnoc(prefix: Prefix, ins: seq<Input>, i: Input)
    ensures SourceIDs(prefix, ins + [i]) == SourceIDs(prefix, ins) + {SourceID(prefix, i)}
  {
    assert forall x :: x in ins + [i] <==> x in ins || x == i;
  }

  /** Produce: the outputs are stored one by one; with fresh identifiers an exact store stays exact. */
  method Produce(db: UtxoState, txID: ID, outs: seq<Output>)
    requires Coherent(db.View())
    modifies db
    ensures Coherent(db.View())
    ensures db.utxoDB == ProduceAll(db.config, old(db.utxoDB), txID, outs, |outs|)
    ensures DistinctIDs(db.config.prefix, txID, outs) ==>
              OutputsStored(db.config.prefix, txID, outs, old(db.utxoDB), db.utxoDB)
    ensures (old(Invariant(db.config, db.View())) && FreshOutputs(db.config, old(db.utxoDB), txID, outs))
              ==> Invariant(db.config, db.View())
  {
    hide Next, Coherent, IndexExact, ChecksumExact;
    var k := 0;
    while k < |outs|
      invariant k <= |outs| && Coherent(db.View())
      invariant db.utxoDB == ProduceAll(db.config, old(db.utxoDB), txID, outs, k)
      invariant (old(Invariant(db.config, db.View())) && FreshOutputs(db.config, old(db.utxoDB), txID, outs))
                  ==> Invariant(db.config, db.View())
    {
      ghost var s := db.View();
      var u := Created(txID, outs, k);
      var reply := db.PutUTXO(u);
      CallsAreCoherent(db.config, s, Put(u), db.View(), reply);
      if Invariant(db.config, s) && FreshOutputs(db.config, old(db.utxoDB), txID, outs) {
        StillFresh(db.config, old(db.utxoDB), txID, outs, k, k);
        FreshCallsKeepInvariant(db.config, s, Put(u), db.View(), reply);
      }
      k := k + 1;
    }
    if DistinctIDs(db.config.prefix, txID, outs) {
      OutputsAreStored(db.config, txID, outs, old(db.utxoDB), |outs|);
      assert outs[..|outs|] == outs;
    }
  }

  // ----- value -----

  /** The total stored amount of an asset. */
  ghost function Worth(table: map<ID, UTXO>, asset: ID): nat {
    SumValues(table, Holding(asset))
  }

  /** The input states the source, asset and amount of a stored UTXO. */
  predicate NamesStored(prefix: Prefix, table: map<ID, UTXO>, i: Input) {
    var id := SourceID(prefix, i);
    && id in table
    && table[id].txID == i.txID && table[id].outputIndex == i.outputIndex
    && table[id].asset == i.asset && AmountOf(table[id]) == i.in_.value.amount
  }

  ghost predicate AllNamed(prefix: Prefix, table: map<ID, UTXO>, ins: seq<Input>) {
    forall k :: 0 <= k < |ins| ==> NamesStored(prefix, table, ins[k])
  }

  ghost predicate NoDoubleSpend(ins: seq<Input>) {
    forall i, j :: 0 <= i < j < |ins| ==> !SameSource(ins[i], ins[j])
  }

  /** What the inputs claim beyond what they name: amounts of inputs whose source came before. */
  function Repeated(ins: seq<Input>, asset: ID): nat {
    if ins == [] then 0
    else
      var n := |ins| - 1;
      Repeated(ins[..n], asset) + if SpentBefore(ins, n) && ins[n].asset == asset then ins[n].in_.value.amount else 0
  }

  predicate SpentBefore(ins: seq<Input>, n: nat)
    requires n < |ins|
  {
    exists i :: 0 <= i < n && SameSource(ins[i], ins[n])
  }

  /** Consuming removes exactly what the inputs claim, minus what they claim twice. */
  lemma {:induction false} ConsumedWorth(prefix: Prefix, table: map<ID, UTXO>, ins: seq<Input>, asset: ID)
    requires AllNamed(prefix, table, ins)
    ensures Worth(table - SourceIDs(prefix, ins), asset) + InTotal(ins, asset)
              == Worth(table, asset) + Repeated(ins, asset)
    decreases |ins|
  {
    if ins == [] {
      assert table - SourceIDs(prefix, ins) == table;
    } else {
      var n := |ins| - 1;
      var rest := table - SourceIDs(prefix, ins[..n]);
      var id := SourceID(prefix, ins[n]);
      ConsumedWorth(prefix, table, ins[..n], asset);
      assert ins == ins[..n] + [ins[n]];
      SourceIDsSnoc(prefix, ins[..n], ins[n]);
      assert table - SourceIDs(prefix, ins) == rest - {id};
      SpentBeforeIff(prefix, table, ins, n);
      hide SpentBefore;
      if SpentBefore(ins, n) {
        assert rest - {id} == rest;
      } else {
        SumRemove(rest, Holding(asset), id);
      }
    }
  }

  lemma SpentBeforeIff(prefix: Prefix, table: map<ID, UTXO>, ins: seq<Input>, n: nat)
    requires AllNamed(prefix, table, ins) && n < |ins|
    ensures SpentBefore(ins, n) <==> SourceID(prefix, ins[n]) in SourceIDs(prefix, ins[..n])
  {
    var id := SourceID(prefix, ins[n]);
    if SpentBefore(ins, n) {
      var i :| 0 <= i < n && SameSource(ins[i], ins[n]);
      assert ins[i] in ins[..n];
    }
    if id in SourceIDs(prefix, ins[..n]) {
      var x :| x in ins[..n] && SourceID(prefix, x) == id;
      var i :| 0 <= i < n && ins[i] == x;
      assert NamesStored(prefix, table, ins[i]) && NamesStored(prefix, table, ins[n]);
      assert SameSource(ins[i], ins[n]);
    }
  }

  /** The flow check counts exactly what is removed if and only if every repeated source is worthless. */
  lemma ConsumptionIsExactIff(prefix: Prefix, table: map<ID, UTXO>, ins: seq<Input>)
    requires AllNamed(prefix, table, ins)
    ensures CountsExactly(prefix, table, ins) <==> RepeatsAreWorthless(ins, |ins|)
  {
    hide Worth, InTotal, SourceIDs, RepeatsAreWorthless, Repeated;
    assert ins[..|ins|] == ins;
    RepeatedIsZeroIff(ins, |ins|);
    if CountsExactly(prefix, table, ins) {
      forall asset ensures Repeated(ins, asset) == 0 {
        ConsumedWorth(prefix, table, ins, asset);
      }
    }
    if NoRepeats(ins) {
      forall asset ensures Worth(table - SourceIDs(prefix, ins), asset) + InTotal(ins, asset) == Worth(table, asset) {
        ConsumedWorth(prefix, table, ins, asset);
        assert Repeated(ins, asset) == 0;
      }
    }
  }

  ghost predicate CountsExactly(prefix: Prefix, table: map<ID, UTXO>, ins: seq<Input>) {
    forall asset :: Worth(table - SourceIDs(prefix, ins), asset) + InTotal(ins, asset) == Worth(table, asset)
  }

  ghost predicate RepeatsAreWorthless(ins: seq<Input>, n: nat)
    requires n <= |ins|
  {
    forall k :: 0 <= k < n && SpentBefore(ins, k) ==> ins[k].in_.value.amount == 0
  }

  ghost predicate NoRepeats(ins: seq<Input>) {
    forall asset :: Repeated(ins, asset) == 0
  }

  lemma RepeatedSnoc(ins: seq<Input>, n: nat, asset: ID)
    requires n < |ins|
    ensures Repeated(ins[..n + 1], asset)
         == Repeated(ins[..n], asset)
            + if SpentBefore(ins, n) && ins[n].asset == asset then ins[n].in_.value.amount else 0
  {
    assert ins[..n + 1][..n] == ins[..n];
    if SpentBefore(ins, n) {
      var i :| 0 <= i < n && SameSource(ins[i], ins[n]);
      assert SameSource(ins[..n + 1][i], ins[..n + 1][n]);
    }
  }

  lemma NoRepeatsSnoc(ins: seq<Input>, n: nat)
    requires n < |ins|
    ensures NoRepeats(ins[..n + 1]) <==> NoRepeats(ins[..n]) && (SpentBefore(ins, n) ==> ins[n].in_.value.amount == 0)
  {
    hide Repeated, SpentBefore;
    var now, before, last := ins[..n + 1], ins[..n], ins[n];
    RepeatedSnoc(ins, n, last.asset);
    if NoRepeats(now) {
      assert Repeated(now, last.asset) == 0;
      forall asset ensures Repeated(before, asset) == 0 {
        RepeatedSnoc(ins, n, asset);
        assert Repeated(now, asset) == 0;
      }
    }
    if NoRepeats(before) && (SpentBefore(ins, n) ==> last.in_.value.amount == 0) {
      forall asset ensures Repeated(now, asset) == 0 {
        RepeatedSnoc(ins, n, asset);
        assert Repeated(before, asset) == 0;
      }
    }
  }

  lemma {:induction false} RepeatedIsZeroIff(ins: seq<Input>, n: nat)
    requires n <= |ins|
    ensures NoRepeats(ins[..n]) <==> RepeatsAreWorthless(ins, n)
  {
    if n == 0 {
    } else {
      hide Repeated, SpentBefore, NoRepeats;
      RepeatedIsZeroIff(ins, n - 1);
      NoRepeatsSnoc(ins, n - 1);
    }
  }

  lemma {:induction false} NothingRepeated(ins: seq<Input>, asset: ID)
    requires NoDoubleSpend(ins)
    ensures Repeated(ins, asset) == 0
    decreases |ins|
  {
    if ins == [] {
    } else {
      NothingRepeated(ins[..|ins| - 1], asset);
    }
  }

  /** The amounts of the outputs that can be stored: those with wire bytes. */
  function StoredTotal(outs: seq<Output>, asset: ID): nat {
    if outs == [] then 0
    else
      var o := outs[|outs| - 1];
      StoredTotal(outs[..|outs| - 1], asset)
      + if o.asset == asset && o.out.value.wire.Some? then Amount(o.out.value) else 0
  }

  lemma {:induction false} StoredAtMost(outs: seq<Output>, asset: ID)
    ensures StoredTotal(outs, asset) <= OutTotal(outs, asset)
    ensures (forall o :: o in outs ==> o.out.value.wire.Some?) ==> StoredTotal(outs, asset) == OutTotal(outs, asset)
    decreases |outs|
  {
    if outs == [] {
    } else {
      StoredAtMost(outs[..|outs| - 1], asset);
    }
  }

  /** Producing adds exactly the amounts of the outputs that can be stored. */
  lemma {:induction false} ProducedWorth(config: Config, table: map<ID, UTXO>, txID: ID, outs: seq<Output>, n: nat,
                                         asset: ID)
    requires FreshOutputs(config, table, txID, outs) && n <= |outs|
    ensures Worth(ProduceAll(config, table, txID, outs, n), asset)
              == Worth(table, asset) + StoredTotal(outs[..n], asset)
  {
    if n == 0 {
    } else {
      ProducedWorth(config, table, txID, outs, n - 1, asset);
      var u := Created(txID, outs, n - 1);
      assert outs[..n][..n - 1] == outs[..n - 1];
      StillFresh(config, table, txID, outs, n - 1, n - 1);
      SumAdd(ProduceAll(config, table, txID, outs, n - 1), Holding(asset), InputID(config.prefix, u), u);
    }
  }

  // ----- transactions -----

  datatype Tx = Tx(id: ID, fee: uint64, ins: seq<seq<Input>>, outs: seq<Output>)

  /** The table after the transaction's Consume and Produce. */
  function Applied(config: Config, table: map<ID, UTXO>, tx: Tx): map<ID, UTXO> {
    ProduceAll(config, table - SourceIDs(config.prefix, Flatten(tx.ins)), tx.id, tx.outs, |tx.outs|)
  }

  /** An accepted transaction with globally distinct inputs that name stored UTXOs, and fresh output identifiers. */
  ghost predicate Legal(config: Config, feeAsset: ID, table: map<ID, UTXO>, tx: Tx) {
    && Accepted(tx.fee, feeAsset, tx.ins, [tx.outs])
    && AllNamed(config.prefix, table, Flatten(tx.ins))
    && NoDoubleSpend(Flatten(tx.ins))
    && FreshOutputs(config, table - SourceIDs(config.prefix, Flatten(tx.ins)), tx.id, tx.outs)
  }

  /** Joining verified inputs is the same whether or not their type says that they are verified. */
  lemma {:induction false} FlattenVerified(lists: seq<seq<Input>>)
    ensures Flatten<Input>(lists) == Flatten<TransferableInput>(lists)
  {
    if lists == [] {
    } else {
      FlattenVerified(lists[..|lists| - 1]);
    }
  }

  lemma FlattenOne<T>(s: seq<T>)
    ensures Flatten([s]) == s
  {
    assert [s][..0] == [];
    assert Flatten([s]) == Flatten([s][..0]) + s;
  }

  /** The exact change of an asset's total under a transaction, accepted or not. */
  lemma BalanceSheet(config: Config, table: map<ID, UTXO>, tx: Tx, asset: ID)
    requires AllNamed(config.prefix, table, Flatten(tx.ins))
    requires FreshOutputs(config, table - SourceIDs(config.prefix, Flatten(tx.ins)), tx.id, tx.outs)
    ensures Worth(Applied(config, table, tx), asset) + InTotal(Flatten(tx.ins), asset)
         == Worth(table, asset) + Repeated(Flatten(tx.ins), asset) + StoredTotal(tx.outs, asset)
  {
    hide Worth, ProduceAll, SourceIDs, InTotal, StoredTotal, Repeated;
    var ins := Flatten(tx.ins);
    FlattenVerified(tx.ins);
    ConsumedWorth(config.prefix, table, ins, asset);
    ProducedWorth(config, table - SourceIDs(config.prefix, ins), tx.id, tx.outs, |tx.outs|, asset);
    assert tx.outs[..|tx.outs|] == tx.outs;
  }

  /** A transaction keeps an asset's total, less the fee, exactly when its
      inputs also pay for what they claim twice: this the transaction alone decides. */
  lemma ConservesIff(config: Config, feeAsset: ID, table: map<ID, UTXO>, tx: Tx, asset: ID)
    requires AllNamed(config.prefix, table, Flatten(tx.ins))
    requires FreshOutputs(config, table - SourceIDs(config.prefix, Flatten(tx.ins)), tx.id, tx.outs)
    ensures Worth(Applied(config, table, tx), asset) + Fee(tx.fee, feeAsset, asset) <= Worth(table, asset)
       <==> StoredTotal(tx.outs, asset) + Fee(tx.fee, feeAsset, asset) + Repeated(Flatten(tx.ins), asset)
              <= InTotal(Flatten(tx.ins), asset)
  {
    hide Worth, Applied, InTotal, StoredTotal, Repeated;
    BalanceSheet(config, table, tx, asset);
  }

  /** No asset's total grows, and the fee asset's falls by at least the fee. */
  lemma TransactionConserves(config: Config, feeAsset: ID, table: map<ID, UTXO>, tx: Tx, asset: ID)
    requires Legal(config, feeAsset, table, tx)
    ensures Worth(Applied(config, table, tx), asset) + Fee(tx.fee, feeAsset, asset) <= Worth(table, asset)
  {
    hide Worth, Applied, SourceIDs, InTotal, OutTotal, StoredTotal, Repeated;
    var ins := Flatten(tx.ins);
    FlattenOne<TransferableOutput>(tx.outs);
    FlattenVerified(tx.ins);
    NothingRepeated(ins, asset);
    StoredAtMost(tx.outs, asset);
    assert OutTotal(tx.outs, asset) + Fee(tx.fee, feeAsset, asset) <= InTotal(ins, asset);
    ConservesIff(config, feeAsset, table, tx, asset);
  }

  /** With a single input list acceptance itself rules out double spending. */
  lemma SingleListSpendsOnce(fee: uint64, feeAsset: ID, ins: seq<Input>, outs: seq<Output>)
    requires Accepted(fee, feeAsset, [ins], [outs])
    ensures NoDoubleSpend(Flatten([ins]))
  {
    FlattenOne<Input>(ins);
    assert InListOk(ins) by {
      assert ins in [ins];
    }
    forall i, j | 0 <= i < j < |ins| ensures !SameSource(ins[i], ins[j]) {
      CompareInputsReverse(ins[i], ins[j]);
      assert CompareInputs(ins[i], ins[j]) < 0;
    }
  }

  function SpendOf(u: UTXO): TransferableInput {
    var amount := if AmountOf(u) <= MAX_UINT64 then AmountOf(u) else 0;
    TransferableInput(u.txID, u.outputIndex, u.asset, Some(FxInput(amount, true)))
  }

  /** The scan looks at one list at a time: any stored UTXO with value can be
      named in two lists of one accepted transaction, which then creates value.
      So distinctness across lists is the caller's to ensure. */
  lemma SharedInputMintsValue(config: Config, feeAsset: ID, table: map<ID, UTXO>, u: UTXO, txID: ID, wire: Bytes)
    returns (tx: Tx)
    requires InputID(config.prefix, u) in table && table[InputID(config.prefix, u)] == u
    requires u.asset != EMPTY && 0 < AmountOf(u) && 2 * AmountOf(u) <= MAX_UINT64
    requires config.prefix(txID, 0) !in table
    ensures Accepted(tx.fee, feeAsset, tx.ins, [tx.outs])
    ensures AllNamed(config.prefix, table, Flatten(tx.ins))
    ensures FreshOutputs(config, table - SourceIDs(config.prefix, Flatten(tx.ins)), tx.id, tx.outs)
    ensures Worth(Applied(config, table, tx), u.asset) > Worth(table, u.asset)
  {
    var i := SpendOf(u);
    var o := TransferableOutput(u.asset, Some(FxOutput(Some(2 * AmountOf(u)), None, Some(wire), true)));
    tx := Tx(txID, 0, [[i], [i]], [o]);
    TwoSpends(i, o, feeAsset);
    FlattenVerified(tx.ins);
    assert Flatten(tx.ins) == [i, i];
    TwiceClaimed(i, o);
    hide Accepted, Worth, Applied, InTotal, StoredTotal, Repeated;
    BalanceSheet(config, table, tx, u.asset);
  }

  /** Two claims of one source and one output of twice the amount. */
  lemma TwiceClaimed(i: Input, o: Output)
    requires o.asset == i.asset && Amount(o.out.value) == 2 * i.in_.value.amount && o.out.value.wire.Some?
    ensures InTotal([i, i], i.asset) == 2 * i.in_.value.amount
    ensures Repeated([i, i], i.asset) == i.in_.value.amount
    ensures StoredTotal([o], i.asset) == 2 * i.in_.value.amount
  {
    assert [i, i][..1] == [i] && [i][..0] == [] && [o][..0] == [];
    assert InTotal([i], i.asset) == i.in_.value.amount;
    assert SameSource([i, i][0], [i, i][1]) && SpentBefore([i, i], 1);
    assert !SpentBefore([i], 0);
    assert Repeated([i], i.asset) == 0;
  }

  /** The bound on the amount is needed: in an accepted transaction two inputs
      of one asset, of one source or not, fit in 64 bits together. */
  lemma AcceptedPairFits(fee: uint64, feeAsset: ID, allIns: seq<seq<Input>>, outs: seq<Output>, i: nat, j: nat)
    requires Accepted(fee, feeAsset, allIns, [outs])
    requires i < j < |Flatten(allIns)| && Flatten(allIns)[i].asset == Flatten(allIns)[j].asset
    ensures Flatten(allIns)[i].in_.value.amount + Flatten(allIns)[j].in_.value.amount <= MAX_UINT64
  {
    hide InTotal, OutTotal, OutListOk, InListOk;
    FlattenVerified(allIns);
    PairCounts(Flatten(allIns), i, j);
  }

  lemma {:induction false} PairCounts(ins: seq<Input>, i: nat, j: nat)
    requires i < j < |ins| && ins[i].asset == ins[j].asset
    ensures InTotal(ins, ins[j].asset) >= ins[i].in_.value.amount + ins[j].in_.value.amount
    decreases |ins|
  {
    var n := |ins| - 1;
    if j == n {
      OneCounts(ins[..n], i);
    } else {
      PairCounts(ins[..n], i, j);
    }
  }

  lemma {:induction false} OneCounts(ins: seq<Input>, i: nat)
    requires i < |ins|
    ensures InTotal(ins, ins[i].asset) >= ins[i].in_.value.amount
    decreases |ins|
  {
    var n := |ins| - 1;
    if i == n {
    } else {
      OneCounts(ins[..n], i);
    }
  }

  lemma TwoSpends(i: Input, o: Output, feeAsset: ID)
    requires o.asset == i.asset && Amount(o.out.value) == 2 * i.in_.value.amount <= MAX_UINT64
    ensures Flatten<TransferableInput>([[i], [i]]) == [i, i]
    ensures Accepted(0, feeAsset, [[i], [i]], [[o]])
  {
    FlattenOne<TransferableOutput>([o]);
    FlattenOne<TransferableInput>([i]);
    assert [[i], [i]][..1] == [[i]];
    assert Flatten<TransferableInput>([[i], [i]]) == [i, i];
    forall asset
      ensures InTotal([i, i], asset) == if i.asset == asset then 2 * i.in_.value.amount else 0
      ensures OutTotal([o], asset) == if o.asset == asset then Amount(o.out.value) else 0
    {
      assert [i, i][..1] == [i] && [i][..0] == [] && [o][..0] == [];
      assert InTotal([i], asset) == if i.asset == asset then i.in_.value.amount else 0;
    }
  }

  /** A transaction on a store: VerifyTx, and if it passes Consume and Produce.
      A refused transaction changes nothing. An accepted one that names stored
      UTXOs, each once, and takes fresh identifiers keeps the store exact and
      conserves every asset. */
  method Apply(db: UtxoState, feeAsset: ID, fee: uint64, txID: ID, ins: seq<seq<TransferableInput>>,
               outs: seq<TransferableOutput>)
    returns (err: Option<TxError>, ghost tx: Option<Tx>)
    requires Invariant(db.config, db.View())
    modifies db
    ensures err.None? <==> Accepted(fee, feeAsset, ins, [outs])
    ensures err.Some? ==> db.View() == old(db.View())
    ensures err.None? ==>
              && tx.Some? && tx.value.id == txID && tx.value.fee == fee && tx.value.ins == ins && tx.value.outs == outs
              && Coherent(db.View()) && db.utxoDB == Applied(db.config, old(db.utxoDB), tx.value)
    ensures err.None? && DistinctIDs(db.config.prefix, txID, tx.value.outs) ==>
              exists left :: SourcesGone(db.config.prefix, Flatten(tx.value.ins), old(db.utxoDB), left)
                             && OutputsStored(db.config.prefix, txID, tx.value.outs, left, db.utxoDB)
    ensures err.None? && Legal(db.config, feeAsset, old(db.utxoDB), tx.value) ==>
              && Invariant(db.config, db.View())
              && forall asset ::
                   Worth(db.utxoDB, asset) + Fee(fee, feeAsset, asset) <= Worth(old(db.utxoDB), asset)
  {
    hide Coherent, IndexExact, ChecksumExact, Worth, FlowFits, ProduceAll, SourceIDs, FreshOutputs, AllNamed;
    hide NoDoubleSpend, SourcesGone, OutputsStored, DistinctIDs;
    ghost var config, table := db.config, db.utxoDB;
    err := VerifyTx(fee, feeAsset, ins, [outs]);
    if err.Some? {
      return err, None;
    }
    FlattenOne<TransferableOutput>(outs);
    assert forall l :: l in ins ==> InListOk(l);
    assert OutListOk(outs) by {
      assert outs in [outs];
    }
    ghost var t := Tx(txID, fee, Verified(ins), outs);
    FlattenVerified(t.ins);
    tx := Some(t);
    Consume(db, Flatten<TransferableInput>(ins));
    ghost var left := db.utxoDB;
    assert SourcesGone(config.prefix, Flatten(t.ins), table, left);
    Produce(db, txID, outs);
    assert DistinctIDs(config.prefix, txID, t.outs) ==> OutputsStored(config.prefix, txID, t.outs, left, db.utxoDB);
    assert db.utxoDB == Applied(config, table, t);
    if Legal(config, feeAsset, table, t) {
      forall asset ensures Worth(db.utxoDB, asset) + Fee(fee, feeAsset, asset) <= Worth(table, asset) {
        TransactionConserves(config, feeAsset, table, t, asset);
      }
    }
  }

  /** Lists that passed the input check, as lists of verified members. */
  ghost function Verified(lists: seq<seq<TransferableInput>>): (r: seq<seq<Input>>)
    requires forall l :: l in lists ==> InListOk(l)
    ensures r == lists
  {
    if lists == [] then []
    else
      assert InListOk(lists[0]) by {
        assert lists[0] in lists;
      }
      [VerifiedList(lists[0])] + Verified(lists[1..])
  }

  ghost function VerifiedList(l: seq<TransferableInput>): (r: seq<Input>)
    requires InputsVerify(l)
    ensures r == l
  {
    if l == [] then []
    else
      assert l[0] in l;
      var first: Input := l[0];
      [first] + VerifiedList(l[1..])
  }

  /** A run: each table follows from the one before by a legal transaction. */
  ghost predicate Run(config: Config, feeAsset: ID, tables: seq<map<ID, UTXO>>, txs: seq<Tx>) {
    && |tables| == |txs| + 1
    && forall k :: 0 <= k < |txs| ==>
         Legal(config, feeAsset, tables[k], txs[k]) && tables[k + 1] == Applied(config, tables[k], txs[k])
  }

  function FeesPaid(txs: seq<Tx>, feeAsset: ID, asset: ID): nat {
    if txs == [] then 0 else FeesPaid(txs[..|txs| - 1], feeAsset, asset) + Fee(txs[|txs| - 1].fee, feeAsset, asset)
  }

  /** Over any run, value is only ever lost, and at least all fees are. */
  lemma {:induction false} RunConserves(config: Config, feeAsset: ID, tables: seq<map<ID, UTXO>>, txs: seq<Tx>,
                                        asset: ID)
    requires Run(config, feeAsset, tables, txs)
    ensures Worth(tables[|txs|], asset) + FeesPaid(txs, feeAsset, asset) <= Worth(tables[0], asset)
    decreases |txs|
  {
    hide Legal, Applied, Worth, Fee;
    if txs == [] {
    } else {
      var n := |txs| - 1;
      RunConserves(config, feeAsset, tables[..n + 1], txs[..n], asset);
      assert tables[n + 1] == Applied(config, tables[n], txs[n]);
      TransactionConserves(config, feeAsset, tables[n], txs[n], asset);
    }
  }
}
