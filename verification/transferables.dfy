/** Transferable inputs and outputs, their canonical orders, and the semantic check of a transaction. */
module Transferables {
  import opened Bytes
  import opened FlowChecker
  import opened Sorting
  import opened Utxo

  /** *TransferableOutput; out is the feature extension's output, which may be nil. */
  datatype TransferableOutput = NilOutput | TransferableOutput(asset: ID, out: Option<FxOutput>)

  /** A feature extension's input: its amount and the verdict of its own Verify. */
  datatype FxInput = FxInput(amount: uint64, wellFormed: bool)

  datatype TransferableInput =
    | NilInput
    | TransferableInput(txID: ID, outputIndex: uint32, asset: ID, in_: Option<FxInput>)

  datatype TxError =
    | NilTransferableOutput
    | NilTransferableFxOutput
    | NilTransferableInput
    | NilTransferableFxInput
    | EmptyAssetID
    | FxError
    | OutputsNotSorted
    | InputsNotSortedUnique
    | FlowFailed

  // ----- the members' own checks -----

  function VerifyOutput(o: TransferableOutput): Option<TxError> {
    if o.NilOutput? then Some(NilTransferableOutput)
    else if o.out.None? then Some(NilTransferableFxOutput)
    else if o.asset == EMPTY then Some(EmptyAssetID)
    else if !o.out.value.wellFormed then Some(FxError)
    else None
  }

  function VerifyInput(i: TransferableInput): Option<TxError> {
    if i.NilInput? then Some(NilTransferableInput)
    else if i.in_.None? then Some(NilTransferableFxInput)
    else if i.asset == EMPTY then Some(EmptyAssetID)
    else if !i.in_.value.wellFormed then Some(FxError)
    else None
  }

  /** What makes an output acceptable by itself. */
  predicate SoundOutput(o: TransferableOutput) {
    o.TransferableOutput? && o.out.Some? && o.asset != EMPTY && o.out.value.wellFormed
  }

  predicate SoundInput(i: TransferableInput) {
    i.TransferableInput? && i.in_.Some? && i.asset != EMPTY && i.in_.value.wellFormed
  }

  /** e is what is wrong with the output: the first of the conditions that it breaks. */
  predicate OutputFault(o: TransferableOutput, e: TxError) {
    match e
    case NilTransferableOutput => o.NilOutput?
    case NilTransferableFxOutput => o.TransferableOutput? && o.out.None?
    case EmptyAssetID => o.TransferableOutput? && o.out.Some? && o.asset == EMPTY
    case FxError => o.TransferableOutput? && o.out.Some? && o.asset != EMPTY && !o.out.value.wellFormed
    case _ => false
  }

  predicate InputFault(i: TransferableInput, e: TxError) {
    match e
    case NilTransferableInput => i.NilInput?
    case NilTransferableFxInput => i.TransferableInput? && i.in_.None?
    case EmptyAssetID => i.TransferableInput? && i.in_.Some? && i.asset == EMPTY
    case FxError => i.TransferableInput? && i.in_.Some? && i.asset != EMPTY && !i.in_.value.wellFormed
    case _ => false
  }

  predicate FirstUnsoundOutput(outs: seq<TransferableOutput>, j: nat) {
    j < |outs| && !SoundOutput(outs[j]) && forall k :: 0 <= k < j ==> SoundOutput(outs[k])
  }

  predicate FirstUnsoundInput(ins: seq<TransferableInput>, j: nat) {
    j < |ins| && !SoundInput(ins[j]) && forall k :: 0 <= k < j ==> SoundInput(ins[k])
  }

  /** A member's check passes exactly for sound members and otherwise reports their fault. */
  lemma MemberChecks(o: TransferableOutput, i: TransferableInput)
    ensures VerifyOutput(o).None? <==> SoundOutput(o)
    ensures VerifyOutput(o).Some? ==> OutputFault(o, VerifyOutput(o).value)
    ensures VerifyInput(i).None? <==> SoundInput(i)
    ensures VerifyInput(i).Some? ==> InputFault(i, VerifyInput(i).value)
  {
  }

  function SomeAsset(): (asset: ID)
    ensures asset != EMPTY
  {
    var asset: ID := seq(32, _ => 1);
    assert asset[0] != EMPTY[0];
    asset
  }

  /** Members that passed their own checks. */
  type Output = o: TransferableOutput | VerifyOutput(o).None?
    witness TransferableOutput(SomeAsset(), Some(FxOutput(None, None, None, true)))

  type Input = i: TransferableInput | VerifyInput(i).None?
    witness TransferableInput(Zeros(32), 0, SomeAsset(), Some(FxInput(0, true)))

  // ----- orders -----

  function WireBytesOrNil(out: FxOutput): Bytes {
    if out.wire.Some? then out.wire.value else []
  }

  /** innerSortTransferableOutputs.Less */
  predicate OutputLess(a: Output, b: Output) {
    var assets := Compare(a.asset, b.asset);
    if assets == -1 then true
    else if assets == 1 then false
    else Compare(WireBytesOrNil(a.out.value), WireBytesOrNil(b.out.value)) == -1
  }

  /** No later output belongs before an earlier one. */
  ghost predicate OutputsSorted(outs: seq<Output>) {
    forall i, j :: 0 <= i < j < |outs| ==> !OutputLess(outs[j], outs[i])
  }

  lemma {:induction false} CompareRange(a: Bytes, b: Bytes)
    ensures Compare(a, b) == -1 || Compare(a, b) == 0 || Compare(a, b) == 1
  {
    if a == [] || b == [] {
    } else {
      CompareRange(a[1..], b[1..]);
    }
  }

  lemma NotLessTransitive(a: Output, b: Output, c: Output)
    requires !OutputLess(b, a) && !OutputLess(c, b)
    ensures !OutputLess(c, a)
  {
    var wa, wb, wc := WireBytesOrNil(a.out.value), WireBytesOrNil(b.out.value), WireBytesOrNil(c.out.value);
    CompareRange(b.asset, a.asset); CompareRange(c.asset, b.asset); CompareRange(c.asset, a.asset);
    CompareReverse(a.asset, b.asset); CompareReverse(b.asset, c.asset); CompareReverse(a.asset, c.asset);
    CompareTransitive(a.asset, b.asset, c.asset);
    CompareRange(wb, wa); CompareRange(wc, wb); CompareRange(wc, wa);
    CompareReverse(wa, wb); CompareReverse(wb, wc); CompareReverse(wa, wc);
    if Compare(wa, wb) <= 0 && Compare(wb, wc) <= 0 {
      CompareTransitive(wa, wb, wc);
    }
  }

  lemma {:induction false} NeighboursSorted(outs: seq<Output>, i: nat, j: nat)
    requires forall k :: 0 < k < |outs| ==> !OutputLess(outs[k], outs[k - 1])
    requires i < j < |outs|
    ensures !OutputLess(outs[j], outs[i])
    decreases j - i
  {
    assert !OutputLess(outs[j], outs[j - 1]);
    if i == j - 1 {
    } else {
      NeighboursSorted(outs, i, j - 1);
      NotLessTransitive(outs[i], outs[j - 1], outs[j]);
    }
  }

  /** IsSortedTransferableOutputs: sort.IsSorted compares neighbours from the end. */
  method IsSortedTransferableOutputs(outs: seq<Output>) returns (ok: bool)
    ensures ok <==> OutputsSorted(outs)
  {
    var i := |outs| - 1;
    while i > 0
      invariant i < |outs| && -1 <= i
      invariant forall k :: i < k < |outs| && k > 0 ==> !OutputLess(outs[k], outs[k - 1])
    {
      if OutputLess(outs[i], outs[i - 1]) {
        return false;
      }
      i := i - 1;
    }
    forall p, q | 0 <= p < q < |outs| ensures !OutputLess(outs[q], outs[p]) {
      NeighboursSorted(outs, p, q);
    }
    return true;
  }

  /** UTXOID.Compare through TransferableInput.Compare */
  function CompareInputs(a: Input, b: Input): int {
    var txs := Compare(a.txID, b.txID);
    if txs != 0 then txs
    else if a.outputIndex < b.outputIndex then -1
    else if a.outputIndex > b.outputIndex then 1
    else 0
  }

  predicate SameSource(a: Input, b: Input) {
    a.txID == b.txID && a.outputIndex == b.outputIndex
  }

  lemma CompareInputsReverse(a: Input, b: Input)
    ensures CompareInputs(a, b) == -CompareInputs(b, a)
    ensures CompareInputs(a, b) == 0 <==> SameSource(a, b)
  {
    CompareReverse(a.txID, b.txID);
    CompareZero(a.txID, b.txID);
  }

  lemma CompareInputsIsOrder()
    ensures IsOrder<Input>(CompareInputs)
  {
    forall a: Input, b: Input ensures CompareInputs(a, b) == -CompareInputs(b, a) {
      CompareInputsReverse(a, b);
    }
    forall a: Input, b: Input, c: Input | CompareInputs(a, b) < 0 && CompareInputs(b, c) < 0
      ensures CompareInputs(a, c) < 0
    {
      CompareTransitive(a.txID, b.txID, c.txID);
      CompareZero(a.txID, b.txID);
      CompareZero(b.txID, c.txID);
    }
  }

  // ----- sorting inputs together with their signers -----

  /** innerSortTransferableInputsWithSigners.Less */
  predicate InputLess(a: Input, b: Input) {
    var txs := Compare(a.txID, b.txID);
    if txs == -1 then true
    else if txs == 0 then a.outputIndex < b.outputIndex
    else false
  }

  /** A list sorted under Less passes the sorted-and-unique scan exactly when no two inputs spend the same output. */
  lemma SortedInputsPassIff(ins: seq<Input>)
    requires forall i, j :: 0 <= i < j < |ins| ==> !InputLess(ins[j], ins[i])
    ensures Ascending<Input>(CompareInputs, ins) <==> forall i, j :: 0 <= i < j < |ins| ==> !SameSource(ins[i], ins[j])
  {
    forall i, j | 0 <= i < j < |ins|
      ensures CompareInputs(ins[i], ins[j]) < 0 <==> !SameSource(ins[i], ins[j])
    {
      CompareInputsReverse(ins[i], ins[j]);
      CompareRange(ins[j].txID, ins[i].txID);
      assert !InputLess(ins[j], ins[i]);
    }
  }

  function Swapped<T>(s: seq<T>, i: nat, j: nat): seq<T>
    requires i < |s| && j < |s|
  {
    s[j := s[i]][i := s[j]]
  }

  /** innerSortTransferableInputsWithSigners.Swap: both slices change in step. */
  method Swap<S>(ins: array<TransferableInput>, signers: array<S>, i: nat, j: nat)
    requires i < ins.Length && j < ins.Length && ins.Length <= signers.Length && ins as object != signers
    modifies ins, signers
    ensures ins[..] == Swapped(old(ins[..]), i, j)
    ensures signers[..] == Swapped(old(signers[..]), i, j)
  {
    ins[j], ins[i] := ins[i], ins[j];
    signers[j], signers[i] := signers[i], signers[j];
  }

  function Zip<A, B>(a: seq<A>, b: seq<B>): seq<(A, B)>
    requires |a| <= |b|
  {
    seq(|a|, k requires 0 <= k < |a| => (a[k], b[k]))
  }

  /** Any sequence of exchanges the library's sort may make. */
  function SwapAll<T>(s: seq<T>, swaps: seq<(nat, nat)>): (r: seq<T>)
    requires forall w :: w in swaps ==> w.0 < |s| && w.1 < |s|
    ensures |r| == |s|
  {
    if swaps == [] then s
    else
      var n := |swaps| - 1;
      var t := SwapAll(s, swaps[..n]);
      assert swaps[n] in swaps;
      Swapped(t, swaps[n].0, swaps[n].1)
  }

  /** Whatever exchanges are made, every input keeps its own signers and none is lost or duplicated. */
  lemma {:induction false} SwapsKeepPairs<A, B>(ins: seq<A>, signers: seq<B>, swaps: seq<(nat, nat)>)
    requires |ins| <= |signers|
    requires forall w :: w in swaps ==> w.0 < |ins| && w.1 < |ins|
    ensures multiset(Zip(SwapAll(ins, swaps), SwapAll(signers, swaps))) == multiset(Zip(ins, signers))
    decreases |swaps|
  {
    if swaps == [] {
    } else {
      var n := |swaps| - 1;
      SwapsKeepPairs(ins, signers, swaps[..n]);
      assert swaps[n] in swaps;
      var a, b := SwapAll(ins, swaps[..n]), SwapAll(signers, swaps[..n]);
      assert Zip(SwapAll(ins, swaps), SwapAll(signers, swaps)) == Swapped(Zip(a, b), swaps[n].0, swaps[n].1);
      SwappedMultiset(Zip(a, b), swaps[n].0, swaps[n].1);
    }
  }

  lemma SwappedMultiset<T>(s: seq<T>, i: nat, j: nat)
    requires i < |s| && j < |s|
    ensures multiset(Swapped(s, i, j)) == multiset(s)
  {
  }

  // ----- VerifyTx -----

  /** The exact amount of one asset in a list of outputs. */
  function OutTotal(outs: seq<Output>, asset: ID): nat {
    if outs == [] then 0
    else
      var o := outs[|outs| - 1];
      OutTotal(outs[..|outs| - 1], asset) + if o.asset == asset then Amount(o.out.value) else 0
  }

  /** The exact amount of one asset in a list of inputs. */
  function InTotal(ins: seq<Input>, asset: ID): nat {
    if ins == [] then 0
    else
      var i := ins[|ins| - 1];
      InTotal(ins[..|ins| - 1], asset) + if i.asset == asset then i.in_.value.amount else 0
  }

  lemma {:induction false} OutTotalSplit(a: seq<Output>, b: seq<Output>, asset: ID)
    ensures OutTotal(a + b, asset) == OutTotal(a, asset) + OutTotal(b, asset)
    decreases |b|
  {
    if b == [] {
      assert a + b == a;
    } else {
      OutTotalSplit(a, b[..|b| - 1], asset);
      assert (a + b)[..|a + b| - 1] == a + b[..|b| - 1];
    }
  }

  lemma {:induction false} InTotalSplit(a: seq<Input>, b: seq<Input>, asset: ID)
    ensures InTotal(a + b, asset) == InTotal(a, asset) + InTotal(b, asset)
    decreases |b|
  {
    if b == [] {
      assert a + b == a;
    } else {
      InTotalSplit(a, b[..|b| - 1], asset);
      assert (a + b)[..|a + b| - 1] == a + b[..|b| - 1];
    }
  }

  ghost predicate OutputsVerify(outs: seq<TransferableOutput>) {
    forall o :: o in outs ==> VerifyOutput(o).None?
  }

  ghost predicate InputsVerify(ins: seq<TransferableInput>) {
    forall i :: i in ins ==> VerifyInput(i).None?
  }

  /** The log gained these outputs and inputs: totals grew by exactly theirs. */
  ghost predicate Grown(log: seq<Entry>, outs: seq<Output>, ins: seq<Input>, log': seq<Entry>) {
    forall asset ::
      && Total(log', Out, asset) == Total(log, Out, asset) + OutTotal(outs, asset)
      && Total(log', In, asset) == Total(log, In, asset) + InTotal(ins, asset)
  }

  lemma GrownTwice(log: seq<Entry>, outs: seq<Output>, ins: seq<Input>, log': seq<Entry>, outs': seq<Output>,
                   ins': seq<Input>, log'': seq<Entry>)
    requires Grown(log, outs, ins, log') && Grown(log', outs', ins', log'')
    ensures Grown(log, outs + outs', ins + ins', log'')
  {
    forall asset
      ensures OutTotal(outs + outs', asset) == OutTotal(outs, asset) + OutTotal(outs', asset)
      ensures InTotal(ins + ins', asset) == InTotal(ins, asset) + InTotal(ins', asset)
    {
      OutTotalSplit(outs, outs', asset);
      InTotalSplit(ins, ins', asset);
    }
  }

  lemma ProducedOne(log: seq<Entry>, o: Output)
    requires Amount(o.out.value) <= MAX_UINT64
    ensures Grown(log, [o], [], log + [Entry(Out, o.asset, Amount(o.out.value))])
  {
    GrowthOf(log, Entry(Out, o.asset, Amount(o.out.value)));
    assert [o][..0] == [];
    assert forall asset :: OutTotal([o], asset) == if o.asset == asset then Amount(o.out.value) else 0;
  }

  lemma ConsumedOne(log: seq<Entry>, i: Input)
    ensures Grown(log, [], [i], log + [Entry(In, i.asset, i.in_.value.amount)])
  {
    GrowthOf(log, Entry(In, i.asset, i.in_.value.amount));
    assert [i][..0] == [];
    assert forall asset :: InTotal([i], asset) == if i.asset == asset then i.in_.value.amount else 0;
  }

  /** The first member that does not verify is the first that is not sound, and its error is its fault. */
  lemma FirstFaultIsHere(outs: seq<TransferableOutput>, ins: seq<TransferableInput>, j: nat, k: nat)
    requires j <= |outs| && OutputsVerify(outs[..j]) && k <= |ins| && InputsVerify(ins[..k])
    ensures j < |outs| && VerifyOutput(outs[j]).Some? ==>
              && OutputFault(outs[j], VerifyOutput(outs[j]).value)
              && forall j': nat :: FirstUnsoundOutput(outs, j') ==> j' == j
    ensures k < |ins| && VerifyInput(ins[k]).Some? ==>
              && InputFault(ins[k], VerifyInput(ins[k]).value)
              && forall k': nat :: FirstUnsoundInput(ins, k') ==> k' == k
  {
    forall n: nat | n < |outs| ensures n < j ==> SoundOutput(outs[n]) {
      MemberChecks(outs[n], NilInput);
      assert n < j ==> outs[n] in outs[..j];
    }
    forall n: nat | n < |ins| ensures n < k ==> SoundInput(ins[n]) {
      MemberChecks(NilOutput, ins[n]);
      assert n < k ==> ins[n] in ins[..k];
    }
  }

  lemma AllSound(outs: seq<TransferableOutput>, ins: seq<TransferableInput>)
    requires OutputsVerify(outs) && InputsVerify(ins)
    ensures forall j: nat :: !FirstUnsoundOutput(outs, j) && !FirstUnsoundInput(ins, j)
  {
    forall j: nat ensures !FirstUnsoundOutput(outs, j) && !FirstUnsoundInput(ins, j) {
      MemberChecks(if j < |outs| then outs[j] else NilOutput, if j < |ins| then ins[j] else NilInput);
      assert (j < |outs| ==> outs[j] in outs) && (j < |ins| ==> ins[j] in ins);
    }
  }

  /** The output part of VerifyTx for one list: check and produce each, then check the order. */
  method VerifyOutputs(fc: FlowChecker, outs: seq<TransferableOutput>) returns (err: Option<TxError>)
    requires fc.Valid()
    modifies fc
    ensures fc.Valid() && fc.rejected == old(fc.rejected)
    ensures err.None? <==> OutputsVerify(outs) && OutputsSorted(outs)
    ensures err == Some(OutputsNotSorted) <==> OutputsVerify(outs) && !OutputsSorted(outs)
    ensures err != Some(InputsNotSortedUnique) && err != Some(FlowFailed)
    ensures forall j: nat :: FirstUnsoundOutput(outs, j) ==> err.Some? && OutputFault(outs[j], err.value)
    ensures err.None? ==> Grown(old(fc.log), outs, [], fc.log)
  {
    hide FirstUnsoundOutput, OutputFault, OutTotal, InTotal, OutputLess, OutputsSorted, Total;
    NothingGrown(fc.log);
    var j := 0;
    while j < |outs|
      invariant j <= |outs|
      invariant fc.Valid() && fc.rejected == old(fc.rejected)
      invariant OutputsVerify(outs[..j])
      invariant Grown(old(fc.log), outs[..j], [], fc.log)
    {
      err := VerifyOutput(outs[j]);
      FirstFaultIsHere(outs, [], j, 0);
      if err.Some? {
        return;
      }
      ghost var log := fc.log;
      fc.Produce(outs[j].asset, Amount(outs[j].out.value));
      ProducedOne(log, outs[j]);
      GrownTwice(old(fc.log), outs[..j], [], log, [outs[j]], [], fc.log);
      assert outs[..j] + [outs[j]] == outs[..j + 1];
      j := j + 1;
    }
    assert outs[..j] == outs;
    AllSound(outs, []);
    var sorted := IsSortedTransferableOutputs(outs);
    return if sorted then None else Some(OutputsNotSorted);
  }

  /** The input part of VerifyTx for one list. */
  method VerifyInputs(fc: FlowChecker, ins: seq<TransferableInput>) returns (err: Option<TxError>)
    requires fc.Valid()
    modifies fc
    ensures fc.Valid() && fc.rejected == old(fc.rejected)
    ensures err.None? <==> InputsVerify(ins) && Ascending<Input>(CompareInputs, ins)
    ensures err == Some(InputsNotSortedUnique) <==> InputsVerify(ins) && !Ascending<Input>(CompareInputs, ins)
    ensures err != Some(OutputsNotSorted) && err != Some(FlowFailed)
    ensures forall j: nat :: FirstUnsoundInput(ins, j) ==> err.Some? && InputFault(ins[j], err.value)
    ensures err.None? ==> Grown(old(fc.log), [], ins, fc.log)
  {
    hide FirstUnsoundInput, InputFault, OutTotal, InTotal, CompareInputs;
    NothingGrown(fc.log);
    var j := 0;
    while j < |ins|
      invariant j <= |ins|
      invariant fc.Valid() && fc.rejected == old(fc.rejected)
      invariant InputsVerify(ins[..j])
      invariant Grown(old(fc.log), [], ins[..j], fc.log)
    {
      err := VerifyInput(ins[j]);
      FirstFaultIsHere([], ins, 0, j);
      if err.Some? {
        return;
      }
      ghost var log := fc.log;
      fc.Consume(ins[j].asset, ins[j].in_.value.amount);
      ConsumedOne(log, ins[j]);
      GrownTwice(old(fc.log), [], ins[..j], log, [], [ins[j]], fc.log);
      assert ins[..j] + [ins[j]] == ins[..j + 1];
      j := j + 1;
    }
    assert ins[..j] == ins;
    AllSound([], ins);
    CompareInputsIsOrder();
    var sorted := IsSortedAndUniqueByCompare<Input>(CompareInputs, ins);
    return if sorted then None else Some(InputsNotSortedUnique);
  }

  function Fee(fee: uint64, feeAsset: ID, asset: ID): uint64 {
    if asset == feeAsset then fee else 0
  }

  /** Per asset, outputs plus fee are at most the inputs, and the inputs fit in 64 bits, as exact integers. */
  ghost predicate FlowFits(fee: uint64, feeAsset: ID, ins: seq<Input>, outs: seq<Output>) {
    forall asset :: OutTotal(outs, asset) + Fee(fee, feeAsset, asset) <= InTotal(ins, asset) <= MAX_UINT64
  }

  ghost predicate OutListOk(outs: seq<TransferableOutput>) {
    OutputsVerify(outs) && OutputsSorted(outs)
  }

  ghost predicate InListOk(ins: seq<TransferableInput>) {
    InputsVerify(ins) && Ascending<Input>(CompareInputs, ins)
  }

  lemma {:induction false} FlattenOutputs(lists: seq<seq<TransferableOutput>>)
    requires forall l :: l in lists ==> OutputsVerify(l)
    ensures OutputsVerify(Flatten(lists))
  {
    if lists == [] {
    } else {
      var n := |lists| - 1;
      FlattenOutputs(lists[..n]);
      assert lists[n] in lists;
      assert Flatten(lists) == Flatten(lists[..n]) + lists[n];
    }
  }

  lemma {:induction false} FlattenInputs(lists: seq<seq<TransferableInput>>)
    requires forall l :: l in lists ==> InputsVerify(l)
    ensures InputsVerify(Flatten(lists))
  {
    if lists == [] {
    } else {
      var n := |lists| - 1;
      FlattenInputs(lists[..n]);
      assert lists[n] in lists;
      assert Flatten(lists) == Flatten(lists[..n]) + lists[n];
    }
  }

  /** What VerifyTx accepts. */
  ghost predicate Accepted(fee: uint64, feeAsset: ID, allIns: seq<seq<TransferableInput>>,
                           allOuts: seq<seq<TransferableOutput>>)
  {
    && (forall l :: l in allOuts ==> OutListOk(l))
    && (forall l :: l in allIns ==> InListOk(l))
    && InputsVerify(Flatten(allIns)) && OutputsVerify(Flatten(allOuts))
    && FlowFits(fee, feeAsset, Flatten(allIns), Flatten(allOuts))
  }

  // ----- acceptance in plain terms -----

  /** In the canonical order of outputs: asset first, then wire bytes; equal ones may follow each other. */
  predicate OutputBefore(a: TransferableOutput, b: TransferableOutput)
    requires SoundOutput(a) && SoundOutput(b)
  {
    var wa := if a.out.value.wire.Some? then a.out.value.wire.value else [];
    var wb := if b.out.value.wire.Some? then b.out.value.wire.value else [];
    Compare(a.asset, b.asset) < 0 || (a.asset == b.asset && Compare(wa, wb) <= 0)
  }

  /** Strictly before in the order of inputs: transaction first, then index. */
  predicate InputBefore(a: TransferableInput, b: TransferableInput)
    requires SoundInput(a) && SoundInput(b)
  {
    Compare(a.txID, b.txID) < 0 || (a.txID == b.txID && a.outputIndex < b.outputIndex)
  }

  ghost predicate CanonicalOutputs(outs: seq<TransferableOutput>) {
    && (forall k :: 0 <= k < |outs| ==> SoundOutput(outs[k]))
    && forall i, j :: 0 <= i < j < |outs| ==> OutputBefore(outs[i], outs[j])
  }

  ghost predicate CanonicalInputs(ins: seq<TransferableInput>) {
    && (forall k :: 0 <= k < |ins| ==> SoundInput(ins[k]))
    && forall i, j :: 0 <= i < j < |ins| ==> InputBefore(ins[i], ins[j])
  }

  /** The amount of an asset in all lists, counted from the front. */
  function AllOut(allOuts: seq<seq<TransferableOutput>>, asset: ID): nat
    decreases |allOuts|
  {
    if allOuts == [] then 0 else ListOut(allOuts[0], asset) + AllOut(allOuts[1..], asset)
  }

  function ListOut(outs: seq<TransferableOutput>, asset: ID): nat {
    if outs == [] then 0
    else
      var o := outs[0];
      (if SoundOutput(o) && o.asset == asset && o.out.value.amount.Some? then o.out.value.amount.value else 0)
      + ListOut(outs[1..], asset)
  }

  function AllIn(allIns: seq<seq<TransferableInput>>, asset: ID): nat
    decreases |allIns|
  {
    if allIns == [] then 0 else ListIn(allIns[0], asset) + AllIn(allIns[1..], asset)
  }

  function ListIn(ins: seq<TransferableInput>, asset: ID): nat {
    if ins == [] then 0
    else
      var i := ins[0];
      (if SoundInput(i) && i.asset == asset then i.in_.value.amount else 0) + ListIn(ins[1..], asset)
  }

  /** What VerifyTx accepts: canonical lists of sound members, and per asset the
      outputs, with the fee on the fee asset, are at most the inputs, which fit in 64 bits. */
  ghost predicate Acceptable(fee: uint64, feeAsset: ID, allIns: seq<seq<TransferableInput>>,
                             allOuts: seq<seq<TransferableOutput>>)
  {
    && (forall l :: l in allOuts ==> CanonicalOutputs(l))
    && (forall l :: l in allIns ==> CanonicalInputs(l))
    && (forall asset :: asset != feeAsset ==> AllOut(allOuts, asset) <= AllIn(allIns, asset) <= 0xFFFF_FFFF_FFFF_FFFF)
    && AllOut(allOuts, feeAsset) + fee <= AllIn(allIns, feeAsset) <= 0xFFFF_FFFF_FFFF_FFFF
  }

  lemma BeforeIff(a: Output, b: Output)
    ensures SoundOutput(a) && SoundOutput(b)
    ensures !OutputLess(b, a) <==> OutputBefore(a, b)
  {
    MemberChecks(a, NilInput);
    MemberChecks(b, NilInput);
    var wa, wb := WireBytesOrNil(a.out.value), WireBytesOrNil(b.out.value);
    CompareRange(b.asset, a.asset);
    CompareReverse(b.asset, a.asset);
    CompareZero(b.asset, a.asset);
    CompareRange(wb, wa);
    CompareReverse(wb, wa);
    hide Compare;
  }

  lemma ListOkIff(outs: seq<TransferableOutput>)
    ensures OutListOk(outs) <==> CanonicalOutputs(outs)
  {
    forall k | 0 <= k < |outs| ensures outs[k] in outs && (VerifyOutput(outs[k]).None? <==> SoundOutput(outs[k])) {
      MemberChecks(outs[k], NilInput);
    }
    hide VerifyOutput, SoundOutput, OutputLess, OutputBefore;
    if OutputsVerify(outs) {
      forall i, j | 0 <= i < j < |outs| ensures !OutputLess(outs[j], outs[i]) <==> OutputBefore(outs[i], outs[j]) {
        BeforeIff(outs[i], outs[j]);
      }
    } else {
      var o :| o in outs && VerifyOutput(o).Some?;
      var k :| 0 <= k < |outs| && outs[k] == o;
      assert !SoundOutput(outs[k]);
    }
  }

  lemma InputBeforeIff(a: Input, b: Input)
    ensures SoundInput(a) && SoundInput(b)
    ensures CompareInputs(a, b) < 0 <==> InputBefore(a, b)
  {
    MemberChecks(NilOutput, a);
    MemberChecks(NilOutput, b);
    CompareZero(a.txID, b.txID);
  }

  lemma InListOkIff(ins: seq<TransferableInput>)
    ensures InListOk(ins) <==> CanonicalInputs(ins)
  {
    forall k | 0 <= k < |ins| ensures ins[k] in ins && (VerifyInput(ins[k]).None? <==> SoundInput(ins[k])) {
      MemberChecks(NilOutput, ins[k]);
    }
    hide VerifyInput, SoundInput, CompareInputs, InputBefore;
    if InputsVerify(ins) {
      forall i, j | 0 <= i < j < |ins| ensures CompareInputs(ins[i], ins[j]) < 0 <==> InputBefore(ins[i], ins[j]) {
        InputBeforeIff(ins[i], ins[j]);
      }
    } else {
      var x :| x in ins && VerifyInput(x).Some?;
      var k :| 0 <= k < |ins| && ins[k] == x;
      assert !SoundInput(ins[k]);
    }
  }

  lemma {:induction false} ListOutIs(outs: seq<Output>, asset: ID)
    ensures ListOut(outs, asset) == OutTotal(outs, asset)
  {
    if outs == [] {
    } else {
      var o := outs[0];
      ListOutIs(outs[1..], asset);
      assert outs == [o] + outs[1..] && [o][..0] == [];
      OutTotalSplit([o], outs[1..], asset);
      MemberChecks(o, NilInput);
      AmountIs(o.out.value);
      assert OutTotal([o], asset) == if o.asset == asset then Amount(o.out.value) else 0;
    }
  }

  lemma AmountIs(out: FxOutput)
    ensures Amount(out) == if out.amount.Some? then out.amount.value else 0
  {
  }

  lemma {:induction false} ListInIs(ins: seq<Input>, asset: ID)
    ensures ListIn(ins, asset) == InTotal(ins, asset)
  {
    if ins == [] {
    } else {
      var i := ins[0];
      ListInIs(ins[1..], asset);
      assert ins == [i] + ins[1..] && [i][..0] == [];
      InTotalSplit([i], ins[1..], asset);
      MemberChecks(NilOutput, i);
      assert InTotal([i], asset) == if i.asset == asset then i.in_.value.amount else 0;
    }
  }

  lemma {:induction false} AllOutIs(allOuts: seq<seq<TransferableOutput>>, asset: ID)
    requires forall l :: l in allOuts ==> OutputsVerify(l)
    ensures OutputsVerify(Flatten(allOuts)) && AllOut(allOuts, asset) == OutTotal(Flatten(allOuts), asset)
    decreases |allOuts|
  {
    FlattenOutputs(allOuts);
    if allOuts == [] {
    } else {
      hide ListOut, OutTotal, OutputsVerify;
      assert allOuts[0] in allOuts && forall l :: l in allOuts[1..] ==> l in allOuts;
      AllOutIs(allOuts[1..], asset);
      FlattenFront(allOuts);
      OutputsTyped(allOuts[0], asset);
      OutputsTyped(Flatten(allOuts[1..]), asset);
      JoinOutputs(allOuts[0], Flatten(allOuts[1..]), asset);
    }
  }

  lemma OutputsTyped(outs: seq<TransferableOutput>, asset: ID)
    requires OutputsVerify(outs)
    ensures ListOut(outs, asset) == OutTotal(outs, asset)
  {
    ListOutIs(outs, asset);
  }

  lemma JoinOutputs(a: seq<TransferableOutput>, b: seq<TransferableOutput>, asset: ID)
    requires OutputsVerify(a) && OutputsVerify(b)
    ensures OutputsVerify(a + b) && OutTotal(a + b, asset) == OutTotal(a, asset) + OutTotal(b, asset)
  {
    OutTotalSplit(a, b, asset);
  }

  lemma {:induction false} AllInIs(allIns: seq<seq<TransferableInput>>, asset: ID)
    requires forall l :: l in allIns ==> InputsVerify(l)
    ensures InputsVerify(Flatten(allIns)) && AllIn(allIns, asset) == InTotal(Flatten(allIns), asset)
    decreases |allIns|
  {
    FlattenInputs(allIns);
    if allIns == [] {
    } else {
      hide ListIn, InTotal, InputsVerify;
      assert allIns[0] in allIns && forall l :: l in allIns[1..] ==> l in allIns;
      AllInIs(allIns[1..], asset);
      FlattenFront(allIns);
      InputsTyped(allIns[0], asset);
      InputsTyped(Flatten(allIns[1..]), asset);
      JoinInputs(allIns[0], Flatten(allIns[1..]), asset);
    }
  }

  lemma InputsTyped(ins: seq<TransferableInput>, asset: ID)
    requires InputsVerify(ins)
    ensures ListIn(ins, asset) == InTotal(ins, asset)
  {
    ListInIs(ins, asset);
  }

  lemma JoinInputs(a: seq<TransferableInput>, b: seq<TransferableInput>, asset: ID)
    requires InputsVerify(a) && InputsVerify(b)
    ensures InputsVerify(a + b) && InTotal(a + b, asset) == InTotal(a, asset) + InTotal(b, asset)
  {
    InTotalSplit(a, b, asset);
  }

  lemma {:induction false} FlattenFront<T>(lists: seq<seq<T>>)
    requires lists != []
    ensures Flatten(lists) == lists[0] + Flatten(lists[1..])
    decreases |lists|
  {
    var n := |lists| - 1;
    if n == 0 {
      assert lists[..0] == [] && lists[1..] == [];
    } else {
      FlattenFront(lists[..n]);
      FlattenSnoc(lists);
      FlattenSnoc(lists[1..]);
      hide Flatten;
      assert lists[..n][1..] == lists[1..][..n - 1] && lists[1..][n - 1] == lists[n];
    }
  }

  lemma FlattenSnoc<T>(lists: seq<seq<T>>)
    requires lists != []
    ensures Flatten(lists) == Flatten(lists[..|lists| - 1]) + lists[|lists| - 1]
  {
  }

  /** The verdict, in plain terms. */
  lemma AcceptedIff(fee: uint64, feeAsset: ID, allIns: seq<seq<TransferableInput>>,
                    allOuts: seq<seq<TransferableOutput>>)
    ensures Accepted(fee, feeAsset, allIns, allOuts) <==> Acceptable(fee, feeAsset, allIns, allOuts)
  {
    forall l | l in allOuts ensures OutListOk(l) <==> CanonicalOutputs(l) {
      ListOkIff(l);
    }
    forall l | l in allIns ensures InListOk(l) <==> CanonicalInputs(l) {
      InListOkIff(l);
    }
    hide CanonicalOutputs, CanonicalInputs;
    if (forall l :: l in allOuts ==> OutListOk(l)) && (forall l :: l in allIns ==> InListOk(l)) {
      FlattenOutputs(allOuts);
      FlattenInputs(allIns);
      forall asset
        ensures AllOut(allOuts, asset) == OutTotal(Flatten(allOuts), asset)
        ensures AllIn(allIns, asset) == InTotal(Flatten(allIns), asset)
      {
        AllOutIs(allOuts, asset);
        AllInIs(allIns, asset);
      }
      hide OutTotal, InTotal, AllOut, AllIn, OutListOk, InListOk;
    }
  }

  lemma FlowVerdict(fee: uint64, feeAsset: ID, ins: seq<Input>, outs: seq<Output>, log: seq<Entry>)
    requires Grown([Entry(Out, feeAsset, fee)], outs, ins, log)
    ensures Fits(log) && Balanced(log) <==> FlowFits(fee, feeAsset, ins, outs)
  {
    var first := [Entry(Out, feeAsset, fee)];
    forall asset
      ensures Total(log, Out, asset) == OutTotal(outs, asset) + Fee(fee, feeAsset, asset)
      ensures Total(log, In, asset) == InTotal(ins, asset)
    {
      assert first == [] + first;
      TotalSnoc([], first[0], Out, asset);
      TotalSnoc([], first[0], In, asset);
    }
    if FlowFits(fee, feeAsset, ins, outs) {
      forall side, asset ensures Total(log, side, asset) <= MAX_UINT64 {
        assert OutTotal(outs, asset) + Fee(fee, feeAsset, asset) <= InTotal(ins, asset) <= MAX_UINT64;
        assert side == In || side == Out;
      }
      forall asset ensures Total(log, Out, asset) <= Total(log, In, asset) {
        assert OutTotal(outs, asset) + Fee(fee, feeAsset, asset) <= InTotal(ins, asset) <= MAX_UINT64;
      }
    }
    if Fits(log) && Balanced(log) {
      forall asset ensures OutTotal(outs, asset) + Fee(fee, feeAsset, asset) <= InTotal(ins, asset) <= MAX_UINT64 {
        assert Total(log, Out, asset) <= Total(log, In, asset) <= MAX_UINT64;
      }
    }
  }

  /** The first member that is not sound, where all lists before are in order. */
  ghost predicate FirstOutputFault(allOuts: seq<seq<TransferableOutput>>, i: nat, j: nat) {
    i < |allOuts| && FirstUnsoundOutput(allOuts[i], j) && forall k :: 0 <= k < i ==> OutListOk(allOuts[k])
  }

  ghost predicate FirstInputFault(allIns: seq<seq<TransferableInput>>, i: nat, j: nat) {
    i < |allIns| && FirstUnsoundInput(allIns[i], j) && forall k :: 0 <= k < i ==> InListOk(allIns[k])
  }

  lemma OutputFaultIsHere(allOuts: seq<seq<TransferableOutput>>, i: nat)
    requires i < |allOuts| && !OutListOk(allOuts[i]) && forall l :: l in allOuts[..i] ==> OutListOk(l)
    ensures forall i': nat, j: nat :: FirstOutputFault(allOuts, i', j) ==> i' == i
  {
    forall i': nat, j: nat | FirstOutputFault(allOuts, i', j) ensures i' == i {
      if i' < i {
        assert allOuts[i'] in allOuts[..i];
        AllSound(allOuts[i'], []);
      }
    }
  }

  lemma InputFaultIsHere(allIns: seq<seq<TransferableInput>>, i: nat)
    requires i < |allIns| && !InListOk(allIns[i]) && forall l :: l in allIns[..i] ==> InListOk(l)
    ensures forall i': nat, j: nat :: FirstInputFault(allIns, i', j) ==> i' == i
  {
    forall i': nat, j: nat | FirstInputFault(allIns, i', j) ensures i' == i {
      if i' < i {
        assert allIns[i'] in allIns[..i];
        AllSound([], allIns[i']);
      }
    }
  }

  lemma NoOutputFault(allOuts: seq<seq<TransferableOutput>>)
    requires forall l :: l in allOuts ==> OutListOk(l)
    ensures forall i: nat, j: nat :: !FirstOutputFault(allOuts, i, j)
  {
    forall i: nat, j: nat ensures !FirstOutputFault(allOuts, i, j) {
      if i < |allOuts| && j < |allOuts[i]| {
        assert allOuts[i] in allOuts && allOuts[i][j] in allOuts[i];
        MemberChecks(allOuts[i][j], NilInput);
      }
    }
  }

  lemma NoInputFault(allIns: seq<seq<TransferableInput>>)
    requires forall l :: l in allIns ==> InListOk(l)
    ensures forall i: nat, j: nat :: !FirstInputFault(allIns, i, j)
  {
    forall i: nat, j: nat ensures !FirstInputFault(allIns, i, j) {
      if i < |allIns| && j < |allIns[i]| {
        assert allIns[i] in allIns && allIns[i][j] in allIns[i];
        MemberChecks(NilOutput, allIns[i][j]);
      }
    }
  }

  /** VerifyTx's loop over the output lists. */
  method VerifyOutputLists(fc: FlowChecker, allOuts: seq<seq<TransferableOutput>>) returns (err: Option<TxError>)
    requires fc.Valid() && !fc.rejected
    modifies fc
    ensures fc.Valid() && !fc.rejected
    ensures err.None? <==> forall l :: l in allOuts ==> OutListOk(l)
    ensures err == Some(OutputsNotSorted) ==> exists l :: l in allOuts && OutputsVerify(l) && !OutputsSorted(l)
    ensures err != Some(InputsNotSortedUnique) && err != Some(FlowFailed)
    ensures forall i: nat, j: nat :: FirstOutputFault(allOuts, i, j) ==>
              err.Some? && OutputFault(allOuts[i][j], err.value)
    ensures err.None? ==> OutputsVerify(Flatten(allOuts)) && Grown(old(fc.log), Flatten(allOuts), [], fc.log)
  {
    hide Grown, OutputsSorted, OutTotal, InTotal;
    NothingGrown(fc.log);
    var i := 0;
    while i < |allOuts|
      invariant i <= |allOuts| && fc.Valid() && !fc.rejected
      invariant forall l :: l in allOuts[..i] ==> OutListOk(l)
      invariant OutputsVerify(Flatten(allOuts[..i]))
      invariant Grown(old(fc.log), Flatten(allOuts[..i]), [], fc.log)
    {
      ghost var log, none: seq<Input> := fc.log, [];
      err := VerifyOutputs(fc, allOuts[i]);
      if err.Some? {
        assert !OutListOk(allOuts[i]);
        OutputFaultIsHere(allOuts, i);
        return;
      }
      GrownTwice(old(fc.log), Flatten(allOuts[..i]), none, log, allOuts[i], none, fc.log);
      assert none + none == none;
      assert allOuts[..i + 1][..i] == allOuts[..i];
      i := i + 1;
    }
    assert allOuts[..i] == allOuts;
    NoOutputFault(allOuts);
    return None;
  }

  /** VerifyTx's loop over the input lists. */
  method VerifyInputLists(fc: FlowChecker, allIns: seq<seq<TransferableInput>>) returns (err: Option<TxError>)
    requires fc.Valid() && !fc.rejected
    modifies fc
    ensures fc.Valid() && !fc.rejected
    ensures err.None? <==> forall l :: l in allIns ==> InListOk(l)
    ensures err == Some(InputsNotSortedUnique) ==>
              exists l :: l in allIns && InputsVerify(l) && !Ascending<Input>(CompareInputs, l)
    ensures err != Some(OutputsNotSorted) && err != Some(FlowFailed)
    ensures forall i: nat, j: nat :: FirstInputFault(allIns, i, j) ==> err.Some? && InputFault(allIns[i][j], err.value)
    ensures err.None? ==> InputsVerify(Flatten(allIns)) && Grown(old(fc.log), [], Flatten(allIns), fc.log)
  {
    hide Grown, Ascending, OutTotal, InTotal;
    NothingGrown(fc.log);
    var i := 0;
    while i < |allIns|
      invariant i <= |allIns| && fc.Valid() && !fc.rejected
      invariant forall l :: l in allIns[..i] ==> InListOk(l)
      invariant InputsVerify(Flatten(allIns[..i]))
      invariant Grown(old(fc.log), [], Flatten(allIns[..i]), fc.log)
    {
      ghost var log, none: seq<Output> := fc.log, [];
      err := VerifyInputs(fc, allIns[i]);
      if err.Some? {
        assert !InListOk(allIns[i]);
        InputFaultIsHere(allIns, i);
        return;
      }
      GrownTwice(old(fc.log), none, Flatten(allIns[..i]), log, none, allIns[i], fc.log);
      assert none + none == none;
      assert allIns[..i + 1][..i] == allIns[..i];
      i := i + 1;
    }
    assert allIns[..i] == allIns;
    NoInputFault(allIns);
    return None;
  }

  /** VerifyTx: accepts exactly the transactions whose members verify, whose
      lists are in canonical order, and whose flow fits per asset. */
  method VerifyTx(feeAmount: uint64, feeAssetID: ID, allIns: seq<seq<TransferableInput>>,
                  allOuts: seq<seq<TransferableOutput>>)
    returns (err: Option<TxError>)
    ensures err.None? <==> Accepted(feeAmount, feeAssetID, allIns, allOuts)
    ensures err.None? <==> Acceptable(feeAmount, feeAssetID, allIns, allOuts)
    ensures forall i: nat, j: nat :: FirstOutputFault(allOuts, i, j) ==>
              err.Some? && OutputFault(allOuts[i][j], err.value)
    ensures (forall l :: l in allOuts ==> OutListOk(l)) ==>
              forall i: nat, j: nat :: FirstInputFault(allIns, i, j) ==>
                err.Some? && InputFault(allIns[i][j], err.value)
    ensures err == Some(OutputsNotSorted) ==> exists l :: l in allOuts && OutputsVerify(l) && !OutputsSorted(l)
    ensures err == Some(InputsNotSortedUnique) ==>
              && (forall l :: l in allOuts ==> OutListOk(l))
              && exists l :: l in allIns && InputsVerify(l) && !Ascending<Input>(CompareInputs, l)
    ensures err == Some(FlowFailed) <==>
              && (forall l :: l in allOuts ==> OutListOk(l)) && (forall l :: l in allIns ==> InListOk(l))
              && !Accepted(feeAmount, feeAssetID, allIns, allOuts)
  {
    hide FlowFits, Grown, OutListOk, InListOk, Acceptable, FirstOutputFault, FirstInputFault;
    AcceptedIff(feeAmount, feeAssetID, allIns, allOuts);
    var fc := new FlowChecker();
    fc.Produce(feeAssetID, feeAmount);
    ghost var first := fc.log;
    assert first == [Entry(Out, feeAssetID, feeAmount)];
    err := VerifyOutputLists(fc, allOuts);
    if err.Some? {
      return;
    }
    ghost var log := fc.log;
    err := VerifyInputLists(fc, allIns);
    if err.Some? {
      return;
    }
    ghost var outs, ins := Flatten(allOuts), Flatten(allIns);
    GrownTwice(first, outs, [], log, [], ins, fc.log);
    assert outs + [] == outs && [] + ins == ins;
    FlowVerdict(feeAmount, feeAssetID, ins, outs, fc.log);
    var ok := fc.Verify();
    return if ok then None else Some(FlowFailed);
  }

  lemma NothingGrown(log: seq<Entry>)
    ensures Grown(log, [], [], log)
  {
  }
}
