/** Unspent outputs as the ledger sees them. */
module Utxo {
  import opened Bytes
  import opened Sorting

  /** An output of some feature extension, reduced to the interfaces the
      ledger asks it for: Amounter, Addressable, the wire adapter, and the
      verdict of its own Verify. An absent interface is None. */
  datatype FxOutput = FxOutput(
    amount: Option<uint64>,
    addresses: Option<seq<Bytes>>,
    wire: Option<Bytes>,
    wellFormed: bool)

  datatype UTXO = UTXO(txID: ID, outputIndex: uint32, asset: ID, out: FxOutput)

  /** The addresses whose index lists name u. */
  function IndexedUnder(u: UTXO): set<Bytes> {
    match u.out.addresses
    case None => {}
    case Some(addresses) => Elems(addresses)
  }

  /** The amount an output holds; outputs without an amount hold nothing. */
  function Amount(out: FxOutput): nat {
    if out.amount.Some? then out.amount.value else 0
  }

  /** What u adds to a balance. */
  function AmountOf(u: UTXO): nat {
    Amount(u.out)
  }

  /** An amount is what the Amounter says, and nothing without one. */
  lemma AmountInPlainTerms(u: UTXO, asset: ID)
    ensures u.out.amount.Some? ==> AmountOf(u) == Amount(u.out) == u.out.amount.value
    ensures u.out.amount.None? ==> AmountOf(u) == Amount(u.out) == 0
    ensures u.asset == asset ==> Holding(asset)(u) == if u.out.amount.Some? then u.out.amount.value else 0
    ensures u.asset != asset ==> Holding(asset)(u) == 0
  {
  }

  /** What u holds of one asset. */
  function Holding(asset: ID): UTXO -> nat {
    (u: UTXO) => if u.asset == asset then AmountOf(u) else 0
  }
}
