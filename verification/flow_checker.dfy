/** The flow checker: per-asset totals in 64-bit arithmetic that may overflow. */
module FlowChecker {
  import opened Bytes

  datatype Side = In | Out

  /** One call of Consume (In) or Produce (Out). */
  datatype Entry = Entry(side: Side, asset: ID, amount: uint64)

  datatype FlowError = Overflow | InsufficientFunds

  /** The exact amount that the calls of one side add up to for one asset. */
  function Total(log: seq<Entry>, side: Side, asset: ID): nat {
    if log == [] then 0
    else
      var e := log[|log| - 1];
      Total(log[..|log| - 1], side, asset) + Share(e, side, asset)
  }

  function Share(e: Entry, side: Side, asset: ID): nat {
    if e.side == side && e.asset == asset then e.amount else 0
  }

  ghost predicate Fits(log: seq<Entry>) {
    forall side, asset :: Total(log, side, asset) <= MAX_UINT64
  }

  ghost predicate Balanced(log: seq<Entry>) {
    forall asset :: Total(log, Out, asset) <= Total(log, In, asset)
  }

  lemma TotalSnoc(log: seq<Entry>, e: Entry, side: Side, asset: ID)
    ensures Total(log + [e], side, asset) == Total(log, side, asset) + Share(e, side, asset)
  {
    assert (log + [e])[..|log|] == log;
  }

  lemma {:induction false} TotalSplit(a: seq<Entry>, b: seq<Entry>, side: Side, asset: ID)
    ensures Total(a + b, side, asset) == Total(a, side, asset) + Total(b, side, asset)
    decreases |b|
  {
    if b == [] {
      assert a + b == a;
    } else {
      var b' := b[..|b| - 1];
      TotalSplit(a, b', side, asset);
      assert a + b == a + b' + [b[|b| - 1]];
      TotalSnoc(a + b', b[|b| - 1], side, asset);
    }
  }

  function Omit<T>(s: seq<T>, k: nat): (r: seq<T>)
    requires k < |s|
    ensures |r| == |s| - 1
  {
    s[..k] + s[k + 1..]
  }

  lemma OmitTotal(log: seq<Entry>, k: nat, side: Side, asset: ID)
    requires k < |log|
    ensures Total(log, side, asset) == Total(Omit(log, k), side, asset) + Share(log[k], side, asset)
  {
    assert log == log[..k] + [log[k]] + log[k + 1..];
    TotalSplit(log[..k] + [log[k]], log[k + 1..], side, asset);
    TotalSnoc(log[..k], log[k], side, asset);
    TotalSplit(log[..k], log[k + 1..], side, asset);
  }

  lemma OmitMultiset<T>(s: seq<T>, k: nat)
    requires k < |s|
    ensures multiset(Omit(s, k)) == multiset(s) - multiset{s[k]}
  {
    assert s == s[..k] + [s[k]] + s[k + 1..];
  }

  /** Calls in any order give the same totals, so the verdict does not depend on the order. */
  lemma {:induction false} OrderIsIrrelevant(log: seq<Entry>, log': seq<Entry>, side: Side, asset: ID)
    requires multiset(log) == multiset(log')
    ensures Total(log, side, asset) == Total(log', side, asset)
    decreases |log|
  {
    hide Total, Share, Omit;
    if log == [] {
      assert |multiset(log')| == 0;
    } else {
      assert log[0] in multiset(log');
      var k :| 0 <= k < |log'| && log'[k] == log[0];
      OmitMultiset(log, 0);
      OmitMultiset(log', k);
      OmitTotal(log, 0, side, asset);
      OmitTotal(log', k, side, asset);
      OrderIsIrrelevant(Omit(log, 0), Omit(log', k), side, asset);
    }
  }

  function Get(m: map<ID, uint64>, asset: ID): uint64 {
    if asset in m then m[asset] else 0
  }

  class FlowChecker {
    var consumed: map<ID, uint64>
    var produced: map<ID, uint64>
    var errs: seq<FlowError>
    /** All calls so far, and whether Verify has already found missing funds. */
    ghost var log: seq<Entry>
    ghost var rejected: bool

    /** No error means exact totals that fit; an error means that some exact total does not, or an earlier rejection. */
    ghost predicate Valid()
      reads this
    {
      && (errs == [] <==> Fits(log) && !rejected)
      && (Fits(log) ==> forall asset :: Get(consumed, asset) == Total(log, In, asset))
      && (Fits(log) ==> forall asset :: Get(produced, asset) == Total(log, Out, asset))
    }

    constructor ()
      ensures Valid() && log == [] && !rejected
    {
      consumed, produced, errs, log, rejected := map[], map[], [], [], false;
    }

    method Consume(assetID: ID, amount: uint64)
      requires Valid()
      modifies this
      ensures Valid() && log == old(log) + [Entry(In, assetID, amount)] && rejected == old(rejected)
    {
      GrowthOf(log, Entry(In, assetID, amount));
      consumed := Add(consumed, assetID, amount);
      log := log + [Entry(In, assetID, amount)];
    }

    method Produce(assetID: ID, amount: uint64)
      requires Valid()
      modifies this
      ensures Valid() && log == old(log) + [Entry(Out, assetID, amount)] && rejected == old(rejected)
    {
      GrowthOf(log, Entry(Out, assetID, amount));
      produced := Add(produced, assetID, amount);
      log := log + [Entry(Out, assetID, amount)];
    }

    /** The checked addition. On overflow the stored amount is not used again, so it may be anything. */
    method Add(value: map<ID, uint64>, assetID: ID, amount: uint64) returns (value': map<ID, uint64>)
      modifies this`errs
      ensures var sum := Get(value, assetID) + amount;
              if sum <= MAX_UINT64 then value' == value[assetID := sum] && errs == old(errs)
              else errs == old(errs) + [Overflow]
    {
      var have := Get(value, assetID);
      if amount > MAX_UINT64 - have {
        var unused: uint64 := *;
        value' := value[assetID := unused];
        errs := errs + [Overflow];
      } else {
        value' := value[assetID := have + amount];
      }
    }

    /** Verify: the map of produced amounts is walked in any order. */
    method Verify() returns (ok: bool)
      requires Valid()
      modifies this`errs, this`rejected
      ensures Valid()
      ensures ok <==> Fits(log) && Balanced(log) && !old(rejected)
      ensures rejected <==> old(rejected) || (Fits(log) && !Balanced(log))
    {
      if errs == [] {
        var rest := produced.Keys;
        while rest != {}
          invariant errs == [] && !rejected && Fits(log) && rest <= produced.Keys
          invariant forall asset :: asset !in rest ==> Get(produced, asset) <= Get(consumed, asset)
          decreases |rest|
        {
          var assetID :| assetID in rest;
          if produced[assetID] > Get(consumed, assetID) {
            assert Total(log, Out, assetID) > Total(log, In, assetID);
            errs := errs + [InsufficientFunds];
            rejected := true;
            break;
          }
          rest := rest - {assetID};
        }
      }
      ok := errs == [];
    }
  }

  lemma GrowthOf(log: seq<Entry>, e: Entry)
    ensures forall side, asset ::
              Total(log + [e], side, asset) == Total(log, side, asset) + Share(e, side, asset)
  {
    forall side, asset
      ensures Total(log + [e], side, asset) == Total(log, side, asset) + Share(e, side, asset)
    {
      TotalSnoc(log, e, side, asset);
    }
  }
}
