/** Validation of transfers with several inputs and outputs.

    ValidateBasic compares sums of 64-bit amounts that wrap, so it accepts a message exactly when inputs and
    outputs agree modulo 2^64 for every denomination.
 */
module Send {
  import opened Coins
  import opened Int64

  /** An Input or an Output. */
  datatype Entry = Entry(address: seq<byte>, coins: seq<Coin>)

  datatype SendMsg = SendMsg(inputs: seq<Entry>, outputs: seq<Entry>)

  // ---------------------------------------------------------------- checks on coin sets

  predicate Positive(cs: seq<Coin>) { cs != [] && forall c | c in cs :: c.amount > 0 }

  /** What IsValid accepts: the first of two or more coins is not checked for zero. */
  predicate ValidSet(cs: seq<Coin>)
  {
    if |cs| == 1 then cs[0].amount != 0 else Ascending(cs) && forall i | 1 <= i < |cs| :: cs[i].amount != 0
  }

  method IsValid(coins: seq<Coin>) returns (ok: bool)
    ensures ok <==> ValidSet(coins)
  {
    if |coins| == 0 { return true; }
    if |coins| == 1 { return coins[0].amount != 0; }
    SortedIffAscending(coins);
    hide Precedes, Less, Ascending;
    var lowDenom := coins[0].denom;
    for i := 1 to |coins|
      invariant lowDenom == coins[i - 1].denom
      invariant Sorted(coins) <==> Sorted(coins[i - 1..])
      invariant forall j | 1 <= j < i :: coins[j].amount != 0
    {
      assert coins[i - 1..][1..] == coins[i..];
      if !Less(lowDenom, coins[i].denom) { return false; }
      if coins[i].amount == 0 { return false; }
      lowDenom := coins[i].denom;
    }
    return true;
  }

  method IsPositive(coins: seq<Coin>) returns (ok: bool)
    ensures ok <==> Positive(coins)
  {
    if |coins| == 0 { return false; }
    for i := 0 to |coins|
      invariant forall j | 0 <= j < i :: coins[j].amount > 0
    {
      if coins[i].amount <= 0 { return false; }
    }
    return true;
  }

  method IsEqual(a: seq<Coin>, b: seq<Coin>) returns (ok: bool)
    ensures ok <==> a == b
  {
    if |a| != |b| { return false; }
    for i := 0 to |a|
      invariant a[..i] == b[..i]
    {
      if a[i].denom != b[i].denom || a[i].amount != b[i].amount { return false; }
      assert a[i] == b[i];
    }
    assert a == a[..|a|] && b == b[..|b|];
    return true;
  }

  // ---------------------------------------------------------------- validation

  /** A well-formed entry: an address and a strictly sorted set of positive coins. */
  predicate EntryOk(e: Entry) { e.address != [] && Sorted(e.coins) && Positive(e.coins) }

  method ValidateEntry(e: Entry) returns (ok: bool)
    ensures ok <==> e.address != [] && Ascending(e.coins) && Positive(e.coins)
    ensures ok <==> EntryOk(e)
  {
    SortedIffAscending(e.coins);
    hide Precedes, Less;
    if |e.address| == 0 { return false; }
    ok := IsValid(e.coins);
    if ok {
      ok := IsPositive(e.coins);
    }
  }

  /** The running total of a list of entries. */
  function Total(es: seq<Entry>): seq<Coin>
  {
    if es == [] then [] else Merge(Total(es[..|es| - 1]), es[|es| - 1].coins)
  }

  /** The true sum of a denomination, without wrapping. */
  function SumOf(es: seq<Entry>, d: Denom): int
  {
    if es == [] then 0 else SumOf(es[..|es| - 1], d) + Lookup(es[|es| - 1].coins, d)
  }

  predicate WellFormed(msg: SendMsg)
  {
    && msg.inputs != [] && msg.outputs != []
    && (forall e | e in msg.inputs :: EntryOk(e)) && (forall e | e in msg.outputs :: EntryOk(e))
  }

  predicate Accepts(msg: SendMsg) { WellFormed(msg) && Total(msg.inputs) == Total(msg.outputs) }

  method ValidateBasic(msg: SendMsg) returns (ok: bool)
    ensures ok <==> Accepts(msg)
  {
    if |msg.inputs| == 0 || |msg.outputs| == 0 { return false; }
    var inputsOk, totalIn := Accumulate(msg.inputs);
    if !inputsOk { return false; }
    var outputsOk, totalOut := Accumulate(msg.outputs);
    if !outputsOk { return false; }
    ok := IsEqual(totalIn, totalOut);
  }

  /** Validates entries and adds them up, stopping at the first that is not well-formed. */
  method Accumulate(es: seq<Entry>) returns (ok: bool, total: seq<Coin>)
    ensures ok <==> forall e | e in es :: EntryOk(e)
    ensures ok ==> total == Total(es)
  {
    total := [];
    for i := 0 to |es|
      invariant forall j | 0 <= j < i :: EntryOk(es[j])
      invariant total == Total(es[..i])
    {
      var fine := ValidateEntry(es[i]);
      if !fine { return false, total; }
      total := Plus(total, es[i].coins);
      assert es[..i + 1][..i] == es[..i];
    }
    assert es[..|es|] == es;
    return true, total;
  }

  // ---------------------------------------------------------------- conservation

  lemma {:induction false} LookupNonNegative(cs: seq<Coin>, d: Denom)
    requires forall c | c in cs :: c.amount > 0
    ensures Lookup(cs, d) >= 0
  {
    if cs != [] { LookupNonNegative(cs[1..], d); }
  }

  lemma PositiveIsCanonical(cs: seq<Coin>)
    requires Sorted(cs) && Positive(cs)
    ensures Canonical(cs)
  {
  }

  lemma {:induction false} TotalIsCanonical(es: seq<Entry>)
    requires forall e | e in es :: EntryOk(e)
    ensures Canonical(Total(es))
  {
    if es != [] {
      var front, last := es[..|es| - 1], es[|es| - 1];
      assert EntryOk(last);
      TotalIsCanonical(front);
      PositiveIsCanonical(last.coins);
      PlusKeepsCanonical(Total(front), last.coins);
    }
  }

  /** The running total holds the wrapped sum of every denomination. */
  lemma {:induction false} TotalIsWrappedSum(es: seq<Entry>, d: Denom)
    requires forall e | e in es :: EntryOk(e)
    ensures Lookup(Total(es), d) == Wrap(SumOf(es, d)) && SumOf(es, d) >= 0
  {
    hide Wrap;
    WrapFits(0);
    if es != [] {
      var front, last := es[..|es| - 1], es[|es| - 1];
      assert EntryOk(last);
      TotalIsWrappedSum(front, d);
      TotalIsCanonical(front);
      PositiveIsCanonical(last.coins);
      PlusAddsAmounts(Total(front), last.coins, d);
      LookupNonNegative(last.coins, d);
      WrapAdds(SumOf(front, d), Lookup(last.coins, d));
    }
  }

  /** Inputs and outputs of a denomination agree modulo 2^64. */
  predicate Congruent(msg: SendMsg, d: Denom)
  {
    SumOf(msg.inputs, d) % INT64_RANGE == SumOf(msg.outputs, d) % INT64_RANGE
  }

  lemma AgreeAt(msg: SendMsg, d: Denom)
    requires WellFormed(msg)
    ensures SumOf(msg.inputs, d) >= 0 && SumOf(msg.outputs, d) >= 0
    ensures Lookup(Total(msg.inputs), d) == Lookup(Total(msg.outputs), d) <==> Congruent(msg, d)
  {
    TotalIsWrappedSum(msg.inputs, d);
    TotalIsWrappedSum(msg.outputs, d);
    WrapAgrees(SumOf(msg.inputs, d), SumOf(msg.outputs, d));
  }

  /** A message is accepted exactly when it is well-formed and, for every denomination, inputs and outputs agree
      modulo 2^64. */
  lemma AcceptsIffCongruent(msg: SendMsg)
    ensures Accepts(msg) <==> WellFormed(msg) && forall d :: Congruent(msg, d)
  {
    if WellFormed(msg) {
      TotalIsCanonical(msg.inputs);
      TotalIsCanonical(msg.outputs);
      if Total(msg.inputs) == Total(msg.outputs) {
        forall d ensures Congruent(msg, d) { AgreeAt(msg, d); }
      } else if forall d :: Congruent(msg, d) {
        forall d ensures Lookup(Total(msg.inputs), d) == Lookup(Total(msg.outputs), d) { AgreeAt(msg, d); }
        SameAmounts(Total(msg.inputs), Total(msg.outputs));
        assert false;
      }
    }
  }

  /** An accepted message conserves a denomination exactly when both sums pass 2^64 equally often; in particular
      whenever neither reaches 2^64. */
  lemma Conservation(msg: SendMsg, d: Denom)
    requires Accepts(msg)
    ensures SumOf(msg.inputs, d) == SumOf(msg.outputs, d) <==>
            SumOf(msg.inputs, d) / INT64_RANGE == SumOf(msg.outputs, d) / INT64_RANGE
    ensures SumOf(msg.inputs, d) < INT64_RANGE && SumOf(msg.outputs, d) < INT64_RANGE ==>
            SumOf(msg.inputs, d) == SumOf(msg.outputs, d)
  {
    AgreeAt(msg, d);
  }

  lemma MergeSingles(d: Denom, m: int64, n: int64)
    ensures Merge([Coin(d, m)], [Coin(d, n)]) == if Wrap(m + n) == 0 then [] else [Coin(d, Wrap(m + n))]
  {
    LessIsStrict(d);
  }

  /** Three inputs that add up to 2^64 + 1 are accepted against one output of 1. */
  lemma WrappingIsNotConserved(d: Denom, address: seq<byte>)
    requires address != []
    ensures var big := Entry(address, [Coin(d, INT64_MAX)]);
            var msg := SendMsg([big, big, Entry(address, [Coin(d, 3)])], [Entry(address, [Coin(d, 1)])]);
            Accepts(msg) && SumOf(msg.inputs, d) == SumOf(msg.outputs, d) + INT64_RANGE
  {
    var big, three := Entry(address, [Coin(d, INT64_MAX)]), Entry(address, [Coin(d, 3)]);
    var one := Entry(address, [Coin(d, 1)]);
    var ins, outs := [big, big, three], [one];
    assert ins[..2] == [big, big] && [big, big][..1] == [big] && [big][..0] == [] && outs[..0] == [];
    MergeSingles(d, INT64_MAX, INT64_MAX);
    MergeSingles(d, -2, 3);
    assert Total([]) == [] && SumOf([], d) == 0;
    assert Total([big]) == [Coin(d, INT64_MAX)] && SumOf([big], d) == INT64_MAX;
    assert Total([big, big]) == [Coin(d, -2)] && SumOf([big, big], d) == 2 * INT64_MAX;
    assert Total(ins) == [Coin(d, 1)] && Total(outs) == [Coin(d, 1)];
  }
}
