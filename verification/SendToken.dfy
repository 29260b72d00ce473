/** The message SendToken builds: every transfer's coins are sorted in place and added up, and the sum is sent from
    the one input.

    The built message is valid exactly when the transfers are well-formed as handed in, in any order, and no total
    wraps to something that is not positive. Sorting an aliased or already sorted list changes nothing about that.
 */
module SendToken {
  import opened Coins
  import opened Int64
  import opened Send

  datatype Transfer = Transfer(to: seq<byte>, coins: array<Coin>)

  // ---------------------------------------------------------------- sorting

  predicate WeaklySorted(cs: seq<Coin>)
  {
    forall i, j | 0 <= i < j < |cs| :: !Less(cs[j].denom, cs[i].denom)
  }

  /** No denomination occurs twice. */
  predicate Distinct(coins: multiset<Coin>)
  {
    && (forall c | c in coins :: coins[c] == 1)
    && (forall c, e | c in coins && e in coins && c.denom == e.denom :: c == e)
  }

  /** b lists the same coins as a, in order. */
  predicate Arranges(b: seq<Coin>, a: seq<Coin>) { WeaklySorted(b) && multiset(b) == multiset(a) }

  /** Sorted but for the element at k, which may still belong further down. */
  predicate Inserting(cs: seq<Coin>, k: nat)
  {
    && k < |cs|
    && (forall i, j | 0 <= i < j < |cs| && j != k :: !Less(cs[j].denom, cs[i].denom))
  }

  function Swapped(cs: seq<Coin>, k: nat): seq<Coin>
    requires 0 < k < |cs|
  {
    cs[k - 1 := cs[k]][k := cs[k - 1]]
  }

  lemma SwappedBag(cs: seq<Coin>, k: nat)
    requires 0 < k < |cs|
    ensures multiset(Swapped(cs, k)) == multiset(cs)
  {
  }

  /** One insertion step: the element at k is smaller than its neighbour, so they change places. */
  lemma SwapKeeps(cs: seq<Coin>, k: nat)
    requires 0 < k && Inserting(cs, k) && Less(cs[k].denom, cs[k - 1].denom)
    ensures Inserting(Swapped(cs, k), k - 1)
  {
    LessIsTotal(cs[k].denom, cs[k - 1].denom);
  }

  /** An element that is not below its neighbour is not below anything before it. */
  lemma InsertedHere(cs: seq<Coin>, k: nat)
    requires Inserting(cs, k) && (k > 0 ==> !Less(cs[k].denom, cs[k - 1].denom))
    ensures WeaklySorted(cs)
  {
    forall i | 0 <= i < k ensures !Less(cs[k].denom, cs[i].denom) {
      if i < k - 1 { NotLessIsTransitive(cs[k].denom, cs[k - 1].denom, cs[i].denom); }
    }
  }

  lemma NotLessIsTransitive(a: Denom, b: Denom, c: Denom)
    requires !Less(a, b) && !Less(b, c)
    ensures !Less(a, c)
  {
    LessIsTotal(a, b);
    LessIsTotal(b, c);
    LessIsTotal(a, c);
    if Less(b, a) && Less(c, b) { LessIsTransitive(c, b, a); }
  }

  /** Sorts in place by insertion. */
  method Sort(a: array<Coin>)
    modifies a
    ensures Arranges(a[..], old(a[..]))
  {
    for n := 0 to a.Length
      invariant WeaklySorted(a[..n])
      invariant multiset(a[..]) == multiset(old(a[..]))
    {
      Insert(a, n);
    }
    assert a[..a.Length] == a[..];
  }

  method Insert(a: array<Coin>, n: nat)
    requires n < a.Length && WeaklySorted(a[..n])
    modifies a
    ensures WeaklySorted(a[..n + 1])
    ensures multiset(a[..]) == multiset(old(a[..]))
  {
    hide Less;
    var k: nat := n;
    while k > 0 && Less(a[k].denom, a[k - 1].denom)
      invariant Inserting(a[..n + 1], k)
      invariant multiset(a[..]) == multiset(old(a[..]))
    {
      Swap(a, n, k);
      k := k - 1;
    }
    InsertedHere(a[..n + 1], k);
  }

  method Swap(a: array<Coin>, n: nat, k: nat)
    requires n < a.Length && 0 < k && Inserting(a[..n + 1], k) && Less(a[k].denom, a[k - 1].denom)
    modifies a
    ensures Inserting(a[..n + 1], k - 1)
    ensures multiset(a[..]) == multiset(old(a[..]))
  {
    hide Less;
    SwapKeeps(a[..n + 1], k);
    SwappedBag(a[..], k);
    ghost var before := a[..];
    a[k], a[k - 1] := a[k - 1], a[k];
    assert a[..] == Swapped(before, k);
    assert a[..n + 1] == Swapped(before[..n + 1], k);
  }

  // ---------------------------------------------------------------- what sorting gives

  lemma ConsBag(cs: seq<Coin>)
    requires cs != []
    ensures multiset(cs) == multiset{cs[0]} + multiset(cs[1..])
  {
    assert cs == [cs[0]] + cs[1..];
  }

  /** The first denomination of a sorted list does not occur again. */
  lemma FirstIsAlone(cs: seq<Coin>, c: Coin)
    requires Sorted(cs) && cs != [] && c in multiset(cs[1..])
    ensures c.denom != cs[0].denom
  {
    var k :| 0 <= k < |cs[1..]| && cs[1..][k] == c;
    SortedAbove(cs, k + 1);
    LessIsStrict(c.denom);
  }

  /** A sorted list holds no denomination twice. */
  lemma {:induction false} SortedIsDistinct(cs: seq<Coin>)
    requires Sorted(cs)
    ensures Distinct(multiset(cs))
  {
    if cs != [] {
      hide Distinct, Less;
      SortedIsDistinct(cs[1..]);
      forall c | c in multiset(cs[1..]) ensures c.denom != cs[0].denom { FirstIsAlone(cs, c); }
      ConsBag(cs);
      DistinctMore(cs[0], multiset(cs[1..]));
    }
  }

  /** A weakly sorted list without repetitions is sorted. */
  lemma {:induction false} DistinctIsSorted(cs: seq<Coin>)
    requires WeaklySorted(cs) && Distinct(multiset(cs))
    ensures Sorted(cs)
  {
    if |cs| > 1 {
      hide Distinct, Less;
      ConsBag(cs);
      DistinctRest(cs[0], multiset(cs[1..]));
      DistinctIsSorted(cs[1..]);
      assert cs[1..][0] in multiset(cs[1..]);
      LessIsTotal(cs[0].denom, cs[1].denom);
    }
  }

  lemma DistinctMore(c: Coin, coins: multiset<Coin>)
    requires Distinct(coins) && forall e | e in coins :: e.denom != c.denom
    ensures Distinct(multiset{c} + coins)
  {
  }

  lemma DistinctRest(c: Coin, coins: multiset<Coin>)
    requires Distinct(multiset{c} + coins)
    ensures Distinct(coins) && forall e | e in coins :: e.denom != c.denom
  {
    var all := multiset{c} + coins;
    forall e | e in coins ensures coins[e] == 1 && e.denom != c.denom {
      assert e in all && c in all && all[e] == 1 && all[c] == 1;
    }
    forall e, f | e in coins && f in coins && e.denom == f.denom ensures e == f {
      assert e in all && f in all;
    }
  }

  /** Looking up finds a coin of that denomination, or there is none. */
  lemma {:induction false} LookupFinds(cs: seq<Coin>, d: Denom)
    ensures Coin(d, Lookup(cs, d)) in multiset(cs) ||
            (Lookup(cs, d) == 0 && forall c | c in multiset(cs) :: c.denom != d)
  {
    if cs != [] {
      LookupFinds(cs[1..], d);
      ConsBag(cs);
    }
  }

  /** The order of the coins does not matter for looking up. */
  lemma LookupPermuted(a: seq<Coin>, b: seq<Coin>, d: Denom)
    requires Distinct(multiset(a)) && multiset(a) == multiset(b)
    ensures Lookup(a, d) == Lookup(b, d)
  {
    LookupFinds(a, d);
    LookupFinds(b, d);
    var c, e := Coin(d, Lookup(a, d)), Coin(d, Lookup(b, d));
    if c in multiset(a) && e in multiset(a) { assert c.denom == e.denom; }
  }

  predicate PositiveBag(coins: multiset<Coin>) { |coins| > 0 && forall c | c in coins :: c.amount > 0 }

  lemma PositiveIsOfTheBag(cs: seq<Coin>)
    ensures Positive(cs) <==> PositiveBag(multiset(cs))
  {
    if Positive(cs) { assert forall c | c in multiset(cs) :: c in cs; }
    if PositiveBag(multiset(cs)) { assert forall c | c in cs :: c in multiset(cs); }
  }

  /** There is only one way to arrange distinct positive coins. */
  lemma ArrangedAlike(a: seq<Coin>, b: seq<Coin>)
    requires WeaklySorted(a) && WeaklySorted(b) && multiset(a) == multiset(b)
    requires Distinct(multiset(a)) && Positive(a)
    ensures a == b
  {
    DistinctIsSorted(a);
    DistinctIsSorted(b);
    PositiveIsOfTheBag(a);
    PositiveIsOfTheBag(b);
    forall d ensures Lookup(a, d) == Lookup(b, d) { LookupPermuted(a, b, d); }
    SameAmounts(a, b);
  }

  // ---------------------------------------------------------------- the built message

  /** A transfer that can be sent: a recipient and positive coins of distinct denominations, in any order. */
  predicate TransferOk(t: Entry) { t.address != [] && Positive(t.coins) && Distinct(multiset(t.coins)) }

  /** What the caller can check beforehand: every transfer is well-formed, and the totals are fine. */
  ghost predicate SendOk(from: seq<byte>, transfers: seq<Entry>)
  {
    && from != [] && transfers != []
    && (forall t | t in transfers :: TransferOk(t))
    && TotalsOk(transfers)
  }

  /** The entries with their coins arranged. */
  predicate ArrangesAll(sorted: seq<Entry>, given: seq<Entry>)
  {
    |sorted| == |given| &&
    forall i | 0 <= i < |given| :: sorted[i].address == given[i].address && Arranges(sorted[i].coins, given[i].coins)
  }

  lemma OkIffArrangedOk(sorted: Entry, given: Entry)
    requires sorted.address == given.address && Arranges(sorted.coins, given.coins)
    ensures EntryOk(sorted) <==> TransferOk(given)
  {
    if Sorted(sorted.coins) { SortedIsDistinct(sorted.coins); }
    if Distinct(multiset(sorted.coins)) { DistinctIsSorted(sorted.coins); }
    PositiveIsOfTheBag(sorted.coins);
    PositiveIsOfTheBag(given.coins);
  }

  lemma AllOkIffArrangedOk(sorted: seq<Entry>, given: seq<Entry>)
    requires ArrangesAll(sorted, given)
    ensures (forall e | e in sorted :: EntryOk(e)) <==> forall t | t in given :: TransferOk(t)
  {
    forall i | 0 <= i < |given| ensures EntryOk(sorted[i]) <==> TransferOk(given[i]) {
      OkIffArrangedOk(sorted[i], given[i]);
    }
    if forall e | e in sorted :: EntryOk(e) {
      forall t | t in given ensures TransferOk(t) {
        var i :| 0 <= i < |given| && given[i] == t;
        assert sorted[i] in sorted;
      }
    }
    if forall t | t in given :: TransferOk(t) {
      forall e | e in sorted ensures EntryOk(e) {
        var i :| 0 <= i < |given| && sorted[i] == e;
        assert given[i] in given;
      }
    }
  }

  lemma AllArrangedAlike(a: seq<Entry>, b: seq<Entry>, given: seq<Entry>)
    requires ArrangesAll(a, given) && ArrangesAll(b, given) && forall t | t in given :: TransferOk(t)
    ensures a == b
  {
    forall i | 0 <= i < |given| ensures a[i] == b[i] {
      assert given[i] in given;
      OkIffArrangedOk(a[i], given[i]);
      ArrangedAlike(a[i].coins, b[i].coins);
    }
  }

  lemma {:induction false} SumArranged(sorted: seq<Entry>, given: seq<Entry>, d: Denom)
    requires ArrangesAll(sorted, given) && forall t | t in given :: TransferOk(t)
    ensures SumOf(sorted, d) == SumOf(given, d)
  {
    if given != [] {
      var n := |given| - 1;
      assert given[n] in given;
      SumArranged(sorted[..n], given[..n], d);
      LookupPermuted(given[n].coins, sorted[n].coins, d);
    }
  }

  /** No total wraps below zero and some total does not wrap to zero. */
  ghost predicate TotalsOk(transfers: seq<Entry>)
  {
    (forall d :: Owed(transfers, d) >= 0) && exists d :: Owed(transfers, d) != 0
  }

  /** The 64-bit total of a denomination. */
  function Owed(transfers: seq<Entry>, d: Denom): int64 { Wrap(SumOf(transfers, d)) }

  lemma OwedIsInTotal(outputs: seq<Entry>, given: seq<Entry>, d: Denom)
    requires ArrangesAll(outputs, given) && (forall t | t in given :: TransferOk(t))
    requires forall e | e in outputs :: EntryOk(e)
    ensures Lookup(Total(outputs), d) == Owed(given, d)
  {
    SumArranged(outputs, given, d);
    TotalIsWrappedSum(outputs, d);
  }

  /** The sum has only positive amounts exactly when the totals are fine. */
  lemma PositiveTotal(outputs: seq<Entry>, given: seq<Entry>)
    requires ArrangesAll(outputs, given) && (forall t | t in given :: TransferOk(t))
    requires forall e | e in outputs :: EntryOk(e)
    ensures Positive(Total(outputs)) <==> TotalsOk(given)
  {
    hide ArrangesAll, TransferOk, EntryOk, Owed;
    var total := Total(outputs);
    TotalIsCanonical(outputs);
    if Positive(total) {
      forall d ensures Owed(given, d) >= 0 {
        OwedIsInTotal(outputs, given, d);
        LookupNonNegative(total, d);
      }
      OwedIsInTotal(outputs, given, total[0].denom);
      assert Owed(given, total[0].denom) != 0;
    }
    if TotalsOk(given) {
      var d :| Owed(given, d) != 0;
      OwedIsInTotal(outputs, given, d);
      forall c | c in total ensures c.amount > 0 {
        OwedIsInTotal(outputs, given, c.denom);
        assert Owed(given, c.denom) >= 0;
        HeldAmount(total, c);
      }
    }
  }

  /** A sorted set holds, of every denomination in it, the amount found there. */
  lemma HeldAmount(cs: seq<Coin>, c: Coin)
    requires Sorted(cs) && c in cs
    ensures Lookup(cs, c.denom) == c.amount
  {
    SortedIsDistinct(cs);
    LookupFinds(cs, c.denom);
    assert c in multiset(cs);
  }

  /** The message built from transfers, with the coins as sorted for the sum and as sorted again for the outputs. */
  function Built(from: seq<byte>, summed: seq<Entry>, outputs: seq<Entry>): SendMsg
  {
    SendMsg([Entry(from, Total(summed))], outputs)
  }

  /** The built message is accepted exactly when the transfers could be sent. */
  lemma BuiltIsValid(from: seq<byte>, given: seq<Entry>, summed: seq<Entry>, outputs: seq<Entry>)
    requires ArrangesAll(summed, given) && ArrangesAll(outputs, given)
    ensures Accepts(Built(from, summed, outputs)) <==> SendOk(from, given)
  {
    hide TransferOk, TotalsOk;
    AllOkIffArrangedOk(outputs, given);
    if forall t | t in given :: TransferOk(t) {
      AllArrangedAlike(summed, outputs, given);
      var input := Entry(from, Total(outputs));
      OneInput(input);
      TotalIsCanonical(outputs);
      PositiveTotal(outputs, given);
      assert EntryOk(input) <==> from != [] && TotalsOk(given);
      assert Built(from, summed, outputs).inputs == [input];
      assert input in [input];
    }
  }

  lemma OneInput(e: Entry)
    ensures Total([e]) == e.coins
  {
    assert [e][..0] == [];
  }

  /** Totals that fit in 63 bits never stand in the way. */
  lemma FittingTotalsSend(from: seq<byte>, transfers: seq<Entry>)
    requires forall d :: SumOf(transfers, d) <= INT64_MAX
    ensures SendOk(from, transfers) <==>
            from != [] && transfers != [] && forall t | t in transfers :: TransferOk(t)
  {
    if transfers != [] && forall t | t in transfers :: TransferOk(t) {
      forall d ensures 0 <= SumOf(transfers, d) == Owed(transfers, d) {
        SumNonNegative(transfers, d);
        assert SumOf(transfers, d) <= INT64_MAX;
        WrapFits(SumOf(transfers, d));
      }
      var n := |transfers| - 1;
      var last := transfers[n].coins;
      assert transfers[n] in transfers && Positive(last);
      var d := last[0].denom;
      assert Lookup(last, d) > 0;
      SumNonNegative(transfers[..n], d);
      assert Owed(transfers, d) != 0;
    }
  }

  lemma {:induction false} SumNonNegative(transfers: seq<Entry>, d: Denom)
    requires forall t | t in transfers :: TransferOk(t)
    ensures SumOf(transfers, d) >= 0
  {
    if transfers != [] {
      var n := |transfers| - 1;
      assert TransferOk(transfers[n]);
      SumNonNegative(transfers[..n], d);
      LookupNonNegative(transfers[n].coins, d);
    }
  }

  // ---------------------------------------------------------------- the code

  /** The transfers as values. */
  ghost function Given(transfers: seq<Transfer>): (given: seq<Entry>)
    reads set t | t in transfers :: t.coins
    ensures |given| == |transfers|
    ensures forall i | 0 <= i < |given| :: given[i] == Entry(transfers[i].to, transfers[i].coins[..])
  {
    if transfers == [] then [] else [Entry(transfers[0].to, transfers[0].coins[..])] + Given(transfers[1..])
  }

  /** The coins of every transfer are those given, in some order. */
  ghost predicate SameCoins(transfers: seq<Transfer>, given: seq<Entry>)
    reads set t | t in transfers :: t.coins
  {
    && |given| == |transfers|
    && forall i | 0 <= i < |given| ::
         given[i].address == transfers[i].to && multiset(given[i].coins) == multiset(transfers[i].coins[..])
  }

  /** Sorts the coins of one transfer; other transfers may share them. */
  method SortNext(transfers: seq<Transfer>, i: nat, ghost given: seq<Entry>) returns (coins: seq<Coin>)
    requires i < |transfers| && SameCoins(transfers, given)
    modifies transfers[i].coins
    ensures SameCoins(transfers, given)
    ensures given[i].address == transfers[i].to && Arranges(coins, given[i].coins)
  {
    Sort(transfers[i].coins);
    coins := transfers[i].coins[..];
  }

  /** The message for a list of transfers. Their coins are sorted in place, once for the sum and once more for the
      outputs; no coin is lost, and the message is valid exactly when the transfers could be sent. */
  method SendToken(from: seq<byte>, transfers: seq<Transfer>) returns (msg: SendMsg)
    modifies set t | t in transfers :: t.coins
    ensures |msg.inputs| == 1 && msg.inputs[0].address == from
    ensures ArrangesAll(msg.outputs, old(Given(transfers))) && SameCoins(transfers, old(Given(transfers)))
    ensures Accepts(msg) <==> SendOk(from, old(Given(transfers)))
  {
    hide SameCoins, ArrangesAll, SendOk, Accepts, Total;
    ghost var given := Given(transfers);
    GivenIsSame(transfers);
    var fromCoins;
    ghost var summed;
    fromCoins, summed := SumTransfers(transfers, given);
    msg := CreateSendMsg(from, fromCoins, transfers, given);
    BuiltIsValid(from, given, summed, msg.outputs);
  }

  method SumTransfers(transfers: seq<Transfer>, ghost given: seq<Entry>)
    returns (fromCoins: seq<Coin>, ghost summed: seq<Entry>)
    requires SameCoins(transfers, given)
    modifies set t | t in transfers :: t.coins
    ensures SameCoins(transfers, given) && ArrangesAll(summed, given) && fromCoins == Total(summed)
  {
    hide Arranges, Merge;
    fromCoins, summed := [], [];
    for i := 0 to |transfers|
      invariant SameCoins(transfers, given)
      invariant fromCoins == Total(summed) && ArrangesAll(summed, given[..i])
    {
      var coins := SortNext(transfers, i, given);
      fromCoins := Plus(fromCoins, coins);
      TotalMore(summed, Entry(transfers[i].to, coins));
      summed := summed + [Entry(transfers[i].to, coins)];
    }
    assert given[..|transfers|] == given;
  }

  lemma TotalMore(es: seq<Entry>, e: Entry)
    ensures Total(es + [e]) == Merge(Total(es), e.coins)
  {
    assert (es + [e])[..|es|] == es;
  }

  lemma GivenIsSame(transfers: seq<Transfer>)
    ensures SameCoins(transfers, Given(transfers))
  {
  }

  method CreateSendMsg(from: seq<byte>, fromCoins: seq<Coin>, transfers: seq<Transfer>, ghost given: seq<Entry>)
    returns (msg: SendMsg)
    requires SameCoins(transfers, given)
    modifies set t | t in transfers :: t.coins
    ensures msg.inputs == [Entry(from, fromCoins)]
    ensures ArrangesAll(msg.outputs, given) && SameCoins(transfers, given)
  {
    hide Arranges;
    var output: seq<Entry> := [];
    for i := 0 to |transfers|
      invariant SameCoins(transfers, given) && ArrangesAll(output, given[..i])
    {
      var coins := SortNext(transfers, i, given);
      output := output + [Entry(transfers[i].to, coins)];
    }
    assert given[..|transfers|] == given;
    msg := SendMsg([Entry(from, fromCoins)], output);
  }
}
