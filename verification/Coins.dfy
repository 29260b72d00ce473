/** Coin sets: sorted lists of denominations with 64-bit amounts that wrap.

    `Plus` is a two-index merge, `AmountOf` a binary search. On canonical sets (strictly sorted, no zero amounts)
    both are proved to be what they stand for: addition of functions from denominations to amounts.
 */
module Coins {
  import opened Int64
  import BigEndian

  type byte = BigEndian.byte
  type Denom = seq<byte>

  datatype Coin = Coin(denom: Denom, amount: int64)

  // ---------------------------------------------------------------- the order of denominations

  /** Byte-wise lexicographic order. */
  predicate Less(a: Denom, b: Denom)
  {
    b != [] && (a == [] || a[0] < b[0] || (a[0] == b[0] && Less(a[1..], b[1..])))
  }

  lemma {:induction false} LessIsStrict(a: Denom)
    ensures !Less(a, a)
  {
    if a != [] { LessIsStrict(a[1..]); }
  }

  lemma {:induction false} LessIsTransitive(a: Denom, b: Denom, c: Denom)
    requires Less(a, b) && Less(b, c)
    ensures Less(a, c)
  {
    if a != [] && a[0] == b[0] && b[0] == c[0] {
      LessIsTransitive(a[1..], b[1..], c[1..]);
    }
  }

  lemma {:induction false} LessIsTotal(a: Denom, b: Denom)
    ensures Less(a, b) || a == b || Less(b, a)
    ensures !(Less(a, b) && Less(b, a))
  {
    if a != [] && b != [] {
      LessIsTotal(a[1..], b[1..]);
      assert a == [a[0]] + a[1..] && b == [b[0]] + b[1..];
    }
  }

  /** Up to some place the two agree, and there the first ends or has the smaller byte. */
  predicate Precedes(a: Denom, b: Denom)
  {
    exists k | 0 <= k <= |a| && k < |b| :: a[..k] == b[..k] && (k == |a| || a[k] < b[k])
  }

  /** This is the order. */
  lemma {:induction false} LessIffPrecedes(a: Denom, b: Denom)
    ensures Less(a, b) <==> Precedes(a, b)
  {
    if Less(a, b) {
      if a == [] || a[0] < b[0] {
        assert a[..0] == b[..0];
      } else {
        LessIffPrecedes(a[1..], b[1..]);
        var k :| 0 <= k <= |a[1..]| && k < |b[1..]| && a[1..][..k] == b[1..][..k] &&
                 (k == |a[1..]| || a[1..][k] < b[1..][k]);
        assert a[..k + 1] == [a[0]] + a[1..][..k] && b[..k + 1] == [b[0]] + b[1..][..k];
      }
    }
    if Precedes(a, b) {
      var k :| 0 <= k <= |a| && k < |b| && a[..k] == b[..k] && (k == |a| || a[k] < b[k]);
      if k > 0 {
        assert a[..k][0] == b[..k][0] && a[1..][..k - 1] == a[..k][1..] && b[1..][..k - 1] == b[..k][1..];
        assert Precedes(a[1..], b[1..]);
        LessIffPrecedes(a[1..], b[1..]);
      }
    }
  }

  // ---------------------------------------------------------------- coin sets

  /** Every denomination precedes the next. */
  predicate Ascending(cs: seq<Coin>)
  {
    forall i | 0 < i < |cs| :: Precedes(cs[i - 1].denom, cs[i].denom)
  }

  lemma {:induction false} SortedIffAscending(cs: seq<Coin>)
    ensures Sorted(cs) <==> Ascending(cs)
  {
    hide Precedes, Less;
    if |cs| >= 2 {
      var rest := cs[1..];
      SortedIffAscending(rest);
      LessIffPrecedes(cs[0].denom, cs[1].denom);
      if Ascending(cs) {
        forall i | 0 < i < |rest| ensures Precedes(rest[i - 1].denom, rest[i].denom) {
          assert Precedes(cs[i].denom, cs[i + 1].denom);
        }
      }
      if Precedes(cs[0].denom, cs[1].denom) && Ascending(rest) {
        forall i | 0 < i < |cs| ensures Precedes(cs[i - 1].denom, cs[i].denom) {
          if i > 1 { assert Precedes(rest[i - 2].denom, rest[i - 1].denom); }
        }
      }
    }
  }

  predicate Sorted(cs: seq<Coin>)
  {
    |cs| >= 2 ==> Less(cs[0].denom, cs[1].denom) && Sorted(cs[1..])
  }

  predicate NonZero(cs: seq<Coin>) { forall c | c in cs :: c.amount != 0 }

  predicate Canonical(cs: seq<Coin>) { Sorted(cs) && NonZero(cs) }

  /** The amount of the first coin of that denomination; what a linear search finds. */
  function Lookup(cs: seq<Coin>, d: Denom): int64
  {
    if cs == [] then 0 else if cs[0].denom == d then cs[0].amount else Lookup(cs[1..], d)
  }

  lemma LookupCons(c: Coin, cs: seq<Coin>, d: Denom)
    ensures Lookup([c] + cs, d) == if c.denom == d then c.amount else Lookup(cs, d)
  {
    assert ([c] + cs)[1..] == cs;
  }

  /** Everything behind the first coin of a sorted set has a larger denomination. */
  lemma {:induction false} SortedAbove(cs: seq<Coin>, k: nat)
    requires Sorted(cs) && 0 < k < |cs|
    ensures Less(cs[0].denom, cs[k].denom)
  {
    if k > 1 {
      SortedAbove(cs[1..], k - 1);
      LessIsTransitive(cs[0].denom, cs[1].denom, cs[k].denom);
    }
  }

  /** Nothing below the first denomination of a sorted set is in it. */
  lemma {:induction false} LookupBelow(cs: seq<Coin>, d: Denom)
    requires Sorted(cs) && (cs != [] ==> Less(d, cs[0].denom))
    ensures Lookup(cs, d) == 0
  {
    if cs != [] {
      LessIsStrict(d);
      if |cs| > 1 { LessIsTransitive(d, cs[0].denom, cs[1].denom); }
      LookupBelow(cs[1..], d);
    }
  }

  lemma {:induction false} SortedDrop(cs: seq<Coin>, i: nat)
    requires Sorted(cs) && i <= |cs|
    ensures Sorted(cs[i..])
  {
    if i > 0 {
      SortedDrop(cs[1..], i - 1);
      assert cs[1..][i - 1..] == cs[i..];
    }
  }

  lemma {:induction false} SortedTake(cs: seq<Coin>, j: nat)
    requires Sorted(cs) && j <= |cs|
    ensures Sorted(cs[..j])
  {
    if j >= 2 {
      SortedTake(cs[1..], j - 1);
      assert cs[..j][1..] == cs[1..][..j - 1];
    }
  }

  // ---------------------------------------------------------------- binary search

  /** The amount of a denomination by binary search. */
  function AmountOf(cs: seq<Coin>, d: Denom): int64
    decreases |cs|
  {
    if |cs| == 0 then 0
    else if |cs| == 1 then (if cs[0].denom == d then cs[0].amount else 0)
    else
      var mid := |cs| / 2;
      if Less(d, cs[mid].denom) then AmountOf(cs[..mid], d)
      else if d == cs[mid].denom then cs[mid].amount
      else AmountOf(cs[mid + 1..], d)
  }

  lemma {:induction false} LookupSplit(cs: seq<Coin>, k: nat, d: Denom)
    requires Sorted(cs) && k < |cs|
    ensures Lookup(cs, d) == if Less(d, cs[k].denom) then Lookup(cs[..k], d)
                             else if d == cs[k].denom then cs[k].amount else Lookup(cs[k + 1..], d)
  {
    LessIsStrict(d);
    if k == 0 {
      if Less(d, cs[0].denom) { LookupBelow(cs, d); }
    } else {
      SortedAbove(cs, k);
      LookupSplit(cs[1..], k - 1, d);
      assert cs[1..][..k - 1] == cs[..k][1..] && cs[1..][k..] == cs[k + 1..];
      if d == cs[0].denom { LessIsTotal(d, cs[k].denom); }
    }
  }

  /** On sorted sets the binary search finds what the linear search finds. */
  lemma {:induction false} AmountOfIsLookup(cs: seq<Coin>, d: Denom)
    requires Sorted(cs)
    ensures AmountOf(cs, d) == Lookup(cs, d)
    decreases |cs|
  {
    if |cs| >= 2 {
      var mid := |cs| / 2;
      LookupSplit(cs, mid, d);
      SortedTake(cs, mid);
      SortedDrop(cs, mid + 1);
      AmountOfIsLookup(cs[..mid], d);
      AmountOfIsLookup(cs[mid + 1..], d);
    }
  }

  // ---------------------------------------------------------------- the merge

  /** The merge by recursion. */
  function Merge(a: seq<Coin>, b: seq<Coin>): seq<Coin>
    decreases |a| + |b|
  {
    if a == [] then b
    else if b == [] then a
    else if Less(a[0].denom, b[0].denom) then [a[0]] + Merge(a[1..], b)
    else if a[0].denom == b[0].denom then
      var sum, rest := Wrap(a[0].amount + b[0].amount), Merge(a[1..], b[1..]);
      if sum == 0 then rest else [Coin(a[0].denom, sum)] + rest
    else [b[0]] + Merge(a, b[1..])
  }

  /** Adds two coin sets with one pass over both. */
  method Plus(a: seq<Coin>, b: seq<Coin>) returns (sum: seq<Coin>)
    ensures sum == Merge(a, b)
  {
    hide Wrap, Less, Merge;
    sum := [];
    var i: nat, j: nat := 0, 0;
    assert a[0..] == a && b[0..] == b;
    while i < |a| && j < |b|
      invariant i <= |a| && j <= |b|
      invariant Merge(a, b) == sum + Merge(a[i..], b[j..])
      decreases |a| - i + |b| - j
    {
      var coinA, coinB := a[i], b[j];
      MergeStep(sum, a, i, b, j);
      if Less(coinA.denom, coinB.denom) {
        sum, i := sum + [coinA], i + 1;
      } else if coinA.denom == coinB.denom {
        var total := Wrap(coinA.amount + coinB.amount);
        if total != 0 {
          sum := sum + [Coin(coinA.denom, total)];
        }
        i, j := i + 1, j + 1;
      } else {
        sum, j := sum + [coinB], j + 1;
      }
    }
    MergeEnds(a[i..], b[j..]);
    if i == |a| {
      sum := sum + b[j..];
    } else {
      sum := sum + a[i..];
    }
  }

  lemma MergeEnds(a: seq<Coin>, b: seq<Coin>)
    ensures a == [] ==> Merge(a, b) == b
    ensures b == [] ==> Merge(a, b) == a
  {
  }

  lemma MergeStep(sum: seq<Coin>, a: seq<Coin>, i: nat, b: seq<Coin>, j: nat)
    requires i < |a| && j < |b|
    ensures var total := Wrap(a[i].amount + b[j].amount);
            sum + Merge(a[i..], b[j..]) ==
              if Less(a[i].denom, b[j].denom) then sum + [a[i]] + Merge(a[i + 1..], b[j..])
              else if a[i].denom != b[j].denom then sum + [b[j]] + Merge(a[i..], b[j + 1..])
              else if total == 0 then sum + Merge(a[i + 1..], b[j + 1..])
              else sum + [Coin(a[i].denom, total)] + Merge(a[i + 1..], b[j + 1..])
  {
    assert a[i..][1..] == a[i + 1..] && b[j..][1..] == b[j + 1..];
  }

  /** d is below every denomination of cs. */
  predicate Below(d: Denom, cs: seq<Coin>) { cs != [] ==> Less(d, cs[0].denom) }

  lemma ConsCanonical(c: Coin, cs: seq<Coin>)
    requires Canonical(cs) && c.amount != 0 && Below(c.denom, cs)
    ensures Canonical([c] + cs)
  {
    assert ([c] + cs)[1..] == cs;
  }

  /** The first denomination of a set is below the rest of it. */
  lemma RestIsAbove(cs: seq<Coin>)
    requires Canonical(cs) && cs != []
    ensures Canonical(cs[1..]) && Below(cs[0].denom, cs[1..])
  {
  }

  lemma BelowBoth(d: Denom, a: seq<Coin>, b: seq<Coin>)
    requires Canonical(a) && Canonical(b) && Below(d, a) && Below(d, b)
    ensures Below(d, Merge(a, b))
    decreases |a| + |b|
  {
    if a != [] && b != [] && a[0].denom == b[0].denom && Wrap(a[0].amount + b[0].amount) == 0 {
      RestIsAbove(a);
      RestIsAbove(b);
      if |a| > 1 { LessIsTransitive(d, a[0].denom, a[1].denom); }
      if |b| > 1 { LessIsTransitive(d, b[0].denom, b[1].denom); }
      BelowBoth(d, a[1..], b[1..]);
    }
  }

  /** The sum of canonical sets is canonical. */
  lemma {:induction false} PlusKeepsCanonical(a: seq<Coin>, b: seq<Coin>)
    requires Canonical(a) && Canonical(b)
    ensures Canonical(Merge(a, b))
    decreases |a| + |b|
  {
    if a != [] && b != [] {
      RestIsAbove(a);
      RestIsAbove(b);
      LessIsTotal(a[0].denom, b[0].denom);
      if Less(a[0].denom, b[0].denom) {
        PlusKeepsCanonical(a[1..], b);
        BelowBoth(a[0].denom, a[1..], b);
        ConsCanonical(a[0], Merge(a[1..], b));
      } else if a[0].denom == b[0].denom {
        PlusKeepsCanonical(a[1..], b[1..]);
        BelowBoth(a[0].denom, a[1..], b[1..]);
        var sum := Wrap(a[0].amount + b[0].amount);
        if sum != 0 { ConsCanonical(Coin(a[0].denom, sum), Merge(a[1..], b[1..])); }
      } else {
        PlusKeepsCanonical(a, b[1..]);
        BelowBoth(b[0].denom, a, b[1..]);
        ConsCanonical(b[0], Merge(a, b[1..]));
      }
    }
  }

  /** The amount of every denomination in the sum is the wrapped sum of its amounts. */
  lemma {:induction false} PlusAddsAmounts(a: seq<Coin>, b: seq<Coin>, d: Denom)
    requires Canonical(a) && Canonical(b)
    ensures Lookup(Merge(a, b), d) == Wrap(Lookup(a, d) + Lookup(b, d))
    decreases |a| + |b|
  {
    hide Wrap, Less, Merge, Lookup, Sorted;
    if a == [] || b == [] {
      MergeNothing(a, b, d);
    } else {
      RestIsAbove(a);
      RestIsAbove(b);
      LessIsTotal(a[0].denom, b[0].denom);
      if Less(a[0].denom, b[0].denom) {
        PlusAddsAmounts(a[1..], b, d);
        MergeSmaller(a, b, d);
      } else if a[0].denom == b[0].denom {
        PlusAddsAmounts(a[1..], b[1..], d);
        MergeEqual(a, b, d);
      } else {
        PlusAddsAmounts(a, b[1..], d);
        MergeLarger(a, b, d);
      }
    }
  }

  lemma MergeNothing(a: seq<Coin>, b: seq<Coin>, d: Denom)
    requires a == [] || b == []
    ensures Lookup(Merge(a, b), d) == Wrap(Lookup(a, d) + Lookup(b, d))
  {
    hide Wrap;
    WrapFits(Lookup(a, d));
    WrapFits(Lookup(b, d));
  }

  /** The step of the merge that takes the first coin of a. */
  lemma MergeSmaller(a: seq<Coin>, b: seq<Coin>, d: Denom)
    requires Canonical(a) && Canonical(b) && a != [] && b != [] && Less(a[0].denom, b[0].denom)
    requires Lookup(Merge(a[1..], b), d) == Wrap(Lookup(a[1..], d) + Lookup(b, d))
    ensures Lookup(Merge(a, b), d) == Wrap(Lookup(a, d) + Lookup(b, d))
  {
    hide Wrap, Less, Lookup;
    assert Merge(a, b) == [a[0]] + Merge(a[1..], b);
    hide Merge;
    LookupCons(a[0], Merge(a[1..], b), d);
    assert a == [a[0]] + a[1..];
    LookupCons(a[0], a[1..], d);
    if d == a[0].denom {
      LookupBelow(b, d);
      WrapFits(a[0].amount);
    }
  }

  /** The step that adds the first coins. */
  lemma MergeEqual(a: seq<Coin>, b: seq<Coin>, d: Denom)
    requires Canonical(a) && Canonical(b) && a != [] && b != [] && a[0].denom == b[0].denom
    requires Lookup(Merge(a[1..], b[1..]), d) == Wrap(Lookup(a[1..], d) + Lookup(b[1..], d))
    ensures Lookup(Merge(a, b), d) == Wrap(Lookup(a, d) + Lookup(b, d))
  {
    hide Wrap, Less, Merge, Lookup, Sorted;
    var sum, rest := Wrap(a[0].amount + b[0].amount), Merge(a[1..], b[1..]);
    MergeHeads(a, b);
    LookupHead(a, d);
    LookupHead(b, d);
    LookupCons(Coin(a[0].denom, sum), rest, d);
    if d == a[0].denom {
      RestIsAbove(a);
      RestIsAbove(b);
      LookupBelow(a[1..], d);
      LookupBelow(b[1..], d);
      WrapFits(0);
    }
  }

  lemma LookupHead(cs: seq<Coin>, d: Denom)
    requires cs != []
    ensures Lookup(cs, d) == if cs[0].denom == d then cs[0].amount else Lookup(cs[1..], d)
  {
  }

  lemma MergeHeads(a: seq<Coin>, b: seq<Coin>)
    requires a != [] && b != [] && a[0].denom == b[0].denom
    ensures var sum, rest := Wrap(a[0].amount + b[0].amount), Merge(a[1..], b[1..]);
            Merge(a, b) == if sum == 0 then rest else [Coin(a[0].denom, sum)] + rest
  {
    hide Wrap;
    LessIsStrict(a[0].denom);
  }

  /** The step that takes the first coin of b. */
  lemma MergeLarger(a: seq<Coin>, b: seq<Coin>, d: Denom)
    requires Canonical(a) && Canonical(b) && a != [] && b != [] && Less(b[0].denom, a[0].denom)
    requires Lookup(Merge(a, b[1..]), d) == Wrap(Lookup(a, d) + Lookup(b[1..], d))
    ensures Lookup(Merge(a, b), d) == Wrap(Lookup(a, d) + Lookup(b, d))
  {
    hide Wrap, Less;
    LessIsTotal(a[0].denom, b[0].denom);
    LookupCons(b[0], Merge(a, b[1..]), d);
    if d == b[0].denom {
      LookupBelow(a, d);
      WrapFits(b[0].amount);
    }
  }

  /** A canonical set is determined by its amounts. */
  lemma {:induction false} SameAmounts(a: seq<Coin>, b: seq<Coin>)
    requires Canonical(a) && Canonical(b) && forall d :: Lookup(a, d) == Lookup(b, d)
    ensures a == b
    decreases |a| + |b|
  {
    if a != [] { assert Lookup(a, a[0].denom) == Lookup(b, a[0].denom); }
    if b != [] { assert Lookup(a, b[0].denom) == Lookup(b, b[0].denom); }
    if a != [] && b != [] {
      var x, y := a[0].denom, b[0].denom;
      LessIsTotal(x, y);
      if Less(x, y) { LookupBelow(b, x); }
      if Less(y, x) { LookupBelow(a, y); }
      RestIsAbove(a);
      RestIsAbove(b);
      forall d ensures Lookup(a[1..], d) == Lookup(b[1..], d) {
        assert Lookup(a, d) == Lookup(b, d);
        if d == x { LookupBelow(a[1..], x); LookupBelow(b[1..], x); }
      }
      SameAmounts(a[1..], b[1..]);
      assert a == [a[0]] + a[1..] && b == [b[0]] + b[1..];
    }
  }

  lemma PlusCommutes(a: seq<Coin>, b: seq<Coin>)
    requires Canonical(a) && Canonical(b)
    ensures Merge(a, b) == Merge(b, a)
  {
    PlusKeepsCanonical(a, b);
    PlusKeepsCanonical(b, a);
    forall d ensures Lookup(Merge(a, b), d) == Lookup(Merge(b, a), d) {
      PlusAddsAmounts(a, b, d);
      PlusAddsAmounts(b, a, d);
    }
    SameAmounts(Merge(a, b), Merge(b, a));
  }

  lemma SumsAssociate(a: int64, b: int64, c: int64)
    ensures Wrap(Wrap(a + b) + c) == Wrap(a + Wrap(b + c))
  {
    WrapAdds(a + b, c);
    WrapAdds(b + c, a);
    assert Wrap(b + c) + a == a + Wrap(b + c);
    assert b + c + a == a + b + c;
  }

  lemma AssociatesAt(a: seq<Coin>, b: seq<Coin>, c: seq<Coin>, d: Denom)
    requires Canonical(a) && Canonical(b) && Canonical(c)
    ensures Lookup(Merge(Merge(a, b), c), d) == Lookup(Merge(a, Merge(b, c)), d)
  {
    hide Wrap, Merge, Lookup, Canonical;
    PlusKeepsCanonical(a, b);
    PlusKeepsCanonical(b, c);
    PlusAddsAmounts(a, b, d);
    PlusAddsAmounts(b, c, d);
    PlusAddsAmounts(Merge(a, b), c, d);
    PlusAddsAmounts(a, Merge(b, c), d);
    SumsAssociate(Lookup(a, d), Lookup(b, d), Lookup(c, d));
  }

  lemma PlusAssociates(a: seq<Coin>, b: seq<Coin>, c: seq<Coin>)
    requires Canonical(a) && Canonical(b) && Canonical(c)
    ensures Merge(Merge(a, b), c) == Merge(a, Merge(b, c))
  {
    hide Merge, Lookup, Canonical;
    PlusKeepsCanonical(a, b);
    PlusKeepsCanonical(b, c);
    PlusKeepsCanonical(Merge(a, b), c);
    PlusKeepsCanonical(a, Merge(b, c));
    forall d { AssociatesAt(a, b, c, d); }
    SameAmounts(Merge(Merge(a, b), c), Merge(a, Merge(b, c)));
  }
}
