/** Signed 64-bit integers and how they wrap. */
module Int64 {
  const INT64_MAX := 0x7FFF_FFFF_FFFF_FFFF
  const INT64_RANGE := 0x1_0000_0000_0000_0000

  type int64 = n: int | -0x8000_0000_0000_0000 <= n <= INT64_MAX

  /** Two's complement: the 64-bit value of an integer. */
  function Wrap(n: int): int64
  {
    (n + 0x8000_0000_0000_0000) % INT64_RANGE - 0x8000_0000_0000_0000
  }

  /** Adding a multiple of 2^64 changes nothing. */
  lemma WrapShift(n: int, k: int)
    ensures Wrap(n + k * INT64_RANGE) == Wrap(n)
  {
    var x := n + 0x8000_0000_0000_0000;
    ShiftedRemainder(x, k);
    assert n + k * INT64_RANGE + 0x8000_0000_0000_0000 == x + k * INT64_RANGE;
  }

  lemma ShiftedRemainder(x: int, k: int)
    ensures (x + k * INT64_RANGE) % INT64_RANGE == x % INT64_RANGE
  {
  }

  lemma WrapFits(n: int64)
    ensures Wrap(n) == n
  {
  }

  /** Wrapping early does not change the sum. */
  lemma WrapAdds(a: int, b: int)
    ensures Wrap(Wrap(a) + b) == Wrap(a + b)
  {
    var q := (a + 0x8000_0000_0000_0000) / INT64_RANGE;
    assert Wrap(a) + b == (a + b) + (-q) * INT64_RANGE;
    WrapShift(a + b, -q);
  }

  /** Two non-negative numbers wrap to the same value exactly when they differ by a multiple of 2^64. */
  lemma WrapAgrees(a: nat, b: nat)
    ensures Wrap(a) == Wrap(b) <==> a % INT64_RANGE == b % INT64_RANGE
  {
    assert a == a % INT64_RANGE + (a / INT64_RANGE) * INT64_RANGE;
    assert b == b % INT64_RANGE + (b / INT64_RANGE) * INT64_RANGE;
    WrapShift(a % INT64_RANGE, a / INT64_RANGE);
    WrapShift(b % INT64_RANGE, b / INT64_RANGE);
  }

  /** Wrapping early does not change the product. */
  lemma WrapScales(a: int, k: int)
    ensures Wrap(Wrap(a) * k) == Wrap(a * k)
  {
    var q := (a + 0x8000_0000_0000_0000) / INT64_RANGE;
    assert Wrap(a) * k == a * k + (-q * k) * INT64_RANGE;
    WrapShift(a * k, -q * k);
  }
}
