/** Machine integers and the minimal big-endian form of a number.

    `Bytes(n)` is the shortest big-endian form (zero is the empty string) and `Number` its inverse.
    The methods `PutInt` and `IntSize` are the encoder's fast forms, proved against `Bytes`.
 */
module BigEndian {
  const U64_LIMIT := 0x1_0000_0000_0000_0000

  type byte = b: int | 0 <= b < 0x100
  type u64 = n: int | 0 <= n < U64_LIMIT

  /** The shortest big-endian form of n; zero is the empty string. */
  function Bytes(n: nat): seq<byte>
  {
    if n == 0 then [] else Bytes(n / 0x100) + [n % 0x100]
  }

  /** The number a big-endian byte string stands for, leading zeros included. */
  function Number(bs: seq<byte>): nat
  {
    if bs == [] then 0 else 0x100 * Number(bs[..|bs| - 1]) + bs[|bs| - 1]
  }

  /** 256 to the power k: the number of byte strings of length k. */
  function Span(k: nat): (r: nat)
    ensures r > 0
  {
    if k == 0 then 1 else 0x100 * Span(k - 1)
  }

  predicate NoLeadingZero(bs: seq<byte>)
  {
    bs != [] ==> bs[0] != 0
  }

  lemma {:induction false} NumberOfBytes(n: nat)
    ensures Number(Bytes(n)) == n
    ensures NoLeadingZero(Bytes(n))
  {
    if n != 0 {
      NumberOfBytes(n / 0x100);
      assert Bytes(n)[..|Bytes(n)| - 1] == Bytes(n / 0x100);
    }
  }

  lemma {:induction false} BytesOfNumber(bs: seq<byte>)
    requires NoLeadingZero(bs)
    ensures Bytes(Number(bs)) == bs
    ensures bs != [] ==> Number(bs) > 0
  {
    if bs != [] {
      var front, last := bs[..|bs| - 1], bs[|bs| - 1];
      BytesOfNumber(front);
      assert bs == front + [last];
      assert Number(bs) / 0x100 == Number(front) && Number(bs) % 0x100 == last;
      if front == [] {
        assert Bytes(Number(bs)) == Bytes(0) + [last];
      }
    }
  }

  /** A byte string of length k stands for a number below 256^k. */
  lemma {:induction false} NumberBound(bs: seq<byte>)
    ensures Number(bs) < Span(|bs|)
  {
    if bs != [] {
      NumberBound(bs[..|bs| - 1]);
    }
  }

  /** The shortest form has at most k bytes exactly when the number is below 256^k. */
  lemma {:induction false} BytesLength(n: nat, k: nat)
    ensures |Bytes(n)| <= k <==> n < Span(k)
  {
    if n != 0 && k != 0 {
      BytesLength(n / 0x100, k - 1);
    }
  }

  lemma U64Length(n: nat)
    ensures n < U64_LIMIT <==> |Bytes(n)| <= 8
  {
    BytesLength(n, 8);
    SpanValues();
  }

  lemma {:induction false} LengthMonotone(a: nat, b: nat)
    requires a <= b
    ensures |Bytes(a)| <= |Bytes(b)|
  {
    if a != 0 {
      LengthMonotone(a / 0x100, b / 0x100);
    }
  }

  /** Leading zeros do not change the number: the 8-byte buffer of the decoder holds the same value. */
  lemma {:induction false} NumberPadded(zeros: seq<byte>, bs: seq<byte>)
    requires forall i | 0 <= i < |zeros| :: zeros[i] == 0
    ensures Number(zeros + bs) == Number(bs)
  {
    if bs == [] {
      assert zeros + bs == zeros;
      if zeros != [] {
        NumberPadded(zeros[..|zeros| - 1], []);
        assert zeros[..|zeros| - 1] + [] == zeros[..|zeros| - 1];
      }
    } else {
      NumberPadded(zeros, bs[..|bs| - 1]);
      assert (zeros + bs)[..|zeros + bs| - 1] == zeros + bs[..|bs| - 1];
    }
  }

  function Zeros(n: nat): (r: seq<byte>)
    ensures |r| == n
  {
    seq(n, i => 0)
  }

  /** Up to eight bytes behind zeros, read as a 64-bit integer. */
  lemma EightBytes(bs: seq<byte>)
    requires |bs| <= 8
    ensures Number(Zeros(8 - |bs|) + bs) == Number(bs) < U64_LIMIT
  {
    NumberPadded(Zeros(8 - |bs|), bs);
    NumberBound(Zeros(8 - |bs|) + bs);
    SpanValues();
  }

  /** `byte(i >> 8k)`: the k-th byte of i from the right. */
  function Shifted(i: nat, k: nat): byte
  {
    i / Span(k) % 0x100
  }

  /** The bytes of i from position k down to 0, as the cases of PutInt write them. */
  function Digits(i: nat, k: nat): (r: seq<byte>)
    ensures |r| == k
  {
    if k == 0 then [] else [Shifted(i, k - 1)] + Digits(i, k - 1)
  }

  lemma DivideTwice(i: nat, s: nat)
    requires s > 0
    ensures i / 0x100 / s == i / (0x100 * s)
  {
    var q := i / 0x100;
    var r, m := q / s, q % s;
    assert i == r * (0x100 * s) + (0x100 * m + i % 0x100);
    assert 0 <= 0x100 * m + i % 0x100 < 0x100 * s;
    Quotient(i, 0x100 * s, r, 0x100 * m + i % 0x100);
  }

  lemma Quotient(i: nat, d: nat, r: nat, m: nat)
    requires d > 0 && i == r * d + m && m < d
    ensures i / d == r
  {
    var q := i / d;
    if q > r { Scale(r + 1, q, d); }
    if q < r { Scale(q + 1, r, d); }
  }

  lemma Scale(a: nat, b: nat, d: nat)
    requires a <= b
    ensures a * d <= b * d
  {
  }

  lemma ShiftedStep(i: nat, k: nat)
    requires 1 <= k
    ensures Shifted(i, k) == Shifted(i / 0x100, k - 1)
  {
    DivideTwice(i, Span(k - 1));
  }

  lemma {:induction false} DigitsStep(i: nat, k: nat)
    requires 1 <= k
    ensures Digits(i, k) == Digits(i / 0x100, k - 1) + [i % 0x100]
  {
    if k > 1 {
      DigitsStep(i, k - 1);
      ShiftedStep(i, k - 1);
    }
  }

  /** A field of k bytes holds every number below 256^k, and every content of the field is one. */
  lemma {:induction false} NumberOfDigits(i: nat, k: nat)
    requires i < Span(k)
    ensures Number(Digits(i, k)) == i
  {
    if k > 0 {
      DigitsStep(i, k);
      NumberOfDigits(i / 0x100, k - 1);
      assert Digits(i, k)[..k - 1] == Digits(i / 0x100, k - 1);
    }
  }

  lemma SplitByte(n: nat, b: byte)
    ensures (0x100 * n + b) / 0x100 == n && (0x100 * n + b) % 0x100 == b
  {
  }

  lemma {:induction false} DigitsOfNumber(bs: seq<byte>)
    ensures Digits(Number(bs), |bs|) == bs
  {
    if bs != [] {
      hide Digits;
      var front, last := bs[..|bs| - 1], bs[|bs| - 1];
      DigitsStep(Number(bs), |bs|);
      DigitsOfNumber(front);
      SplitByte(Number(front), last);
      assert bs == front + [last];
    }
  }

  /** The digits up to the most significant non-zero one are the shortest form. */
  lemma {:induction false} DigitsAreBytes(i: nat, k: nat)
    requires 1 <= k
    requires Span(k - 1) <= i < Span(k)
    ensures Digits(i, k) == Bytes(i)
  {
    DigitsStep(i, k);
    if k > 1 {
      DigitsAreBytes(i / 0x100, k - 1);
    } else {
      assert Span(1) == 0x100 * Span(0);
      assert Bytes(i / 0x100) == [];
    }
  }

  /** Writes i at position `at` of b, in the least number of bytes; zero takes one byte. */
  method PutInt(b: array<byte>, at: nat, i: u64) returns (size: nat)
    requires at + (if i == 0 then 1 else |Bytes(i)|) <= b.Length
    modifies b
    ensures size == if i == 0 then 1 else |Bytes(i)|
    ensures at + size <= b.Length
    ensures b[at..at + size] == if i == 0 then [0] else Bytes(i)
    ensures forall j | 0 <= j < b.Length && !(at <= j < at + size) :: b[j] == old(b[j])
  {
    PutIntCases(i);
    size := if i < 0x100 then 1 else if i < 0x1_0000 then 2 else if i < 0x100_0000 then 3
            else if i < 0x1_0000_0000 then 4 else if i < 0x100_0000_0000 then 5
            else if i < 0x1_0000_0000_0000 then 6 else if i < 0x100_0000_0000_0000 then 7 else 8;
    forall j | 0 <= j < size {
      b[at + j] := Shifted(i, size - 1 - j);
    }
    DigitsOut(i, size);
    assert b[at..at + size] == Digits(i, size);
  }

  /** The width thresholds of PutInt are the ones of the shortest form. */
  lemma PutIntCases(i: u64)
    ensures
      (if i == 0 then 1 else |Bytes(i)|) ==
                    if i < 0x100 then 1 else if i < 0x1_0000 then 2 else if i < 0x100_0000 then 3
                    else if i < 0x1_0000_0000 then 4 else if i < 0x100_0000_0000 then 5
                    else if i < 0x1_0000_0000_0000 then 6 else if i < 0x100_0000_0000_0000 then 7 else 8
    ensures i > 0 ==> Digits(i, |Bytes(i)|) == Bytes(i)
    ensures Digits(0, 1) == [0]
  {
    if i > 0 {
      var k := |Bytes(i)|;
      BytesLength(i, k);
      if k > 0 { BytesLength(i, k - 1); }
      U64Length(i);
      SpanValues();
      DigitsAreBytes(i, k);
    }
  }

  lemma SpanValues()
    ensures Span(0) == 1 && Span(1) == 0x100 && Span(2) == 0x1_0000 && Span(3) == 0x100_0000
    ensures Span(4) == 0x1_0000_0000 && Span(5) == 0x100_0000_0000 && Span(6) == 0x1_0000_0000_0000
    ensures Span(7) == 0x100_0000_0000_0000 && Span(8) == U64_LIMIT
  {
    assert Span(2) == 0x100 * Span(1);
    assert Span(4) == 0x100 * Span(3);
    assert Span(6) == 0x100 * Span(5);
    assert Span(8) == 0x100 * Span(7);
  }

  lemma {:induction false} DigitsOut(i: nat, k: nat)
    ensures forall j | 0 <= j < k :: Digits(i, k)[j] == Shifted(i, k - 1 - j)
  {
    if k > 0 { DigitsOut(i, k - 1); }
  }

  /** Counts the bytes needed for i by shifting it away. */
  method IntSize(i: u64) returns (size: nat)
    ensures size == if i == 0 then 1 else |Bytes(i)|
  {
    size := 1;
    var rest: nat := i / 0x100;
    while rest != 0
      invariant i > 0 ==> size + |Bytes(rest)| == |Bytes(i)|
      invariant i == 0 ==> rest == 0 && size == 1
      decreases rest
    {
      size := size + 1;
      rest := rest / 0x100;
    }
  }
}
