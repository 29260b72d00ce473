/** Fixed-point numbers with eight decimals: printing, and parsing with 64-bit arithmetic that wraps.

    Parsing is compared with the decimal value of the text, printing with parsing.
 */
module Fixed8 {
  import opened Int64
  import opened Wrappers

  const DECIMALS := 1_0000_0000

  // ---------------------------------------------------------------- decimal texts

  predicate IsDigit(c: char) { '0' <= c <= '9' }

  predicate AllDigits(s: string) { forall c | c in s :: IsDigit(c) }

  function DigitValue(c: char): nat { if IsDigit(c) then (c - '0') as nat else 0 }

  function Digit(n: nat): char
    requires n < 10
  {
    '0' + n as char
  }

  /** The number a string of digits stands for. */
  function Value(s: string): nat
  {
    if s == "" then 0 else Value(s[..|s| - 1]) * 10 + DigitValue(s[|s| - 1])
  }

  function Pow10(k: nat): (r: nat)
    ensures r > 0
  {
    if k == 0 then 1 else 10 * Pow10(k - 1)
  }

  function Decimal(n: nat): string
  {
    if n < 10 then [Digit(n)] else Decimal(n / 10) + [Digit(n % 10)]
  }

  function Zeros(k: nat): string { seq(k, i => '0') }

  lemma {:induction false} ValueConcat(s: string, t: string)
    ensures Value(s + t) == Value(s) * Pow10(|t|) + Value(t)
  {
    if t == "" {
      assert s + t == s;
    } else {
      var front := t[..|t| - 1];
      ValueConcat(s, front);
      assert (s + t)[..|s + t| - 1] == s + front;
      assert Value(s) * Pow10(|t|) == Value(s) * Pow10(|front|) * 10;
    }
  }

  lemma {:induction false} ValueOfZeros(k: nat)
    ensures Value(Zeros(k)) == 0
  {
    if k > 0 {
      ValueOfZeros(k - 1);
      assert Zeros(k)[..k - 1] == Zeros(k - 1);
    }
  }

  lemma {:induction false} ValueBound(s: string)
    ensures Value(s) < Pow10(|s|)
  {
    if s != "" { ValueBound(s[..|s| - 1]); }
  }

  lemma {:induction false} Pow10Monotone(j: nat, k: nat)
    requires j <= k
    ensures Pow10(j) <= Pow10(k)
  {
    if j < k { Pow10Monotone(j, k - 1); }
  }

  lemma EightDecimals()
    ensures Pow10(8) == DECIMALS
  {
    assert Pow10(4) == 10000;
  }

  /** Reading back what was written. */
  lemma {:induction false} ValueOfDecimal(n: nat)
    ensures Value(Decimal(n)) == n && AllDigits(Decimal(n)) && Decimal(n) != ""
  {
    var s := Decimal(n);
    if n >= 10 {
      ValueOfDecimal(n / 10);
      assert s[..|s| - 1] == Decimal(n / 10);
    } else {
      assert s[..0] == "";
    }
  }

  /** A number below 10^k has at most k digits. */
  lemma {:induction false} DecimalLength(n: nat, k: nat)
    requires n < Pow10(k) && k > 0
    ensures |Decimal(n)| <= k
  {
    if n >= 10 {
      assert Pow10(k) == 10 * Pow10(k - 1) && Pow10(0) == 1;
      DecimalLength(n / 10, k - 1);
    }
  }

  // ---------------------------------------------------------------- library calls

  /** The text before the first dot, and the text behind it if there is one. */
  function Cut(s: string): (string, Option<string>)
  {
    if s == "" then ("", None)
    else if s[0] == '.' then ("", Some(s[1..]))
    else var (head, tail) := Cut(s[1..]); ([s[0]] + head, tail)
  }

  predicate IsSign(c: char) { c == '-' || c == '+' }

  /** A text without its sign. */
  function Body(s: string): string { if s != "" && IsSign(s[0]) then s[1..] else s }

  /** A string of digits behind an optional sign. */
  predicate IsInteger(s: string) { Body(s) != "" && AllDigits(Body(s)) }

  function SignedValue(s: string): int
  {
    var size: int := Value(Body(s));
    if s != "" && s[0] == '-' then -size else size
  }

  /** A decimal integer with an optional sign, if it fits. */
  function Atoi(s: string): Option<int64>
  {
    var n := SignedValue(s);
    if IsInteger(s) && -0x8000_0000_0000_0000 <= n <= INT64_MAX then Some(n) else None
  }

  function FormatInt(n: int): string { if n < 0 then "-" + Decimal(-n) else Decimal(n) }

  // ---------------------------------------------------------------- parsing

  /** What parsing gives, with all arithmetic modulo 2^64. */
  function Decoded(s: string): Option<int64>
  {
    var (head, tail) := Cut(s);
    var whole := Atoi(head);
    if whole.None? then None
    else if tail.None? then Some(Wrap(DECIMALS * whole.value))
    else
      var part := Atoi(tail.value);
      if part.None? || part.value >= DECIMALS then None
      else Some(Wrap(DECIMALS * whole.value + part.value * Pow10(Missing(tail.value))))
  }

  /** How many of the eight decimals are not written. */
  function Missing(decimals: string): nat { if |decimals| < 8 then 8 - |decimals| else 0 }

  method Decode(s: string) returns (r: Option<int64>)
    ensures r == Decoded(s)
  {
    hide Cut, Atoi, Wrap, Pow10;
    var (head, tail) := Cut(s);
    var whole := Atoi(head);
    if whole.None? { return None; }
    if tail.None? { return Some(Wrap(DECIMALS * whole.value)); }
    var part := Atoi(tail.value);
    if part.None? || part.value >= DECIMALS { return None; }
    var fraction := ScaleUp(part.value, tail.value);
    r := Some(Wrap(Wrap(DECIMALS * whole.value) + fraction));
    WrapAdds(DECIMALS * whole.value, fraction);
    WrapAdds(part.value * Pow10(Missing(tail.value)), DECIMALS * whole.value);
  }

  /** Multiplies by ten for every decimal that is not written. */
  method ScaleUp(part: int64, decimals: string) returns (fraction: int64)
    ensures fraction == Wrap(part * Pow10(Missing(decimals)))
  {
    hide Wrap;
    fraction := part;
    WrapFits(part);
    var i := |decimals|;
    while i < 8
      invariant |decimals| <= i <= |decimals| + Missing(decimals)
      invariant fraction == Wrap(part * Pow10(i - |decimals|))
    {
      var k := i - |decimals|;
      WrapScales(part * Pow10(k), 10);
      assert part * Pow10(k) * 10 == part * Pow10(k + 1);
      fraction := Wrap(fraction * 10);
      i := i + 1;
    }
  }

  /** The documented pattern: digits, and optionally a dot and one to eight digits. */
  predicate Matches(s: string)
  {
    var (head, tail) := Cut(s);
    head != "" && AllDigits(head) && (tail.Some? ==> 1 <= |tail.value| <= 8 && AllDigits(tail.value))
  }

  /** The number with the dot moved eight places to the right. */
  function Exact(s: string): nat
  {
    var (head, tail) := Cut(s);
    var decimals := if tail.Some? then tail.value else "";
    Value(head + decimals + Zeros(Missing(decimals)))
  }

  lemma AtoiOfDigits(s: string)
    requires s != "" && AllDigits(s)
    ensures Atoi(s) == if Value(s) <= INT64_MAX then Some(Value(s)) else None
  {
    assert s[0] in s && IsDigit(s[0]);
  }

  lemma ExactParts(s: string)
    requires Matches(s)
    ensures var (head, tail) := Cut(s);
            && Exact(s) == DECIMALS * Value(head) +
                           (if tail.Some? then Value(tail.value) * Pow10(Missing(tail.value)) else 0)
            && (tail.Some? ==> Value(tail.value) < DECIMALS)
  {
    hide Value, Pow10;
    var (head, tail) := Cut(s);
    var decimals := if tail.Some? then tail.value else "";
    var zeros := Zeros(Missing(decimals));
    ValueConcat(head + decimals, zeros);
    ValueConcat(head, decimals);
    ValueOfZeros(|zeros|);
    ValueBound(decimals);
    EightDecimals();
    Pow10Monotone(|decimals|, 8);
    Pow10Splits(|decimals|, |zeros|);
    Distribute(Value(head), Pow10(|decimals|), Value(decimals), Pow10(|zeros|));
    if tail.None? { ValueOfZeros(0); assert Zeros(0) == ""; }
  }

  lemma Distribute(a: int, p: int, b: int, q: int)
    ensures (a * p + b) * q == a * (p * q) + b * q
  {
  }

  lemma {:induction false} Pow10Splits(j: nat, k: nat)
    ensures Pow10(j + k) == Pow10(j) * Pow10(k)
  {
    if k > 0 { Pow10Splits(j, k - 1); }
  }

  /** A text of the documented pattern is refused when its whole part does not fit in 63 bits, and otherwise read
      modulo 2^64. */
  lemma DecodedOfPattern(s: string)
    requires Matches(s)
    ensures Decoded(s) == if Value(Cut(s).0) > INT64_MAX then None else Some(Wrap(Exact(s)))
  {
    hide Value, Pow10, Wrap, Exact, Atoi, Missing;
    ExactParts(s);
    AtoiOfDigits(Cut(s).0);
    if Cut(s).1.Some? { AtoiOfDigits(Cut(s).1.value); }
  }

  lemma WholeIsSmaller(s: string)
    requires Matches(s)
    ensures Value(Cut(s).0) <= Exact(s)
  {
    hide Exact, Cut, Value, Pow10;
    ExactParts(s);
  }

  /** It is read exactly if and only if the number fits in 64 bits. */
  lemma ExactIffFits(s: string)
    requires Matches(s)
    ensures Decoded(s).Some? && Decoded(s).value == Exact(s) <==> Exact(s) <= INT64_MAX
  {
    hide Decoded, Exact, Cut, Value, Pow10, Wrap, Matches;
    DecodedOfPattern(s);
    ExactParts(s);
    WholeIsSmaller(s);
    if Exact(s) <= INT64_MAX { WrapFits(Exact(s)); }
  }

  // ---------------------------------------------------------------- what is accepted

  /** A text is accepted if and only if both its parts are integers with optional signs, the whole part fits in 64
      bits, and the decimals, read as an integer, fit and are below 10^8. It is read as the sum of its parts, the
      decimals with their own sign and a sign counted as a decimal. */
  lemma AcceptedIff(s: string)
    ensures var (head, tail) := Cut(s);
            && (Decoded(s).Some? <==>
              && IsInteger(head) && -0x8000_0000_0000_0000 <= SignedValue(head) <= INT64_MAX
              && (tail.Some? ==> IsInteger(tail.value) && -0x8000_0000_0000_0000 <= SignedValue(tail.value) < DECIMALS))
            && (Decoded(s).Some? ==> Decoded(s).value == Wrap(DECIMALS * SignedValue(head) +
              if tail.Some? then SignedValue(tail.value) * Pow10(Missing(tail.value)) else 0))
  {
    hide Pow10, Wrap, IsInteger, SignedValue;
  }

  predicate HasSign(s: string) { exists c | c in s :: IsSign(c) }

  /** How many characters stand behind the dot. */
  function Decimals(s: string): nat { if Cut(s).1.Some? then |Cut(s).1.value| else 0 }

  /** An accepted text is of the documented pattern if and only if it has no sign and at most eight decimals. */
  lemma AcceptedMatchesIff(s: string)
    requires Decoded(s).Some?
    ensures Matches(s) <==> !HasSign(s) && Decimals(s) <= 8
  {
    hide Value, Pow10, Wrap, Missing;
    CutParts(s);
    var (head, tail) := Cut(s);
    if !HasSign(s) {
      UnsignedAtoi(head);
      if tail.Some? { UnsignedAtoi(tail.value); }
    }
    if Matches(s) {
      forall c | c in s ensures !IsSign(c) { assert c in head || c == '.' || c in tail.value; }
    }
  }

  /** Apart from signs and from decimals beyond the eighth, the documented pattern is accepted and nothing else. */
  lemma AcceptedIffPattern(s: string)
    ensures Decoded(s).Some? && !HasSign(s) && Decimals(s) <= 8 <==> Matches(s) && Value(Cut(s).0) <= INT64_MAX
  {
    hide Value, Pow10, Wrap, Missing, Decoded, HasSign, Decimals;
    if Matches(s) { DecodedOfPattern(s); }
    if Decoded(s).Some? { AcceptedMatchesIff(s); }
  }

  lemma UnsignedAtoi(s: string)
    requires (forall c | c in s :: !IsSign(c)) && Atoi(s).Some?
    ensures s != "" && AllDigits(s) && Value(s) <= INT64_MAX
  {
  }

  /** The parts hold the characters of the text, except for the first dot. */
  lemma {:induction false} CutParts(s: string)
    ensures var (head, tail) := Cut(s);
            && (forall c | c in head :: c in s) && (tail.Some? ==> forall c | c in tail.value :: c in s)
            && (forall c | c in s :: c in head || (tail.Some? && (c == '.' || c in tail.value)))
  {
    if s != "" && s[0] != '.' { CutParts(s[1..]); }
  }

  /** A plus sign changes nothing. */
  lemma PlusIsIgnored(digits: string)
    requires AllDigits(digits)
    ensures Atoi("+" + digits) == Atoi(digits)
  {
    hide Value;
    assert ("+" + digits)[1..] == digits;
    if digits != "" { assert digits[0] in digits && IsDigit(digits[0]); }
    assert Body("+" + digits) == digits && Body(digits) == digits;
  }

  /** A minus sign behind the dot is accepted wherever the digits fit: the decimals are then taken off. */
  lemma NegativeDecimalsAreAccepted(whole: string, digits: string)
    requires whole != "" && AllDigits(whole) && Value(whole) <= INT64_MAX
    requires digits != "" && AllDigits(digits) && Value(digits) <= INT64_MAX
    ensures var s := whole + "." + ("-" + digits);
            && !Matches(s)
            && Decoded(s) == Some(Wrap(DECIMALS * Value(whole) - Value(digits) * Pow10(Missing("-" + digits))))
  {
    hide Value, Cut, Atoi, Pow10, Wrap;
    var tail := "-" + digits;
    assert !IsDigit('.');
    CutDot(whole, tail);
    AtoiOfDigits(whole);
    AtoiOfSigned("-", digits);
    assert '-' in tail && !IsDigit('-');
    Negated(Value(digits), Pow10(Missing(tail)));
  }

  lemma Negated(n: nat, p: nat)
    ensures (-(n as int)) * p == -(n * p)
  {
  }

  lemma LeadingZeros(zeros: nat, digits: string)
    ensures Value(Zeros(zeros) + digits) == Value(digits)
  {
    hide Value, Pow10, Zeros;
    ValueConcat(Zeros(zeros), digits);
    ValueOfZeros(zeros);
  }

  lemma ZerosAreDigits(k: nat)
    ensures |Zeros(k)| == k && AllDigits(Zeros(k))
  {
  }

  /** So are more than eight decimals, as long as they begin with zeros enough: they are read as if the last one were
      the eighth. */
  lemma LongDecimalsAreAccepted(whole: string, zeros: nat, digits: string)
    requires whole != "" && AllDigits(whole) && Value(whole) <= INT64_MAX
    requires digits != "" && AllDigits(digits) && Value(digits) < DECIMALS && zeros + |digits| > 8
    ensures var s := whole + "." + (Zeros(zeros) + digits);
            !Matches(s) && Decoded(s) == Some(Wrap(DECIMALS * Value(whole) + Value(digits)))
  {
    hide Value, Cut, Atoi, Pow10, Wrap, Decoded;
    ZerosAreDigits(zeros);
    hide Zeros;
    var tail := Zeros(zeros) + digits;
    assert !IsDigit('.');
    CutDot(whole, tail);
    AtoiOfDigits(whole);
    LeadingZeros(zeros, digits);
    AtoiOfDigits(tail);
    DecodedOfParts(whole, tail);
    PowZero();
    assert Value(digits) * 1 == Value(digits);
  }

  lemma DecodedOfParts(head: string, tail: string)
    requires '.' !in head && Atoi(head).Some? && Atoi(tail).Some? && Atoi(tail).value < DECIMALS
    ensures Decoded(head + "." + tail) ==
            Some(Wrap(DECIMALS * Atoi(head).value + Atoi(tail).value * Pow10(Missing(tail))))
  {
    hide Cut, Atoi, Pow10, Wrap;
    CutDot(head, tail);
  }

  /** A text without dots, a dot, and any text. */
  lemma {:induction false} CutDot(head: string, tail: string)
    requires '.' !in head
    ensures Cut(head + "." + tail) == (head, Some(tail))
  {
    var s := head + "." + tail;
    if head == "" {
      assert s[1..] == tail;
    } else {
      CutDot(head[1..], tail);
      assert head[0] in head && s[0] == head[0];
      assert s[1..] == head[1..] + "." + tail && [head[0]] + head[1..] == head;
    }
  }

  // ---------------------------------------------------------------- printing

  /** Division and remainder round towards zero. */
  function Quotient(n: int): int { if n >= 0 then n / DECIMALS else -(-n / DECIMALS) }

  function Remainder(n: int): int { n - DECIMALS * Quotient(n) }

  /** Padded with zeros to eight characters. */
  function Padded(s: string): string { if |s| < 8 then Zeros(8 - |s|) + s else s }

  method Print(f: int64) returns (text: string)
    ensures text == Printed(f)
  {
    hide FormatInt, Wrap, Padded;
    text := "";
    var val: int := f;
    if val < 0 {
      text := text + "-";
      val := Wrap(-val);
    }
    text := text + FormatInt(Quotient(val));
    val := Remainder(val);
    text := text + ".";
    text := PadTo(text, FormatInt(val));
  }

  /** Writes zeros and then the digits, eight characters in all. */
  method PadTo(before: string, digits: string) returns (text: string)
    ensures text == before + Padded(digits)
  {
    hide Zeros, Padded;
    text := before;
    ghost var zeros := "";
    var i := |digits|;
    PaddedBy(digits);
    while i < 8
      invariant |digits| <= i <= |digits| + Missing(digits)
      invariant text == before + zeros && zeros == Zeros(i - |digits|)
    {
      ZerosMore(i - |digits|);
      text := text + "0";
      zeros := zeros + "0";
      i := i + 1;
    }
    assert before + zeros + digits == before + (zeros + digits);
    text := text + digits;
  }

  lemma PaddedBy(digits: string)
    ensures Zeros(0) == "" && Padded(digits) == Zeros(Missing(digits)) + digits
  {
  }

  lemma ZerosMore(k: nat)
    ensures Zeros(k + 1) == Zeros(k) + "0"
  {
  }

  /** The text of a number. The most negative one has no absolute value and keeps its sign in both parts. */
  function Printed(f: int64): string
  {
    var n: int := f;
    var size: int := if n < 0 then Wrap(-n) else n;
    (if n < 0 then "-" else "") + FormatInt(Quotient(size)) + "." + Padded(FormatInt(Remainder(size)))
  }

  /** Eight digits for every fraction. */
  lemma PaddedFraction(n: nat)
    requires n < DECIMALS
    ensures var s := Padded(Decimal(n)); |s| == 8 && AllDigits(s) && Value(s) == n
  {
    hide Value, Decimal, Pow10;
    var s := Decimal(n);
    EightDecimals();
    ValueOfDecimal(n);
    DecimalLength(n, 8);
    ValueConcat(Zeros(8 - |s|), s);
    ValueOfZeros(8 - |s|);
    assert Zeros(0) + s == s;
  }

  /** The printed form of the size of a number: whole part, dot, eight decimals. */
  function PrintedSize(size: nat): string { Decimal(size / DECIMALS) + "." + Padded(Decimal(size % DECIMALS)) }

  lemma PrintedBySize(f: int64)
    requires f > -0x8000_0000_0000_0000
    ensures Printed(f) == if f < 0 then "-" + PrintedSize(-(f as int)) else PrintedSize(f)
  {
    hide Decimal, Padded, Wrap;
    var n: int := f;
    if n < 0 {
      WrapFits(-n);
      assert "" + Printed(f) == Printed(f);
    }
  }

  /** What the two parts of a printed number are read as. */
  lemma PartsOfPrinted(sign: string, size: nat)
    requires sign == "" || sign == "-"
    requires size <= INT64_MAX
    ensures var (head, tail) := Cut(sign + PrintedSize(size));
            && tail.Some? && |tail.value| == 8 && Atoi(tail.value) == Some(size % DECIMALS)
            && var whole: int := size / DECIMALS;
               && head == sign + Decimal(size / DECIMALS) && Value(Decimal(size / DECIMALS)) == size / DECIMALS
               && Atoi(head) == Some(if sign == "-" then -whole else whole)
  {
    hide Value, Decimal, Padded;
    var head, tail := sign + Decimal(size / DECIMALS), Padded(Decimal(size % DECIMALS));
    ValueOfDecimal(size / DECIMALS);
    PaddedFraction(size % DECIMALS);
    assert sign + PrintedSize(size) == head + "." + tail;
    assert !IsDigit('.');
    CutDot(head, tail);
    AtoiOfDigits(tail);
    AtoiOfSigned(sign, Decimal(size / DECIMALS));
  }

  lemma AtoiOfSigned(sign: string, digits: string)
    requires (sign == "" || sign == "-") && digits != "" && AllDigits(digits) && Value(digits) <= INT64_MAX
    ensures var size: int := Value(digits);
            Atoi(sign + digits) == Some(if sign == "-" then -size else size)
  {
    hide Value;
    assert digits[0] in digits && IsDigit(digits[0]);
    if sign == "" {
      assert sign + digits == digits;
    } else {
      assert (sign + digits)[1..] == digits;
    }
    assert Body(sign + digits) == digits;
  }

  /** A number that is not negative is printed in the documented pattern, with its own value. */
  lemma PrintedMatches(f: int64)
    requires f >= 0
    ensures Matches(Printed(f)) && Exact(Printed(f)) == f
  {
    hide Value, Decimal, Padded, Pow10;
    PrintedBySize(f);
    PartsOfPrinted("", f);
    assert "" + PrintedSize(f) == PrintedSize(f) && "" + Decimal(f / DECIMALS) == Decimal(f / DECIMALS);
    ValueOfDecimal(f / DECIMALS);
    PaddedFraction(f % DECIMALS);
    CutDot(Decimal(f / DECIMALS), Padded(Decimal(f % DECIMALS)));
    ExactParts(Printed(f));
    assert Pow10(0) == 1 by { PowZero(); }
  }

  lemma PowZero()
    ensures Pow10(0) == 1
  {
  }

  /** The most negative number keeps a sign in both parts, each rounded towards zero: --92233720368.-54775808. */
  lemma MinimumIsPrinted()
    ensures Printed(-0x8000_0000_0000_0000) == "--" + Decimal(92233720368) + ".-" + Decimal(54775808)
  {
    hide Decimal;
    var size: int := Wrap(0x8000_0000_0000_0000);
    var fraction := FormatInt(Remainder(size));
    assert fraction == "-" + Decimal(54775808);
    assert Padded(fraction) == fraction by { LongFraction(); }
    assert FormatInt(Quotient(size)) == "-" + Decimal(92233720368);
  }

  lemma LongFraction()
    ensures |Decimal(54775808)| == 8
  {
    assert |Decimal(547)| == 3;
    assert |Decimal(547758)| == 6;
  }

  /** The most negative number prints two signs, which cannot be read back. */
  lemma MinimumIsUnreadable()
    ensures Decoded(Printed(-0x8000_0000_0000_0000)) == None
  {
    hide Value, Decimal;
    var size: int := Wrap(0x8000_0000_0000_0000);
    assert size == -0x8000_0000_0000_0000;
    var whole := "-" + FormatInt(Quotient(size));
    var digits := Decimal(-Quotient(size));
    ValueOfDecimal(-Quotient(size));
    assert !IsDigit('.') && whole == "-" + "-" + digits;
    CutDot(whole, Padded(FormatInt(Remainder(size))));
    assert whole[1..][0] == '-' && whole[1..][0] in whole[1..];
    assert Atoi(whole) == None;
  }

  /** Reading back a printed number gives it again exactly when it is not negative or has no decimals. */
  lemma RoundTrip(f: int64)
    ensures Decoded(Printed(f)) == Some(f) <==> f >= 0 || f % DECIMALS == 0
  {
    hide Cut, Atoi, Value, Decimal, Padded, Pow10, PrintedSize, Printed;
    if f == -0x8000_0000_0000_0000 {
      MinimumIsUnreadable();
    } else {
      var n: int := f;
      var sign, size := if n < 0 then "-" else "", if n < 0 then -n else n;
      PrintedBySize(f);
      assert "" + PrintedSize(size) == PrintedSize(size);
      PartsOfPrinted(sign, size);
      PowZero();
      RoundTripSize(n, size);
    }
  }

  lemma RoundTripSize(n: int64, size: nat)
    requires size <= INT64_MAX && n == (if n < 0 then -(size as int) else size)
    ensures var whole: int := size / DECIMALS;
            Wrap(DECIMALS * (if n < 0 then -whole else whole) + size % DECIMALS) == n <==> n >= 0 || n % DECIMALS == 0
  {
    var whole: int := size / DECIMALS;
    WrapFits(DECIMALS * (if n < 0 then -whole else whole) + size % DECIMALS);
  }
}
