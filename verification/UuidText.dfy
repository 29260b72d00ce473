/** The text forms of a UUID: printing, and parsing of the five spellings that are accepted.

    Texts are sequences of characters, one per byte.
 */
module UuidText {
  import opened BigEndian
  import opened Uuid
  import opened Wrappers

  // ---------------------------------------------------------------- hexadecimal digits

  type nibble = n: int | 0 <= n < 16

  function HexDigit(n: nibble): char
  {
    if n < 10 then '0' + n as char else 'a' + (n - 10) as char
  }

  function HexValue(c: char): Option<nibble>
  {
    if '0' <= c <= '9' then Some((c - '0') as int)
    else if 'a' <= c <= 'f' then Some((c - 'a') as int + 10)
    else if 'A' <= c <= 'F' then Some((c - 'A') as int + 10)
    else None
  }

  function Pair(high: nibble, low: nibble): byte
  {
    var n: int := high;
    n * 16 + low
  }

  /** Hexadecimal digits in lower case; other characters stay. */
  function LowerChar(c: char): char { if 'A' <= c <= 'F' then c - 'A' + 'a' else c }

  function Lower(s: string): (r: string)
    ensures |r| == |s| && forall i | 0 <= i < |s| :: r[i] == LowerChar(s[i])
  {
    seq(|s|, i requires 0 <= i < |s| => LowerChar(s[i]))
  }

  /** Two digits per byte, in lower case. */
  function Hex(bs: seq<byte>): (s: string)
    ensures |s| == 2 * |bs|
  {
    if bs == [] then "" else [HexDigit(bs[0] / 16), HexDigit(bs[0] % 16)] + Hex(bs[1..])
  }

  /** The bytes that pairs of digits stand for. */
  function Unhex(s: string): (r: Option<seq<byte>>)
    requires |s| % 2 == 0
    ensures r.Some? ==> 2 * |r.value| == |s|
  {
    if s == "" then Some([])
    else
      var a, b, rest := HexValue(s[0]), HexValue(s[1]), Unhex(s[2..]);
      if a.Some? && b.Some? && rest.Some? then Some([Pair(a.value, b.value)] + rest.value) else None
  }

  lemma DigitOfValue(c: char, n: nibble)
    ensures HexValue(c) == Some(n) <==> LowerChar(c) == HexDigit(n)
  {
  }

  /** Parsing gives the bytes exactly when the text is their digits, in either case. */
  lemma {:induction false} UnhexIffHex(s: string, bs: seq<byte>)
    requires |s| == 2 * |bs|
    ensures Unhex(s) == Some(bs) <==> Lower(s) == Hex(bs)
  {
    if bs == [] {
      UnhexEmpty();
    } else {
      hide HexValue, HexDigit, LowerChar, Pair, Unhex, Hex, Lower;
      UnhexIffHex(s[2..], bs[1..]);
      PairIffHex(s[0], s[1], bs[0]);
      UnhexStep(s, bs);
      HexStep(s, bs);
    }
  }

  /** Two characters are the digits of a byte. */
  predicate IsPair(a: char, b: char, n: byte)
  {
    HexValue(a).Some? && HexValue(b).Some? && Pair(HexValue(a).value, HexValue(b).value) == n
  }

  lemma UnhexStep(s: string, bs: seq<byte>)
    requires |s| == 2 * |bs| && bs != [] && |s[2..]| % 2 == 0
    ensures Unhex(s) == Some(bs) <==> IsPair(s[0], s[1], bs[0]) && Unhex(s[2..]) == Some(bs[1..])
  {
    hide HexValue, Pair;
    assert bs == [bs[0]] + bs[1..];
  }

  lemma HexStep(s: string, bs: seq<byte>)
    requires |s| == 2 * |bs| && bs != []
    ensures Lower(s) == Hex(bs) <==>
            && LowerChar(s[0]) == HexDigit(bs[0] / 16) && LowerChar(s[1]) == HexDigit(bs[0] % 16)
            && Lower(s[2..]) == Hex(bs[1..])
  {
    hide HexDigit, LowerChar, Hex, Lower;
    LowerStep(s);
    HexUnfold(bs);
    TwoAndRest(Lower(s), Hex(bs));
  }

  lemma TwoAndRest(l: string, h: string)
    requires |l| == |h| >= 2
    ensures l == h <==> l[0] == h[0] && l[1] == h[1] && l[2..] == h[2..]
  {
    if l[0] == h[0] && l[1] == h[1] && l[2..] == h[2..] {
      assert l == [l[0], l[1]] + l[2..] && h == [h[0], h[1]] + h[2..];
    }
  }

  lemma LowerStep(s: string)
    requires |s| >= 2
    ensures Lower(s)[0] == LowerChar(s[0]) && Lower(s)[1] == LowerChar(s[1]) && Lower(s)[2..] == Lower(s[2..])
  {
  }

  lemma HexUnfold(bs: seq<byte>)
    requires bs != []
    ensures Hex(bs)[0] == HexDigit(bs[0] / 16) && Hex(bs)[1] == HexDigit(bs[0] % 16) && Hex(bs)[2..] == Hex(bs[1..])
  {
  }

  lemma PairIffHex(a: char, b: char, n: byte)
    ensures IsPair(a, b, n) <==>
            LowerChar(a) == HexDigit(n / 16) && LowerChar(b) == HexDigit(n % 16)
  {
    hide HexValue, HexDigit, LowerChar;
    DigitOfValue(a, n / 16);
    DigitOfValue(b, n % 16);
  }

  lemma {:induction false} UnhexConcat(s: string, t: string)
    requires |s| % 2 == 0 && |t| % 2 == 0
    ensures Unhex(s + t) == if Unhex(s).Some? && Unhex(t).Some? then Some(Unhex(s).value + Unhex(t).value) else None
  {
    hide HexValue;
    UnhexEmpty();
    if s == "" {
      assert s + t == t;
      if Unhex(t).Some? { assert [] + Unhex(t).value == Unhex(t).value; }
    } else {
      UnhexConcat(s[2..], t);
      assert (s + t)[2..] == s[2..] + t && (s + t)[0] == s[0] && (s + t)[1] == s[1];
      if Unhex(s).Some? && Unhex(t).Some? {
        var x, rest, more := Pair(HexValue(s[0]).value, HexValue(s[1]).value), Unhex(s[2..]).value, Unhex(t).value;
        assert [x] + rest + more == [x] + (rest + more);
      }
    }
  }

  // ---------------------------------------------------------------- printing

  /** Thirty-two digits with dashes between the groups. */
  function Dashed(h: string): (t: string)
    requires |h| == 32
    ensures |t| == 36
  {
    h[..8] + "-" + h[8..12] + "-" + h[12..16] + "-" + h[16..20] + "-" + h[20..]
  }

  /** The digits of a text with dashes. */
  function Undashed(t: string): (h: string)
    requires |t| == 36
    ensures |h| == 32
  {
    t[..8] + t[9..13] + t[14..18] + t[19..23] + t[24..]
  }

  predicate HasDashes(t: string)
    requires |t| == 36
  {
    t[8] == '-' && t[13] == '-' && t[18] == '-' && t[23] == '-'
  }

  /** A text with dashes in the right places is exactly the dashed form of its digits. */
  lemma DashedIffUndashed(t: string, h: string)
    requires |t| == 36 && |h| == 32
    ensures t == Dashed(h) <==> HasDashes(t) && Undashed(t) == h
  {
    if t == Dashed(h) {
      assert t[..8] == h[..8] && t[9..13] == h[8..12] && t[14..18] == h[12..16];
      assert t[19..23] == h[16..20] && t[24..] == h[20..];
    }
    if HasDashes(t) && Undashed(t) == h {
      assert h[..8] == t[..8] && h[8..12] == t[9..13] && h[12..16] == t[14..18];
      assert h[16..20] == t[19..23] && h[20..] == t[24..];
      assert t == t[..8] + [t[8]] + t[9..13] + [t[13]] + t[14..18] + [t[18]] + t[19..23] + [t[23]] + t[24..];
    }
  }

  lemma LowerDashes(t: string)
    requires |t| == 36
    ensures HasDashes(Lower(t)) <==> HasDashes(t)
    ensures Undashed(Lower(t)) == Lower(Undashed(t))
  {
  }

  /** The canonical form. */
  function Canonical(u: UUID): string { Dashed(Hex(u)) }

  method String(u: UUID) returns (text: string)
    ensures text == Canonical(u)
  {
    hide Hex, Canonical, Dashed;
    var buf := new char[36](i => ' ');
    HexEncode(buf, 0, u[..4]);
    Put(buf, 8, '-');
    HexEncode(buf, 9, u[4..6]);
    Put(buf, 13, '-');
    HexEncode(buf, 14, u[6..8]);
    Put(buf, 18, '-');
    HexEncode(buf, 19, u[8..10]);
    Put(buf, 23, '-');
    HexEncode(buf, 24, u[10..]);
    text := buf[..];
    assert text == buf[..36];
    HexGroups(u);
  }

  method Put(buf: array<char>, at: nat, c: char)
    requires at < buf.Length
    modifies buf
    ensures buf[..at + 1] == old(buf[..at]) + [c]
  {
    buf[at] := c;
  }

  /** Writes the digits of bytes behind what has been written. */
  method HexEncode(buf: array<char>, at: nat, bs: seq<byte>)
    requires at + 2 * |bs| <= buf.Length
    modifies buf
    ensures buf[..at + 2 * |bs|] == old(buf[..at]) + Hex(bs)
  {
    for k := 0 to |bs|
      invariant buf[..at + 2 * k] == old(buf[..at]) + Hex(bs[..k])
    {
      buf[at + 2 * k] := HexDigit(bs[k] / 16);
      buf[at + 2 * k + 1] := HexDigit(bs[k] % 16);
      HexMore(bs[..k], bs[k]);
      assert bs[..k + 1] == bs[..k] + [bs[k]];
      assert buf[..at + 2 * k + 2] == buf[..at + 2 * k] + [HexDigit(bs[k] / 16), HexDigit(bs[k] % 16)];
    }
    assert bs[..|bs|] == bs;
  }

  lemma {:induction false} HexConcat(a: seq<byte>, b: seq<byte>)
    ensures Hex(a + b) == Hex(a) + Hex(b)
  {
    if a == [] {
      assert a + b == b;
    } else {
      hide HexDigit;
      HexConcat(a[1..], b);
      assert (a + b)[1..] == a[1..] + b;
    }
  }

  lemma HexMore(bs: seq<byte>, b: byte)
    ensures Hex(bs + [b]) == Hex(bs) + [HexDigit(b / 16), HexDigit(b % 16)]
  {
    HexConcat(bs, [b]);
  }

  lemma HexGroups(u: UUID)
    ensures Canonical(u) ==
            Hex(u[..4]) + "-" + Hex(u[4..6]) + "-" + Hex(u[6..8]) + "-" + Hex(u[8..10]) + "-" + Hex(u[10..])
  {
    hide Hex;
    HexConcat(u[..4], u[4..6]);
    HexConcat(u[..6], u[6..8]);
    HexConcat(u[..8], u[8..10]);
    HexConcat(u[..10], u[10..]);
    assert u[..6] == u[..4] + u[4..6] && u[..8] == u[..6] + u[6..8] && u[..10] == u[..8] + u[8..10];
    assert u == u[..10] + u[10..];
  }

  // ---------------------------------------------------------------- parsing

  /** What a text without decoration stands for. */
  function Plain(t: string): (r: Option<UUID>)
  {
    if |t| == 32 then Unhex(t)
    else if |t| == 36 && HasDashes(t) then Unhex(Undashed(t))
    else None
  }

  const URN_PREFIX := "urn:uuid:"

  /** What a text stands for. */
  function Parsed(t: string): Option<UUID>
  {
    if |t| == 32 || |t| == 36 then Plain(t)
    else if |t| == 38 then (if t[0] == '{' && t[37] == '}' then Plain(t[1..37]) else None)
    else if |t| == 41 || |t| == 45 then (if t[..9] == URN_PREFIX then Plain(t[9..]) else None)
    else None
  }

  /** The spelling of a UUID without decoration: digits of either case, with or without dashes. */
  predicate SpellsPlain(t: string, u: UUID) { Lower(t) == Hex(u) || Lower(t) == Canonical(u) }

  /** The intended grammar, as the documented examples show it: plain, in braces, or behind the URN prefix. */
  predicate Spells(t: string, u: UUID)
  {
    || SpellsPlain(t, u)
    || (|t| >= 2 && t[0] == '{' && t[|t| - 1] == '}' && SpellsPlain(t[1..|t| - 1], u))
    || (URN_PREFIX <= t && SpellsPlain(t[9..], u))
  }

  lemma PlainIffSpelled(t: string, u: UUID)
    ensures Plain(t) == Some(u) <==> SpellsPlain(t, u)
  {
    hide Unhex, Hex, Lower, Dashed, Undashed;
    if |t| == 32 { UnhexIffHex(t, u); }
    if |t| == 36 {
      UnhexIffHex(Undashed(t), u);
      LowerDashes(t);
      DashedIffUndashed(Lower(t), Hex(u));
    }
  }

  /** A text is parsed as a UUID exactly when the grammar lets it spell that UUID, except that digits without dashes
      are not accepted in braces. */
  lemma ParsedIffSpelled(t: string, u: UUID)
    ensures Parsed(t) == Some(u) <==> Spells(t, u) && |t| != 34
  {
    hide Plain;
    PlainIffSpelled(t, u);
    PlainLength(t);
    if |t| >= 2 {
      PlainIffSpelled(t[1..|t| - 1], u);
      PlainLength(t[1..|t| - 1]);
    }
    if URN_PREFIX <= t {
      PlainIffSpelled(t[9..], u);
      PlainLength(t[9..]);
    }
  }

  lemma PlainLength(t: string)
    ensures Plain(t).Some? ==> |t| == 32 || |t| == 36
  {
  }

  /** Every UUID has such a spelling that is not accepted. */
  lemma BracedDigitsAreRejected(u: UUID)
    ensures var t := "{" + Hex(u) + "}"; Spells(t, u) && Parsed(t) == None
  {
    hide Hex;
    var t := "{" + Hex(u) + "}";
    HexIsLower(u);
    assert t[1..|t| - 1] == Hex(u);
  }

  predicate AllHex(s: string) { forall c | c in s :: HexValue(c).Some? }

  /** The documented grammar taken at its word: fourteen octets with three dashes, or twelve octets. */
  predicate WrittenPlain(t: string)
  {
    || (|t| == 24 && AllHex(t))
    || (|t| == 31 && t[8] == '-' && t[13] == '-' && t[18] == '-' &&
        AllHex(t[..8]) && AllHex(t[9..13]) && AllHex(t[14..18]) && AllHex(t[19..]))
  }

  predicate Written(t: string)
  {
    || WrittenPlain(t)
    || (|t| >= 2 && t[0] == '{' && t[|t| - 1] == '}' && WrittenPlain(t[1..|t| - 1]))
    || (URN_PREFIX <= t && WrittenPlain(t[9..]))
  }

  /** Nothing that the grammar allows as it is written is accepted: it miscounts the octets. */
  lemma WrittenIsRejected(t: string)
    requires Written(t)
    ensures Parsed(t) == None
  {
  }

  lemma {:induction false} HexIsLower(bs: seq<byte>)
    ensures Lower(Hex(bs)) == Hex(bs)
  {
    if bs != [] {
      HexIsLower(bs[1..]);
      var h, rest := Hex(bs), Hex(bs[1..]);
      forall i | 0 <= i < |h| ensures Lower(h)[i] == h[i] {
        if i >= 2 { assert h[i] == rest[i - 2] && Lower(rest)[i - 2] == rest[i - 2]; }
      }
    }
  }

  /** Parsing undoes printing. */
  lemma RoundTrip(u: UUID)
    ensures Parsed(Canonical(u)) == Some(u)
  {
    hide Unhex, Hex;
    HexIsLower(u);
    UnhexIffHex(Hex(u), u);
    DashedIffUndashed(Canonical(u), Hex(u));
  }

  /** The five accepted forms, in either case of the digits. */
  lemma FormsAreAccepted(t: string, u: UUID)
    requires Lower(t) == Canonical(u)
    ensures Parsed(t) == Some(u) && Parsed("{" + t + "}") == Some(u) && Parsed("urn:uuid:" + t) == Some(u)
  {
    hide Plain, Canonical;
    PlainIffSpelled(t, u);
    PlainLength(t);
    assert |t| == 36 by { CanonicalLength(u); }
    assert ("{" + t + "}")[1..37] == t;
    assert ("urn:uuid:" + t)[..9] == "urn:uuid:" && ("urn:uuid:" + t)[9..] == t;
  }

  lemma HashFormsAreAccepted(t: string, u: UUID)
    requires Lower(t) == Hex(u)
    ensures Parsed(t) == Some(u) && Parsed("urn:uuid:" + t) == Some(u)
  {
    hide Plain, Hex;
    PlainIffSpelled(t, u);
    assert ("urn:uuid:" + t)[..9] == "urn:uuid:" && ("urn:uuid:" + t)[9..] == t;
  }

  lemma CanonicalLength(u: UUID)
    ensures |Canonical(u)| == 36
  {
  }

  /** A text has one meaning, and all spellings of a UUID print alike. */
  lemma PrintIsCanonical(t: string, u: UUID)
    requires Parsed(t) == Some(u)
    ensures forall v: UUID | Spells(t, v) :: v == u
    ensures |t| == 36 ==> Canonical(u) == Lower(t)
  {
    hide Plain, Spells;
    forall v: UUID | Spells(t, v) ensures v == u { ParsedIffSpelled(t, v); }
    if |t| == 36 {
      PlainIffSpelled(t, u);
    }
  }

  // ---------------------------------------------------------------- the code

  /** The receiver after n bytes of the digits have been decoded into it. */
  predicate Holds(now: seq<byte>, was: seq<byte>, digits: string, n: nat)
  {
    && |now| == |was| && n <= |was| && 2 * n <= |digits|
    && Unhex(digits[..2 * n]) == Some(now[..n]) && now[n..] == was[n..]
  }

  /** Decodes pairs of digits into a slice of the receiver, stopping at the first that is not one. */
  method HexDecode(dst: array<byte>, at: nat, src: string) returns (n: nat, ok: bool)
    requires |src| % 2 == 0 && at + |src| / 2 <= dst.Length
    modifies dst
    ensures ok <==> Unhex(src).Some?
    ensures n <= |src| / 2 && (ok ==> n == |src| / 2)
    ensures Unhex(src[..2 * n]) == Some(dst[at..at + n])
    ensures dst[..at] == old(dst[..at]) && dst[at + n..] == old(dst[at + n..])
  {
    hide HexValue, Unhex, Pair;
    ghost var was := dst[..];
    n := 0;
    UnhexEmpty();
    assert src[..0] == "" && dst[at..at] == [];
    while n < |src| / 2
      invariant n <= |src| / 2
      invariant Unhex(src[..2 * n]) == Some(dst[at..at + n])
      invariant dst[..at] == was[..at] && dst[at + n..] == was[at + n..]
    {
      var a, b := HexValue(src[2 * n]), HexValue(src[2 * n + 1]);
      UnhexMore(src, 2 * n);
      if a.None? || b.None? { return n, false; }
      ghost var before := dst[at..at + n];
      dst[at + n] := Pair(a.value, b.value);
      assert dst[at..at + n + 1] == before + [Pair(a.value, b.value)];
      assert dst[at + n + 1..] == was[at + n..][1..];
      n := n + 1;
    }
    assert src[..2 * n] == src;
    ok := true;
  }

  /** One more pair. */
  lemma UnhexMore(src: string, k: nat)
    requires |src| % 2 == 0 && k % 2 == 0 && k < |src| && Unhex(src[..k]).Some?
    ensures var a, b := HexValue(src[k]), HexValue(src[k + 1]);
            if a.Some? && b.Some? then
              Unhex(src[..k + 2]) == Some(Unhex(src[..k]).value + [Pair(a.value, b.value)])
            else Unhex(src).None?
  {
    hide HexValue, Unhex;
    var pair := src[k..k + 2];
    UnhexPair(pair);
    UnhexConcat(src[..k], pair);
    assert src[..k + 2] == src[..k] + pair;
    UnhexConcat(src[..k + 2], src[k + 2..]);
    assert src == src[..k + 2] + src[k + 2..];
  }

  lemma UnhexEmpty()
    ensures Unhex("") == Some([])
  {
  }

  lemma UnhexPair(pair: string)
    requires |pair| == 2
    ensures var a, b := HexValue(pair[0]), HexValue(pair[1]);
            Unhex(pair) == if a.Some? && b.Some? then Some([Pair(a.value, b.value)]) else None
  {
    hide HexValue;
    UnhexEmpty();
    assert pair[2..] == "";
    var a, b := HexValue(pair[0]), HexValue(pair[1]);
    if a.Some? && b.Some? { assert [Pair(a.value, b.value)] + [] == [Pair(a.value, b.value)]; }
  }

  /** A prefix of digits can be decoded if all of them can. */
  lemma UnhexPrefix(s: string, k: nat)
    requires |s| % 2 == 0 && k % 2 == 0 && k <= |s|
    ensures Unhex(s).Some? ==> Unhex(s[..k]).Some?
  {
    UnhexConcat(s[..k], s[k..]);
    assert s == s[..k] + s[k..];
  }

  /** Decodes the next digits behind those already decoded. */
  method DecodeGroup(u: array<byte>, ghost was: seq<byte>, ghost digits: string, done: nat, src: string)
    returns (ok: bool, ghost n: nat)
    requires |digits| % 2 == 0 && |src| % 2 == 0 && done + |src| / 2 <= u.Length
    requires 2 * done + |src| <= |digits| && src == digits[2 * done..2 * done + |src|]
    requires Holds(u[..], was, digits, done)
    modifies u
    ensures Holds(u[..], was, digits, n)
    ensures ok ==> n == done + |src| / 2
    ensures !ok ==> Unhex(digits).None?
  {
    hide Unhex;
    ghost var before := u[..];
    var k;
    k, ok := HexDecode(u, done, src);
    n := done + k;
    assert src[..2 * k] == digits[2 * done..2 * (done + k)];
    StillHolds(before, u[..], was, digits, done, k);
    if !ok {
      UnhexConcat(digits[..2 * done], src);
      assert digits[..2 * done + |src|] == digits[..2 * done] + src;
      UnhexPrefix(digits, 2 * done + |src|);
    }
  }

  lemma StillHolds(before: seq<byte>, now: seq<byte>, was: seq<byte>, digits: string, done: nat, k: nat)
    requires |digits| % 2 == 0 && Holds(before, was, digits, done)
    requires |now| == |before| && done + k <= |now| && 2 * (done + k) <= |digits|
    requires now[..done] == before[..done] && now[done + k..] == before[done + k..]
    requires Unhex(digits[2 * done..2 * (done + k)]) == Some(now[done..done + k])
    ensures Holds(now, was, digits, done + k)
  {
    hide Unhex;
    UnhexConcat(digits[..2 * done], digits[2 * done..2 * (done + k)]);
    assert digits[..2 * (done + k)] == digits[..2 * done] + digits[2 * done..2 * (done + k)];
    assert now[..done + k] == now[..done] + now[done..done + k];
    assert before[done + k..] == before[done..][k..] && was[done + k..] == was[done..][k..];
  }

  const BYTE_GROUPS := [8, 4, 4, 4, 12]

  function Group(i: nat): nat
    requires i < 5
  {
    BYTE_GROUPS[i]
  }

  /** The digits before a group. */
  function Before(i: nat): nat
    requires i <= 5
  {
    if i == 0 then 0 else Before(i - 1) + Group(i - 1)
  }

  lemma Groups()
    ensures Before(0) == 0 && Before(1) == 8 && Before(2) == 12 && Before(3) == 16 && Before(4) == 20 && Before(5) == 32
  {
  }

  /** A group of digits lies behind as many dashes as there are groups before it. */
  lemma GroupText(t: string, i: nat)
    requires |t| == 36 && i < 5
    ensures Before(i + 1) == Before(i) + Group(i) <= 32 && Group(i) % 2 == 0
    ensures Undashed(t)[Before(i)..Before(i + 1)] == t[Before(i) + i..Before(i + 1) + i]
  {
    Groups();
  }

  /** Skipping a dash, and taking a group and what is behind it. */
  lemma GroupSlices(t: string, i: nat)
    requires |t| == 36 && i < 5 && Before(i + 1) == Before(i) + Group(i) <= 32
    ensures var src := t[Before(i) + i..];
            && (i > 0 ==> t[Before(i) + i - 1..][1..] == src) && (i == 0 ==> t[0..] == src)
            && src[..Group(i)] == t[Before(i) + i..Before(i + 1) + i] && src[Group(i)..] == t[Before(i + 1) + i..]
  {
    hide Group;
    Groups();
  }

  lemma HoldsNothing(was: seq<byte>, digits: string)
    ensures Holds(was, was, digits, 0)
  {
    assert digits[..0] == "" && was[..0] == [];
  }

  method DecodeCanonical(u: array<byte>, t: string) returns (ok: bool, ghost n: nat)
    requires u.Length == 16 && |t| == 36
    modifies u
    ensures Holds(u[..], old(u[..]), Undashed(t), n)
    ensures ok <==> Plain(t).Some?
    ensures ok ==> n == 16
  {
    hide Unhex, Undashed, Holds, Group, Before;
    n := 0;
    Groups();
    HoldsNothing(u[..], Undashed(t));
    if t[8] != '-' || t[13] != '-' || t[18] != '-' || t[23] != '-' { return false, 0; }
    ghost var was := u[..];
    var src := t;
    var done: nat := 0;
    for i := 0 to 5
      invariant n == done && 2 * done == Before(i) <= 32
      invariant src == t[if i == 0 then 0 else Before(i) + i - 1..]
      invariant Holds(u[..], was, Undashed(t), done)
    {
      GroupText(t, i);
      GroupSlices(t, i);
      if i > 0 { src := src[1..]; }
      ok, n := DecodeGroup(u, was, Undashed(t), done, src[..Group(i)]);
      if !ok { return; }
      src := src[Group(i)..];
      done := done + Group(i) / 2;
    }
    HoldsAll(u[..], was, Undashed(t));
    ok := true;
  }

  lemma HoldsAll(now: seq<byte>, was: seq<byte>, digits: string)
    requires |digits| == 2 * |was| && Holds(now, was, digits, |was|)
    ensures Unhex(digits) == Some(now)
  {
    assert digits[..2 * |was|] == digits && now[..|was|] == now;
  }

  method DecodeHashLike(u: array<byte>, t: string) returns (ok: bool, ghost n: nat)
    requires u.Length == 16 && |t| == 32
    modifies u
    ensures Holds(u[..], old(u[..]), t, n)
    ensures ok <==> Plain(t).Some?
    ensures ok ==> n == 16
  {
    hide Unhex, Holds;
    HoldsNothing(u[..], t);
    assert t == t[0..32];
    ok, n := DecodeGroup(u, u[..], t, 0, t);
    if ok { HoldsAll(u[..], old(u[..]), t); }
  }

  /** The digits of a text without decoration. */
  function DigitsOf(t: string): string { if |t| == 36 then Undashed(t) else t }

  method DecodePlain(u: array<byte>, t: string) returns (ok: bool, ghost n: nat)
    requires u.Length == 16
    modifies u
    ensures Holds(u[..], old(u[..]), DigitsOf(t), n)
    ensures ok <==> Plain(t).Some?
    ensures ok ==> Some(u[..]) == Plain(t)
  {
    hide Unhex, Holds;
    if |t| == 32 {
      ok, n := DecodeHashLike(u, t);
      if ok { HoldsAll(u[..], old(u[..]), t); }
    } else if |t| == 36 {
      ok, n := DecodeCanonical(u, t);
      if ok { HoldsAll(u[..], old(u[..]), Undashed(t)); }
    } else {
      HoldsNothing(u[..], t);
      ok, n := false, 0;
    }
  }

  /** The text without its decoration. */
  function Bare(t: string): string
  {
    if |t| == 38 then t[1..37] else if |t| == 41 || |t| == 45 then t[9..] else t
  }

  /** Parses a text into the receiver. It succeeds exactly on the accepted spellings and then holds what was spelled;
      otherwise the receiver has been overwritten by the digits that could be decoded before the first bad one. */
  method UnmarshalText(u: array<byte>, text: string) returns (ok: bool, ghost n: nat)
    requires u.Length == 16
    modifies u
    ensures ok <==> Parsed(text).Some?
    ensures ok ==> Some(u[..]) == Parsed(text)
    ensures Holds(u[..], old(u[..]), DigitsOf(Bare(text)), n)
  {
    hide Plain, Holds, DigitsOf;
    HoldsNothing(u[..], DigitsOf(Bare(text)));
    if |text| == 32 || |text| == 36 {
      ok, n := DecodePlain(u, text);
    } else if |text| == 38 {
      if text[0] != '{' || text[37] != '}' { return false, 0; }
      ok, n := DecodePlain(u, text[1..37]);
    } else if |text| == 41 || |text| == 45 {
      if text[..9] != URN_PREFIX { return false, 0; }
      ok, n := DecodePlain(u, text[9..]);
    } else {
      ok, n := false, 0;
    }
  }
}
