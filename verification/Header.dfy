/** The type tag in front of every RLP value: what the encoder writes and what both parsers read. */
module Header {
  import opened BigEndian
  import opened Wrappers

  datatype Kind = Byte | String | List

  /** A header found at the front of some bytes: the value is `tag` header bytes and `size` content bytes.
      A single byte below 0x80 is its own content and has no header bytes. */
  datatype Header = Header(kind: Kind, tag: nat, size: nat)

  /** The bytes `puthead` writes; tag arithmetic is byte arithmetic. */
  function Head(small: byte, large: byte, size: nat): (h: seq<byte>)
    ensures |h| == HeadSize(size)
  {
    if size < 56 then [(small + size) % 0x100]
    else [(large + |Bytes(size)|) % 0x100] + Bytes(size)
  }

  function HeadSize(size: nat): (n: nat)
  {
    if size < 56 then 1 else 1 + |Bytes(size)|
  }

  function StringHead(size: nat): seq<byte> { Head(0x80, 0xB7, size) }

  function ListHead(size: nat): seq<byte> { Head(0xC0, 0xF7, size) }

  /** The Yellow Paper's encoding of a byte string. */
  function EncString(b: seq<byte>): (r: seq<byte>)
    ensures r != []
  {
    if |b| == 1 && b[0] < 0x80 then b else StringHead(|b|) + b
  }

  /** The Yellow Paper's encoding of a list whose items encode to `payload`. */
  function EncList(payload: seq<byte>): (r: seq<byte>)
    ensures r != []
  {
    ListHead(|payload|) + payload
  }

  /** A size given in `n` bytes after the tag: no leading zero, and not below 56. */
  function LongSize(w: seq<byte>, n: nat): Option<nat>
    requires w != []
  {
    if |w| < 1 + n then None
    else
      var size := Number(w[1..1 + n]);
      if n == 0 || w[1] == 0 || size < 56 then None else Some(size)
  }

  /** What the first byte of a value says: its kind, and either its size or the number of bytes that hold it. */
  datatype Tag = Tag(kind: Kind, size: nat, len: nat)

  function TagOf(b: byte): (r: Tag)
    ensures r.len <= 8 && r.size < 56
  {
    if b < 0x80 then Tag(Byte, 0, 0)
    else if b < 0xB8 then Tag(String, b - 0x80, 0)
    else if b < 0xC0 then Tag(String, 0, b - 0xB7)
    else if b < 0xF8 then Tag(List, b - 0xC0, 0)
    else Tag(List, 0, b - 0xF7)
  }

  /** The type tag at the front of w, if there is a canonical one; the content may be missing. */
  function ReadTag(w: seq<byte>): (r: Option<Header>)
    requires w != []
    ensures r.Some? ==> r.value.tag <= |w| && r.value.tag + r.value.size > 0
    ensures r.Some? ==> if r.value.kind == Byte then r.value == Header(Byte, 0, 1) else r.value.tag >= 1
  {
    var t := TagOf(w[0]);
    if t.kind == Byte then Some(Header(Byte, 0, 1))
    else if t.len == 0 then Some(Header(t.kind, 1, t.size))
    else Long(w, t.kind, t.len)
  }

  function Long(w: seq<byte>, kind: Kind, n: nat): Option<Header>
    requires w != []
  {
    match LongSize(w, n)
    case None => None
    case Some(size) => Some(Header(kind, 1 + n, size))
  }

  /** The header at the front of w, if there is a canonical one and its content lies within w. */
  function ReadHeader(w: seq<byte>): (r: Option<Header>)
    requires w != []
    ensures r.Some? ==> r == ReadTag(w) && r.value.tag + r.value.size <= |w|
  {
    match ReadTag(w)
    case None => None
    case Some(h) => if h.tag + h.size <= |w| then Some(h) else None
  }

  /** The header bytes of a value of the given kind and size. */
  function HeadOf(kind: Kind, size: nat): seq<byte>
  {
    match kind
    case Byte => []
    case String => StringHead(size)
    case List => ListHead(size)
  }

  /** A header above the small range is a tag giving the size's length, then the size. */
  lemma LongHead(kind: Kind, size: nat)
    requires kind != Byte && 56 <= size < U64_LIMIT
    ensures var n := |Bytes(size)|;
            1 <= n <= 8 && HeadOf(kind, size) == [(if kind == String then 0xB7 else 0xF7) + n] + Bytes(size)
  {
    U64Length(size);
  }

  lemma SmallHead(kind: Kind, size: nat)
    requires kind != Byte && size < 56
    ensures HeadOf(kind, size) == [(if kind == String then 0x80 else 0xC0) + size]
  {
  }

  /** Every header that is read back is the one `puthead` writes for that kind and size. */
  lemma ReadHeaderIsCanonical(w: seq<byte>)
    requires w != [] && ReadTag(w).Some?
    ensures var h := ReadTag(w).value; w[..h.tag] == HeadOf(h.kind, h.size)
    ensures ReadTag(w).value.size < U64_LIMIT
  {
    var h := ReadTag(w).value;
    if h.tag > 1 {
      LongIsCanonical(w, h.kind, h.tag - 1);
    } else if h.tag == 1 {
      SmallHead(h.kind, h.size);
      assert w[..1] == [w[0]];
    }
  }

  lemma LongIsCanonical(w: seq<byte>, kind: Kind, n: nat)
    requires w != [] && n <= 8 && kind != Byte && Long(w, kind, n).Some?
    requires w[0] == (if kind == String then 0xB7 else 0xF7) + n
    ensures var h := Long(w, kind, n).value; w[..1 + n] == HeadOf(kind, h.size) && h.size < U64_LIMIT
  {
    var h := Long(w, kind, n).value;
    LongSizeIsCanonical(w, n);
    LongHead(kind, h.size);
    assert w[..1 + n] == [w[0]] + w[1..1 + n];
  }

  lemma LongSizeIsCanonical(w: seq<byte>, n: nat)
    requires w != [] && n <= 8 && LongSize(w, n).Some?
    ensures var size := LongSize(w, n).value;
            56 <= size < U64_LIMIT && |Bytes(size)| == n && w[1..1 + n] == Bytes(size)
  {
    var digits := w[1..1 + n];
    assert digits[0] == w[1];
    BytesOfNumber(digits);
    U64Length(Number(digits));
  }

  /** Every header that is written is read back, whatever follows the content. */
  lemma ReadHeaderOfHead(kind: Kind, content: seq<byte>, rest: seq<byte>)
    requires kind != Byte && |content| < U64_LIMIT
    ensures var w := HeadOf(kind, |content|) + content + rest;
            ReadHeader(w) == Some(Header(kind, HeadSize(|content|), |content|))
  {
    if |content| < 56 {
      ReadSmallHead(kind, content, rest);
    } else {
      ReadLongHead(kind, content, rest);
    }
  }

  lemma ReadSmallHead(kind: Kind, content: seq<byte>, rest: seq<byte>)
    requires kind != Byte && |content| < 56
    ensures ReadHeader(HeadOf(kind, |content|) + content + rest) == Some(Header(kind, 1, |content|))
  {
    SmallHead(kind, |content|);
    var w := HeadOf(kind, |content|) + content + rest;
    assert w[0] == HeadOf(kind, |content|)[0];
  }

  lemma ReadLongHead(kind: Kind, content: seq<byte>, rest: seq<byte>)
    requires kind != Byte && 56 <= |content| < U64_LIMIT
    ensures ReadHeader(HeadOf(kind, |content|) + content + rest)
         == Some(Header(kind, HeadSize(|content|), |content|))
  {
    var size := |content|;
    var head, n := HeadOf(kind, size), |Bytes(size)|;
    LongHead(kind, size);
    var w := [head[0]] + Bytes(size) + (content + rest);
    LongSizeOfBytes(head[0], size, content + rest);
    ReadLong(w, kind, n, size);
    assert head + content + rest == w;
  }

  lemma ReadLong(w: seq<byte>, kind: Kind, n: nat, size: nat)
    requires kind != Byte && 1 <= n <= 8 && 1 + n + size <= |w|
    requires w[0] == (if kind == String then 0xB7 else 0xF7) + n && LongSize(w, n) == Some(size)
    ensures ReadHeader(w) == Some(Header(kind, 1 + n, size))
  {
  }

  lemma LongSizeOfBytes(b: byte, size: nat, rest: seq<byte>)
    requires size >= 56
    ensures LongSize([b] + Bytes(size) + rest, |Bytes(size)|) == Some(size)
  {
    var w := [b] + Bytes(size) + rest;
    NumberOfBytes(size);
    assert w[1..1 + |Bytes(size)|] == Bytes(size);
    assert w[1] == Bytes(size)[0];
  }

  /** Bytes after the value do not change how its header is read. */
  lemma ReadHeaderPrefix(w: seq<byte>, more: seq<byte>)
    requires w != [] && ReadHeader(w).Some?
    ensures ReadHeader(w + more) == ReadHeader(w)
  {
    LongPrefix(w, more);
  }

  /** Cutting the input short either leaves the tag alone or makes it unreadable. */
  lemma TagWithin(w: seq<byte>, input: seq<byte>)
    requires w != [] && w <= input
    ensures ReadTag(w) == if ReadTag(input).Some? && ReadTag(input).value.tag <= |w| then ReadTag(input) else None
  {
    LongPrefix(w, input[|w|..]);
    assert input == w + input[|w|..];
  }

  lemma LongPrefix(w: seq<byte>, more: seq<byte>)
    requires w != []
    ensures forall n: nat | 1 + n <= |w| :: LongSize(w + more, n) == LongSize(w, n)
  {
    forall n: nat | 1 + n <= |w| ensures LongSize(w + more, n) == LongSize(w, n) {
      assert (w + more)[1..1 + n] == w[1..1 + n];
    }
  }

  /** The header is the same when the bytes after the value are cut off. */
  lemma ReadHeaderCut(w: seq<byte>)
    requires w != [] && ReadHeader(w).Some?
    ensures var h := ReadHeader(w).value; ReadHeader(w[..h.tag + h.size]) == Some(h)
  {
    var h := ReadHeader(w).value;
    var cut := w[..h.tag + h.size];
    LongPrefix(cut, w[h.tag + h.size..]);
    assert w == cut + w[h.tag + h.size..];
  }

  /** A longer content never has a shorter header. */
  lemma HeadSizeMonotone(a: nat, b: nat)
    requires a <= b
    ensures HeadSize(a) <= HeadSize(b)
  {
    LengthMonotone(a, b);
  }

  /** Writes a string or list header at position `at` of buf. */
  method PutHead(buf: array<byte>, at: nat, small: byte, large: byte, size: u64) returns (n: nat)
    requires at + HeadSize(size) <= buf.Length
    modifies buf
    ensures n == HeadSize(size) && at + n <= buf.Length
    ensures buf[at..at + n] == Head(small, large, size)
    ensures forall j | 0 <= j < buf.Length && !(at <= j < at + n) :: buf[j] == old(buf[j])
  {
    if size < 56 {
      buf[at] := (small + size) % 0x100;
      n := 1;
    } else {
      var sizesize := PutInt(buf, at + 1, size);
      ghost var digits := buf[at + 1..at + 1 + sizesize];
      n := sizesize + 1;
      PutTag(buf, at, large, sizesize, digits);
    }
  }

  method PutTag(buf: array<byte>, at: nat, large: byte, sizesize: nat, ghost digits: seq<byte>)
    requires at + 1 + sizesize <= buf.Length && buf[at + 1..at + 1 + sizesize] == digits
    modifies buf
    ensures buf[at..at + 1 + sizesize] == [(large + sizesize) % 0x100] + digits
    ensures forall j | 0 <= j < buf.Length && j != at :: buf[j] == old(buf[j])
  {
    buf[at] := (large + sizesize) % 0x100;
    assert buf[at + 1..at + 1 + sizesize] == digits;
    assert buf[at..at + 1 + sizesize] == [buf[at]] + buf[at + 1..at + 1 + sizesize];
  }
}
