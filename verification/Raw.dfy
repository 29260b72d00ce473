/** The slice parser: splitting and counting values in a byte slice, without a stream.

    It shares no code with the streaming decoder; here the two are proved to accept the same strings and
    lists, with the same content and rest, and counting is proved to count encodings.
 */
module Raw {
  import opened BigEndian
  import opened Header
  import opened Wrappers
  import opened Codec
  import opened Stream

  datatype Result<+T> = Success(value: T) | Failure(error: Error)
  {
    predicate IsFailure() { Failure? }
    function PropagateFailure<U>(): Result<U> requires Failure? { Failure(error) }
    function Extract(): T requires Success? { value }
  }

  /** The size in the first slen bytes of b. */
  function ReadSize(b: seq<byte>, slen: nat): Result<nat>
  {
    if slen > |b| then Failure(UnexpectedEOF)
    else
      var s := Number(b[..slen]);
      if s < 56 || b[0] == 0 then Failure(CanonSize) else Success(s)
  }

  /** The kind, tag size and content size of the value at the front of buf. */
  function ReadKind(buf: seq<byte>): (r: Result<Header>)
    ensures r.Success? ==> 0 < r.value.tag + r.value.size <= |buf|
  {
    if buf == [] then Failure(UnexpectedEOF)
    else
      var b := buf[0];
      var h :-
        if b < 0x80 then Success(Header(Byte, 0, 1))
        else if b < 0xB8 then
          if b - 0x80 == 1 && |buf| > 1 && buf[1] < 0x80 then Failure(CanonSize)
          else Success(Header(String, 1, b - 0x80))
        else if b < 0xC0 then Sized(String, b - 0xB7, buf)
        else if b < 0xF8 then Success(Header(List, 1, b - 0xC0))
        else Sized(List, b - 0xF7, buf);
      if h.size > |buf| - h.tag then Failure(ValueTooLarge) else Success(h)
  }

  function Sized(kind: Kind, slen: nat, buf: seq<byte>): Result<Header>
    requires buf != []
  {
    var size :- ReadSize(buf[1..], slen);
    Success(Header(kind, slen + 1, size))
  }

  datatype Parts = Parts(kind: Kind, content: seq<byte>, rest: seq<byte>)

  function Split(b: seq<byte>): Result<Parts>
  {
    var h :- ReadKind(b);
    Success(Parts(h.kind, b[h.tag..h.tag + h.size], b[h.tag + h.size..]))
  }

  function SplitString(b: seq<byte>): Result<Parts>
  {
    var p :- Split(b);
    if p.kind == List then Failure(ExpectedString) else Success(p)
  }

  function SplitList(b: seq<byte>): Result<Parts>
  {
    var p :- Split(b);
    if p.kind != List then Failure(ExpectedList) else Success(p)
  }

  /** The encoded size of a list with that much content, in 64-bit arithmetic. */
  function ListSize(contentSize: u64): u64
  {
    (HeadSize(contentSize) + contentSize) % U64_LIMIT
  }

  lemma ListSizeIsExact(payload: seq<byte>)
    requires |EncList(payload)| < U64_LIMIT
    ensures ListSize(|payload|) == |EncList(payload)|
  {
  }

  // ---------------------------------------------------------------- agreement with the stream

  /** A string of one byte below 0x80 should have been that byte. */
  predicate Overlong(b: seq<byte>, h: Header)
    requires h.tag + h.size <= |b|
  {
    h.kind == String && h.size == 1 && b[h.tag] < 0x80
  }

  lemma SizedIsLong(kind: Kind, slen: nat, buf: seq<byte>)
    requires buf != [] && 1 <= slen <= 8
    ensures match Long(buf, kind, slen)
            case Some(h) => Sized(kind, slen, buf) == Success(h)
            case None => Sized(kind, slen, buf).Failure?
  {
    if 1 + slen <= |buf| {
      assert buf[1..][..slen] == buf[1..1 + slen];
    }
  }

  /** Both parsers read the same headers; the slice parser refuses overlong strings at once. */
  lemma ReadKindIsHeader(b: seq<byte>)
    requires b != []
    ensures match ReadHeader(b)
            case None => ReadKind(b).Failure?
            case Some(h) => if Overlong(b, h) then ReadKind(b) == Failure(CanonSize) else ReadKind(b) == Success(h)
  {
    var t := TagOf(b[0]);
    if t.len > 0 {
      SizedIsLong(t.kind, t.len, b);
      if Long(b, t.kind, t.len).Some? { LongSizeIsCanonical(b, t.len); }
    }
  }

  /** SplitString succeeds exactly where a string can be parsed, with the same content and rest. */
  lemma SplitStringIsParse(b: seq<byte>)
    ensures match Parse(TBytes, false, b)
            case Ok(v, _, rest) => v.Blob? && SplitString(b).Success?
                                   && SplitString(b).value.content == v.bs && SplitString(b).value.rest == rest
            case _ => SplitString(b).Failure?
  {
    if b != [] {
      ReadKindIsHeader(b);
      if ReadHeader(b).Some? { ParseUnfolds(TBytes, b); }
    }
  }

  /** Reading a string from a fresh stream over b and splitting b agree. */
  method BytesLikeSplit(s: Stream, b: seq<byte>) returns (content: seq<byte>, err: Error)
    requires |b| < U64_LIMIT
    modifies s
    ensures s.Valid()
    ensures err == Nil <==> SplitString(b).Success?
    ensures err == Nil ==> SplitString(b).value.content == content && SplitString(b).value.rest == s.input
  {
    hide Parse, ReadTag;
    s.Reset(b, |b|, true, false);
    content, err := s.Bytes();
    SplitStringIsParse(b);
  }

  /** Opening a list on a fresh stream over b and splitting b agree: the list's window is the content. */
  method ListLikeSplit(s: Stream, b: seq<byte>) returns (n: u64, err: Error)
    requires |b| < U64_LIMIT
    modifies s
    ensures s.Valid()
    ensures err == Nil <==> SplitList(b).Success?
    ensures err == Nil ==> SplitList(b).value.content + SplitList(b).value.rest == s.input
    ensures err == Nil ==> n == |SplitList(b).value.content| && s.stack == InList(0, n, NoList)
  {
    hide ReadTag, ReadHeader, ReadKind, ListHead, Lists.Owed, Lists.Nested;
    s.Reset(b, |b|, true, false);
    n, err := s.List();
    if b != [] { ReadKindIsHeader(b); }
  }

  // ---------------------------------------------------------------- counting

  /** One value by its header, not overlong. */
  predicate IsPiece(piece: seq<byte>)
  {
    IsOneValue(piece) && !Overlong(piece, ReadHeader(piece).value)
  }

  function Concat(pieces: seq<seq<byte>>): seq<byte>
  {
    if pieces == [] then [] else pieces[0] + Concat(pieces[1..])
  }

  /** b falls apart into exactly these values. */
  ghost predicate FallsInto(b: seq<byte>, pieces: seq<seq<byte>>)
  {
    Concat(pieces) == b && forall p | p in pieces :: IsPiece(p)
  }

  /** The first value of b, if the slice parser finds one, is a piece; and a piece is found in front of anything. */
  lemma FirstPiece(b: seq<byte>)
    requires ReadKind(b).Success?
    ensures IsPiece(b[..ReadKind(b).value.tag + ReadKind(b).value.size])
  {
    ReadKindIsHeader(b);
    ReadHeaderCut(b);
  }

  lemma PieceIsFound(piece: seq<byte>, rest: seq<byte>)
    requires IsPiece(piece)
    ensures ReadKind(piece + rest).Success?
    ensures ReadKind(piece + rest).value.tag + ReadKind(piece + rest).value.size == |piece|
  {
    ReadHeaderPrefix(piece, rest);
    ReadKindIsHeader(piece + rest);
  }

  /** The values b falls into, one after the other. */
  function Pieces(b: seq<byte>): Option<seq<seq<byte>>>
    decreases |b|
  {
    if b == [] then Some([])
    else match ReadKind(b)
      case Failure(_) => None
      case Success(h) =>
        match Pieces(b[h.tag + h.size..])
        case None => None
        case Some(rest) => Some([b[..h.tag + h.size]] + rest)
  }

  /** A byte string falls into values in at most one way, and Pieces finds it. */
  lemma {:induction false} PiecesAreUnique(b: seq<byte>, ps: seq<seq<byte>>)
    ensures FallsInto(b, ps) <==> Pieces(b) == Some(ps)
    decreases |b|
  {
    if b == [] {
      if ps != [] && FallsInto(b, ps) { PieceIsFound(ps[0], Concat(ps[1..])); }
    } else if ps == [] {
    } else {
      var after := Concat(ps[1..]);
      if FallsInto(b, ps) { PieceIsFound(ps[0], after); }
      if ReadKind(b).Success? {
        FirstPiece(b);
        var n := ReadKind(b).value.tag + ReadKind(b).value.size;
        PiecesAreUnique(b[n..], ps[1..]);
        assert ps == [ps[0]] + ps[1..];
        assert b == b[..n] + b[n..];
        if FallsInto(b, ps) { assert ps[0] == b[..n] && after == b[n..]; }
      }
    }
  }

  /** Counts the values in b: it succeeds exactly on byte strings that fall into values. */
  method CountValues(b: seq<byte>) returns (r: Result<nat>)
    ensures r.Success? <==> Pieces(b).Some?
    ensures r.Success? ==> r.value == |Pieces(b).value|
  {
    var i, rest := 0, b;
    while |rest| > 0
      invariant Pieces(b).Some? <==> Pieces(rest).Some?
      invariant Pieces(b).Some? ==> |Pieces(b).value| == i + |Pieces(rest).value|
      decreases |rest|
    {
      var k := ReadKind(rest);
      if k.Failure? { return Failure(k.error); }
      rest := rest[k.value.tag + k.value.size..];
      i := i + 1;
    }
    return Success(i);
  }

  /** The encodings of the items of a list. */
  function Encodings(lay: Layout, vs: seq<Value>): (r: seq<seq<byte>>)
    requires HasLayout(lay, vs)
    ensures |r| == |vs|
    decreases |vs|
  {
    if vs == [] then [] else [Enc(lay.Head(), vs[0])] + Encodings(lay.Rest(), vs[1..])
  }

  predicate NoRaw(lay: Layout)
  {
    (forall t | t in lay.row :: !t.TRaw?) && (lay.tail.Some? ==> !lay.tail.value.TRaw?)
  }

  lemma EncIsPiece(t: Type, v: Value)
    requires HasType(t, v) && !t.TRaw? && |Enc(t, v)| < U64_LIMIT
    ensures IsPiece(Enc(t, v))
  {
    var e := Enc(t, v);
    assert e + [] == e;
    if v.Items? {
      var payload := EncItems(LayoutOf(t), v.vs);
      ReadHeaderOfHead(List, payload, []);
      assert e == HeadOf(List, |payload|) + payload + [];
    } else {
      assert e == EncString(ContentOf(v));
      ReadEncString(ContentOf(v), []);
    }
  }

  /** On the encodings of the items of a list, one after the other, CountValues returns their number. */
  lemma CountsEncodings(lay: Layout, vs: seq<Value>)
    requires HasLayout(lay, vs) && NoRaw(lay) && |EncItems(lay, vs)| < U64_LIMIT
    ensures Pieces(EncItems(lay, vs)) == Some(Encodings(lay, vs))
  {
    EncodingsFall(lay, vs);
    PiecesAreUnique(EncItems(lay, vs), Encodings(lay, vs));
  }

  lemma {:induction false} EncodingsFall(lay: Layout, vs: seq<Value>)
    requires HasLayout(lay, vs) && NoRaw(lay) && |EncItems(lay, vs)| < U64_LIMIT
    ensures FallsInto(EncItems(lay, vs), Encodings(lay, vs))
    decreases |vs|
  {
    if vs != [] {
      EncIsPiece(lay.Head(), vs[0]);
      EncodingsFall(lay.Rest(), vs[1..]);
      assert Encodings(lay, vs)[1..] == Encodings(lay.Rest(), vs[1..]);
    }
  }
}
