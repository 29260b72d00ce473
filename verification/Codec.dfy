/** Typed RLP: what a Go type's value encodes to, and a reference parser over byte strings.

    A type descriptor stands for a Go type without nil pointers or "nil" tags. The reference parser
    `Parse` works on slices and recursion; the streaming decoder is proved equal to it in `Decoder`,
    the deferred-header encoder is proved equal to `Enc` in `Encoder`. The laws relating the two
    are proved here, for all types, values and inputs.

    One Go type misbehaves: decoding a zero into `[1]byte` leaves the stream's look-ahead armed, so
    the next read sees that zero again without consuming input. `Parse` models this with its `armed`
    flag, and `Clean` is the exact condition under which a value survives.
 */
module Codec {
  import opened BigEndian
  import opened Header
  import opened Wrappers

  datatype Type =
    | TUint(width: Width)                                  // unsigned integer of that many bytes
    | TBool
    | TBytes                                               // []byte and string
    | TBigInt
    | TByteArray(n: nat)                                   // [n]byte
    | TSlice(elem: Type)
    | TArray(len: nat, elem: Type)
    | TStruct(fields: seq<Type>, tail: Option<Type>)       // fields, then a "tail" slice if any
    | TAny                                                 // interface{}
    | TRaw                                                 // RawValue

  type Width = w: nat | w == 1 || w == 2 || w == 4 || w == 8 witness 1

  /** Values. The elements of a "tail" slice follow the fields of their struct directly. */
  datatype Value = Num(n: int) | Flag(b: bool) | Blob(bs: seq<byte>) | Items(vs: seq<Value>)

  // ---------------------------------------------------------------- types

  /** What a list of type t holds: a row of types, then any number of items of the tail type. */
  datatype Layout = Layout(row: seq<Type>, tail: Option<Type>)
  {
    /** A further item is expected, or at least looked for. */
    predicate More() { row != [] || tail.Some? }

    function Head(): Type
      requires More()
    {
      if row != [] then row[0] else tail.value
    }

    function Rest(): Layout
      requires More()
    {
      if row != [] then Layout(row[1..], tail) else this
    }
  }

  predicate IsList(t: Type) { t.TSlice? || t.TArray? || t.TStruct? || t.TAny? }

  function Repeat(t: Type, n: nat): (r: seq<Type>)
    ensures |r| == n
  {
    seq(n, i => t)
  }

  function LayoutOf(t: Type): Layout
    requires IsList(t)
  {
    match t
    case TSlice(e) => Layout([], Some(e))
    case TArray(n, e) => Layout(Repeat(e, n), None)
    case TStruct(fields, tail) => Layout(fields, tail)
    case TAny => Layout([], Some(TAny))
  }

  /** v is a value of Go type t. Big integers may be negative; the encoder refuses those. */
  predicate HasType(t: Type, v: Value)
    decreases v
  {
    match t
    case TUint(w) => v.Num? && 0 <= v.n < Span(w)
    case TBool => v.Flag?
    case TBytes => v.Blob?
    case TBigInt => v.Num?
    case TByteArray(n) => v.Blob? && |v.bs| == n
    case TRaw => v.Blob? && IsOneValue(v.bs)
    case TAny => v.Blob? || (v.Items? && HasLayout(LayoutOf(t), v.vs))
    case _ => v.Items? && HasLayout(LayoutOf(t), v.vs)
  }

  predicate HasLayout(lay: Layout, vs: seq<Value>)
    decreases vs
  {
    if vs == [] then lay.row == []
    else lay.More() && HasType(lay.Head(), vs[0]) && HasLayout(lay.Rest(), vs[1..])
  }

  /** The bytes are one value as far as its header tells: RawValue content is not looked into. */
  predicate IsOneValue(bs: seq<byte>)
  {
    bs != [] && ReadHeader(bs).Some? && ReadHeader(bs).value.tag + ReadHeader(bs).value.size == |bs|
  }

  predicate NonNegative(v: Value)
    decreases v
  {
    match v
    case Num(n) => n >= 0
    case Items(vs) => AllNonNegative(vs)
    case _ => true
  }

  predicate AllNonNegative(vs: seq<Value>)
    decreases vs
  {
    vs != [] ==> NonNegative(vs[0]) && AllNonNegative(vs[1..])
  }

  predicate Encodable(t: Type, v: Value) { HasType(t, v) && NonNegative(v) }

  predicate AllEncodable(lay: Layout, vs: seq<Value>) { HasLayout(lay, vs) && AllNonNegative(vs) }

  // ---------------------------------------------------------------- encoding

  function Magnitude(n: int): nat { if n < 0 then -n else n }

  lemma WidthFits(w: Width, n: nat)
    requires n < Span(w)
    ensures n < U64_LIMIT
  {
    SpanValues();
  }

  /** The RLP encoding of v as a value of type t; integers are taken without their sign. */
  function Enc(t: Type, v: Value): (r: seq<byte>)
    requires HasType(t, v)
    ensures r != []
    decreases v
  {
    match v
    case Num(n) => EncString(Bytes(Magnitude(n)))
    case Flag(b) => if b then [0x01] else [0x80]
    case Blob(bs) => if t.TRaw? then bs else EncString(bs)
    case Items(vs) => EncList(EncItems(LayoutOf(t), vs))
  }

  function EncItems(lay: Layout, vs: seq<Value>): seq<byte>
    requires HasLayout(lay, vs)
    decreases vs
  {
    if vs == [] then [] else Enc(lay.Head(), vs[0]) + EncItems(lay.Rest(), vs[1..])
  }

  // ---------------------------------------------------------------- reference parser

  /** Ok carries the value, whether the look-ahead is left armed on a zero byte, and the unread rest.
      Eol: nothing left to read. Loop: the Go code does not terminate. */
  datatype Parsed = Ok(v: Value, armed: bool, rest: seq<byte>) | Eol | Err | Loop

  datatype ParsedItems = Found(vs: seq<Value>) | Bad | Endless

  /** Decoding this value leaves the look-ahead armed. */
  predicate Dirty(t: Type, v: Value) { t == TByteArray(1) && v == Blob([0]) }

  /** Reads one value of type t from w, the unread part of the innermost open list (or of the input). */
  function Parse(t: Type, armed: bool, w: seq<byte>): (r: Parsed)
    ensures r.Ok? ==> |r.rest| <= |w| && r.rest == w[|w| - |r.rest|..]
    ensures r.Ok? ==> if armed then r.rest == w else |r.rest| < |w|
    ensures r.Eol? ==> !armed && w == []
    decreases |w|, 0, armed
  {
    if armed then ParseArmed(t, w)
    else if w == [] then Eol
    else match ReadHeader(w)
      case None => Err
      case Some(h) =>
        var total := h.tag + h.size;
        if t.TRaw? then Ok(Blob(w[..total]), false, w[total..])
        else if h.kind == List then
          if !IsList(t) then Err
          else match ParseItems(LayoutOf(t), false, w[h.tag..total])
            case Found(vs) => Ok(Items(vs), false, w[total..])
            case Bad => Err
            case Endless => Loop
        else ParseString(t, h.kind, w[h.tag..total], w[total..])
  }

  /** The look-ahead still holds a zero byte that was already taken from the input. */
  function ParseArmed(t: Type, w: seq<byte>): (r: Parsed)
    ensures r.Ok? ==> r.rest == w
    ensures !r.Eol?
  {
    if t.TRaw? then Ok(Blob([0]), false, w) else ParseString(t, Byte, [0], w)
  }

  function ParseString(t: Type, kind: Kind, content: seq<byte>, rest: seq<byte>): (r: Parsed)
    ensures r.Ok? ==> r.rest == rest
    ensures r.Ok? || r.Err?
  {
    match Scalar(t, kind, content)
    case None => Err
    case Some(v) => Ok(v, Dirty(t, v), rest)
  }

  /** The value of a single byte or a string with the given content. A single byte below 0x80 must not be
      written as a string. */
  function Scalar(t: Type, kind: Kind, content: seq<byte>): Option<Value>
  {
    if kind == String && |content| == 1 && content[0] < 0x80 then None
    else match t
      case TBytes => Some(Blob(content))
      case TAny => Some(Blob(content))
      case TByteArray(n) => if |content| == n then Some(Blob(content)) else None
      case TBigInt => if NoLeadingZero(content) then Some(Num(Number(content))) else None
      case TUint(width) => if |content| <= width && NoLeadingZero(content) then Some(Num(Number(content))) else None
      case TBool => if content == [] then Some(Flag(false)) else if content == [1] then Some(Flag(true)) else None
      case _ => None
  }

  /** Reads list items until the list content w is used up and the layout is satisfied. */
  function ParseItems(lay: Layout, armed: bool, w: seq<byte>): (r: ParsedItems)
    decreases |w|, 1, armed, |lay.row|
  {
    if !lay.More() then (if w == [] then Found([]) else Bad)
    else match Parse(lay.Head(), armed, w)
      case Eol => if lay.row == [] then Found([]) else Bad
      case Err => Bad
      case Loop => Endless
      case Ok(v, again, rest) =>
        if armed && again && lay.row == [] then Endless
        else match ParseItems(lay.Rest(), again, rest)
          case Found(vs) => Found([v] + vs)
          case other => other
  }

  /** A parse result with values already found in front of it. */
  function Prepend(vs: seq<Value>, r: ParsedItems): ParsedItems
  {
    match r
    case Found(us) => Found(vs + us)
    case _ => r
  }

  lemma PrependStep(vs: seq<Value>, v: Value, r: ParsedItems)
    ensures Prepend(vs, Prepend([v], r)) == Prepend(vs + [v], r)
  {
    match r {
      case Found(us) => assert vs + ([v] + us) == vs + [v] + us;
      case _ =>
    }
  }

  /** One step of the item loops, in terms of the parser. */
  lemma ParseItemsStep(lay: Layout, armed: bool, w: seq<byte>)
    requires lay.More()
    ensures match Parse(lay.Head(), armed, w)
            case Eol => ParseItems(lay, armed, w) == if lay.row == [] then Found([]) else Bad
            case Err => ParseItems(lay, armed, w) == Bad
            case Loop => ParseItems(lay, armed, w) == Endless
            case Ok(v, again, rest) =>
              ParseItems(lay, armed, w) == if armed && again && lay.row == [] then Endless
                                           else Prepend([v], ParseItems(lay.Rest(), again, rest))
  {
  }

  /** What the parser does with a string or single byte, and with a list it does not expect. */
  lemma ParseUnfolds(t: Type, w: seq<byte>)
    requires w != [] && ReadHeader(w).Some? && !t.TRaw?
    ensures var h := ReadHeader(w).value;
            var total := h.tag + h.size;
            if h.kind != List then Parse(t, false, w) == ParseString(t, h.kind, w[h.tag..total], w[total..])
            else IsList(t) || Parse(t, false, w) == Err
  {
  }

  datatype Decoded = Value(v: Value) | Invalid | Diverges

  /** What DecodeBytes makes of b: exactly one value and nothing after it. */
  function DecodeSpec(t: Type, b: seq<byte>): Decoded
  {
    match Parse(t, false, b)
    case Ok(v, _, rest) => if rest == [] then Value(v) else Invalid
    case Loop => Diverges
    case _ => Invalid
  }

  // ---------------------------------------------------------------- the exact condition

  /** No `[1]byte` holding zero is followed by another read in its list. */
  predicate Clean(t: Type, v: Value)
    requires HasType(t, v)
    decreases v
  {
    v.Items? ==> CleanItems(LayoutOf(t), v.vs)
  }

  predicate CleanItems(lay: Layout, vs: seq<Value>)
    requires HasLayout(lay, vs)
    decreases vs
  {
    vs != [] ==>
      && Clean(lay.Head(), vs[0])
      && (Dirty(lay.Head(), vs[0]) ==> !lay.Rest().More())
      && CleanItems(lay.Rest(), vs[1..])
  }

  // ---------------------------------------------------------------- encode, then parse

  /** A string written by the encoder is read back with its content and the right canonicity verdict. */
  lemma ReadEncString(b: seq<byte>, rest: seq<byte>)
    requires |b| < U64_LIMIT
    ensures var w := EncString(b) + rest;
            && ReadHeader(w).Some?
            && var h := ReadHeader(w).value;
            && h.kind != List && w[h.tag..h.tag + h.size] == b && w[h.tag + h.size..] == rest
            && !(h.kind == String && h.size == 1 && b[0] < 0x80)
  {
    if !(|b| == 1 && b[0] < 0x80) {
      ReadHeaderOfHead(String, b, rest);
      assert EncString(b) + rest == HeadOf(String, |b|) + b + rest;
    }
  }

  /** The string a value other than a list or a RawValue is written as. */
  function ContentOf(v: Value): seq<byte>
    requires !v.Items?
  {
    match v
    case Num(n) => Bytes(Magnitude(n))
    case Flag(b) => if b then [1] else []
    case Blob(bs) => bs
  }

  lemma ScalarOfContent(t: Type, v: Value, kind: Kind)
    requires Encodable(t, v) && !v.Items? && !t.TRaw?
    requires !(kind == String && |ContentOf(v)| == 1 && ContentOf(v)[0] < 0x80)
    ensures Scalar(t, kind, ContentOf(v)) == Some(v)
  {
    if v.Num? {
      NumberOfBytes(v.n);
      if t.TUint? { BytesLength(v.n, t.width); }
    }
  }

  lemma {:induction false} ParseOfEnc(t: Type, v: Value, rest: seq<byte>)
    requires Encodable(t, v) && Clean(t, v) && |Enc(t, v)| < U64_LIMIT
    ensures Parse(t, false, Enc(t, v) + rest) == Ok(v, Dirty(t, v), rest)
    decreases v
  {
    var w := Enc(t, v) + rest;
    if t.TRaw? {
      ReadHeaderPrefix(v.bs, rest);
      assert w[..|v.bs|] == v.bs && w[|v.bs|..] == rest;
    } else if v.Items? {
      var payload := EncItems(LayoutOf(t), v.vs);
      ParseItemsOfEnc(LayoutOf(t), v.vs);
      ReadHeaderOfHead(List, payload, rest);
      assert w == HeadOf(List, |payload|) + payload + rest;
    } else {
      assert Enc(t, v) == EncString(ContentOf(v));
      ReadEncString(ContentOf(v), rest);
      ScalarOfContent(t, v, ReadHeader(w).value.kind);
    }
  }

  lemma {:induction false} ParseItemsOfEnc(lay: Layout, vs: seq<Value>)
    requires AllEncodable(lay, vs) && CleanItems(lay, vs) && |EncItems(lay, vs)| < U64_LIMIT
    ensures ParseItems(lay, false, EncItems(lay, vs)) == Found(vs)
    decreases vs
  {
    if vs != [] {
      var first, others := Enc(lay.Head(), vs[0]), EncItems(lay.Rest(), vs[1..]);
      ParseOfEnc(lay.Head(), vs[0], others);
      if Dirty(lay.Head(), vs[0]) {
        assert vs[1..] == [];
      } else {
        ParseItemsOfEnc(lay.Rest(), vs[1..]);
      }
      assert vs == [vs[0]] + vs[1..];
    }
  }

  // ---------------------------------------------------------------- parse, then encode

  /** What a parsed value says about the bytes it was read from: it never encodes to fewer bytes than were
      consumed, and to exactly those bytes if and only if it is clean. */
  ghost predicate Accounts(t: Type, armed: bool, w: seq<byte>)
  {
    match Parse(t, armed, w)
    case Ok(v, again, rest) =>
      && Encodable(t, v)
      && again == Dirty(t, v)
      && (if armed then |Enc(t, v)| == 1
          else
            var used := |w| - |rest|;
            && |Enc(t, v)| >= used
            && (Clean(t, v) <==> |Enc(t, v)| == used)
            && (Clean(t, v) ==> Enc(t, v) == w[..used]))
    case _ => true
  }

  ghost predicate AccountsItems(lay: Layout, armed: bool, w: seq<byte>)
  {
    match ParseItems(lay, armed, w)
    case Found(vs) =>
      && AllEncodable(lay, vs)
      && |EncItems(lay, vs)| >= |w|
      && (armed ==> if lay.More() then |EncItems(lay, vs)| > |w| else vs == [] && w == [])
      && (!armed ==> (CleanItems(lay, vs) <==> |EncItems(lay, vs)| == |w|))
      && (!armed && CleanItems(lay, vs) ==> EncItems(lay, vs) == w)
    case _ => true
  }

  /** A value read from a string encodes back to that string. */
  lemma ScalarEncodes(t: Type, kind: Kind, content: seq<byte>)
    requires Scalar(t, kind, content).Some? && (kind == Byte ==> |content| == 1)
    ensures var v := Scalar(t, kind, content).value;
            Encodable(t, v) && Clean(t, v) && Enc(t, v) == EncString(content)
  {
    if NoLeadingZero(content) { BytesOfNumber(content); }
    if t.TUint? {
      NumberBound(content);
      BytesLength(Number(content), t.width);
      BytesLength(Number(content), |content|);
    }
  }

  /** A canonical string on the input is what the encoder writes for its content. */
  lemma StringOnInput(w: seq<byte>)
    requires w != [] && ReadHeader(w).Some? && ReadHeader(w).value.kind != List
    ensures var h := ReadHeader(w).value;
            var content := w[h.tag..h.tag + h.size];
            (h.kind == String && h.size == 1 && content[0] < 0x80) || EncString(content) == w[..h.tag + h.size]
  {
    var h := ReadHeader(w).value;
    ReadHeaderIsCanonical(w);
    assert w[..h.tag + h.size] == w[..h.tag] + w[h.tag..h.tag + h.size];
  }

  lemma ParseStringAccounts(t: Type, w: seq<byte>)
    requires w != [] && ReadHeader(w).Some? && ReadHeader(w).value.kind != List && !t.TRaw?
    ensures Accounts(t, false, w)
  {
    var h := ReadHeader(w).value;
    var total := h.tag + h.size;
    var p := ParseString(t, h.kind, w[h.tag..total], w[total..]);
    assert Parse(t, false, w) == p;
    if p.Ok? {
      StringOnInput(w);
      ScalarEncodes(t, h.kind, w[h.tag..total]);
      assert Enc(t, p.v) == w[..total];
    }
  }

  lemma ParseRawAccounts(w: seq<byte>)
    requires w != [] && ReadHeader(w).Some?
    ensures Accounts(TRaw, false, w)
  {
    ReadHeaderCut(w);
  }

  lemma ParseListAccounts(t: Type, w: seq<byte>)
    requires w != [] && ReadHeader(w).Some? && ReadHeader(w).value.kind == List && IsList(t)
    requires var h := ReadHeader(w).value; AccountsItems(LayoutOf(t), false, w[h.tag..h.tag + h.size])
    ensures Accounts(t, false, w)
  {
    var h := ReadHeader(w).value;
    var content := w[h.tag..h.tag + h.size];
    var found := ParseItems(LayoutOf(t), false, content);
    if found.Found? {
      assert Parse(t, false, w) == Ok(Items(found.vs), false, w[h.tag + h.size..]);
      ListOnInput(w);
      ListAccounts(t, found.vs, content);
    }
  }

  lemma ListOnInput(w: seq<byte>)
    requires w != [] && ReadHeader(w).Some? && ReadHeader(w).value.kind == List
    ensures var h := ReadHeader(w).value; w[..h.tag + h.size] == EncList(w[h.tag..h.tag + h.size])
  {
    var h := ReadHeader(w).value;
    ReadHeaderIsCanonical(w);
    assert w[..h.tag + h.size] == w[..h.tag] + w[h.tag..h.tag + h.size];
  }

  lemma ListAccounts(t: Type, vs: seq<Value>, content: seq<byte>)
    requires IsList(t) && AllEncodable(LayoutOf(t), vs) && |EncItems(LayoutOf(t), vs)| >= |content|
    ensures var v := Items(vs);
            && Encodable(t, v) && |Enc(t, v)| >= |EncList(content)|
            && (|Enc(t, v)| == |EncList(content)| <==> |EncItems(LayoutOf(t), vs)| == |content|)
  {
    HeadSizeMonotone(|content|, |EncItems(LayoutOf(t), vs)|);
  }

  lemma ParseArmedAccounts(t: Type, w: seq<byte>)
    ensures Accounts(t, true, w)
  {
    assert Parse(t, true, w) == ParseArmed(t, w);
    assert ReadHeader([0]) == Some(Header(Byte, 0, 1));
    if Scalar(t, Byte, [0]).Some? { ScalarEncodes(t, Byte, [0]); }
  }

  /** Nothing of type t can start at the front of w: the header already tells. */
  predicate Rejected(t: Type, w: seq<byte>)
  {
    w == [] || ReadHeader(w).None? || (ReadHeader(w).value.kind == List && !IsList(t) && !t.TRaw?)
  }

  lemma ParseRejectedAccounts(t: Type, w: seq<byte>)
    requires Rejected(t, w)
    ensures Accounts(t, false, w)
  {
    assert !Parse(t, false, w).Ok?;
  }

  // Naming a postcondition before stating it keeps the verifier from unfolding it where the lemma is called. The same
  // device is used for some larger postconditions of `Encoder` and `Stream`.
  lemma {:induction false} ParseAccounts(t: Type, armed: bool, w: seq<byte>)
    ensures var holds := Accounts(t, armed, w); holds
    decreases |w|, 0, armed
  {
    if armed {
      ParseArmedAccounts(t, w);
    } else if Rejected(t, w) {
      ParseRejectedAccounts(t, w);
    } else if t.TRaw? {
      ParseRawAccounts(w);
    } else if ReadHeader(w).value.kind != List {
      ParseStringAccounts(t, w);
    } else {
      var h := ReadHeader(w).value;
      ParseItemsAccounts(LayoutOf(t), false, w[h.tag..h.tag + h.size]);
      ParseListAccounts(t, w);
    }
  }

  lemma {:induction false} ParseItemsAccounts(lay: Layout, armed: bool, w: seq<byte>)
    ensures var holds := AccountsItems(lay, armed, w); holds
    decreases |w|, 1, armed, |lay.row|
  {
    if Continues(lay, armed, w) {
      var p := Parse(lay.Head(), armed, w);
      ParseAccounts(lay.Head(), armed, w);
      ParseItemsAccounts(lay.Rest(), p.armed, p.rest);
      ItemsAccountsStep(lay, armed, w, p, ParseItems(lay.Rest(), p.armed, p.rest).vs);
    } else {
      ItemsAccountsStop(lay, armed, w);
    }
  }

  /** An item is read from w, and the items after it are found too. */
  predicate Continues(lay: Layout, armed: bool, w: seq<byte>)
  {
    && lay.More()
    && var p := Parse(lay.Head(), armed, w);
    && p.Ok? && !(armed && p.armed && lay.row == []) && ParseItems(lay.Rest(), p.armed, p.rest).Found?
  }

  lemma ItemsAccountsStop(lay: Layout, armed: bool, w: seq<byte>)
    requires !Continues(lay, armed, w)
    ensures AccountsItems(lay, armed, w)
  {
    assert ParseItems(lay, armed, w).Found? ==> ParseItems(lay, armed, w) == Found([]) && w == [];
  }

  lemma ItemsAccountsStep(lay: Layout, armed: bool, w: seq<byte>, p: Parsed, others: seq<Value>)
    requires lay.More() && Accounts(lay.Head(), armed, w) && p == Parse(lay.Head(), armed, w) && p.Ok?
    requires !(armed && p.armed && lay.row == [])
    requires ParseItems(lay.Rest(), p.armed, p.rest) == Found(others)
    requires AccountsItems(lay.Rest(), p.armed, p.rest)
    ensures AccountsItems(lay, armed, w)
  {
    var vs := [p.v] + others;
    assert vs[1..] == others;
    assert AllEncodable(lay, vs);
    assert EncItems(lay, vs) == Enc(lay.Head(), p.v) + EncItems(lay.Rest(), others);
    assert CleanItems(lay, vs) <==>
      Clean(lay.Head(), p.v) && (p.armed ==> !lay.Rest().More()) && CleanItems(lay.Rest(), others);
    assert w == w[..|w| - |p.rest|] + p.rest;
  }

  // ---------------------------------------------------------------- the laws

  /** Round trip: decoding an encoding returns the value if and only if the value is clean. */
  lemma RoundTrip(t: Type, v: Value)
    requires Encodable(t, v) && |Enc(t, v)| < U64_LIMIT
    ensures DecodeSpec(t, Enc(t, v)) == Decoded.Value(v) <==> Clean(t, v)
  {
    var b := Enc(t, v);
    if Clean(t, v) {
      ParseOfEnc(t, v, []);
      assert b + [] == b;
    }
    ParseAccounts(t, false, b);
  }

  /** Canonicity: what is accepted re-encodes to the accepted bytes if and only if it is clean. */
  lemma Canonicity(t: Type, b: seq<byte>)
    requires DecodeSpec(t, b).Value?
    ensures var v := DecodeSpec(t, b).v;
            Encodable(t, v) && (Enc(t, v) == b <==> Clean(t, v))
  {
    ParseAccounts(t, false, b);
  }
}
