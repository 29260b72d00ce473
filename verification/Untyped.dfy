/** RLP as the Yellow Paper has it: items are byte strings or lists of items, and nothing is known about types.

    This gives meaning to untyped decoding without reference to type descriptors: an input is accepted as `interface{}`
    if and only if it is the encoding of an item, and then it is read as that item.
 */
module Untyped {
  import opened BigEndian
  import opened Header
  import opened Wrappers
  import opened Codec
  import opened Laws

  datatype Item = Str(bytes: seq<byte>) | Seq(items: seq<Item>)

  /** Appendix B of the Yellow Paper. */
  function Rlp(x: Item): seq<byte>
  {
    match x
    case Str(b) => EncString(b)
    case Seq(xs) => EncList(RlpAll(xs))
  }

  function RlpAll(xs: seq<Item>): seq<byte>
  {
    if xs == [] then [] else Rlp(xs[0]) + RlpAll(xs[1..])
  }

  /** The Go value of an item: `[]byte` or `[]interface{}`. */
  function GoValue(x: Item): Value
  {
    match x
    case Str(b) => Blob(b)
    case Seq(xs) => Items(GoValues(xs))
  }

  function GoValues(xs: seq<Item>): (vs: seq<Value>)
    ensures |vs| == |xs| && forall i | 0 <= i < |xs| :: vs[i] == GoValue(xs[i])
  {
    if xs == [] then [] else [GoValue(xs[0])] + GoValues(xs[1..])
  }

  /** Lists of anything hold lists of anything. */
  lemma {:induction false} EncIsRlp(x: Item)
    ensures Encodable(TAny, GoValue(x)) && Enc(TAny, GoValue(x)) == Rlp(x)
  {
    match x
    case Str(_) =>
    case Seq(xs) => EncAllIsRlp(xs);
  }

  lemma {:induction false} EncAllIsRlp(xs: seq<Item>)
    ensures AllEncodable(Layout([], Some(TAny)), GoValues(xs))
    ensures EncItems(Layout([], Some(TAny)), GoValues(xs)) == RlpAll(xs)
  {
    if xs != [] {
      EncIsRlp(xs[0]);
      EncAllIsRlp(xs[1..]);
      assert GoValues(xs)[1..] == GoValues(xs[1..]);
    }
  }

  lemma AnyIsSafe()
    ensures Throughout(ReadsBack, TAny)
  {
  }

  /** The item that an untyped value stands for. */
  lemma {:induction false} ItemOf(v: Value) returns (x: Item)
    requires HasType(TAny, v)
    ensures GoValue(x) == v
    decreases v
  {
    match v
    case Blob(b) => x := Str(b);
    case Items(vs) =>
      var xs := ItemsOf(vs);
      x := Seq(xs);
  }

  lemma {:induction false} ItemsOf(vs: seq<Value>) returns (xs: seq<Item>)
    requires HasLayout(Layout([], Some(TAny)), vs)
    ensures GoValues(xs) == vs
    decreases vs
  {
    if vs == [] {
      xs := [];
    } else {
      var first := ItemOf(vs[0]);
      var rest := ItemsOf(vs[1..]);
      xs := [first] + rest;
      assert xs[1..] == rest;
    }
  }

  /** The encoding of every item decodes, untyped, to that item. */
  lemma UntypedRoundTrip(x: Item)
    requires |Rlp(x)| < U64_LIMIT
    ensures DecodeSpec(TAny, Rlp(x)) == Decoded.Value(GoValue(x))
  {
    EncIsRlp(x);
    AnyIsSafe();
    Bijection(TAny, GoValue(x), Rlp(x));
  }

  /** Every input accepted without a type is the encoding of an item, and read as that item. */
  lemma UntypedCanonicity(b: seq<byte>) returns (x: Item)
    requires DecodeSpec(TAny, b).Value?
    ensures Rlp(x) == b && GoValue(x) == DecodeSpec(TAny, b).v
  {
    AnyIsSafe();
    var v := DecodeSpec(TAny, b).v;
    Canonicity(TAny, b);
    SafeIsClean(TAny, v);
    x := ItemOf(v);
    EncIsRlp(x);
  }

  // ---------------------------------------------------------------- typed values as items

  /** A typed value is written as this item. */
  ghost predicate WrittenAs(t: Type, v: Value, x: Item) { Encodable(t, v) && Enc(t, v) == Rlp(x) }

  ghost predicate RowWrittenAs(ts: seq<Type>, vs: seq<Value>, xs: seq<Item>)
  {
    |ts| == |vs| == |xs| && forall i | 0 <= i < |ts| :: WrittenAs(ts[i], vs[i], xs[i])
  }

  lemma {:induction false} RowIsItems(ts: seq<Type>, vs: seq<Value>, xs: seq<Item>)
    requires RowWrittenAs(ts, vs, xs)
    ensures AllEncodable(Layout(ts, None), vs) && EncItems(Layout(ts, None), vs) == RlpAll(xs)
    decreases |ts|
  {
    if ts != [] {
      assert WrittenAs(ts[0], vs[0], xs[0]);
      forall i | 0 <= i < |ts| - 1 ensures WrittenAs(ts[1..][i], vs[1..][i], xs[1..][i]) {
        assert WrittenAs(ts[i + 1], vs[i + 1], xs[i + 1]);
      }
      RowIsItems(ts[1..], vs[1..], xs[1..]);
    }
  }

  /** A struct without tail is the list of its fields, in order. */
  lemma StructIsItem(ts: seq<Type>, vs: seq<Value>, xs: seq<Item>)
    requires RowWrittenAs(ts, vs, xs)
    ensures WrittenAs(TStruct(ts, None), Items(vs), Seq(xs))
  {
    RowIsItems(ts, vs, xs);
  }

  lemma {:induction false} ElemsAreItems(e: Type, vs: seq<Value>, xs: seq<Item>)
    requires |vs| == |xs| && forall i | 0 <= i < |vs| :: WrittenAs(e, vs[i], xs[i])
    ensures AllEncodable(Layout([], Some(e)), vs) && EncItems(Layout([], Some(e)), vs) == RlpAll(xs)
    decreases |vs|
  {
    if vs != [] {
      assert WrittenAs(e, vs[0], xs[0]);
      forall i | 0 <= i < |vs| - 1 ensures WrittenAs(e, vs[1..][i], xs[1..][i]) {
        assert WrittenAs(e, vs[i + 1], xs[i + 1]);
      }
      ElemsAreItems(e, vs[1..], xs[1..]);
    }
  }

  /** A slice is the list of its elements, in order. */
  lemma SliceIsItem(e: Type, vs: seq<Value>, xs: seq<Item>)
    requires |vs| == |xs| && forall i | 0 <= i < |vs| :: WrittenAs(e, vs[i], xs[i])
    ensures WrittenAs(TSlice(e), Items(vs), Seq(xs))
  {
    ElemsAreItems(e, vs, xs);
  }

  /** So is an array of fixed length. */
  lemma ArrayIsItem(e: Type, vs: seq<Value>, xs: seq<Item>)
    requires |vs| == |xs| && forall i | 0 <= i < |vs| :: WrittenAs(e, vs[i], xs[i])
    ensures WrittenAs(TArray(|vs|, e), Items(vs), Seq(xs))
  {
    RowIsItems(Repeat(e, |vs|), vs, xs);
  }

  /** Integers are their shortest big-endian bytes, zero being none; bools are one byte or none; strings and byte arrays
      are their bytes. */
  lemma ScalarsAreItems(w: Width, n: nat, m: nat, b: bool, bs: seq<byte>)
    requires n < Span(w)
    ensures WrittenAs(TUint(w), Num(n), Str(Bytes(n)))
    ensures WrittenAs(TBigInt, Num(m), Str(Bytes(m)))
    ensures WrittenAs(TBool, Flag(b), Str(if b then [1] else []))
    ensures WrittenAs(TBytes, Blob(bs), Str(bs)) && WrittenAs(TByteArray(|bs|), Blob(bs), Str(bs))
  {
    hide Bytes, Span;
  }
}
