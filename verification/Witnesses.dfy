/** Inputs and values that break a law of the codec, for every type that is not laid out as the law asks for.

    Together with `Laws` this makes the conditions there exact, for all types whose witnesses are short enough to be
    decoded at all: a weight of the type bounds their length.
 */
module Witnesses {
  import opened BigEndian
  import opened Header
  import opened Wrappers
  import opened Codec
  import opened Iteration
  import opened Laws

  // ---------------------------------------------------------------- inputs that break a law

  /** A value with nothing in any slice, and no zero in any `[1]byte`. */
  function Plain(t: Type): Value
  {
    match t
    case TByteArray(n) => Blob(if n == 1 then [1] else Zeros(n))
    case TSlice(_) => Items([])
    case TArray(n, e) => Items(Copies(Plain(e), n))
    case TStruct(fields, _) => Items(PlainRow(fields))
    case _ => Sample(t)
  }

  function PlainRow(row: seq<Type>): (vs: seq<Value>)
    ensures |vs| == |row| && forall i | 0 <= i < |row| :: vs[i] == Plain(row[i])
  {
    if row == [] then [] else [Plain(row[0])] + PlainRow(row[1..])
  }

  predicate IsPlain(t: Type, v: Value) { Encodable(t, v) && Clean(t, v) && !Dirty(t, v) }

  lemma {:induction false} PlainByIndex(lay: Layout, vs: seq<Value>)
    requires |vs| == |lay.row| && forall i | 0 <= i < |vs| :: IsPlain(lay.row[i], vs[i])
    ensures AllEncodable(lay, vs) && CleanItems(lay, vs)
    decreases |vs|
  {
    if vs != [] { PlainByIndex(lay.Rest(), vs[1..]); }
  }

  lemma {:induction false} PlainIsPlain(t: Type)
    ensures IsPlain(t, Plain(t))
  {
    match t
    case TSlice(_) =>
    case TArray(_, e) =>
      PlainIsPlain(e);
      PlainByIndex(LayoutOf(t), Plain(t).vs);
    case TStruct(fields, _) =>
      forall f | f in fields ensures IsPlain(f, Plain(f)) { PlainIsPlain(f); }
      PlainByIndex(LayoutOf(t), Plain(t).vs);
    case _ => SampleIsEncodable(t);
  }

  function EncPlain(t: Type): seq<byte>
  {
    PlainIsPlain(t);
    Enc(t, Plain(t))
  }

  /** The encodings of plain values, one after the other. */
  function PlainEnc(row: seq<Type>): seq<byte>
  {
    if row == [] then [] else EncPlain(row[0]) + PlainEnc(row[1..])
  }

  lemma PrependTwice(vs: seq<Value>, us: seq<Value>, r: ParsedItems)
    ensures Prepend(vs, Prepend(us, r)) == Prepend(vs + us, r)
  {
    if r.Found? { assert vs + (us + r.vs) == vs + us + r.vs; }
  }

  lemma PlainStep(lay: Layout, others: seq<byte>)
    requires lay.row != [] && |EncPlain(lay.row[0])| < U64_LIMIT
    ensures var t := lay.row[0];
            ParseItems(lay, false, EncPlain(t) + others) == Prepend([Plain(t)], ParseItems(lay.Rest(), false, others))
  {
    hide Parse, ParseItems, Enc, Clean;
    var t := lay.row[0];
    PlainIsPlain(t);
    ParseOfEnc(t, Plain(t), others);
    ParseItemsStep(lay, false, EncPlain(t) + others);
  }

  /** Plain values in front are read and leave the look-ahead alone. */
  lemma {:induction false} PlainPrefix(lay: Layout, k: nat, w: seq<byte>)
    requires k <= |lay.row| && |PlainEnc(lay.row[..k])| < U64_LIMIT
    ensures ParseItems(lay, false, PlainEnc(lay.row[..k]) + w) ==
            Prepend(PlainRow(lay.row[..k]), ParseItems(From(lay, k), false, w))
    decreases k
  {
    hide Parse, ParseItems, EncPlain, Plain;
    var r := ParseItems(From(lay, k), false, w);
    if k == 0 {
      assert From(lay, 0) == lay && [] + w == w;
      if r.Found? { assert [] + r.vs == r.vs; }
    } else {
      var t, row := lay.row[0], lay.row[..k];
      var first, others := EncPlain(t), PlainEnc(row[1..]) + w;
      assert row[1..] == lay.Rest().row[..k - 1] && From(lay.Rest(), k - 1) == From(lay, k);
      assert PlainEnc(row) + w == first + others;
      PlainStep(lay, others);
      PlainPrefix(lay.Rest(), k - 1, w);
      PrependTwice([Plain(t)], PlainRow(row[1..]), r);
    }
  }

  lemma NothingLeft(tail: Option<Type>)
    ensures ParseItems(Layout([], tail), false, []) == Found([])
  {
  }

  lemma PlainItems(lay: Layout)
    requires |PlainEnc(lay.row)| < U64_LIMIT
    ensures ParseItems(lay, false, PlainEnc(lay.row)) == Found(PlainRow(lay.row))
  {
    hide Parse, ParseItems, Enc;
    var n := |lay.row|;
    assert lay.row[..n] == lay.row && lay.row[n..] == [] && PlainEnc(lay.row) + [] == PlainEnc(lay.row);
    PlainPrefix(lay, n, []);
    NothingLeft(lay.tail);
    assert PlainRow(lay.row) + [] == PlainRow(lay.row);
  }

  /** What was read, or could not be read to its end, is read alike in front of more input. */
  lemma ParseExtends(t: Type, b: seq<byte>, rest: seq<byte>)
    requires var p := Parse(t, false, b); p.Loop? || (p.Ok? && p.rest == [])
    ensures var p := Parse(t, false, b);
            Parse(t, false, b + rest) == if p.Ok? then Ok(p.v, p.armed, rest) else p
  {
    hide ParseItems, ReadHeader, Scalar;
    assert b != [] && ReadHeader(b).Some?;
    ReadHeaderPrefix(b, rest);
    var h := ReadHeader(b).value;
    ContentExtends(b, rest, h);
    if h.kind == List && IsList(t) {
      hide Parse;
      ParseIsAsList(t, b);
      ParseIsAsList(t, b + rest);
    }
  }

  lemma ContentExtends(b: seq<byte>, rest: seq<byte>, h: Header)
    requires h.tag + h.size <= |b|
    ensures (b + rest)[h.tag..h.tag + h.size] == b[h.tag..h.tag + h.size]
    ensures (b + rest)[..h.tag + h.size] == b[..h.tag + h.size]
    ensures (b + rest)[h.tag + h.size..] == b[h.tag + h.size..] + rest
  {
  }

  /** An input that shows how a type breaks a law: it is read as a value that is not clean, or not read to its end. */
  ghost predicate Broken(law: Law, t: Type, b: seq<byte>)
  {
    var p := Parse(t, false, b);
    if law == Ends then p.Loop? else p.Ok? && p.rest == [] && p.v.Items? && HasType(t, p.v) && !Clean(t, p.v)
  }

  ghost predicate BrokenItems(law: Law, lay: Layout, w: seq<byte>)
  {
    var r := ParseItems(lay, false, w);
    if law == Ends then r.Endless? else r.Found? && HasLayout(lay, r.vs) && !CleanItems(lay, r.vs)
  }

  /** An item that breaks the law breaks it for the list. */
  lemma BreaksByItem(law: Law, lay: Layout, i: nat, b: seq<byte>)
    requires law != ReadsBack && Reads(lay, i) && i <= |lay.row| && Broken(law, TypeAt(lay, i), b)
    requires |PlainEnc(lay.row[..i])| < U64_LIMIT && |PlainEnc(From(lay, i).Rest().row)| < U64_LIMIT
    ensures BrokenItems(law, lay, PlainEnc(lay.row[..i]) + (b + PlainEnc(From(lay, i).Rest().row)))
  {
    hide Parse, ParseItems, Enc, PlainEnc, Clean, CleanItems;
    var here := From(lay, i);
    var after := PlainEnc(here.Rest().row);
    var w := PlainEnc(lay.row[..i]) + (b + after);
    assert here.Head() == TypeAt(lay, i);
    PlainPrefix(lay, i, b + after);
    ParseExtends(TypeAt(lay, i), b, after);
    ParseItemsStep(here, false, b + after);
    PlainItems(here.Rest());
    if law == Rebuilds {
      ParseAccounts(TypeAt(lay, i), false, b);
      ParseItemsAccounts(lay, false, w);
      var vs := ParseItems(lay, false, w).vs;
      assert vs[i] == Parse(TypeAt(lay, i), false, b).v;
      if CleanItems(lay, vs) { CleanAt(lay, vs, i); }
    }
  }

  /** An input that is read on from the zero. */
  function Absorbed(lay: Layout): seq<byte>
    requires lay.More() && Absorbs(lay)
    decreases |lay.row|
  {
    if lay.Head() != BYTE1 then PlainEnc(lay.Rest().row)
    else if lay.Rest().More() then Absorbed(lay.Rest()) else []
  }

  lemma {:induction false} AbsorbedIsRead(lay: Layout)
    requires lay.More() && Absorbs(lay) && |Absorbed(lay)| < U64_LIMIT
    ensures ParseItems(lay, true, Absorbed(lay)).Found?
    decreases |lay.row|
  {
    hide Parse, ParseItems, PlainEnc;
    var w := Absorbed(lay);
    ParseItemsStep(lay, true, w);
    ArmedZero(lay.Head(), w);
    if lay.Head() != BYTE1 {
      PlainItems(lay.Rest());
    } else if lay.Rest().More() {
      AbsorbedIsRead(lay.Rest());
    } else {
      NothingMore(lay.Rest(), true, w);
    }
  }

  lemma FreshZero(w: seq<byte>)
    ensures Parse(BYTE1, false, [0] + w) == Ok(Blob([0]), true, w)
  {
    assert ReadHeader([0] + w) == Some(Header(Byte, 0, 1));
    assert ([0] + w)[0..1] == [0] && ([0] + w)[1..] == w;
  }

  /** A zero that is read again breaks canonicity. */
  lemma BreaksByZero(lay: Layout, i: nat)
    requires i < |lay.row| && lay.row[i] == BYTE1 && From(lay, i + 1).More() && Absorbs(From(lay, i + 1))
    requires |PlainEnc(lay.row[..i])| < U64_LIMIT && |Absorbed(From(lay, i + 1))| < U64_LIMIT
    ensures BrokenItems(Rebuilds, lay, PlainEnc(lay.row[..i]) + ([0] + Absorbed(From(lay, i + 1))))
  {
    hide Parse, ParseItems, Enc, PlainEnc, Clean, CleanItems, Absorbed, Absorbs;
    var here, after := From(lay, i), Absorbed(From(lay, i + 1));
    var w := PlainEnc(lay.row[..i]) + ([0] + after);
    assert here.Head() == BYTE1 && here.Rest() == From(lay, i + 1);
    PlainPrefix(lay, i, [0] + after);
    FreshZero(after);
    ParseItemsStep(here, false, [0] + after);
    AbsorbedIsRead(here.Rest());
    ParseItemsAccounts(lay, false, w);
    var vs := ParseItems(lay, false, w).vs;
    assert vs[i] == Blob([0]);
    if CleanItems(lay, vs) { CleanAt(lay, vs, i); }
  }

  /** A zero in a slice of `[1]byte` is read for ever. */
  lemma BreaksByTail(lay: Layout)
    requires lay.tail == Some(BYTE1) && |PlainEnc(lay.row)| < U64_LIMIT
    ensures BrokenItems(Ends, lay, PlainEnc(lay.row) + [0])
  {
    hide Parse, ParseItems, Enc, PlainEnc;
    var n := |lay.row|;
    var here := From(lay, n);
    assert lay.row[..n] == lay.row && here.row == [] && [0] + [] == [0];
    PlainPrefix(lay, n, [0]);
    FreshZero([]);
    ParseItemsStep(here, false, [0]);
    ArmedZero(BYTE1, []);
    ParseItemsStep(here, true, []);
  }

  lemma BreaksAsList(law: Law, t: Type, w: seq<byte>)
    requires law != ReadsBack && IsList(t) && BrokenItems(law, LayoutOf(t), w) && |w| < U64_LIMIT
    ensures Broken(law, t, EncList(w))
  {
    hide ParseItems, CleanItems;
    ReadHeaderOfHead(List, w, []);
    var b := EncList(w);
    assert b == HeadOf(List, |w|) + w + [];
    assert b[HeadSize(|w|)..|b|] == w;
  }

  /** A place where a layout lets a zero be read on. */
  predicate SwallowsAt(lay: Layout, i: nat)
  {
    i < |lay.row| && lay.row[i] == BYTE1 && From(lay, i + 1).More() && Absorbs(From(lay, i + 1))
  }

  lemma SwallowsSomewhere(lay: Layout)
    requires !Keeps(Rebuilds, lay)
    ensures exists i: nat :: SwallowsAt(lay, i)
  {
    var i :| 0 <= i < |lay.row| && lay.row[i] == BYTE1 && From(lay, i + 1).More() && Absorbs(From(lay, i + 1));
    assert SwallowsAt(lay, i);
  }

  ghost function SwallowIndex(lay: Layout): (i: nat)
    requires !Keeps(Rebuilds, lay)
    ensures SwallowsAt(lay, i)
  {
    SwallowsSomewhere(lay);
    var i: nat :| SwallowsAt(lay, i);
    i
  }

  /** A member of a list type that is itself not laid out as the law asks for. */
  ghost predicate BrokenAt(law: Law, t: Type, i: nat)
  {
    && IsList(t)
    && var lay := LayoutOf(t);
    && Reads(lay, i) && i <= |lay.row| && !Throughout(law, TypeAt(lay, i)) && TypeAt(lay, i) < t
  }

  lemma BrokenSomewhere(law: Law, t: Type)
    requires !Throughout(law, t) && IsList(t) && Keeps(law, LayoutOf(t))
    ensures exists i: nat :: BrokenAt(law, t, i)
  {
    var i := BrokenInside(law, t);
    assert BrokenAt(law, t, i);
  }

  ghost function BrokenIndex(law: Law, t: Type): (i: nat)
    requires !Throughout(law, t) && IsList(t) && Keeps(law, LayoutOf(t))
    ensures BrokenAt(law, t, i)
  {
    BrokenSomewhere(law, t);
    var i: nat :| BrokenAt(law, t, i);
    i
  }

  /** An input on which a type breaks a law: plain values, and in their midst a zero that is read again. */
  ghost function Witness(law: Law, t: Type): seq<byte>
    requires law != ReadsBack && !Throughout(law, t)
    decreases t
  {
    BrokenIsList(law, t);
    var lay := LayoutOf(t);
    EncList(
      if Keeps(law, lay) then
        var i := BrokenIndex(law, t);
        PlainEnc(lay.row[..i]) + (Witness(law, TypeAt(lay, i)) + PlainEnc(From(lay, i).Rest().row))
      else if law == Ends then PlainEnc(lay.row) + [0]
      else
        var i := SwallowIndex(lay);
        PlainEnc(lay.row[..i]) + ([0] + Absorbed(From(lay, i + 1))))
  }

  lemma {:induction false} WitnessBreaks(law: Law, t: Type)
    requires law != ReadsBack && !Throughout(law, t)
    ensures |Witness(law, t)| < U64_LIMIT ==> Broken(law, t, Witness(law, t))
    decreases t
  {
    hide Broken, BrokenItems, PlainEnc, Absorbed, Absorbs, EncList;
    BrokenIsList(law, t);
    var lay := LayoutOf(t);
    if |Witness(law, t)| < U64_LIMIT {
      var w;
      if Keeps(law, lay) {
        var i := BrokenIndex(law, t);
        var inner := Witness(law, TypeAt(lay, i));
        w := PlainEnc(lay.row[..i]) + (inner + PlainEnc(From(lay, i).Rest().row));
        ListIsLonger(w);
        WitnessBreaks(law, TypeAt(lay, i));
        BreaksByItem(law, lay, i, inner);
      } else if law == Ends {
        w := PlainEnc(lay.row) + [0];
        ListIsLonger(w);
        BreaksByTail(lay);
      } else {
        var i := SwallowIndex(lay);
        w := PlainEnc(lay.row[..i]) + ([0] + Absorbed(From(lay, i + 1)));
        ListIsLonger(w);
        BreaksByZero(lay, i);
      }
      BreaksAsList(law, t, w);
    }
  }

  lemma ListIsLonger(w: seq<byte>)
    ensures |w| < |EncList(w)|
  {
  }

  // ---------------------------------------------------------------- how long the witnesses are

  /** A bound on the length of the witnesses of a type. */
  function Weight(t: Type): nat
  {
    match t
    case TByteArray(n) => 2 * n + 1
    case TSlice(e) => 2 * Weight(e) + 1
    case TArray(n, e) => 2 * (n * Weight(e)) + 1
    case TStruct(fields, tail) => 2 * (RowWeight(fields) + if tail.Some? then Weight(tail.value) else 0) + 1
    case _ => 1
  }

  function RowWeight(row: seq<Type>): nat
  {
    if row == [] then 0 else Weight(row[0]) + RowWeight(row[1..])
  }

  function LayoutWeight(lay: Layout): nat
  {
    RowWeight(lay.row) + if lay.tail.Some? then Weight(lay.tail.value) else 0
  }

  lemma {:induction false} RepeatWeight(e: Type, n: nat)
    ensures RowWeight(Repeat(e, n)) == n * Weight(e)
  {
    if n > 0 {
      hide Repeat, Weight;
      RepeatWeight(e, n - 1);
      RepeatFirst(e, n);
      assert n * Weight(e) == Weight(e) + (n - 1) * Weight(e);
    }
  }

  lemma RepeatFirst(e: Type, n: nat)
    requires n > 0
    ensures Repeat(e, n) != [] && Repeat(e, n)[0] == e && Repeat(e, n)[1..] == Repeat(e, n - 1)
  {
  }

  lemma WeightOfLayout(t: Type)
    requires IsList(t) && !t.TAny?
    ensures Weight(t) == 2 * LayoutWeight(LayoutOf(t)) + 1
  {
    if t.TArray? { RepeatWeight(t.elem, t.len); }
  }

  lemma {:induction false} RowWeightSplits(row: seq<Type>, i: nat)
    requires i <= |row|
    ensures RowWeight(row) == RowWeight(row[..i]) + RowWeight(row[i..])
  {
    if i > 0 {
      RowWeightSplits(row[1..], i - 1);
      assert row[1..][..i - 1] == row[..i][1..] && row[1..][i - 1..] == row[i..];
    }
  }

  /** A header is at most one byte longer than the content. */
  lemma ListBound(w: seq<byte>)
    ensures |EncList(w)| <= 2 * |w| + 1
  {
    BytesBound(|w|);
  }

  lemma {:induction false} BytesBound(n: nat)
    ensures |Bytes(n)| <= n
  {
    if n > 0 { BytesBound(n / 0x100); }
  }

  /** Item i of a list is no longer than its type's weight. */
  predicate LightAt(lay: Layout, vs: seq<Value>, i: nat)
    requires i < |vs|
  {
    Reads(lay, i) && HasType(TypeAt(lay, i), vs[i]) && |Enc(TypeAt(lay, i), vs[i])| <= Weight(TypeAt(lay, i))
  }

  lemma {:induction false} ItemsBound(lay: Layout, vs: seq<Value>)
    requires HasLayout(lay, vs) && |vs| <= |lay.row| + (if lay.tail.Some? then 1 else 0)
    requires forall i | 0 <= i < |vs| :: LightAt(lay, vs, i)
    ensures |EncItems(lay, vs)| <= LayoutWeight(lay)
    decreases |vs|
  {
    if vs != [] {
      assert LightAt(lay, vs, 0);
      var rest := lay.Rest();
      if lay.row != [] {
        forall i | 0 <= i < |vs[1..]| ensures LightAt(rest, vs[1..], i) { assert LightAt(lay, vs, i + 1); }
        ItemsBound(rest, vs[1..]);
      } else {
        assert vs[1..] == [];
      }
    }
  }

  lemma LightList(t: Type, vs: seq<Value>)
    requires IsList(t) && !t.TAny? && HasLayout(LayoutOf(t), vs)
    requires |vs| <= |LayoutOf(t).row| + (if LayoutOf(t).tail.Some? then 1 else 0)
    requires forall i | 0 <= i < |vs| :: LightAt(LayoutOf(t), vs, i)
    ensures |Enc(t, Items(vs))| <= Weight(t)
  {
    hide LightAt, LayoutWeight, Weight, EncList;
    ItemsBound(LayoutOf(t), vs);
    ListBound(EncItems(LayoutOf(t), vs));
    WeightOfLayout(t);
  }

  lemma LightZeros(n: nat)
    ensures |EncString(Zeros(n))| <= 2 * n + 1
  {
    BytesBound(n);
  }

  /** The sample of a type is no longer than its weight. */
  lemma {:induction false} SampleBound(t: Type)
    ensures Encodable(t, Sample(t)) && |Enc(t, Sample(t))| <= Weight(t)
  {
    SampleIsEncodable(t);
    match t
    case TByteArray(n) => LightZeros(n);
    case TSlice(e) => SampleBound(e); SampleList(t);
    case TArray(_, e) => SampleBound(e); SampleList(t);
    case TStruct(fields, tail) =>
      forall f | f in fields ensures LightSample(f) { SampleBound(f); }
      if tail.Some? { SampleBound(tail.value); }
      SampleList(t);
    case _ => assert Bytes(0) == [];
  }

  predicate LightSample(t: Type) { HasType(t, Sample(t)) && |Enc(t, Sample(t))| <= Weight(t) }

  lemma SampleList(t: Type)
    requires IsList(t) && !t.TAny? && HasType(t, Sample(t)) && forall e | Within(e, LayoutOf(t)) :: LightSample(e)
    ensures |Enc(t, Sample(t))| <= Weight(t)
  {
    hide Enc, Weight, Sample;
    SampleItems(t);
    var lay, vs := LayoutOf(t), Sample(t).vs;
    forall i | 0 <= i < |vs| ensures LightAt(lay, vs, i) { assert Within(TypeAt(lay, i), lay); }
    LightList(t, vs);
  }

  /** So is the plain value. */
  lemma {:induction false} PlainBound(t: Type)
    ensures |EncPlain(t)| <= Weight(t)
  {
    PlainIsPlain(t);
    match t
    case TByteArray(n) => if n != 1 { LightZeros(n); }
    case TSlice(e) => PlainList(t);
    case TArray(_, e) => PlainBound(e); PlainList(t);
    case TStruct(fields, tail) =>
      forall f | f in fields ensures |EncPlain(f)| <= Weight(f) { PlainBound(f); }
      PlainList(t);
    case _ => assert Bytes(0) == [];
  }

  lemma PlainItemsOf(t: Type)
    requires IsList(t) && !t.TAny?
    ensures Plain(t).Items? && |Plain(t).vs| == |LayoutOf(t).row|
    ensures forall i | 0 <= i < |Plain(t).vs| :: Plain(t).vs[i] == Plain(LayoutOf(t).row[i])
  {
  }

  lemma PlainList(t: Type)
    requires IsList(t) && !t.TAny? && IsPlain(t, Plain(t))
    requires forall e | e in LayoutOf(t).row :: |EncPlain(e)| <= Weight(e)
    ensures |EncPlain(t)| <= Weight(t)
  {
    hide Enc, Weight, Plain, Clean, NonNegative;
    PlainItemsOf(t);
    var lay, vs := LayoutOf(t), Plain(t).vs;
    forall i | 0 <= i < |vs| ensures LightAt(lay, vs, i) {
      PlainIsPlain(lay.row[i]);
      assert lay.row[i] in lay.row;
    }
    LightList(t, vs);
  }

  lemma {:induction false} PlainEncBound(row: seq<Type>)
    ensures |PlainEnc(row)| <= RowWeight(row)
  {
    hide EncPlain, Weight;
    if row != [] {
      PlainBound(row[0]);
      PlainEncBound(row[1..]);
    }
  }

  lemma {:induction false} AbsorbedBound(lay: Layout)
    requires lay.More() && Absorbs(lay)
    ensures |Absorbed(lay)| <= RowWeight(lay.row)
    decreases |lay.row|
  {
    hide Weight, PlainEnc;
    if lay.Head() != BYTE1 {
      PlainEncBound(lay.Rest().row);
    } else if lay.Rest().More() {
      AbsorbedBound(lay.Rest());
    }
  }

  /** And so are the inputs that break a law. */
  lemma {:induction false} WitnessBound(law: Law, t: Type)
    requires law != ReadsBack && !Throughout(law, t)
    ensures |Witness(law, t)| <= Weight(t)
    decreases t
  {
    BrokenIsList(law, t);
    hide Throughout, Keeps, Weight, RowWeight, PlainEnc, Absorbed, Absorbs, EncList;
    var lay := LayoutOf(t);
    WeightOfLayout(t);
    if Keeps(law, lay) {
      var i := BrokenIndex(law, t);
      WitnessBound(law, TypeAt(lay, i));
      MiddleBound(lay, i, Witness(law, TypeAt(lay, i)));
    } else if law == Ends {
      PlainEncBound(lay.row);
      ListBound(PlainEnc(lay.row) + [0]);
      TailWeighs(lay);
    } else {
      ZeroBound(lay, SwallowIndex(lay));
    }
  }

  lemma TailWeighs(lay: Layout)
    requires lay.tail.Some?
    ensures LayoutWeight(lay) > RowWeight(lay.row)
  {
  }

  lemma MiddleBound(lay: Layout, i: nat, inner: seq<byte>)
    requires Reads(lay, i) && i <= |lay.row| && |inner| <= Weight(TypeAt(lay, i))
    ensures var w := PlainEnc(lay.row[..i]) + (inner + PlainEnc(From(lay, i).Rest().row));
            |EncList(w)| <= 2 * LayoutWeight(lay) + 1
  {
    hide Weight, PlainEnc, EncList;
    PlainEncBound(lay.row[..i]);
    PlainEncBound(From(lay, i).Rest().row);
    RowWeightSplits(lay.row, i);
    ListBound(PlainEnc(lay.row[..i]) + (inner + PlainEnc(From(lay, i).Rest().row)));
  }

  lemma ZeroBound(lay: Layout, i: nat)
    requires SwallowsAt(lay, i)
    ensures var w := PlainEnc(lay.row[..i]) + ([0] + Absorbed(From(lay, i + 1)));
            |EncList(w)| <= 2 * LayoutWeight(lay) + 1
  {
    assert Weight(BYTE1) == 3;
    hide Weight, PlainEnc, EncList, Absorbed, Absorbs;
    PlainEncBound(lay.row[..i]);
    AbsorbedBound(From(lay, i + 1));
    RowWeightSplits(lay.row, i);
    assert lay.row[i..][1..] == From(lay, i + 1).row;
    ListBound(PlainEnc(lay.row[..i]) + ([0] + Absorbed(From(lay, i + 1))));
  }

  // ---------------------------------------------------------------- the laws are exact

  /** Outside the condition of `Bijection` some value's encoding does not decode to it. */
  lemma NoBijection(t: Type)
    requires !Throughout(ReadsBack, t)
    ensures var v := Sample(t);
            && Encodable(t, v) && |Enc(t, v)| <= Weight(t)
            && (|Enc(t, v)| < U64_LIMIT ==> DecodeSpec(t, Enc(t, v)) != Decoded.Value(v))
  {
    SampleIsNotClean(t);
    SampleBound(t);
    if |Enc(t, Sample(t))| < U64_LIMIT { RoundTrip(t, Sample(t)); }
  }

  /** Outside the condition of `CanonicalByType` some input is accepted that is not the encoding of what it is read
      as. */
  lemma NotCanonicalByType(t: Type)
    requires !Throughout(Rebuilds, t)
    ensures var b := Witness(Rebuilds, t);
            |b| <= Weight(t) && (|b| < U64_LIMIT ==> DecodeSpec(t, b).Value? && !CanonicalOn(t, b))
  {
    var b := Witness(Rebuilds, t);
    hide Witness;
    WitnessBound(Rebuilds, t);
    WitnessBreaks(Rebuilds, t);
    if |b| < U64_LIMIT { Canonicity(t, b); }
  }

  /** Outside the condition of `EndsByType` there is an input on which no number of iterations is enough. */
  lemma DivergesByType(t: Type)
    requires !Throughout(Ends, t)
    ensures var b := Witness(Ends, t);
            |b| <= Weight(t) && (|b| < U64_LIMIT ==> DecodeSpec(t, b) == Diverges && !EndsOn(t, b))
  {
    var b := Witness(Ends, t);
    hide Witness;
    WitnessBound(Ends, t);
    WitnessBreaks(Ends, t);
    if |b| < U64_LIMIT { DivergesIffUnfinished(t, b); }
  }

  /** If the value can be encoded at all, its encoding decodes to it. */
  ghost predicate Survives(t: Type, v: Value)
  {
    Encodable(t, v) && |Enc(t, v)| < U64_LIMIT ==> DecodeSpec(t, Enc(t, v)) == Decoded.Value(v)
  }

  /** If the input is accepted, it is the encoding of what it is read as. */
  ghost predicate CanonicalOn(t: Type, b: seq<byte>)
  {
    var d := DecodeSpec(t, b);
    d.Value? ==> Encodable(t, d.v) && Enc(t, d.v) == b
  }

  /** All values of a type survive if and only if no list in it has a `[1]byte` in front of another read. */
  lemma SurvivalIff(t: Type)
    requires Weight(t) < U64_LIMIT
    ensures Throughout(ReadsBack, t) <==> forall v :: Survives(t, v)
  {
    hide Throughout;
    if Throughout(ReadsBack, t) {
      forall v ensures Survives(t, v) {
        if Encodable(t, v) && |Enc(t, v)| < U64_LIMIT { Bijection(t, v, Enc(t, v)); }
      }
    } else {
      NoBijection(t);
      assert !Survives(t, Sample(t));
    }
  }

  /** All accepted inputs of a type are canonical if and only if no list in it has a `[1]byte` in front of reads that
      can go on from its zero. */
  lemma CanonicalIff(t: Type)
    requires Weight(t) < U64_LIMIT
    ensures Throughout(Rebuilds, t) <==> forall b :: CanonicalOn(t, b)
  {
    hide Throughout;
    if Throughout(Rebuilds, t) {
      forall b ensures CanonicalOn(t, b) {
        if DecodeSpec(t, b).Value? { CanonicalByType(t, b); }
      }
    } else {
      NotCanonicalByType(t);
      assert !CanonicalOn(t, Witness(Rebuilds, t));
    }
  }

  /** Decoding into a type ends on all inputs if and only if no list in it ends in a slice of `[1]byte`. */
  lemma TerminationIff(t: Type)
    requires Weight(t) < U64_LIMIT
    ensures Throughout(Ends, t) <==> forall b :: EndsOn(t, b)
  {
    hide Throughout;
    if Throughout(Ends, t) {
      forall b ensures EndsOn(t, b) { EndsByType(t, b); }
    } else {
      DivergesByType(t);
      assert !EndsOn(t, Witness(Ends, t));
    }
  }

  // ---------------------------------------------------------------- the smallest inputs that show it

  lemma OneLess(n: nat)
    requires n > 0
    ensures var lay := Layout(Repeat(BYTE1, n), None);
            lay.row != [] && lay.Head() == BYTE1 && lay.Rest() == Layout(Repeat(BYTE1, n - 1), None)
    ensures [Blob([0])] + Copies(Blob([0]), n - 1) == Copies(Blob([0]), n)
  {
  }

  /** A zero that is ahead already fills any number of elements. */
  lemma {:induction false} ZeroFills(n: nat, w: seq<byte>)
    requires w == []
    ensures ParseItems(Layout(Repeat(BYTE1, n), None), true, w) == Found(Copies(Blob([0]), n))
  {
    var lay := Layout(Repeat(BYTE1, n), None);
    if n == 0 {
      NothingMore(lay, true, w);
    } else {
      hide Parse, ParseItems, Repeat, Copies;
      ZeroFills(n - 1, w);
      OneLess(n);
      ArmedZero(BYTE1, w);
      ParseItemsStep(lay, true, w);
    }
  }

  lemma ReadZeroList(t: Type)
    requires IsList(t)
    ensures Parse(t, false, [0xC1, 0]) == AsList(ParseItems(LayoutOf(t), false, [0]), [])
  {
    hide Parse, ParseItems, LayoutOf;
    var b := [0xC1, 0];
    assert ReadHeader(b) == Some(Header(List, 1, 1)) && b[1..2] == [0];
    ParseIsAsList(t, b);
  }

  /** An array takes a single zero byte for all its elements, and from two elements on the result encodes to other
      bytes. */
  lemma ZeroArrayIsNotCanonical(n: nat)
    requires n > 0
    ensures var t, v := TArray(n, BYTE1), Items(Copies(Blob([0]), n));
            && DecodeSpec(t, [0xC1, 0]) == Decoded.Value(v) && HasType(t, v)
            && (Enc(t, v) == [0xC1, 0] <==> n == 1)
  {
    hide Parse, ParseItems, Enc, Clean, Repeat, Copies;
    var t, v := TArray(n, BYTE1), Items(Copies(Blob([0]), n));
    ZeroFills(n - 1, []);
    OneLess(n);
    assert [0] + [] == [0];
    FreshZero([]);
    ParseItemsStep(LayoutOf(t), false, [0]);
    ReadZeroList(t);
    Canonicity(t, [0xC1, 0]);
    ZerosClean(n);
  }

  lemma ZerosClean(n: nat)
    requires n > 0 && HasType(TArray(n, BYTE1), Items(Copies(Blob([0]), n)))
    ensures Clean(TArray(n, BYTE1), Items(Copies(Blob([0]), n))) <==> n == 1
  {
    var t, v := TArray(n, BYTE1), Items(Copies(Blob([0]), n));
    if n == 1 {
      assert Throughout(ReadsBack, t);
      SafeIsClean(t, v);
    } else if Clean(t, v) {
      CleanAt(LayoutOf(t), v.vs, 0);
    }
  }

  /** However long it runs, a slice of `[1]byte` holding one zero is never read to its end. */
  lemma ZeroSliceDiverges()
    ensures DecodeSpec(TSlice(BYTE1), [0xC1, 0]) == Diverges
    ensures !EndsOn(TSlice(BYTE1), [0xC1, 0])
  {
    hide Parse, ParseItems, Run;
    var t, lay := TSlice(BYTE1), Layout([], Some(BYTE1));
    ArmedZero(BYTE1, []);
    ParseItemsStep(lay, true, []);
    assert [0] + [] == [0];
    FreshZero([]);
    ParseItemsStep(lay, false, [0]);
    ReadZeroList(t);
    DivergesIffUnfinished(t, [0xC1, 0]);
  }
}
