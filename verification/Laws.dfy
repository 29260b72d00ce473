/** The laws of the codec by type: for which Go types every value survives, every accepted input is canonical, and
    decoding always ends.

    All three are about `[1]byte`, whose zero is read again by whatever is read next. Each law holds for a type if no
    list that a value of the type can contain is laid out in a certain way; the layouts differ from law to law. That
    it does not hold for other types is shown in `Witnesses`.
 */
module Laws {
  import opened BigEndian
  import opened Header
  import opened Wrappers
  import opened Codec
  import opened Iteration

  const BYTE1 := TByteArray(1)

  /** Encodings decode to their value; accepted inputs are encodings; decoding ends. */
  datatype Law = ReadsBack | Rebuilds | Ends

  /** What is left of a layout after k items. */
  function From(lay: Layout, k: nat): Layout { Layout(if k <= |lay.row| then lay.row[k..] else [], lay.tail) }

  /** The look-ahead is armed: the items of the layout can be read on from the zero byte. */
  predicate Absorbs(lay: Layout)
    requires lay.More()
    decreases |lay.row|
  {
    var head := lay.Head();
    || head.TBytes? || head.TAny? || head.TRaw?
    || (head == BYTE1 && lay.row != [] && (lay.Rest().More() ==> Absorbs(lay.Rest())))
  }

  /** The layout is fine as far as the law is concerned: `[1]byte` is not followed by another read; or by none that can
      go on from its zero; or the layout does not end in a slice of `[1]byte`. */
  predicate Keeps(law: Law, lay: Layout)
  {
    match law
    case ReadsBack =>
      (forall i | 0 <= i < |lay.row| && lay.row[i] == BYTE1 :: !From(lay, i + 1).More()) && lay.tail != Some(BYTE1)
    case Rebuilds =>
      forall i | 0 <= i < |lay.row| && lay.row[i] == BYTE1 && From(lay, i + 1).More() :: !Absorbs(From(lay, i + 1))
    case Ends => lay.tail != Some(BYTE1)
  }

  /** Every list in a value of the type is laid out in a way that is fine. */
  predicate Throughout(law: Law, t: Type)
  {
    && (IsList(t) ==> Keeps(law, LayoutOf(t)))
    && match t
       case TSlice(e) => Throughout(law, e)
       case TArray(n, e) => n > 0 ==> Throughout(law, e)
       case TStruct(fields, tail) =>
         (forall f | f in fields :: Throughout(law, f)) && (tail.Some? ==> Throughout(law, tail.value))
       case _ => true
  }

  predicate ThroughoutItems(law: Law, lay: Layout)
  {
    && Keeps(law, lay) && (forall f | f in lay.row :: Throughout(law, f))
    && (lay.tail.Some? ==> Throughout(law, lay.tail.value))
  }

  lemma ThroughoutLayout(law: Law, t: Type)
    requires IsList(t)
    ensures Throughout(law, t) <==> ThroughoutItems(law, LayoutOf(t))
  {
    if t.TArray? && t.len > 0 { assert LayoutOf(t).row[0] == t.elem; }
  }

  lemma KeepsRest(law: Law, lay: Layout)
    requires lay.More() && Keeps(law, lay)
    ensures Keeps(law, lay.Rest())
  {
    if lay.row != [] {
      var rest := lay.Rest();
      forall i | 0 <= i < |rest.row| ensures From(rest, i + 1) == From(lay, i + 2) && rest.row[i] == lay.row[i + 1] {}
    }
  }

  lemma ThroughoutRest(law: Law, lay: Layout)
    requires lay.More() && ThroughoutItems(law, lay)
    ensures ThroughoutItems(law, lay.Rest()) && Throughout(law, lay.Head())
  {
    KeepsRest(law, lay);
  }

  /** Reading back is the strongest of the laws. */
  lemma {:induction false} ReadsBackIsStrongest(t: Type, law: Law)
    requires Throughout(ReadsBack, t)
    ensures Throughout(law, t)
  {
    match t
    case TSlice(e) => ReadsBackIsStrongest(e, law);
    case TArray(n, e) => if n > 0 { ReadsBackIsStrongest(e, law); }
    case TStruct(fields, tail) =>
      forall f | f in fields ensures Throughout(law, f) { ReadsBackIsStrongest(f, law); }
      if tail.Some? { ReadsBackIsStrongest(tail.value, law); }
    case _ =>
  }

  // ---------------------------------------------------------------- items by index

  predicate Reads(lay: Layout, i: nat) { i < |lay.row| || lay.tail.Some? }

  function TypeAt(lay: Layout, i: nat): Type
    requires Reads(lay, i)
  {
    if i < |lay.row| then lay.row[i] else lay.tail.value
  }

  predicate FitsAt(lay: Layout, vs: seq<Value>, i: nat)
    requires i < |vs|
  {
    Reads(lay, i) && Encodable(TypeAt(lay, i), vs[i])
  }

  lemma {:induction false} FitsByIndex(lay: Layout, vs: seq<Value>)
    requires |vs| >= |lay.row| && forall i | 0 <= i < |vs| :: FitsAt(lay, vs, i)
    ensures AllEncodable(lay, vs)
    decreases |vs|
  {
    if vs != [] {
      assert FitsAt(lay, vs, 0);
      var rest := lay.Rest();
      forall i | 0 <= i < |vs[1..]| ensures FitsAt(rest, vs[1..], i) { assert FitsAt(lay, vs, i + 1); }
      FitsByIndex(rest, vs[1..]);
    }
  }

  /** What being clean says about item i. */
  lemma {:induction false} CleanAt(lay: Layout, vs: seq<Value>, i: nat)
    requires HasLayout(lay, vs) && CleanItems(lay, vs) && i < |vs|
    ensures Reads(lay, i) && HasType(TypeAt(lay, i), vs[i]) && Clean(TypeAt(lay, i), vs[i])
    ensures Dirty(TypeAt(lay, i), vs[i]) ==> !From(lay, i + 1).More()
    decreases |vs|
  {
    if i > 0 {
      CleanAt(lay.Rest(), vs[1..], i - 1);
      assert From(lay.Rest(), i) == From(lay, i + 1);
    } else {
      assert From(lay, 1) == lay.Rest();
    }
  }

  // ---------------------------------------------------------------- reading back

  lemma {:induction false} SafeIsClean(t: Type, v: Value)
    requires Throughout(ReadsBack, t) && HasType(t, v)
    ensures Clean(t, v)
    decreases v
  {
    if v.Items? {
      ThroughoutLayout(ReadsBack, t);
      SafeItemsAreClean(LayoutOf(t), v.vs);
    }
  }

  lemma {:induction false} SafeItemsAreClean(lay: Layout, vs: seq<Value>)
    requires HasLayout(lay, vs) && ThroughoutItems(ReadsBack, lay)
    ensures CleanItems(lay, vs)
    decreases vs
  {
    if vs != [] {
      ThroughoutRest(ReadsBack, lay);
      SafeIsClean(lay.Head(), vs[0]);
      SafeItemsAreClean(lay.Rest(), vs[1..]);
      assert From(lay, 1) == lay.Rest();
    }
  }

  /** A value with something in every slice, and zeros in every `[1]byte`. */
  function Sample(t: Type): Value
  {
    match t
    case TUint(_) => Num(0)
    case TBool => Flag(false)
    case TBytes => Blob([])
    case TBigInt => Num(0)
    case TByteArray(n) => Blob(Zeros(n))
    case TSlice(e) => Items([Sample(e)])
    case TArray(n, e) => Items(Copies(Sample(e), n))
    case TStruct(fields, tail) => Items(SampleRow(fields) + if tail.Some? then [Sample(tail.value)] else [])
    case TAny => Blob([])
    case TRaw => Blob([0x80])
  }

  function SampleRow(row: seq<Type>): (vs: seq<Value>)
    ensures |vs| == |row| && forall i | 0 <= i < |row| :: vs[i] == Sample(row[i])
  {
    if row == [] then [] else [Sample(row[0])] + SampleRow(row[1..])
  }

  function Copies(v: Value, n: nat): seq<Value> { seq(n, i => v) }

  /** The items of a sample are the samples of the types in its layout, one each. */
  lemma SampleItems(t: Type)
    requires IsList(t) && !t.TAny?
    ensures Sample(t).Items?
    ensures var lay, vs := LayoutOf(t), Sample(t).vs;
            && |vs| == |lay.row| + (if lay.tail.Some? then 1 else 0)
            && forall i | 0 <= i < |vs| :: Reads(lay, i) && vs[i] == Sample(TypeAt(lay, i))
  {
  }

  lemma RawEmpty()
    ensures IsOneValue([0x80])
  {
    assert ReadHeader([0x80]) == Some(Header(String, 1, 0));
  }

  lemma {:induction false} SampleIsEncodable(t: Type)
    ensures Encodable(t, Sample(t))
  {
    match t
    case TUint(w) => assert Span(w) > 0;
    case TRaw => RawEmpty();
    case TSlice(e) => SampleIsEncodable(e); SampleFits(t);
    case TArray(_, e) => SampleIsEncodable(e); SampleFits(t);
    case TStruct(fields, tail) =>
      forall f | f in fields ensures Encodable(f, Sample(f)) { SampleIsEncodable(f); }
      if tail.Some? { SampleIsEncodable(tail.value); }
      SampleFits(t);
    case _ =>
  }

  /** A type that a list of type t reads somewhere. */
  predicate Within(e: Type, lay: Layout) { e in lay.row || lay.tail == Some(e) }

  lemma SampleFits(t: Type)
    requires IsList(t) && !t.TAny? && forall e | Within(e, LayoutOf(t)) :: Encodable(e, Sample(e))
    ensures Encodable(t, Sample(t))
  {
    SampleItems(t);
    var lay, vs := LayoutOf(t), Sample(t).vs;
    forall i | 0 <= i < |vs| ensures FitsAt(lay, vs, i) { assert Within(TypeAt(lay, i), lay); }
    FitsByIndex(lay, vs);
  }

  /** Where a layout is not fine, a zero is followed by another read. */
  lemma UnsafeAt(lay: Layout) returns (i: nat)
    requires !Keeps(ReadsBack, lay)
    ensures Reads(lay, i) && i <= |lay.row| && TypeAt(lay, i) == BYTE1 && From(lay, i + 1).More()
  {
    if lay.tail == Some(BYTE1) {
      i := |lay.row|;
    } else {
      i :| 0 <= i < |lay.row| && lay.row[i] == BYTE1 && From(lay, i + 1).More();
    }
  }

  /** A type inside a type. */
  lemma BrokenInside(law: Law, t: Type) returns (i: nat)
    requires IsList(t) && !Throughout(law, t) && Keeps(law, LayoutOf(t))
    ensures var lay := LayoutOf(t);
            Reads(lay, i) && i <= |lay.row| && !Throughout(law, TypeAt(lay, i)) && TypeAt(lay, i) < t
  {
    var lay := LayoutOf(t);
    if lay.tail.Some? && !Throughout(law, lay.tail.value) {
      i := |lay.row|;
    } else {
      ThroughoutLayout(law, t);
      i :| 0 <= i < |lay.row| && !Throughout(law, lay.row[i]);
    }
  }

  /** Only lists of given types can be laid out badly. */
  lemma BrokenIsList(law: Law, t: Type)
    requires !Throughout(law, t)
    ensures IsList(t) && !t.TAny?
  {
  }

  lemma {:induction false} SampleIsNotClean(t: Type)
    requires !Throughout(ReadsBack, t)
    ensures Encodable(t, Sample(t)) && !Clean(t, Sample(t))
  {
    assert Dirty(BYTE1, Sample(BYTE1));
    hide Throughout, Keeps, Sample;
    BrokenIsList(ReadsBack, t);
    SampleIsEncodable(t);
    SampleItems(t);
    var lay, vs := LayoutOf(t), Sample(t).vs;
    var i;
    if Keeps(ReadsBack, lay) {
      i := BrokenInside(ReadsBack, t);
      SampleIsNotClean(TypeAt(lay, i));
    } else {
      i := UnsafeAt(lay);
    }
    if Clean(t, Sample(t)) { CleanAt(lay, vs, i); }
  }

  /** Every value of a type survives if and only if no list in it has a `[1]byte` in front of another read. */
  lemma SafeIffClean(t: Type)
    ensures Throughout(ReadsBack, t) <==> forall v | Encodable(t, v) :: Clean(t, v)
  {
    if Throughout(ReadsBack, t) {
      forall v | Encodable(t, v) ensures Clean(t, v) { SafeIsClean(t, v); }
    } else {
      SampleIsNotClean(t);
    }
  }

  /** For these types accepted inputs and encodable values are in bijection. */
  lemma Bijection(t: Type, v: Value, b: seq<byte>)
    requires Throughout(ReadsBack, t) && |b| < U64_LIMIT
    ensures DecodeSpec(t, b) == Decoded.Value(v) <==> Encodable(t, v) && Enc(t, v) == b
  {
    if DecodeSpec(t, b) == Decoded.Value(v) {
      Canonicity(t, b);
      SafeIsClean(t, v);
    }
    if Encodable(t, v) && Enc(t, v) == b {
      SafeIsClean(t, v);
      RoundTrip(t, v);
    }
  }

  // ---------------------------------------------------------------- canonical inputs

  /** Which types take a zero byte, and what they make of it. */
  lemma ZeroScalar(t: Type)
    requires !t.TRaw?
    ensures Scalar(t, Byte, [0]) == if t.TBytes? || t.TAny? || t == BYTE1 then Some(Blob([0])) else None
  {
    assert !NoLeadingZero([0]);
  }

  lemma ArmedZero(t: Type, w: seq<byte>)
    ensures Parse(t, true, w) == if t.TRaw? || t.TBytes? || t.TAny? then Ok(Blob([0]), false, w)
                                 else if t == BYTE1 then Ok(Blob([0]), true, w) else Err
  {
    hide Scalar, ReadHeader, ParseItems;
    if !t.TRaw? { ZeroScalar(t); }
  }

  /** Only `[1]byte` leaves the look-ahead armed. */
  lemma OnlyByte1Arms(t: Type, armed: bool, w: seq<byte>)
    requires Parse(t, armed, w).Ok? && Parse(t, armed, w).armed
    ensures t == BYTE1
  {
    hide Parse, Enc, Clean;
    ParseAccounts(t, armed, w);
  }

  /** Reading on from the zero fails, or does not end, if the layout does not absorb it. */
  lemma {:induction false} ArmedFails(lay: Layout, w: seq<byte>)
    requires lay.More() && !Absorbs(lay)
    ensures !ParseItems(lay, true, w).Found?
    decreases |lay.row|
  {
    hide Parse, ParseItems;
    ParseItemsStep(lay, true, w);
    ArmedZero(lay.Head(), w);
    if lay.Head() == BYTE1 && lay.row != [] { ArmedFails(lay.Rest(), w); }
  }

  lemma NoListIsRead(t: Type, w: seq<byte>)
    requires w == [] || ReadHeader(w).None? || ReadHeader(w).value.kind != List || !IsList(t)
    ensures Parse(t, false, w).Ok? ==> !Parse(t, false, w).v.Items?
  {
    hide ReadHeader, ParseItems;
  }

  lemma {:induction false} RebuiltIsClean(t: Type, w: seq<byte>)
    requires Throughout(Rebuilds, t) && Parse(t, false, w).Ok?
    ensures var v := Parse(t, false, w).v; HasType(t, v) && Clean(t, v)
    decreases |w|, 0
  {
    hide Parse, ParseItems, ReadHeader, Enc;
    ParseAccounts(t, false, w);
    if w != [] && ReadHeader(w).Some? && ReadHeader(w).value.kind == List && IsList(t) {
      var h := ReadHeader(w).value;
      ThroughoutLayout(Rebuilds, t);
      ParseIsAsList(t, w);
      RebuiltItemsAreClean(LayoutOf(t), w[h.tag..h.tag + h.size]);
    } else {
      NoListIsRead(t, w);
    }
  }

  lemma {:induction false} RebuiltItemsAreClean(lay: Layout, w: seq<byte>)
    requires ThroughoutItems(Rebuilds, lay) && ParseItems(lay, false, w).Found?
    ensures var vs := ParseItems(lay, false, w).vs; HasLayout(lay, vs) && CleanItems(lay, vs)
    decreases |w|, 1
  {
    hide Enc, Parse, ParseItems, EncItems, ThroughoutItems;
    ParseItemsAccounts(lay, false, w);
    var vs := ParseItems(lay, false, w).vs;
    if vs != [] {
      ParseItemsStep(lay, false, w);
      ThroughoutRest(Rebuilds, lay);
      var p := Parse(lay.Head(), false, w);
      ParseAccounts(lay.Head(), false, w);
      RebuiltIsClean(lay.Head(), w);
      if !p.armed {
        RebuiltItemsAreClean(lay.Rest(), p.rest);
        assert vs[1..] == ParseItems(lay.Rest(), false, p.rest).vs;
      } else if lay.Rest().More() {
        assert !Absorbs(lay.Rest()) by { KeepsHead(lay); }
        ArmedFails(lay.Rest(), p.rest);
        assert false;
      } else {
        NothingMore(lay.Rest(), true, p.rest);
        assert vs[1..] == [];
      }
    }
  }

  /** A `[1]byte` in front is not followed by something that goes on from its zero. */
  lemma KeepsHead(lay: Layout)
    requires ThroughoutItems(Rebuilds, lay) && lay.More() && lay.Head() == BYTE1 && lay.Rest().More()
    ensures !Absorbs(lay.Rest())
  {
    if lay.row != [] {
      assert From(lay, 1) == lay.Rest() && lay.row[0] == BYTE1;
    }
  }

  // ---------------------------------------------------------------- the end of decoding

  function Max(a: nat, b: nat): nat { if a < b then b else a }

  /** The length of the longest row of any list in the type. */
  function Longest(t: Type): nat
  {
    match t
    case TSlice(e) => Longest(e)
    case TArray(n, e) => Max(n, Longest(e))
    case TStruct(fields, tail) =>
      Max(|fields|, Max(LongestOf(fields), if tail.Some? then Longest(tail.value) else 0))
    case _ => 0
  }

  function LongestOf(row: seq<Type>): nat
  {
    if row == [] then 0 else Max(Longest(row[0]), LongestOf(row[1..]))
  }

  predicate RowsWithin(lay: Layout, r: nat)
  {
    (forall f | f in lay.row :: Longest(f) <= r) && (lay.tail.Some? ==> Longest(lay.tail.value) <= r)
  }

  lemma {:induction false} LongestMember(row: seq<Type>, f: Type)
    requires f in row
    ensures Longest(f) <= LongestOf(row)
  {
    if f != row[0] { LongestMember(row[1..], f); }
  }

  lemma LongestLayout(t: Type, r: nat)
    requires IsList(t) && Longest(t) <= r
    ensures |LayoutOf(t).row| <= r && RowsWithin(LayoutOf(t), r)
  {
    if t.TStruct? {
      forall f | f in t.fields ensures Longest(f) <= Longest(t) { LongestMember(t.fields, f); }
    }
  }

  /** Iterations that are enough for the items of a list of n bytes, if rows have at most r members: one per member and
      byte, one for a zero that is read twice, one to see the end, and those for a list inside. */
  function Enough(r: nat, n: nat): nat
  {
    r + n + 2 + if n == 0 then 0 else Enough(r, n - 1)
  }

  lemma {:induction false} EnoughGrows(r: nat, m: nat, n: nat)
    requires m <= n
    ensures Enough(r, m) <= Enough(r, n)
  {
    if m < n { EnoughGrows(r, m, n - 1); }
  }

  lemma {:induction false} EnoughBound(r: nat, n: nat)
    ensures Enough(r, n) <= (n + 1) * (r + n + 2)
  {
    if n > 0 {
      EnoughBound(r, n - 1);
      assert (n + 1) * (r + n + 2) == n * (r + n + 1) + n + (r + n + 2);
    }
  }

  /** Iterations that are enough for whatever lies within n bytes. */
  function EnoughInside(r: nat, n: nat): nat { if n == 0 then 0 else Enough(r, n - 1) }

  lemma {:induction false} ValueEnds(k: nat, t: Type, armed: bool, w: seq<byte>, r: nat)
    requires Throughout(Ends, t) && Longest(t) <= r && k >= EnoughInside(r, |w|)
    ensures !Run(k, t, armed, w).Loop?
    decreases |w|, 0, armed
  {
    if armed || w == [] || ReadHeader(w).None? || ReadHeader(w).value.kind != List || !IsList(t) {
      NoLoop(k, t, armed, w);
    } else {
      hide Run, RunItems, ReadHeader, Throughout, ThroughoutItems, RowsWithin, EnoughInside, Longest;
      var h := ReadHeader(w).value;
      var content := w[h.tag..h.tag + h.size];
      RunIsAsList(k, t, w);
      ThroughoutLayout(Ends, t);
      LongestLayout(t, r);
      InsideList(r, LayoutOf(t), content, |w|);
      ItemsEnd(k, LayoutOf(t), false, content, r);
    }
  }

  /** Iterations that are enough for a value are enough for the items of a list. */
  lemma InsideList(r: nat, lay: Layout, content: seq<byte>, n: nat)
    requires |lay.row| <= r && |content| < n
    ensures ToRead(lay, false, content) + EnoughInside(r, |content|) < EnoughInside(r, n)
  {
    EnoughGrows(r, |content|, n - 1);
  }

  /** What bounds the iterations of a loop that is about to read w: members, bytes, and a zero that is ahead. */
  function ToRead(lay: Layout, armed: bool, w: seq<byte>): nat { |lay.row| + |w| + if armed then 1 else 0 }

  lemma {:induction false} ItemsEnd(k: nat, lay: Layout, armed: bool, w: seq<byte>, r: nat)
    requires ThroughoutItems(Ends, lay) && RowsWithin(lay, r) && k > ToRead(lay, armed, w) + EnoughInside(r, |w|)
    ensures !RunItems(k, lay, armed, w).Endless?
    decreases |w|, 1, armed, |lay.row|
  {
    hide Run, RunItems, Parse, ThroughoutItems, RowsWithin, EnoughInside;
    if !lay.More() {
      NoItems(k, lay, armed, w);
    } else {
      HeadWithin(lay, r);
      ValueEnds(k - 1, lay.Head(), armed, w, r);
      RunIsParse(k - 1, lay.Head(), armed, w);
      RunItemsStep(k, lay, armed, w);
      var p := Parse(lay.Head(), armed, w);
      if p.Ok? {
        Progress(lay, armed, w);
        InsideGrows(r, |p.rest|, |w|);
        ItemsEnd(k - 1, lay.Rest(), p.armed, p.rest, r);
      }
    }
  }

  lemma NoItems(k: nat, lay: Layout, armed: bool, w: seq<byte>)
    requires !lay.More()
    ensures !RunItems(k, lay, armed, w).Endless?
  {
  }

  lemma HeadWithin(lay: Layout, r: nat)
    requires lay.More() && ThroughoutItems(Ends, lay) && RowsWithin(lay, r)
    ensures Throughout(Ends, lay.Head()) && Longest(lay.Head()) <= r
    ensures ThroughoutItems(Ends, lay.Rest()) && RowsWithin(lay.Rest(), r)
  {
    hide Throughout, Longest;
    ThroughoutRest(Ends, lay);
  }

  /** Every item read leaves less to read. */
  lemma Progress(lay: Layout, armed: bool, w: seq<byte>)
    requires lay.More() && ThroughoutItems(Ends, lay) && Parse(lay.Head(), armed, w).Ok?
    ensures var p := Parse(lay.Head(), armed, w);
            && |p.rest| <= |w| && ToRead(lay.Rest(), p.armed, p.rest) < ToRead(lay, armed, w)
            && (armed && p.armed ==> lay.row != []) && (armed ==> p.rest == w) && (!armed ==> |p.rest| < |w|)
  {
    hide Parse, Throughout;
    if Parse(lay.Head(), armed, w).armed { OnlyByte1Arms(lay.Head(), armed, w); }
  }

  lemma InsideGrows(r: nat, m: nat, n: nat)
    requires m <= n
    ensures EnoughInside(r, m) <= EnoughInside(r, n)
  {
    if m > 0 { EnoughGrows(r, m - 1, n - 1); }
  }

  /** In these types decoding ends on every input, and a number of iterations that is enough is given by the length of
      the input and the longest row of the type. */
  lemma EndsByType(t: Type, b: seq<byte>)
    requires Throughout(Ends, t)
    ensures var k := (|b| + 1) * (Longest(t) + |b| + 2);
            !Run(k, t, false, b).Loop? && Run(k, t, false, b) == Parse(t, false, b)
    ensures EndsOn(t, b)
  {
    hide Run, Parse, Throughout, Longest;
    var r := Longest(t);
    EnoughBound(r, |b|);
    InsideGrows(r, |b|, |b| + 1);
    ValueEnds((|b| + 1) * (r + |b| + 2), t, false, b, r);
    RunIsParse((|b| + 1) * (r + |b| + 2), t, false, b);
  }

  lemma NothingMore(lay: Layout, armed: bool, w: seq<byte>)
    requires !lay.More()
    ensures ParseItems(lay, armed, w) == if w == [] then Found([]) else Bad
  {
  }

  /** In these types whatever is accepted re-encodes to the accepted bytes. */
  lemma CanonicalByType(t: Type, b: seq<byte>)
    requires Throughout(Rebuilds, t) && DecodeSpec(t, b).Value?
    ensures var v := DecodeSpec(t, b).v; Encodable(t, v) && Enc(t, v) == b
  {
    hide Parse, Enc;
    Canonicity(t, b);
    RebuiltIsClean(t, b);
  }
}
