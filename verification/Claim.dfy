/** Cross-chain claims: a payload is an RLP list of packages, and each package carries a fixed header and the
    RLP encoding of a record whose type depends on the channel and the package type.

    Parsing is proved to be the exact inverse of building such payloads.
 */
module Claim {
  import opened BigEndian
  import opened Header
  import opened Wrappers
  import opened Codec
  import opened Laws
  import opened Stream
  import opened Decoder

  const PACKAGE_TYPE_LENGTH := 1
  const CROSS_CHAIN_FEE_LENGTH := 32
  const PACKAGE_HEADER_LENGTH := PACKAGE_TYPE_LENGTH + CROSS_CHAIN_FEE_LENGTH

  const SYN: byte := 0
  const ACK: byte := 1
  const FAIL_ACK: byte := 2

  // ---------------------------------------------------------------- record types

  function Struct(fields: seq<Type>): Type { TStruct(fields, None) }

  const ApproveBindSynPackage := Struct([TUint(4), TByteArray(32)])
  const BindSynPackage :=
    Struct([TUint(1), TByteArray(32), TByteArray(20), TBigInt, TBigInt, TUint(1), TUint(8)])
  const TransferOutRefundPackage := Struct([TByteArray(32), TBigInt, TBytes, TUint(4)])
  const TransferOutSynPackage :=
    Struct([TByteArray(32), TByteArray(20), TBigInt, TByteArray(20), TBytes, TUint(8)])
  const TransferInSynPackage :=
    Struct([TByteArray(32), TByteArray(20), TSlice(TBigInt), TSlice(TBytes), TSlice(TByteArray(20)), TUint(8)])
  const CommonAckPackage := Struct([TUint(4)])
  const IbcValidator := Struct([TBytes, TBytes, TBytes, TUint(8)])
  const IbcValidatorSetPackage := Struct([TUint(1), TSlice(IbcValidator)])
  const CrossParamChange := Struct([TBytes, TBytes, TBytes])
  const SideDowntimeSlashPackage := Struct([TBytes, TUint(8), TUint(2), TUint(8)])

  /** An entry of the table of record types: a record, or a function that panics. */
  datatype Proto = Record(t: Type) | NoneExist

  /** The record types by channel and package type. */
  function ProtoMetrics(): map<byte, map<byte, Proto>>
  {
    map[
      1 := map[SYN := Record(ApproveBindSynPackage), ACK := NoneExist, FAIL_ACK := Record(BindSynPackage)],
      2 := map[SYN := NoneExist, ACK := Record(TransferOutRefundPackage), FAIL_ACK := Record(TransferOutSynPackage)],
      3 := map[SYN := Record(TransferInSynPackage), ACK := NoneExist, FAIL_ACK := NoneExist],
      8 := map[SYN := NoneExist, ACK := Record(CommonAckPackage), FAIL_ACK := Record(IbcValidatorSetPackage)],
      9 := map[SYN := NoneExist, ACK := Record(CommonAckPackage), FAIL_ACK := Record(CrossParamChange)],
      11 := map[SYN := Record(SideDowntimeSlashPackage), ACK := NoneExist, FAIL_ACK := NoneExist]
    ]
  }

  /** The record type of a channel and package type, if there is a real one. */
  function RecordType(channel: byte, ptype: byte): Option<Type>
  {
    if channel in ProtoMetrics() && ptype in ProtoMetrics()[channel] && ProtoMetrics()[channel][ptype].Record?
    then Some(ProtoMetrics()[channel][ptype].t) else None
  }

  const PackageType := Struct([TUint(1), TUint(8), TBytes])
  const PackagesType := TSlice(PackageType)

  /** Structs and slices without `[1]byte` as a direct member are safe if their members are. */
  lemma StructIsSafe(fields: seq<Type>)
    requires forall i | 0 <= i < |fields| :: fields[i] != BYTE1 && Throughout(ReadsBack, fields[i])
    ensures Throughout(ReadsBack, Struct(fields))
  {
  }

  lemma SliceIsSafe(e: Type)
    requires e != BYTE1 && Throughout(ReadsBack, e)
    ensures Throughout(ReadsBack, TSlice(e))
  {
  }

  lemma ScalarIsSafe(t: Type)
    requires !IsList(t)
    ensures Throughout(ReadsBack, t)
  {
  }

  /** A struct of scalars other than `[1]byte`. */
  lemma RecordIsSafe(fields: seq<Type>)
    requires forall i | 0 <= i < |fields| :: fields[i] != BYTE1 && !IsList(fields[i])
    ensures Throughout(ReadsBack, Struct(fields))
  {
    forall i | 0 <= i < |fields| ensures Throughout(ReadsBack, fields[i]) { ScalarIsSafe(fields[i]); }
    StructIsSafe(fields);
  }

  lemma NestedRecordsAreSafe()
    ensures Throughout(ReadsBack, TransferInSynPackage) && Throughout(ReadsBack, IbcValidatorSetPackage)
  {
    hide Throughout;
    ScalarIsSafe(TBigInt);
    ScalarIsSafe(TBytes);
    ScalarIsSafe(TByteArray(20));
    ScalarIsSafe(TByteArray(32));
    ScalarIsSafe(TUint(8));
    ScalarIsSafe(TUint(1));
    SliceIsSafe(TBigInt);
    SliceIsSafe(TBytes);
    SliceIsSafe(TByteArray(20));
    StructIsSafe(TransferInSynPackage.fields);
    RecordIsSafe(IbcValidator.fields);
    SliceIsSafe(IbcValidator);
    StructIsSafe(IbcValidatorSetPackage.fields);
  }

  lemma FlatRecordsAreSafe()
    ensures Throughout(ReadsBack, ApproveBindSynPackage) && Throughout(ReadsBack, BindSynPackage)
    ensures Throughout(ReadsBack, TransferOutRefundPackage) && Throughout(ReadsBack, TransferOutSynPackage)
    ensures Throughout(ReadsBack, CommonAckPackage) && Throughout(ReadsBack, CrossParamChange)
    ensures Throughout(ReadsBack, SideDowntimeSlashPackage)
  {
    hide Throughout;
    RecordIsSafe(ApproveBindSynPackage.fields);
    RecordIsSafe(BindSynPackage.fields);
    RecordIsSafe(TransferOutRefundPackage.fields);
    RecordIsSafe(TransferOutSynPackage.fields);
    RecordIsSafe(CommonAckPackage.fields);
    RecordIsSafe(CrossParamChange.fields);
    RecordIsSafe(SideDowntimeSlashPackage.fields);
  }

  lemma RecordTypesAreSafe(channel: byte, ptype: byte)
    ensures RecordType(channel, ptype).Some? ==> Throughout(ReadsBack, RecordType(channel, ptype).value)
  {
    hide Throughout;
    FlatRecordsAreSafe();
    NestedRecordsAreSafe();
  }

  lemma PackagesTypeIsSafe()
    ensures Throughout(ReadsBack, PackagesType)
  {
    hide Throughout;
    RecordIsSafe(PackageType.fields);
    SliceIsSafe(PackageType);
  }

  // ---------------------------------------------------------------- parsing

  datatype Package = Package(channel: byte, sequence: u64, payload: seq<byte>)

  datatype CrossChainPackage = CrossChainPackage(ptype: byte, fee: nat, content: Value)

  datatype Outcome<+T> = Parsed(value: T) | Rejected | Panicked

  /** The package type and relay fee at the front of a package payload. */
  function DecodePackageHeader(header: seq<byte>): Option<(byte, nat)>
  {
    if |header| < PACKAGE_HEADER_LENGTH then None
    else Some((header[0], Number(header[PACKAGE_TYPE_LENGTH..PACKAGE_HEADER_LENGTH])))
  }

  /** What becomes of one package. */
  function ParsePackage(p: Package): Outcome<CrossChainPackage>
  {
    match DecodePackageHeader(p.payload)
    case None => Rejected
    case Some((ptype, fee)) =>
      if p.channel !in ProtoMetrics() || ptype !in ProtoMetrics()[p.channel] then Rejected
      else match ProtoMetrics()[p.channel][ptype]
        case NoneExist => Panicked
        case Record(t) =>
          match DecodeSpec(t, p.payload[PACKAGE_HEADER_LENGTH..])
          case Value(v) => Parsed(CrossChainPackage(ptype, fee, v))
          case _ => Rejected
  }

  function ParsePackages(ps: seq<Package>): Outcome<seq<CrossChainPackage>>
  {
    if ps == [] then Parsed([])
    else match ParsePackage(ps[0])
      case Rejected => Rejected
      case Panicked => Panicked
      case Parsed(first) =>
        match ParsePackages(ps[1..])
        case Parsed(rest) => Parsed([first] + rest)
        case other => other
  }

  /** The packages in a decoded payload. */
  function PackageOf(v: Value): Package
    requires HasType(PackageType, v)
  {
    PackageShape(v);
    Package(v.vs[0].n, v.vs[1].n, v.vs[2].bs)
  }

  function PackagesOf(vs: seq<Value>): seq<Package>
    requires HasLayout(LayoutOf(PackagesType), vs)
  {
    if vs == [] then [] else [PackageOf(vs[0])] + PackagesOf(vs[1..])
  }

  function ValueOf(p: Package): Value { Items([Num(p.channel), Num(p.sequence), Blob(p.payload)]) }

  function ValuesOf(ps: seq<Package>): seq<Value>
  {
    if ps == [] then [] else [ValueOf(ps[0])] + ValuesOf(ps[1..])
  }

  /** A row of three types, spelled out. */
  lemma RowOfThree(a: Type, b: Type, c: Type, vs: seq<Value>)
    ensures var lay := Layout([a, b, c], None);
            && (HasLayout(lay, vs) <==> |vs| == 3 && HasType(a, vs[0]) && HasType(b, vs[1]) && HasType(c, vs[2]))
            && (HasLayout(lay, vs) ==> EncItems(lay, vs) == Enc(a, vs[0]) + Enc(b, vs[1]) + Enc(c, vs[2]))
            && (|vs| == 3 ==> (AllNonNegative(vs) <==> NonNegative(vs[0]) && NonNegative(vs[1]) && NonNegative(vs[2])))
  {
    hide HasLayout, EncItems, AllNonNegative, HasType, NonNegative, Enc;
    var l0, l1, l2, l3 := Layout([a, b, c], None), Layout([b, c], None), Layout([c], None), Layout([], None);
    assert l0.Rest() == l1 && l1.Rest() == l2 && l2.Rest() == l3;
    RowLength(l0, vs);
    if |vs| == 3 {
      assert vs[1..][1..] == vs[2..] && vs[2..][1..] == [];
      NoItems();
      OneMore(l2, vs[2..]);
      OneMore(l1, vs[1..]);
      OneMore(l0, vs);
      if HasLayout(l0, vs) { assert EncItems(l2, vs[2..]) == Enc(c, vs[2]); }
    }
  }

  lemma NoItems()
    ensures HasLayout(Layout([], None), []) && EncItems(Layout([], None), []) == [] && AllNonNegative([])
  {
  }

  lemma OneMore(lay: Layout, vs: seq<Value>)
    requires vs != [] && lay.row != []
    ensures HasLayout(lay, vs) <==> HasType(lay.row[0], vs[0]) && HasLayout(lay.Rest(), vs[1..])
    ensures HasLayout(lay, vs) ==> EncItems(lay, vs) == Enc(lay.row[0], vs[0]) + EncItems(lay.Rest(), vs[1..])
    ensures AllNonNegative(vs) <==> NonNegative(vs[0]) && AllNonNegative(vs[1..])
  {
    hide HasType, Enc, NonNegative;
  }

  lemma {:induction false} RowLength(lay: Layout, vs: seq<Value>)
    requires lay.tail.None?
    ensures HasLayout(lay, vs) ==> |vs| == |lay.row|
    decreases |vs|
  {
    if vs != [] && lay.More() { RowLength(lay.Rest(), vs[1..]); }
  }

  lemma PackageShape(v: Value)
    requires HasType(PackageType, v)
    ensures v.Items? && |v.vs| == 3 && v.vs[0].Num? && v.vs[1].Num? && v.vs[2].Blob?
    ensures 0 <= v.vs[0].n < 0x100 && 0 <= v.vs[1].n < U64_LIMIT
    ensures |v.vs[2].bs| <= |Enc(PackageType, v)|
  {
    RowOfThree(TUint(1), TUint(8), TBytes, v.vs);
    SpanValues();
  }

  /** Package values and packages are the same thing. */
  lemma PackageValues(p: Package)
    ensures Encodable(PackageType, ValueOf(p)) && PackageOf(ValueOf(p)) == p
  {
    RowOfThree(TUint(1), TUint(8), TBytes, ValueOf(p).vs);
    SpanValues();
  }

  lemma {:induction false} PackagesValues(ps: seq<Package>)
    ensures AllEncodable(LayoutOf(PackagesType), ValuesOf(ps)) && PackagesOf(ValuesOf(ps)) == ps
  {
    if ps != [] {
      PackageValues(ps[0]);
      PackagesValues(ps[1..]);
      assert ValuesOf(ps)[1..] == ValuesOf(ps[1..]);
    }
  }

  lemma {:induction false} ValuesPackages(vs: seq<Value>)
    requires HasLayout(LayoutOf(PackagesType), vs)
    ensures ValuesOf(PackagesOf(vs)) == vs
  {
    if vs != [] {
      PackageShape(vs[0]);
      assert vs[0].vs == [vs[0].vs[0], vs[0].vs[1], vs[0].vs[2]];
      ValuesPackages(vs[1..]);
    }
  }

  /** What ParseClaimPayload makes of a payload. */
  function ClaimSpec(payload: seq<byte>): Outcome<seq<CrossChainPackage>>
  {
    match DecodeSpec(PackagesType, payload)
    case Value(v) => ParseAccounts(PackagesType, false, payload); ParsePackages(PackagesOf(v.vs))
    case _ => Rejected
  }

  lemma {:induction false} PayloadsFit(vs: seq<Value>, i: nat)
    requires AllEncodable(LayoutOf(PackagesType), vs) && i < |vs| == |PackagesOf(vs)|
    ensures |PackagesOf(vs)[i].payload| <= |EncItems(LayoutOf(PackagesType), vs)|
  {
    if i == 0 {
      PackageShape(vs[0]);
    } else {
      PayloadsFit(vs[1..], i - 1);
    }
  }

  /** One round of the parsing loop. */
  method ParseOne(s: Stream, p: Package) returns (r: Outcome<CrossChainPackage>)
    requires |p.payload| < U64_LIMIT
    modifies s
    ensures r == ParsePackage(p)
  {
    hide Parse;
    var header := DecodePackageHeader(p.payload);
    if header.None? { return Rejected; }
    var (ptype, fee) := header.value;
    if p.channel !in ProtoMetrics() { return Rejected; }
    if ptype !in ProtoMetrics()[p.channel] { return Rejected; }
    var proto := ProtoMetrics()[p.channel][ptype];
    if proto.NoneExist? { return Panicked; }
    var content, err := DecodeBytes(s, p.payload[PACKAGE_HEADER_LENGTH..], proto.t);
    if err != Nil { return Rejected; }
    return Parsed(CrossChainPackage(ptype, fee, content));
  }

  function Prefixed(done: seq<CrossChainPackage>, r: Outcome<seq<CrossChainPackage>>): Outcome<seq<CrossChainPackage>>
  {
    match r
    case Parsed(rest) => Parsed(done + rest)
    case other => other
  }

  lemma PrefixedStep(done: seq<CrossChainPackage>, one: CrossChainPackage, ps: seq<Package>)
    requires ps != [] && ParsePackage(ps[0]) == Parsed(one)
    ensures Prefixed(done, ParsePackages(ps)) == Prefixed(done + [one], ParsePackages(ps[1..]))
  {
    var rest := ParsePackages(ps[1..]);
    if rest.Parsed? {
      assert done + ([one] + rest.value) == done + [one] + rest.value;
    }
  }

  method ParseClaimPayload(s: Stream, payload: seq<byte>) returns (r: Outcome<seq<CrossChainPackage>>)
    requires |payload| < U64_LIMIT
    modifies s
    ensures r == ClaimSpec(payload)
  {
    hide Parse, Throughout, HasType, ParsePackage;
    var v, err := DecodeBytes(s, payload, PackagesType);
    if err != Nil { return Rejected; }
    ghost var vs := DecodedPackages(payload);
    var packages := PackagesOf(v.vs);
    var decoded := [];
    assert packages[0..] == packages;
    assert ClaimSpec(payload).Parsed? ==> [] + ClaimSpec(payload).value == ClaimSpec(payload).value;
    for i := 0 to |packages|
      invariant ClaimSpec(payload) == Prefixed(decoded, ParsePackages(packages[i..]))
    {
      PayloadsFit(v.vs, i);
      var one := ParseOne(s, packages[i]);
      assert packages[i..][1..] == packages[i + 1..];
      if one.Rejected? { return Rejected; }
      if one.Panicked? { return Panicked; }
      PrefixedStep(decoded, one.value, packages[i..]);
      decoded := decoded + [one.value];
    }
    assert packages[|packages|..] == [] && decoded + [] == decoded;
    return Parsed(decoded);
  }

  lemma DecodedPackages(payload: seq<byte>) returns (vs: seq<Value>)
    requires DecodeSpec(PackagesType, payload).Value?
    ensures DecodeSpec(PackagesType, payload).v == Items(vs)
    ensures AllEncodable(LayoutOf(PackagesType), vs) && |PackagesOf(vs)| == |vs|
    ensures payload == EncList(EncItems(LayoutOf(PackagesType), vs))
    ensures ClaimSpec(payload) == ParsePackages(PackagesOf(vs))
  {
    var v := DecodeSpec(PackagesType, payload).v;
    Canonicity(PackagesType, payload);
    PackagesTypeIsSafe();
    SafeIsClean(PackagesType, v);
    vs := v.vs;
    PackagesLength(vs);
  }

  lemma {:induction false} PackagesLength(vs: seq<Value>)
    requires HasLayout(LayoutOf(PackagesType), vs)
    ensures |PackagesOf(vs)| == |vs|
  {
    if vs != [] { PackagesLength(vs[1..]); }
  }

  // ---------------------------------------------------------------- building payloads

  /** A package to be sent: its record belongs to its channel and package type, and the fee fits its field. */
  datatype Claim = Claim(channel: byte, sequence: u64, ptype: byte, fee: nat, content: Value)
  {
    predicate Valid()
    {
      && RecordType(channel, ptype).Some? && Encodable(RecordType(channel, ptype).value, content)
      && fee < Span(CROSS_CHAIN_FEE_LENGTH)
    }

    /** What the parser reports of a package; it keeps neither channel nor sequence. */
    function Report(): CrossChainPackage { CrossChainPackage(ptype, fee, content) }

    /** The fixed header and the encoded record. */
    function Build(): Package
      requires Valid()
    {
      Package(channel, sequence,
              [ptype] + Digits(fee, CROSS_CHAIN_FEE_LENGTH) + Enc(RecordType(channel, ptype).value, content))
    }
  }

  function Reports(cs: seq<Claim>): seq<CrossChainPackage>
  {
    if cs == [] then [] else [cs[0].Report()] + Reports(cs[1..])
  }

  function BuildAll(cs: seq<Claim>): seq<Package>
    requires forall c | c in cs :: c.Valid()
  {
    if cs == [] then [] else [cs[0].Build()] + BuildAll(cs[1..])
  }

  /** The payload that carries these packages. */
  function Payload(cs: seq<Claim>): seq<byte>
    requires forall c | c in cs :: c.Valid()
  {
    PackagesValues(BuildAll(cs));
    Enc(PackagesType, Items(ValuesOf(BuildAll(cs))))
  }

  /** The parts of a payload long enough to hold a header. */
  lemma PayloadParts(b: seq<byte>, ptype: byte, fee: nat, rest: seq<byte>)
    requires |b| >= PACKAGE_HEADER_LENGTH && fee < Span(CROSS_CHAIN_FEE_LENGTH)
    ensures b == [ptype] + Digits(fee, CROSS_CHAIN_FEE_LENGTH) + rest <==>
            DecodePackageHeader(b) == Some((ptype, fee)) && b[PACKAGE_HEADER_LENGTH..] == rest
  {
    hide Digits, Number, Span;
    var field := b[1..PACKAGE_HEADER_LENGTH];
    assert b == [b[0]] + field + b[PACKAGE_HEADER_LENGTH..];
    DigitsOfNumber(field);
    NumberOfDigits(fee, CROSS_CHAIN_FEE_LENGTH);
    var built := [ptype] + Digits(fee, CROSS_CHAIN_FEE_LENGTH) + rest;
    assert built[0] == ptype && built[1..PACKAGE_HEADER_LENGTH] == Digits(fee, CROSS_CHAIN_FEE_LENGTH);
    assert built[PACKAGE_HEADER_LENGTH..] == rest;
  }

  /** A package parses to a report if and only if it was built from a valid claim with that report. */
  lemma ParsePackageInverts(c: Claim, p: Package)
    requires c.channel == p.channel && c.sequence == p.sequence && |p.payload| < U64_LIMIT
    ensures ParsePackage(p) == Parsed(c.Report()) <==> c.Valid() && c.Build() == p
  {
    hide Enc, DecodeSpec, Digits, Number, Span, ProtoMetrics;
    var b := p.payload;
    if |b| >= PACKAGE_HEADER_LENGTH {
      NumberBound(b[PACKAGE_TYPE_LENGTH..PACKAGE_HEADER_LENGTH]);
      var t := RecordType(c.channel, c.ptype);
      RecordTypesAreSafe(c.channel, c.ptype);
      if t.Some? {
        Bijection(t.value, c.content, b[PACKAGE_HEADER_LENGTH..]);
        if c.Valid() { PayloadParts(b, c.ptype, c.fee, Enc(t.value, c.content)); }
      }
    }
  }

  lemma {:induction false} ParsePackagesOfBuilt(cs: seq<Claim>)
    requires forall c | c in cs :: c.Valid() && |c.Build().payload| < U64_LIMIT
    ensures ParsePackages(BuildAll(cs)) == Parsed(Reports(cs))
  {
    if cs != [] {
      ParsePackageInverts(cs[0], cs[0].Build());
      ParsePackagesOfBuilt(cs[1..]);
      assert BuildAll(cs)[1..] == BuildAll(cs[1..]);
    }
  }

  /** No package is longer than the payload it is in. */
  lemma BuiltFits(cs: seq<Claim>, i: nat)
    requires (forall c | c in cs :: c.Valid()) && i < |cs|
    ensures |cs[i].Build().payload| <= |Payload(cs)|
  {
    hide HasType, NonNegative, EncItems;
    var ps := BuildAll(cs);
    PackagesValues(ps);
    PackagesLength(ValuesOf(ps));
    BuiltAt(cs, i);
    PayloadsFit(ValuesOf(ps), i);
  }

  lemma DecodedPayload(cs: seq<Claim>)
    requires (forall c | c in cs :: c.Valid()) && |Payload(cs)| < U64_LIMIT
    ensures DecodeSpec(PackagesType, Payload(cs)) == Decoded.Value(Items(ValuesOf(BuildAll(cs))))
  {
    hide DecodeSpec, Throughout;
    PackagesValues(BuildAll(cs));
    PackagesTypeIsSafe();
    Bijection(PackagesType, Items(ValuesOf(BuildAll(cs))), Payload(cs));
  }

  /** Parsing a built payload reports every package, in order. */
  lemma ParseOfPayload(cs: seq<Claim>)
    requires (forall c | c in cs :: c.Valid()) && |Payload(cs)| < U64_LIMIT
    ensures ClaimSpec(Payload(cs)) == Parsed(Reports(cs))
  {
    hide DecodeSpec, ParsePackages, Payload, Claim.Valid, Claim.Build, HasType;
    DecodedPayload(cs);
    PackagesValues(BuildAll(cs));
    forall c | c in cs ensures |c.Build().payload| < U64_LIMIT {
      var i :| 0 <= i < |cs| && cs[i] == c;
      BuiltFits(cs, i);
    }
    ParsePackagesOfBuilt(cs);
  }

  lemma {:induction false} BuiltAt(cs: seq<Claim>, i: nat)
    requires (forall c | c in cs :: c.Valid()) && i < |cs|
    ensures |BuildAll(cs)| == |cs| && BuildAll(cs)[i] == cs[i].Build()
  {
    if i > 0 {
      BuiltAt(cs[1..], i - 1);
    } else if |cs| > 1 {
      BuiltAt(cs[1..], 0);
    }
  }

  /** Every payload that parses was built from packages with just these reports. */
  lemma PayloadOfParsed(payload: seq<byte>) returns (cs: seq<Claim>)
    requires |payload| < U64_LIMIT && ClaimSpec(payload).Parsed?
    ensures forall c | c in cs :: c.Valid()
    ensures Payload(cs) == payload && Reports(cs) == ClaimSpec(payload).value
  {
    var vs := DecodedPackages(payload);
    forall i | 0 <= i < |vs| ensures |PackagesOf(vs)[i].payload| < U64_LIMIT {
      PayloadsFit(vs, i);
    }
    cs := ClaimsOf(PackagesOf(vs));
    ValuesPackages(vs);
  }

  lemma {:induction false} ClaimsOf(ps: seq<Package>) returns (cs: seq<Claim>)
    requires ParsePackages(ps).Parsed? && forall i | 0 <= i < |ps| :: |ps[i].payload| < U64_LIMIT
    ensures forall c | c in cs :: c.Valid()
    ensures BuildAll(cs) == ps && Reports(cs) == ParsePackages(ps).value
    decreases |ps|
  {
    if ps == [] { return []; }
    var r := ParsePackage(ps[0]).value;
    var c := Claim(ps[0].channel, ps[0].sequence, r.ptype, r.fee, r.content);
    ParsePackageInverts(c, ps[0]);
    var rest := ClaimsOf(ps[1..]);
    cs := [c] + rest;
    assert cs[1..] == rest;
  }
}
