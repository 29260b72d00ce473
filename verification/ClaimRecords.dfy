/** The records that claims carry, spelled out: for every channel and package type with a record, the untyped item its
    fields are written as and the fields that are reported.

    Nothing here mentions the table of record types or the record types themselves; it says what they come to.
 */
module ClaimRecords {
  import opened BigEndian
  import opened Header
  import opened Wrappers
  import opened Codec
  import opened Untyped
  import opened Claim
  import Laws

  /** A package with this record, whatever its sequence and fee, is reported with its type, the fee as a 32-byte
      big-endian number, and these fields. */
  ghost predicate Carries(channel: byte, ptype: byte, x: Item, fields: seq<Value>)
  {
    forall sequence: u64, fee: seq<byte> | |fee| == 32 && 33 + |Rlp(x)| < U64_LIMIT ::
      ParsePackage(Package(channel, sequence, [ptype] + fee + Rlp(x))) ==
      Parsed(CrossChainPackage(ptype, Number(fee), Items(fields)))
  }

  lemma CarriesOne(channel: byte, ptype: byte, x: Item, v: Value, sequence: u64, fee: seq<byte>)
    requires RecordType(channel, ptype).Some? && WrittenAs(RecordType(channel, ptype).value, v, x)
    requires |fee| == 32 && 33 + |Rlp(x)| < U64_LIMIT
    ensures ParsePackage(Package(channel, sequence, [ptype] + fee + Rlp(x))) ==
            Parsed(CrossChainPackage(ptype, Number(fee), v))
  {
    hide ParsePackage, ProtoMetrics, Number, Digits, Span, Rlp;
    NumberBound(fee);
    DigitsOfNumber(fee);
    ParsePackageInverts(Claim(channel, sequence, ptype, Number(fee), v),
                        Package(channel, sequence, [ptype] + fee + Rlp(x)));
  }

  lemma CarriesRecord(channel: byte, ptype: byte, types: seq<Type>, fields: seq<Value>, xs: seq<Item>)
    requires RecordType(channel, ptype) == Some(TStruct(types, None)) && RowWrittenAs(types, fields, xs)
    ensures Carries(channel, ptype, Seq(xs), fields)
  {
    hide RecordType, ParsePackage, WrittenAs;
    StructIsItem(types, fields, xs);
    forall sequence: u64, fee: seq<byte> | |fee| == 32 && 33 + |Rlp(Seq(xs))| < U64_LIMIT
      ensures ParsePackage(Package(channel, sequence, [ptype] + fee + Rlp(Seq(xs)))) ==
              Parsed(CrossChainPackage(ptype, Number(fee), Items(fields)))
    {
      CarriesOne(channel, ptype, Seq(xs), Items(fields), sequence, fee);
    }
  }

  // ---------------------------------------------------------------- scalar fields

  lemma UintItem(width: Width, n: nat)
    requires n < Span(width)
    ensures WrittenAs(TUint(width), Num(n), Str(Bytes(n)))
  {
    ScalarsAreItems(width, n, 0, false, []);
  }

  lemma BigItem(n: nat)
    ensures WrittenAs(TBigInt, Num(n), Str(Bytes(n)))
  {
    SpanValues();
    ScalarsAreItems(1, 0, n, false, []);
  }

  lemma BytesItem(bs: seq<byte>)
    ensures WrittenAs(TBytes, Blob(bs), Str(bs)) && WrittenAs(TByteArray(|bs|), Blob(bs), Str(bs))
  {
    SpanValues();
    ScalarsAreItems(1, 0, 0, false, bs);
  }

  // ---------------------------------------------------------------- channel 1: bind

  lemma ApproveBind(status: nat, symbol: seq<byte>)
    requires status < 0x1_0000_0000 && |symbol| == 32
    ensures Carries(1, 0, Seq([Str(Bytes(status)), Str(symbol)]), [Num(status), Blob(symbol)])
  {
    hide WrittenAs, Bytes;
    SpanValues();
    UintItem(4, status);
    BytesItem(symbol);
    CarriesRecord(1, 0, [TUint(4), TByteArray(32)], [Num(status), Blob(symbol)], [Str(Bytes(status)), Str(symbol)]);
  }

  lemma BindFailedType()
    ensures RecordType(1, 2) ==
            Some(TStruct([TUint(1), TByteArray(32), TByteArray(20)] + [TBigInt, TBigInt, TUint(1), TUint(8)], None))
  {
    assert [TUint(1), TByteArray(32), TByteArray(20)] + [TBigInt, TBigInt, TUint(1), TUint(8)] == BindSynPackage.fields;
  }

  lemma BindFailed(kind: nat, symbol: seq<byte>, contract: seq<byte>, supply: nat, peggy: nat, decimals: nat,
                   expire: nat)
    requires kind < 0x100 && |symbol| == 32 && |contract| == 20 && decimals < 0x100 && expire < U64_LIMIT
    ensures Carries(1, 2,
              Seq([Str(Bytes(kind)), Str(symbol), Str(contract)] +
                  [Str(Bytes(supply)), Str(Bytes(peggy)), Str(Bytes(decimals)), Str(Bytes(expire))]),
              [Num(kind), Blob(symbol), Blob(contract)] + [Num(supply), Num(peggy), Num(decimals), Num(expire)])
  {
    hide WrittenAs, Bytes, RecordType, Carries, RowWrittenAs;
    BindFailedType();
    TokenFields(kind, symbol, contract);
    SupplyFields(supply, peggy, decimals, expire);
    RowsJoin([TUint(1), TByteArray(32), TByteArray(20)], [Num(kind), Blob(symbol), Blob(contract)],
             [Str(Bytes(kind)), Str(symbol), Str(contract)],
             [TBigInt, TBigInt, TUint(1), TUint(8)], [Num(supply), Num(peggy), Num(decimals), Num(expire)],
             [Str(Bytes(supply)), Str(Bytes(peggy)), Str(Bytes(decimals)), Str(Bytes(expire))]);
    CarriesRecord(1, 2,
      [TUint(1), TByteArray(32), TByteArray(20)] + [TBigInt, TBigInt, TUint(1), TUint(8)],
      [Num(kind), Blob(symbol), Blob(contract)] + [Num(supply), Num(peggy), Num(decimals), Num(expire)],
      [Str(Bytes(kind)), Str(symbol), Str(contract)] +
      [Str(Bytes(supply)), Str(Bytes(peggy)), Str(Bytes(decimals)), Str(Bytes(expire))]);
  }

  lemma TokenFields(kind: nat, symbol: seq<byte>, contract: seq<byte>)
    requires kind < 0x100 && |symbol| == 32 && |contract| == 20
    ensures RowWrittenAs([TUint(1), TByteArray(32), TByteArray(20)], [Num(kind), Blob(symbol), Blob(contract)],
                         [Str(Bytes(kind)), Str(symbol), Str(contract)])
  {
    hide WrittenAs, Bytes;
    SpanValues();
    UintItem(1, kind);
    BytesItem(symbol);
    BytesItem(contract);
  }

  lemma SupplyFields(supply: nat, peggy: nat, decimals: nat, expire: nat)
    requires decimals < 0x100 && expire < U64_LIMIT
    ensures RowWrittenAs([TBigInt, TBigInt, TUint(1), TUint(8)], [Num(supply), Num(peggy), Num(decimals), Num(expire)],
                         [Str(Bytes(supply)), Str(Bytes(peggy)), Str(Bytes(decimals)), Str(Bytes(expire))])
  {
    hide WrittenAs, Bytes, Span;
    SpanValues();
    BigItem(supply);
    BigItem(peggy);
    UintItem(1, decimals);
    UintItem(8, expire);
  }

  lemma RowsJoin(ts: seq<Type>, vs: seq<Value>, xs: seq<Item>, ts': seq<Type>, vs': seq<Value>, xs': seq<Item>)
    requires RowWrittenAs(ts, vs, xs) && RowWrittenAs(ts', vs', xs')
    ensures RowWrittenAs(ts + ts', vs + vs', xs + xs')
  {
    hide WrittenAs;
  }

  // ---------------------------------------------------------------- channel 2: transfer out

  lemma TransferOutRefund(symbol: seq<byte>, amount: nat, address: seq<byte>, reason: nat)
    requires |symbol| == 32 && reason < 0x1_0000_0000
    ensures Carries(2, 1, Seq([Str(symbol), Str(Bytes(amount)), Str(address), Str(Bytes(reason))]),
                    [Blob(symbol), Num(amount), Blob(address), Num(reason)])
  {
    hide WrittenAs, Bytes;
    SpanValues();
    BytesItem(symbol);
    BigItem(amount);
    BytesItem(address);
    UintItem(4, reason);
    CarriesRecord(2, 1, [TByteArray(32), TBigInt, TBytes, TUint(4)],
                  [Blob(symbol), Num(amount), Blob(address), Num(reason)],
                  [Str(symbol), Str(Bytes(amount)), Str(address), Str(Bytes(reason))]);
  }

  lemma TransferOutFailed(symbol: seq<byte>, contract: seq<byte>, amount: nat, recipient: seq<byte>, refund: seq<byte>,
                          expire: nat)
    requires |symbol| == 32 && |contract| == 20 && |recipient| == 20 && expire < U64_LIMIT
    ensures Carries(2, 2,
              Seq([Str(symbol), Str(contract), Str(Bytes(amount)), Str(recipient), Str(refund), Str(Bytes(expire))]),
              [Blob(symbol), Blob(contract), Num(amount), Blob(recipient), Blob(refund), Num(expire)])
  {
    hide WrittenAs, Bytes;
    SpanValues();
    BytesItem(symbol);
    BytesItem(contract);
    BigItem(amount);
    BytesItem(recipient);
    BytesItem(refund);
    UintItem(8, expire);
    CarriesRecord(2, 2, [TByteArray(32), TByteArray(20), TBigInt, TByteArray(20), TBytes, TUint(8)],
      [Blob(symbol), Blob(contract), Num(amount), Blob(recipient), Blob(refund), Num(expire)],
      [Str(symbol), Str(contract), Str(Bytes(amount)), Str(recipient), Str(refund), Str(Bytes(expire))]);
  }

  // ---------------------------------------------------------------- channel 3: transfer in

  function Numbers(ns: seq<nat>): seq<Value> { seq(|ns|, i requires 0 <= i < |ns| => Num(ns[i])) }

  function NumberItems(ns: seq<nat>): seq<Item> { seq(|ns|, i requires 0 <= i < |ns| => Str(Bytes(ns[i]))) }

  function Blobs(bs: seq<seq<byte>>): seq<Value> { seq(|bs|, i requires 0 <= i < |bs| => Blob(bs[i])) }

  function BlobItems(bs: seq<seq<byte>>): seq<Item> { seq(|bs|, i requires 0 <= i < |bs| => Str(bs[i])) }

  lemma NumbersItem(ns: seq<nat>)
    ensures WrittenAs(TSlice(TBigInt), Items(Numbers(ns)), Seq(NumberItems(ns)))
  {
    hide WrittenAs;
    forall i | 0 <= i < |ns| ensures WrittenAs(TBigInt, Numbers(ns)[i], NumberItems(ns)[i]) { BigItem(ns[i]); }
    SliceIsItem(TBigInt, Numbers(ns), NumberItems(ns));
  }

  lemma BlobsItem(bs: seq<seq<byte>>)
    ensures WrittenAs(TSlice(TBytes), Items(Blobs(bs)), Seq(BlobItems(bs)))
  {
    hide WrittenAs;
    forall i | 0 <= i < |bs| ensures WrittenAs(TBytes, Blobs(bs)[i], BlobItems(bs)[i]) { BytesItem(bs[i]); }
    SliceIsItem(TBytes, Blobs(bs), BlobItems(bs));
  }

  lemma ArraysItem(n: nat, bs: seq<seq<byte>>)
    requires forall i | 0 <= i < |bs| :: |bs[i]| == n
    ensures WrittenAs(TSlice(TByteArray(n)), Items(Blobs(bs)), Seq(BlobItems(bs)))
  {
    hide WrittenAs;
    forall i | 0 <= i < |bs| ensures WrittenAs(TByteArray(n), Blobs(bs)[i], BlobItems(bs)[i]) { BytesItem(bs[i]); }
    SliceIsItem(TByteArray(n), Blobs(bs), BlobItems(bs));
  }

  lemma TransferIn(symbol: seq<byte>, contract: seq<byte>, amounts: seq<nat>, receivers: seq<seq<byte>>,
                   refunds: seq<seq<byte>>, expire: nat)
    requires |symbol| == 32 && |contract| == 20 && expire < U64_LIMIT
    requires forall i | 0 <= i < |refunds| :: |refunds[i]| == 20
    ensures Carries(3, 0,
              Seq([Str(symbol), Str(contract), Seq(NumberItems(amounts)), Seq(BlobItems(receivers)),
                   Seq(BlobItems(refunds)), Str(Bytes(expire))]),
              [Blob(symbol), Blob(contract), Items(Numbers(amounts)), Items(Blobs(receivers)), Items(Blobs(refunds)),
               Num(expire)])
  {
    hide WrittenAs, Bytes, Numbers, NumberItems, Blobs, BlobItems;
    SpanValues();
    BytesItem(symbol);
    BytesItem(contract);
    NumbersItem(amounts);
    BlobsItem(receivers);
    ArraysItem(20, refunds);
    UintItem(8, expire);
    CarriesRecord(3, 0,
      [TByteArray(32), TByteArray(20), TSlice(TBigInt), TSlice(TBytes), TSlice(TByteArray(20)), TUint(8)],
      [Blob(symbol), Blob(contract), Items(Numbers(amounts)), Items(Blobs(receivers)), Items(Blobs(refunds)),
       Num(expire)],
      [Str(symbol), Str(contract), Seq(NumberItems(amounts)), Seq(BlobItems(receivers)), Seq(BlobItems(refunds)),
       Str(Bytes(expire))]);
  }

  // ---------------------------------------------------------------- channels 8, 9 and 11: staking, gov, slashing

  lemma CommonAck(channel: byte, code: nat)
    requires (channel == 8 || channel == 9) && code < 0x1_0000_0000
    ensures Carries(channel, 1, Seq([Str(Bytes(code))]), [Num(code)])
  {
    hide WrittenAs, Bytes;
    SpanValues();
    UintItem(4, code);
    CarriesRecord(channel, 1, [TUint(4)], [Num(code)], [Str(Bytes(code))]);
  }

  datatype Validator = Validator(consensus: seq<byte>, feeAddress: seq<byte>, distribution: seq<byte>, power: u64)
  {
    function Fields(): Value { Items([Blob(consensus), Blob(feeAddress), Blob(distribution), Num(power)]) }

    function AsItem(): Item { Seq([Str(consensus), Str(feeAddress), Str(distribution), Str(Bytes(power))]) }
  }

  function ValidatorFields(vs: seq<Validator>): seq<Value> { seq(|vs|, i requires 0 <= i < |vs| => vs[i].Fields()) }

  function ValidatorItems(vs: seq<Validator>): seq<Item> { seq(|vs|, i requires 0 <= i < |vs| => vs[i].AsItem()) }

  lemma ValidatorIsItem(v: Validator)
    ensures WrittenAs(TStruct([TBytes, TBytes, TBytes, TUint(8)], None), v.Fields(), v.AsItem())
  {
    hide WrittenAs, Bytes;
    SpanValues();
    BytesItem(v.consensus);
    BytesItem(v.feeAddress);
    BytesItem(v.distribution);
    UintItem(8, v.power);
    StructIsItem([TBytes, TBytes, TBytes, TUint(8)],
                 [Blob(v.consensus), Blob(v.feeAddress), Blob(v.distribution), Num(v.power)],
                 [Str(v.consensus), Str(v.feeAddress), Str(v.distribution), Str(Bytes(v.power))]);
  }

  lemma ValidatorSet(kind: nat, vs: seq<Validator>)
    requires kind < 0x100
    ensures Carries(8, 2, Seq([Str(Bytes(kind)), Seq(ValidatorItems(vs))]), [Num(kind), Items(ValidatorFields(vs))])
  {
    hide WrittenAs, Bytes;
    SpanValues();
    var t := TStruct([TBytes, TBytes, TBytes, TUint(8)], None);
    forall i | 0 <= i < |vs| ensures WrittenAs(t, ValidatorFields(vs)[i], ValidatorItems(vs)[i]) {
      ValidatorIsItem(vs[i]);
    }
    SliceIsItem(t, ValidatorFields(vs), ValidatorItems(vs));
    UintItem(1, kind);
    CarriesRecord(8, 2, [TUint(1), TSlice(t)], [Num(kind), Items(ValidatorFields(vs))],
                  [Str(Bytes(kind)), Seq(ValidatorItems(vs))]);
  }

  lemma ParamChange(key: seq<byte>, value: seq<byte>, target: seq<byte>)
    ensures Carries(9, 2, Seq([Str(key), Str(value), Str(target)]), [Blob(key), Blob(value), Blob(target)])
  {
    hide WrittenAs;
    BytesItem(key);
    BytesItem(value);
    BytesItem(target);
    CarriesRecord(9, 2, [TBytes, TBytes, TBytes], [Blob(key), Blob(value), Blob(target)],
                  [Str(key), Str(value), Str(target)]);
  }

  lemma DowntimeSlash(address: seq<byte>, height: nat, chain: nat, timestamp: nat)
    requires height < U64_LIMIT && chain < 0x1_0000 && timestamp < U64_LIMIT
    ensures Carries(11, 0, Seq([Str(address), Str(Bytes(height)), Str(Bytes(chain)), Str(Bytes(timestamp))]),
                    [Blob(address), Num(height), Num(chain), Num(timestamp)])
  {
    hide WrittenAs, Bytes;
    SpanValues();
    BytesItem(address);
    UintItem(8, height);
    UintItem(2, chain);
    UintItem(8, timestamp);
    CarriesRecord(11, 0, [TBytes, TUint(8), TUint(2), TUint(8)],
                  [Blob(address), Num(height), Num(chain), Num(timestamp)],
                  [Str(address), Str(Bytes(height)), Str(Bytes(chain)), Str(Bytes(timestamp))]);
  }

  // ---------------------------------------------------------------- everything else

  /** Pairs of a known channel and package type for which no record exists. */
  predicate Unused(channel: byte, ptype: byte)
  {
    || (channel == 1 && ptype == 1) || (channel == 2 && ptype == 0) || (channel == 3 && (ptype == 1 || ptype == 2))
    || (channel == 8 && ptype == 0) || (channel == 9 && ptype == 0) || (channel == 11 && (ptype == 1 || ptype == 2))
  }

  /** They panic; a payload shorter than its header, another channel or another package type is rejected. */
  lemma NoRecord(p: Package)
    ensures |p.payload| < 33 ==> ParsePackage(p) == Rejected
    ensures |p.payload| >= 33 && Unused(p.channel, p.payload[0]) ==> ParsePackage(p) == Panicked
    ensures |p.payload| >= 33 && (p.payload[0] > 2 || p.channel !in {1, 2, 3, 8, 9, 11}) ==> ParsePackage(p) == Rejected
  {
  }

  // ---------------------------------------------------------------- the list of packages

  function PackageItem(p: Package): Item { Seq([Str(Bytes(p.channel)), Str(Bytes(p.sequence)), Str(p.payload)]) }

  function PackageItems(ps: seq<Package>): seq<Item> { seq(|ps|, i requires 0 <= i < |ps| => PackageItem(ps[i])) }

  lemma PackageIsItem(p: Package)
    ensures WrittenAs(PackageType, ValueOf(p), PackageItem(p))
  {
    hide WrittenAs, Bytes;
    SpanValues();
    UintItem(1, p.channel);
    UintItem(8, p.sequence);
    BytesItem(p.payload);
    StructIsItem([TUint(1), TUint(8), TBytes], [Num(p.channel), Num(p.sequence), Blob(p.payload)],
                 [Str(Bytes(p.channel)), Str(Bytes(p.sequence)), Str(p.payload)]);
  }

  lemma {:induction false} ValuesAt(ps: seq<Package>, i: nat)
    ensures |ValuesOf(ps)| == |ps| && (i < |ps| ==> ValuesOf(ps)[i] == ValueOf(ps[i]))
  {
    if ps != [] { ValuesAt(ps[1..], if i == 0 then 0 else i - 1); }
  }

  /** A payload is a list of packages, each a list of channel, sequence and package payload, and is parsed package by
      package. */
  lemma PayloadOfItems(ps: seq<Package>)
    requires |Rlp(Seq(PackageItems(ps)))| < U64_LIMIT
    ensures ClaimSpec(Rlp(Seq(PackageItems(ps)))) == ParsePackages(ps)
  {
    hide WrittenAs, DecodeSpec, Rlp, PackageItem, ParsePackages;
    var vs, xs := ValuesOf(ps), PackageItems(ps);
    ValuesAt(ps, 0);
    forall i | 0 <= i < |ps| ensures WrittenAs(PackageType, vs[i], xs[i]) {
      ValuesAt(ps, i);
      PackageIsItem(ps[i]);
    }
    SliceIsItem(PackageType, vs, xs);
    PayloadIsDecoded(ps, Rlp(Seq(xs)));
  }

  lemma PayloadIsDecoded(ps: seq<Package>, b: seq<byte>)
    requires |b| < U64_LIMIT && Encodable(PackagesType, Items(ValuesOf(ps)))
    requires Enc(PackagesType, Items(ValuesOf(ps))) == b
    ensures ClaimSpec(b) == ParsePackages(ps)
  {
    hide DecodeSpec, ParsePackages, Enc;
    PackagesTypeIsSafe();
    Laws.Bijection(PackagesType, Items(ValuesOf(ps)), b);
    PackagesValues(ps);
  }
}
