# Verified models of the BNB Chain Go SDK

This project models the parts of the SDK where the hard logic is, and proves laws about them:

- the **RLP codec** (`common/rlp`): the encoder that keeps string data and list headers apart and splices them on
  output, its three output paths, the streaming decoder with its stack of open lists, look-ahead and input limit, the
  typed decoders, and the second parser that works on slices;
- **claim payloads** (`types/msg/msg-oracle.go`), a two-layer client of the typed decoder;
- the **websocket reconnect protocol** (`client/rpc/ws_client.go`), as interleaved steps of its goroutines;
- **coin sets, transfer validation and SendToken**, with amounts that wrap at 64 bits;
- **version 1 UUIDs** over whole runs of a generator, and the UUID text forms;
- **Fixed8** decimals, printed and parsed.

Go types are values of `Codec.Type`; Go values are values of `Codec.Value`. `Codec` holds the reference encoder `Enc`
and the reference parser `Parse`/`DecodeSpec`; the stateful code in `Encoder`, `Encode`, `Stream` and `Decoder` is
proved equal to them, so that the laws proved about the references are laws of the code. Machine integers are
mathematical integers with explicit bounds and explicit wrapping; masks and shifts are remainders and quotients.

| files | content |
|---|---|
| `Wrappers`, `BigEndian`, `Header` | optional values, minimal big-endian integers, headers |
| `Codec` | types, values, reference encoder and parser, round trip and canonicity by value |
| `Iteration` | the decoding loops one iteration at a time |
| `Laws`, `Witnesses` | round trip, canonicity and termination by type; what breaks them in all other types |
| `Untyped` | RLP items as the format defines them, against the untyped decoder and the encodings of all types |
| `Encoder`, `Encode` | the encoding buffer and its outputs |
| `Stream`, `Decoder`, `Raw` | the stream, the typed decoders, the slice parser |
| `Claim`, `ClaimRecords` | claim payloads, and each record as a literal list of items |
| `Reconnect`, `Recovery` | the reconnect protocol, what its runs keep and how they can go on |
| `Int64`, `Coins`, `Send`, `SendToken` | wrapping, coin sets, validation, building a transfer |
| `Uuid`, `UuidText` | the generator, the text forms |
| `Fixed8` | decimals |

## Where the code does not do what one would expect

- A `[1]byte` that holds zero leaves the look-ahead in place when it is decoded, so the next read sees the zero again. A
  value survives exactly if no such array is followed by another read in its list (`Codec.Clean`). Which types have only
  such values, which types accept only canonical inputs, and which types are always decoded to an end are three
  different questions. Each has a condition on the layout of the lists in the type (`Laws.Keeps`) that is necessary and
  sufficient for every type whose weight, a bound on its witnesses computed from the type, is below 2^64
  (`Witnesses.SurvivalIff`, `Witnesses.CanonicalIff`, `Witnesses.TerminationIff`).
- ValidateBasic compares totals modulo 2^64, so accepted transfers need not conserve (`Send.WrappingIsNotConserved`).
- The one place in `reconnectAfter` suffices for reader, writer and resend. A report from a timed-out caller, or
  stopping the client from outside, can block the writer for ever, and then the reconnect goroutine or `Stop` waits for
  it (`Reconnect.NoSendBlocksIff`, `Reconnect.DeadlockedForEver`).
- The intended grammar for UUID text lets digits without dashes stand in braces; the code rejects them. The grammar as it
  is written in the comment counts octets differently, and nothing it allows is accepted.
- Fixed8 parsing accepts signs behind the dot and more than eight decimals, and does not read back negative fractions.

## Model

| member | source | states |
|---|---|---|
| BigEndian.PutInt | common/rlp/encode.go:548-603 | writes the shortest big-endian form of any 64-bit integer, one zero byte for zero, and nothing else |
| BigEndian.IntSize | common/rlp/encode.go:606-612 | the number of bytes PutInt writes |
| BigEndian.NumberOfBytes | common/rlp/encode.go:548-603 | reading the shortest form back gives the number |
| BigEndian.BytesOfNumber | common/rlp/decode.go:919-943 | a byte string without leading zero is the shortest form of its number |
| Header.PutHead | common/rlp/encode.go:123-131 | writes the header of a content size in place, and nothing else |
| Header.ReadHeaderIsCanonical | common/rlp/decode.go:857-943 | every header that is accepted is byte for byte the one the encoder writes for that kind and size |
| Header.ReadHeaderOfHead | common/rlp/decode.go:857-917 | the header the encoder writes is read back with the same kind and size, whatever follows the content |
| Codec.RoundTrip | common/rlp/decode.go:88-102 | for every type and encodable value: decoding its encoding returns it if and only if no one-byte array that holds zero is followed by another read in its list |
| Codec.Canonicity | common/rlp/decode.go:88-102 | whatever is accepted is encodable, and re-encoding gives back the input under the same condition and no other |
| Iteration.RunIsParse | common/rlp/decode.go:274-335 | decoding with any number of iterations, if it ends, gives what the reference parser gives |
| Iteration.EndlessIffUnending | common/rlp/decode.go:289-316 | for every type and window, the reference parser reports an endless loop if and only if no number of iterations is enough, nested loops included |
| Iteration.DivergesIffUnfinished | common/rlp/decode.go:88-102 | the same for decoding a whole input |
| Laws.SafeIffClean | common/rlp/decode.go:346-381 | every value of a type survives if and only if no list in it has a one-byte array in front of another read |
| Laws.Bijection | common/rlp/decode.go:88-102 | for these types accepted inputs and encodable values correspond one to one |
| Witnesses.NoBijection | common/rlp/decode.go:346-381 | every other type has a named encodable value, no longer than the weight of the type, whose encoding does not decode to it |
| Witnesses.SurvivalIff | common/rlp/decode.go:88-102 | for types of weight below 2^64: all values decode from their encodings if and only if no list in the type has a one-byte array in front of another read |
| Laws.CanonicalByType | common/rlp/decode.go:88-102 | in types in which no one-byte array is followed by reads that can go on from its zero, whatever is accepted re-encodes to the input |
| Witnesses.NotCanonicalByType | common/rlp/decode.go:346-381 | in every other type a named input, no longer than the weight of the type, is accepted and is not the encoding of what it is read as |
| Witnesses.CanonicalIff | common/rlp/decode.go:88-102 | for types of weight below 2^64: all accepted inputs are canonical if and only if no list in the type has a one-byte array in front of reads that can go on from its zero |
| Laws.EndsByType | common/rlp/decode.go:289-316 | in types without a slice of one-byte arrays, decoding any input of n bytes ends within (n + 1)(r + n + 2) iterations, where r is the longest row of the type |
| Witnesses.DivergesByType | common/rlp/decode.go:289-316 | in every other type there is a named input, no longer than the weight of the type, on which no number of iterations is enough |
| Witnesses.TerminationIff | common/rlp/decode.go:289-316 | for types of weight below 2^64: decoding ends on all inputs if and only if no list in the type ends in a slice of one-byte arrays |
| Witnesses.WitnessBound | common/rlp/decode.go:346-381 | the named inputs are no longer than the weight of the type |
| Witnesses.ZeroArrayIsNotCanonical | common/rlp/decode.go:346-381 | an array of any number of one-byte arrays takes a single zero for all of them, and from two on encodes to other bytes |
| Witnesses.ZeroSliceDiverges | common/rlp/decode.go:289-316 | a list that holds one zero is not decoded into a slice of one-byte arrays after any number of iterations |
| Untyped.UntypedRoundTrip | common/rlp/decode.go:478-500 | the untyped decoder reads the RLP form of any item, however nested, as that item: strings as byte slices and lists as lists of untyped values |
| Untyped.UntypedCanonicity | common/rlp/decode.go:478-500 | whatever the untyped decoder accepts is the RLP form of exactly one item, and is read as it |
| Untyped.ScalarsAreItems | common/rlp/encode.go:361-409 | numbers, bools, big integers, strings and byte arrays are encoded as string items: the shortest big-endian digits, empty for zero and false, or the bytes themselves |
| Untyped.SliceIsItem | common/rlp/encode.go:458-476 | a slice is encoded as the list of its elements' items |
| Untyped.ArrayIsItem | common/rlp/encode.go:458-476 | an array is encoded as the list of its elements' items |
| Untyped.StructIsItem | common/rlp/encode.go:478-499 | a struct is encoded as the list of its fields' items, the elements of a tail spliced in at its end |
| Encoder.SplicedLength | common/rlp/encode.go:199-201 | size is the exact length of the spliced output |
| Encoder.EncBuf.Reset | common/rlp/encode.go:138-146 | from any earlier state, the buffer is empty |
| Encoder.EncBuf.List | common/rlp/encode.go:184-188 | opening a list records where its header belongs and how many header bytes came before |
| Encoder.EncBuf.ListEnd | common/rlp/encode.go:190-197 | the recorded size is the payload length including nested headers, and the buffer then stands for the whole list |
| Encoder.EncBuf.EncodeString | common/rlp/encode.go:174-182 | appends exactly the encoding of a byte string |
| Encoder.EncBuf.WriteUint | common/rlp/encode.go:361-375 | appends exactly the encoding of a 64-bit integer |
| Encoder.EncBuf.Write | common/rlp/encode.go:361-526 | for every typed value, what the buffer stands for grows by exactly the recursive encoding; fails only on negative integers |
| Encoder.EncBuf.ToBytes | common/rlp/encode.go:203-219 | the output is the string data with every header spliced in at its offset |
| Encoder.EncBuf.ToWriter | common/rlp/encode.go:221-243 | a writer receives the same bytes; one that runs full has received a front part of them |
| Encode.EncodeToBytes | common/rlp/encode.go:70-78 | from a pooled buffer in any state, the bytes are the recursive RLP encoding; an error exactly on negative integers |
| Encode.EncodeToWriter | common/rlp/encode.go:53-66 | the same through a writer; nothing is sent for a value that cannot be encoded |
| Encode.EncodeToReader | common/rlp/encode.go:85-92 | the same through a reader, whose announced size is exact |
| Encode.EncReader.Next | common/rlp/encode.go:279-310 | the piece taken, followed by what is left, is what was left before |
| Encode.EncReader.Read | common/rlp/encode.go:254-275 | what is read, followed by what is left, is what was left before; end of file exactly when nothing is left |
| Encode.ReadPieces | common/rlp/encode.go:254-310 | reads with any sequence of buffer sizes yield the encoding in order, without loss or repetition |
| Stream.Stream.Reset | common/rlp/decode.go:778-811 | from any earlier state, abandoned lists included, the stream stands at the start of the new input |
| Stream.Stream.ResetToList | common/rlp/decode.go:591-597 | the stream stands before a list of the given length over the new input; the limit is that length, or for length zero what the reader knows |
| Stream.Stream.WillRead | common/rlp/decode.go:971-989 | reading is charged to the innermost list and to the limit, and refused exactly when it exceeds the list or, outside lists, the limit; inside lists the invariant keeps the limit from being exceeded |
| Stream.Stream.ReadFull | common/rlp/decode.go:945-958 | returns the next bytes only if they are allowed and there, and always if they are, unless the reader may report its end together with them and they are its last |
| Stream.Stream.ReadUint | common/rlp/decode.go:919-943 | the number of the next bytes, refused when bytes are missing or the first of several is zero, and with the same exception for readers that end together with their last bytes |
| Stream.Stream.ReadKind | common/rlp/decode.go:857-917 | succeeds only where a tag with a canonical size lies within list and limit, and there always unless such a reader ends with it; takes exactly that tag |
| Stream.Stream.NextKind | common/rlp/decode.go:824-855 | a look ahead is kept with its error; on an exact stream it finds what the reference header reader finds in the window of the innermost list |
| Stream.Stream.Bytes | common/rlp/decode.go:602-623 | on any stream a fresh read takes exactly the encoding of the string it returns; on an exact one it does what the reference parser does, including where the stream then stands |
| Stream.Stream.Raw | common/rlp/decode.go:626-648 | what is returned is byte for byte what was taken, although the header is rebuilt; after a kept look it panics exactly when header and content together reach 2^64 bytes, after a fresh one only on an unlimited stream outside lists |
| Stream.Stream.Uint | common/rlp/decode.go:657-688 | on any stream a fresh read takes exactly the encoding of the integer it returns; on an exact one, integers of a given width are read as the reference parser does |
| Stream.Stream.Bool | common/rlp/decode.go:693-706 | on any stream a fresh read takes exactly the encoding of the bool it returns; on an exact one it does what the reference parser does |
| Stream.Stream.List | common/rlp/decode.go:711-723 | a fresh look takes exactly the header of a list of the size returned, and that list becomes the innermost one; the invariant is kept |
| Stream.Stream.ListEnd | common/rlp/decode.go:727-742 | ends exactly when the list is used up, and charges its size to the list around it; otherwise nothing changes |
| Stream.Run | common/rlp/decode.go:602-989 | any sequence of calls, failed ones included, keeps every position within its size, every list within the unread part of the one around it and the limit above what open lists are owed, and never takes more input than the limit |
| Decoder.DecodeBytes | common/rlp/decode.go:88-102 | from a pooled stream in any state, the result is the reference parser's: the value, or an error and never a panic; no end is reported exactly when no number of iterations is enough |
| Decoder.Decode | common/rlp/decode.go:190-500 | for every type, wherever an exact stream stands, decoding agrees with the reference parser on value, error and position |
| Decoder.DecodeBigInt | common/rlp/decode.go:222-238 | big integers agree with the reference parser |
| Decoder.DecodeByteArray | common/rlp/decode.go:346-381 | byte arrays agree with the reference parser, the armed zero included |
| Decoder.DecodeList | common/rlp/decode.go:274-335 | lists agree with the reference parser, and the stream stands behind the list |
| Decoder.DecodeElems | common/rlp/decode.go:289-316 | the element loop agrees with the reference parser; where the source loops for ever this returns, and it does so exactly when no number of iterations is enough |
| Decoder.DecodeRow | common/rlp/decode.go:393-406 | struct fields are read in order; too few elements are an error |
| Decoder.DecodeAny | common/rlp/decode.go:478-500 | untyped values agree with the reference parser |
| Raw.ReadKindIsHeader | common/rlp/raw.go:86-156 | the slice parser accepts exactly the headers of the stream parser, except a single byte written as a string, which it refuses itself |
| Raw.SplitStringIsParse | common/rlp/raw.go:49-58 | SplitString succeeds exactly where reading a string succeeds, with the same content and rest |
| Raw.BytesLikeSplit | common/rlp/raw.go:49-58 | SplitString and Bytes on a fresh stream over the same input agree on success, content and rest |
| Raw.ListLikeSplit | common/rlp/raw.go:62-71 | SplitList and List on a fresh stream agree on success, content and rest |
| Raw.PiecesAreUnique | common/rlp/raw.go:74-84 | a byte string falls into values in at most one way, and the loop of CountValues finds it |
| Raw.CountValues | common/rlp/raw.go:74-84 | succeeds exactly on byte strings that fall into values, and returns how many |
| Raw.CountsEncodings | common/rlp/raw.go:74-84 | on the encodings of a list's items, one after the other, the values found are these encodings |
| Raw.ListSizeIsExact | common/rlp/raw.go:33-35 | ListSize is the length of the encoded list, for every payload whose encoding fits in 64 bits |
| Claim.ParseClaimPayload | types/msg/msg-oracle.go:247-278 | the loop over decoded packages returns what the two-layer reference does: reports in order, an error, or a panic on a pair without record type; what the reference makes of each pair is stated in ClaimRecords |
| Claim.ParsePackageInverts | types/msg/msg-oracle.go:247-288 | a package parses to a report if and only if it was built from a valid claim with that report |
| Claim.ParseOfPayload | types/msg/msg-oracle.go:247-278 | the payload of any list of claims parses to one entry per package, in order, with type, fee and content |
| Claim.PayloadOfParsed | types/msg/msg-oracle.go:247-278 | every payload that parses is byte for byte the payload of claims with just these reports |
| Claim.RecordTypesAreSafe | types/msg/msg-oracle.go:119-170 | every record type of the table is one for which decoding is a bijection |
| ClaimRecords.PayloadOfItems | types/msg/msg-oracle.go:53-59 | a payload that is an RLP list of channel, sequence and payload triples parses as these packages, in this order |
| ClaimRecords.ApproveBind | types/msg/msg-oracle.go:172-175 | on channel 1, type 0, the content is the list of a 32-bit status and a 32-byte symbol |
| ClaimRecords.BindFailed | types/msg/msg-oracle.go:177-185 | on channel 1, type 2, the seven fields of a bind request |
| ClaimRecords.TransferOutRefund | types/msg/msg-oracle.go:187-192 | on channel 2, type 1, the four fields of a refund |
| ClaimRecords.TransferOutFailed | types/msg/msg-oracle.go:194-201 | on channel 2, type 2, the six fields of an outgoing transfer |
| ClaimRecords.TransferIn | types/msg/msg-oracle.go:203-210 | on channel 3, type 0, the six fields of an incoming transfer, three of them lists |
| ClaimRecords.CommonAck | types/msg/msg-oracle.go:212-214 | on channels 8 and 9, type 1, a 32-bit code |
| ClaimRecords.ValidatorSet | types/msg/msg-oracle.go:216-226 | on channel 8, type 2, a type and a list of validators with three addresses and a power each |
| ClaimRecords.ParamChange | types/msg/msg-oracle.go:228-232 | on channel 9, type 2, key, value and target |
| ClaimRecords.DowntimeSlash | types/msg/msg-oracle.go:234-239 | on channel 11, type 0, address, height, chain and time |
| ClaimRecords.NoRecord | types/msg/msg-oracle.go:114-170 | every other type below 3 on these channels panics; payloads below 33 bytes, other channels and other types are rejected |
| Reconnect.StepKeeps | client/rpc/ws_client.go:746-915 | every step of every goroutine keeps the invariant |
| Reconnect.EveryRunIsSafe | client/rpc/ws_client.go:746-915 | in every interleaving at most one reader and one writer run, the backlog is empty while a writer takes requests, the requests written followed by at most one pending request are the requests accepted, in order, and readRoutineQuit is never closed twice |
| Reconnect.NoSendBlocksUndisturbed | client/rpc/ws_client.go:596-616 | with capacity one, whoever is about to send can do so, or the reconnect goroutine is about to receive, in every run without caller reports and outside stops |
| Reconnect.NoSendBlocksIff | client/rpc/ws_client.go:596-616 | no send blocks in any interleaving if and only if neither caller reports nor outside stops are allowed |
| Reconnect.TimeoutDeadlocks | client/rpc/ws_client.go:279 | after a single report from a timed-out caller the writer may be unable to report while the reconnect goroutine waits for it |
| Reconnect.StopDeadlocks | client/rpc/ws_client.go:620-629 | after a stop the reconnect goroutine may leave while the channel is full, and the writer is then unable to report |
| Reconnect.DeadlockedForEver | client/rpc/ws_client.go:774-806 | whatever happens, the client stays in either of these states |
| Recovery.NoFailureUnheard | client/rpc/ws_client.go:774-915 | in every interleaving of a client that is not stopped the reconnect goroutine is there, and while it waits for reports with no reader and writer left, a report is waiting for it |
| Recovery.EverythingCanBeDelivered | client/rpc/ws_client.go:746-915 | from every state that a run without caller reports and outside stops can reach, unless dialling failed for good, such a run can go on to a fresh reader and writer with every accepted request written, once and in order |
| Recovery.FailedResendIsKept | client/rpc/ws_client.go:753-772 | in every interleaving a resend may fail, and if the channel has room the request is then in the backlog again, a report waits, and the reconnect goroutine is ready for it; everything else is unchanged |
| Recovery.IdleClientLeaves | client/rpc/ws_client.go:860-895 | in every interleaving, a stopped client whose writer and reader wait can let both leave without any failure, and it has written all it accepted |
| Int64.WrapAdds | common/types/coins.go:31-36 | adding wrapped amounts wraps the sum |
| Coins.LessIffPrecedes | common/types/coins.go:184 | denominations compare bytewise: a proper prefix first, else the smaller character where they first differ |
| Coins.SortedIffAscending | common/types/coins.go:57-76 | comparing neighbours is enough: every denomination precedes all later ones |
| Coins.AmountOfIsLookup | common/types/coins.go:157-178 | on sorted sets the binary search finds what a linear search finds |
| Coins.Plus | common/types/coins.go:90-121 | the two-index loop is the recursive merge, by the bytewise order of LessIffPrecedes |
| Coins.PlusKeepsCanonical | common/types/coins.go:90-121 | the sum of sorted sets without zeros is sorted and without zeros |
| Coins.PlusAddsAmounts | common/types/coins.go:90-121 | every amount in the sum is the wrapped sum of the two amounts |
| Coins.PlusCommutes | common/types/coins.go:90-121 | addition commutes |
| Coins.PlusAssociates | common/types/coins.go:90-121 | addition is associative |
| Coins.SameAmounts | common/types/coins.go:124-134 | a set is determined by its amounts |
| Send.IsValid | common/types/coins.go:57-76 | accepts exactly the sets in which every denomination bytewise precedes all later ones and whose coins, the first of several excepted, are not zero |
| Send.IsPositive | common/types/coins.go:78-88 | accepts exactly the nonempty sets of positive coins |
| Send.IsEqual | common/types/coins.go:124-134 | holds exactly for equal sets |
| Send.ValidateEntry | types/msg/msg-send.go:103-155 | accepts exactly an address with one or more positive coins, each denomination bytewise before all later ones |
| Send.ValidateBasic | types/msg/msg-send.go:25-51 | accepts exactly well-formed messages whose running totals agree |
| Send.TotalIsWrappedSum | types/msg/msg-send.go:33-45 | the running total holds the wrapped true sum of every denomination |
| Send.AcceptsIffCongruent | types/msg/msg-send.go:25-51 | a message is accepted if and only if it is well-formed and for every denomination inputs and outputs agree modulo 2^64 |
| Send.Conservation | types/msg/msg-send.go:25-51 | an accepted message conserves a denomination exactly when both sums pass 2^64 equally often, so always below 2^64 |
| Send.WrappingIsNotConserved | types/msg/msg-send.go:25-51 | three inputs that add up to 2^64 + 1 are accepted against one output of 1 |
| SendToken.Sort | common/types/coins.go:183-191 | in place: in order, and the same coins |
| SendToken.SendToken | client/transaction/send_token.go:13-20 | the built message is valid if and only if the transfers, in any order of coins and sharing lists or not, are well-formed and no total wraps below zero nor all to zero; no coin is lost |
| SendToken.CreateSendMsg | types/msg/msg-send.go:171-181 | one input, and one output per transfer with the same coins in order |
| SendToken.BuiltIsValid | types/msg/msg-send.go:171-181 | the same for any way the two sorting passes may order equal denominations |
| SendToken.FittingTotalsSend | client/transaction/send_token.go:13-20 | if all totals fit in 63 bits, well-formed transfers are enough |
| Uuid.SetVersion | common/uuid/uuid.go:108-110 | Version then returns the low four bits given, and all other bits stay |
| Uuid.SetVariant | common/uuid/uuid.go:113-126 | Variant then returns the variant given, unknown ones as the reserved one, and the bits below and all other bytes stay |
| Uuid.EpochFits | common/uuid/generator.go:218-220 | no clock reading overflows the 60 bits of the time field |
| Uuid.LayoutFields | common/uuid/generator.go:89-111 | time, clock sequence and node can be read off a version 1 UUID, up to the bits that version and variant overwrite |
| Uuid.SameLayout | common/uuid/generator.go:89-111 | UUIDs of one node are equal exactly when time and clock sequence agree modulo 2^60 and 2^14 |
| Uuid.Assemble | common/uuid/generator.go:96-108 | writing the fields and then version and variant over them gives that layout |
| Uuid.Generator.GetClockSequence | common/uuid/generator.go:166-191 | the clock sequence moves on exactly when the clock did not; a failed seed is reported once |
| Uuid.Generator.NewV1 | common/uuid/generator.go:89-111 | one call is one step of the state machine that the theorems on runs are about, and what it returns tells the time the clock showed, in 100-nanosecond ticks since the day 141427 days before 1970 |
| Uuid.StepTellsTime | common/uuid/generator.go:218-220 | the time field of every UUID, less the ticks of 141427 days, is the clock reading rounded toward zero to 100 nanoseconds, before 1970 as well as after |
| Uuid.FirstUuid | common/uuid/generator.go:166-214 | the first UUID of a generator has the seed's low 14 bits as its clock sequence and as its node the interface's first six bytes or random bytes with the multicast bit; there is none exactly if seed or address fail |
| Uuid.AfterSuccess | common/uuid/generator.go:89-191 | after one success every call succeeds, the node stays, and the clock sequence counts the stalls modulo 2^16 |
| Uuid.SameUuid | common/uuid/generator.go:89-191 | two calls of a run return the same UUID if and only if they read the same time and the clock stalled a multiple of 2^14 times in between |
| Uuid.Uniqueness | common/uuid/generator.go:89-191 | whatever the clock does, two calls between which it stalls fewer than 2^14 times never return the same UUID |
| Uuid.StandingClockRepeats | common/uuid/generator.go:185-187 | with a standing clock the call 2^14 later returns the same UUID |
| UuidText.String | common/uuid/uuid.go:91-105 | the dashed lower-case form of the sixteen bytes |
| UuidText.UnhexIffHex | common/uuid/codec.go:117-125 | digits decode to bytes exactly when they are the digits of these bytes, in either case |
| UuidText.DecodeCanonical | common/uuid/codec.go:92-113 | the loop over byte groups succeeds exactly on dashed digits, and the receiver holds the digits decoded so far |
| UuidText.DecodeHashLike | common/uuid/codec.go:117-125 | the same for digits without dashes |
| UuidText.DecodePlain | common/uuid/codec.go:158-167 | the same for either |
| UuidText.UnmarshalText | common/uuid/codec.go:73-153 | succeeds exactly on the accepted spellings and then holds what was spelled; after a failure the receiver holds the digits decoded before the first bad one |
| UuidText.ParsedIffSpelled | common/uuid/codec.go:50-88 | a text is parsed as a UUID if and only if the intended grammar, as the documented examples show it, lets it spell that UUID and it is not 34 characters long |
| UuidText.WrittenIsRejected | common/uuid/codec.go:56-72 | no text of the grammar as it is written, which counts fourteen or twelve octets, is accepted |
| UuidText.BracedDigitsAreRejected | common/uuid/codec.go:127-138 | every UUID has a spelling, digits in braces, that is intended and rejected |
| UuidText.FormsAreAccepted | common/uuid/codec.go:50-72 | the printed form, in upper or lower case, is accepted bare, in braces and behind urn:uuid: |
| UuidText.HashFormsAreAccepted | common/uuid/codec.go:50-72 | the digits without dashes, in upper or lower case, are accepted bare and behind urn:uuid: |
| UuidText.RoundTrip | common/uuid/codec.go:73-88 | parsing the printed form returns the UUID |
| UuidText.PrintIsCanonical | common/uuid/codec.go:73-88 | no text spells two UUIDs, and printing a parsed dashed text gives it in lower case |
| Fixed8.Print | common/types/fixed8.go:31-48 | the printed form, the most negative number included |
| Fixed8.Decode | common/types/fixed8.go:67-84 | the loop and the wrapping arithmetic give the wrapped value of both parts |
| Fixed8.DecodedOfPattern | common/types/fixed8.go:67-84 | a text of the documented pattern is refused exactly when its whole part does not fit in 63 bits, and otherwise read modulo 2^64 |
| Fixed8.ExactIffFits | common/types/fixed8.go:67-84 | it is read as exactly its value times 10^8 if and only if that fits in 64 bits |
| Fixed8.AcceptedIff | common/types/fixed8.go:67-84 | a text is accepted if and only if both parts are integers with optional signs, the whole part fits in 64 bits and the decimals, read as an integer, fit and are below 10^8; and what it is then read as |
| Fixed8.AcceptedMatchesIff | common/types/fixed8.go:25-84 | an accepted text is of the documented pattern if and only if it has no sign and at most eight decimals |
| Fixed8.AcceptedIffPattern | common/types/fixed8.go:25-84 | for every text: accepted, without signs and with at most eight decimals, if and only if of the documented pattern with a whole part that fits |
| Fixed8.NegativeDecimalsAreAccepted | common/types/fixed8.go:76-83 | whatever the digits, a minus sign behind the dot is accepted and the decimals are taken off |
| Fixed8.LongDecimalsAreAccepted | common/types/fixed8.go:76-83 | whatever the digits, more than eight decimals that begin with zeros enough are accepted and read as if the last were the eighth |
| Fixed8.PlusIsIgnored | common/types/fixed8.go:67-84 | in the integers that both parts are read as, a plus sign before the digits changes nothing |
| Fixed8.PrintedMatches | common/types/fixed8.go:31-48 | a number that is not negative is printed in the documented pattern, with its own value |
| Fixed8.MinimumIsPrinted | common/types/fixed8.go:31-48 | the most negative number has no absolute value and prints as --92233720368.-54775808, both parts rounded toward zero |
| Fixed8.MinimumIsUnreadable | common/types/fixed8.go:31-48 | the most negative number prints a text that is refused |
| Fixed8.RoundTrip | common/types/fixed8.go:31-84 | reading back a printed number returns it if and only if it is not negative or has no decimals |

## Left out

- Reflection, the type cache, struct tags other than a tail, and custom encoders and decoders: types are data here.
- Recursive Go types, nil pointers and "nil" tags; other pointers are transparent. Decoding into values that already hold something.
- RawValue content: it is kept as it is, neither encoded nor checked, as in the code.
- Decoder.Decode: stated for streams whose limit is exactly their input, which is what DecodeBytes sets up; on other streams the single reads, the invariant, the limit and Raw are stated. Which of several errors is reported is not stated, here and for the stream and the slice parser, except for the end of a list and of the input.
- Stream.Stream.ListEnd: a value that was looked at but not read is dropped with the list, as in the code; no claim is made about it.
- Lists of open lists and list headers: the decoder's stack is a linked value and the encoder refers to headers by index, not by pointer.
- Witnesses.SurvivalIff: stated for types of weight below 2^64, since longer witnesses cannot be decoded; types such as arrays of 2^63 elements are left open.
- Witnesses.CanonicalIff: the same.
- Witnesses.TerminationIff: the same.
- Stream.Stream.ReadKind: on a reader that may end together with its last bytes, whether a tag that is its last bytes is read is left open, as it depends on the reader.
- Claim.ParsePackageInverts: payloads of 2^64 bytes or more are excluded, here and in the codec, as the code's sizes are 64-bit.
- Reconnect.NoSendBlocksUndisturbed: safety only; that a goroutine which can move does move is not stated. Dialling, timers, response dispatch and the order of stopping are single nondeterministic steps or absent.
- SendToken.Sort: an insertion sort stands for the library's sort, of which only its result is used; lists that overlap in part are not modelled, shared lists are.
- Uuid.Generator.NewV1: calls are ordered by the generator's lock; clock, random bytes and interface addresses are parameters, and a failed random read leaves the address as it was.
- UUID versions 2 to 5, binary and database forms, and hardware address discovery.
- Fixed8 JSON and floating-point paths.
- Allocation failure, error texts and logging.
- Keys, signing, bech32, amino and JSON codecs, REST and query clients, and the validation of other messages: mostly library calls or single branches.
