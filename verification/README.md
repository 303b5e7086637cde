# Verified models of the nanopb codec and of four Alamofire components

This project models, in Dafny, the parts of the applications' libraries whose correctness is hardest to
see from the code: the nanopb wire codec in C, and in Swift the authentication interceptor, the
multipart form encoder, the response serializer chain of a request, and the map between requests and
tasks. `dafny verify dfyconfig.toml` checks all of it.

## What is modelled

**The nanopb codec** (`FirebasePractise/Pods/nanopb`), in the configuration of `pb.h` with 32-bit
`pb_size_t`, 64-bit integers and packed arrays.

- `Descriptor` has the descriptor rows and the messages: one slot per row, the slot of a union's first
  row holding what the union holds. `FieldIter` is the wrap-around iterator over integer offsets.
- `EncodeSpec` and `DecodeSpec` say as functions on byte sequences what is emitted and accepted.
  `OStream`, `Encoder`, `IStream`, `Decoder` and `RequiredBits` are the streams, loops and bit operations
  of the C code, as classes and methods that are proved to compute those functions.
- `WireFormat` and `WireReading` say in numbers what every value looks like on the wire and what every
  sequence of bytes is read as; `Samples` has a message of the repository's own tables.
- `RoundTrip`, `Merge`, `SubmessageMerge`, `Presence`, `Compatibility`, `DecodeSafety`, `Leftovers` and `Reencode`
  prove the laws of the functions, and `Codec` puts the two programs together. `Varint` and `ScalarRoundTrip` have
  the scalar codecs, `Memory` what clearing bytes does to values, `Bits` the arithmetic.

An array's slot has its count and its whole memory, so what decoding leaves of a structure's old contents is in
the model: `Defaults(fields, was)` sets the structure `was` to defaults as the C code does, and entries are
decoded over the ones that were there.

The encoder's contract is the predicate `OStream.Emitted`: success exactly when the value is encodable and
fits, exactly the right bytes appended, nothing else touched. The same contract on a sizing stream says
that sizing counts what writing writes. The decoder's methods promise acceptance exactly when the
specification accepts, and conserve position plus `bytes_left`; `DecLoop`, `DecMsg` and their methods
terminate because each round shrinks the remaining bytes.

**The authentication interceptor.** `Authentication` is the protocol: locked steps on the mutable state, a
FIFO of dispatched blocks of which the first runs one iteration at a time, and the authenticator's
outstanding calls. Threads interleave between steps in any order. `RefreshDecisions` says what each step decides
and `RefreshOutcomes` who learns what; `AuthenticationInterceptor` is the object. An operation is counted as
queued again when it is put on the wait list by the draining block and a refresh is then running; one that meets
the rate limit leaves for a failure block in the same step.

**Multipart form data.** `MultipartFormat` has the format, the grammar of section 5.1.1 of RFC 2046 as a
parser with preamble, transport padding and epilogue, and the round trip. `MultipartFormData` has the two
encoders as loops over streams that deliver and take pieces of any size.

**Serializer chain and task map.** `SerializerChain` and `TaskMap` are the protocols, `LateAppends` has the
runs that go on after a request finished, `Request` and `RequestTaskMap` are the objects.

## Where the code and its promises part

- A multipart body that merely starts with `--` and the boundary breaks the form, although it does not
  contain the delimiter (`MultipartFormat.BodyAtBoundary`); the exact condition is in `FormRoundTrip`.
- `writeEncodedData` ends without an error when the output has no more room, and does not compare lengths
  as `encode` does.
- A static string without room for its terminator is encoded and cannot be decoded
  (`ScalarRoundTrip.UnterminatedIsRefused`), and a union whose which_ member names no field is dropped;
  `Reencode.ComesBackExactly` has the exact condition.
- A stream in two parts of a form is read by the first; `encode` then fails on the other's length, and
  `writeEncodedData` writes it with an empty body.
- `pb_decode` enforces only the first 64 required fields.
- In an empty message type the search for tag 0 finds the terminating row, so such a key is read as a bool.
- `pb_decode` does not initialise fixed-count arrays. One the message does not bring keeps its old contents,
  but for the four bytes that are cleared as if they were its count, and `pb_encode` may refuse them
  (`Leftovers.TooLongStringStays`); `Leftovers.EncodableUnlessLeft` has the exact condition.
- Two encodings that are accepted in turn may be refused when joined, exactly when the last
  fixed-count array in the one is the first in the other (`Merge.MergeByConcatenation`, `FixedCountDoesNotMerge`).
- A serializer appended between the last check and the clear is dropped (`SerializerChain.RacedAppendIsLost`).
- A serializer appended after the end may run twice: two such appends do it, and so does one followed by
  `cancel()` (`SerializerChain.LateAppendsRunTwice`, `LateAppends.LateCancelRunsTwice`). `LateAppends.NoneTwice`
  has the exact condition, `LateAppends.CalmExactlyOnce` one that a caller can keep to.

Every lemma switches automatic induction off, so each proof shows the induction it uses.

## Model

| member | source | states |
|---|---|---|
| `RoundTrip.MsgRoundTrip` | FirebasePractise/Pods/nanopb/pb_encode.c:240-426 | Main result. For every message that fits its table, is encodable and can travel: decoding its encoding onto defaults, whatever the structure held before, accepts, reads to the end, and gives an equal message, through required, optional, proto3, repeated (packed, unpacked, fixed-count), oneof and nested submessage rows |
| `Codec.EncodeThenDecode` | FirebasePractise/Pods/nanopb/pb_encode.c:528-550 | The same for the two programs: encoding into any large enough buffer and decoding what was written into any structure both succeed, nothing is left unread, and the message is equal |
| `RoundTrip.ZeroMsgIsDefault` | FirebasePractise/Pods/nanopb/pb_encode.c:240-329 | A submessage the proto3 check takes for absent equals the defaults the decoder will put there, at any depth |
| `RoundTrip.ValRoundTrip` | FirebasePractise/Pods/nanopb/pb_decode.c:1519-1541 | Every value, submessages included, decodes from its encoding followed by anything, leaving exactly what follows |
| `RoundTrip.ArrayRoundTrip` | FirebasePractise/Pods/nanopb/pb_decode.c:421-463 | A non-empty array row comes back entry by entry, whether packed in one run or sent one by one, and a fixed-count row ends complete |
| `RoundTrip.SingularRow` | FirebasePractise/Pods/nanopb/pb_decode.c:414-420 | A row with one value takes the decoder from the state "rows before i received" to "rows up to i received", also inside a union |
| `RoundTrip.LoopEnds` | FirebasePractise/Pods/nanopb/pb_decode.c:1026-1073 | When all rows were received the message is equal and every final check passes |
| `RoundTrip.KeyRoundTrip` | FirebasePractise/Pods/nanopb/pb_decode.c:298-319 | A key with a legal field number is read back as its wire type and tag |
| `Merge.MergeByConcatenation` | FirebasePractise/Pods/nanopb/pb_decode.c:928-1076 | Main result. Where `a`, not ended by a zero key, takes m0 to m1 and `b` takes m1 to m2: a ++ b takes m0 to m2 if and only if the last fixed-count row `a` enters is not the first one `b` enters, or has no entries; otherwise a ++ b is refused. For every table |
| `Merge.DecodeConcatenation` | FirebasePractise/Pods/nanopb/pb_decode.c:928-1076 | When `b` need not be accepted alone: without such a clash a ++ b is accepted if and only if `b` runs from what `a` left and the required rows were seen in one or the other; then the result is `b`'s |
| `Merge.LoopAppend` | FirebasePractise/Pods/nanopb/pb_decode.c:944-1024 | What follows a message never influences how it is read: the field loop goes on after `a` as it would have started there, for every table |
| `Merge.ZeroKeyEnds` | FirebasePractise/Pods/nanopb/pb_decode.c:298-319 | A zero key ends the message for good: everything after it is ignored |
| `Merge.FixedCountDoesNotMerge` | FirebasePractise/Pods/nanopb/pb_decode.c:993-1013 | The clash happens: a table and bytes that are accepted twice in turn and refused when joined |
| `Merge.ClashFails` | FirebasePractise/Pods/nanopb/pb_decode.c:993-1013 | Bytes that bring a fixed-count row first are refused when that row is already full and in progress |
| `Merge.LoopAmid` | FirebasePractise/Pods/nanopb/pb_decode.c:993-1013 | Other bytes are read the same whichever complete fixed-count row came last |
| `Merge.UnknownFieldIsInert` | FirebasePractise/Pods/nanopb/pb_decode.c:960-989 | Main result. A complete field with a tag no row has, put in at any field boundary, leaves the result unchanged, accepted or refused |
| `Compatibility.UnawareReaderSkipsAll` | FirebasePractise/Pods/nanopb/pb_decode.c:944-989 | Main result. A reader whose table has none of a message's tags reads its whole encoding to the end and ends as if it had been given no bytes |
| `Compatibility.ValSkipped` | FirebasePractise/Pods/nanopb/pb_encode.c:675-707 | Skipping by the wire type the encoder announces for a row consumes exactly the payload it emits, for every type |
| `Merge.SkipLocal` | FirebasePractise/Pods/nanopb/pb_decode.c:321-331 | Skipping a payload consumes the same bytes whatever follows |
| `Merge.LastOneWins` | FirebasePractise/Pods/nanopb/pb_decode.c:406-420 | An earlier occurrence of a singular field that is not a message leaves no trace in the state |
| `Merge.LastFieldWins` | FirebasePractise/Pods/nanopb/pb_decode.c:944-1024 | The same in the loop: a field that occurs again might as well not have occurred before |
| `Merge.RepeatedAppends` | FirebasePractise/Pods/nanopb/pb_decode.c:421-463 | A repeated row's new entries go after those it has, and never past its array |
| `Merge.RunsJoin` | FirebasePractise/Pods/nanopb/pb_decode.c:433-447 | Two packed runs decode to the same entries as one, and fail together |
| `Merge.PackedOrNot` | FirebasePractise/Pods/nanopb/pb_decode.c:421-463 | A packed run of one entry and the entry on its own are received alike, up to a full array |
| `SubmessageMerge.PiecesMerge` | FirebasePractise/Pods/nanopb/pb_decode.c:1519-1541 | Main result. A submessage sent in two pieces, each accepted in turn onto what its member holds, required, optional or the selected one of a union: the two fields leave exactly what one field with both payloads leaves, or that one is refused, exactly when the last fixed-count array in the one piece is the first in the other |
| `SubmessageMerge.OntoWhatIsThere` | FirebasePractise/Pods/nanopb/pb_decode.c:414-420 | A singular submessage is decoded onto the message its member holds, and replaces nothing but what its bytes bring |
| `SubmessageMerge.UnionStartsAfresh` | FirebasePractise/Pods/nanopb/pb_decode.c:466-476 | In a union that holds another member or none, it is decoded onto the defaults of a structure of zeros |
| `SubmessageMerge.EntryAppended` | FirebasePractise/Pods/nanopb/pb_decode.c:448-463 | Each occurrence of a repeated submessage is one more entry, decoded onto defaults; with a full array it is refused |
| `Presence.AcceptedExactly` | FirebasePractise/Pods/nanopb/pb_decode.c:1026-1073 | Main result. Bytes are accepted if and only if every field is well-formed, the last fixed-count array is complete, and every one of the first 64 required rows is in them |
| `Presence.AbsentHoldsDefault` | FirebasePractise/Pods/nanopb/pb_decode.c:839-900 | A field the bytes do not bring is absent, and its member holds its own default, at any depth: the table's, or zero or empty; whatever the structure held |
| `Presence.DefaultsAreUnset` | FirebasePractise/Pods/nanopb/pb_decode.c:902-922 | Setting to defaults leaves a message none of whose fields was received |
| `Presence.ZeroByteEnds` | FirebasePractise/Pods/nanopb/pb_decode.c:298-319 | A zero byte ends any message: what came before is read as if it ended there, and what follows is left unread |
| `Presence.NullTerminatedComesBack` | FirebasePractise/Pods/nanopb/pb_encode.c:557-565 | What the null-terminated encoder writes is read back, and the bytes behind it are left |
| `DecodeSafety.DecodedIsEncodable` | FirebasePractise/Pods/nanopb/pb_decode.c:1078-1090 | Main result. Whatever bytes pb_decode accepts, into a structure with any contents, the message keeps to all array, string, integer and which_ bounds of its table, and pb_encode takes it if and only if every fixed-count array present in it, at any depth, received entries or holds ones that can be encoded; always, when the structure's memory was within bounds before |
| `Reencode.DecodedComesBack` | FirebasePractise/Pods/nanopb/pb_decode.c:1078-1090 | Main result. Whatever bytes pb_decode accepts, into memory within bounds or for a table without fixed-count rows: pb_encode takes the message, pb_decode accepts what it emits, if below 2^32 bytes, into an equal message, and that message has the very same encoding |
| `Reencode.ComesBackExactly` | FirebasePractise/Pods/nanopb/pb_encode.c:528-550 | Main result. A message that fits its table and is encodable, in less than 2^32 bytes, comes back from its encoding, into memory within bounds, as an equal message if and only if its strings have room for their terminators and its which_ members name a field or none, wherever it emits anything |
| `Reencode.MsgTravels` | FirebasePractise/Pods/nanopb/pb_encode.c:717-765 | Nested lengths need no bound of their own: they are below 2^32 when the whole encoding is |
| `Reencode.EqEncodes` | FirebasePractise/Pods/nanopb/pb_encode.c:240-426 | Equal messages within bounds have the same encoding, and the proto3 check takes both for absent or neither |
| `Reencode.ZeroHasNoBytes` | FirebasePractise/Pods/nanopb/pb_encode.c:240-329 | A message the proto3 check takes for absent has an empty encoding |
| `Leftovers.EncodableUnlessLeft` | FirebasePractise/Pods/nanopb/pb_decode.c:865-873 | For every table and any old contents: pb_encode takes the result if and only if each row that the bytes do not bring held nothing it refuses when the structure had been set to defaults, and each row they bring whose submessages have fixed-count arrays of entries that carry a length, a count or a which_ holds nothing it refuses |
| `Leftovers.PlainEncodable` | FirebasePractise/Pods/nanopb/pb_decode.c:865-873 | Without such arrays inside submessages that is a condition on what the caller has: each fixed-count array of entries that carry a length, a count or a which_ is in the bytes, or held entries pb_encode takes, the first bytes cleared |
| `Leftovers.LeftHarmless` | FirebasePractise/Pods/nanopb/pb_decode.c:839-922 | What setting to defaults leaves in such a row is taken if and only if it is no such array, or its old entries are |
| `Leftovers.ReceivedOrLeft` | FirebasePractise/Pods/nanopb/pb_decode.c:991-1031 | A fixed-count array is received to its last entry or keeps what it held, but for its first four bytes |
| `Leftovers.EnteredComplete` | FirebasePractise/Pods/nanopb/pb_decode.c:993-1031 | Once the bytes bring one entry of a fixed-count row, success means they brought all |
| `Leftovers.UnenteredKept` | FirebasePractise/Pods/nanopb/pb_decode.c:944-1024 | A row that the bytes do not bring is not changed by the loop; a union's row is not selected by it |
| `Leftovers.TooLongStringStays` | FirebasePractise/Pods/nanopb/pb_decode.c:865-873 | Why old contents matter: an empty message is accepted and leaves a byte string that pb_encode refuses |
| `Memory.WipedConforms` | FirebasePractise/Pods/nanopb/pb_decode.c:865-873 | Clearing the first bytes of a structure's memory, little-endian, leaves every member within its type, whatever member they fall in |
| `Memory.WipedMembers` | FirebasePractise/Pods/nanopb/pb_decode.c:865-873 | Member by member: a flag, count or which_ that begins in the cleared bytes is zero, of a value there is cleared what lies there, and all else is as it was |
| `Memory.FixedArrayDefault` | FirebasePractise/Pods/nanopb/pb_decode.c:865-873 | In a fixed-count array of numbers, setting to defaults clears the first four bytes and no other |
| `Memory.DefaultKeeps` | FirebasePractise/Pods/nanopb/pb_decode.c:865-885 | Any other array keeps its entries and a union its storage; only count and which_ are cleared |
| `Memory.ZerosConform` | FirebasePractise/Pods/nanopb/pb_decode.c:466-476 | A structure of zero bytes, as a union gets for a new submessage, is a message of its table |
| `DecodeSafety.MsgSafe` | FirebasePractise/Pods/nanopb/pb_decode.c:928-1076 | Decoding keeps a message within its bounds, including submessages merged onto old contents, entries of repeated submessages decoded over old entries, and unions that change their field |
| `DecodeSafety.ScalarSafe` | FirebasePractise/Pods/nanopb/pb_decode.c:1339-1551 | An accepted scalar fits its member: integers their width, bytes and strings their buffer with the terminator |
| `DecodeSafety.ItemsSafe` | FirebasePractise/Pods/nanopb/pb_decode.c:433-447 | A packed run never yields more entries than there is room for |
| `DecodeSafety.MsgEncodable` | FirebasePractise/Pods/nanopb/pb_encode.c:528-550 | A message within bounds is taken by the encoder if and only if no fixed-count array in it holds an entry the encoder refuses |
| `DecodeSafety.DefaultsSafe` | FirebasePractise/Pods/nanopb/pb_decode.c:839-922 | Setting to defaults brings any contents within bounds, fixed-count arrays as far as they held such entries |
| `Encoder.PbEncode` | FirebasePractise/Pods/nanopb/pb_encode.c:528-550 | Succeeds exactly when the message is encodable and its encoding fits; then it has appended exactly the encoding and touched nothing else; on failure it stayed within the room |
| `Encoder.EncodeSubmessage` | FirebasePractise/Pods/nanopb/pb_encode.c:717-765 | The same for a length-prefixed message; the length found on the sizing stream is the length written, so "submsg size changed" is never reported |
| `Encoder.GetEncodedSize` | FirebasePractise/Pods/nanopb/pb_encode.c:567-576 | Gives the exact length of the encoding, and nothing exactly when the message is not encodable |
| `Encoder.EncodeNullTerminated` | FirebasePractise/Pods/nanopb/pb_encode.c:557-565 | The encoding and a zero byte, or failure under the same exact condition |
| `Encoder.EncodePacked` | FirebasePractise/Pods/nanopb/pb_encode.c:158-195 | Tag, byte count and entries; the byte count, computed or sized, is that of the entries |
| `Encoder.PackedSize` | FirebasePractise/Pods/nanopb/pb_encode.c:165-184 | The size announced for a packed run is the number of bytes its entries take |
| `Encoder.FixedItemsSize` | FirebasePractise/Pods/nanopb/pb_encode.c:166-173 | Fixed-size entries take 4 or 8 bytes each, so the short cut agrees with sizing |
| `Encoder.EncodeArray` | FirebasePractise/Pods/nanopb/pb_encode.c:147-236 | Refuses exactly arrays over their bound or with entries that cannot be encoded, and emits exactly the array's encoding |
| `Encoder.EncodeTaggedItems` | FirebasePractise/Pods/nanopb/pb_encode.c:198-232 | Entries that cannot be packed are emitted each with its tag, in order |
| `Encoder.EncodeItems` | FirebasePractise/Pods/nanopb/pb_encode.c:175-195 | The loops over packed entries emit, or count, exactly the entries |
| `Encoder.EncodeRow` | FirebasePractise/Pods/nanopb/pb_encode.c:333-426 | A row is emitted exactly when its has_ flag, which_ member, count or zero check says so |
| `Encoder.CheckProto3Default` | FirebasePractise/Pods/nanopb/pb_encode.c:242-329 | Agrees with the recursive definition of an all-default row, walking the submessage with the iterator |
| `Encoder.CheckSubmessageDefault` | FirebasePractise/Pods/nanopb/pb_encode.c:292-312 | The walk stops at the first row that is set and finds one exactly when there is one |
| `Encoder.EncodeScalar` | FirebasePractise/Pods/nanopb/pb_encode.c:769-913 | Each scalar encoder emits its value's encoding, and refuses exactly a bad integer size or too many bytes |
| `WireFormat.IntegerWire` | FirebasePractise/Pods/nanopb/pb_encode.c:776-833 | Main result. On the wire every integer is one varint, of its 64-bit two's complement or its zigzag form, whatever the size of its member; refused for sizes other than 1, 2, 4 and 8 |
| `WireFormat.WidthDoesNotShow` | FirebasePractise/Pods/nanopb/pb_encode.c:776-833 | So a reader whose member has 64 bits reads every integer as the same number, negative ones of a 32-bit member included |
| `WireFormat.BoolWire` | FirebasePractise/Pods/nanopb/pb_encode.c:769-774 | A bool is the byte 0 or 1 |
| `WireFormat.FixedWire` | FirebasePractise/Pods/nanopb/pb_encode.c:835-850 | A fixed-size number is four or eight bytes, worth 1, 256, 65536, ... |
| `WireFormat.StringWire` | FirebasePractise/Pods/nanopb/pb_encode.c:852-912 | A byte string is its length as a varint and its bytes, refused when it and its four-byte header do not fit the member; a text ends before its first zero byte |
| `WireFormat.MessageWire` | FirebasePractise/Pods/nanopb/pb_encode.c:717-765 | A submessage is the length of its encoding as a varint and its encoding |
| `WireFormat.KeyWire` | FirebasePractise/Pods/nanopb/pb_encode.c:669-707 | A field begins with a varint of eight times its number plus 0, 1, 2 or 5 by its type |
| `WireFormat.ArrayWire` | FirebasePractise/Pods/nanopb/pb_encode.c:147-236 | An array that can be packed is one field of type 2 with the length and all entries; any other is one field for each entry; in order |
| `WireFormat.ArrayRowWire` | FirebasePractise/Pods/nanopb/pb_encode.c:371-426 | All entries of a fixed-count array are emitted, and of any other as many as are counted |
| `WireFormat.RowWire` | FirebasePractise/Pods/nanopb/pb_encode.c:333-426 | A singular row is emitted when it is required, its has_ is set, its union has selected it, or, without a has_, when it is not zero |
| `WireFormat.ZeroMeans` | FirebasePractise/Pods/nanopb/pb_encode.c:242-329 | Zero is a number 0, an empty byte string, a text that begins with its terminator, and a message that encodes to nothing |
| `WireFormat.ZeroIffNoBytes` | FirebasePractise/Pods/nanopb/pb_encode.c:242-329 | The zero check takes a message within bounds, of a table without fixed-count arrays of no entries, for absent if and only if it encodes to nothing |
| `WireFormat.MessageIsRows` | FirebasePractise/Pods/nanopb/pb_encode.c:528-550 | A message is the bytes of its rows, one after another, in the order of the table |
| `WireFormat.ArrayEncodable` | FirebasePractise/Pods/nanopb/pb_encode.c:147-160 | An array is refused if and only if it is over its bound or one of its entries is |
| `WireFormat.RowEncodable` | FirebasePractise/Pods/nanopb/pb_encode.c:333-426 | A singular row is refused if and only if what it emits is |
| `Samples.OfflineOnTheWire` | FirebasePractise/Pods/GoogleDataTransport/GoogleDataTransport/GDTCCTLibrary/Protogen/nanopb/cct.nanopb.c:43-47 | NetworkConnectionInfo with network_type NONE, which is -1, and subtype LTE, byte by byte |
| `Samples.OfflineIsRead` | FirebasePractise/Pods/GoogleDataTransport/GoogleDataTransport/GDTCCTLibrary/Protogen/nanopb/cct.nanopb.c:43-47 | Those bytes are read as that message, and without bytes the members hold the table's defaults, -1 and 0 |
| `Encoder.EncodeVarint` | FirebasePractise/Pods/nanopb/pb_encode.c:608-628 | The loop over the ten-byte buffer emits the base-128 form |
| `Encoder.EncodeSVarint` | FirebasePractise/Pods/nanopb/pb_encode.c:630-639 | Emits the varint of the zigzag form |
| `Encoder.EncodeFixed32` | FirebasePractise/Pods/nanopb/pb_encode.c:641-651 | Emits the four bytes, least significant first |
| `Encoder.EncodeFixed64` | FirebasePractise/Pods/nanopb/pb_encode.c:653-667 | Emits the eight bytes, least significant first |
| `Encoder.EncodeTag` | FirebasePractise/Pods/nanopb/pb_encode.c:669-673 | Emits the key |
| `Encoder.EncodeString` | FirebasePractise/Pods/nanopb/pb_encode.c:709-715 | Emits the length and the bytes, or fails within the room |
| `EncodeSpec.TagKey` | FirebasePractise/Pods/nanopb/pb_encode.c:669-673 | Shifting and or-ing gives eight times the field number plus the wire type |
| `OStream.Stream.Write` | FirebasePractise/Pods/nanopb/pb_encode.c:103-124 | Succeeds exactly when the bytes fit (always, when sizing); never writes past the limit and leaves earlier bytes alone |
| `OStream.Stream.BufWrite` | FirebasePractise/Pods/nanopb/pb_encode.c:74-84 | The bytes are in the buffer and the rest of it is unchanged |
| `OStream.EmittedThen` | FirebasePractise/Pods/nanopb/pb_encode.c:717-765 | Emissions compose: one after a successful other is one emission of both |
| `OStream.EmittedMeans` | FirebasePractise/Pods/nanopb/pb_encode.c:103-124 | What every encoder's contract says, in places of the buffer: where the bytes stand, what is as it was, and how the counters moved |
| `OStream.EmittedInside` | FirebasePractise/Pods/nanopb/pb_encode.c:740-765 | What was emitted into a substream is, seen from its parent, one emission |
| `OStream.SubstreamFilled` | FirebasePractise/Pods/nanopb/pb_encode.c:740-765 | A substream exactly as long as its contents is filled to the last byte |
| `Varint.DecVarintMeaning` | FirebasePractise/Pods/nanopb/pb_decode.c:255-275 | pb_decode_varint accepts exactly inputs that begin with a varint of at most ten bytes and returns its base-128 value modulo 2^64 |
| `Varint.VarintRoundTrip` | FirebasePractise/Pods/nanopb/pb_encode.c:608-628 | Every uint64 decodes from its encoding, of 1 to 10 bytes, leaving what follows |
| `Varint.EncVarintIsVarint` | FirebasePractise/Pods/nanopb/pb_encode.c:608-628 | Only the last byte of an encoding has bit 7 clear, and its base-128 value is the number |
| `Varint.CanonicalIsShortest` | FirebasePractise/Pods/nanopb/pb_encode.c:608-628 | No accepted varint of a number is shorter than the one the encoder emits |
| `Varint.EncVarintLength` | FirebasePractise/Pods/nanopb/pb_encode.c:608-628 | A number below 2^(7n) takes at most n bytes |
| `Varint.DecVarint32Meaning` | FirebasePractise/Pods/nanopb/pb_decode.c:187-247 | pb_decode_varint32 accepts only varints, ends where they end, and on ten bytes or fewer gives the value modulo 2^32 |
| `Varint.Varint32IsVarintModulo` | FirebasePractise/Pods/nanopb/pb_decode.c:187-275 | On at most ten bytes, whenever the 32-bit decoder accepts, the 64-bit one does, ends at the same place, and agrees modulo 2^32 |
| `Varint.Varint32RoundTrip` | FirebasePractise/Pods/nanopb/pb_decode.c:187-247 | The 32-bit decoder accepts every canonical encoding of 0 to 2^32 - 1 and returns the number |
| `Varint.NegativeVarint32` | FirebasePractise/Pods/nanopb/pb_decode.c:205-232 | It accepts every sign-extended negative int32 and returns it modulo 2^32 |
| `WireReading.Varint32Reads` | FirebasePractise/Pods/nanopb/pb_decode.c:187-247 | Of at most ten bytes it accepts exactly those whose digits fit 32 bits or go on as the sign of a negative number, and returns the value modulo 2^32 |
| `WireReading.KeyReads` | FirebasePractise/Pods/nanopb/pb_decode.c:298-319 | A key has the wire type in its low three bits and the field number above; zero ends the message, and what is no 32-bit varint is an error |
| `WireReading.IntegerReads` | FirebasePractise/Pods/nanopb/pb_decode.c:1339-1422 | Which number an integer member gets from a varint, and that the field is refused if and only if the member cannot hold it |
| `WireReading.BoolReads` | FirebasePractise/Pods/nanopb/pb_decode.c:1328-1337 | A bool is 0 or 1 by its 32-bit varint |
| `WireReading.FixedReads` | FirebasePractise/Pods/nanopb/pb_decode.c:1293-1325 | The four or eight bytes as a number, or refused when there are fewer |
| `WireReading.StringReads` | FirebasePractise/Pods/nanopb/pb_decode.c:1441-1551 | A byte string or text is accepted if and only if it is there and fits its member with the room for header, terminator or exact size; an empty fixed-length one gives zeros |
| `WireReading.SkipReads` | FirebasePractise/Pods/nanopb/pb_decode.c:321-331 | What an unknown field takes: a varint of any length, eight bytes, a length and as many, or four; other wire types are refused |
| `ScalarRoundTrip.ZigZagRoundTrip` | FirebasePractise/Pods/nanopb/pb_decode.c:1279-1291 | Zigzag is the identity on all int64 |
| `ScalarRoundTrip.ZigZagMeans` | FirebasePractise/Pods/nanopb/pb_encode.c:630-639 | The shift and complement give -2n - 1 for negative n and 2n otherwise, without overflow |
| `ScalarRoundTrip.LittleEndianRoundTrip` | FirebasePractise/Pods/nanopb/pb_decode.c:1293-1325 | Fixed-size numbers are read back from their bytes |
| `ScalarRoundTrip.SignedRoundTrip` | FirebasePractise/Pods/nanopb/pb_decode.c:1339-1374 | int8, 16, 32 and 64 survive the widening to 64 bits and the casts back |
| `ScalarRoundTrip.ScalarRoundTrips` | FirebasePractise/Pods/nanopb/pb_decode.c:1328-1551 | Every scalar type decodes from its encoding to an equal value, given room for a string's terminator |
| `ScalarRoundTrip.UnterminatedIsRefused` | FirebasePractise/Pods/nanopb/pb_decode.c:1481-1517 | That room is needed: a string that fills its buffer is written without error and never read back |
| `FieldIter.Iter.Find` | FirebasePractise/Pods/nanopb/pb_common.c:78-95 | From any position, within one cycle: finds a row exactly when one that is no extension has the tag; with distinct tags it is the same row wherever the search started |
| `FieldIter.SearchFinds` | FirebasePractise/Pods/nanopb/pb_common.c:78-95 | The row found is the table's first with the tag that is no extension, and there is one if and only if the table has one |
| `FieldIter.Iter.Next` | FirebasePractise/Pods/nanopb/pb_common.c:20-76 | One row on, wrapping; data pointer, size pointer and required index stay those computed from the table's prefix, across unions too |
| `FieldIter.Iter.constructor` | FirebasePractise/Pods/nanopb/pb_common.c:8-18 | The iterator starts at the first row in a consistent state |
| `FieldIter.Iter.FindExtension` | FirebasePractise/Pods/nanopb/pb_decode.c:825-836 | Finds an extension row exactly when the table has one, and otherwise ends where it began |
| `FieldIter.PointersAreOffsets` | FirebasePractise/Pods/nanopb/pb_common.c:44-73 | For a table the PB_FIELD macros made from a structure, the iterator's pointers are the structure's real offsets |
| `FieldIter.UnionShares` | FirebasePractise/Pods/nanopb/pb_common.c:49-55 | All members of a union have the same pointers |
| `FieldIter.CountStoreInside` | FirebasePractise/Pods/nanopb/pb_decode.c:865-873 | The zero count set for a fixed-count row stays inside its array if and only if the array is at least as long as a count |
| `FieldIter.CountStoreReaches` | FirebasePractise/Pods/nanopb/pb_decode.c:865-873 | It reaches the next row's member if and only if that begins within a count's length of the array's start |
| `Decoder.Decode` | FirebasePractise/Pods/nanopb/pb_decode.c:1078-1090 | Accepts exactly the byte strings the specification accepts, with its message, which depends on the structure's old contents through fixed-count arrays alone; position plus bytes_left is conserved, and the stream is never left |
| `Decoder.DecodeNoinit` | FirebasePractise/Pods/nanopb/pb_decode.c:928-1076 | The same, merging onto a given message; the loop and every nested call strictly shrink the remaining bytes, so decoding ends |
| `Decoder.EnterRow` | FirebasePractise/Pods/nanopb/pb_decode.c:993-1020 | A new fixed-count row is refused exactly when the one before is incomplete, and the bitmap keeps standing for the set of required rows seen |
| `Decoder.FinalChecks` | FirebasePractise/Pods/nanopb/pb_decode.c:1026-1073 | Passes exactly when the last fixed-count row is complete and every one of the first 64 required rows was seen |
| `Decoder.DecodeRow` | FirebasePractise/Pods/nanopb/pb_decode.c:406-483 | One field: arrays append, other members are replaced or merged, unions that change field restart from defaults |
| `Decoder.DecodeEntries` | FirebasePractise/Pods/nanopb/pb_decode.c:421-463 | Packed or single entries are received exactly when the specification receives them, within the array |
| `Decoder.DecodeItems` | FirebasePractise/Pods/nanopb/pb_decode.c:433-442 | The packed loop gives all entries and empties the substream, or the run is refused |
| `Decoder.DecodeValue` | FirebasePractise/Pods/nanopb/pb_decode.c:1519-1541 | A submessage is decoded from a substream of its length, and the parent stream goes on right after it |
| `Decoder.DecodeScalar` | FirebasePractise/Pods/nanopb/pb_decode.c:1328-1551 | Each scalar decoder accepts exactly what fits its member |
| `Decoder.Clamp` | FirebasePractise/Pods/nanopb/pb_decode.c:1357-1372 | The cast-and-compare check accepts exactly the numbers of the member's type |
| `Decoder.OrBytesMeans` | FirebasePractise/Pods/nanopb/pb_decode.c:1293-1325 | Or-ing shifted bytes gives the little-endian number |
| `Decoder.SetToDefaults` | FirebasePractise/Pods/nanopb/pb_decode.c:902-922 | Every member, at every depth, holds its default; arrays keep their entries, but for the first four bytes of a fixed-count one |
| `Decoder.FieldToDefault` | FirebasePractise/Pods/nanopb/pb_decode.c:839-900 | One row: has_, count or which_ cleared, a singular value initialised, an array's memory left alone |
| `Decoder.DecodeDelimited` | FirebasePractise/Pods/nanopb/pb_decode.c:1107-1120 | Decodes exactly the announced bytes onto defaults and leaves the stream right after them |
| `Decoder.DecodeDelimitedNoinit` | FirebasePractise/Pods/nanopb/pb_decode.c:1092-1105 | The same onto a given message |
| `RequiredBits.BitsAreRows` | FirebasePractise/Pods/nanopb/pb_decode.c:1033-1073 | The bitmap has all bits below the count set exactly when every one of the first 64 required rows was seen, and none above |
| `RequiredBits.MarkTracks` | FirebasePractise/Pods/nanopb/pb_decode.c:1015-1020 | Setting a row's bit adds that row, and no other, to the set the bitmap stands for |
| `RequiredBits.AllMarked` | FirebasePractise/Pods/nanopb/pb_decode.c:1054-1073 | Comparing whole words and then the shifted rest finds a missing bit exactly when there is one |
| `RequiredBits.CountRequired` | FirebasePractise/Pods/nanopb/pb_decode.c:1033-1051 | The trailing walk gives the number of required rows from wherever the iterator stands |
| `IStream.Stream.Read` | FirebasePractise/Pods/nanopb/pb_decode.c:102-137 | Gives the next bytes and conserves position plus bytes_left, or fails exactly when there are too few |
| `IStream.Stream.DecodeVarint` | FirebasePractise/Pods/nanopb/pb_decode.c:255-275 | The byte loop computes the specification's varint |
| `IStream.Stream.DecodeVarint32` | FirebasePractise/Pods/nanopb/pb_decode.c:187-253 | The byte loop computes the specification's 32-bit varint, and reports end of input exactly on an empty stream |
| `IStream.Stream.DecodeKey` | FirebasePractise/Pods/nanopb/pb_decode.c:298-319 | Splits a key, and tells an ended message from a broken key |
| `IStream.Stream.Skip` | FirebasePractise/Pods/nanopb/pb_decode.c:321-331 | Consumes exactly the payload of a legal wire type, and fails exactly when it is incomplete or the type is not legal |
| `IStream.Stream.MakeSubstream` | FirebasePractise/Pods/nanopb/pb_decode.c:372-385 | The substream holds exactly the announced bytes, and the parent exactly those after them |
| `IStream.Stream.CloseSubstream` | FirebasePractise/Pods/nanopb/pb_decode.c:387-400 | The parent continues at the substream's end, however much of it was read |
| `Authentication.RefreshRateLimit` | ApiDemo/Pods/Alamofire/Source/AuthenticationInterceptor.swift:330-368 | Main result. In every run with a monotonic clock, no closed interval as long as the window holds more started refreshes than maximumAttempts |
| `Authentication.RequeueBound` | ApiDemo/Pods/Alamofire/Source/AuthenticationInterceptor.swift:250-274 | In every run, an adapt operation is made to wait again no more often than refreshes were started since it was submitted, and no more than maximumAttempts times while the clock stays within one window of that |
| `Authentication.AtMostOneRefresh` | ApiDemo/Pods/Alamofire/Source/AuthenticationInterceptor.swift:330-353 | In every run, between locked steps: a refresh is outstanding exactly while isRefreshing is set, never two, and both wait lists are empty otherwise |
| `Authentication.CompletionsConserved` | ApiDemo/Pods/Alamofire/Source/AuthenticationInterceptor.swift:250-326 | In every run, each submitted completion is in exactly one place: waiting, in a dispatched block, on its way to the lock, or called once |
| `Authentication.AllCalledAtRest` | ApiDemo/Pods/Alamofire/Source/AuthenticationInterceptor.swift:370-402 | When nothing is left to run, every submitted completion was called exactly once and nothing else was |
| `RefreshOutcomes.OutcomesAreReal` | ApiDemo/Pods/Alamofire/Source/AuthenticationInterceptor.swift:250-402 | Main result. In every run, each completion called is traced to the step that decided it: a request is adapted with the credential there is while nothing is being refreshed; a credential is missing only when there is none; any other retry or error is what the refresh ended with that this very operation or retry was waiting for, or that it was refused the refresh it asked for |
| `RefreshOutcomes.WaiterLearns` | ApiDemo/Pods/Alamofire/Source/AuthenticationInterceptor.swift:370-402 | Main result. In every run, who waits is told what the first refresh ended with that completed since: a retry to retry when it succeeded, both kinds its error when it failed; no other completion of theirs is ever called, and it was called when the queue is empty |
| `RefreshOutcomes.CredentialIsLatest` | ApiDemo/Pods/Alamofire/Source/AuthenticationInterceptor.swift:215-218 | The credential is the one last set or refreshed, or the first |
| `RefreshDecisions.RequirementDecides` | ApiDemo/Pods/Alamofire/Source/AuthenticationInterceptor.swift:250-274 | Main result. A step that handles an adapt operation: while a refresh runs it waits; without a credential it fails; a credential that requires no refresh adapts its request at once and starts none; one that does starts a refresh the operation waits for, or is refused when there were too many |
| `RefreshDecisions.OnlyTheseStart` | ApiDemo/Pods/Alamofire/Source/AuthenticationInterceptor.swift:330-353 | No step starts a refresh but such a one, or a retry that reaches the lock, while none runs and there were not too many |
| `RefreshDecisions.ExcessiveExactly` | ApiDemo/Pods/Alamofire/Source/AuthenticationInterceptor.swift:355-368 | A refresh is refused if and only if there is a window and at least maximumAttempts were started within its interval before now |
| `RefreshDecisions.RetryDecides` | ApiDemo/Pods/Alamofire/Source/AuthenticationInterceptor.swift:293-317 | Which retries are answered at once, and how, and which go to the lock |
| `RefreshDecisions.LockDecides` | ApiDemo/Pods/Alamofire/Source/AuthenticationInterceptor.swift:319-326 | There they wait for the refresh that runs, or start one, or are refused |
| `RefreshDecisions.QueueDecides` | ApiDemo/Pods/Alamofire/Source/AuthenticationInterceptor.swift:381-401 | Of those who waited, first the adapt operations and then the retries are told, each in the order they came |
| `RefreshDecisions.CompletionDecides` | ApiDemo/Pods/Alamofire/Source/AuthenticationInterceptor.swift:370-402 | A refresh that completes hands over the whole wait lists, in order, and ends the refreshing |
| `Authentication.RefreshPaces` | ApiDemo/Pods/Alamofire/Source/AuthenticationInterceptor.swift:355-368 | The check before a refresh keeps any maximumAttempts + 1 consecutive refreshes further apart than the interval |
| `Authentication.SpacedMeans` | ApiDemo/Pods/Alamofire/Source/AuthenticationInterceptor.swift:355-368 | Such spacing is what bounds every interval |
| `Authentication.NextKeepsOne` | ApiDemo/Pods/Alamofire/Source/AuthenticationInterceptor.swift:250-402 | Every step keeps the one-refresh invariant |
| `Authentication.NextConserves` | ApiDemo/Pods/Alamofire/Source/AuthenticationInterceptor.swift:250-402 | Every step moves completions without losing or doubling one |
| `Authentication.NextLedger` | ApiDemo/Pods/Alamofire/Source/AuthenticationInterceptor.swift:250-402 | Every step keeps the account of refreshes started against waits |
| `AuthenticationInterceptor.Interceptor.Adapt` | ApiDemo/Pods/Alamofire/Source/AuthenticationInterceptor.swift:250-289 | adapt, called by a session or again by the draining block, changes the object as the protocol's step says |
| `AuthenticationInterceptor.Interceptor.Retry` | ApiDemo/Pods/Alamofire/Source/AuthenticationInterceptor.swift:293-317 | retry up to its lock |
| `AuthenticationInterceptor.Interceptor.RetryInsideLock` | ApiDemo/Pods/Alamofire/Source/AuthenticationInterceptor.swift:319-326 | retry inside its lock |
| `AuthenticationInterceptor.Interceptor.Refresh` | ApiDemo/Pods/Alamofire/Source/AuthenticationInterceptor.swift:330-353 | Starts a refresh, or drains the wait lists with an error when there were too many |
| `AuthenticationInterceptor.Interceptor.IsRefreshExcessive` | ApiDemo/Pods/Alamofire/Source/AuthenticationInterceptor.swift:355-368 | The fold over the timestamps decides as the recursive count does |
| `AuthenticationInterceptor.Interceptor.RunQueue` | ApiDemo/Pods/Alamofire/Source/AuthenticationInterceptor.swift:381-401 | The serial queue runs a refresh call or one iteration of a draining loop |
| `MultipartFormat.FormRoundTrip` | ApiDemo/Pods/Alamofire/Source/MultipartFormData.swift:322-338 | Main result. Parsing what encode() returns by the grammar of section 5.1.1 of RFC 2046 gives exactly the appended parts, in order, if and only if no line of any part, from its first header on, starts with the dash-boundary; for a boundary without CR and clean headers |
| `MultipartFormat.BodyAtBoundary` | ApiDemo/Pods/Alamofire/Source/MultipartFormData.swift:375-400 | It is not enough that no body contains the delimiter: a body that starts with the dash-boundary makes one with the line break before it |
| `MultipartFormat.FirstDelimiter` | ApiDemo/Pods/Alamofire/Source/MultipartFormData.swift:64-77 | The delimiter cannot overlap itself, so the first one found after a text without it is the one that was put there |
| `MultipartFormat.OutputIsDelimited` | ApiDemo/Pods/Alamofire/Source/MultipartFormData.swift:322-338 | The output is, behind one line break, delimiter, part, delimiter, part, ... and the closing delimiter |
| `MultipartFormat.ParsedIsSeparable` | ApiDemo/Pods/Alamofire/Source/MultipartFormData.swift:64-77 | Whatever the grammar accepts has only parts no delimiter runs through |
| `MultipartFormat.BodyPartRoundTrip` | ApiDemo/Pods/Alamofire/Source/MultipartFormData.swift:394-400 | Header lines and body are read back from a part's bytes |
| `MultipartFormat.ParseBodyPartSound` | ApiDemo/Pods/Alamofire/Source/MultipartFormData.swift:394-400 | Reading a part loses nothing: writing it again gives the same bytes |
| `MultipartFormat.SentTells` | ApiDemo/Pods/Alamofire/Source/MultipartFormData.swift:394-400 | Different lists of parts are parsed as different body parts |
| `MultipartFormat.EmptyFormIsNotMultipart` | ApiDemo/Pods/Alamofire/Source/MultipartFormData.swift:322-338 | An empty form encodes to nothing, which is not a multipart body |
| `MultipartFormat.SampleForm` | ApiDemo/Pods/Alamofire/Source/MultipartFormData.swift:394-400 | A form of two parts, byte by byte |
| `MultipartFormData.MultipartFormData.Encode` | ApiDemo/Pods/Alamofire/Source/MultipartFormData.swift:322-338 | With sound streams succeeds exactly when no append failed and every part gets its announced length from its stream, which delivers only to the first part that has it; then it gives the parts' encoding |
| `MultipartFormData.MultipartFormData.EncodeBodyStream` | ApiDemo/Pods/Alamofire/Source/MultipartFormData.swift:402-431 | Collects a stream's bytes whatever pieces it delivers, and throws when their number is not the announced one |
| `MultipartFormData.MultipartFormData.WriteEncodedData` | ApiDemo/Pods/Alamofire/Source/MultipartFormData.swift:347-371 | Writes the bytes encode() gives, as many as the stream has room for; lengths are not checked, so a part whose stream was read before is written with an empty body, and running out of room is not reported |
| `MultipartFormData.MultipartFormData.WriteBodyStream` | ApiDemo/Pods/Alamofire/Source/MultipartFormData.swift:452-476 | Whatever the pieces read and the pieces taken, the output is the stream's bytes |
| `MultipartFormData.MultipartFormData.Write` | ApiDemo/Pods/Alamofire/Source/MultipartFormData.swift:493-509 | The partial-write loop ends with all the data taken, or the stream full |
| `MultipartFormData.EncodeBoth` | ApiDemo/Pods/Alamofire/Source/MultipartFormData.swift:322-371 | Main result. Two equal fresh forms, one encoded in memory and one streamed into an output with room, give the same bytes |
| `MultipartFormData.EncodesParts` | ApiDemo/Pods/Alamofire/Source/MultipartFormData.swift:307-371 | From any list of parts, appended one by one, encode() gives the form's format, and so does writeEncodedData into an output with room for it |
| `MultipartFormData.FittingIs` | ApiDemo/Pods/Alamofire/Source/MultipartFormData.swift:493-509 | What a stream takes of data is its longest beginning that there is room for; all of it, if there is |
| `MultipartFormData.TotalLengthAdds` | ApiDemo/Pods/Alamofire/Source/MultipartFormData.swift:103-103 | The announced length of no part is zero, of one its own, and of two lists the sum |
| `MultipartFormData.MultipartFormData.Append` | ApiDemo/Pods/Alamofire/Source/MultipartFormData.swift:307-310 | Adds a fresh part with any stream and disturbs no other part; a stream that an earlier part has will deliver nothing to it |
| `MultipartFormData.MultipartFormData.MarkBoundaries` | ApiDemo/Pods/Alamofire/Source/MultipartFormData.swift:329-330 | Sets the first part's and the last part's flag, also when they are one |
| `MultipartFormData.MultipartFormData.ContentLength` | ApiDemo/Pods/Alamofire/Source/MultipartFormData.swift:103-103 | The fold gives the sum of the announced lengths |
| `MultipartFormData.MultipartFormData.SetBodyPartError` | ApiDemo/Pods/Alamofire/Source/MultipartFormData.swift:553-556 | The first error is kept |
| `SerializerChain.ExactlyOnce` | ApiDemo/Pods/Alamofire/Source/Request.swift:513-610 | Main result. In every run without reset and without appends after processing finished: once a finish was asked for and nothing is left to run, every serializer appended in time ran exactly once and its completion was called exactly once, in append order; the others are those appended between a failed check and its clear; all ran, if and only if there are none of these |
| `SerializerChain.NextInLine` | ApiDemo/Pods/Alamofire/Source/Request.swift:553-565 | In such runs a check finds the first serializer not complete: all before it in append order ran and completed, it has not run, and it is the one dispatched |
| `SerializerChain.InOrder` | ApiDemo/Pods/Alamofire/Source/Request.swift:533-610 | Throughout such runs at most one serializer is out, they run in append order, none twice, and completions are called only after all of them, in the same order |
| `SerializerChain.NextBehaves` | ApiDemo/Pods/Alamofire/Source/Request.swift:513-610 | Every step, however finish, cancel, suspend, resume and appends interleave, keeps the chain at one place |
| `SerializerChain.CancelledForever` | ApiDemo/Pods/Alamofire/Source/Request.swift:50-63 | In every run, late appends included, a cancelled request stays cancelled |
| `SerializerChain.CancelledIsFinal` | ApiDemo/Pods/Alamofire/Source/Request.swift:669-731 | No step leaves cancelled, only an append leaves finished, none returns to initialized |
| `SerializerChain.StateMoves` | ApiDemo/Pods/Alamofire/Source/Request.swift:50-63 | Where each step takes the life cycle: suspend from initialized or resumed, resume from initialized or suspended, cancel from all but cancelled and finished, the clear from all but cancelled, an append from finished |
| `SerializerChain.StepAsks` | ApiDemo/Pods/Alamofire/Source/Request.swift:533-548 | What each step asks of the underlying queue: an append that processing be taken up again or the request be resumed, a cancellation without a running task that it finish |
| `SerializerChain.RacedAppendIsLost` | ApiDemo/Pods/Alamofire/Source/Request.swift:553-590 | A run in which a serializer appended between the check and the clear never runs |
| `SerializerChain.LateAppendsRunTwice` | ApiDemo/Pods/Alamofire/Source/Request.swift:533-548 | A run in which two appends after the end make one serializer run twice |
| `LateAppends.NoneTwice` | ApiDemo/Pods/Alamofire/Source/Request.swift:533-601 | Main result. In every run without reset, late appends and cancellations included: no serializer is started twice if and only if every check found none dispatched, at work or about to report |
| `LateAppends.CalmExactlyOnce` | ApiDemo/Pods/Alamofire/Source/Request.swift:533-601 | Main result. What a caller keeps to: if, once the request has finished, each append waits until nothing is left to run and no finish is asked for while an appended serializer is being seen to, then at rest every serializer ran exactly once and its completion was called exactly once, in append order, late ones included, but for those between the last check and the first clear |
| `LateAppends.CalmRunsOnce` | ApiDemo/Pods/Alamofire/Source/Request.swift:533-601 | In such runs every check waits, so none is started twice |
| `LateAppends.TimelyIsCalm` | ApiDemo/Pods/Alamofire/Source/Request.swift:533-601 | Runs without late appends are such runs |
| `LateAppends.LateCancelRunsTwice` | ApiDemo/Pods/Alamofire/Source/Request.swift:669-690 | A run in which one append at rest, followed by cancel() while its serializer is out, makes it run twice |
| `Request.Request.AppendResponseSerializer` | ApiDemo/Pods/Alamofire/Source/Request.swift:533-548 | The object changes as the protocol's step says |
| `Request.Request.ProcessNextResponseSerializer` | ApiDemo/Pods/Alamofire/Source/Request.swift:568-601 | The check: dispatches the next serializer, or goes on to the clear |
| `Request.Request.ClearResponseSerializers` | ApiDemo/Pods/Alamofire/Source/Request.swift:571-598 | The clear: lists emptied, request finished unless cancelled, the completions called in order |
| `Request.Request.RunUnderlyingQueue` | ApiDemo/Pods/Alamofire/Source/Request.swift:513-527 | The serial queue starts its next block |
| `Request.Request.Cancel` | ApiDemo/Pods/Alamofire/Source/Request.swift:669-690 | Cancels unless that is impossible, and asks for a finish when no task runs |
| `TaskMap.RunIsConsistent` | ApiDemo/Pods/Alamofire/Source/RequestTaskMap.swift:115-148 | Main result. In every run in which each URLSessionTask is associated once and receives one metrics and one completion event in either order: no consistency error, the dictionaries stay mutual inverses with events on the same keys, and a URLSessionTask is associated exactly until the last of its events |
| `TaskMap.ProperUse` | ApiDemo/Pods/Alamofire/Source/RequestTaskMap.swift:115-148 | A single step: no error, and the URLSessionTask is removed exactly at its last event |
| `TaskMap.AssigningStores` | ApiDemo/Pods/Alamofire/Source/RequestTaskMap.swift:47-87 | Assigning, by either subscript, stores the pair in both dictionaries with no events, and changes no other key |
| `TaskMap.ClearingDrops` | ApiDemo/Pods/Alamofire/Source/RequestTaskMap.swift:47-87 | Assigning nothing drops the pair with that key from all three, changes no other key, and is fatal if and only if there is none |
| `TaskMap.MetricsDecide` | ApiDemo/Pods/Alamofire/Source/RequestTaskMap.swift:115-125 | Metrics are fatal if and only if the task is unknown or had them; they are noted, or take the task out if and only if it completed |
| `TaskMap.CompletionDecides` | ApiDemo/Pods/Alamofire/Source/RequestTaskMap.swift:127-147 | Completion is fatal if and only if the task is unknown or completed; it is noted, or takes the task out if and only if metrics came or never come |
| `TaskMap.AssociateKeepsInverse` | ApiDemo/Pods/Alamofire/Source/RequestTaskMap.swift:47-87 | Associating keeps the map one to one if and only if neither side is associated with another |
| `TaskMap.RemoveKeepsInverse` | ApiDemo/Pods/Alamofire/Source/RequestTaskMap.swift:47-87 | Removing by request and removing by task are the same |
| `TaskMap.CountsAgree` | ApiDemo/Pods/Alamofire/Source/RequestTaskMap.swift:89-113 | The preconditions of the counts hold of a one to one map |
| `RequestTaskMap.RequestTaskMap.SetTask` | ApiDemo/Pods/Alamofire/Source/RequestTaskMap.swift:47-66 | Sets or removes in all three dictionaries; fatal exactly when there is nothing to remove |
| `RequestTaskMap.RequestTaskMap.SetRequest` | ApiDemo/Pods/Alamofire/Source/RequestTaskMap.swift:68-87 | The same by task |
| `RequestTaskMap.RequestTaskMap.Count` | ApiDemo/Pods/Alamofire/Source/RequestTaskMap.swift:89-94 | The precondition holds and the count is that of all three dictionaries |
| `RequestTaskMap.RequestTaskMap.DisassociateIfNecessaryAfterGatheringMetrics` | ApiDemo/Pods/Alamofire/Source/RequestTaskMap.swift:115-125 | Fatal exactly on an unknown task or a second metrics event; removes the URLSessionTask exactly when it is complete |
| `RequestTaskMap.RequestTaskMap.DisassociateIfNecessaryAfterCompleting` | ApiDemo/Pods/Alamofire/Source/RequestTaskMap.swift:127-147 | Fatal exactly on an unknown task or a second completion; removes the URLSessionTask when metrics came or never come |

## Left out

- nanopb pointer fields and malloc, callback fields, encoding and decoding of extensions (the search for an
  extension row is there), streams with user callbacks, `PB_WITHOUT_64BIT`, error strings.
- Raw C memory: messages are values. An array's memory is kept past its count, but an unselected union
  member holds nothing. A message is returned, not updated in place, and after a failed decoding its contents
  are not described. Bytes cleared inside a value are those of a little-endian machine with aligned sizes.
- Decoder.SetToDefaults: does not model the bytes that the four-byte count of a fixed-count array shorter than
  that writes behind the array, which C leaves undefined; `FieldIter.CountStoreInside` and `CountStoreReaches`
  say when there are any.
- Decoder.FieldToDefault: the same bytes are not modelled.
- Encoder: size_t overflow of the output counter; the methods require that the bytes to write do not
  overflow it.
- Varint.DecVarint32Meaning: does not give the value of an accepted varint of more than ten bytes, because the
  C loop has no length limit and its 8-bit bit position wraps around.
- RoundTrip.MsgRoundTrip: assumes field numbers below 2^29 and nested lengths below 2^32, the limits of the wire
  format, and that proto3 fields have no default of their own.
- Authentication: the credential's own checks, the authenticator and the clock are parameters of the steps; a
  completion is called in the step that decides to call it; a credential that was replaced between retry's
  check and its lock is passed to refresh as in the code, and nothing is claimed about that refresh.
- MultipartFormat: strings are byte sequences; the space after a header's colon belongs to the parsed
  field-body; folded header lines, Content-Disposition, MIME types and random boundaries are not modelled.
- MultipartFormData: a stream is its bytes and an optional failure at the end, and delivers nothing when it is
  opened again after it was read; file checks other than those of writeEncodedData, and encoding the same form
  twice, are not modelled.
- SerializerChain: reset() for a retry, event monitors, progress, tasks and metrics; the delegate's choice to
  resume an appended-to request is a parameter.
- RequestTaskMap: `requests`, and the order in which dictionaries list their values.
- Alamofire's HTTP headers, retry policies, interceptor chains and parameter encoding: they keep no state
  between calls, and their output is not read back by another part. The generated table err_data.c and the
  applications' own code, which is views and network calls.
