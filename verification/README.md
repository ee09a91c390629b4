# Protocol cores of the ThorChat dependencies

A Dafny model of the four hardest parts of the libraries the application is built on, with proofs of what they keep,
undo and never do.

* **nanopb 0.3.9.6**, the protobuf codec. `Wire`, `EncodeSpec`, `DecodeSpec` and `IterSpec` say what the codec does, as
  functions of a descriptor table, a message tree and a window of bytes. `OStream`, `EncodeBasics`, `PbEncode`,
  `IStream`, `DecodeBasics`, `DecodeScalars`, `Bitmap`, `PbDecode` and `PbCommon` are the C code: streams with a cursor
  over a byte array, shift-and-or loops, the two-pass encoder, substreams, the field iterator and the bitmap of required
  fields. Each of their methods is proved to do what the functions say. The laws are then about the functions:
  `WireLaws`, `WireValues`, `ScalarLaws`, `RoundTrip`, `KeptMessages`, `Reencode`, `DecodedStructs`, `DecodedEncodes`,
  `PartialReader`, `Merge`, `Submessages`, `PackedArrays`, `FixedArrays`, `FixedTables`, `RequiredFields`, `Lookup` and
  `Layout`; `WireExamples` has a few encodings byte by byte.
* **Alamofire `AuthenticationInterceptor`**. `Authentication` is the class and its locked sections; `AuthProtocol` lets
  callers, the serial queue and the authenticator interleave freely between them; `RefreshRate`, `AuthRuns`,
  `AuthAnswers`, `AuthHistory`, `AuthPromises` and `AuthOrder` say what holds over every run: which calls are made, with
  which answer, with which credential and in which order.
* **Alamofire `Request` and `DataStreamRequest`**. `SerializerPipeline` runs the response serializers of a request one
  after another, `LateSerializers` those that are appended afterwards; `DataStream` holds completion events back until all parsers have finished.
* **Alamofire `MultipartFormData`**. `MultipartFormData` has the in-memory encoder and the streaming one, over streams
  that hand out and accept any number of bytes at a time; `MultipartSpec` has the bytes they produce, `MultipartGrammar`
  the grammar and a reader of it, `MultipartReader` what is read from those bytes, and `MultipartRuns` the uses in which
  the grammar is not met.

`Bits`, `Pb` and `Sequences` hold the machine arithmetic, the descriptors and messages, and a few facts on sequences.

## Reading the codec results

A message is a sequence of slots, one per field of its descriptor: a value with its `has_` flag, an array with its count,
or a share of a union. Members are addressed by their index; that the addresses the iterator computes are those of the
struct members is the subject of `Layout`. `Wire.Parse` is the outcome of a reader: a value and the bytes left, or failure.
Numbers are unbounded and every cast, wrap-around and truncation of the C code is written out.

The encoder methods promise `Emitted`: success exactly when the specification has an encoding and it fits, exactly those
bytes at the cursor, and no byte changed outside the room that was left. The decoder methods promise `Parsed`: the verdict
and the value of the specification, and on success the bytes left over and the end of the window in place.

The build of the pod sets `PB_FIELD_32BIT` and `PB_ENABLE_MALLOC`, so `PB_SIZE_MAX` is 2^32 - 1 and a bytes member has a
four-byte header; for the static fields modelled here the allocating paths do nothing.

## What turned out differently from the documentation

* A string that fills its array without a terminator is encoded but refused by the decoder, and so is a block of 2^32
  bytes or more: `RoundTrip.MessageRestores` says exactly when a message comes back, and `KeptMessages.FullStringIsRefused` is
  an input for which it does not.
* A proto3-style member with a default of its own does not survive at zero: the zero is not written and the default takes
  its place. `KeptMessages.MessageComesBack` and `Reencode.BytesRestore` say exactly when that happens,
  `KeptMessages.ZeroIsLost` has an input.
* A fixed-count array that never arrives does not stop `pb_decode`, and its entries stay indeterminate. `pb_encode` writes
  them all the same, or refuses the struct when one of them claims a size it cannot have (`DecodedEncodes.UnreadBytes`,
  `DecodedEncodes.UnreadIsRefused`).
* Data that reaches a `DataStreamRequest` after a completion was released is delivered behind it
  (`DataStream.CompletionComesLast`). `URLSession` hands a task's delegate no data after that task's completion, from
  which `finish` is called, so a request with a single task does not meet this.
* `pb_dec_varint` does not check that a value fits a 32-bit field: it takes the low word of any varint
  (`ScalarLaws.VarintAccepts`, `ScalarLaws.WideVarintIsCut`), as the comment in the code explains.
* Encoding a `MultipartFormData`, appending a part and encoding again leaves a final boundary in the middle
  (`MultipartSpec.FramedUnlessLeftover`, `MultipartRuns.EncodeAppendEncode`). The second encoding also drops the bodies
  that the first has read (`MultipartRuns.SecondEncodingDropsBodies`).
* Names and values of headers and the bodies are written as they are. A receiver reads them back exactly when no name or
  value has a line end, no name has a colon and space, and no part holds the delimiter (`MultipartReader.ContentReads`,
  `MultipartReader.MultipartReads`).
* A response serializer appended to a request that is done is run on its own. If another is appended, or `finish` is
  called, before that one is done, a second one is due (`LateSerializers.SingleUnlessHasty`), and a cancel in between
  makes its completion run twice (`LateSerializers.HastyCallsTwice`). One appended between the lookup of the next
  serializer and the section that ends the processing is dropped (`SerializerPipeline.AppendedInBetweenIsLost`).
* When the output stream reports that it has no space, `write` returns without an error and the rest of the buffer is lost
  (`MultipartRuns.WriteWithoutSpace`).

## Model

| member | source | states |
|---|---|---|
| `RoundTrip.MessageRestores` | ThorChat/Pods/nanopb/pb_decode.c:925-1087 | for every well-formed descriptor, what `pb_encode` wrote decodes to the message, with absent optional members and left-out zeros at their default, if and only if every written string leaves room for its terminator and every length-prefixed block is shorter than 2^32 bytes; otherwise decoding fails |
| `KeptMessages.MessageComesBack` | ThorChat/Pods/nanopb/pb_encode.c:355-359 | the message itself comes back, absent optional members reset, if and only if it is readable and no zero that the proto3 check leaves out, at any written depth, has a default other than zero |
| `KeptMessages.ZeroIsLost` | ThorChat/Pods/nanopb/pb_encode.c:355-359 | a message that does not come back: its zero is left out and the default 7 takes its place |
| `KeptMessages.FullStringIsRefused` | ThorChat/Pods/nanopb/pb_decode.c:1468-1501 | a message that is encoded and refused: its string fills the array, so there is no room for the terminator |
| `KeptMessages.MsgKept` | ThorChat/Pods/nanopb/pb_encode.c:355-359 | the decoded message is the expected one if and only if no such zero is left out |
| `DecodedStructs.DecodedIsFilled` | ThorChat/Pods/nanopb/pb_decode.c:406-1087 | whatever the byte string, a struct that `pb_decode` accepts is valid: integers within their width, counts within `array_size`, strings with room for their terminator, bytes within their array, at most one member of a union, fixed-count arrays complete or untouched, at every depth |
| `DecodedEncodes.DecodedEncodes` | ThorChat/Pods/nanopb/pb_encode.c:528-550 | a struct `pb_decode` produced is a value of its C type if and only if no fixed-count array that would be written was left unread, and then `pb_encode` accepts it |
| `DecodedEncodes.FilledMsgEncodes` | ThorChat/Pods/nanopb/pb_encode.c:341-426 | field by field, at every depth: a valid struct whose written fixed-count arrays have been read has an encoding |
| `DecodedEncodes.UnreadBytes` | ThorChat/Pods/nanopb/pb_encode.c:396-404 | a fixed-count array that never arrived: decoding succeeds, whatever the entries hold in memory is what is encoded, and a bytes array is refused exactly when one of those sizes exceeds its entry |
| `DecodedEncodes.UnreadIsRefused` | ThorChat/Pods/nanopb/pb_encode.c:863-868 | a table, the empty input and a memory content at which decoding succeeds and encoding the struct fails |
| `DecodedEncodes.DecodedComesBack` | ThorChat/Pods/nanopb/pb_decode.c:925-1087 | decode, encode, decode: whatever the first bytes were, the second decoding gives the same struct if and only if no left-out zero has a default other than zero and no block inside reaches 2^32 bytes, which none does when the whole is shorter than that |
| `DecodedEncodes.ShortMsgIsReadable` | ThorChat/Pods/nanopb/pb_decode.c:372-385 | a valid struct, its written fixed-count arrays read, whose encoding is below 2^32 bytes is readable, strings and blocks at every depth |
| `Reencode.BytesRestore` | ThorChat/Pods/nanopb/pb_encode.c:528-550 | encoding the decoded message gives the very bytes it was decoded from, if and only if no left-out zero has a default other than zero |
| `Reencode.FromGrows` | ThorChat/Pods/nanopb/pb_encode.c:355-359 | when one has, the encoding of the decoded message is longer: the default is written where the zero was not |
| `RoundTrip.FieldRestores` | ThorChat/Pods/nanopb/pb_decode.c:1012-1020 | each kind of member (required, optional, singular, repeated, fixed-count, oneof), written by the encoder, is restored by its rounds of the decoding loop, or stops the loop exactly when it is not readable |
| `RoundTrip.ArrayRestores` | ThorChat/Pods/nanopb/pb_decode.c:424-464 | an encoded array, packed or not, counted or fixed-count, is restored entry by entry |
| `RoundTrip.ValueRestores` | ThorChat/Pods/nanopb/pb_decode.c:1503-1525 | one encoded value, submessages included, is restored if it is readable and refused otherwise, and the bytes behind it are left alone |
| `RoundTrip.NullTerminatedRestores` | ThorChat/Pods/nanopb/pb_encode.c:557-565 | the message written with a zero byte at its end is decoded up to that byte, whatever follows |
| `RoundTrip.DelimitedRestores` | ThorChat/Pods/nanopb/pb_decode.c:1104-1117 | the message written behind its length is cut out and decoded, and what follows is left, exactly when it is below 2^32 bytes and readable |
| `PartialReader.TaggedIsSkipped` | ThorChat/Pods/nanopb/pb_encode.c:675-707 | whatever the type of the field, what is written for a value is its tag and one value of the wire type in that tag: a reader that does not know the field skips exactly it, unless a submessage reaches 2^32 bytes |
| `PartialReader.FieldPasses` | ThorChat/Pods/nanopb/pb_decode.c:957-986 | the loop passes over everything written for a field its table lacks, packed, repeated or single |
| `PartialReader.PartRestores` | ThorChat/Pods/nanopb/pb_decode.c:957-986 | what was encoded with one table and is decoded with a table that lacks some of its fields, whichever they are, gives the remaining members if and only if those are readable and the others can be skipped; otherwise decoding fails |
| `WireValues.SkipsOneValue` | ThorChat/Pods/nanopb/pb_decode.c:321-331 | `pb_skip_field` succeeds if and only if the input starts with a value of the wire type, described byte by byte, and takes just that |
| `WireValues.ValueSkipped` | ThorChat/Pods/nanopb/pb_decode.c:278-331 | each value of a wire type is skipped, whatever follows; the wire types without values are refused |
| `WireExamples.Varints` | ThorChat/Pods/nanopb/pb_encode.c:675-690 | 150, true and zigzag -2 in a field of tag 1, byte by byte |
| `WireExamples.Words` | ThorChat/Pods/nanopb/pb_encode.c:641-697 | a fixed32 of tag 1 is 0D and four bytes, a fixed64 09 and eight, least significant first |
| `WireExamples.Strings` | ThorChat/Pods/nanopb/pb_encode.c:698-715 | "hi" of tag 1 as string, bytes and fixed-length bytes is 0A 02 68 69 |
| `WireExamples.Submessage` | ThorChat/Pods/nanopb/pb_encode.c:717-765 | a submessage of tag 3 that holds the varint 150 is 1A 03 08 96 01 |
| `WireExamples.Packed` | ThorChat/Pods/nanopb/pb_encode.c:162-205 | the packed array 3, 270, 86942 of tag 6, byte by byte |
| `KeptMessages.ZeroSlotIsNorm` | ThorChat/Pods/nanopb/pb_encode.c:240-337 | a member the proto3 zero check drops is decoded to its default |
| `KeptMessages.ScalarIsZero` | ThorChat/Pods/nanopb/pb_encode.c:240-337 | the zero check holds of a scalar exactly when it is the zero value of its type; of bytes of fixed length only when that length is zero |
| `KeptMessages.SubmessageIsZero` | ThorChat/Pods/nanopb/pb_encode.c:289-308 | it holds of a submessage exactly when the submessage would be encoded as nothing and has no array of fixed count |
| `Merge.ConcatenationMerges` | ThorChat/Pods/nanopb/pb_decode.c:925-1073 | for static descriptors without required and fixed-count fields, decoding a then b into a struct is decoding their concatenation, failures included, when a ends on a field boundary |
| `Merge.LoopSplits` | ThorChat/Pods/nanopb/pb_decode.c:943-1021 | up to a field boundary the decoding loop does not look at what follows: for every static descriptor it can be cut in two there |
| `Merge.LoopIgnoresPosition` | ThorChat/Pods/nanopb/pb_decode.c:943-1021 | where the iterator stands makes no difference to the result of the loop |
| `Merge.UnknownTransparent` | ThorChat/Pods/nanopb/pb_decode.c:957-986 | inserting an undeclared tag and a value of its wire type, described byte by byte, at any field boundary changes neither the message nor the success, even between entries of a fixed-count array |
| `Merge.ZeroTagEnds` | ThorChat/Pods/nanopb/pb_decode.c:298-319 | a zero tag at a field boundary ends the message: whatever follows it makes no difference |
| `Submessages.OccurrencesMerge` | ThorChat/Pods/nanopb/pb_decode.c:1503-1525 | two occurrences of a required, optional or singular submessage, with blocks a and b, are one with block a + b, over whatever struct is in place |
| `Submessages.SubmessagesMerge` | ThorChat/Pods/nanopb/pb_decode.c:1503-1525 | so anywhere in a message of any static table, the outcome of the whole decoding included |
| `Submessages.LastOccurrenceWins` | ThorChat/Pods/nanopb/pb_decode.c:467-475 | a submessage in a union is reset first: of two occurrences only the second counts, if the first can be decoded |
| `Submessages.EntryReads` | ThorChat/Pods/nanopb/pb_decode.c:451-464 | each occurrence of a repeated submessage is one entry, read from the defaults whatever the array held there, if there is room |
| `Submessages.OccurrencesAppend` | ThorChat/Pods/nanopb/pb_decode.c:451-464 | two occurrences of a counted array append two entries, each read from the defaults |
| `Submessages.EmptyIsMerged` | ThorChat/Pods/nanopb/pb_decode.c:1515-1520 | an empty second occurrence leaves the 5 of the first one in place |
| `PackedArrays.ChunksAppend` | ThorChat/Pods/nanopb/pb_decode.c:424-464 | with a `_count` member, any split of the elements into packed blocks and single entries appends the same elements, and fails exactly when the total exceeds `array_size` |
| `PackedArrays.SplitResult` | ThorChat/Pods/nanopb/pb_decode.c:424-464 | the whole message then decodes to the array with exactly those elements appended, again with a `_count` member |
| `PackedArrays.SplitsAgree` | ThorChat/Pods/nanopb/pb_decode.c:424-464 | two splits of the same elements into a counted array cannot be told apart by the decoder |
| `FixedArrays.ChunksOverlay` | ThorChat/Pods/nanopb/pb_decode.c:424-464 | an array of fixed count, from any state in which it is being read or may begin: any split overwrites its entries from the first, and fails exactly when the total exceeds `array_size` |
| `FixedArrays.FixedSplitResult` | ThorChat/Pods/nanopb/pb_decode.c:988-1029 | a message of one such array decodes exactly when the total is `array_size`, whatever the chunks, and then to an array of exactly those elements |
| `FixedTables.GroupsResult` | ThorChat/Pods/nanopb/pb_decode.c:988-1029 | a message of any number of fixed-count arrays, each in any chunks and any number of times, decodes exactly when each time the total is the size of the array; the arrays then hold what arrived last |
| `FixedTables.NextIsRejected` | ThorChat/Pods/nanopb/pb_decode.c:994-1000 | an array that begins while another one is incomplete is rejected, whatever follows |
| `RequiredFields.SeenAreMet` | ThorChat/Pods/nanopb/pb_decode.c:1012-1017 | the indices marked by the loop are those of the required fields whose tags it met |
| `RequiredFields.FailsWhenMissing` | ThorChat/Pods/nanopb/pb_decode.c:1030-1070 | when nothing else is wrong, decoding fails exactly when the tag of some required field among the first 64 was not met |
| `Wire.VarintAtMostTen` | ThorChat/Pods/nanopb/pb_encode.c:608-628 | a varint of a 64-bit value has at most ten bytes |
| `Wire.Varint64Inverts` | ThorChat/Pods/nanopb/pb_decode.c:255-275 | `pb_decode_varint` restores every 64-bit value from its varint and leaves the suffix |
| `Wire.Varint32Canonical` | ThorChat/Pods/nanopb/pb_decode.c:187-252 | on the varint of any 64-bit value `pb_decode_varint32` succeeds if and only if the value is below 2^32, or its bits 31 to 63 form the sign of a negative number as the code tests them; it returns the low word |
| `WireLaws.Varint32Widens` | ThorChat/Pods/nanopb/pb_decode.c:187-275 | any varint of at most ten bytes the 32-bit reader accepts, the 64-bit reader accepts too, with the same bytes consumed and the same low 32 bits |
| `WireLaws.Varint32SignExtended` | ThorChat/Pods/nanopb/pb_decode.c:221-229 | the 32-bit reader accepts the ten-byte encoding of every negative int32 |
| `WireLaws.ZigZagInverts` | ThorChat/Pods/nanopb/pb_encode.c:630-639 | zigzag decoding undoes zigzag encoding on every int64, and the code of a small magnitude is small |
| `WireLaws.UnZigZagInverts` | ThorChat/Pods/nanopb/pb_decode.c:1269-1281 | zigzag encoding undoes zigzag decoding on every uint64 |
| `WireLaws.LittleEndianInverts` | ThorChat/Pods/nanopb/pb_decode.c:1283-1316 | a fixed-width word is restored from its little-endian bytes |
| `WireLaws.FromLittleEndianInverts` | ThorChat/Pods/nanopb/pb_encode.c:641-666 | the bytes of a fixed-width word are restored from its value |
| `ScalarLaws.ScalarRestores` | ThorChat/Pods/nanopb/pb_decode.c:1318-1548 | for every scalar, string and bytes type and every value its C type holds, the `pb_dec_` function restores what the `pb_enc_` function wrote; only a string without room for its terminator is refused |
| `ScalarLaws.StringRestores` | ThorChat/Pods/nanopb/pb_decode.c:1468-1501 | a string comes back exactly when it is shorter than its array |
| `ScalarLaws.LengthRestores` | ThorChat/Pods/nanopb/pb_decode.c:187-252 | on the varint of a value below 2^63 the 32-bit reader succeeds if and only if the value is below 2^32, and returns it |
| `ScalarLaws.BlockRestores` | ThorChat/Pods/nanopb/pb_decode.c:372-385 | a length-prefixed block is cut out exactly when it is shorter than 2^32 bytes |
| `ScalarLaws.UVarintAccepts` | ThorChat/Pods/nanopb/pb_decode.c:1366-1388 | `pb_dec_uvarint` accepts a value if and only if it fits the width of the field |
| `ScalarLaws.SVarintAccepts` | ThorChat/Pods/nanopb/pb_decode.c:1390-1412 | `pb_dec_svarint` accepts a value if and only if it fits the width of the field |
| `ScalarLaws.VarintAccepts` | ThorChat/Pods/nanopb/pb_decode.c:1329-1364 | `pb_dec_varint` casts to 32 bits first: what it accepts, width by width |
| `ScalarLaws.WideVarintIsCut` | ThorChat/Pods/nanopb/pb_decode.c:1329-1364 | an int32 field reads the varint of 2^32 + 5 as 5 |
| `ScalarLaws.BoolAccepts` | ThorChat/Pods/nanopb/pb_decode.c:1318-1327 | a bool is accepted exactly when the 32-bit reader accepts it, and every value but zero is true |
| `ScalarLaws.BytesAccepts` | ThorChat/Pods/nanopb/pb_decode.c:1431-1466 | bytes are accepted exactly if they fit behind their size |
| `ScalarLaws.StringAccepts` | ThorChat/Pods/nanopb/pb_decode.c:1468-1501 | a string is accepted exactly if its terminator fits, and then up to its first NUL |
| `ScalarLaws.FixedLengthAccepts` | ThorChat/Pods/nanopb/pb_decode.c:1527-1548 | bytes of fixed length are accepted exactly if the length is right, or zero for all zeros |
| `PbCommon.FieldIter.Begin` | ThorChat/Pods/nanopb/pb_common.c:8-18 | a new iterator stands at the first field with the pointers the table gives |
| `PbCommon.FieldIter.Reset` | ThorChat/Pods/nanopb/pb_common.c:8-18 | back at the first field; false for the empty table |
| `PbCommon.FieldIter.Next` | ThorChat/Pods/nanopb/pb_common.c:20-76 | moves one field on or wraps round, and keeps pData, pSize and required_field_index at what the table gives for the position |
| `PbCommon.FieldIter.FindTag` | ThorChat/Pods/nanopb/pb_common.c:78-95 | finds the first field with the tag at or after the position, cyclically, within one lap; otherwise the iterator is back where it was with the pointers the table gives there |
| `Lookup.FindUnique` | ThorChat/Pods/nanopb/pb_common.c:78-95 | with unique tags, a declared tag is found from every position |
| `Lookup.FindIndependent` | ThorChat/Pods/nanopb/pb_common.c:78-95 | the search succeeds if and only if a non-extension field has the tag, and its answer does not depend on where it starts |
| `Layout.DataIsMember` | ThorChat/Pods/nanopb/pb.h:399-408 | for every table built by the layout macros, pData at a position is the address of the struct member: unions, static arrays and pointers included |
| `Layout.SizeIsCompanion` | ThorChat/Pods/nanopb/pb.h:419-436 | pSize is the address of the has_, _count or which_ member, or pData when there is none |
| `Layout.ExtentIsSize` | ThorChat/Pods/nanopb/pb_common.c:41-63 | the step the iterator takes is exactly the size of the member it leaves |
| `Layout.UnionPlacement` | ThorChat/Pods/nanopb/pb.h:404-405 | the iterator stays put exactly at the members placed in a union |
| `Layout.RequiredIsCount` | ThorChat/Pods/nanopb/pb_common.c:65-70 | required_field_index is the number of required members before the position |
| `OStream.OutStream.FromBuffer` | ThorChat/Pods/nanopb/pb_encode.c:86-101 | a stream over a buffer, or a window of it |
| `OStream.OutStream.Write` | ThorChat/Pods/nanopb/pb_encode.c:103-124 | succeeds exactly when there is room, then appends the bytes; outside the room left by max_size no byte of the buffer changes |
| `OStream.OutStream.BufWrite` | ThorChat/Pods/nanopb/pb_encode.c:74-84 | copies the bytes to the cursor and nothing else |
| `OStream.AppendAppend` | ThorChat/Pods/nanopb/pb_encode.c:103-124 | two writes in a row are one write of both |
| `EncodeBasics.EncodeVarint` | ThorChat/Pods/nanopb/pb_encode.c:608-628 | writes exactly the base-128 varint of the value |
| `EncodeBasics.EncodeNegativeVarint` | ThorChat/Pods/nanopb/pb_encode.c:583-605 | the 32-bit emulation writes the varint of the value sign-extended to 64 bits |
| `EncodeBasics.WindowShifts` | ThorChat/Pods/nanopb/pb_encode.c:589-601 | each round keeps the 32-bit variable a window on the 64-bit value, with the compensation bits above it still to come |
| `EncodeBasics.NegativeVarintAgrees` | ThorChat/Pods/nanopb/pb_encode.c:582-605 | so for every negative int32 it writes the same ten bytes as the 64-bit encoder |
| `EncodeBasics.EncodeSvarint` | ThorChat/Pods/nanopb/pb_encode.c:630-639 | writes the varint of the zigzag code |
| `EncodeBasics.EncodeFixed32` | ThorChat/Pods/nanopb/pb_encode.c:641-650 | writes the four little-endian bytes |
| `EncodeBasics.EncodeFixed64` | ThorChat/Pods/nanopb/pb_encode.c:653-666 | writes the eight little-endian bytes |
| `EncodeBasics.EncodeTag` | ThorChat/Pods/nanopb/pb_encode.c:669-673 | writes the varint of field number times eight plus wire type |
| `EncodeBasics.EncodeTagForField` | ThorChat/Pods/nanopb/pb_encode.c:675-707 | writes the tag with the wire type of the field, fixed by `PartialReader.TaggedIsSkipped` and `WireExamples`; fails for the types that have none |
| `EncodeBasics.EncodeString` | ThorChat/Pods/nanopb/pb_encode.c:709-715 | writes the length and the bytes |
| `EncodeBasics.StringLength` | ThorChat/Pods/nanopb/pb_encode.c:889-896 | the loop stops at the terminator or the end of the array |
| `EncodeBasics.EncodeInteger` | ThorChat/Pods/nanopb/pb_encode.c:776-833 | writes what the specification gives for the integer types, or refuses an impossible width |
| `EncodeBasics.EncodeBlob` | ThorChat/Pods/nanopb/pb_encode.c:852-912 | the same for bytes, strings and fixed-length bytes |
| `EncodeBasics.EncodeScalar` | ThorChat/Pods/nanopb/pb_encode.c:55-68 | the same for whichever encoder the table selects |
| `PbEncode.PackedSize` | ThorChat/Pods/nanopb/pb_encode.c:169-177 | 4 or 8 bytes an entry for words, at most ten otherwise |
| `PbEncode.SizeOfItems` | ThorChat/Pods/nanopb/pb_encode.c:169-189 | the size computed for a packed array is the size of its encoding, and it fails exactly when that does |
| `PbEncode.EncodeItems` | ThorChat/Pods/nanopb/pb_encode.c:197-204 | writes the entries back to back |
| `PbEncode.EncodePacked` | ThorChat/Pods/nanopb/pb_encode.c:162-205 | writes tag, size and data of a packed array |
| `PbEncode.EncodeEach` | ThorChat/Pods/nanopb/pb_encode.c:209-232 | writes each entry with its tag |
| `PbEncode.EncodeArray` | ThorChat/Pods/nanopb/pb_encode.c:147-236 | writes the array, or fails when it is longer than `array_size` |
| `PbEncode.CheckProto3Default` | ThorChat/Pods/nanopb/pb_encode.c:240-287 | decides whether a member counts as zero, in all its cases |
| `PbEncode.CheckSubmessageDefault` | ThorChat/Pods/nanopb/pb_encode.c:289-308 | the loop over a submessage finds it zero exactly when each member is |
| `PbEncode.UnionsAgree` | ThorChat/Pods/nanopb/pb_encode.c:258-262 | asking which_ once for every member of a union is asking each member |
| `PbEncode.EncodeBasicField` | ThorChat/Pods/nanopb/pb_encode.c:341-426 | writes a member according to its has_, _count or which_ |
| `PbEncode.Encode` | ThorChat/Pods/nanopb/pb_encode.c:528-550 | on a buffer or a sizing stream: succeeds exactly when the message has an encoding and it fits, writes exactly that, and never touches a byte outside the room |
| `PbEncode.GetEncodedSize` | ThorChat/Pods/nanopb/pb_encode.c:567-576 | the sizing pass predicts the length of the encoding and fails exactly when there is none |
| `PbEncode.EncodeSubmessage` | ThorChat/Pods/nanopb/pb_encode.c:717-765 | the second pass writes what the first one counted, at every depth |
| `PbEncode.EncodeWindow` | ThorChat/Pods/nanopb/pb_encode.c:740-764 | the second pass fills its window exactly, so "submsg size changed" cannot be reported |
| `PbEncode.EncodeNullTerminated` | ThorChat/Pods/nanopb/pb_encode.c:557-565 | writes the message and a zero byte |
| `IStream.InStream.ReadByte` | ThorChat/Pods/nanopb/pb_decode.c:141-157 | takes one byte off the window, keeping its end |
| `IStream.InStream.Read` | ThorChat/Pods/nanopb/pb_decode.c:102-137 | takes exactly that many bytes, or fails |
| `IStream.InStream.Discard` | ThorChat/Pods/nanopb/pb_decode.c:102-137 | skips exactly that many bytes, or fails |
| `IStream.InStream.BufRead` | ThorChat/Pods/nanopb/pb_decode.c:87-100 | copies the bytes at the cursor |
| `DecodeBasics.Varint32Eof` | ThorChat/Pods/nanopb/pb_decode.c:187-247 | reads what the 32-bit reference reader gives, and reports the end of input only before the first byte |
| `DecodeBasics.DecodeVarint` | ThorChat/Pods/nanopb/pb_decode.c:255-275 | the shifting and or-ing loop computes the value of the base-128 groups modulo 2^64 |
| `DecodeBasics.OrShift64IsSum` | ThorChat/Pods/nanopb/pb_decode.c:269 | or-ing in a group adds it at its weight; of the tenth only one bit stays |
| `DecodeBasics.DecodeSvarint` | ThorChat/Pods/nanopb/pb_decode.c:1269-1281 | reads a zigzag varint |
| `DecodeBasics.DecodeTag` | ThorChat/Pods/nanopb/pb_decode.c:298-319 | tells a tag, the end of the message and an error apart |
| `DecodeBasics.SkipVarint` | ThorChat/Pods/nanopb/pb_decode.c:278-287 | skips up to the first byte without continuation bit |
| `DecodeBasics.SkipField` | ThorChat/Pods/nanopb/pb_decode.c:321-331 | skips exactly one value of the wire type, or fails, as `WireValues.SkipsOneValue` has it |
| `DecodeBasics.MakeSubstream` | ThorChat/Pods/nanopb/pb_decode.c:372-385 | the substream is exactly the block, and what follows it stays with the parent |
| `DecodeBasics.CloseSubstream` | ThorChat/Pods/nanopb/pb_decode.c:387-400 | the parent continues exactly past the block, however little of it was read |
| `DecodeScalars.DecodeFixed` | ThorChat/Pods/nanopb/pb_decode.c:1283-1316 | reads a little-endian word |
| `DecodeScalars.DecodeSigned` | ThorChat/Pods/nanopb/pb_decode.c:1329-1364 | agrees with the reference reader of signed fields |
| `DecodeScalars.DecodeUnsigned` | ThorChat/Pods/nanopb/pb_decode.c:1366-1388 | agrees with the reference reader of unsigned fields |
| `DecodeScalars.DecodeBytes` | ThorChat/Pods/nanopb/pb_decode.c:1431-1466 | agrees with the reference reader, size checks included |
| `DecodeScalars.DecodeString` | ThorChat/Pods/nanopb/pb_decode.c:1468-1501 | agrees with the reference reader, the 32-bit size check included |
| `DecodeScalars.DecodeFixedLengthBytes` | ThorChat/Pods/nanopb/pb_decode.c:1527-1548 | agrees with the reference reader; empty input stands for all zeros |
| `Bitmap.Marks` | ThorChat/Pods/nanopb/pb_decode.c:1012-1017 | setting the bit adds the index to the set the two words represent |
| `Bitmap.WordTest` | ThorChat/Pods/nanopb/pb_decode.c:1053-1068 | a word equals r ones if and only if the first r fields of the word have all been seen |
| `Bitmap.LowOnes` | ThorChat/Pods/nanopb/pb_decode.c:1063-1064 | `allbits >> (32 - r)` is r ones |
| `Bitmap.RequiredPresent` | ThorChat/Pods/nanopb/pb_decode.c:1048-1070 | the whole-word and remaining-bits tests pass if and only if every required field, of the first 64, was seen |
| `PbDecode.FieldSetToDefault` | ThorChat/Pods/nanopb/pb_decode.c:836-906 | a static member gets the default of its kind |
| `PbDecode.MessageSetToDefaults` | ThorChat/Pods/nanopb/pb_decode.c:908-919 | afterwards the struct is the default message, whatever it was before |
| `PbDecode.DecodeSubmessage` | ThorChat/Pods/nanopb/pb_decode.c:1503-1525 | merges into an existing submessage, starts from defaults in an array, and leaves the stream right after the block; `Submessages.OccurrencesMerge` and `Submessages.EntryReads` say what that makes of repeated occurrences |
| `PbDecode.DecodePacked` | ThorChat/Pods/nanopb/pb_decode.c:436-450 | the packed loop reads what the specification reads |
| `PbDecode.DecodeRepeated` | ThorChat/Pods/nanopb/pb_decode.c:424-464 | agrees with the specification on packed and single entries |
| `PbDecode.DecodeSingle` | ThorChat/Pods/nanopb/pb_decode.c:414-475 | agrees with the specification on required, optional and oneof members |
| `PbDecode.Decoder.EnterFixedCount` | ThorChat/Pods/nanopb/pb_decode.c:988-1010 | the bookkeeping for fixed-count arrays |
| `PbDecode.Decoder.MarkRequired` | ThorChat/Pods/nanopb/pb_decode.c:1012-1017 | records the required field in the bitmap |
| `PbDecode.Decoder.DecodeStaticField` | ThorChat/Pods/nanopb/pb_decode.c:406-480 | stores the decoded member and nothing else |
| `PbDecode.Decoder.DecodeTagged` | ThorChat/Pods/nanopb/pb_decode.c:957-1020 | one round after the tag: look up, skip or decode |
| `PbDecode.Decoder.DecodeOne` | ThorChat/Pods/nanopb/pb_decode.c:943-1021 | one round of the loop leaves the rest of the specification to be done, on a strictly shorter window |
| `PbDecode.Decoder.CountRequired` | ThorChat/Pods/nanopb/pb_decode.c:1036-1046 | the count found by running the iterator to the end is the number of required fields |
| `PbDecode.Decoder.Complete` | ThorChat/Pods/nanopb/pb_decode.c:1023-1070 | the final checks pass exactly when the last fixed-count array is full and all required fields were seen |
| `PbDecode.DecodeNoinit` | ThorChat/Pods/nanopb/pb_decode.c:925-1073 | on every byte string it terminates, agrees with the specification, depends only on the window, and keeps the end of the window in place |
| `PbDecode.Decode` | ThorChat/Pods/nanopb/pb_decode.c:1075-1087 | the same, starting from the defaults |
| `PbDecode.DecodeDelimited` | ThorChat/Pods/nanopb/pb_decode.c:1104-1117 | decodes exactly the delimited block and leaves the stream behind it |
| `Authentication.AuthenticationInterceptor.IsRefreshExcessive` | ThorChat/Pods/Alamofire/Source/AuthenticationInterceptor.swift:356-369 | counts the timestamps inside the window and compares |
| `Authentication.AuthenticationInterceptor.HandleRefreshSuccess` | ThorChat/Pods/Alamofire/Source/AuthenticationInterceptor.swift:371-387 | installs the new credential, hands everything queued to one drain and ends the refresh |
| `Authentication.AuthenticationInterceptor.HandleRefreshFailure` | ThorChat/Pods/Alamofire/Source/AuthenticationInterceptor.swift:389-403 | the same on failure, credential unchanged |
| `Authentication.AuthenticationInterceptor.Refresh` | ThorChat/Pods/Alamofire/Source/AuthenticationInterceptor.swift:331-354 | either fails at once or records the time and queues one refresh call |
| `Authentication.AuthenticationInterceptor.AdaptLocked` | ThorChat/Pods/Alamofire/Source/AuthenticationInterceptor.swift:252-275 | the locked section of adapt |
| `Authentication.AuthenticationInterceptor.RetryLocked` | ThorChat/Pods/Alamofire/Source/AuthenticationInterceptor.swift:320-326 | the locked section of retry |
| `AuthProtocol.NextKeepsFlight` | ThorChat/Pods/Alamofire/Source/AuthenticationInterceptor.swift:251-403 | every step keeps: one refresh outstanding exactly while isRefreshing, nothing queued otherwise, and one recorded timestamp for each refresh begun or on its way |
| `AuthProtocol.NextKeepsConserved` | ThorChat/Pods/Alamofire/Source/AuthenticationInterceptor.swift:251-403 | every step keeps each issued completion in exactly one place |
| `AuthProtocol.NextKeepsRate` | ThorChat/Pods/Alamofire/Source/AuthenticationInterceptor.swift:331-369 | every step keeps the refresh history rate-limited |
| `RefreshRate.RecordKeepsRate` | ThorChat/Pods/Alamofire/Source/AuthenticationInterceptor.swift:331-339 | recording a refresh that passed the check keeps the history rate-limited, although the clock is read again for the record |
| `RefreshRate.RateBound` | ThorChat/Pods/Alamofire/Source/AuthenticationInterceptor.swift:356-369 | a rate-limited history has at most `maximumAttempts` refreshes (none if negative) in any closed interval as long as the window |
| `AuthRuns.OneRefreshAtATime` | ThorChat/Pods/Alamofire/Source/AuthenticationInterceptor.swift:331-354 | over every interleaving, outstanding refreshes number 1 if isRefreshing and 0 otherwise, and queued work implies isRefreshing |
| `AuthRuns.CalledAtMostOnce` | ThorChat/Pods/Alamofire/Source/AuthenticationInterceptor.swift:251-403 | over every interleaving, no completion is lost, duplicated or called twice |
| `AuthRuns.RefreshRateBounded` | ThorChat/Pods/Alamofire/Source/AuthenticationInterceptor.swift:331-369 | over every run, no interval of the length of the window sees more than the maximum number of refreshes start |
| `AuthRuns.QuietMeansAllCalled` | ThorChat/Pods/Alamofire/Source/AuthenticationInterceptor.swift:371-403 | at rest every completion ever issued has been called |
| `AuthRuns.SettlingIsCloser` | ThorChat/Pods/Alamofire/Source/AuthenticationInterceptor.swift:251-403 | as long as no credential demands another refresh, each step of the interceptor, its queue and the authenticator brings the protocol strictly closer to rest |
| `AuthRuns.EverySettlingEnds` | ThorChat/Pods/Alamofire/Source/AuthenticationInterceptor.swift:251-403 | so no schedule of such steps goes on for ever |
| `AuthRuns.EverySettlingFinishes` | ThorChat/Pods/Alamofire/Source/AuthenticationInterceptor.swift:251-403 | and every one that goes on for as long as it can ends at rest, each completion called exactly once |
| `AuthRuns.CanFinish` | ThorChat/Pods/Alamofire/Source/AuthenticationInterceptor.swift:341-403 | such a schedule exists from every state of every run |
| `AuthAnswers.NextKeepsGenuine` | ThorChat/Pods/Alamofire/Source/AuthenticationInterceptor.swift:251-403 | every step keeps: credentials in use were provided, and errors reported were answered by the authenticator or are its own |
| `AuthAnswers.AnswersAreGenuine` | ThorChat/Pods/Alamofire/Source/AuthenticationInterceptor.swift:277-290 | over every run, each call made authenticates with a credential that was provided, or reports a genuine error |
| `AuthAnswers.AuthenticatesWithCurrent` | ThorChat/Pods/Alamofire/Source/AuthenticationInterceptor.swift:252-281 | no request is authenticated while a refresh is outstanding, and each is with the credential held at that moment, which did not ask to be refreshed |
| `AuthHistory.HeldIsLatest` | ThorChat/Pods/Alamofire/Source/AuthenticationInterceptor.swift:371-372 | over every run the credential held is that of the latest successful refresh, or the one the owner set since |
| `AuthHistory.EveryCallUsesLatest` | ThorChat/Pods/Alamofire/Source/AuthenticationInterceptor.swift:252-281 | over every run each call that authenticates was decided by one of its steps, with the credential that was the latest at that step |
| `AuthHistory.SuccessIsUsed` | ThorChat/Pods/Alamofire/Source/AuthenticationInterceptor.swift:371-387 | after a refresh that succeeds with c, every request authenticated before anything else is provided is authenticated with c |
| `AuthHistory.StartsWhenAsked` | ThorChat/Pods/Alamofire/Source/AuthenticationInterceptor.swift:331-354 | a refresh starts exactly when a step asks for one, none is under way and the window is not full; it is for the credential that step saw, and its time is recorded |
| `AuthHistory.SinceCounts` | ThorChat/Pods/Alamofire/Source/AuthenticationInterceptor.swift:356-369 | the loop counts the timestamps inside the window |
| `AuthHistory.RefreshesWereLatest` | ThorChat/Pods/Alamofire/Source/AuthenticationInterceptor.swift:341-354 | over every run each refresh handed to the authenticator is for a credential that was the latest at some point of the run |
| `AuthPromises.NextKeepsFixed` | ThorChat/Pods/Alamofire/Source/AuthenticationInterceptor.swift:251-403 | once it is fixed what a completion is called with, every step keeps it so |
| `AuthPromises.FixedForGood` | ThorChat/Pods/Alamofire/Source/AuthenticationInterceptor.swift:251-403 | over every run on from there the completion is called with that answer or not yet, and at rest it has been |
| `AuthPromises.QueuedGetTheAnswer` | ThorChat/Pods/Alamofire/Source/AuthenticationInterceptor.swift:371-403 | over every run after a refresh was answered: the retries queued during it get Retry if it succeeded and its error if it failed, and so do the adapts if it failed |
| `AuthPromises.QueuedAdaptsUseAnswer` | ThorChat/Pods/Alamofire/Source/AuthenticationInterceptor.swift:371-387 | adapts queued during a refresh that succeeds with c are authenticated with c in whatever order things then proceed, as long as c itself needs no refresh |
| `AuthPromises.RetryIsAnswered` | ThorChat/Pods/Alamofire/Source/AuthenticationInterceptor.swift:292-318 | a retry that need not wait for a refresh: refused without an authentication error or without a credential, granted when its request carried another credential |
| `AuthPromises.ExcessiveIsAnswered` | ThorChat/Pods/Alamofire/Source/AuthenticationInterceptor.swift:331-335 | a refresh the window forbids fails the retry that wanted it |
| `AuthOrder.ServedInOrder` | ThorChat/Pods/Alamofire/Source/AuthenticationInterceptor.swift:371-403 | over every run retries are answered in the order in which they took the lock, and deferred adapts are decided in the order in which they were deferred, across refreshes |
| `DataStream.DataStreamRequest.DidReceive` | ThorChat/Pods/Alamofire/Source/Request.swift:1299-1311 | adds the registered parsers to the counter and captures them |
| `DataStream.DataStreamRequest.UpdateAndCompleteIfPossible` | ThorChat/Pods/Alamofire/Source/ResponseSerialization.swift:1085-1095 | counts one invocation down and releases the held events at zero |
| `DataStream.DataStreamRequest.Complete` | ThorChat/Pods/Alamofire/Source/Request.swift:1377-1387 | holds the event back while invocations are outstanding |
| `DataStream.NextKeepsInv` | ThorChat/Pods/Alamofire/Source/Request.swift:1299-1311 | every step keeps the counter equal to the outstanding invocations, held events only while it is positive, and each event in one place |
| `DataStream.ReleasesWhenIdle` | ThorChat/Pods/Alamofire/Source/ResponseSerialization.swift:1085-1095 | an event is released only by a step that leaves no invocation outstanding, in the order asked |
| `DataStream.EventsConserved` | ThorChat/Pods/Alamofire/Source/Request.swift:1372-1406 | over every interleaving, no event is delivered twice, and none stays held once the invocations have finished |
| `DataStream.CompletionComesLast` | ThorChat/Pods/Alamofire/Source/Request.swift:1299-1311 | no parser is ever outstanding after an event was released to a stream, so that it sees its completion after its values, if and only if no data for a registered parser arrives after that |
| `DataStream.StreamsSeeCompletionLast` | ThorChat/Pods/Alamofire/Source/Request.swift:1299-1311 | the same for the runs of a new request |
| `DataStream.LateDataIsOvertaken` | ThorChat/Pods/Alamofire/Source/Request.swift:1299-1311 | a run with such late data: the completion is released and a value follows |
| `DataStream.SettlingsAreDue` | ThorChat/Pods/Alamofire/Source/Request.swift:1299-1387 | over every run without new data, steps of invocations and deliveries taken and still due balance: no run has more of them than were due |
| `DataStream.EverySettlingDelivers` | ThorChat/Pods/Alamofire/Source/Request.swift:1372-1406 | every such run that goes on for as long as it can has delivered each event ever asked for, exactly once |
| `SerializerPipeline.Request.Finish` | ThorChat/Pods/Alamofire/Source/Request.swift:511-524 | starts the serializers unless they are running |
| `SerializerPipeline.Request.AppendResponseSerializer` | ThorChat/Pods/Alamofire/Source/Request.swift:531-547 | registers a serializer, reopening a finished request, and reports whether it has to be processed at once |
| `SerializerPipeline.Request.NextResponseSerializer` | ThorChat/Pods/Alamofire/Source/Request.swift:552-564 | none if and only if each registered serializer has its completion; otherwise the first one that has none |
| `SerializerPipeline.Request.ProcessNextResponseSerializer` | ThorChat/Pods/Alamofire/Source/Request.swift:567-599 | dispatches the next serializer, or calls all completions in order and finishes the request unless it is cancelled |
| `SerializerPipeline.Request.ResponseSerializerDidComplete` | ThorChat/Pods/Alamofire/Source/Request.swift:605-608 | records a completion and goes on |
| `SerializerPipeline.Request.Reset` | ThorChat/Pods/Alamofire/Source/Request.swift:611-623 | forgets the completions of the attempt |
| `SerializerPipeline.Request.TransitionTo` | ThorChat/Pods/Alamofire/Source/Request.swift:667-729 | the guarded transition of cancel, suspend and resume |
| `SerializerPipeline.NextKeepsInv` | ThorChat/Pods/Alamofire/Source/Request.swift:511-623 | every step keeps: one serializer at work, the next in order, or a retry on its way |
| `SerializerPipeline.OneAtATime` | ThorChat/Pods/Alamofire/Source/Request.swift:511-623 | over every run at most one serializer is at work, and the completions called are none, or those of all serializers of one attempt, once each, in order of registration; the request is then finished or cancelled, and not finished before |
| `SerializerPipeline.CalledForGood` | ThorChat/Pods/Alamofire/Source/Request.swift:567-596 | after that no action calls another |
| `SerializerPipeline.LifecycleIsOneWay` | ThorChat/Pods/Alamofire/Source/Request.swift:50-63 | over every run cancelled is never left, nor finished, and initialized never entered again |
| `SerializerPipeline.TransitionsAct` | ThorChat/Pods/Alamofire/Source/Request.swift:50-63 | cancel takes effect from every state but finished, and resuming undoes a suspension |
| `SerializerPipeline.LifecycleFollows` | ThorChat/Pods/Alamofire/Source/Request.swift:50-63 | the lifecycle over every run, from what was asked of the request: cancelled if cancel came before the completions were called, otherwise finished once they have been, and until then as the last suspend or resume left it |
| `SerializerPipeline.EndedForGood` | ThorChat/Pods/Alamofire/Source/Request.swift:50-63 | a request whose completions have been called stays as it ended |
| `SerializerPipeline.StrayResetStartsAnother` | ThorChat/Pods/Alamofire/Source/Request.swift:611-623 | a reset while a serializer is at work would let a second one start: the rule about resets is needed |
| `SerializerPipeline.AppendedInBetweenIsLost` | ThorChat/Pods/Alamofire/Source/Request.swift:552-587 | the lookup of the next serializer and the section that ends the processing hold the lock separately: a serializer appended in between is dropped, its completion not called |
| `LateSerializers.CalledIsDrained` | ThorChat/Pods/Alamofire/Source/Request.swift:567-599 | every request whose completions have been called is in the state the following start from |
| `LateSerializers.LateNextKeeps` | ThorChat/Pods/Alamofire/Source/Request.swift:531-599 | after the completions were called, every step keeps at most one serializer due or at work, unless it appends or finishes while one is: then there are two |
| `LateSerializers.SingleUnlessHasty` | ThorChat/Pods/Alamofire/Source/Request.swift:531-599 | over every run from there on, one serializer is due or at work at a time if and only if append and finish only come while nothing appended is unfinished |
| `LateSerializers.LateAreServed` | ThorChat/Pods/Alamofire/Source/Request.swift:531-599 | then each late serializer has its completion called once, in order, and the request ends again |
| `LateSerializers.HastyCallsTwice` | ThorChat/Pods/Alamofire/Source/Request.swift:667-677 | otherwise a completion may be called twice: a late serializer is at work when a cancel finds the task completed and calls finish |
| `SerializerPipeline.SettlingsAreDue` | ThorChat/Pods/Alamofire/Source/Request.swift:511-623 | over every run without retries, however it interleaves with cancel, suspend, resume and further calls of finish, the steps taken and still due balance: one for each serializer, one for a finish, one for a reset |
| `SerializerPipeline.EverySettlingFinishes` | ThorChat/Pods/Alamofire/Source/Request.swift:511-623 | every such run that goes on for as long as it can has called the completion of each registered serializer, in order, and the request is finished, or cancelled |
| `MultipartSpec.FlagsFrame` | ThorChat/Pods/Alamofire/Source/MultipartFormData.swift:64-77 | with the flags on the first and last part, the bytes are those of the multipart-body of section 5.1.1 of RFC 2046 around the parts |
| `MultipartSpec.FramedUnlessLeftover` | ThorChat/Pods/Alamofire/Source/MultipartFormData.swift:327-333 | the bytes frame the parts as the grammar has it if and only if no part before the last kept the closing flag of an earlier encoding |
| `MultipartReader.ContentReads` | ThorChat/Pods/Alamofire/Source/MultipartFormData.swift:392-398 | a reader that looks at bytes alone gets the header list and the body of a part back if and only if no name or value has a line end and no name has a colon and space |
| `MultipartReader.ReadPrints` | ThorChat/Pods/Alamofire/Source/MultipartFormData.swift:392-398 | what the reader gets from any bytes, written again, is those bytes |
| `MultipartReader.MultipartExactly` | ThorChat/Pods/Alamofire/Source/MultipartFormData.swift:320-336 | the encoding is a multipart body that says, by that reader, exactly the headers and bodies put in, if and only if the headers are clean and no closing flag is left over |
| `MultipartReader.MultipartReads` | ThorChat/Pods/Alamofire/Source/MultipartFormData.swift:64-77 | a receiver that knows the boundary finds exactly the parts put in, if and only if the headers are clean and no part holds the delimiter |
| `MultipartReader.Example` | ThorChat/Pods/Alamofire/Source/MultipartFormData.swift:373-398 | one part, byte by byte |
| `MultipartRuns.EncodeAppendEncode` | ThorChat/Pods/Alamofire/Source/MultipartFormData.swift:320-336 | encode, append, encode, on any form with a part: the second result is not the multipart-body of the parts, and the bodies read by the first are missing from it |
| `MultipartRuns.SecondEncodingDropsBodies` | ThorChat/Pods/Alamofire/Source/MultipartFormData.swift:400-423 | encoding twice gives the same bytes if and only if all bodies are empty |
| `MultipartRuns.WriteWithoutSpace` | ThorChat/Pods/Alamofire/Source/MultipartFormData.swift:485-501 | a stream without space at the first check: on any form with a part, writing reports success and the encoding has not been written |
| `MultipartFormData.InputStream.Read` | ThorChat/Pods/Alamofire/Source/MultipartFormData.swift:407-419 | between one and the maximum number of bytes while there are any |
| `MultipartFormData.WriteBuffer` | ThorChat/Pods/Alamofire/Source/MultipartFormData.swift:485-501 | for every pace of the stream the loop ends and delivers the whole buffer, unless the stream refused space |
| `MultipartFormData.EncodeBodyStream` | ThorChat/Pods/Alamofire/Source/MultipartFormData.swift:400-423 | collects exactly what the stream holds, however it hands it out |
| `MultipartFormData.WriteBodyStream` | ThorChat/Pods/Alamofire/Source/MultipartFormData.swift:444-468 | delivers exactly what the stream holds |
| `MultipartFormData.EncodeBodyPart` | ThorChat/Pods/Alamofire/Source/MultipartFormData.swift:373-390 | boundary, headers, body and final boundary; `MultipartReader.ContentReads` reads the headers and the body back |
| `MultipartFormData.WriteBodyPart` | ThorChat/Pods/Alamofire/Source/MultipartFormData.swift:427-474 | delivers the same bytes |
| `MultipartFormData.MultipartFormData.Append` | ThorChat/Pods/Alamofire/Source/MultipartFormData.swift:305-308 | adds a part without flags |
| `MultipartFormData.MultipartFormData.FlagEnds` | ThorChat/Pods/Alamofire/Source/MultipartFormData.swift:327-328 | flags the first and the last part, and keeps older flags |
| `MultipartFormData.MultipartFormData.Encode` | ThorChat/Pods/Alamofire/Source/MultipartFormData.swift:320-336 | returns the parts one after the other as flagged, and leaves them flagged, with their streams read to the end |
| `MultipartFormData.MultipartFormData.WriteEncodedData` | ThorChat/Pods/Alamofire/Source/MultipartFormData.swift:345-369 | without an error it has written exactly the bytes encode returns, if and only if the output stream never refused space |

## Left out

- PbEncode.Encode: its hypothesis `SizedFields` keeps the encoded size of every submessage below 2^64, and sums of sizes are not reduced modulo 2^64; `size_t` wrap-around in `bytes_written + count` is not modelled, because no message in memory reaches it.
- PbDecode.DecodeNoinit: says nothing about what the struct holds after a failure, because the source promises nothing about it.
- PbDecode.MessageSetToDefaults: the entries of a fixed-count array, which the source leaves indeterminate apart from writing a zero count into their first bytes, are absent in the model.
- Merge.ConcatenationMerges: for descriptors with required or fixed-count fields the final checks of the first half can fail where the whole would not; `Merge.LoopSplits` holds for all static descriptors.
- WireLaws.Varint32Widens: varints longer than ten bytes are excluded, because the eight-bit position of `pb_decode_varint32` wraps around on them.
- SerializerPipeline.OneAtATime: serializers are registered before the completions are called, looking for the next one and ending the processing are one step, and resets come from the serializer at work; `LateSerializers` and `SerializerPipeline.AppendedInBetweenIsLost` are about the other cases.
- PartialReader.PartRestores: for encodings shorter than 2^63 bytes, and tables that keep their unions apart when the fields are removed, since taking out the first member of a union would join the rest to the union before it.
- Submessages.OccurrencesMerge: the table of the submessage has no required and fixed-count fields, whose checks can fail between the two occurrences, and a ends on a field boundary.
- Submessages.SubmessagesMerge: the same, for the table of the submessage only.
- AuthPromises.QueuedAdaptsUseAnswer: no retry is on its way to the lock when the refresh ends, and c needs no refresh itself; otherwise another refresh may begin before the drain gets to them, and the credential after that one is used (`AuthHistory.EveryCallUsesLatest`).
- MultipartReader.MultipartReads: for boundaries without a carriage return, which RFC 2046 does not allow in one either.
- DataStream.CompletionComesLast: is about the order in which parsers finish and events are released; what the stream handlers do with their values is not modelled, and neither is `URLSession`, which decides whether late data arrives.
- RoundTrip.MessageRestores: for encodings shorter than 2^63 bytes.
- DecodedEncodes.DecodedComesBack: for encodings shorter than 2^63 bytes; the first input may have any length.
- PackedArrays.SplitResult: arrays of fixed count are the subject of `FixedArrays.FixedSplitResult`.
- FixedArrays.FixedSplitResult: for a message that holds this one field; `FixedTables.GroupsResult` is about several such arrays, and `FixedArrays.ChunksOverlay` about any fields before and after.
- DecodedEncodes.DecodedEncodes: an unread fixed-count array has no entries in the model, so nothing is said about encoding a struct that has one beyond `DecodedEncodes.UnreadBytes`, where its entries are whatever memory holds.
- SerializerPipeline.EverySettlingFinishes: is about runs without further retries and registrations, since retrying could go on for ever.
- DataStream.EverySettlingDelivers: is about runs without further data, each arrival of which makes new work.
- AuthRuns.EverySettlingEnds: assumes that no credential demands a refresh again (`Settling`), since refreshing could otherwise go on for ever, and lets no new callers arrive.
- nanopb callbacks, extensions, pointer fields and custom streams: user code, or storage allocated at run time.
- Error texts of nanopb (`errmsg`), and the aliasing of struct bytes: values are typed, and floats are words of four and eight bytes.
- An ill-formed `which_` value that is no tag of its union: a union has one chosen member or none.
- Opening and closing files and streams, file checks and part errors other than their flag in `MultipartFormData`: Foundation is not part of this model.
- The text encoding of headers and boundaries, and the random boundary: they are given as bytes.
- `URLSession`, `Session`, the lock and the dispatch queues: locked sections are atomic, serial queues are first in, first out.
- Download, upload and cURL handlers, redirects, event monitors, validation and the view layer of the application: forwarding code, or code about other systems.
- The generated table in `err_data.c`: it is not part of this model.
