# mcpack item headers and nshead frames

A Dafny model of two byte-level codecs from a Go library.

- **mcpack v2 type tags.** `Tags` covers `mcpack/def.go`. It classifies every one of the 256 tag bytes into a category, with an `Invalid` arm. It gives each fixed-width category its payload width (1, 2, 4 or 8 bytes), and it says whether a variable item carries a 1-byte or a 4-byte content length. That choice is the SHORT_ITEM bit, 0x80.
- **mcpack item-header decoder.** `McpackDecode` covers `mcpack/decode.go`. `Decoder` is a class with the fields of `decodeState`: `data`, the cursor `off`, `curItemLeft` and `savedError`. Its reader methods move `off` in place. `UnpackStruct` reads one item header:
  - the tag byte;
  - the name-length byte and the name;
  - then one of three branches: a fixed item's scalar payload, a short item's 1-byte content length, or a long item's 4-byte big-endian content length.

  Each method is proved against the pure specification `ParseItem` / `ParsePayload` / `ScalarOf`. `EncodeItemHeader` writes a header. It exists only so that the round trip `ParseItem(prefix + EncodeItemHeader(it) + rest, |prefix|)` can be stated. The source has no encoder.
- **nshead frames.** `Nshead` covers `nshead/nshead.go`. A frame is a 36-byte big-endian header followed by `BodyLen` body bytes. The header fields are id, version, log id, a 16-byte provider, the magic number 0xfb709394, a reserved word and the body length. `EncodeHeader`/`DecodeHeader` and `Serialize`/`Parse` give the layout as pure functions. `NsheadPacket.Write` normalises the header in place and emits the frame. `ReadNsheadPacket` allocates a packet and fills it from an input byte sequence.

`Bytes` holds the shared integer encodings:
- `BigEndian` / `ToBigEndian`, with round trips both ways;
- the two's-complement readings `Signed` / `Unsigned`, proved to be inverse bijections.

`Results` holds `Result` and `Option`.

Where the Go code and its evident intent differ, the model follows the intent. The three places where the code as written is evidently a bug are also modelled as written, beside the correction (see "## Findings"). Every other difference is listed under "## Left out". The decoder source does not compile as written. It declares `deocdeState` but uses `decodeState`, and it refers to undefined names such as `MCPACKV2_UINT16` and `t`. The model reads the tag variable as `item_type` and the constants as those of `mcpack/def.go`.

Every reader checks its bounds before reading and returns `Err(UnexpectedEof)` with the cursor unchanged. The Go readers that index `d.data` do so unchecked and would panic instead. `null` and `date` read no byte; see "## Left out".

## Model

| member | source | states |
|---|---|---|
| Tags.TagOf | mcpack/def.go:4-24 | Every constant is below 0x80, and a constant is 0x00 exactly for INVALID. |
| Tags.IsFixedTag | mcpack/decode.go:221 | The `tag & 0x0f` test gives the same answer with or without the SHORT_ITEM bit. |
| Tags.IsShortTag | mcpack/decode.go:254 | The `tag & 0x80` test holds exactly when clearing the SHORT_ITEM bit changes the tag, and then it subtracts 0x80. |
| Tags.Classify | mcpack/def.go:4-24 | Every byte gets a category. A category other than Invalid is one whose constant equals the byte with the 0x80 bit cleared. |
| Tags.ClassifyTagOf | mcpack/def.go:4-24 | Classify inverts the constant table, both for the plain constant and with the SHORT_ITEM bit set. |
| Tags.ClassifyExact | mcpack/def.go:4-24 | A byte is a known tag if and only if, with 0x80 cleared, it equals some non-INVALID constant. |
| Tags.TagsDistinct | mcpack/def.go:4-24 | 0x00 belongs to INVALID alone, and no two categories share a constant. |
| Tags.Width | mcpack/def.go:9-21 | The payload width of a fixed-width category is 1, 2, 4 or 8, and it is 0 for every other category. |
| Tags.LowNibbleIsWidth | mcpack/def.go:5-24 | The FIXED_ITEM nibble (`tag & 0x0f`) of each constant is its payload width. It is 0 for OBJECT, ARRAY, STRING, RAW and DELETED. |
| Tags.FixedTagIffFixedCategory | mcpack/decode.go:221 | For a known tag, a nonzero FIXED_ITEM nibble holds exactly for the fixed categories. A zero nibble holds exactly for the variable ones. |
| Tags.ShortBitDisjoint | mcpack/def.go:5-24 | Every constant is below 0x80. Setting SHORT_ITEM and clearing it again gives the constant back, and setting it leaves the low nibble unchanged. |
| Tags.WithShortBit | mcpack/def.go:22 | `tag \| 0x80` of a byte below 0x80 is a short tag whose base tag is the original. |
| Tags.LengthFieldWidth | mcpack/decode.go:254-262 | The content-length field is 1 byte exactly when the SHORT_ITEM bit is set; otherwise it is 4 bytes. |
| Tags.MasksAgree | mcpack/decode.go:221-254 | On every byte, LowNibble, IsShortTag, BaseTag and WithShortBit agree with `& 0x0f`, `& 0x80 != 0`, `& 0x7f` and `\| 0x80`. |
| Tags.HighNibbleAmbiguous | mcpack/def.go:5-21 | INT_8/OBJECT and DATE/STRING share a high nibble but are different categories, so the whole byte is needed. |
| Bytes.BigEndian | mcpack/decode.go:137-167 | The big-endian reading of w bytes is below 256^w. |
| Bytes.BigEndianOfToBigEndian | mcpack/decode.go:137-167 | A value written as w big-endian bytes reads back as itself. |
| Bytes.ToBigEndianOfBigEndian | mcpack/decode.go:137-167 | Bytes read big-endian and written back give the same bytes. |
| Bytes.BigEndianInjective | mcpack/decode.go:137-167 | Two byte strings of the same length with the same big-endian reading are equal. |
| Bytes.Signed | mcpack/decode.go:131-136 | The two's-complement reading lies in [-2^(8w-1), 2^(8w-1)). It is non-negative exactly when the unsigned value is below 2^(8w-1), and it differs from the unsigned value by 0 or 2^(8w). |
| Bytes.SignedUnsigned | mcpack/decode.go:131-167 | Signed and Unsigned are inverse bijections between the w-byte signed and unsigned ranges. |
| McpackDecode.ScalarOf | mcpack/decode.go:223-249 | The scalar read from a fixed payload always fits its category's range and kind. |
| McpackDecode.SignedRoundTrip | mcpack/decode.go:131-167 | A signed value written in two's complement at its category's width is read back unchanged. |
| McpackDecode.UnsignedRoundTrip | mcpack/decode.go:125-188 | An unsigned value, or a float/double/date bit pattern, written big-endian is read back unchanged. |
| McpackDecode.ScalarRoundTrip | mcpack/decode.go:125-196 | Every value that fits a fixed category is read back from its payload bytes: integers, booleans (0 is false), raw bits and NULL. |
| McpackDecode.ParsePayload | mcpack/decode.go:221-262 | After the name, an unknown tag is rejected. A fixed tag reads Width bytes; a variable tag reads a 1- or 4-byte length. A success is well formed, keeps the tag and name, and stops right after the field. An unknown tag gives exactly `InvalidTag(tag)`. A known tag with enough bytes left is always read, whatever the payload bytes. The only other error is end of input. |
| McpackDecode.ParseItem | mcpack/decode.go:198-262 | Fewer than 2 bytes at `off` is end of input. A success has the tag at `off` and a name of exactly the length byte's size taken from the next bytes. It ends at off + 2 + name + payload, within the buffer. A name that overruns the buffer is end of input, whatever the tag. |
| McpackDecode.PayloadRoundTrip | mcpack/decode.go:221-262 | The payload or length field written for an item is parsed back as that item, ending just after the field. |
| McpackDecode.ItemAt | mcpack/decode.go:198-262 | A buffer holding an item's tag, name length, name and payload at `off` is read as exactly that item. |
| McpackDecode.ItemRoundTrip | mcpack/decode.go:198-262 | Any well-formed item header, wherever it sits in a buffer, parses back as the same item. The cursor ends right after the header. |
| McpackDecode.TruncatedItemFails | mcpack/decode.go:199-214 | Every strict prefix of an item header is reported as end of input. It is never misread and never reported as a tag error. |
| McpackDecode.Decoder.constructor | mcpack/decode.go:8-20 | A decoder over `data` starts at offset 0, with no error and nothing left in the current item. |
| McpackDecode.Decoder.Reset | mcpack/decode.go:109-113 | Sets off to 0, clears savedError and sets curItemLeft to 0, leaving the data as it was. |
| McpackDecode.Decoder.Uint8 | mcpack/decode.go:125-129 | Returns the byte at off and advances off by exactly 1. At the end of the data it fails and leaves off unchanged. |
| McpackDecode.Decoder.Int8 | mcpack/decode.go:131-136 | Returns the two's-complement reading of the byte at off and advances off by exactly 1. At the end of the data it fails and leaves off unchanged. |
| McpackDecode.Decoder.ReadUnsigned | mcpack/decode.go:137-167 | Returns the big-endian value of bytes off..off+w and advances off by exactly w. If fewer bytes remain it fails and leaves off unchanged. |
| McpackDecode.Decoder.ReadSigned | mcpack/decode.go:142-167 | Returns the signed reading of bytes off..off+w and advances off by exactly w. If fewer bytes remain it fails and leaves off unchanged. |
| McpackDecode.Decoder.Uint16 | mcpack/decode.go:137-141 | Returns bytes off..off+2 big-endian and advances off by exactly 2. If fewer bytes remain it fails and leaves off unchanged. |
| McpackDecode.Decoder.Int16 | mcpack/decode.go:142-146 | Returns the signed reading of bytes off..off+2 and advances off by exactly 2. If fewer bytes remain it fails and leaves off unchanged. |
| McpackDecode.Decoder.Uint32 | mcpack/decode.go:147-151 | Returns bytes off..off+4 big-endian and advances off by exactly 4. If fewer bytes remain it fails and leaves off unchanged. |
| McpackDecode.Decoder.Int32 | mcpack/decode.go:152-157 | Returns the signed reading of the same 32 bits and advances off by exactly 4. If fewer bytes remain it fails and leaves off unchanged. |
| McpackDecode.Decoder.Uint64 | mcpack/decode.go:158-162 | Returns bytes off..off+8 big-endian and advances off by exactly 8. If fewer bytes remain it fails and leaves off unchanged. |
| McpackDecode.Decoder.Int64 | mcpack/decode.go:163-167 | Returns the signed reading of bytes off..off+8 and advances off by exactly 8. If fewer bytes remain it fails and leaves off unchanged. |
| McpackDecode.Decoder.Bool | mcpack/decode.go:169-177 | Returns whether the byte at off is nonzero (any nonzero BOOL byte is true) and advances off by exactly 1. At the end of the data it fails and leaves off unchanged. |
| McpackDecode.Decoder.Null | mcpack/decode.go:193-196 | Consumes exactly one byte. At the end of the data it fails and leaves off unchanged. |
| McpackDecode.Decoder.ReadScalar | mcpack/decode.go:223-253 | The fixed-item switch: for any fixed category it returns ScalarOf of the next Width bytes and advances off by Width. If fewer bytes remain it fails and leaves off unchanged. |
| McpackDecode.Decoder.ReadSignedScalar | mcpack/decode.go:226-239 | The INT_8..INT_64 arms return the signed reading of the next Width bytes and advance off by Width. |
| McpackDecode.Decoder.ReadUnsignedScalar | mcpack/decode.go:224-237 | The UINT_8..UINT_64 arms return the big-endian value of the next Width bytes and advance off by Width. |
| McpackDecode.Decoder.UnpackPayload | mcpack/decode.go:221-262 | Returns exactly what ParsePayload returns at off: the same item and the same new offset, or the same error with off unchanged. |
| McpackDecode.Decoder.UnpackStruct | mcpack/decode.go:198-262 | Returns exactly what ParseItem returns at off and leaves off after the header. A failure is also stored in savedError. With fewer than 2 bytes left, off does not move. If the name overruns the data, off stays after the two length bytes. If the payload read fails, off stays just after the name. |
| McpackDecode.DispatchAsWrittenNeverMatches | mcpack/decode.go:221-253 | As written, the masked switch reaches its default arm for every byte that reaches it. Even for a valid fixed tag it never selects the tag's category. |
| McpackDecode.BoolAsWrittenInverts | mcpack/decode.go:169-177 | As written, a BOOL payload reads as the negation of what it encodes and the cursor does not move; the corrected reading returns the encoded value. |
| Nshead.EncodeHeader | nshead/nshead.go:9-17 | A header serialises to exactly 36 bytes. |
| Nshead.HeaderFields | nshead/nshead.go:9-17 | Field order and widths of the encoded header: id (0..2), version (2..4), log id (4..8), provider (8..24), magic (24..28), reserved (28..32), body length (32..36), each integer big-endian. |
| Nshead.HeaderRoundTrip | nshead/nshead.go:9-17 | Decoding an encoded header gives the header back. |
| Nshead.DecodeHeader | nshead/nshead.go:9-17 | The header read from any 36 bytes re-encodes to exactly those bytes, so every 36-byte string is one header's encoding and the layout is a bijection. |
| Nshead.Serialize | nshead/nshead.go:76-86 | The frame is 36 + len(body) bytes, and the body follows the header verbatim. |
| Nshead.Parse | nshead/nshead.go:42-67 | Each error holds exactly when its condition does. ErrMalformedHeader: the magic number is wrong. UnexpectIOError: the input ends inside the header or the body. ErrBodyTooLarge never occurs. A success carries the magic number, the decoded header, and exactly BodyLen body bytes, empty when BodyLen is 0. |
| Nshead.ParseConsumesFrame | nshead/nshead.go:42-67 | The bytes a successful parse consumes are exactly the serialisation of the frame it returns. |
| Nshead.FrameRoundTrip | nshead/nshead.go:42-89 | A frame with the magic number and a matching body length parses back from its serialisation, whatever follows it. |
| Nshead.NsheadPacket.constructor | nshead/nshead.go:19-22 | A packet holds the given header and body. |
| Nshead.NsheadPacket.Write | nshead/nshead.go:69-89 | Sets BodyLen to len(Body) and MagicNum to 0xfb709394, keeps id, version, log id, provider and reserved, and emits the header followed by the body. A body longer than MaxInt32 gives ErrBodyTooLarge and nothing changes. |
| Nshead.WriteOutputParses | nshead/nshead.go:69-89 | Parsing what Write emits gives back the normalised header and the same body, and the output is 36 + len(body) bytes. |
| Nshead.ReadNsheadPacket | nshead/nshead.go:42-67 | Returns a fresh packet. Success and each error match Parse. Input shorter than 36 bytes leaves the header zeroed; otherwise the packet keeps the decoded header. A malformed header gets an empty body. When the input ends inside the body, the body is BodyLen bytes long and starts with the bytes that were available. |
| Nshead.ExampleFieldBytes | nshead/nshead_test.go:10-17 | The big-endian bytes of id 1, version 2, log id 3, the magic number, reserved 4 and body length 5. |
| Nshead.ExampleSerialization | nshead/nshead_test.go:10-19 | The 41 example bytes are the serialisation of that header with body "ZHANG". |
| Nshead.ExampleParses | nshead/nshead_test.go:22-38 | Parsing the example bytes gives id 1, version 2, log id 3, provider "HELLOTHEWORLD!!\0", reserved 4, body length 5 and body "ZHANG". |
| Nshead.ExampleWrite | nshead/nshead_test.go:41-61 | Writing the example packet, with magic and body length unset, emits exactly the example bytes with no error. |
| Nshead.WriteAsWrittenTruncates | nshead/nshead.go:69-89 | As written, a body of 2^32 bytes gets ErrBodyTooLarge but is still emitted under BodyLen 0. A reader then takes an empty body. |

## Left out

- Reflection is not modelled: `indirect`, `unmarshal`'s `reflect.ValueOf` and `recover`, the `FieldByName` lookup, and the `SetUint`/`SetInt`/`SetBool`/`SetPointer` setters (mcpack/decode.go:15-20, 60-107, 215). Go runtime type introspection and `unsafe` have no counterpart here. Decoded values are returned as the `Scalar` and `Item` datatypes instead of being stored into fields.
- Unknown field names are not modelled: the "unfound field name" error (mcpack/decode.go:215-219) needs the target struct.
- `nextItem` (mcpack/decode.go:115-123) is not modelled. It has no return path and a malformed `binary.Read` call. `curItemLeft` is kept as a field that only the constructor and `Reset` touch.
- The `Error()` string methods (mcpack/decode.go:26-58, nshead/nshead.go:28-34) are not modelled; errors are datatype constructors.
- Floating point is not modelled: `float`/`double` (mcpack/decode.go:178-188) are read as their raw 4- or 8-byte bit patterns (`Bits`), with no IEEE interpretation.
- McpackDecode.Decoder.constructor: the constructor takes the buffer and stores it in `data`. The source's `Unmarshal` (mcpack/decode.go:15-20) builds `d := &decodeState{}` and never assigns `d.data = data`, so as written every read sees an empty buffer and `unpack_struct` fails its first bounds test (mcpack/decode.go:200). The model follows the evident intent.
- McpackDecode.Decoder.Null: at the end of the data it fails with `UnexpectedEof` and leaves the cursor unchanged. The source's `null` (mcpack/decode.go:193-196) reads no byte: it does `d.off++` unconditionally and so moves the cursor past the end without failing.
- McpackDecode.Decoder.ReadScalar: the DATE arm reads 8 bytes as raw bits, the width its tag 0x58 declares. The source's `date` reader (mcpack/decode.go:190-192) is an empty stub that consumes nothing.
- McpackDecode.Decoder.UnpackStruct: the cursor moves past the name and past a short item's 1-byte content length. The source does not advance `d.off` after slicing the name (mcpack/decode.go:214) or after reading `contentlen` (mcpack/decode.go:255). Its line 256 (`x = t + namelen + contentlen`) computes a value that is never used.
- McpackDecode.ParsePayload: a tag that no constant matches is rejected with `InvalidTag`, whatever its low nibble. This includes 0x00 (INVALID), 0x30, 0x40 and 0x80. The source's variable branch (mcpack/decode.go:254-262) never checks the category, so such a tag with a zero low nibble gets a 1- or 4-byte content length read as if it were a known variable item.
- McpackDecode.Decoder.UnpackStruct: every failure is recorded in `savedError`. The source returns without recording one when the 4-byte content-length read fails (mcpack/decode.go:258-261). It also records a failed name-length read without returning (mcpack/decode.go:210-213); the model's bounds check makes that read unable to fail.
- McpackDecode.Decoder.UnpackStruct: the content bytes of a variable item, which follow its length field, are neither read nor checked. The source stops at the length as well.
- Stream I/O is not modelled: `io.Reader`/`io.Writer`, `binary.Read`/`binary.Write` and `io.ReadFull` (nshead/nshead.go:44, 61, 76, 82) are replaced by byte sequences. Input that ends early is `UnexpectIOError`. Writer failures (nshead/nshead.go:77-80, 83-86) cannot happen in the model, because output is a returned sequence.
- Nshead.ReadNsheadPacket: on a short body the model keeps the bytes that were available, followed by zeros. How much `io.ReadFull` fills before failing depends on the reader.

## Findings

| source | as written | input that shows it | evidently intended | confidence | as-written member | corrected member |
|---|---|---|---|---|---|---|
| mcpack/decode.go:221-253 | The switch compares `item_type & 0x0f` (at most 15) against the full tag constants, which are all 0x11 or more. | Tag 0x11 (INT_8), or any byte with a nonzero low nibble: the switch falls to its default arm and reports an error. Bytes with a zero low nibble never reach the switch. | Dispatch on the whole tag byte with 0x80 cleared, so that INT_8 reads one signed byte. | high (not executed) | McpackDecode.DispatchAsWrittenNeverMatches | McpackDecode.Decoder.ReadScalar |
| mcpack/decode.go:169-177 | `bool` sets true when the byte is 0 and does not advance `d.off`. | Payload byte 0x01 reads as false, and the next read starts on the same byte. | 0 is false, nonzero is true, and the cursor advances by 1 like the other 1-byte readers. | high (not executed) | McpackDecode.BoolAsWrittenInverts | McpackDecode.ScalarRoundTrip |
| nshead/nshead.go:69-89 | After `len(Body) > MaxInt32` sets ErrBodyTooLarge, Write continues and stores `uint32(len(Body))`. | A body of 2^32 bytes is emitted under BodyLen 0. A reader takes an empty body, then finds 2^32 stray bytes where the next header should be. | Return ErrBodyTooLarge without changing the header or emitting anything. | medium (not executed) | Nshead.WriteAsWrittenTruncates | Nshead.NsheadPacket.Write |
