# Verified models of the vendored nanopb and Alamofire cores

The app's own code is interface and service glue; the code with hard correctness properties is in its Pods.
This project models two of them in Dafny and proves what they are for.

## nanopb: a table-driven Protocol Buffers codec

An interpreter walks an array of field descriptors and encodes or decodes a structure recursively. Each part
is modelled twice: as a function from bytes or slots, which the theorems are about, and as the C code runs,
with streams, cursors, buffers, a field iterator and a mask, proved to compute that function.

- `Wire`, `Varints`: bytes, shifts, the bitwise or, and the 64- and 32-bit varint codecs with their position
  counters; what the two decoders accept of varints in any form.
- `Descriptor`: descriptor entries, structures as slots (a union is one slot), lookups and defaults.
- `Encoding`, `Decoding`: what `pb_encode` writes and what `pb_decode_noinit`, `pb_decode` and the delimited
  form accept, store and leave, with every error branch.
- `Encoder`, `Decoder`, `Iterator`, `RequiredMask`: `pb_encode.c`, `pb_decode.c` and `pb_common.c` as they run.
- `RoundTrip`, `Integers`, `Codec`: decoding undoes encoding, for every field kind and nesting depth.
- `Exactness`: of all structures a table can have, exactly which ones come back the same.
- `Acceptance`, `Arrivals`, `Sending`: exactly which values, fields and messages the decoder accepts, what becomes
  of those that do not come, and what the encoder sends and refuses.
- `Merge`, `FixedCount`, `Repeats`: when concatenation is merging, exactly; unknown fields are ignored; fields that
  come twice are merged or replaced.
- `Packed`, `Presence`: packed and unpacked agree, and implicit presence is exact.
- `Layout`, `Storage`: whatever the bytes, the result keeps its layout and fits its storage.
- `Versions`: what one version of a table writes, an older one reads: its own fields, and nothing else.
- `Limits`: where those laws stop: exact conditions, and inputs beyond them.

The build settings are those of `Target Support Files/nanopb`: `PB_FIELD_32BIT`, `PB_ENABLE_MALLOC` and
`PB_NO_PACKED_STRUCTS`, so `pb_size_t` has 32 bits and a bytes field starts with a four-byte length.

Behaviour of the code that its documentation does not mention, and that the model follows:

- The 32-bit varint decoder discards bits 32 to 34 of a fifth byte whose continuation bit is set, so it accepts
  some values that do not fit; `Wire.Dec32Canonical` says exactly which.
- On an empty table a tag of zero with a non-zero wire type is taken for the terminator's entry and read as a bool.
- The encoder writes a string that fills its buffer without a terminator; the decoder refuses it.
- Encoded messages whose table has exactly one non-empty fixed-count array do not merge when they are concatenated:
  the count goes on where it was full. With none there is nothing to count, and with several another array comes
  first and the count starts over.
- The 8-bit position of the 32-bit varint decoder wraps after 37 bytes, so that it misreads longer varints.
- A zero in a field with implicit presence and a custom default is omitted and comes back as the default.

## Alamofire: concurrent bookkeeping

The classes hold the mutable state and their methods are the critical sections: they keep an invariant, say what
becomes of every completion, and are proved to compute functions on the state. A system takes these functions as
its steps, interleaved with events and dispatched jobs in any order, and the theorems are about every run of it.

- `Refresh`: the credential refresh of `AuthenticationInterceptor`.
- `StreamCompletion`: the outstanding-work counter of `DataStreamRequest`.
- `TaskMap`: the two-way map of `RequestTaskMap` and the two-event rendezvous of `Session`.
- `Multipart`, `FormReader`: `MultipartFormData`, whose streaming writer must produce the bytes of the in-memory
  encoder, and a reader that takes the form apart again. Boundary marks stay set, so a call that comes after more appends closes the form in the middle.
- `Counting`: occurrences in queues, shared by the first three.

What is assumed of the surroundings: the clock does not run backwards; an authenticator answers each refresh
once, after the critical section that asked; the URL loading system reports one metrics and one completion event
for each task, and a request gets a new task only when it has no live one; an input stream that has bytes delivers
at least one of them per read, an output stream that has space accepts at least one per write.

## Model

| member | source | states |
|---|---|---|
| RoundTrip.MessageRoundTrip | WorkingCafe/Pods/nanopb/pb_decode.c:925-1073 | for every generated table and every message of it, at any nesting depth, decoding into a reset structure consumes exactly what encoding wrote, whether the stream ends there or a zero byte and anything follow, and gives the same structure up to absent contents |
| RoundTrip.DecodeOfEncode | WorkingCafe/Pods/nanopb/pb_decode.c:1075-1087 | decode undoes encode, over a structure with any previous contents |
| Exactness.RoundTripExactly | WorkingCafe/Pods/nanopb/pb_decode.c:925-1073 | of all the structures a generated table can have in memory, exactly those come back the same from being encoded and decoded that meet the conditions of the round trip, and then every byte is consumed |
| Exactness.MessageNecessary | WorkingCafe/Pods/nanopb/pb_decode.c:925-1073 | the converse of the round trip for whole messages at any depth: one that comes back the same has every count, selector, integer, string and length within its conditions |
| Exactness.ValueNecessary | WorkingCafe/Pods/nanopb/pb_decode.c:1318-1548 | a value that comes back the same was in the range of its field, left room for its terminator and had a length below 2^32 |
| RoundTrip.LoopRoundTrip | WorkingCafe/Pods/nanopb/pb_encode.c:519-541 | the field loop reads back the first n encoded entries, whatever bytes follow, and its bookkeeping (counts, selectors, required fields) is then exactly theirs |
| RoundTrip.EntryRoundTrip | WorkingCafe/Pods/nanopb/pb_encode.c:332-417 | one entry of any kind, written and read back by the loop: required, optional, implicit, repeated, fixed-count, oneof |
| RoundTrip.ValueRoundTrip | WorkingCafe/Pods/nanopb/pb_decode.c:406-480 | a value of any type decodes to itself, consuming exactly its encoding; a submessage does so over reset storage, or over any storage when its field is repeated |
| RoundTrip.ArrayRoundTrip | WorkingCafe/Pods/nanopb/pb_encode.c:144-233 | an array, packed or not, is read back element for element into what the entry has received |
| RoundTrip.DelimitedFrames | WorkingCafe/Pods/nanopb/pb_decode.c:1104-1117 | a delimited message shorter than 2^32 bytes, followed by anything: the message comes back and exactly the rest remains |
| RoundTrip.NullTerminatedFrames | WorkingCafe/Pods/nanopb/pb_decode.c:1119-1123 | a null-terminated message of any length, followed by anything: the message comes back and exactly the rest remains |
| RoundTrip.DefaultsReset | WorkingCafe/Pods/nanopb/pb_decode.c:908-919 | setting to defaults brings every field into its initial state, whatever the structure held |
| RoundTrip.DefaultIsReset | WorkingCafe/Pods/nanopb/pb_encode.c:237-328 | a submessage omitted as default equals what the decoder starts from |
| RoundTrip.NotYetChosen | WorkingCafe/Pods/nanopb/pb_decode.c:466-475 | when the encoder writes a union member, no other member of that union was decoded before it |
| Codec.EncodeThenDecode | WorkingCafe/Pods/nanopb/pb_decode.c:1075-1087 | encoder and decoder run on one buffer: writing succeeds exactly when the message fits, and reading what was written succeeds and gives the message back |
| Codec.DelimitedThenDecode | WorkingCafe/Pods/nanopb/pb_decode.c:1104-1117 | the same for a delimited message with anything behind it: written exactly when it fits, and the reader stops exactly where the writer stopped |
| Encoder.EncodeToBuffer | WorkingCafe/Pods/nanopb/pb_encode.c:558-567 | encoding into a buffer succeeds exactly when the sizing pass does and its size fits, writes exactly that many bytes, and leaves the rest of the buffer alone |
| Encoder.EncodeSubmessage | WorkingCafe/Pods/nanopb/pb_encode.c:708-756 | the two passes emit the length and the message; the check that the second pass wrote what the first counted never fails, at any depth, and neither a sizing stream nor a full one breaks it |
| Encoder.GetEncodedSize | WorkingCafe/Pods/nanopb/pb_encode.c:558-567 | succeeds exactly when encoding does, with the number of bytes it writes |
| Encoder.Encode | WorkingCafe/Pods/nanopb/pb_encode.c:519-541 | emits exactly the bytes of the specification, or fails when it does or the stream is full, and never writes outside the room given |
| Encoder.EncodeField | WorkingCafe/Pods/nanopb/pb_encode.c:332-417 | the same for one entry: what is omitted, when an error is raised, and the bytes otherwise |
| Encoder.EncodeArray | WorkingCafe/Pods/nanopb/pb_encode.c:144-233 | the same for an array: count above the array size, empty, packed and unpacked |
| Encoder.EncodePackedArray | WorkingCafe/Pods/nanopb/pb_encode.c:161-202 | the packed branch: the length computed or measured beforehand is the length of what is then written |
| Encoder.PackedSize | WorkingCafe/Pods/nanopb/pb_encode.c:166-186 | the sizing half of the packed branch counts exactly the bytes of the items, or fails when one of them has no encoding |
| Encoder.FixedItemsSize | WorkingCafe/Pods/nanopb/pb_encode.c:166-174 | fixed-width items need no measuring: their packed size is the width times the count |
| Encoder.EncodeUnpackedArray | WorkingCafe/Pods/nanopb/pb_encode.c:205-230 | a tag in front of every item |
| Encoder.EncodeValue | WorkingCafe/Pods/nanopb/pb_encode.c:760-901 | the encoders of all eleven field types but extensions |
| Encoder.EncodeInteger | WorkingCafe/Pods/nanopb/pb_encode.c:767-824 | a value of any integer field of width 1, 2, 4 or 8 emits the varint of its sign-extended, unsigned or zigzag form; other widths are refused |
| Encoder.CheckDefault | WorkingCafe/Pods/nanopb/pb_encode.c:237-328 | the recursive default check over in-memory data computes the predicate that Presence.ZeroIsOmitted and Presence.ImplicitPresenceExact are about |
| Encoder.CheckAllDefault | WorkingCafe/Pods/nanopb/pb_encode.c:286-305 | its loop over a submessage, stopping at the first field that is not default |
| Encoder.EncodeVarint | WorkingCafe/Pods/nanopb/pb_encode.c:599-619 | the loop over a ten-byte buffer emits the base-128 digits of any 64-bit value |
| Encoder.FillDigits | WorkingCafe/Pods/nanopb/pb_encode.c:610-616 | the loop never runs past its ten bytes |
| Encoder.DigitsAreVarint | WorkingCafe/Pods/nanopb/pb_encode.c:610-616 | clearing the continuation bit of the last digit gives the encoding |
| Encoder.EncodeFixed32 | WorkingCafe/Pods/nanopb/pb_encode.c:632-641 | four bytes, least significant first, of any 32-bit pattern |
| Encoder.EncodeFixed64 | WorkingCafe/Pods/nanopb/pb_encode.c:644-657 | eight bytes, least significant first, of any 64-bit pattern |
| Encoder.LittleEndianBytes | WorkingCafe/Pods/nanopb/pb_encode.c:644-657 | byte i of the little-endian form is the value shifted right by 8 i bits, as the C code computes it |
| Encoder.EncodeTag | WorkingCafe/Pods/nanopb/pb_encode.c:660-664 | tag and wire type in one varint |
| Encoder.EncodeTagForField | WorkingCafe/Pods/nanopb/pb_encode.c:666-698 | the wire type that the field type implies |
| Encoder.EncodeString | WorkingCafe/Pods/nanopb/pb_encode.c:700-706 | length and bytes; a sizing stream counts without data |
| Encoder.StringLength | WorkingCafe/Pods/nanopb/pb_encode.c:864-888 | the scan for the terminator stops at it or at the capacity |
| Encoder.EncodeDelimited | WorkingCafe/Pods/nanopb/pb_encode.c:543-546 | length and message |
| Encoder.EncodeNullTerminated | WorkingCafe/Pods/nanopb/pb_encode.c:548-556 | message and one zero byte |
| Sending.RefusedExactly | WorkingCafe/Pods/nanopb/pb_encode.c:519-541 | encoding a structure fails exactly when some count exceeds its array, some byte string its storage, or an integer has another width, at any depth |
| Sending.EntriesSent | WorkingCafe/Pods/nanopb/pb_encode.c:519-541 | a message is what its entries write, in the order of the table |
| Sending.TagSent | WorkingCafe/Pods/nanopb/pb_encode.c:660-698 | the tag of a value is one varint of the field number shifted by three bits or the wire type, by its number in the Protocol Buffers encoding |
| Sending.ArraySent | WorkingCafe/Pods/nanopb/pb_encode.c:144-233 | an array goes out as one packed run of all its items when its type can be packed, and as tagged items when not |
| Sending.NegativeSent | WorkingCafe/Pods/nanopb/pb_encode.c:767-824 | a negative integer of any width is sent in ten bytes, extended to 64 bits |
| Sending.StringSent | WorkingCafe/Pods/nanopb/pb_encode.c:864-888 | a string is sent up to its first zero byte, or to the end of its storage |
| Sending.BoolSent | WorkingCafe/Pods/nanopb/pb_encode.c:760-765 | a bool is sent as one byte, 0 or 1 |
| Encoder.OStream.Write | WorkingCafe/Pods/nanopb/pb_encode.c:103-121 | writes all of the data or nothing: fails exactly when it does not fit, and a sizing stream only counts |
| Encoder.OStream.CopyIn | WorkingCafe/Pods/nanopb/pb_encode.c:74-84 | copies the data at the cursor and moves the cursor behind it, changing nothing else in the buffer |
| Encoder.EmitsBoth | WorkingCafe/Pods/nanopb/pb_encode.c:103-121 | two successful writes in a row are one write of the concatenation, in both passes |
| Decoder.Decode | WorkingCafe/Pods/nanopb/pb_decode.c:1075-1087 | the decoder as it runs accepts, stores and leaves exactly what the specification says, for any bytes and whatever memory the destination was |
| Decoder.DecodeNoInit | WorkingCafe/Pods/nanopb/pb_decode.c:925-1073 | the same without the reset, over any structure whose storage is of the kinds the table says, counts beyond the array size included: field loop, fixed-count bookkeeping, required mask and final checks |
| Decoder.DecodeNext | WorkingCafe/Pods/nanopb/pb_decode.c:943-1021 | one turn of the field loop keeps the mask, the fixed-count variables and the iterator in step with the specification |
| Decoder.DecodeKnown | WorkingCafe/Pods/nanopb/pb_decode.c:988-1020 | fixed-count switch and mask update before the field is decoded |
| Decoder.FinalChecks | WorkingCafe/Pods/nanopb/pb_decode.c:1023-1070 | pass exactly when no fixed-count array is half received and each of the first 64 required fields was seen; Arrivals.RequiredExactly says which bytes those are |
| Arrivals.RequiredExactly | WorkingCafe/Pods/nanopb/pb_decode.c:1023-1070 | from the bytes: with the field loop done and no fixed-count array half received, decoding succeeds if and only if the tag of each of the first 64 required entries was read; those behind them may be missing |
| Arrivals.UntouchedKept | WorkingCafe/Pods/nanopb/pb_decode.c:943-1021 | through any bytes, a slot keeps its contents when no tag of its entries is read |
| Arrivals.AbsentIsDefault | WorkingCafe/Pods/nanopb/pb_decode.c:836-906 | whatever the structure held, after pb_decode a field that did not come has its own default, or zero, with its flag off, its count zero or its selector clear |
| Arrivals.HalfReceivedRefuses | WorkingCafe/Pods/nanopb/pb_decode.c:988-1005 | while a fixed-count array is half received, the tag of another one is refused, whatever is behind it |
| Packed.FixedCountExactly | WorkingCafe/Pods/nanopb/pb_decode.c:1023-1029 | a message that brings elements of a fixed-count array is accepted exactly when it brings as many as the array has, in whatever pieces, and nothing else is required |
| Decoder.CountRequired | WorkingCafe/Pods/nanopb/pb_decode.c:1036-1046 | seeking on to the end of the table yields the number of its required fields from any position the iterator stopped at |
| Decoder.DecodeField | WorkingCafe/Pods/nanopb/pb_decode.c:731-757 | one entry, static storage |
| Decoder.DecodeArray | WorkingCafe/Pods/nanopb/pb_decode.c:424-464 | a repeated field with its own count, also one beyond the array, or with the running count of a fixed-count array |
| Decoder.DecodeRepeated | WorkingCafe/Pods/nanopb/pb_decode.c:424-464 | packed and single elements, overflow in either form |
| Decoder.DecodePackedItems | WorkingCafe/Pods/nanopb/pb_decode.c:436-448 | the packed loop ends when the substream or the room is used up |
| Decoder.DecodeSingle | WorkingCafe/Pods/nanopb/pb_decode.c:414-475 | required, optional and oneof storage as Repeats.SubmessagesMerge, LastWins and UnionStep describe it; an old selector that names no entry is an error |
| Decoder.DecodeSubmessage | WorkingCafe/Pods/nanopb/pb_decode.c:1503-1525 | however little of its substream the nested decoder reads, the parent goes on behind all of it; entries of repeated fields are reset first, others are merged into |
| Decoder.DecodeValue | WorkingCafe/Pods/nanopb/pb_decode.c:1318-1548 | the decoders of all field types but extensions |
| Decoder.DecodeInteger | WorkingCafe/Pods/nanopb/pb_decode.c:1329-1412 | varint fields: accepted exactly when the varint is a number of the field's width, stored as that number, and refused otherwise |
| Decoder.DecodeBlob | WorkingCafe/Pods/nanopb/pb_decode.c:1431-1501 | bytes and strings against their capacity |
| Decoder.DecodeWord | WorkingCafe/Pods/nanopb/pb_decode.c:1318-1327 | bool and fixed words |
| Decoder.DecodeVarint32 | WorkingCafe/Pods/nanopb/pb_decode.c:187-247 | the 32-bit loop with its 8-bit position counter computes the specified result; end of stream is reported only before the first byte |
| Decoder.DecodeVarint | WorkingCafe/Pods/nanopb/pb_decode.c:255-275 | the 64-bit loop computes the specified result |
| Decoder.DecodeTag | WorkingCafe/Pods/nanopb/pb_decode.c:298-319 | tag and wire type, end of stream, zero word or error |
| Decoder.SkipField | WorkingCafe/Pods/nanopb/pb_decode.c:321-331 | skips exactly one field of the wire type, or fails |
| Decoder.SkipAVarint | WorkingCafe/Pods/nanopb/pb_decode.c:278-287 | skips any number of continuation bytes |
| Decoder.SkipString | WorkingCafe/Pods/nanopb/pb_decode.c:289-296 | skips a length and as many bytes |
| Decoder.MakeSubstream | WorkingCafe/Pods/nanopb/pb_decode.c:372-385 | substream end plus the bytes left to the parent is the original end |
| Decoder.CloseSubstream | WorkingCafe/Pods/nanopb/pb_decode.c:387-400 | the parent stands behind the whole substream, whatever was read of it |
| Decoder.IStream.ReadByte | WorkingCafe/Pods/nanopb/pb_decode.c:141-157 | the next byte, or failure without moving |
| Decoder.IStream.Read | WorkingCafe/Pods/nanopb/pb_decode.c:102-137 | exactly the bytes asked for, or failure |
| Decoder.SetToDefaults | WorkingCafe/Pods/nanopb/pb_decode.c:908-919 | the loop over the iterator gives every slot its default; union members share one |
| Decoder.SetSlotToDefault | WorkingCafe/Pods/nanopb/pb_decode.c:836-906 | whatever the slot was, it is then in the initial state that the round trip starts from: flag, count and selector cleared, data the default, and entries of a fixed-count array that were in place left alone |
| Decoder.SetValueToDefault | WorkingCafe/Pods/nanopb/pb_decode.c:871-888 | custom default, nested defaults or zeros |
| Decoder.DecodeDelimited | WorkingCafe/Pods/nanopb/pb_decode.c:1104-1117 | the delimited decoder, over any memory, accepts and stores what the specification says and leaves the parent behind the whole message |
| Decoder.DecodeNullTerminated | WorkingCafe/Pods/nanopb/pb_decode.c:1119-1123 | the null-terminated decoder, over any memory, stops behind the zero |
| Wire.VarintForm | WorkingCafe/Pods/nanopb/pb_encode.c:599-619 | the encoding is the shortest row of base-128 digits of the value, with the continuation bit on all but the last (Base 128 Varints of the Protocol Buffers encoding) |
| Integers.ZigZagValues | WorkingCafe/Pods/nanopb/pb_encode.c:621-630 | the complement-and-shift mapping sends n to 2n and negative n to -2n-1 (Signed Integers of the Protocol Buffers encoding) |
| Wire.VarintAtMostTen | WorkingCafe/Pods/nanopb/pb_encode.c:599-619 | every 64-bit value takes between one and ten bytes |
| Wire.Dec64RoundTrip | WorkingCafe/Pods/nanopb/pb_decode.c:255-275 | every 64-bit value decodes back, consuming exactly its encoding, whatever follows |
| Wire.Dec32Canonical | WorkingCafe/Pods/nanopb/pb_decode.c:187-247 | exactly which encodings of 64-bit values the 32-bit decoder accepts, and with which result |
| Wire.Dec32RoundTrip | WorkingCafe/Pods/nanopb/pb_decode.c:187-247 | every value below 2^32 decodes back |
| Wire.Dec32SignExtended | WorkingCafe/Pods/nanopb/pb_decode.c:221-229 | every sign-extended negative 32-bit integer is accepted, as its low half |
| Wire.VarintDecodersAgree | WorkingCafe/Pods/nanopb/pb_decode.c:187-275 | where both varint decoders accept the same bytes they consume equally, and the 32-bit result is the 64-bit one modulo 2^32 |
| Varints.Dec64Reads | WorkingCafe/Pods/nanopb/pb_decode.c:255-275 | any varint, canonical or not, is accepted exactly up to ten bytes, modulo 2^64 |
| Varints.Dec32Reads | WorkingCafe/Pods/nanopb/pb_decode.c:187-247 | any varint of up to 37 bytes: accepted exactly when everything beyond its low 32 bits is zero padding, a sign extension, or the lost bits 32 to 34 of a fifth byte that is not the last |
| Varints.Unterminated | WorkingCafe/Pods/nanopb/pb_decode.c:187-275 | bytes that all announce another one are refused by both decoders |
| Varints.PositionWraps | WorkingCafe/Pods/nanopb/pb_decode.c:203-235 | a 38-byte varint is misread, because the 8-bit bit position wraps |
| Wire.Dec32Stable | WorkingCafe/Pods/nanopb/pb_decode.c:187-247 | bytes after a varint do not change how it is read |
| Wire.Dec64Stable | WorkingCafe/Pods/nanopb/pb_decode.c:255-275 | bytes after a varint do not change how it is read |
| Wire.BitOrDisjoint | WorkingCafe/Pods/nanopb/pb_decode.c:233 | the bitwise or of digits at different positions adds them |
| Integers.IntegerRoundTrip | WorkingCafe/Pods/nanopb/pb_decode.c:1329-1412 | integers of widths 1, 2, 4 and 8 survive as signed, unsigned and zigzag, although the encoder sign-extends to 64 bits and the decoder narrows through 32 |
| Integers.IntegerInRange | WorkingCafe/Pods/nanopb/pb_decode.c:1329-1412 | whatever the varint, an accepted integer has the range of its field |
| Integers.AcceptedIntegers | WorkingCafe/Pods/nanopb/pb_decode.c:1329-1412 | exactly which 64-bit varints an integer field accepts and as which number: the value itself, or the congruent number modulo 2^64 or 2^32 so that a negative number in five bytes is read, or the zigzag preimage, and each only if the width holds it |
| Acceptance.IntegerAccepted | WorkingCafe/Pods/nanopb/pb_decode.c:1329-1412 | the same from the bytes: any varint of up to ten bytes, canonical or not, and no longer one |
| Acceptance.BoolAccepted | WorkingCafe/Pods/nanopb/pb_decode.c:1318-1327 | a bool takes any number below 2^32 and is set unless all its digits are zero |
| Acceptance.BytesAccepted | WorkingCafe/Pods/nanopb/pb_decode.c:1431-1466 | any bytes are accepted as they are, exactly when length word and data fit the storage |
| Acceptance.StringAccepted | WorkingCafe/Pods/nanopb/pb_decode.c:1468-1501 | a string is accepted with whatever zero bytes it has, exactly when a byte is left for the terminator |
| Acceptance.FixedLengthAccepted | WorkingCafe/Pods/nanopb/pb_decode.c:1527-1548 | exactly the right length is accepted, or no bytes, which stand for zeros |
| Acceptance.ShortIsRefused | WorkingCafe/Pods/nanopb/pb_decode.c:102-137 | a length-delimited value that is not there to its last byte is refused |
| Acceptance.SubmessageEnds | WorkingCafe/Pods/nanopb/pb_decode.c:1503-1525 | what is behind a zero byte in a submessage is passed over with it, and changes nothing |
| Acceptance.DelimitedEnds | WorkingCafe/Pods/nanopb/pb_decode.c:1104-1117 | the same for a delimited message: the stream goes on behind the announced length |
| Acceptance.TagAccepted | WorkingCafe/Pods/nanopb/pb_decode.c:298-319 | of all tag words only zero ends a message; a zero tag with another wire type does not |
| Acceptance.BrokenTagRefused | WorkingCafe/Pods/nanopb/pb_decode.c:298-319 | a message that stops in the middle of a tag is refused |
| Acceptance.UnknownFieldExactly | WorkingCafe/Pods/nanopb/pb_decode.c:957-986 | a field whose tag no entry has is passed over whole, and what is not one whole field of its wire type, groups among them, is refused |
| Acceptance.SkipExactly | WorkingCafe/Pods/nanopb/pb_decode.c:321-331 | for any wire type and bytes: succeeds exactly when they begin with a varint, eight bytes, a length and as many bytes, or four bytes |
| Acceptance.EmptyTableReadsBool | WorkingCafe/Pods/nanopb/pb_common.c:78-95 | on an empty table a zero tag of another wire type is read as a bool |
| Integers.ZigZagRoundTrip | WorkingCafe/Pods/nanopb/pb_decode.c:1269-1281 | zigzag is undone for every 64-bit integer |
| Integers.FixedRoundTrip | WorkingCafe/Pods/nanopb/pb_decode.c:1283-1315 | fixed words survive as bit patterns |
| Merge.ConcatIsMerge | WorkingCafe/Pods/nanopb/pb_decode.c:925-1073 | over any table: decoding A followed by B is decoding B over the result of A (same structure, same failure, same rest, required fields of A need not come again), unless B comes first to the very fixed-count array that A came to last; then the two never both succeed |
| Merge.ConcatOfComplete | WorkingCafe/Pods/nanopb/pb_decode.c:925-1073 | when B decodes over the result of A, the concatenation gives the same if and only if B does not come first to the fixed-count array that A came to last |
| Merge.ResumedNeverBoth | WorkingCafe/Pods/nanopb/pb_decode.c:988-1010 | going on with the count of the array under way and starting it afresh are never both accepted |
| Merge.SameUnlessResumed | WorkingCafe/Pods/nanopb/pb_decode.c:988-1010 | in every other case going on and starting afresh come to the same structure, failure and rest |
| FixedCount.EncodedMessagesMerge | WorkingCafe/Pods/nanopb/pb_decode.c:988-1010 | two encoded messages, each decodable where it stands, decode from their concatenation to the merge if and only if the number of non-empty fixed-count arrays in the table is not one |
| FixedCount.MessagePassed | WorkingCafe/Pods/nanopb/pb_encode.c:519-541 | the field loop goes through an encoded message, over any structure, from its first non-empty fixed-count array to its last |
| FixedCount.ValueConsumed | WorkingCafe/Pods/nanopb/pb_decode.c:406-480 | over any storage, decoding an encoded value fails or consumes exactly its encoding |
| Merge.LoopConcat | WorkingCafe/Pods/nanopb/pb_decode.c:943-1021 | the field loop goes on with appended bytes after the end of a message, and leaves them after a zero tag |
| Merge.UnknownFieldsInserted | WorkingCafe/Pods/nanopb/pb_decode.c:957-986 | well-formed fields with unknown tags, inserted between fields, change nothing, not even the running count of a half-received fixed-count array |
| Merge.UnknownFieldsIgnored | WorkingCafe/Pods/nanopb/pb_decode.c:957-986 | such fields leave the whole progress of the loop as it was |
| Repeats.SubmessagesMerge | WorkingCafe/Pods/nanopb/pb_decode.c:414-422 | a required or optional submessage that comes twice is decoded twice over one structure, the second time over what the first left, and the call fails exactly when one of the two does |
| Repeats.FirstIsKept | WorkingCafe/Pods/nanopb/pb_decode.c:1503-1525 | of the merged structure, an entry none of whose tags comes in the second occurrence is exactly what the first made it |
| Repeats.MergeIsConcat | WorkingCafe/Pods/nanopb/pb_decode.c:1503-1525 | so two occurrences are one occurrence of the two encodings in a row (Protocol Buffers encoding, Last One Wins), unless the second resumes the fixed-count array the first ended with |
| Repeats.LastWins | WorkingCafe/Pods/nanopb/pb_decode.c:414-422 | of a singular field that is no message and comes twice, with any wire types, the last value counts as if the first had not come |
| Repeats.UnionStep | WorkingCafe/Pods/nanopb/pb_decode.c:466-475 | a member of a union is decoded from scratch, whatever the union held, and becomes the selected one; refused exactly when its value is or the old selector names nothing |
| Repeats.LastMemberWins | WorkingCafe/Pods/nanopb/pb_decode.c:466-475 | of two members of one union, or one that comes twice, the last counts as if the first had not come |
| Merge.DecStepStable | WorkingCafe/Pods/nanopb/pb_decode.c:406-480 | decoding one field does not depend on what follows it |
| Versions.OlderReaderGetsItsFields | WorkingCafe/Pods/nanopb/pb_decode.c:957-986 | a reader whose table is any part of the writer's, in order and with its unions whole, gets exactly the fields it knows, wherever the others stand and of whatever kind they are, and consumes all of it |
| Versions.EntryElsewhere | WorkingCafe/Pods/nanopb/pb_encode.c:332-417 | where in its table an entry stands matters neither to what it writes nor to whether it round-trips |
| Versions.ForeignMessageIgnored | WorkingCafe/Pods/nanopb/pb_decode.c:957-986 | a message none of whose tags the reader knows changes nothing of what it has received |
| Versions.FieldUnknown | WorkingCafe/Pods/nanopb/pb_encode.c:332-417 | whatever one entry writes is whole fields with its tag, each skipped by its wire type |
| Versions.SkipValue | WorkingCafe/Pods/nanopb/pb_encode.c:666-698 | the wire type chosen for a field tells exactly how far to skip any value of it |
| Packed.PackedUnpackedAgree | WorkingCafe/Pods/nanopb/pb_decode.c:424-464 | a repeated scalar, counted or fixed-count, sent packed, one element per tag or in any mixture decodes to the concatenation in order behind what was received before, and fails exactly when there are more elements than room |
| Packed.ChunkInLoop | WorkingCafe/Pods/nanopb/pb_decode.c:424-464 | one run or single element in the field loop, for both kinds of array |
| Packed.PackedLoop | WorkingCafe/Pods/nanopb/pb_decode.c:436-448 | the packed loop reads the elements in order and leaves bytes behind exactly when they do not fit |
| Presence.ImplicitPresenceExact | WorkingCafe/Pods/nanopb/pb_encode.c:237-328 | the recursive default check holds exactly of the messages whose encoding is zero bytes |
| Presence.SubmessageOmitted | WorkingCafe/Pods/nanopb/pb_encode.c:346-350 | a proto3 singular submessage is omitted exactly when its own encoding is empty |
| Presence.ZeroIsOmitted | WorkingCafe/Pods/nanopb/pb_encode.c:237-328 | exactly what a field with implicit presence leaves out: the number zero, no bytes, a string that ends before its first character, a fixed-length field of no length, a message with nothing to write |
| Presence.DefaultCheckGap | WorkingCafe/Pods/nanopb/pb_encode.c:237-328 | without the rules on selectors and fixed-count arrays: exactly how the check and the encoder differ |
| Presence.FieldWritesNothing | WorkingCafe/Pods/nanopb/pb_encode.c:332-417 | exactly when one entry writes nothing |
| Presence.MessageWritesNothing | WorkingCafe/Pods/nanopb/pb_encode.c:519-541 | a message writes nothing exactly when each entry does |
| Storage.MessageDecodeFits | WorkingCafe/Pods/nanopb/pb_decode.c:925-1073 | whatever the bytes, a successful decode leaves every value within its field's type and capacity, and every count within its array, at every depth |
| Storage.ValueDecodeFits | WorkingCafe/Pods/nanopb/pb_decode.c:1318-1548 | the same for one value |
| Storage.FieldDecodeFits | WorkingCafe/Pods/nanopb/pb_decode.c:731-757 | the same for one entry, with the running count of a fixed-count array |
| Storage.DefaultsFit | WorkingCafe/Pods/nanopb/pb_decode.c:836-919 | defaults fit, over memory in use or not |
| Layout.MessageDecodeLaid | WorkingCafe/Pods/nanopb/pb_decode.c:925-1073 | decoding any bytes over a structure of the right storage kinds leaves one, so nested decoders and later calls always find what they need |
| Layout.DefaultsLaid | WorkingCafe/Pods/nanopb/pb_decode.c:908-919 | setting to defaults makes such a structure of any memory |
| RequiredMask.Mark | WorkingCafe/Pods/nanopb/pb_decode.c:1012-1017 | or-ing one bit into one word adds the field to the set the mask stands for |
| RequiredMask.AllMarked | WorkingCafe/Pods/nanopb/pb_decode.c:1048-1069 | the word-and-remainder check passes exactly when every field below the count is in the set |
| RequiredMask.WordSetBit | WorkingCafe/Pods/nanopb/pb_decode.c:1015-1016 | setting a bit of a word is adding an element |
| RequiredMask.WordIsOnes | WorkingCafe/Pods/nanopb/pb_decode.c:1053-1068 | a word is a run of ones exactly when its fields are all in the set and no others are |
| RequiredMask.PartWord | WorkingCafe/Pods/nanopb/pb_decode.c:1060-1068 | the shifted mask of the remainder stands for exactly the last fields |
| Iterator.FieldIter.Next | WorkingCafe/Pods/nanopb/pb_common.c:20-76 | one entry on, wrapping at the terminator; address, size address and required index stay those of the entry |
| Iterator.FieldIter.Find | WorkingCafe/Pods/nanopb/pb_common.c:78-95 | from any position takes at most N steps, succeeds exactly when an entry has the tag, and on failure ends where it started |
| Iterator.FieldIter.Begin | WorkingCafe/Pods/nanopb/pb_common.c:8-18 | the first entry, and whether there is one |
| Iterator.OffsetsRecovered | WorkingCafe/Pods/nanopb/pb_common.c:41-74 | over a table as the generator lays it out, stepping by the previous entry's size recovers the offset of every member of the structure |
| Iterator.SlotsAreUnions | WorkingCafe/Pods/nanopb/pb_common.c:44-50 | in such a table any two entries share storage exactly when they are members of one union |
| Iterator.SameSlotSameOffset | WorkingCafe/Pods/nanopb/pb_common.c:44-50 | the members of a union stay at one address and share their selector |
| Iterator.SlotsAreAddresses | WorkingCafe/Pods/nanopb/pb_common.c:41-74 | where every entry takes up storage, two entries have one address exactly when they are of one union |
| Descriptor.SharedSlotIsUnion | WorkingCafe/Pods/nanopb/pb_common.c:44-50 | entries that share storage are members of one union |
| Descriptor.Lookup | WorkingCafe/Pods/nanopb/pb_common.c:78-95 | the first entry with the tag, or none |
| Limits.StringNeedsTerminator | WorkingCafe/Pods/nanopb/pb_decode.c:1468-1501 | a string is read back exactly when its buffer has a byte left for the terminator, although the encoder writes it either way |
| Limits.OmittedZeroComesBack | WorkingCafe/Pods/nanopb/pb_encode.c:346-350 | an omitted zero is what the decoder leaves exactly when the field has no other default |
| Limits.LongLengthsRefused | WorkingCafe/Pods/nanopb/pb_encode.c:700-706 | any length is written; those below 2^32 are read back and the others refused |
| Limits.FixedCountNotMerged | WorkingCafe/Pods/nanopb/pb_decode.c:988-1010 | the shortest such case: two messages that each decode, the second over the result of the first, while their concatenation does not |
| Refresh.RefreshConservation | WorkingCafe/Pods/Alamofire/Source/AuthenticationInterceptor.swift:251-401 | in every reachable state each adapt or retry completion is in exactly one place, a non-empty queue implies a refresh in flight, and at most one authenticator call is unanswered |
| Refresh.QuiescentMeansAnswered | WorkingCafe/Pods/Alamofire/Source/AuthenticationInterceptor.swift:369-401 | when nothing is in progress any more, every completion has been called exactly once |
| Refresh.RefreshRateBound | WorkingCafe/Pods/Alamofire/Source/AuthenticationInterceptor.swift:331-367 | over whole runs every closed interval no longer than the window contains at most maximumAttempts started refreshes, although check and timestamp read the clock separately |
| Refresh.RefreshStartsExactly | WorkingCafe/Pods/Alamofire/Source/AuthenticationInterceptor.swift:251-367 | in every reachable state a step starts a refresh if and only if it brings a caller who needs one while none is in flight and fewer than maximumAttempts were started in the interval that ends at its check, or there is no window |
| Refresh.StartsExactly | WorkingCafe/Pods/Alamofire/Source/AuthenticationInterceptor.swift:354-367 | one attempt is refused exactly when the interval that ends now already holds maximumAttempts started refreshes |
| Refresh.AnswersFitTheirCalls | WorkingCafe/Pods/Alamofire/Source/AuthenticationInterceptor.swift:251-329 | no adapt call is let through with a credential that asked for a refresh; a retry call hears the verdict of the first guard that stops it, and one that passes them all is told to go again or why it cannot |
| Refresh.RefreshReachesEveryCaller | WorkingCafe/Pods/Alamofire/Source/AuthenticationInterceptor.swift:369-401 | a usable new credential reaches every waiting adapt in order and every waiting retry is told to go again; a failure reaches them all |
| Refresh.StepKeeps | WorkingCafe/Pods/Alamofire/Source/AuthenticationInterceptor.swift:251-401 | a step moves completions between places; only a new call adds one |
| Refresh.StepOneRefresh | WorkingCafe/Pods/Alamofire/Source/AuthenticationInterceptor.swift:331-352 | a refresh is in flight exactly while one authenticator call is unanswered, and callers queue only then |
| Refresh.StartBounded | WorkingCafe/Pods/Alamofire/Source/AuthenticationInterceptor.swift:331-367 | one refresh attempt keeps the rate bound, whatever time passes between its two clock readings |
| Refresh.StartedAreRecent | WorkingCafe/Pods/Alamofire/Source/AuthenticationInterceptor.swift:354-367 | what started in an interval is among the timestamps the check counts |
| Refresh.AuthenticationInterceptor.Adapt | WorkingCafe/Pods/Alamofire/Source/AuthenticationInterceptor.swift:251-275 | keeps the flag, the outstanding call and the queues in step; the caller is deferred exactly when a refresh is in flight or its credential asks for one, and then its completion, and no other, is in the interceptor once more; otherwise nothing changes, it is turned away exactly for want of a credential, and a credential handed out is the current one and needs no refresh |
| Refresh.AuthenticationInterceptor.Retry | WorkingCafe/Pods/Alamofire/Source/AuthenticationInterceptor.swift:320-326 | the caller's completion, and no other, is in the interceptor once more, and afterwards waits for a refresh in flight or was captured, behind all who waited, by the job that refuses an excessive one |
| Refresh.AuthenticationInterceptor.Refresh | WorkingCafe/Pods/Alamofire/Source/AuthenticationInterceptor.swift:331-352 | when no refresh is dated after the check, an authenticator call goes out exactly when there is no window or fewer than maximumAttempts started in the interval before it; it is then recorded and keeps the rate bound for any two clock readings; otherwise everyone queued is refused; no completion is lost or doubled |
| Refresh.AuthenticationInterceptor.RefreshDidComplete | WorkingCafe/Pods/Alamofire/Source/AuthenticationInterceptor.swift:341-352 | the authenticator's answer ends the refresh: nobody is queued any more, no completion is lost, and the credential is the new one, or the old one after a failure |
| Refresh.AuthenticationInterceptor.IsRefreshExcessive | WorkingCafe/Pods/Alamofire/Source/AuthenticationInterceptor.swift:354-367 | the loop finds, when no timestamp is later than now, whether the interval that ends now already holds maximumAttempts started refreshes; without a window nothing is excessive |
| Refresh.AuthenticationInterceptor.HandleRefreshSuccess | WorkingCafe/Pods/Alamofire/Source/AuthenticationInterceptor.swift:369-385 | all who waited are captured in order by one job that lets them go on, and no completion is lost or doubled |
| Refresh.AuthenticationInterceptor.HandleRefreshFailure | WorkingCafe/Pods/Alamofire/Source/AuthenticationInterceptor.swift:387-401 | all who waited are captured in order by one job that hands them the error, and no completion is lost or doubled |
| StreamCompletion.CompletionsAreConserved | WorkingCafe/Pods/Alamofire/Source/Request.swift:1149-1159 | in every reachable state the counter is the number of unfinished parser executions, completions wait only while it is positive, and each registered completion is waiting or released, once |
| StreamCompletion.StepReleases | WorkingCafe/Pods/Alamofire/Source/Request.swift:1286-1305 | a completion goes from waiting to released only in a step that leaves nothing unfinished, and is never let go twice |
| StreamCompletion.StepCounted | WorkingCafe/Pods/Alamofire/Source/ResponseSerialization.swift:1048-1058 | every step keeps the counter right |
| StreamCompletion.NothingIsLost | WorkingCafe/Pods/Alamofire/Source/ResponseSerialization.swift:1048-1058 | once nothing is pending every registered completion has been called exactly once |
| StreamCompletion.CompletionComesLast | WorkingCafe/Pods/Alamofire/Source/Request.swift:1286-1320 | in a run in which no data arrives for a stream behind a completion that has been let go, no parser execution is left when a completion is called |
| StreamCompletion.LastExactlyWhen | WorkingCafe/Pods/Alamofire/Source/Request.swift:1213-1225 | completions are the last word throughout a run if and only if no data arrives for a stream while a completion has been let go and not yet called |
| StreamCompletion.StepLast | WorkingCafe/Pods/Alamofire/Source/Request.swift:1213-1225 | of all steps exactly such an arrival breaks it, a condition on the state that didReceive finds |
| StreamCompletion.OvertakenIsCalled | WorkingCafe/Pods/Alamofire/Source/Request.swift:1307-1320 | once it is broken, a completion can be called at once with an execution left to finish |
| StreamCompletion.DataFirstSuffices | WorkingCafe/Pods/Alamofire/Source/Request.swift:1286-1305 | it is enough that all data arrives before the first completion registers |
| StreamCompletion.DataAfterTheCall | WorkingCafe/Pods/Alamofire/Source/Request.swift:1307-1320 | but not needed: data may arrive again once the completion has been called |
| StreamCompletion.DataStreamRequest.DidReceive | WorkingCafe/Pods/Alamofire/Source/Request.swift:1213-1225 | the streams registered by then, and no others, are scheduled and counted, so everything scheduled stays counted |
| StreamCompletion.DataStreamRequest.AppendStreamCompletion | WorkingCafe/Pods/Alamofire/Source/Request.swift:1286-1305 | the completion, and no other, is in the request's hands once more: let go at once exactly when nothing executes, and otherwise the last to wait |
| StreamCompletion.DataStreamRequest.UpdateAndCompleteIfPossible | WorkingCafe/Pods/Alamofire/Source/ResponseSerialization.swift:1048-1058 | no completion is lost or doubled; after the last execution nobody waits any more and all who did are let go together in order, before it nobody is |
| TaskMap.EveryCompletionRunsOnce | WorkingCafe/Pods/Alamofire/Source/Session.swift:1201-1222 | for any interleaving of tasks made and of one metrics and one completion event for each, no consistency error is reached, the maps stay mutually inverse, and each completion runs exactly once, after both events |
| TaskMap.EverythingIsReleased | WorkingCafe/Pods/Alamofire/Source/Session.swift:1201-1222 | when every task has reported both ways, nothing is left in any dictionary |
| TaskMap.AssociationExact | WorkingCafe/Pods/Alamofire/Source/RequestTaskMap.swift:62-64 | an association keeps the two maps inverse exactly when neither side was in use or the pair was there already |
| TaskMap.SubscriptsAgree | WorkingCafe/Pods/Alamofire/Source/RequestTaskMap.swift:47-87 | both subscripts write the same maps, and clearing undoes associating |
| TaskMap.SameCount | WorkingCafe/Pods/Alamofire/Source/RequestTaskMap.swift:89-112 | the counting preconditions of the properties hold |
| TaskMap.TwoTasksForOneRequest | WorkingCafe/Pods/Alamofire/Source/Session.swift:1067-1078 | a second task for a request that has a live one leaves the maps out of step |
| TaskMap.StepMapped | WorkingCafe/Pods/Alamofire/Source/RequestTaskMap.swift:115-141 | every step reaches no consistency error; a task is mapped until both its events came, and its flags say which did |
| TaskMap.StepWaiting | WorkingCafe/Pods/Alamofire/Source/Session.swift:1201-1222 | a completion waits exactly while its task is completed and still mapped |
| TaskMap.StepRan | WorkingCafe/Pods/Alamofire/Source/Session.swift:1201-1222 | a completion has run once if both events came and not at all before |
| TaskMap.GatherEffect | WorkingCafe/Pods/Alamofire/Source/Session.swift:1201-1210 | metrics that come second run the completion that waited |
| TaskMap.FinishEffect | WorkingCafe/Pods/Alamofire/Source/Session.swift:1212-1222 | a completion that comes second runs at once, one that comes first waits |
| TaskMap.RequestTaskMap.SetByRequest | WorkingCafe/Pods/Alamofire/Source/RequestTaskMap.swift:47-66 | setting a task pairs the two and keeps the maps inverse exactly when they were free for each other; setting none parts them and keeps the maps inverse, and is an error exactly when there is no task; no other entry changes |
| TaskMap.RequestTaskMap.SetByTask | WorkingCafe/Pods/Alamofire/Source/RequestTaskMap.swift:68-87 | the same by task |
| TaskMap.RequestTaskMap.DisassociateIfNecessaryAfterGatheringMetricsForTask | WorkingCafe/Pods/Alamofire/Source/RequestTaskMap.swift:115-125 | keeps the maps inverse; an error exactly for a task that is not mapped or had its metrics; otherwise a completed task is parted from its request, and for any other the metrics are noted and nothing else changes |
| TaskMap.RequestTaskMap.DisassociateIfNecessaryAfterCompletingTask | WorkingCafe/Pods/Alamofire/Source/RequestTaskMap.swift:127-141 | the same for the completion |
| TaskMap.Session.DidCreateTask | WorkingCafe/Pods/Alamofire/Source/Session.swift:1067-1091 | pairs the request and its task, and keeps the session in order exactly when they were free for each other and no completion waits for the task |
| TaskMap.Session.DidGatherMetricsForTask | WorkingCafe/Pods/Alamofire/Source/Session.swift:1201-1210 | accepted exactly for a mapped task without metrics; the completion that waited for it runs once and waits no more, others neither run nor stop waiting, and the maps stay inverse |
| TaskMap.Session.DidCompleteTask | WorkingCafe/Pods/Alamofire/Source/Session.swift:1212-1222 | accepted exactly for a mapped task that is not completed; the completion runs at once if the metrics came and waits otherwise, nothing else runs, and the maps stay inverse |
| Multipart.MultipartFormData.WriteEncodedData | WorkingCafe/Pods/Alamofire/Source/MultipartFormData.swift:345-369 | however reads are chunked and writes split, the file gets the bytes encode would have returned, all of them exactly when they fit; all error exits |
| Multipart.MultipartFormData.Encode | WorkingCafe/Pods/Alamofire/Source/MultipartFormData.swift:320-336 | returns the encoding of all parts in order with the ends marked, which is a form of section 5.1.1 of RFC 2046 if and only if no earlier call marked a part before the last; drains the streams, and throws the kept error or a read failure |
| Multipart.EncodesTheForm | WorkingCafe/Pods/Alamofire/Source/MultipartFormData.swift:64-77 | on any call: nothing for no parts, and otherwise one opening delimiter, a delimiter between neighbours and one closing delimiter, as in section 5.1.1 of RFC 2046, if and only if no part before the last carries the closing mark of an earlier call |
| FormReader.EncodingReadsBack | WorkingCafe/Pods/Alamofire/Source/MultipartFormData.swift:320-336 | what any call returns can be taken apart into exactly its parts, if and only if no earlier call closed the form before its last part and no part contains the delimiter |
| FormReader.PartsReadBack | WorkingCafe/Pods/Alamofire/Source/MultipartFormData.swift:373-398 | what any call returns is read back with all its headers and bodies, if and only if besides that no header has in its name or value what would end it |
| FormReader.FormReadsBack | WorkingCafe/Pods/Alamofire/Source/MultipartFormData.swift:64-77 | the same for any form with a boundary free of carriage returns |
| FormReader.OnlyFormsRead | WorkingCafe/Pods/Alamofire/Source/MultipartFormData.swift:64-77 | what can be taken apart into some parts is the form of those parts |
| Multipart.LaterCallCloses | WorkingCafe/Pods/Alamofire/Source/MultipartFormData.swift:327-328 | marks stay set: a call after more appends, of any numbers of parts, gives the whole form of the earlier parts, without their bodies, and the later ones behind its closing delimiter |
| Multipart.OfferedMore | WorkingCafe/Pods/Alamofire/Source/MultipartFormData.swift:485-501 | writing one piece after another is writing both at once, also when space runs out |
| Multipart.WriteBuffer | WorkingCafe/Pods/Alamofire/Source/MultipartFormData.swift:485-501 | the partial-write loop writes everything that fits, in order |
| Multipart.WriteBodyStream | WorkingCafe/Pods/Alamofire/Source/MultipartFormData.swift:444-468 | the read loop writes the whole body, in order |
| Multipart.WriteBodyPart | WorkingCafe/Pods/Alamofire/Source/MultipartFormData.swift:427-474 | boundary, headers, body and closing boundary of one part |
| Multipart.EncodeBodyPart | WorkingCafe/Pods/Alamofire/Source/MultipartFormData.swift:373-390 | the same in memory |
| Multipart.EncodeBodyStream | WorkingCafe/Pods/Alamofire/Source/MultipartFormData.swift:400-423 | the read loop collects the whole body |
| Multipart.EncodeHeaders | WorkingCafe/Pods/Alamofire/Source/MultipartFormData.swift:392-398 | all header lines in order, then an empty line |
| Multipart.PartEncapsulated | WorkingCafe/Pods/Alamofire/Source/MultipartFormData.swift:373-390 | what one part contributes, an initial one a line end less |
| Multipart.MultipartFormData.MarkEnds | WorkingCafe/Pods/Alamofire/Source/MultipartFormData.swift:327-328 | marks the first and the last part, which may be one |
| Multipart.MultipartFormData.Append | WorkingCafe/Pods/Alamofire/Source/MultipartFormData.swift:305-308 | adds an unmarked part at the end |

## Left out

- User callbacks, custom stream callbacks, extensions, pointer fields with `malloc` and `pb_release`, and the
  `PB_WITHOUT_64BIT` variants: they run foreign code or need a heap model.
- Raw memory: a structure is a sequence of slots. Alignment, union punning and the bytes of a union member that is
  not selected are not modelled; storage never written counts as zeroed, and fixed32 and fixed64 are bit patterns.
- The destination of a failed decode: the methods assign a slot when its field has been decoded, so what a failing
  call leaves half written in the structure is not described, only that it fails and where the stream may stand.
- `pb_message_set_to_defaults` on a fixed-count array writes a zero count over its first bytes; the model leaves
  the old entries, or zeroed ones where there were none, and decoding overwrites them when the array comes.
- Error messages.
- Iterator.FieldIter.Find: extension entries are not modelled, so it finds an entry exactly when one has the tag.
- Encoder.Encode: a structure whose encoding would reach 2^64 bytes is excluded, because `size_t` cannot count it.
- Codec.EncodeThenDecode: excludes messages whose encoding would reach 2^64 bytes, for the same reason.
- RoundTrip.MessageRoundTrip: strings with room for their terminator, no custom default on an omitted zero, nested
  lengths below 2^32; Exactness.RoundTripExactly proves that a message beyond these conditions does not come back.
- Exactness.RoundTripExactly: tables with the sizes the generator emits, and structures no object of which has an
  encoding of 2^63 bytes or more; no memory holds a larger one.
- Versions.OlderReaderGetsItsFields: the older table keeps each union whole or not at all; a selector whose member
  the reader does not know is not related to the union it has. The message is shorter than 2^32 bytes.
- FixedCount.EncodedMessagesMerge: messages shorter than 2^63 bytes; no memory holds a longer one.
- Varints.Dec32Reads: varints of up to 37 bytes; beyond that the bit position wraps, and only Varints.PositionWraps
  and the prefix lemmas of `Wire` say anything.
- Repeats.LastWins: the first value is one well-formed element; one that is refused fails the call.
- Refresh.AuthenticationInterceptor.Retry: the guards before the lock are steps of the system, not of the method; that
  no refresh is redundant is not claimed, since the credential is read before the lock is taken.
- StreamCompletion.CompletionsAreConserved: each run of the registering block is a registration; that a response
  serializer appended after the request finished runs once is not claimed. The bound output stream is not modelled.
- TaskMap.Session.DidCreateTask: request states, cancellation and task resumption are not modelled. The watchOS
  branch, which gathers no metrics, is not modelled.
- Multipart.MultipartFormData.Append: each part has an input stream of its own; appending one stream twice is not
  modelled, nor are the variants that open a file and derive a MIME type.
- Multipart.MultipartFormData.WriteEncodedData: output space is a capacity that is used up or unlimited; a stream that
  is full for a while and then has space again is not modelled.
- URL loading, dispatch queues other than as pending jobs, trust evaluation, JSON decoding, and the app's screens
  and services: they are wrappers over code that is not part of this model.
