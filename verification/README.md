# Verification of the nanopb wire codec

The database in this repository talks to its clients in Protocol Buffers, through the nanopb
library vendored in `pblib/nanopb`. nanopb is driven by tables: a descriptor lists the fields of
a C structure, a decoder fills the structure from bytes, an encoder turns it into bytes again.
This project models that codec, the descriptor tables, the heap storage of pointer fields and
the parts of the code generator that fix sizes and declaration order, and proves what they are
for.

The wire format is given twice. Once as pure functions of bytes: `Encoding.Encode` says what is
written for a structure, `Decoding.Decode` what a byte string is decoded to. And once as the
program does it, with stream objects over a buffer, a cursor over packed descriptor words, bit
fields, counters and loops. Every method is proved to compute the function, so the laws proved
of the functions hold of the methods:

* a round trip gives the message back, for every table and every conforming message;
* whatever the decoder accepts is well formed; it can be encoded again exactly if no required
  pointer that would be written is NULL, for which the exact condition on the tables is given, and
  is a fixed point from then on;
* decoding two encodings one after the other merges them, and fails exactly on array overflow; the
  merge is the standard one exactly if nothing behind a pointer is lost;
* unknown fields are invisible wherever they are inserted;
* the sizing pass and the writing pass agree at every depth, and nothing outside the room of a
  stream is written;
* every allocated block stays reachable from the message and is as large as what is stored in it, a
  failed decode frees all of them, and release frees each exactly once;
* the field cursor agrees with plain lookup in the field list, from any position;
* default initialisation consumes its stream of defaults and leaves exactly the initial structure;
* the required-field check passes exactly if every tracked required field occurred;
* the two varint readers and the split varint writer agree with the shortest base-128 form;
* every value has the bytes the Protocol Buffers encoding gives it, stated with its tags, wire types
  and words in figures, and is read from every form of it, whoever wrote that; the messages of this
  database have exactly the bytes that `message.proto` asks for;
* a has-flag is set, or a pointer not NULL, exactly if the field occurred; the last value counts,
  pieces of a submessage are merged, packed and unpacked numbers are decoded alike;
* the UTF-8 check accepts exactly the grammar of section 4 of RFC 3629;
* double to float is rounding to nearest, ties away from zero, and float to double to float is
  the identity;
* the largest encoding of every message is given exactly, the generator's maximum size is a bound
  exactly if it is not smaller, and its ordering of structures is topological whenever one exists.

`Wire`, `Varint`, `Descriptor`, `Encoding` and `Decoding` hold the definitions. `InputStream`,
`LeafDecoder`, `FieldIterator`, `Packing`, `RequiredFields`, `RequiredTracking`, `Defaults` and
`Decoder` follow `pb_decode.c`, `pb_common.c` and `pb.h`; `OutputStream` and `Encoder` follow
`pb_encode.c`; `Heap` and `HeapDecoder` are the decoder once more, over the same cursor, bit field
and default pass, with the blocks it allocates and an allocator that may refuse any request.
`WireFormat` and `WrittenForms` tie these functions to the wire format in figures. `Merging`,
`RoundTrip`, `StandardMerge`, `RequiredPointers`, `LongMessages`, `DecodedMessages`, `UnknownFields`
and `Occurrences` hold the laws. `LargestEncoding`, `SizeBound`, `SortDependencies`, `QueryMessage`
and `QueryBytes` cover the generator and the messages of this database.

Conventions. The build is the one `pblib/message.pb.c` demands: `PB_FIELD_32BIT`, 64-bit
integers, `size_t` of 64 bits, errors without their texts; sizes that are counted do not exceed
`size_t`. A string member is the bytes before its NUL, an array its first `count` entries, a
pointer array NULL exactly if it is empty; has-flags and counts are part of the member they belong
to. An input stream is a memory buffer and a frame inside it. A block of memory is an identity and
a size. `TableOk` is what the generator guarantees of its tables: tags sorted and unique between 1
and 2^29 - 1, data sizes matching the types, the width assertions of `pb.h`, size offsets below
128, no empty pointees, and static submessages declared before the structures that contain them.
`Conforms` says that a structure fits its table: with its last argument true, as the decoder leaves
it, members that are not present at their initial values; with false, as the encoder may be given
it, where only what is written counts.

## Findings

* `pb_decode_varint32` accepts the five-byte forms from 0x780000000 on as if they were negative
  numbers, and refuses the other shortest forms from 2^32 to 2^63 (`Varint.LongLength`); it still
  never accepts what the 64-bit reader rejects, and agrees with it modulo 2^32
  (`Varint.Read32Refines64`). A message whose first long length is in a refused range is encoded,
  but cannot be decoded again (`LongMessages.LongIsRefused`); `LongMessages.HugeIsRefused` has one.
* The width assertions allow size offsets up to 255, but descriptors of four and eight words
  store them as signed bytes: unpacking inverts packing exactly below 128 (`Packing.UnpackOfPack`).
* A double NaN whose payload lies in its low 29 bits becomes infinity as a float; a NaN stays a
  NaN exactly if one of the upper 23 fraction bits is set (`FloatConversion.NanSurvives`).
* The C type of a byte array is padded, and both coders accept what fits the padded type, so a
  message can be larger than the size the generator gives for it: `SizeBound.PaddingExceedsBudget`
  has one of 10 bytes whose size is 7. The size is a bound exactly if it is not below the largest
  encoding, which is computed from the descriptor (`SizeBound.SizeBoundsIff`); for a byte array
  exactly if its maximum is a multiple of four, but for two kinds of arrays that have slack
  (`SizeBound.BytesBoundIff`).
* A pointer submessage that occurs twice is replaced, not merged: `StandardMerge.FirstIsReplaced`
  has two messages whose concatenation loses a field. Concatenation is the standard merge exactly if
  an array overflows, which fails either way, or no pointer that both set had something behind it
  that the second message does not cover (`StandardMerge.ConcatenationIsStandard`).
* What was decoded cannot always be encoded again. A required pointer beyond the 64 tracked
  required fields may be NULL (`RequiredPointers.SixtyFifthIsLost`), and so may one inside a
  submessage without has-flag that never arrived, but is written because it has required fields
  (`RequiredPointers.SubmessageIsLost`: the empty input is enough). A decoded structure can be
  encoded exactly if no required pointer in a written part is NULL
  (`RequiredPointers.StoredIsEncodable`), and all that a table decodes can be encoded exactly if, in
  each descriptor that accepts anything, every field that may be missing can be written as it is
  initialised (`RequiredPointers.ReencodesIff`).

## Model

| member | source | states |
|---|---|---|
| Decoder.PbDecode | pblib/nanopb/pb_decode.c:1181-1193 | On any bytes it terminates, accepts exactly what `Decode` accepts, returns that structure, and on success the cursor is at the end of the frame. |
| Decoder.PbDecodeDelimited | pblib/nanopb/pb_decode.c:1153-1179 | With a length prefix: accepts exactly if the prefix and the frame it announces do, and leaves the stream right behind the frame. |
| Decoder.DecodeInner | pblib/nanopb/pb_decode.c:989-1151 | Computes `DecodeInto` from the destination or, unless told not to initialise, from the initial structure; the end of the frame is never passed. |
| Decoder.DecodeLoop | pblib/nanopb/pb_decode.c:1015-1111 | The loop over iterator, bit field and stream computes the decoding function of the frame and of the set of required ranks seen. |
| Decoder.DecodeOne | pblib/nanopb/pb_decode.c:1015-1111 | One round: what decoding the rest of the frame gives is unchanged, the frame end stays, and at least one byte is consumed. |
| Decoder.DecodeKnown | pblib/nanopb/pb_decode.c:1102-1110 | A field found: exactly its member is updated, its required rank marked, everything else kept. |
| Decoder.DecodeField | pblib/nanopb/pb_decode.c:797-823 | Static and pointer fields compute the reading function of their storage. |
| Decoder.DecodeStaticField | pblib/nanopb/pb_decode.c:466-525 | Required, optional, packed and unpacked static fields, accepted exactly if the reading function accepts, with the same result and the same rest. |
| Decoder.DecodePointerField | pblib/nanopb/pb_decode.c:623-749 | The same for pointer fields: a submessage starts afresh, arrays grow up to the largest count. |
| Decoder.DecodePackedStatic | pblib/nanopb/pb_decode.c:478-508 | The packed loop reads all elements of the frame or fails; the array never exceeds its size. |
| Decoder.DecodePackedPointer | pblib/nanopb/pb_decode.c:664-727 | The packed loop over allocated storage, limited by the largest count. |
| Decoder.DecodeBasicField | pblib/nanopb/pb_decode.c:395-464 | Wire type check and value, as the reading function of the type says. |
| Decoder.DecSubmessage | pblib/nanopb/pb_decode.c:1586-1636 | A submessage is its frame decoded into what is there or into a fresh structure; afterwards the parent is exactly behind the frame. |
| RequiredTracking.CheckRequired | pblib/nanopb/pb_decode.c:1120-1148 | Passes exactly if all ranks below the number of required fields, 64 at most, are in the bit field. |
| RequiredTracking.MarkSeen | pblib/nanopb/pb_decode.c:1102-1107 | The rank of the field under the cursor is added if it is required and among the first 64, and no other. |
| DecodedMessages.DecodeConforms | pblib/nanopb/pb_decode.c:989-1151 | For every byte string that is accepted: counts within array sizes, strings terminated, booleans 0 or 1, numbers in range, at every depth. |
| DecodedMessages.LoopConforms | pblib/nanopb/pb_decode.c:1015-1111 | Conformance is an invariant of the decoder loop over any input. |
| DecodedMessages.ReadSlotConforms | pblib/nanopb/pb_decode.c:466-749 | One field, read from any bytes with any wire type, leaves a conforming member. |
| RoundTrip.DecodeOfEncode | pblib/nanopb/pb_encode.c:417-533 | For every table and message whose written parts conform a wire form exists; if its length prefixes fit 32 bits, decoding consumes all of it and gives the message back, absent members at their defaults. |
| RoundTrip.Canonical | pblib/nanopb/tests/fuzztest/fuzztest.c:197-281 | For every accepted byte string the result is valid; it can be encoded again exactly if no required pointer in a written part is NULL, always so for reencodable tables, and then decoding that encoding gives the same structure. |
| RoundTrip.RestoreOfStored | pblib/nanopb/pb_decode.c:868-948 | A structure as the decoder leaves it has nothing to restore: absent members already hold their defaults. |
| RequiredPointers.StoredIsEncodable | pblib/nanopb/pb_encode.c:417-460 | A structure as the decoder leaves it has a wire form if and only if no required pointer in a written part is NULL, and may be given to the encoder exactly then. |
| RequiredPointers.DecodeSettles | pblib/nanopb/pb_decode.c:1120-1148 | After a successful decode none of the first 64 required fields is missing, at every depth where something was decoded; pointers among them are not NULL. |
| RequiredPointers.LoopSettles | pblib/nanopb/pb_decode.c:1015-1111 | The invariant of the loop behind it: required pointers whose ranks have been seen are not NULL. |
| RequiredPointers.ReencodesIff | pblib/nanopb/tests/fuzztest/fuzztest.c:197-281 | For every table: everything decoded with it can be encoded again if and only if, in each descriptor that accepts some input, every field that may be missing can be written as it is initialised. |
| RequiredPointers.ReencodableIsExact | pblib/nanopb/tests/fuzztest/fuzztest.c:197-281 | Where every descriptor accepts something, the condition is one that can be evaluated on the table alone. |
| RequiredPointers.AcceptedAlone | pblib/nanopb/pb_decode.c:989-1151 | A frame that is accepted for a structure with something in it is also accepted by itself. |
| RequiredPointers.MissingIsAccepted | pblib/nanopb/pb_encode.c:449-456 | Where it fails, leaving one field out of any accepted input gives an accepted input whose result cannot be encoded. |
| RequiredPointers.SixtyFifthIsLost | pblib/nanopb/pb_decode.c:1120-1148 | A concrete table and input: 64 of 65 required pointers arrive, the input is accepted, the result cannot be encoded. |
| RequiredPointers.SubmessageIsLost | pblib/nanopb/pb_encode.c:249-252 | A proto2 structure inside a proto3 one: the empty input is accepted, the result cannot be encoded. |
| RoundTrip.DefaultIsInit | pblib/nanopb/pb_encode.c:243-349 | A decoded submessage that counts as absent in proto3 is the initial one, so leaving it out loses nothing. |
| RoundTrip.DecodeOfConcatenation | pblib/nanopb/pb_decode.c:478-518 | Decoding the bytes of a followed by those of b is the field-by-field merge, and fails exactly if an array overflows. |
| RoundTrip.MergeFailsOnOverflow | pblib/nanopb/pb_decode.c:478-518 | A merge of conforming structures fails if and only if some array, at any depth, exceeds its capacity. |
| RoundTrip.MergeFromRestores | pblib/nanopb/pb_decode.c:950-983 | Merging a message into the initial structure gives the message with absent members restored. |
| StandardMerge.ConcatenationIsStandard | pblib/nanopb/pb_decode.c:632-662 | Decoding two encodings in a row is the standard merge of Protocol Buffers if and only if an array overflows or nothing of a submessage behind a pointer is lost. |
| StandardMerge.ConcatenationOfDisjoint | pblib/nanopb/pb_decode.c:632-662 | In particular unless both messages set the same submessage pointer. |
| StandardMerge.ReplacedIffNothingRemains | pblib/nanopb/pb_decode.c:636-641 | Merging a message into a structure gives the message alone if and only if it covers all that was there, at every depth. |
| StandardMerge.FirstIsReplaced | pblib/nanopb/pb_decode.c:636-641 | Two concrete encodings: their concatenation keeps only the second submessage, the standard merge both. |
| LongMessages.LongIsRefused | pblib/nanopb/pb_decode.c:200-223 | A message whose first length beyond 32 bits lies in a refused range is encoded, and its encoding is rejected. |
| LongMessages.NoneIffFits | pblib/nanopb/pb_encode.c:723-771 | There is no such length exactly if all length prefixes, at every depth, fit 32 bits. |
| LongMessages.HugeIsRefused | pblib/nanopb/pb_decode.c:200-223 | A table and a conforming message whose first long length is 2^32 + 5: encoded, and rejected. |
| LongMessages.CutPrefix | pblib/nanopb/pb_decode.c:361-374 | Of a payload of 0x780000000 up to 0x800000000 bytes the frame is the first so many modulo 2^32; the others are left in the stream. |
| LongMessages.LoopOfCut | pblib/nanopb/pb_decode.c:1586-1636 | Such a submessage is decoded from that frame, and the bytes behind it are decoded as further fields of the parent. |
| Merging.LoopOfEncoded | pblib/nanopb/pb_decode.c:1015-1111 | The decoder loop on an encoding followed by any bytes continues on those bytes from the merged structure. |
| Merging.DecodeIntoOfEncode | pblib/nanopb/pb_decode.c:989-1151 | Decoding an encoding into any conforming structure is merging. |
| Merging.LoopOfEncodedRecords | pblib/nanopb/pb_decode.c:508-518 | Unpacked elements are appended one by one, or decoding stops at the capacity. |
| Merging.ReadPackedOfElements | pblib/nanopb/pb_decode.c:478-507 | The elements of a packed array are read back in order behind those already there. |
| Merging.ReadNumOfForm | pblib/nanopb/pb_decode.c:1345-1494 | Every number of every type and size is read back from its wire form exactly, whatever follows. |
| Merging.ReadBlobOfForm | pblib/nanopb/pb_decode.c:1496-1584 | Strings and byte arrays are read back exactly, whatever follows. |
| Merging.ReadTagOfForm | pblib/nanopb/pb_decode.c:290-305 | A tag is read back as field number and wire type. |
| Merging.MarkFromCovers | pblib/nanopb/pb_decode.c:1096-1107 | An encoding marks every required field, so the required-field check passes. |
| Occurrences.PresentIffOccurs | pblib/nanopb/pb_decode.c:868-983 | In every accepted message a has-flag is set, or a pointer not NULL, if and only if the field occurs; one that does not occur has its declared default, zero, or no entries. |
| Occurrences.LastValueWins | pblib/nanopb/pb_decode.c:466-662 | Of two occurrences of a number, string, byte array or pointer field the first leaves no trace, whatever bytes they are. |
| Occurrences.DecodeIntoTwice | pblib/nanopb/pb_decode.c:989-1151 | Two accepted frames decoded one after the other into a structure are decoded like their concatenation. |
| Occurrences.PiecesAreMerged | pblib/nanopb/pb_decode.c:1586-1636 | A submessage in place that arrives in two pieces is decoded like one that has both. |
| Occurrences.PackedLikeUnpacked | pblib/nanopb/pb_decode.c:478-519 | An array of numbers is decoded alike from its packed and its unpacked form, overflow included. |
| Occurrences.LoopOfUnpacked | pblib/nanopb/pb_decode.c:509-519 | Unpacked numbers are appended in order, up to the array size or the largest count. |
| Occurrences.ZeroTagIsRefused | pblib/nanopb/pb_decode.c:1029-1039 | A field number of zero is refused wherever it occurs. |
| Occurrences.AcceptedIsRecords | pblib/nanopb/pb_decode.c:1015-1111 | Every accepted frame is a sequence of complete fields. |
| UnknownFields.UnknownFieldIsInvisible | pblib/nanopb/pb_decode.c:265-317 | Inserting a complete field with an unknown tag at any field boundary changes neither acceptance nor the structure. |
| UnknownFields.LoopOfRecords | pblib/nanopb/pb_decode.c:1015-1111 | Decoding goes field by field: complete fields first, then the rest from where they left off. |
| UnknownFields.ReadSlotLocal | pblib/nanopb/pb_decode.c:395-749 | What a complete field does to a member does not depend on the bytes behind it. |
| UnknownFields.FirstField | pblib/nanopb/pb_decode.c:290-317 | A field at the head of a frame can be cut off: by itself it is a complete field with the same tag and nothing left over. |
| RequiredFields.AcceptedIffRequiredOccur | pblib/nanopb/pb_decode.c:1120-1148 | A frame whose fields all decode is accepted if and only if each of the first 64 required fields occurs, in any order and number. |
| RequiredFields.SeenIsMet | pblib/nanopb/pb_decode.c:1102-1107 | The ranks recorded at the end are those before plus exactly the ranks of required fields that occur. |
| RequiredFields.RankIsUnique | pblib/nanopb/pb_common.c:142-152 | Two required fields never share a rank. |
| RequiredFields.RankIsOnto | pblib/nanopb/pb_common.c:142-152 | Every rank below the count belongs to a required field. |
| RequiredFields.FieldsSeen.Mark | pblib/nanopb/pb_decode.c:1102-1107 | Setting a bit adds exactly that rank to the set the two words stand for. |
| RequiredFields.FieldsSeen.Complete | pblib/nanopb/pb_decode.c:1120-1148 | The whole-word and remainder-mask comparisons hold if and only if no rank is missing, given that none beyond the count is set. |
| RequiredFields.BitOfSetBit | pblib/nanopb/pb_decode.c:1102-1107 | Bit j of a word with bit i set is on exactly if j is i or it was on. |
| RequiredFields.IsMask | pblib/nanopb/pb_decode.c:1138-1147 | A word equals the mask of its low k bits exactly if those bits are on and no others. |
| Defaults.MessageSetToDefaults | pblib/nanopb/pb_decode.c:950-983 | One pass leaves the initial structure, whatever was there, and the cursor back at the start. |
| Defaults.InitRound | pblib/nanopb/pb_decode.c:964-980 | One round of that loop: one more member initialised, the stream at the next default. |
| Defaults.InitField | pblib/nanopb/pb_decode.c:966-979 | The member under the cursor: its declared default if the stream has it next, otherwise zero, and the stream moved on exactly then. |
| Defaults.NextDefault | pblib/nanopb/pb_decode.c:970-979 | The stream has the default of a field next exactly if the field has one, and gives its declared value. |
| Defaults.FieldSetToDefault | pblib/nanopb/pb_decode.c:868-948 | Has-flag false, count zero, pointer NULL, data zero or a recursively initialised submessage. |
| Defaults.DefaultIsNext | pblib/nanopb/generator/nanopb_generator.py:1544-1590 | The serialised default of a field is read back as the declared value and leaves the defaults of later fields. |
| Defaults.NextTag | pblib/nanopb/pb_decode.c:957-981 | The stream of defaults always has a next tag, that of a later field or the terminating zero. |
| FieldIterator.FieldIter.Find | pblib/nanopb/pb_common.c:195-244 | From any cursor position and for any nonzero tag: success exactly for tags in the list, at the position plain lookup gives; on failure the cursor is where it was. |
| FieldIterator.FieldIter.Lap | pblib/nanopb/pb_common.c:218-242 | At most one lap; failure proves the tag absent from the whole list. |
| FieldIterator.FieldIter.Try | pblib/nanopb/pb_common.c:220-237 | The six-bit fast check never misses a field and never accepts a wrong one. |
| FieldIterator.FieldIter.Next | pblib/nanopb/pb_common.c:188-193 | The next field in circular order, all four indexes and the loaded entry consistent with the list; false exactly on wrap-around. |
| FieldIterator.FieldIter.Advance | pblib/nanopb/pb_common.c:122-154 | Word, required-field and submessage indexes stay the prefix sums of the fields before the cursor. |
| FieldIterator.FieldIter.Load | pblib/nanopb/pb_common.c:8-120 | The loaded entry is that of the field under the cursor, with the position of the member and, where there is one, of its count or has-flag; false exactly past the end. |
| FieldIterator.FieldIter.FieldIsCurrent | pblib/nanopb/pb_common.c:8-120 | What is loaded is the field of the list, up to what a table entry does not say. |
| Packing.UnpackOfPack | pblib/nanopb/pb.h:756-805 | For every field within the width assertions, unpacking gives the entry back if and only if the size offset is below 128 or the width is one or two words. |
| Packing.FirstWord | pblib/nanopb/pb.h:728-754 | Width, type byte and low tag bits can be read from the first word alone. |
| Packing.TypeBytes | pblib/nanopb/pb.h:228-282 | Type bytes and type codes in figures. |
| Packing.TypeByteRoundTrip | pblib/nanopb/pb.h:228-288 | The type byte gives data type, rule and allocation back. |
| Packing.WordsAt | pblib/nanopb/pb.h:500-522 | The words of field i start at the sum of the widths before it. |
| Packing.SubsAt | pblib/nanopb/pb.h:506-510 | The descriptor of a submessage field is at its index among the submessage fields. |
| Packing.LargestTagIsLargest | pblib/nanopb/pb.h:526-527 | The product-and-sum macro yields the tag of the last field, the largest of a sorted list. |
| Packing.RequiredCountIsRank | pblib/nanopb/pb.h:524-525 | The count macro is the number of required fields. |
| InputStream.IStream.ReadInto | pblib/nanopb/pb_decode.c:81-120 | Reads exactly count bytes of the frame or nothing; the rest of the destination is kept. |
| InputStream.IStream.SkipBytes | pblib/nanopb/pb_decode.c:81-120 | Skips count bytes if the frame has them. |
| InputStream.IStream.ReadByte | pblib/nanopb/pb_decode.c:124-140 | One byte, failing exactly at the end of the frame. |
| InputStream.IStream.DecodeVarint32Eof | pblib/nanopb/pb_decode.c:170-234 | The loop computes the 32-bit reader of the remaining bytes, and reports an empty frame. |
| InputStream.IStream.DecodeVarint | pblib/nanopb/pb_decode.c:242-262 | The loop computes the 64-bit reader, value, rest and rejection. |
| InputStream.IStream.SkipVarint | pblib/nanopb/pb_decode.c:265-274 | Skips to behind the first byte without continuation bit. |
| InputStream.IStream.DecodeTag | pblib/nanopb/pb_decode.c:290-305 | Field number and wire type of the next varint; end of frame reported apart. |
| InputStream.IStream.SkipField | pblib/nanopb/pb_decode.c:307-317 | Skips a payload by wire type: a varint for 0, eight bytes for 1, a prefix and its bytes for 2, four bytes for 5; groups and unknown wire types are rejected. |
| InputStream.IStream.MakeStringSubstream | pblib/nanopb/pb_decode.c:361-374 | The substream is exactly the announced bytes, and fails if the frame is shorter. |
| InputStream.IStream.CloseStringSubstream | pblib/nanopb/pb_decode.c:376-389 | However much of it was read, the parent continues exactly behind it. |
| InputStream.IStream.DecodeSVarint | pblib/nanopb/pb_decode.c:1355-1367 | The value v for which the word is 2v, or -2v - 1 if v is negative. |
| InputStream.IStream.DecodeFixed | pblib/nanopb/pb_decode.c:1369-1417 | Four or eight bytes, little endian, or nothing. |
| LeafDecoder.DecVarint | pblib/nanopb/pb_decode.c:1424-1494 | Accepts exactly the words that stand for a number of the type and size of the member, for signed ones below eight bytes modulo 2^32, and stores that number. |
| LeafDecoder.DecBytes | pblib/nanopb/pb_decode.c:1496-1534 | The announced bytes if they fit the member and the frame. |
| LeafDecoder.DecString | pblib/nanopb/pb_decode.c:1536-1584 | The bytes before the first NUL of the announced ones, terminated, if they fit. |
| LeafDecoder.DecFixedLengthBytes | pblib/nanopb/pb_decode.c:1638-1660 | Exactly data_size bytes, or zeros for an empty payload. |
| WireFormat.Read64IsExact | pblib/nanopb/pb_decode.c:242-262 | Of all complete base-128 forms the 64-bit reader takes exactly those of ten bytes at most for numbers below 2^64, and reads that number. |
| WireFormat.Read32IsExact | pblib/nanopb/pb_decode.c:170-234 | The exact set of forms the 32-bit reader takes, byte by byte, sign extensions included; it reads the number modulo 2^32. |
| WireFormat.Unfinished | pblib/nanopb/pb_decode.c:170-274 | Bytes that break off within a number are refused by both readers and by skipping. |
| WireFormat.NumberOfShortest | pblib/nanopb/pb_encode.c:572-604 | What is written is a complete base-128 form of the number. |
| WireFormat.ZigZagAlternates | pblib/nanopb/pb_encode.c:624-634 | 0, -1, 1, -2 and so on are 0, 1, 2, 3 and so on. |
| WireFormat.NumberIsRead | pblib/nanopb/pb_decode.c:1424-1494 | A varint member takes x from a form if and only if x is in its range and congruent to the number modulo 2^64 or 2^32, equal to it, or its zig-zag value, by type and size. |
| WireFormat.Negative32IsRead | pblib/nanopb/pb_decode.c:1464-1474 | A negative int32 is read from its 32-bit and from its 64-bit form. |
| WireFormat.BoolIsRead | pblib/nanopb/pb_decode.c:1345-1353 | A boolean is whether the low 32 bits of the number are not all zero. |
| WireFormat.Fixed32IsRead | pblib/nanopb/pb_decode.c:1369-1391 | Four bytes as a sum, least significant first. |
| WireFormat.Fixed64IsRead | pblib/nanopb/pb_decode.c:1393-1417 | Eight bytes as a sum. |
| WireFormat.NumberIsRefused | pblib/nanopb/pb_decode.c:395-430 | Wire types other than 0, 1 and 5 for their number types, and bytes that break off, are refused. |
| WireFormat.BytesAreRead | pblib/nanopb/pb_decode.c:1496-1534 | After any accepted form of the length: refused exactly if bytes are missing or a static member is full, four bytes counted for its size. |
| WireFormat.StringIsRead | pblib/nanopb/pb_decode.c:1536-1584 | The text before the first NUL, if the announced bytes and a terminator fit the member. |
| WireFormat.FixedBytesAreRead | pblib/nanopb/pb_decode.c:1638-1660 | As many bytes as the member has, or all zeros for a length of zero; anything else is refused. |
| WireFormat.FrameIsRead | pblib/nanopb/pb_decode.c:361-374 | A submessage or packed array is the bytes its prefix announces, in any form the 32-bit reader takes. |
| WireFormat.TagIsRead | pblib/nanopb/pb_decode.c:290-305 | Field number and wire type are the number of the form divided by eight, and the remainder. |
| WireFormat.SkipIsByWireType | pblib/nanopb/pb_decode.c:307-317 | A varint of any length for wire type 0, eight bytes for 1, four for 5, prefix and bytes for 2, and refusal of 3, 4, 6 and 7. |
| WireFormat.OtherTypesAreRefused | pblib/nanopb/pb_decode.c:395-464 | A known field of any other wire type is refused, but for packed numbers of an array. |
| Varint.RoundTrip64 | pblib/nanopb/pb_decode.c:242-262 | Every 64-bit number in shortest form, one to ten bytes, is read back whatever follows. |
| Varint.Read32Refines64 | pblib/nanopb/pb_decode.c:170-262 | What the 32-bit reader accepts the 64-bit reader accepts with the same bytes, ten at most, and a value equal modulo 2^32. |
| Varint.RoundTrip32 | pblib/nanopb/pb_decode.c:170-234 | The 32-bit reader accepts the shortest form of every number below 2^32. |
| Varint.LongLength | pblib/nanopb/pb_decode.c:200-223 | Of the numbers from 2^32 to 2^63 in shortest form those of five bytes from 0x780000000 on lose their upper bits, all others are refused. |
| Varint.Negative32 | pblib/nanopb/pb_decode.c:204-215 | And the ten-byte form of every negative int32. |
| Varint.ShortestIsShortest | pblib/nanopb/pb_encode.c:572-604 | No accepted form of a number is shorter than the one written. |
| Varint.Read64Bound | pblib/nanopb/pb_decode.c:242-262 | Every accepted number fits 64 bits and every accepted form ten bytes. |
| Varint.ZigZagRoundTrip | pblib/nanopb/pb_encode.c:624-634 | Zig-zag through the varint and back is the identity on all int64, the minimum included. |
| Varint.UnZigZagRange | pblib/nanopb/pb_decode.c:1355-1367 | Decoded zig-zag values are int64, and encoding them gives the word back. |
| OutputStream.OStream.Write | pblib/nanopb/pb_encode.c:83-104 | Succeeds exactly if there is room, the wrap-around of the sum noticed; then exactly the bytes are at the old cursor, otherwise nothing changed. |
| OutputStream.OStream.EncodeVarint32 | pblib/nanopb/pb_encode.c:572-604 | From two 32-bit halves it writes exactly the shortest form of the 64-bit number. |
| OutputStream.FillVarint | pblib/nanopb/pb_encode.c:572-604 | Both loops fill the buffer with the shortest form, ten bytes at most, without overrunning it. |
| OutputStream.OStream.EncodeVarint | pblib/nanopb/pb_encode.c:606-622 | The shortest form of every 64-bit value, the one-byte path included. |
| OutputStream.OStream.EncodeSVarint | pblib/nanopb/pb_encode.c:624-634 | Mask, shift and complement write 2v, or -2v - 1 for negative v, for every int64. |
| OutputStream.OStream.EncodeFixed32 | pblib/nanopb/pb_encode.c:636-651 | Four bytes, little endian. |
| OutputStream.OStream.EncodeFixed64 | pblib/nanopb/pb_encode.c:653-672 | Eight bytes, little endian. |
| OutputStream.OStream.EncodeString | pblib/nanopb/pb_encode.c:715-721 | Length prefix and bytes, all or an error, within the room of the stream. |
| OutputStream.Chain | pblib/nanopb/pb_encode.c:83-104 | Two writes in a row are one write of both forms: room, bytes and untouched memory add up. |
| OutputStream.SizingAgrees | pblib/nanopb/pb_encode.c:556-565 | A buffer of capacity c takes a form exactly if a sizing stream counted at most c; then exactly that many bytes are written, at the start, and bytes_written never exceeds the limit. |
| WrittenForms.NumberIsWritten | pblib/nanopb/pb_encode.c:782-828 | Wire type 0 and the number, negative ones as words of 64 bits. |
| WrittenForms.ZigZagIsWritten | pblib/nanopb/pb_encode.c:624-634 | Wire type 0 and 2x, or -2x - 1 for negative x. |
| WrittenForms.WrittenStandsFor | pblib/nanopb/pb_encode.c:782-828 | The number written for a value in range stands for that value in the sense of the reader. |
| WrittenForms.BoolIsWritten | pblib/nanopb/pb_encode.c:774-779 | Wire type 0 and a byte 0 or 1. |
| WrittenForms.Fixed32IsWritten | pblib/nanopb/pb_encode.c:636-651 | Wire type 5 and the four bytes, least significant first. |
| WrittenForms.Fixed64IsWritten | pblib/nanopb/pb_encode.c:653-672 | Wire type 1 and the eight bytes. |
| WrittenForms.BlobIsWritten | pblib/nanopb/pb_encode.c:855-927 | Wire type 2, length and bytes, or an error exactly if the member cannot hold them. |
| WrittenForms.MessageIsWritten | pblib/nanopb/pb_encode.c:723-771 | Wire type 2, length and the encoded submessage. |
| WrittenForms.RecordIsTagged | pblib/nanopb/pb.h:414-421 | The tag of a field is eight times its number plus 0, 1, 2 or 5 by field type. |
| WrittenForms.ArrayIsWritten | pblib/nanopb/pb_encode.c:127-239 | Numbers are one field of wire type 2 with all payloads back to back, anything else one field per entry, nothing if empty, an error beyond the array size. |
| WrittenForms.MembersAreJoined | pblib/nanopb/pb_encode.c:511-533 | A message is the forms of its members in the order of the descriptor. |
| WrittenForms.NumberIsLeftOut | pblib/nanopb/pb_encode.c:281-295 | A proto3 number without has-flag is written as nothing if and only if it is zero. |
| WrittenForms.BlobIsLeftOut | pblib/nanopb/pb_encode.c:296-311 | A string or byte array if and only if it is empty, one of fixed length only if that is zero. |
| WrittenForms.MessageIsLeftOut | pblib/nanopb/pb_encode.c:312-331 | A submessage if and only if it would be encoded as nothing. |
| WrittenForms.AlwaysWritten | pblib/nanopb/pb_encode.c:249-279 | Required members, and members beside a declared default, are written whatever they hold. |
| WrittenForms.StoredPresence | pblib/nanopb/pb_encode.c:417-456 | Has-flag and pointer decide alone; a required NULL pointer is an error. |
| Encoder.PbEncode | pblib/nanopb/pb_encode.c:511-533 | For every structure in memory: succeeds exactly if it has a wire form and the stream room for it, and then writes exactly that form and nothing else. |
| Encoder.GetEncodedSize | pblib/nanopb/pb_encode.c:556-565 | The size of the wire form, or failure exactly if there is none. |
| Encoder.EncodeSubmessage | pblib/nanopb/pb_encode.c:723-771 | Sizing pass, prefix and limited writing pass together emit the delimited form. |
| Encoder.EncodeBody | pblib/nanopb/pb_encode.c:741-770 | The writing pass always writes what the sizing pass counted: the error "submsg size changed" cannot occur. |
| Encoder.EncodeField | pblib/nanopb/pb_encode.c:417-468 | Presence by has-flag, proto3 default or pointer, the missing required pointer, and contents. |
| Encoder.EncodeArray | pblib/nanopb/pb_encode.c:127-239 | Nothing for an empty array, an error beyond the array size, packed where the type allows, else one record per entry. |
| Encoder.EncodePackedBody | pblib/nanopb/pb_encode.c:143-195 | The length written is that of the elements that follow, computed or counted. |
| Encoder.WriteElements | pblib/nanopb/pb_encode.c:180-194 | The loop emits the elements back to back. |
| Encoder.EncodeUnpacked | pblib/nanopb/pb_encode.c:197-236 | The loop emits one record per entry. |
| Encoder.EncodeBasicField | pblib/nanopb/pb_encode.c:361-402 | Eight times the field number plus wire type 0, 1, 2 or 5 by field type, then the payload. |
| Encoder.EncVarint | pblib/nanopb/pb_encode.c:782-828 | Zero or sign extension by data size, zig-zag, or an error for other sizes. |
| Encoder.EncFixed | pblib/nanopb/pb_encode.c:830-853 | Width by data size, or an error. |
| Encoder.EncBytes | pblib/nanopb/pb_encode.c:855-874 | An error exactly if the count exceeds the member. |
| Encoder.EncString | pblib/nanopb/pb_encode.c:876-927 | The scan stops inside the member and finds the terminator exactly if the string has one there. |
| Encoder.CheckProto3Default | pblib/nanopb/pb_encode.c:243-349 | Decides exactly when a member counts as absent, recursing into submessages: in proto3 a number exactly if it is zero, a string or byte array if it is empty, a flagged member if its flag is false, a required one never. |
| Encoder.AllZero | pblib/nanopb/pb_encode.c:281-295 | The bytes of a number in memory are zero exactly for the number zero. |
| Encoder.BytesZero | pblib/nanopb/pb_encode.c:281-295 | The loop over the bytes. |
| Encoder.ConformsHolds | pblib/nanopb/pb_encode.c:511-533 | Every structure whose written parts conform, and whose size can be counted, may be given to the encoder. |
| Encoding.DefaultIsEmpty | pblib/nanopb/pb_encode.c:243-349 | A submessage that counts as absent has an empty wire form, or none exactly if one of its pointers is required. |
| Encoding.EmptyIffDefault | pblib/nanopb/pb_encode.c:243-349 | A message is written as nothing if and only if it counts as absent. |
| Encoding.EncodeFromExists | pblib/nanopb/pb_encode.c:511-533 | Every structure whose written parts conform has a wire form. |
| Encoding.ShortLengthsFit | pblib/nanopb/pb_encode.c:715-771 | In an encoding below 4 GiB every length prefix, at every depth, fits 32 bits. |
| Heap.Allocator.Realloc | pblib/nanopb/pb_decode.c:595-603 | A new block of the requested size in place of the old one, or the old one kept when memory is refused. |
| Heap.Allocator.Free | pblib/nanopb/pb_decode.c:1300-1315 | May only be given NULL or a live block: nothing is freed twice. |
| Heap.ReleaseSlot | pblib/nanopb/pb_decode.c:1228-1317 | Frees the blocks of one member, contents before the pointer, each once, and clears it. |
| Heap.Release | pblib/nanopb/pb_decode.c:1319-1333 | Frees exactly the blocks of the structure, each once, and leaves one that owns nothing. |
| Heap.ReleaseTwice | pblib/nanopb/pb_decode.c:1319-1333 | A second release frees nothing. |
| Heap.NewOwnsNothing | pblib/nanopb/pb_decode.c:607-620 | A new structure, cleared or with its defaults, has the shape of its descriptor and owns no block. |
| Heap.NewStoresInit | pblib/nanopb/pb_decode.c:950-983 | With its defaults it stores exactly the initial message. |
| HeapDecoder.PbDecode | pblib/nanopb/pb_decode.c:1181-1193 | On any bytes: unless malloc refused a request it accepts and stores exactly what `Decode` says; success adds exactly the blocks the message owns, each as large as what is in it, failure leaves the heap as it was. |
| HeapDecoder.DecodeInner | pblib/nanopb/pb_decode.c:989-1151 | Through cursor, bit field and default pass: at every return, also on failure, the live blocks are those the message owns, each reachable once, and those that were there; on success the message is that of `DecodeInto`. |
| HeapDecoder.DecodeOne | pblib/nanopb/pb_decode.c:1015-1111 | The same for one round of the loop. |
| HeapDecoder.DecodeKnown | pblib/nanopb/pb_decode.c:1102-1110 | A field found: its member, and only that, holds what was decoded, also after a failure; its rank is marked. |
| HeapDecoder.DecodeField | pblib/nanopb/pb_decode.c:797-823 | One member: the reading function of its storage, with its blocks conserved whatever fails. |
| HeapDecoder.DecodeRef | pblib/nanopb/pb_decode.c:632-662 | A duplicate submessage is released before its pointer is reused; the value starts afresh. |
| HeapDecoder.DecodeRefEntry | pblib/nanopb/pb_decode.c:728-743 | An array grows by one entry that is cleared and then decoded; the block has room for all entries. |
| HeapDecoder.FillRef | pblib/nanopb/pb_decode.c:677-722 | The packed loop reads what the reading function reads; no entry is written beyond the block, and storage that grows is replaced, never leaked. |
| HeapDecoder.DecodeStaticEntry | pblib/nanopb/pb_decode.c:509-519 | The count goes up before the entry is decoded, and past the array size on overflow, without harm to release. |
| HeapDecoder.DecPointerBlob | pblib/nanopb/pb_decode.c:1496-1584 | Strings and byte arrays behind pointers: the announced bytes in a block of their own, with room for them and for count or terminator. |
| HeapDecoder.AllocateField | pblib/nanopb/pb_decode.c:561-604 | Zero sizes and products of 2^64 and more are refused without asking malloc; otherwise a block of exactly the product is asked for; on any refusal the old pointer stays. |
| HeapDecoder.SizesAllow | pblib/nanopb/pb_decode.c:565-593 | No field of a table and no array of it is ever refused for its size. |
| HeapDecoder.NoOverflow | pblib/nanopb/pb_decode.c:578-593 | The division check refuses exactly the products that overflow, and half-width factors need no check. |
| Utf8.ValidateUtf8 | pblib/nanopb/pb_common.c:334-385 | True if and only if the bytes before the NUL are a concatenation of well-formed sequences other than U+FFFE and U+FFFF; nothing behind the NUL is read. |
| Utf8.StepOver | pblib/nanopb/pb_common.c:339-383 | The bit tests of one round decide exactly whether a well-formed sequence starts here, and its length. |
| Utf8.TextIffSpelled | pblib/nanopb/pb_common.c:334-385 | The accepted byte strings are exactly the UTF-8 forms of sequences of Unicode scalar values without the two noncharacters. |
| Utf8.Boundaries | pblib/nanopb/pb_common.c:349-377 | The bytes of the first and last code points of each length, and the gaps. |
| Utf8.CharsArePoints | pblib/nanopb/pb_common.c:349-377 | Every well-formed sequence is the form of one scalar value. |
| Utf8.PointsAreChars | pblib/nanopb/pb_common.c:349-377 | Every scalar value has a well-formed form that stands for it alone. |
| FloatConversion.DoubleToFloat | pblib/nanopb/pb_decode.c:1675-1724 | For every pattern that is not NaN the nearest float, ties away from zero, denormals, carry, underflow and overflow included; sign kept. |
| FloatConversion.OneIsOne | pblib/nanopb/pb_decode.c:1675-1724 | The number one is one in both formats, 2^1074 of the unit of magnitudes. |
| FloatConversion.RoundedIsBetween | pblib/nanopb/pb_decode.c:1680-1717 | The rounded fields name the float between whose midpoints the double lies. |
| FloatConversion.BetweenIsNearest | pblib/nanopb/pb_decode.c:1680-1717 | Such a float is nearest among all floats and infinity, and the larger of two equally near. |
| FloatConversion.Monotone32 | pblib/nanopb/pb_decode.c:1708-1724 | Floats are ordered like their bits, across exponents and up to infinity. |
| FloatConversion.DecodeDoubleAsFloat | pblib/nanopb/pb_decode.c:1662-1726 | Eight bytes are consumed, or none, and rounded. |
| FloatConversion.NanSurvives | pblib/nanopb/pb_decode.c:1681-1686 | A NaN stays one if and only if one of the upper 23 fraction bits is set. |
| FloatConversion.NanBecomesInfinity | pblib/nanopb/pb_decode.c:1681-1686 | A NaN pattern for which the result is infinity. |
| FloatConversion.FloatToDouble | pblib/nanopb/pb_encode.c:954-996 | The same magnitude and sign for every finite float; infinities and NaN fractions kept. |
| FloatConversion.Normalise | pblib/nanopb/pb_encode.c:980-990 | The shifting loop finds the significand and exponent of a denormal without changing its value. |
| FloatConversion.EncodeFloatAsDouble | pblib/nanopb/pb_encode.c:954-999 | The eight bytes of the widened pattern are written. |
| FloatConversion.WidenThenRound | pblib/nanopb/pb_decode.c:1662-1726 | Float to double to float is the identity on all 2^32 patterns. |
| SizeBound.VarintMaxSize | pblib/nanopb/generator/nanopb_generator.py:251-258 | The length of the shortest form, an error beyond ten bytes; ten for negative numbers as far as ten groups reach, an error below. |
| SizeBound.SizeBoundsIff | pblib/nanopb/generator/nanopb_generator.py:1531-1542 | The generator's size of a message bounds every conforming encoding of it if and only if it is not below the largest encoding, computed from the descriptor. |
| LargestEncoding.MostMessageAttains | pblib/nanopb/pb_encode.c:511-533 | The largest encoding is that of a conforming structure: full arrays, long strings, wide numbers. |
| SizeBound.EncodedSizeIsBound | pblib/nanopb/generator/nanopb_generator.py:1531-1542 | A bound for every message that has no padded byte array, nor a submessage with one. |
| SizeBound.UnpaddedWithin | pblib/nanopb/generator/nanopb_generator.py:1531-1542 | For such messages the largest encoding of the fields from any number on is within the generator's size of them. |
| LargestEncoding.MessageWithin | pblib/nanopb/pb_encode.c:511-533 | No conforming structure is encoded in more bytes than the largest encoding, for the fields from any number on. |
| SizeBound.PackedFits | pblib/nanopb/generator/nanopb_generator.py:1002-1013 | A packed array fits the budget of the unpacked one, with one more byte for an array of one. |
| SizeBound.PackedWithin | pblib/nanopb/generator/nanopb_generator.py:943-1015 | Packed fields of any number type and count have their largest form within their budget. |
| LargestEncoding.LeafWithin | pblib/nanopb/generator/nanopb_generator.py:88-129 | No number exceeds the size of the type table, no string or byte array what its member has room for. |
| LargestEncoding.MostNumberAttains | pblib/nanopb/generator/nanopb_generator.py:88-129 | The sizes of the type table are exact: for every number type some value takes all the bytes. |
| SizeBound.BytesBoundIff | pblib/nanopb/generator/nanopb_generator.py:680-685 | For a byte array, single or repeated, the size is a bound if and only if its maximum is a multiple of four, or it is repeated with room for none, or for one and a single byte of padding. |
| SizeBound.PaddingExceedsBudget | pblib/nanopb/pb.h:371-372 | A concrete schema, its table and a message: size 7, encoding 10 bytes. |
| QueryMessage.DescriptorsAreOk | pblib/message.pb.c:16-31 | The tables of the query protocol are well formed and reencodable, so every law here applies to them. |
| QueryMessage.DescriptorsAreCompiled | pblib/message.pb.h:84-132 | They are the compiled form of the field lists; what the lists say in bytes is `QueryBytes.ProtocolBytes`. |
| QueryBytes.MessagesConform | pblib/message.pb.h:13-46 | The structures of each descriptor are exactly those of the header: texts below 1024 characters, numbers in the range of their types, at most 20 entries. |
| QueryBytes.ProtocolBytes | pblib/message.pb.h:84-126 | Each of the six messages is encoded in exactly the bytes its field list asks for, tag bytes in figures, and those bytes are decoded to it. |
| QueryBytes.SmallestResponse | pblib/message.pb.h:121-123 | An empty text and zero are 0A 00 10 00. |
| QueryBytes.TextWords | pblib/nanopb/pb.h:760-762 | The two words of Response.rString in the descriptor. |
| QueryBytes.ArrayWords | pblib/nanopb/pb.h:764-767 | And the four words of Filter.compList. |
| QueryMessage.QuerySize | pblib/message.pb.h:145-152 | The generator's size of Query is 880191. |
| QueryMessage.FilterSize | pblib/message.pb.h:145-152 | That of Filter is 41920. |
| QueryMessage.ComparatorSize | pblib/message.pb.h:145-152 | That of Comparator is 2093. |
| QueryMessage.KeyValuePairSize | pblib/message.pb.h:145-152 | That of KeyValuePair is 2079. |
| QueryMessage.ValueSettingSize | pblib/message.pb.h:145-152 | That of ValueSetting is 2082. |
| QueryMessage.ResponseSize | pblib/message.pb.h:145-152 | That of Response is 1037. |
| QueryMessage.QueryBound | pblib/message.pb.h:145-152 | No Query is encoded in more than 880191 bytes. |
| QueryMessage.ResponseBound | pblib/message.pb.h:145-152 | No Response is encoded in more than 1037 bytes. |
| QueryMessage.ProtocolRoundTrip | pblib/message.pb.h:84-132 | Every message of the protocol is decoded to exactly what was encoded. |
| QueryMessage.Exchange | pblib/message.pb.h:84-152 | Stated of the methods: a buffer of Query_size bytes takes every Query, and decoding it gives that Query. |
| SortDependencies.Sort | pblib/nanopb/generator/nanopb_generator.py:1657-1679 | Terminates with a permutation of the messages, each the first of those that remain that depends on none of them, or the first of all in a circle; the circular fallback is taken if and only if the dependencies have a cycle; otherwise each message comes after all it depends on. |
| SortDependencies.EarliestIsUnique | pblib/nanopb/generator/nanopb_generator.py:1667-1679 | There is one such order only, so the result is determined. |
| SortDependencies.OrderedIsKept | pblib/nanopb/generator/nanopb_generator.py:1667-1679 | Messages that are in order already are emitted as they are. |
| SortDependencies.Round | pblib/nanopb/generator/nanopb_generator.py:1667-1679 | One round moves one message, keeps both lists together a permutation, and keeps the order or shows a cycle. |
| SortDependencies.OrderedIsAcyclic | pblib/nanopb/generator/nanopb_generator.py:1664-1679 | A list with such an order has no cycle. |
| SortDependencies.StuckIsCyclic | pblib/nanopb/generator/nanopb_generator.py:1673-1679 | When no candidate is free there is a cycle among the remaining messages. |

## Left out

- Callbacks, message callbacks and extensions: foreign code; a table here has static and pointer fields only.
- Oneofs and fixed-count arrays: neither kind of field is in the tables.
- Messages terminated by a zero tag and the other flags of the extended entry points than delimiting.
- RoundTrip.DecodeOfEncode: stated for messages whose length prefixes fit 32 bits, the range the decoder reads (`LengthsFit`, implied by an encoding below 4 GiB). Of longer ones `LongMessages.LongIsRefused` says that they are rejected, and `LongMessages.LoopOfCut` how a submessage of 0x780000000 up to 0x800000000 bytes is cut; lengths of 2^63 and more, which no memory holds, are not covered.
- RoundTrip.Canonical: the second decode under the same condition.
- RoundTrip.DecodeOfConcatenation: under the same condition.
- StandardMerge.ConcatenationIsStandard: under the same condition.
- Decoder.DecodeInner: extension fields, fixed-count arrays and the null-terminated flag of these lines are not in the model.
- Decoder.DecodeLoop: the same.
- Decoder.DecodeOne: the same.
- HeapDecoder.DecodeInner: the same; the initial structure is computed by the default pass and then placed in memory.
- HeapDecoder.DecodeOne: the same.
- FieldIterator.FieldIter.Load: positions count from the start of the structure, which is never NULL, and the data pointer behind them is the member itself; fixed-count arrays are not in the model.
- Encoder.EncodeUnpacked: a NULL entry in a pointer array of strings or byte arrays, which is written as empty, cannot be expressed; the decoder leaves none after success.
- Array entries beyond the count, string bytes behind the NUL and structure padding: not part of a value; destinations are taken as cleared where the decoder relies on it.
- The exact memory left behind by a failed decode, but for counts and blocks in the heap model.
- Allocation failure in `Decoder`: there allocation succeeds; failures are the subject of `HeapDecoder`.
- The generator's enum sizes, sizes that refer to other files by symbol, and its sort of fields by tag: schemas list fields in tag order.
- Streams with user callbacks for reading or writing, and their errors.
- Build variants: no 64-bit integers, buffer-only streams, 16-bit sizes, AVR, little-endian shortcuts.
- Error texts, the generator's text output and options, the database's storage, sockets and command line.
