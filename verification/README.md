# Verified models of the vendored protocol code

Musgravite ships nanopb and BoringSSL in `Pods`. This project models four parts of them in Dafny and
proves what they are for:

- **nanopb**: the descriptor-driven encoder and decoder of Protocol Buffers messages. Descriptors are an
  inductive datatype, messages a tree of struct members. The methods work on stream classes over byte
  arrays and on a cyclic field iterator, as in C, and are proved equal to a pure encoder and decoder;
  the round trip, merging of structs, required fields, forward compatibility, the packed/unpacked law and
  the round trip of every accepted input are proved about those.
- **DTLS handshake transport**: sending a flight in fragments, records and packets over a transport that
  may refuse them; numbering sealed records over two live epochs; the replay window; the ring of
  reassembly slots with its bit masks; and sender, network and receiver together. The AEAD is a pair of
  functions of which only that opening undoes sealing and that the overhead is bounded is assumed.
- **The saturating reference count**: any number of threads in the C11 compare-exchange loops as a state
  machine of atomic steps, the two loops as methods under interference, and the lock-based version.
- **TLS handshake framing**: messages cut into records and flushed as a flight, and recovered from the
  byte stream.

`dafny verify dfyconfig.toml` checks everything.

| files | content |
|---|---|
| `Bits`, `Varint`, `TlsWire` | machine words as natural numbers, varints, zigzag, fixed-width and big-endian numbers |
| `Wrappers`, `Sequences`, `Transport` | optional values, concatenation, the transport below TLS and DTLS |
| `PbTypes`, `PbEncodeSpec`, `PbDecodeSpec` | descriptors, structs, the field iterator; the pure encoder and decoder |
| `PbRoundTrip`, `PbMerge`, `PbStructMerge`, `PbEvolution` | round trip, merging and changed message types |
| `PbRecords`, `PbAccepted`, `PbWireFormat` | which inputs are accepted, what they leave, and the bytes written |
| `PbStream`, `PbDecoder`, `PbEncoder` | the imperative streams, decoder and encoder |
| `DtlsFragment`, `DtlsReceiver`, `DtlsEndToEnd` | bit masks, the ring of incoming messages, runs over a lossy network |
| `DtlsNumbers`, `DtlsReplay`, `DtlsRecord` | record numbers, the replay window, sealing and opening records |
| `DtlsFlight`, `DtlsSendSpec`, `DtlsSender` | cutting, sending and retransmitting a flight |
| `DtlsDelivery`, `DtlsNetwork` | a flight as records and datagrams, through the reader to the messages handed out |
| `Refcount` | the reference count |
| `TlsFraming` | TLS handshake framing |

Where the code differs from what its comments or callers suggest, the model follows the code:

- `pb_decode_varint32` accepts some encodings of numbers that no 32-bit field holds and drops their high
  bits (`Varint32Exactly`, `Varint32DropsHighBits`), and loses count of the bit position after 37 bytes
  (`Varint32Wraps`); `Varint32ReadsValue` says exactly when an input is still read correctly.
- The encoder accepts a string without room for its NUL, the decoder rejects what was encoded
  (`StringRoundTripExactly`).
- A DTLS fragment whose sequence number is exactly one flight ahead is not ignored like later ones: it
  ends the connection (`WhenRejected`).
- When sealing fails after other records of the same packet were sealed, `send_flight` does not take the
  position back; a later call goes on behind those records and never sends them (`GivesUpExactly`,
  `GivesUpExactlyBehind`, `FlightSent`, `LosesChangeCipherSpec`).
- When a record counter overflows it is zero again and numbers repeat (`OverflowRepeats`).
- In a message type without fields a search for tag 0 finds the terminator; its `data_size` of 0 then
  fails the decode.

Lengths and offsets that the C code keeps in `size_t` are natural numbers; `uint32_t`, `uint64_t`, the
8-bit `bitpos`, the 48-bit record counters and the 16-bit epochs have their widths. `PB_FIELD_32BIT` and
`PB_ENABLE_MALLOC` are set, as in the pod's configuration: `pb_size_t` has 32 bits, and a union is released
before it is overwritten.

## Model

| member | source | states |
|---|---|---|
| PbRoundTrip.RoundTrip | Musgravite/Pods/nanopb/pb_encode.c:494-516 | every well-formed message (all field types, required, optional, repeated, oneof, nested, proto3) is encoded, and `pb_decode` of the bytes, if fewer than 2^32, gives back exactly that struct |
| PbRoundTrip.MessageRoundTrip | Musgravite/Pods/nanopb/pb_decode.c:1051-1063 | decoding an encoded message from the defaults consumes all of it and rebuilds the struct, with every required field seen |
| PbRoundTrip.DelimitedRoundTrip | Musgravite/Pods/nanopb/pb_decode.c:1065-1093 | the delimited form is read back and leaves the stream at the first byte after it, whatever follows |
| PbRoundTrip.MessageEncodes | Musgravite/Pods/nanopb/pb_encode.c:307-392 | the encoder fails on no field of a well-formed message |
| PbRoundTrip.ValueRoundTrip | Musgravite/Pods/nanopb/pb_decode.c:1289-1508 | each decoder function undoes the encoder function of its type, for any bytes after the value |
| PbRoundTrip.ScalarRoundTrip | Musgravite/Pods/nanopb/pb_decode.c:1289-1383 | whenever a scalar is encoded, the decoder of its type and size returns the number and the rest |
| PbRoundTrip.FieldRoundTrip | Musgravite/Pods/nanopb/pb_decode.c:401-475 | the record of a field turns the receiver's member into the sender's, and an absent field leaves a default |
| PbRoundTrip.PackedRoundTrip | Musgravite/Pods/nanopb/pb_decode.c:419-444 | a packed run is read back behind what the array already holds |
| PbRoundTrip.ZeroIsDefault | Musgravite/Pods/nanopb/pb_encode.c:215-303 | a value the encoder leaves out as a proto3 zero equals the value the decoder starts from |
| PbRoundTrip.StringRoundTripExactly | Musgravite/Pods/nanopb/pb_decode.c:1428-1461 | a string that fills its array is encoded but its encoding is rejected; it comes back if and only if it leaves room for the NUL |
| PbRoundTrip.RecordStep | Musgravite/Pods/nanopb/pb_decode.c:933-1004 | a record whose payload decodes is one step of the field loop, and changes only the member of its field |
| PbStructMerge.MessageMerges | Musgravite/Pods/nanopb/pb_decode.c:901-1049 | decoding the encoding of b into a well-formed struct a succeeds if and only if the arrays have room, and gives the two merged: present singular members of b replace those of a, submessages merge recursively, arrays are concatenated, a set union replaces |
| PbStructMerge.TwoMessages | Musgravite/Pods/nanopb/pb_decode.c:901-1049 | two encodings one after the other decode from the defaults to the two structs merged, or are rejected if and only if an array has no room |
| PbStructMerge.FieldMerges | Musgravite/Pods/nanopb/pb_decode.c:401-475 | the record of one field does to its member what the merge says, whatever the fields before it did |
| PbStructMerge.LastOneWins | Musgravite/Pods/nanopb/pb_decode.c:411-417 | what a record with any payload leaves in a singular field other than a submessage, or in a union, does not depend on what was there, and is present |
| PbStructMerge.SubmessageStarts | Musgravite/Pods/nanopb/pb_decode.c:1463-1485 | any payload of a submessage is decoded into what a singular field holds; an array entry and a member of a union start from the defaults whatever was there |
| PbStructMerge.WireTypeIgnored | Musgravite/Pods/nanopb/pb_decode.c:401-475 | the wire type of a known field makes no difference, except between a packed run and single entries |
| PbStructMerge.StaleUnionFails | Musgravite/Pods/nanopb/pb_decode.c:1104-1129 | a union whose which_ tag names no field cannot be overwritten |
| PbRecords.AcceptedExactly | Musgravite/Pods/nanopb/pb_decode.c:1006-1049 | a message is accepted if and only if the field loop gets through and each of the first 64 required fields has its tag among the tags of the records read, which are found by lengths alone |
| PbRecords.SeenAreTags | Musgravite/Pods/nanopb/pb_decode.c:988-993 | the set of seen required fields is that of the tags read |
| PbRecords.LoopEnds | Musgravite/Pods/nanopb/pb_decode.c:907-962 | a tag that is no 32-bit varint, an invalid wire type and a missing payload of an unknown field are errors; a zero tag ends the message; any other unknown field is passed over |
| PbRecords.RecordEnds | Musgravite/Pods/nanopb/pb_decode.c:933-1004 | an accepted record ends where its length says: by the type of a known field, by the wire type of an unknown one |
| PbAccepted.MessageIsWf | Musgravite/Pods/nanopb/pb_decode.c:901-1049 | whatever is decoded into a well-formed struct leaves it well formed: integers that fit their members, arrays, bytes and strings within their bounds, unions that name a member |
| PbAccepted.DecodedRoundTrip | Musgravite/Pods/nanopb/pb_decode.c:1051-1063 | the struct decoded from any accepted input, canonical or not, is encoded, and its encoding decodes to the same struct |
| PbAccepted.IntegerAccepted | Musgravite/Pods/nanopb/pb_decode.c:1289-1383 | a varint is accepted if and only if the member can hold a number equal to it - modulo 2^32 or 2^64 for int32 and int64, exactly for the others - and is read as that |
| PbAccepted.BytesAccepted | Musgravite/Pods/nanopb/pb_decode.c:1391-1508 | which byte arrays, strings and fixed-length arrays are accepted by their length, and what they are read as |
| PbAccepted.DefaultsAreWf | Musgravite/Pods/nanopb/pb_decode.c:812-895 | the struct that decoding starts from is well formed for a descriptor whose members are large enough |
| PbAccepted.DefaultsSay | Musgravite/Pods/nanopb/pb_decode.c:812-882 | every field starts from its declared default or from what the encoder takes for zero; flags are off, arrays and unions empty |
| PbAccepted.MessageEncodesExactly | Musgravite/Pods/nanopb/pb_encode.c:307-392 | a struct is encoded if and only if its present members fit: numbers their sizes, bytes and arrays their bounds, down through the submessages |
| PbAccepted.OmittedExactly | Musgravite/Pods/nanopb/pb_encode.c:215-303 | a proto3 member is left out if and only if it is 0, has no bytes, or is a submessage for which nothing is written |
| PbAccepted.NothingWritten | Musgravite/Pods/nanopb/pb_encode.c:262-280 | a struct is encoded to nothing if and only if all its fields are at zero |
| PbWireFormat.FieldBytes | Musgravite/Pods/nanopb/pb_encode.c:641-672 | the bytes of a field: 8 times its number plus 0, 1, 2 or 5 as a varint, then the value in the form of its type |
| PbWireFormat.ArrayBytes | Musgravite/Pods/nanopb/pb_encode.c:126-211 | numbers of an array in one run behind its length, other entries each with its key |
| PbWireFormat.VarintBytes | Musgravite/Pods/nanopb/pb_encode.c:574-594 | each byte of a varint: seven bits, least significant first, a continuation bit on all but the last, and no byte too many |
| PbWireFormat.FixedBytes | Musgravite/Pods/nanopb/pb_encode.c:607-632 | each byte of a fixed-width number, least significant first |
| PbMerge.ZeroTagEnds | Musgravite/Pods/nanopb/pb_decode.c:295-309 | a zero byte behind an accepted message ends it and leaves what follows |
| PbMerge.MergeByConcatenation | Musgravite/Pods/nanopb/pb_decode.c:901-1049 | after A was accepted, A ++ B is decoded as B into the struct A left, unless a zero tag ended A, in which case B is never read |
| PbMerge.LoopAppend | Musgravite/Pods/nanopb/pb_decode.c:907-1004 | the field loop on A ++ B is the loop on A followed by the loop on B from the struct and the seen fields it had reached |
| PbMerge.SeenOnlyAdds | Musgravite/Pods/nanopb/pb_decode.c:988-993 | the required fields seen before have no influence on what is decoded and are only added to |
| PbMerge.UnknownFieldIgnored | Musgravite/Pods/nanopb/pb_decode.c:951-962 | a record with an unknown tag at any record boundary changes neither acceptance nor the struct |
| PbMerge.EncodedFieldIsSkipped | Musgravite/Pods/nanopb/pb_decode.c:951-962 | whatever the encoder writes for a field the decoder does not know - nothing, a record, a packed run, a record for every array entry - leaves struct and seen fields alone, whatever follows |
| PbEvolution.NewFieldsIgnored | Musgravite/Pods/nanopb/pb_decode.c:901-1049 | an older message type accepts what the encoder wrote for one that adds fields anywhere, uses all of it up, and has every field it knows as the sender has it; a union set to a new member looks empty |
| PbEvolution.SameEncoding | Musgravite/Pods/nanopb/pb_encode.c:307-392 | a field that both types know is written as the older type would write what it sees of it |
| PbEvolution.ShownWf | Musgravite/Pods/nanopb/pb_decode.c:901-1049 | the struct as the older type sees it is well formed for that type, unions included |
| PbMerge.PackedEqualsUnpacked | Musgravite/Pods/nanopb/pb_decode.c:419-459 | a packed run and single-value records of the same scalars give the same struct, and both are accepted if and only if the array has room or there is no scalar |
| PbMerge.ValueExtends | Musgravite/Pods/nanopb/pb_decode.c:1289-1508 | a decoder function that succeeds does not look past what it consumes |
| PbMerge.RecordExtends | Musgravite/Pods/nanopb/pb_decode.c:933-1004 | the same for a whole record |
| Varint.VarintRoundTrip | Musgravite/Pods/nanopb/pb_encode.c:574-594 | every uint64 takes at most ten bytes and is decoded and skipped consuming exactly those |
| Varint.VarintTenBytes | Musgravite/Pods/nanopb/pb_encode.c:574-594 | the ten-byte buffer of the encoder is large enough |
| Varint.Varint32Agrees | Musgravite/Pods/nanopb/pb_decode.c:182-242 | on the encoding of a uint32 or of a sign-extended negative int32 the 32-bit decoder returns the value modulo 2^32, agreeing with the 64-bit decoder |
| Varint.Varint32Exactly | Musgravite/Pods/nanopb/pb_decode.c:182-242 | of all uint64 encodings the 32-bit decoder accepts exactly those of 32-bit numbers and the ten-byte ones with bit 31 set whose groups at bits 35 to 56 are all zeros or all ones, and reads them modulo 2^32; it rejects all others |
| Varint.Varint32ReadsValue | Musgravite/Pods/nanopb/pb_decode.c:182-242 | an accepted input of any length, canonical or not, is read as the number it denotes modulo 2^32 if and only if no group from the thirty-eighth on, which the wrapped bit position moves below bit 32, adds a bit to that number |
| Varint.Varint32IsTheValue | Musgravite/Pods/nanopb/pb_decode.c:182-242 | so any accepted input of up to 37 bytes is read as the number it denotes modulo 2^32 |
| Varint.Varint32Wraps | Musgravite/Pods/nanopb/pb_decode.c:197-226 | one byte further the 8-bit bit position wraps: thirty-seven bytes 0x80 and a 0x01 denote 0 modulo 2^32 and are accepted as 8 |
| Varint.Varint32DropsHighBits | Musgravite/Pods/nanopb/pb_decode.c:205-237 | the encoding of 2^63 + 2^31, which is no 32-bit number, is accepted and read as its low 32 bits |
| Varint.ZigzagRoundTrip | Musgravite/Pods/nanopb/pb_encode.c:596-605 | every int64 comes back from zigzag, which numbers 0, -1, 1, -2 and so on |
| Varint.FixedRoundTrip | Musgravite/Pods/nanopb/pb_encode.c:607-632 | little-endian numbers of n bytes come back, leaving what follows |
| PbTypes.FieldIter.constructor | Musgravite/Pods/nanopb/pb_common.c:8-18 | the iterator starts at the first field with the pointers of a fresh scan |
| PbTypes.FieldIter.Begin | Musgravite/Pods/nanopb/pb_common.c:8-18 | back to the first field; tells whether the message type has fields |
| PbTypes.FieldIter.Next | Musgravite/Pods/nanopb/pb_common.c:20-76 | one field forward or back to the first; data pointer, size pointer and required index stay those of a fresh scan |
| PbTypes.FieldIter.Find | Musgravite/Pods/nanopb/pb_common.c:78-95 | terminates from any position; true if and only if a non-extension field has the tag; stops at the first match of the cycle; a failed search ends where it started |
| PbTypes.OffsetIdentifiesSlot | Musgravite/Pods/nanopb/pb_common.c:20-76 | two fields have the same data pointer if and only if they are members of one oneof |
| PbTypes.SizeOffsetOfField | Musgravite/Pods/nanopb/pb_encode.c:307-392 | the size pointer of the iterator is the offset the encoder computes from the field alone, when the members of a oneof share one |
| PbStream.IStream.Read | Musgravite/Pods/nanopb/pb_decode.c:100-132 | all of the bytes or none; the rest stays to be read |
| PbStream.IStream.ReadByte | Musgravite/Pods/nanopb/pb_decode.c:136-152 | one byte, if there is one |
| PbStream.ReadVarint32 | Musgravite/Pods/nanopb/pb_decode.c:182-242 | computes the 32-bit decoder's specification; end of file is reported exactly on empty input |
| PbStream.ReadVarint64 | Musgravite/Pods/nanopb/pb_decode.c:250-270 | shifting and or-ing groups gives the number the groups denote, modulo 2^64, from at most ten bytes |
| PbStream.OrGroup64 | Musgravite/Pods/nanopb/pb_decode.c:262-267 | or-ing the next group into the 64-bit result adds it at its place |
| PbStream.SkipVarintBytes | Musgravite/Pods/nanopb/pb_decode.c:273-282 | skips to behind the first byte without continuation bit |
| PbStream.ReadFixed | Musgravite/Pods/nanopb/pb_decode.c:1254-1286 | the number of n little-endian bytes |
| PbStream.MakeSubstream | Musgravite/Pods/nanopb/pb_decode.c:367-380 | a substream over exactly the prefixed bytes |
| PbStream.CloseSubstream | Musgravite/Pods/nanopb/pb_decode.c:382-395 | the stream continues behind the substream, whatever it left |
| PbDecoder.ReadScalar | Musgravite/Pods/nanopb/pb_decode.c:1289-1383 | the value of the type's specification, rejecting what the member cannot hold |
| PbDecoder.CastKeeps | Musgravite/Pods/nanopb/pb_decode.c:1303-1320 | the clamped value equals the decoded one if and only if the member can hold it |
| PbDecoder.ReadBytes | Musgravite/Pods/nanopb/pb_decode.c:1391-1508 | bytes, strings and fixed-length bytes, with their length checks |
| PbDecoder.SetToDefaults | Musgravite/Pods/nanopb/pb_decode.c:812-895 | every member gets its default, whatever the struct held |
| PbDecoder.InitialCell | Musgravite/Pods/nanopb/pb_decode.c:812-882 | the default of one field |
| PbDecoder.CheckRequired | Musgravite/Pods/nanopb/pb_decode.c:1006-1046 | the word and remainder test on the bit mask succeeds if and only if each of the first 64 required fields is in the set of seen ones |
| PbDecoder.WordIs | Musgravite/Pods/nanopb/pb_decode.c:1022-1044 | a word equals the shifted mask if and only if all its indices were seen |
| PbDecoder.SetBit | Musgravite/Pods/nanopb/pb_decode.c:988-993 | setting a bit of the mask adds the required index to the set |
| PbDecoder.ReadTag | Musgravite/Pods/nanopb/pb_decode.c:293-314 | tag and wire type; end of input and a zero tag are told apart from errors |
| PbDecoder.Skip | Musgravite/Pods/nanopb/pb_decode.c:316-326 | skips a payload by its wire type |
| PbDecoder.ReadSubmessage | Musgravite/Pods/nanopb/pb_decode.c:1463-1485 | decodes into the prior value, or into defaults for an array entry, and leaves the stream behind the submessage |
| PbDecoder.DecodeField | Musgravite/Pods/nanopb/pb_decode.c:401-475 | one value or packed run into the member of the field; no other member changes |
| PbDecoder.DecodePacked | Musgravite/Pods/nanopb/pb_decode.c:419-444 | entries are appended while there is room; the run must be used up |
| PbDecoder.DecodeRecord | Musgravite/Pods/nanopb/pb_decode.c:933-1004 | finds the field from wherever the last search ended, which makes no difference; skips unknown fields |
| PbDecoder.FoundIs | Musgravite/Pods/nanopb/pb_common.c:78-95 | with distinct tags the result of a search does not depend on where it starts |
| PbDecoder.ReleaseUnionField | Musgravite/Pods/nanopb/pb_decode.c:1104-1129 | before a member of a oneof is decoded, another tag in its union must name a field; the iterator ends where it was |
| PbDecoder.DecodeNoinit | Musgravite/Pods/nanopb/pb_decode.c:901-1049 | accepts exactly what the specification accepts and leaves its struct and its rest of the input; rejects if and only if a record is bad or one of the first 64 required fields has no record |
| PbDecoder.Decode | Musgravite/Pods/nanopb/pb_decode.c:1051-1063 | the same from the defaults |
| PbDecoder.DecodeDelimited | Musgravite/Pods/nanopb/pb_decode.c:1065-1093 | the same behind a length; on success the stream is at the byte after the message |
| PbEncoder.OStream.Write | Musgravite/Pods/nanopb/pb_encode.c:101-119 | counts in a sizing pass; otherwise writes all bytes or, if they do not fit, none |
| PbEncoder.OStream.BufWrite | Musgravite/Pods/nanopb/pb_encode.c:72-82 | the bytes go to the position and nowhere else |
| PbEncoder.WriteVarint | Musgravite/Pods/nanopb/pb_encode.c:574-594 | the groups built in the ten-byte buffer are the varint |
| PbEncoder.WriteTag | Musgravite/Pods/nanopb/pb_encode.c:635-639 | tag and wire type or-ed into one varint |
| PbEncoder.WriteFixed | Musgravite/Pods/nanopb/pb_encode.c:607-632 | the little-endian bytes |
| PbEncoder.WriteString | Musgravite/Pods/nanopb/pb_encode.c:674-680 | length and bytes, or failure when they do not fit |
| PbEncoder.WriteScalar | Musgravite/Pods/nanopb/pb_encode.c:734-808 | the encoding of the member's value; an invalid data_size fails |
| PbEncoder.StringLength | Musgravite/Pods/nanopb/pb_encode.c:831-855 | the string ends at its first NUL or at the end of its array |
| PbEncodeSpec.StrnLen | Musgravite/Pods/nanopb/pb_encode.c:831-855 | no byte before the length is NUL, and the length is the position of a NUL, the maximum, or all there is |
| PbEncoder.WriteValue | Musgravite/Pods/nanopb/pb_encode.c:734-868 | the payload of any field type |
| PbEncoder.PackedSize | Musgravite/Pods/nanopb/pb_encode.c:140-172 | the announced size of a packed run is the number of bytes of its entries |
| PbEncoder.WriteArray | Musgravite/Pods/nanopb/pb_encode.c:126-211 | packed run or tagged entries; too many entries fail |
| PbEncoder.WritePacked | Musgravite/Pods/nanopb/pb_encode.c:136-186 | tag, size and entries, of which a sizing pass only counts the last |
| PbEncoder.CheckDefault | Musgravite/Pods/nanopb/pb_encode.c:215-303 | tells exactly the members that are at their proto3 zero |
| PbEncoder.CheckAllDefault | Musgravite/Pods/nanopb/pb_encode.c:262-280 | a submessage is zero if and only if all its fields are |
| PbEncoder.WriteField | Musgravite/Pods/nanopb/pb_encode.c:307-392 | the record of a member, or nothing when it is absent |
| PbEncoder.Encode | Musgravite/Pods/nanopb/pb_encode.c:494-516 | writes, or in a sizing pass counts, exactly the specified bytes; succeeds if and only if they exist and fit |
| PbEncoder.EncodeSubmessage | Musgravite/Pods/nanopb/pb_encode.c:682-730 | the second pass writes exactly the size the first announced, so the "submsg size changed" check never fires |
| PbEncoder.EncodedSize | Musgravite/Pods/nanopb/pb_encode.c:533-542 | the size is the number of bytes the writing pass emits |
| PbEncoder.EncodeToBuffer | Musgravite/Pods/nanopb/pb_encode.c:494-516 | encoding into a buffer succeeds if and only if sizing does with a size at most its length; the rest of the buffer is unchanged |
| DtlsFragment.FragmentRoundTrip | Musgravite/Pods/BoringSSL-GRPC/ssl/d1_both.cc:459-473 | a fragment is parsed back to its header and body, leaving what follows |
| DtlsFragment.BitRangeBits | Musgravite/Pods/BoringSSL-GRPC/ssl/d1_both.cc:203-205 | the bits of `bit_range` are those from start to end |
| DtlsFragment.MarkRange | Musgravite/Pods/BoringSSL-GRPC/ssl/d1_both.cc:211-251 | marks exactly the range, sets no bit at or past the length, and reports completion if and only if every position is marked |
| DtlsFragment.SetRange | Musgravite/Pods/BoringSSL-GRPC/ssl/d1_both.cc:226-236 | the byte-wise marking adds exactly the positions of the range |
| DtlsFragment.IsComplete | Musgravite/Pods/BoringSSL-GRPC/ssl/d1_both.cc:238-247 | the byte-wise check holds if and only if every position is marked |
| DtlsFragment.FragmentParsesExactly | Musgravite/Pods/BoringSSL-GRPC/ssl/d1_both.cc:459-473 | a record starts with a fragment if and only if it starts with the bytes of its header and body |
| DtlsFragment.HeaderLayout | Musgravite/Pods/BoringSSL-GRPC/ssl/d1_both.cc:459-473 | the twelve bytes of the header, each number with its most significant byte first |
| DtlsReceiveSpec.FragmentsAgree | Musgravite/Pods/BoringSSL-GRPC/ssl/d1_both.cc:265-404 | after one fragment of a message of the window, another of it is accepted if and only if it lies within the message, the length limit holds, and type and length agree |
| DtlsReceiveSpec.DeliverKeeps | Musgravite/Pods/BoringSSL-GRPC/ssl/d1_both.cc:393-402 | a fragment replaces the bytes at its positions and no others, and none of a complete message |
| DtlsReceiver.HmFragment.constructor | Musgravite/Pods/BoringSSL-GRPC/ssl/d1_both.cc:152-199 | a new message has its header and no bytes; the bit mask is absent if it is empty |
| DtlsReceiver.HmFragment.Insert | Musgravite/Pods/BoringSSL-GRPC/ssl/d1_both.cc:400-402 | the bytes go to their positions; the mask becomes null if and only if all have been received |
| DtlsReceiver.Receiver.constructor | Musgravite/Pods/BoringSSL-GRPC/ssl/d1_lib.cc:81-104 | a new connection holds no messages, no ChangeCipherSpec and read epoch 0 |
| DtlsReceiver.Receiver.GetIncoming | Musgravite/Pods/BoringSSL-GRPC/ssl/d1_both.cc:265-295 | the slot of the sequence number, filled if empty; the assertion on its sequence number holds; null exactly outside the window or on a mismatch |
| DtlsReceiver.Receiver.OpenFragment | Musgravite/Pods/BoringSSL-GRPC/ssl/d1_both.cc:363-404 | one fragment does to the ring what the specification does to the map of messages |
| DtlsReceiver.Receiver.OpenRecord | Musgravite/Pods/BoringSSL-GRPC/ssl/d1_both.cc:350-406 | the fragments of a record, in order |
| DtlsReceiver.Receiver.OpenHandshake | Musgravite/Pods/BoringSSL-GRPC/ssl/d1_both.cc:297-406 | handshake records, ChangeCipherSpec and early application data by content type and encryption |
| DtlsReceiver.Receiver.GetMessage | Musgravite/Pods/BoringSSL-GRPC/ssl/d1_both.cc:408-424 | returns the type and body of the next message if and only if it is complete |
| DtlsReceiver.Receiver.NextMessage | Musgravite/Pods/BoringSSL-GRPC/ssl/d1_both.cc:426-438 | frees exactly the slot of the consumed message and moves the window by one |
| DtlsReceiver.Receiver.OpenChangeCipherSpec | Musgravite/Pods/BoringSSL-GRPC/ssl/d1_both.cc:475-491 | succeeds exactly when a ChangeCipherSpec is waiting or the record is one, which is then taken; the fragments of a handshake record are handled first and the record is then dropped |
| DtlsReceiver.Receiver.HasUnprocessed | Musgravite/Pods/BoringSSL-GRPC/ssl/d1_both.cc:440-457 | true if and only if a ChangeCipherSpec or any message besides the one handed out is held |
| DtlsReceiver.Receiver.SetReadState | Musgravite/Pods/BoringSSL-GRPC/ssl/dtls_method.cc:81-95 | refused if and only if a ChangeCipherSpec waits or a message besides the one handed out is held; otherwise epoch, window and cipher change together |
| DtlsReceiver.CollectUpdate | Musgravite/Pods/BoringSSL-GRPC/ssl/d1_both.cc:273-294 | the ring as a map: filling the slot of a number changes the entry of that number only |
| DtlsReceiver.CollectNext | Musgravite/Pods/BoringSSL-GRPC/ssl/d1_both.cc:426-432 | emptying the slot of the consumed message removes it and no other message |
| DtlsReceiver.RingInjective | Musgravite/Pods/BoringSSL-GRPC/ssl/d1_both.cc:273-276 | the sequence numbers of a window have different slots |
| DtlsEndToEnd.StepKeeps | Musgravite/Pods/BoringSSL-GRPC/ssl/d1_both.cc:297-438 | every event - arrivals, looking, taking, ChangeCipherSpecs, read-epoch changes - keeps: output is a prefix of what was sent, and every message being assembled holds exactly the sender's bytes at the arrived positions |
| DtlsEndToEnd.MessagesArrive | Musgravite/Pods/BoringSSL-GRPC/ssl/d1_both.cc:297-438 | over any run of lost, repeated and reordered fragments of any sizes and read-epoch changes the messages handed out are the sender's, once and in order; the next one is ready if and only if the arrivals cover it, and is the sender's |
| DtlsEndToEnd.WhenRejected | Musgravite/Pods/BoringSSL-GRPC/ssl/d1_both.cc:365-391 | a genuine fragment is rejected if and only if it is too long for the limit, in the first encrypted epoch not of the next message, or just behind the window |
| DtlsEndToEnd.RunSucceeds | Musgravite/Pods/BoringSSL-GRPC/ssl/d1_both.cc:365-391 | no run of short enough messages of one flight is rejected, whatever the order; in the first encrypted epoch, of the next message |
| DtlsEndToEnd.EpochChangeIsClean | Musgravite/Pods/BoringSSL-GRPC/ssl/dtls_method.cc:81-88 | the read epoch change is refused if and only if a ChangeCipherSpec waits or a message is held that has not been handed out; afterwards none waits and only the complete current message is held |
| DtlsEndToEnd.ChangeCipherSpecWaits | Musgravite/Pods/BoringSSL-GRPC/ssl/d1_both.cc:315-336 | an encrypted ChangeCipherSpec is an error; an unencrypted one waits, and blocks a change of the read epoch, until it is taken |
| DtlsEndToEnd.OneEpochPerMessage | Musgravite/Pods/BoringSSL-GRPC/ssl/dtls_method.cc:81-95 | no message is put together from fragments of two read epochs |
| DtlsFlight.FinishMessage | Musgravite/Pods/BoringSSL-GRPC/ssl/d1_both.cc:525-537 | the header is completed in place; fails on less than a header |
| DtlsFlight.FinishedIsWellFormed | Musgravite/Pods/BoringSSL-GRPC/ssl/d1_both.cc:511-537 | a built message is one whole fragment with its own type, length and sequence number |
| DtlsFlight.WalkCarries | Musgravite/Pods/BoringSSL-GRPC/ssl/d1_both.cc:644-734 | the pieces between two positions carry every body contiguously and in order |
| DtlsFlight.WalkProgress | Musgravite/Pods/BoringSSL-GRPC/ssl/d1_both.cc:782-807 | every piece moves the position forward by messages left, then body bytes left |
| DtlsFlight.FlightCarriesAll | Musgravite/Pods/BoringSSL-GRPC/ssl/d1_both.cc:644-780 | the pieces of a whole flight carry every body exactly once and every ChangeCipherSpec in one record |
| DtlsFlight.WalkCovers | Musgravite/Pods/BoringSSL-GRPC/ssl/d1_both.cc:644-734 | every byte of a message is in some piece |
| DtlsSendSpec.SealNextCarries | Musgravite/Pods/BoringSSL-GRPC/ssl/d1_both.cc:644-734 | a record sealed is the next piece at the position, sealed for the epoch of its message under a number of that epoch, and fits; the position moves |
| DtlsSendSpec.SealNextStops | Musgravite/Pods/BoringSSL-GRPC/ssl/d1_both.cc:649-701 | a message of a stale epoch or malformed is an error; there is no progress if and only if a sendable message has less room than the headers, the overhead of its cipher and one byte |
| DtlsSendSpec.CutIsFull | Musgravite/Pods/BoringSSL-GRPC/ssl/d1_both.cc:698-709 | a message is cut only where the buffer is full |
| DtlsSendSpec.PacketIsNext | Musgravite/Pods/BoringSSL-GRPC/ssl/d1_both.cc:739-780 | the records of a packet are consecutive pieces from the position to the new one within the buffer; a packet that could be sealed ends with the flight, a message cut, or a message that has no room |
| DtlsSendSpec.FlightIsNext | Musgravite/Pods/BoringSSL-GRPC/ssl/d1_both.cc:782-827 | whatever the transport answers, the packets it took carry the pieces from the position on, once and in order and within the MTU; pieces given up lie between those and the position the call leaves |
| DtlsSendSpec.FlightResult | Musgravite/Pods/BoringSSL-GRPC/ssl/d1_both.cc:782-827 | success only if the transport accepted everything and the end was reached; a refusal is the transport's; too small an MTU has no room for the next message |
| DtlsSendSpec.GivesUpExactly | Musgravite/Pods/BoringSSL-GRPC/ssl/d1_both.cc:749-758 | a call gives pieces up if and only if a seal failed that was not the first of its packet |
| DtlsSendSpec.GivesUpOnlyBehind | Musgravite/Pods/BoringSSL-GRPC/ssl/d1_both.cc:749-758 | if the ciphers seal plaintexts up to the MTU and the counters have room, a call gives something up only if the message at the position can be sent and a later one is of a stale epoch or malformed |
| DtlsSendSpec.GivesUpExactlyBehind | Musgravite/Pods/BoringSSL-GRPC/ssl/d1_both.cc:782-827 | if also the messages that can be sent have room and the transport accepts everything, something is given up if and only if that is so, and the call succeeds if and only if every message left can be sent |
| DtlsSendSpec.PacketNumbers | Musgravite/Pods/BoringSSL-GRPC/ssl/d1_both.cc:739-780 | the records of a packet carry numbers used up in order behind those of all records before |
| DtlsSendSpec.FlightNumbers | Musgravite/Pods/BoringSSL-GRPC/ssl/d1_both.cc:782-827 | the records of the packets sent, by this call and before, carry pairs used up in order; a number spent on a packet that was not sent is not used again |
| DtlsSendSpec.FlightSpends | Musgravite/Pods/BoringSSL-GRPC/ssl/d1_both.cc:782-827 | every record costs a number, whether it is sent, given up or in a packet that is refused |
| DtlsSendSpec.HealthyGivesUpNothing | Musgravite/Pods/BoringSSL-GRPC/ssl/d1_both.cc:782-827 | if every message from the position on is of a live epoch and well formed, the ciphers seal plaintexts up to the MTU and the counters have room for messages and bytes left, no call gives anything up |
| DtlsSendSpec.HealthyGoesOut | Musgravite/Pods/BoringSSL-GRPC/ssl/d1_both.cc:782-827 | if also every message has room in an empty packet and the transport accepts everything, the flight goes out |
| DtlsSender.Sender.SealNextMessage | Musgravite/Pods/BoringSSL-GRPC/ssl/d1_both.cc:644-734 | computes exactly the next seal of the specification, with its numbers and offset |
| DtlsSender.Sender.SealNextPacket | Musgravite/Pods/BoringSSL-GRPC/ssl/d1_both.cc:739-780 | computes exactly the packet of the specification; what was sealed before a failure stays behind the position |
| DtlsSender.Sender.SendFlight | Musgravite/Pods/BoringSSL-GRPC/ssl/d1_both.cc:782-827 | computes exactly the flight of the specification for every sequence of answers: result, packets, position, numbers, and what was given up; terminates |
| DtlsSender.Sender.AddOutgoing | Musgravite/Pods/BoringSSL-GRPC/ssl/d1_both.cc:557-594 | the first message of a new flight discards the old flight; at most seven; numbered unless ChangeCipherSpec |
| DtlsSender.Sender.FlushFlight | Musgravite/Pods/BoringSSL-GRPC/ssl/d1_both.cc:829-834 | marks the flight complete and sends from the current position; gives nothing up if what is left can be sealed; the records in the transport keep carrying numbers used up once each |
| DtlsSender.Sender.Retransmit | Musgravite/Pods/BoringSSL-GRPC/ssl/d1_both.cc:836-845 | sends the whole flight from its start under new numbers; gives nothing up if it can be sealed |
| DtlsSender.SentAccounts | Musgravite/Pods/BoringSSL-GRPC/ssl/d1_both.cc:782-807 | sending pieces keeps the account: bytes sent and given up of each message are those before the position |
| DtlsSender.FlightSent | Musgravite/Pods/BoringSSL-GRPC/ssl/d1_both.cc:782-827 | once a flight is through, every message has been delivered, once and in order, if and only if nothing was given up |
| DtlsSender.LosesChangeCipherSpec | Musgravite/Pods/BoringSSL-GRPC/ssl/d1_both.cc:749-758 | for every cipher that seals and every MTU of at least 228 there is a sender whose counter overflows behind a ChangeCipherSpec: its first call fails, its second succeeds, and the ChangeCipherSpec is never sent |
| DtlsDelivery.PieceArrives | Musgravite/Pods/BoringSSL-GRPC/ssl/d1_both.cc:689-709 | the record made for a piece is received as the fragment of the queued message that it is |
| DtlsDelivery.PieceIsOpened | Musgravite/Pods/BoringSSL-GRPC/ssl/dtls_record.cc:177-272 | the record sealed for a piece, of either live epoch, is handed out with the piece by a reader of its epoch whose cipher suits the version and whose window does not discard it |
| DtlsDelivery.RunHolds | Musgravite/Pods/BoringSSL-GRPC/ssl/d1_both.cc:380-402 | what has arrived of a message in the window stays until it is consumed |
| DtlsDelivery.FlightArrives | Musgravite/Pods/BoringSSL-GRPC/ssl/d1_both.cc:297-438 | however a flight was cut, once all records of a message have arrived in the window it is ready when its turn comes |
| DtlsNetwork.OpenNextRecord | Musgravite/Pods/BoringSSL-GRPC/ssl/d1_both.cc:297-406 | opens the record at the front of the input and does with it exactly what the record layer and the handshake specify |
| DtlsNetwork.NetStepRefines | Musgravite/Pods/BoringSSL-GRPC/ssl/d1_both.cc:297-406 | reading a datagram, opening a record and every step of the handshake are arrivals of fragments the sender queued, or nothing |
| DtlsNetwork.NetworkDelivers | Musgravite/Pods/BoringSSL-GRPC/ssl/handshake.cc:491-547 | over every run of datagrams that are lost, repeated, reordered, cut off or foreign, short of a forged handshake record, the messages handed out are the sender's, once and in order, and the next is ready if and only if the opened records cover it |
| DtlsNetwork.FlightGetsThrough | Musgravite/Pods/BoringSSL-GRPC/ssl/handshake.cc:491-547 | however a flight was cut, a message is ready at its turn once a record of each of its pieces was at the front of a datagram's rest, in the epoch of the message and past the replay window |
| DtlsNetwork.SentIsAuthentic | Musgravite/Pods/BoringSSL-GRPC/ssl/d1_both.cc:782-827 | every packet of a flight that the transport took consists of records of queued messages that the reader can parse, and no other handshake record |
| DtlsNetwork.PieceIsHandled | Musgravite/Pods/BoringSSL-GRPC/ssl/d1_both.cc:297-406 | the receiver does with a part of a message or a ChangeCipherSpec of the flight exactly what the step of its arrival does, errors included |
| DtlsNetwork.OtherRecords | Musgravite/Pods/BoringSSL-GRPC/ssl/d1_both.cc:307-316 | encrypted application data changes nothing; unencrypted, or of any other type, it ends the connection |
| DtlsNetwork.RecordArrives | Musgravite/Pods/BoringSSL-GRPC/ssl/dtls_record.cc:177-272 | the record of a piece that reaches its reader in its epoch and past the window is the arrival of that piece |
| DtlsNetwork.NetOpensOnce | Musgravite/Pods/BoringSSL-GRPC/ssl/dtls_record.cc:177-272 | no record number is opened twice over such a run |
| DtlsNumbers.SealedNumbersAreFresh | Musgravite/Pods/BoringSSL-GRPC/ssl/dtls_record.cc:294-351 | over any run of seals that succeed or fail, in either live epoch, and of epoch changes, no (epoch, number) pair is sealed twice before the first overflow |
| DtlsNumbers.DoKeepsFresh | Musgravite/Pods/BoringSSL-GRPC/ssl/dtls_method.cc:97-107 | what one seal or epoch change keeps: used numbers lie below the counters |
| DtlsNumbers.FewAttemptsAreFresh | Musgravite/Pods/BoringSSL-GRPC/ssl/dtls_record.cc:294-351 | with fewer than 2^48 attempts no counter overflows and no pair is sealed twice |
| DtlsNumbers.OverflowRepeats | Musgravite/Pods/BoringSSL-GRPC/ssl/tls_record.cc:154-163 | past an overflow a pair does repeat, after 2^48 attempts |
| DtlsNumbers.SequenceUpdate | Musgravite/Pods/BoringSSL-GRPC/ssl/tls_record.cc:154-163 | adds one to the big-endian counter; fails and returns to zero if and only if it overflows |
| DtlsReplay.ReplayWindow.constructor | Musgravite/Pods/BoringSSL-GRPC/ssl/dtls_record.cc:138-150 | an empty window stands for the empty set |
| DtlsReplay.ReplayWindow.ShouldDiscard | Musgravite/Pods/BoringSSL-GRPC/ssl/dtls_record.cc:140-150 | a number is discarded if and only if it was recorded or lies 64 or more below a recorded one |
| DtlsReplay.ReplayWindow.Record | Musgravite/Pods/BoringSSL-GRPC/ssl/dtls_record.cc:155-175 | sliding and marking add exactly this number to the set the window stands for |
| DtlsReplay.ReplayWindow.Reset | Musgravite/Pods/BoringSSL-GRPC/ssl/dtls_method.cc:89-91 | the window stands for the empty set again |
| DtlsReplay.NothingAcceptedTwice | Musgravite/Pods/BoringSSL-GRPC/ssl/dtls_record.cc:177-272 | over any run of records and read-epoch changes no (epoch, number) is accepted twice |
| DtlsRecord.RecordRoundTrip | Musgravite/Pods/BoringSSL-GRPC/ssl/dtls_record.cc:186-206 | a record is parsed back from the front of any packet |
| DtlsRecord.RecordWriter.SetWriteState | Musgravite/Pods/BoringSSL-GRPC/ssl/dtls_method.cc:97-107 | the epoch and both counters move together, and the old cipher is kept for the old counter |
| DtlsRecord.RecordWriter.SealRecord | Musgravite/Pods/BoringSSL-GRPC/ssl/dtls_record.cc:294-351 | succeeds exactly when the cipher does, its output fits and a number is left; the record carries the number used up and what the cipher makes of the plaintext under it |
| DtlsRecord.WriterNumbersFresh | Musgravite/Pods/BoringSSL-GRPC/ssl/dtls_record.cc:294-351 | no two records of a writer carry the same epoch and number, however it was used, before a counter overflows and so for 2^48 attempts |
| DtlsRecord.RecordNumbersDistinct | Musgravite/Pods/BoringSSL-GRPC/ssl/dtls_record.cc:294-351 | records sent with pairs a writer used up in order carry pairwise distinct numbers, before a counter overflows |
| DtlsRecord.RecordReader.SetReadState | Musgravite/Pods/BoringSSL-GRPC/ssl/dtls_method.cc:81-95 | a new epoch starts with an empty window |
| DtlsRecord.RecordReader.OpenRecord | Musgravite/Pods/BoringSSL-GRPC/ssl/dtls_record.cc:177-272 | computes exactly the result, the bytes consumed and the new state of the specification; any DTLS version without a cipher and only its own with one; unless a record is handed out the window is unchanged |
| DtlsRecord.OpeningAccepts | Musgravite/Pods/BoringSSL-GRPC/ssl/dtls_record.cc:177-272 | a record is handed out if and only if it is well formed, of the right version, and accepted by epoch, window and cipher; otherwise nothing changes |
| DtlsRecord.RecordParsesExactly | Musgravite/Pods/BoringSSL-GRPC/ssl/dtls_record.cc:190-206 | a packet starts with a record if and only if it starts with the record's bytes and its body is at most 16704 bytes |
| DtlsRecord.RecordLayout | Musgravite/Pods/BoringSSL-GRPC/ssl/dtls_record.cc:186-206 | the thirteen bytes of the header |
| DtlsRecord.RecordOpens | Musgravite/Pods/BoringSSL-GRPC/ssl/dtls_record.cc:177-272 | the result, the bytes consumed and the new window for every well-formed record: a version other than 0xFExx without a cipher, or than the cipher's, drops the packet; another epoch, a replay, a number 64 or more behind and a failed open drop the record; too long a plaintext is an error |
| DtlsRecord.SealedOpens | Musgravite/Pods/BoringSSL-GRPC/ssl/dtls_record.cc:177-272 | a record sealed with the reader's cipher is handed out with its plaintext if and only if its version is 0xFE00 to 0xFEFF without a cipher or the cipher's own with one, the number is of the epoch, the window does not discard it and the plaintext is not too long; what else is returned |
| Refcount.CountIsLive | Musgravite/Pods/BoringSSL-GRPC/crypto/refcount_c11.c:37-65 | in every interleaving with any spurious failures: no abort, the count is the live references until it saturates and then stays at the maximum, and one decrement returns 1 exactly when the last reference goes |
| Refcount.StepKeeps | Musgravite/Pods/BoringSSL-GRPC/crypto/refcount_c11.c:37-65 | what every atomic step keeps |
| Refcount.StepRefines | Musgravite/Pods/BoringSSL-GRPC/crypto/refcount_c11.c:37-65 | every step completes no operation and leaves the count, or completes one operation of the atomic specification with its result |
| Refcount.Run | Musgravite/Pods/BoringSSL-GRPC/crypto/refcount_c11.c:37-65 | the invariant holds after every run; a saturated count stays saturated |
| Refcount.AtomicCount.Inc | Musgravite/Pods/BoringSSL-GRPC/crypto/refcount_c11.c:37-47 | the compare-exchange loop takes effect once, on the count as the other threads left it |
| Refcount.AtomicCount.DecAndTestZero | Musgravite/Pods/BoringSSL-GRPC/crypto/refcount_c11.c:49-65 | the same; returns 1 if and only if it took the count from 1 to 0, and aborts only on a count of 0 |
| Refcount.AtomicCount.CompareExchangeWeak | Musgravite/Pods/BoringSSL-GRPC/crypto/refcount_c11.c:42-44 | exchanges on equality, unless it fails spuriously; on failure returns the value seen |
| Refcount.LockedCount.Inc | Musgravite/Pods/BoringSSL-GRPC/crypto/refcount_lock.c:29-35 | the same specification under the lock |
| Refcount.LockedCount.DecAndTestZero | Musgravite/Pods/BoringSSL-GRPC/crypto/refcount_lock.c:37-51 | the same specification under the lock; aborts if and only if the count is 0 |
| TlsFraming.MessagesSurvive | Musgravite/Pods/BoringSSL-GRPC/ssl/s3_both.cc:184-205 | for any fragment limit, and any other division of the bytes into records, the message sequence is recovered from the stream |
| TlsFraming.ChunksCover | Musgravite/Pods/BoringSSL-GRPC/ssl/s3_both.cc:184-205 | the chunks make up the message, none exceeds the limit, and only an empty message has an empty one |
| TlsFraming.ChunksAreFull | Musgravite/Pods/BoringSSL-GRPC/ssl/s3_both.cc:184-205 | all chunks but the last are as long as the limit allows |
| TlsFraming.FoundExactly | Musgravite/Pods/BoringSSL-GRPC/ssl/s3_both.cc:399-425 | a message is found if and only if the buffer starts with its type, length and body |
| TlsFraming.PrefixNeeds | Musgravite/Pods/BoringSSL-GRPC/ssl/s3_both.cc:399-425 | of an incomplete message the header is asked for first, then the whole |
| TlsFraming.FlightWriter.AddRecord | Musgravite/Pods/BoringSSL-GRPC/ssl/s3_both.cc:135-165 | appends exactly the sealed record, or leaves the flight as it was if and only if sealing fails |
| TlsFraming.FlightWriter.AddMessage | Musgravite/Pods/BoringSSL-GRPC/ssl/s3_both.cc:184-205 | appends the chunks of the message in order; on failure those before the first that cannot be sealed |
| TlsFraming.FlightWriter.AddChangeCipherSpec | Musgravite/Pods/BoringSSL-GRPC/ssl/s3_both.cc:207-219 | appends one ChangeCipherSpec record, if and only if it can be sealed |
| TlsFraming.FlightWriter.FlushFlight | Musgravite/Pods/BoringSSL-GRPC/ssl/s3_both.cc:231-279 | for any pattern of short and failed writes over any number of calls the flight goes out exactly once and in order; the result is the transport's last refusal or success |
| TlsFraming.MessageRoundTrip | Musgravite/Pods/BoringSSL-GRPC/ssl/s3_both.cc:399-425 | a message is parsed back from the front of any buffer |
| TlsFraming.ParseAllAppend | Musgravite/Pods/BoringSSL-GRPC/ssl/s3_both.cc:562-583 | parsing more of the stream goes on from what was left, so record boundaries do not matter |
| TlsFraming.EncodeRoundTrip | Musgravite/Pods/BoringSSL-GRPC/ssl/s3_both.cc:399-425 | the stream of a message sequence is parsed to that sequence with nothing left |
| TlsFraming.HandshakeReader.CanAccept | Musgravite/Pods/BoringSSL-GRPC/ssl/s3_both.cc:441-459 | data is accepted if and only if there is no complete message and the next one is within the limit |
| TlsFraming.HandshakeReader.Append | Musgravite/Pods/BoringSSL-GRPC/ssl/s3_both.cc:553-559 | the record's bytes are appended; a message that was complete stays the current one |
| TlsFraming.HandshakeReader.GetMessage | Musgravite/Pods/BoringSSL-GRPC/ssl/s3_both.cc:427-439 | the next message of the stream; when there is none everything complete has been consumed |
| TlsFraming.HandshakeReader.NextMessage | Musgravite/Pods/BoringSSL-GRPC/ssl/s3_both.cc:562-583 | shifts exactly the current message out of the buffer |
| TlsFraming.HandshakeReader.HasUnprocessed | Musgravite/Pods/BoringSSL-GRPC/ssl/s3_both.cc:461-472 | tells whether there are bytes beyond the message handed out |
| TlsFraming.ReadRecords | Musgravite/Pods/BoringSSL-GRPC/ssl/s3_both.cc:427-439 | repeated get and next over any division into records return all messages of the stream |

## Left out

- nanopb callback, pointer and extension fields, fixed-count arrays, streams other than buffers, and
  error texts: only statically allocated fields and buffer streams are modelled.
- The contents of a struct after a failed decode, and the bytes of a buffer after a failed encode within
  the room the stream had: only what lies outside that room is stated.
- Nested structs are values: a submessage is written back into its parent when it has been decoded, so
  aliasing between a struct and its parts is not captured. The same goes for the bytes of outgoing
  packets and of incoming records, which are sequences.
- Bytes the C code never looks at (after the NUL of a string, beyond an array's count, in an empty union)
  are not represented.
- Overflow of `size_t` in length checks; the models use unbounded sizes below 2^32 or 2^64 as stated.
- PbMerge.PackedEqualsUnpacked: states agreement from the same struct and for a run shorter than 2^32
  bytes, the largest length the decoder reads.
- PbRoundTrip.RoundTrip: assumes an encoding shorter than 2^32 bytes, strings that leave room for their NUL, and
  absent optional members at their default, because the decoder cannot rebuild anything else.
- PbEncoder.Encode: assumes descriptors without extension fields and with distinct tags, as every generated
  descriptor without extensions has.
- DtlsEndToEnd.MessagesArrive: speaks about runs in which no event ends the connection; `WhenRejected` and
  `EpochChangeIsClean` say exactly which do, and `RunSucceeds` gives runs without any. `handshake_read_seq`
  does not wrap.
- PbStructMerge.MessageMerges: assumes an encoding shorter than 2^32 bytes, as `RoundTrip` does.
- PbEvolution.NewFieldsIgnored: the types of the fields that both know, submessages included, are the same on both
  sides, and the newer type keeps their order.
- DtlsNetwork.NetworkDelivers: assumes that nobody forges a handshake record that opens, as the AEAD promises from
  epoch 1 on. An alert ends the connection, and a datagram fits the read buffer.
- DtlsNumbers.SealedNumbersAreFresh: assumes fewer than 2^16 epoch changes, and stops at the first counter overflow,
  after which it is false.
- AEAD internals, the transcript hash, alerts, message callbacks, timers, MTU discovery, allocation
  failure, the shutdown check of `send_flight` and the write buffer in front of a TLS flight.
- V2ClientHello and the protocol mix-up checks of `ssl3_open_handshake`, and the TLS record layer, of
  which only "a sealed record is some bytes" is used.
- The memory order of the atomic operations: every access is sequentially consistent, as the C11 default
  is. Threads that use a reference they do not hold.
- CPU feature probing, threads and locks, certificates, DTLS-SRTP, the other pods, and the app's own
  view controllers and Firebase calls.
