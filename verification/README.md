# Verified models of MoonMessenger's algorithmic cores

This project models, in Dafny, the parts of the MoonMessenger repository whose correctness rests on
state, loops and interleavings, and proves what they are for.

* **nanopb** (`Basics`, `Bits`, `Wire`, `Scalars`, `Schema`, `EncodeSpec`, `EncodeSize`, `OutputStream`,
  `Encoder`, `FieldIterator`, `InputStream`, `RequiredFields`, `DecodeSpec`, `Decoder`, `Merge`,
  `RoundTrip`, `Presence`, `Overlay`, `Unterminated`, `Reencoding`, `UnknownFields`, `Evolution`,
  `Compatibility`): the table-driven Protocol Buffers encoder and decoder.
  `EncodeSpec` and `DecodeSpec` say what is written and read as functions on byte strings; the classes
  and methods of `OutputStream`, `InputStream`, `FieldIterator`, `Encoder`, `RequiredFields` and
  `Decoder` have the structure of the C code (sizing streams, substreams, the cyclic iterator, the
  bitmap) and are proved to compute these functions. The other modules say what the functions mean:
  which fields are written, what decoding makes of whatever was encoded on top of whatever the
  destination holds, and what readers with other schemas make of it.
* **Nuke's DataCache** (`Staging`, `WriteBehind`, `Reads`, `DataCaching`): the write-behind protocol as
  a state machine over atomic steps, with theorems about all interleavings, and the class whose methods
  are those steps.
* **Nuke's memory cache** (`Lru`, `Subsequences`, `LruRuns`, `Lookups`, `CostLimitExample`, `RecencyList`,
  `ImageCaching`): the doubly linked list, the class that keeps dictionary, list and total in agreement,
  and the eviction policy on sequences.
* **The message list** (`Sections`, `Snapshots`, `Corners`, `DataBuilding`): incremental grouping of messages into
  sections.
* **The progressive JPEG scanner** (`JpegScanning`).

`dafny verify dfyconfig.toml` checks everything.

## Readings of the code

* nanopb is modelled as it is configured here: 64-bit support, `PB_FIELD_32BIT` (sizes and counts have
  32 bits, a byte array has a four-byte header), 64-bit `size_t`, packed arrays, at most 64 tracked
  required fields. The pods are built with `PB_ENABLE_MALLOC` set to one. Of what that adds, the check of
  the selected oneof member concerns static fields, and is modelled: before a oneof field is decoded, a
  selection that is neither zero nor the number of any field makes the decoder fail
  (`Decoder.ReleaseUnionField`). Varint arithmetic is over natural numbers with explicit wrap-around;
  `Or` and `Shl` are defined bit by bit and linked to addition.
* Schemas satisfy what the generator guarantees: field numbers are distinct and below 2^29, string
  fields have room for a terminator, proto3 fields have zero defaults. A message has the layout of its
  schema, but counts, lengths and string contents may be anything the C types allow.
* An array count above the array size, an oversized byte string or an odd integer size makes the
  encoder fail; an unterminated string does not, but the decoder then refuses the result. The round
  trip therefore holds exactly for terminated strings (`Unterminated.RoundTripExactly`). What the
  decoder produces never has one, if the initial values of required fields have none
  (`Reencoding.DecodedReencodes`).
* A proto3 submessage that is otherwise empty is still written when one of its oneofs holds a number that
  is not that of a member (`Presence.SubmessageExactly`).
* On an empty descriptor the search for field number zero matches the terminator, so that a key from 1
  to 7 is decoded as a bool instead of being skipped. The model does the same.
* `flush(for:)` un-stages an addition even while a removal of everything is still staged, which makes
  the item unreadable and lets the next flush delete it. The model keeps this; runs start such a flush
  only when its guard holds, and the guard is exact: for the undisturbed call
  (`WriteBehind.FlushKeyExact`) and over all continuations (`Reads.FlushesExactly`).
* A sweep may remove a file over which a newer change is staged. A read whose first step came before
  that change can then find nothing although the key had a value all the time. This can happen exactly
  if the key has a file and nothing is staged for it when the read starts (`Reads.ReadsExactly`).
* Raising the count limit never loses a hit as long as only the count limit evicts. A binding cost limit
  or an explicit trim can make the larger cache drop what the smaller one keeps
  (`CostLimitExample.BindingCostLosesHit`); `LruRuns.InclusionExactly` says when.
* `trim(toCost:)` is documented to end below the limit; the code stops at the limit, and so does the
  model. A trim looks at the count limit last, so with negative costs the cost limit can be exceeded
  afterwards (`Lru.NegativeCostEscapes`).
* The message builder compares whole hours with two, so messages less than three hours apart join.
  Its trap for an empty list and the snapshot's trap for repeated items are preconditions.
* The input of the decoder is an immutable sequence, with a position and a number of bytes left.
  Dates are real numbers, expiration times integers, and the current time is a parameter.

## Model

| member | source | states |
|---|---|---|
| Unterminated.RoundTripExactly | MoonMessenger/Pods/nanopb/pb_decode.c:1078-1090 | For every schema with distinct tags below 2^29, every encodable message shorter than 2^32 bytes and every prior state of the destination: decoding the encoder's output succeeds if and only if every string that was written is NUL-terminated inside its buffer; then all bytes are consumed and every present field is restored (nested, packed, oneof and proto3 fields included) |
| Reencoding.DecodedReencodes | MoonMessenger/Pods/nanopb/pb_decode.c:1078-1090 | Whatever the decoder accepts, from any bytes, is a message that the encoder accepts, with every string terminated; below 2^32 bytes, decoding its encoding succeeds, consumes all of it and gives the same message. The only condition on the schema is that the initial values of required fields are encodable and terminated |
| Overlay.MessageMerges | MoonMessenger/Pods/nanopb/pb_decode.c:928-1073 | Decoding an encoded message into a struct that may hold anything, at any depth: succeeds if and only if the strings are terminated, the arrays have room for the items and the selections of the oneofs are known; then all bytes are consumed and the struct holds the message on top of what it held: values are replaced, has_ flags set, items appended, oneofs switched, and submessages merged in the same way |
| Overlay.ConcatenatedExactly | MoonMessenger/Pods/nanopb/pb_decode.c:928-1073 | Two encoded messages, one after the other, are decoded exactly if the first one is and the second one is accepted on top of it; the second is merged into the first |
| Overlay.LastRecordWins | MoonMessenger/Pods/nanopb/pb_decode.c:419-422 | After two encoded messages, a field with one value that is no submessage has the value that the second one writes, and that of the first one if the second does not write it |
| Evolution.NewerMessageRead | MoonMessenger/Pods/nanopb/pb_decode.c:960-991 | A message of a newer schema, read with an older one that has some of its fields: refused if and only if a string that the older schema knows is unterminated; otherwise all that the older schema knows is restored and the rest is passed over |
| Evolution.UnlistedIgnored | MoonMessenger/Pods/nanopb/pb_decode.c:960-991 | What the encoder writes for any field that the decoder does not list (of any type, array or single value), after any complete records of any input, leaves success, message and leftover bytes of the decoder unchanged |
| WriteBehind.RunRefines | MoonMessenger/Pods/Nuke/Sources/DataCache.swift:279-301 | In every interleaving of callers and serial queue, "staging over disk" equals the plain map to which the staged operations were applied in lock order; the flag invariant holds too, so no staged change is stranded |
| Reads.ReadsExactly | MoonMessenger/Pods/Nuke/Sources/DataCache.swift:155-172 | At the end of any run: a two-step read that starts there returns, in every continuation, a value that the plain map had at some moment between its steps, if and only if the key is staged or has no file at the start |
| Reads.FlushesExactly | MoonMessenger/Pods/Nuke/Sources/DataCache.swift:259-265 | At the end of any run, with the queue idle: a flush(for:) that begins there leaves all reads right in every continuation, if and only if its guard holds there: the change staged for the key is no addition, or no removal of everything is staged |
| Merge.UnknownFieldsIgnored | MoonMessenger/Pods/nanopb/pb_decode.c:946-1024 | The same for any record with an unlisted field number: a nonzero key in any accepted form, and a varint of any length, eight bytes, a length prefix and as many bytes, or four bytes, as its wire type demands |
| UnknownFields.UnknownFieldsIgnoredAnywhere | MoonMessenger/Pods/nanopb/pb_decode.c:1519-1541 | The same for a record inserted into the body of a submessage at any depth. The records around it may have any key of their field that the decoder accepts, of any wire type and any number of bytes, and any varint form of the length prefix, which may differ before and after |
| Encoder.EncodeToBuffer | MoonMessenger/Pods/nanopb/pb_encode.c:528-550 | Encoding into a buffer of capacity N succeeds exactly if the message is encodable and its size is at most N; the bytes written are then the full encoding, otherwise a prefix of it, and never go past N |
| Encoder.PbGetEncodedSize | MoonMessenger/Pods/nanopb/pb_encode.c:567-576 | Reports success exactly for encodable messages, and the very number of bytes that encoding into a buffer writes |
| Decoder.PbDecodeNoInit | MoonMessenger/Pods/nanopb/pb_decode.c:928-1073 | The real loop (iterator, bitmap, early stop) computes the decoding function, which succeeds exactly if all records decode and every one of the first 64 required fields occurred; on success position plus bytes left is unchanged |
| LruRuns.InclusionExactly | MoonMessenger/Pods/Nuke/Sources/ImageCache.swift:202-302 | The same calls, trims and changes of limits included, on two caches with any limits: the first holds a subsequence of the second all the time, if and only if at every call that trims, what the second one holds from the oldest entry on that the first one keeps fits the limits of the second |
| Lookups.HitsExactly | MoonMessenger/Pods/Nuke/Sources/ImageCache.swift:202-302 | In every run, whatever the limits, trims and changes of limits: a lookup gives a value if and only if an earlier call stored it for the key, its expiration has not passed, and no call since then stored for the key again, removed it, looked it up too late, or trimmed when the entry and all entries used since did not fit the limits |
| Lookups.OrderIsUse | MoonMessenger/Pods/Nuke/Sources/ImageCache.swift:202-229 | In every run the list is in the order of the last calls that stored or looked up the keys |
| Lookups.EvictsLeastRecent | MoonMessenger/Pods/Nuke/Sources/ImageCache.swift:221-229 | What an insertion evicts was used less recently than everything that is left |
| LruRuns.Inclusion | MoonMessenger/Pods/Nuke/Sources/ImageCache.swift:202-302 | The same value, set, removeValue and removeAll calls on two caches that differ only in their count limit, with a cost limit that is not binding and with entries that may expire: the smaller one always holds a subsequence of the larger one, so a hit in the smaller is a hit with the same value in the larger |
| LruRuns.LimitsHold | MoonMessenger/Pods/Nuke/Sources/ImageCache.swift:158-302 | In every run of public operations, explicit trims and changes of the limits included, with costs and limits that are not negative: keys are distinct and both limits hold after every operation |
| DataBuilding.AddBatches | MoonMessenger/MoonMessenger/Messaging/ChatView.swift:267-272 | Any split of a message list into batches, each built on the snapshot of the one before, shows the same sections, order and corners as one build of the whole list, and the same last seen message |
| Sections.GroupedExactly | MoonMessenger/MoonMessenger/Messaging/DataBuilder.swift:49-84 | The grouping is the one and only partition of the messages into maximal runs, with corners determined by the position in the run |
| Corners.CornersExactly | MoonMessenger/MoonMessenger/Messaging/DataBuilder.swift:60-83 | In what is shown, every message has the corners that its neighbours demand: top exactly if it joins the next message only, bottom if the previous one only, middle if both, basic if none |
| JpegScanning.ScanChunks | MoonMessenger/Pods/Nuke/Sources/ImageDecoding.swift:159-190 | Over any chain of growing prefixes the scanner ends with the count and last position of start-of-scan markers of the final data, including markers split between chunks |
| Encoder.EncodeVarint | MoonMessenger/Pods/nanopb/pb_encode.c:608-628 | Emits the base-128 form of any 64-bit value to any stream, or fails when the stream is full |
| Encoder.FillBuffer | MoonMessenger/Pods/nanopb/pb_encode.c:619-625 | The loop never leaves its ten-byte buffer and fills it with the canonical form |
| Wire.EncVarintFits | MoonMessenger/Pods/nanopb/pb_encode.c:610-625 | At most ten bytes for 64-bit values and five for 32-bit values |
| Wire.EncVarintShortest | MoonMessenger/Pods/nanopb/pb_encode.c:608-628 | No accepted varint of a value is shorter than its encoding; it is the only one of that length, apart from unused bits in a tenth byte |
| Wire.VarintRoundTrip | MoonMessenger/Pods/nanopb/pb_decode.c:255-275 | Decoding the encoding of any 64-bit value, whatever follows it, gives the value and stops right after it |
| Wire.Varint32RoundTrip | MoonMessenger/Pods/nanopb/pb_decode.c:187-247 | The 32-bit decoder accepts the canonical form of every 32-bit value and stops right after it |
| Wire.Varint32AcceptsNegative | MoonMessenger/Pods/nanopb/pb_decode.c:218-226 | The 32-bit decoder accepts every negative int32 sign-extended to ten bytes, as its low 32 bits |
| Wire.VarintDecodersAgree | MoonMessenger/Pods/nanopb/pb_decode.c:187-275 | When the 32-bit decoder succeeds, the 64-bit decoder succeeds exactly if the varint has at most ten bytes, with the same end and an equal value modulo 2^32 |
| Wire.VarintDecodersDiffer | MoonMessenger/Pods/nanopb/pb_decode.c:204-240 | An eleven-byte zero is read by the 32-bit decoder but refused by the 64-bit one |
| Wire.Varint32Stops | MoonMessenger/Pods/nanopb/pb_decode.c:187-247 | A successful 32-bit read consumes exactly the varint at the front and yields a 32-bit value |
| Wire.Varint32Value | MoonMessenger/Pods/nanopb/pb_decode.c:204-240 | Up to ten bytes, the 32-bit decoder computes the value of the base-128 digits modulo 2^32 |
| Encoder.EncodeSvarint | MoonMessenger/Pods/nanopb/pb_encode.c:630-639 | Emits the zigzag form of any int64 |
| Scalars.ZigZagOrder | MoonMessenger/Pods/nanopb/pb_encode.c:630-639 | The shift-and-complement code computes the zigzag order 0, -1, 1, -2, ... |
| Scalars.UnZigZagOrder | MoonMessenger/Pods/nanopb/pb_decode.c:1279-1291 | So does its inverse in the decoder |
| Scalars.ZigZagInverse | MoonMessenger/Pods/nanopb/pb_decode.c:1279-1291 | Zigzag encoding and decoding are inverse bijections between int64 and uint64 |
| Scalars.NarrowDecodeExact | MoonMessenger/Pods/nanopb/pb_decode.c:1339-1422 | For field sizes 1, 2, 4 and 8 the three varint field decoders yield the value if it fits the field and fail otherwise (varint fields below 64 bits: after the cast to int32) |
| Scalars.IntRoundTrip | MoonMessenger/Pods/nanopb/pb_decode.c:1339-1374 | Every in-range signed value of a varint field is restored |
| Scalars.UintRoundTrip | MoonMessenger/Pods/nanopb/pb_decode.c:1376-1398 | Every in-range unsigned value is restored |
| Scalars.SintRoundTrip | MoonMessenger/Pods/nanopb/pb_decode.c:1400-1422 | Every in-range zigzag value is restored |
| Scalars.FixedRoundTrip | MoonMessenger/Pods/nanopb/pb_decode.c:1293-1325 | Little-endian fixed-size values are restored, whatever follows them |
| Compatibility.WiderReader | MoonMessenger/Pods/nanopb/pb_encode.c:769-833 | A reader whose field is wider than the writer's gets the same number: signed values are sign-extended to 64 bits on the wire |
| Compatibility.NarrowerReader | MoonMessenger/Pods/nanopb/pb_decode.c:1339-1422 | A reader whose field is narrower gets the number exactly if it fits; of a plain signed number it looks at the low 32 bits, read as an int32 |
| Compatibility.BoolReadsInteger | MoonMessenger/Pods/nanopb/pb_decode.c:1328-1337 | A reader that takes an integer of up to 32 bits, signed or not, for a bool gets true exactly if it is not zero |
| Compatibility.KnownVarints | MoonMessenger/Pods/nanopb/pb_encode.c:608-628 | The bytes of two small records: key, and seven bits a byte, low ones first |
| Compatibility.KnownSmallVarints | MoonMessenger/Pods/nanopb/pb_encode.c:630-639 | The bytes of a bool and of a zigzag record |
| Compatibility.KnownNegative | MoonMessenger/Pods/nanopb/pb_encode.c:776-797 | An int32 field with -1 takes ten bytes with all 64 bits set |
| Compatibility.KnownFixed | MoonMessenger/Pods/nanopb/pb_encode.c:641-666 | Fixed-width values have the lowest byte first; wire types five and one |
| Encoder.EncodeFixed32 | MoonMessenger/Pods/nanopb/pb_encode.c:641-650 | Emits the four little-endian bytes |
| Encoder.EncodeFixed64 | MoonMessenger/Pods/nanopb/pb_encode.c:653-666 | Emits the eight little-endian bytes |
| OutputStream.OStream.Sizing | MoonMessenger/Pods/nanopb/pb_encode.h:100-110 | A stream without a buffer that only counts |
| OutputStream.OStream.FromBuffer | MoonMessenger/Pods/nanopb/pb_encode.c:86-101 | A stream that may write a given number of bytes into a buffer |
| OutputStream.OStream.Write | MoonMessenger/Pods/nanopb/pb_encode.c:103-124 | Succeeds exactly if the bytes fit (always when sizing); counts and appends them on success, changes nothing otherwise |
| OutputStream.OStream.WriteBuffer | MoonMessenger/Pods/nanopb/pb_encode.c:74-84 | Copies the bytes behind those written so far |
| Encoder.EncodeTag | MoonMessenger/Pods/nanopb/pb_encode.c:669-673 | Emits field number times eight plus wire type |
| Encoder.EncodeTagForField | MoonMessenger/Pods/nanopb/pb_encode.c:675-707 | Emits the tag with the wire type of the field |
| Encoder.EncodeString | MoonMessenger/Pods/nanopb/pb_encode.c:709-715 | Emits length and bytes |
| Encoder.StringLength | MoonMessenger/Pods/nanopb/pb_encode.c:875-899 | Finds the part of the buffer before the first NUL, or all of it |
| Encoder.EncodeInteger | MoonMessenger/Pods/nanopb/pb_encode.c:776-833 | Refuses data sizes other than 1, 2, 4 and 8 |
| Encoder.EncodeValue | MoonMessenger/Pods/nanopb/pb_encode.c:769-913 | Emits what the encoder of the type does, on any kind of stream |
| Encoder.EncodeBuffer | MoonMessenger/Pods/nanopb/pb_encode.c:854-913 | Byte strings and strings: fails exactly on a length above the field size, and writes a string up to its first NUL |
| Encoder.EncodeSubmessage | MoonMessenger/Pods/nanopb/pb_encode.c:717-765 | Sizing pass, length, writing pass: the second pass always succeeds and writes exactly the announced size, so "submsg size changed" is unreachable at every depth |
| Encoder.EncodeMeasured | MoonMessenger/Pods/nanopb/pb_encode.c:736-765 | The second pass, after the size is known: the submessage is counted on a sizing stream and written on any other, and the only failure is that it does not fit |
| Encoder.EncodeRecord | MoonMessenger/Pods/nanopb/pb_encode.c:383-395 | Tag, then value |
| Encoder.EncodeItems | MoonMessenger/Pods/nanopb/pb_encode.c:184-212 | Emits the items of a packed array in order |
| Encoder.EncodePacked | MoonMessenger/Pods/nanopb/pb_encode.c:164-213 | Tag, total size (computed for fixed types, measured otherwise) and items: the announced size is the size of what follows |
| Encoder.PackedItemsSize | MoonMessenger/Pods/nanopb/pb_encode.c:170-189 | The announced size is the number of bytes that the items take, whether it is computed or measured |
| Encoder.EncodePackedItems | MoonMessenger/Pods/nanopb/pb_encode.c:194-205 | Counts the size when sizing, and emits the items otherwise |
| Encoder.EncodeRecords | MoonMessenger/Pods/nanopb/pb_encode.c:215-233 | One record for every item of an unpacked array |
| Encoder.EncodeArray | MoonMessenger/Pods/nanopb/pb_encode.c:147-236 | Nothing for an empty array, failure for a count above the array size, packed where possible |
| Compatibility.PackedIsBytes | MoonMessenger/Pods/nanopb/pb_encode.c:164-213 | A packed array is on the wire what a byte string of the same field number is that consists of the encoded items: one record, whatever the number of items |
| Encoder.CheckDefault | MoonMessenger/Pods/nanopb/pb_encode.c:240-337 | Decides whether a proto3 field is at its default value |
| Encoder.CheckAllDefault | MoonMessenger/Pods/nanopb/pb_encode.c:291-310 | Decides whether all fields of a submessage are |
| Encoder.EncodeField | MoonMessenger/Pods/nanopb/pb_encode.c:341-426 | Emits a required, optional, singular, repeated or oneof field as its presence demands |
| Presence.WrittenExactly | MoonMessenger/Pods/nanopb/pb_encode.c:341-426 | A required field is always written, an optional one exactly if its has_ flag is set, an array if it has items, a oneof member if it is selected |
| Presence.SingularExactly | MoonMessenger/Pods/nanopb/pb_encode.c:300-336 | A proto3 field that is no submessage is left out exactly if its value is that of zeroed memory: zero, false, no bytes or the empty string |
| Presence.InlineExactly | MoonMessenger/Pods/nanopb/pb_encode.c:285-291 | Bytes of fixed length are always written, zeros as well, unless there are none |
| Presence.SubmessageExactly | MoonMessenger/Pods/nanopb/pb_encode.c:292-312 | A proto3 submessage is left out exactly if nothing would be written for its fields and no oneof in it has a selection; when all selections are of members, exactly if its encoding is empty |
| Encoder.PbEncode | MoonMessenger/Pods/nanopb/pb_encode.c:528-550 | Emits all fields in descriptor order up to the first failure, on a stream of either kind; an empty descriptor emits nothing |
| Encoder.EncodeAll | MoonMessenger/Pods/nanopb/pb_encode.c:534-547 | The iterator loop does that from the first field on |
| Encoder.EncodeNext | MoonMessenger/Pods/nanopb/pb_encode.c:544-545 | One round: what the fields before have written is followed by the field |
| EncodeSpec.EncMsgOk | MoonMessenger/Pods/nanopb/pb_encode.c:147-426 | Encoding succeeds exactly on messages without oversized counts, oversized byte strings or odd integer sizes in their present fields |
| EncodeSize.EncodedSizeBound | MoonMessenger/Pods/nanopb/pb_encode.c:567-576 | The encoded size is bounded by a number computed from the descriptor alone |
| FieldIterator.FieldIter.constructor | MoonMessenger/Pods/nanopb/pb_common.c:8-18 | Starts at the first field, with no required field before it |
| FieldIterator.FieldIter.Next | MoonMessenger/Pods/nanopb/pb_common.c:20-76 | Steps to the next field or wraps around; the required-field index always equals the number of required fields before the position |
| FieldIterator.FieldIter.FindTag | MoonMessenger/Pods/nanopb/pb_common.c:78-95 | Stops at the first match on the cycle from the current position on, or ends where it began when there is none |
| FieldIterator.SearchIsFind | MoonMessenger/Pods/nanopb/pb_common.c:78-95 | With distinct tags the result does not depend on where the search starts |
| RequiredFields.Mark | MoonMessenger/Pods/nanopb/pb_decode.c:1007-1012 | Setting one bit of one word adds exactly that index to the marked set |
| RequiredFields.WordIsOnes | MoonMessenger/Pods/nanopb/pb_decode.c:1061-1067 | A word equals the shifted all-ones mask exactly if its low bits are all set and no others |
| RequiredFields.AllMarked | MoonMessenger/Pods/nanopb/pb_decode.c:1052-1069 | The test by whole words and one partial word is the test that every index below the count is marked |
| RequiredFields.AllIndicesSeen | MoonMessenger/Pods/nanopb/pb_decode.c:1035-1073 | All indices are marked exactly if each of the first 64 required fields has been seen |
| RequiredFields.RequiredIndexOnto | MoonMessenger/Pods/nanopb/pb_common.c:65-70 | Every index below the number of required fields belongs to a required field |
| RequiredFields.IndicesAfter | MoonMessenger/Pods/nanopb/pb_decode.c:1007-1012 | Meeting a field adds its index if it is required and among the first 64, and nothing otherwise |
| Decoder.CheckRequired | MoonMessenger/Pods/nanopb/pb_decode.c:1035-1073 | Counting by walking the iterator to the end, with the fix-up for a last required field, and testing the bitmap decides whether a tracked required field is missing |
| InputStream.IStream.Read | MoonMessenger/Pods/nanopb/pb_decode.c:102-137 | Succeeds exactly if enough bytes are left, and hands out the next ones |
| InputStream.IStream.ReadByte | MoonMessenger/Pods/nanopb/pb_decode.c:141-157 | Succeeds exactly if a byte is left |
| InputStream.DecodeVarint32 | MoonMessenger/Pods/nanopb/pb_decode.c:187-252 | Computes the 32-bit varint function on the rest of the stream; eof is reported exactly on an empty stream |
| InputStream.DecodeVarint32Tail | MoonMessenger/Pods/nanopb/pb_decode.c:208-240 | The multibyte loop with its 8-bit shift counter and sign-extension rule |
| InputStream.Register64 | MoonMessenger/Pods/nanopb/pb_decode.c:268-270 | Or-ing seven bits into the 64-bit register adds them to the value so far modulo 2^64 |
| InputStream.DecodeVarint64 | MoonMessenger/Pods/nanopb/pb_decode.c:255-275 | Computes the 64-bit varint function, refusing more than ten bytes |
| InputStream.SkipVarintBytes | MoonMessenger/Pods/nanopb/pb_decode.c:278-287 | Skips exactly one varint of any length |
| InputStream.MakeSubstream | MoonMessenger/Pods/nanopb/pb_decode.c:372-385 | The substream gets exactly the announced bytes, and the parent those behind them |
| InputStream.CloseSubstream | MoonMessenger/Pods/nanopb/pb_decode.c:387-400 | The parent goes on right behind the substream even if that was not read to its end |
| Decoder.DecodeFixed | MoonMessenger/Pods/nanopb/pb_decode.c:1293-1325 | Reads little-endian values of four or eight bytes |
| Decoder.DecodeBool | MoonMessenger/Pods/nanopb/pb_decode.c:1328-1337 | Reads a 32-bit varint as true or false |
| Decoder.DecodeInt | MoonMessenger/Pods/nanopb/pb_decode.c:1339-1374 | Casts, narrows and compares as the code does |
| Decoder.DecodeUint | MoonMessenger/Pods/nanopb/pb_decode.c:1376-1398 | Narrows and compares as the code does |
| Decoder.DecodeSint | MoonMessenger/Pods/nanopb/pb_decode.c:1400-1422 | Undoes the zigzag form, narrows and compares |
| DecodeSpec.DecNumTyped | MoonMessenger/Pods/nanopb/pb_decode.c:1328-1439 | What the scalar decoders accept fits the field, and at least one byte was read |
| Decoder.DecodeBytes | MoonMessenger/Pods/nanopb/pb_decode.c:1441-1479 | Accepts byte strings that fit the field; bytes past the end keep their values |
| Decoder.DecodeString | MoonMessenger/Pods/nanopb/pb_decode.c:1481-1517 | Accepts strings that fit with a terminator, which is written behind them |
| Decoder.DecodeInline | MoonMessenger/Pods/nanopb/pb_decode.c:1543-1564 | Accepts the exact length, or zero length for all zeros |
| Decoder.DecodeValue | MoonMessenger/Pods/nanopb/pb_decode.c:1328-1564 | Dispatches on the type of the field |
| Decoder.DecodeSubmessage | MoonMessenger/Pods/nanopb/pb_decode.c:1519-1541 | Advances the parent by exactly the prefix and the declared length, even when the submessage stops early at a zero key; array entries start from defaults, other destinations are merged into |
| Decoder.SetMessageToDefaults | MoonMessenger/Pods/nanopb/pb_decode.c:911-922 | The iterator loop sets every field to its default |
| Decoder.SetFieldToDefault | MoonMessenger/Pods/nanopb/pb_decode.c:839-909 | Counts and selections are cleared, other fields initialized recursively |
| Decoder.DecodePackedItems | MoonMessenger/Pods/nanopb/pb_decode.c:436-450 | Appends items until the substream or the array ends, and fails if bytes remain |
| Decoder.DecodeRepeated | MoonMessenger/Pods/nanopb/pb_decode.c:424-466 | Packed data in a substream, or one item, with the bounds check |
| Decoder.DecodeSingle | MoonMessenger/Pods/nanopb/pb_decode.c:406-420 | Sets has_ and decodes; a newly selected oneof submessage is reset first |
| Decoder.DecodeStaticField | MoonMessenger/Pods/nanopb/pb_decode.c:406-483 | Stores the decoded value in the slot of the field, and the selection of a oneof |
| Decoder.ReleaseUnionField | MoonMessenger/Pods/nanopb/pb_decode.c:1131-1162 | Succeeds exactly if the selection of the oneof is empty, is the field itself or is the number of some field; the iterator is back at the field afterwards |
| Decoder.DecodeTag | MoonMessenger/Pods/nanopb/pb_decode.c:298-319 | Splits a key; a zero key, like the end of the stream, is reported as eof |
| Decoder.SkipField | MoonMessenger/Pods/nanopb/pb_decode.c:321-331 | Skips exactly one value of the wire type, and fails on unknown wire types |
| Decoder.DecodeRound | MoonMessenger/Pods/nanopb/pb_decode.c:946-1024 | One round of the loop keeps message, iterator and bitmap in step |
| Decoder.DecodeRecord | MoonMessenger/Pods/nanopb/pb_decode.c:960-1024 | An unlisted field number is skipped, a listed one decoded |
| Decoder.MarkRequired | MoonMessenger/Pods/nanopb/pb_decode.c:1007-1012 | Marks the field exactly if it is required and among the first 64, and keeps the bitmap in step with the fields seen |
| Decoder.DecodeFoundField | MoonMessenger/Pods/nanopb/pb_decode.c:734-758 | Fails on a oneof with an unlisted selection, and decodes any other field after marking it |
| Decoder.PbDecode | MoonMessenger/Pods/nanopb/pb_decode.c:1078-1090 | Sets defaults, then decodes |
| Merge.DecRoundExtends | MoonMessenger/Pods/nanopb/pb_decode.c:946-1024 | A complete record is decoded in the same way whatever follows it |
| Merge.DecLoopAppend | MoonMessenger/Pods/nanopb/pb_decode.c:946-1024 | Decoding complete records and then more bytes goes on from where the records lead |
| Merge.RecordsAppend | MoonMessenger/Pods/nanopb/pb_decode.c:946-1024 | Two strings of complete records act one after the other |
| Merge.UnknownFieldsTransparent | MoonMessenger/Pods/nanopb/pb_decode.c:963-991 | The same as UnknownFieldsIgnored for the loop, from any intermediate state |
| Merge.SkipExactly | MoonMessenger/Pods/nanopb/pb_decode.c:321-331 | A value is skipped exactly if it is a varint of any length, eight bytes, a length prefix and as many bytes as it says, or four bytes, for wire types zero, one, two and five; other wire types are refused |
| Merge.UnknownExactly | MoonMessenger/Pods/nanopb/pb_decode.c:960-991 | An unlisted key and what follows it are read exactly if they are such a record, and change nothing |
| Evolution.ValueSkipped | MoonMessenger/Pods/nanopb/pb_decode.c:321-331 | What the encoder writes for a value of any type is exactly what the decoder skips for its wire type |
| Evolution.UnlistedRecord | MoonMessenger/Pods/nanopb/pb_decode.c:960-991 | A record that the encoder wrote is passed over when its field is not listed, from any state of the loop |
| Evolution.OlderMessageRead | MoonMessenger/Pods/nanopb/pb_decode.c:928-1073 | A message of an older schema, read with a newer one, arrives as the message in which the added fields are absent |
| Merge.ZeroKeyEnds | MoonMessenger/Pods/nanopb/pb_decode.c:298-319 | A zero key after complete records ends the message; what follows it is left |
| Merge.ZeroKeyEndsBody | MoonMessenger/Pods/nanopb/pb_decode.c:1519-1541 | It ends a submessage, too, and what is left of the body is passed over |
| Merge.EmptySchemaReadsVarint | MoonMessenger/Pods/nanopb/pb_common.c:78-95 | With an empty schema, a key of field number zero is followed by a varint, whatever its wire type |
| Merge.RequiredExactly | MoonMessenger/Pods/nanopb/pb_decode.c:1035-1073 | Decoding succeeds exactly if all records can be decoded and each of the first 64 required fields occurs among them |
| UnknownFields.UnknownFieldsAnywhere | MoonMessenger/Pods/nanopb/pb_decode.c:946-1024 | The same at any depth |
| UnknownFields.RoundIsRecord | MoonMessenger/Pods/nanopb/pb_decode.c:946-1024 | A key with the number of a field, of any wire type and in any accepted form, is followed by decoding the field, and fails exactly if that does |
| Merge.TagsAccumulate | MoonMessenger/Pods/nanopb/pb_decode.c:1007-1012 | The set of required fields seen has no influence on the message |
| Merge.ConcatenationMerges | MoonMessenger/Pods/nanopb/pb_decode.c:928-1073 | Decoding a message followed by more bytes is decoding the bytes on top of the message |
| RoundTrip.SetDefaultsExact | MoonMessenger/Pods/nanopb/pb_decode.c:839-922 | Every field has its default afterwards, at any depth: counts, selections and has_ flags are zero and other fields have their initial values |
| RoundTrip.SetDefaultsClears | MoonMessenger/Pods/nanopb/pb_decode.c:911-922 | After setting defaults nothing of the previous contents is visible, at any depth |
| RoundTrip.NumRoundTrip | MoonMessenger/Pods/nanopb/pb_decode.c:1328-1439 | Every encodable scalar is restored |
| RoundTrip.BytesRoundTrip | MoonMessenger/Pods/nanopb/pb_decode.c:1441-1479 | Every encodable byte string is restored |
| RoundTrip.TextRoundTrip | MoonMessenger/Pods/nanopb/pb_decode.c:1481-1517 | A string is accepted by the decoder exactly if it was terminated inside its buffer, and then restored |
| RoundTrip.InlineRoundTrip | MoonMessenger/Pods/nanopb/pb_decode.c:1543-1564 | Fixed-length bytes are restored, also those of length zero |
| Compatibility.OtherBytes | MoonMessenger/Pods/nanopb/pb_decode.c:1441-1479 | A reader with a buffer of another size accepts a byte string exactly if it fits, and gets its bytes |
| Compatibility.OtherText | MoonMessenger/Pods/nanopb/pb_decode.c:1481-1517 | A string exactly if it fits with a terminator |
| Compatibility.OtherInline | MoonMessenger/Pods/nanopb/pb_decode.c:1543-1564 | Bytes of fixed length exactly if the length is the same, or if there are none, which stands for zeros |
| Overlay.ValueMerges | MoonMessenger/Pods/nanopb/pb_decode.c:406-483 | Every value is accepted on top of any other exactly if its strings are terminated (and, in submessages, there is room); its bytes are consumed, and it replaces the other one or is merged into it |
| Overlay.SingleMerges | MoonMessenger/Pods/nanopb/pb_decode.c:734-758 | A field with one value, from any state of the message: decodes exactly if the value is accepted and the selection of the oneof is known, and then holds the value, with its has_ flag set; a oneof member that was not selected starts from defaults |
| Overlay.ReleasesExactly | MoonMessenger/Pods/nanopb/pb_decode.c:1131-1162 | The selection of a oneof is accepted exactly if it is zero or the number of a field of the message |
| Overlay.PackedMerges | MoonMessenger/Pods/nanopb/pb_decode.c:424-453 | The items of a packed array are appended in order, exactly if there is room for all of them |
| Overlay.RecordsMerge | MoonMessenger/Pods/nanopb/pb_decode.c:455-466 | Items sent one by one are appended in order exactly if there is room and the strings are terminated, numbers as well as others; otherwise decoding fails |
| Overlay.FieldMerges | MoonMessenger/Pods/nanopb/pb_decode.c:406-483 | What is written for one field changes nothing but its slot and the selection of its oneof, or is refused, whatever follows |
| Overlay.ClearedMerges | MoonMessenger/Pods/nanopb/pb_decode.c:928-1073 | In a struct in which nothing is set, an encoded message is restored exactly if its strings are terminated |
| RoundTrip.DefaultSame | MoonMessenger/Pods/nanopb/pb_encode.c:291-310 | A proto3 submessage that is not written equals the default one |
| Unterminated.UnterminatedExample | MoonMessenger/Pods/nanopb/pb_decode.c:1502-1512 | A concrete message with an unterminated string is encoded, and the result is refused |
| Reencoding.LoopGood | MoonMessenger/Pods/nanopb/pb_decode.c:928-1024 | Decoding any records into a message that can be encoded and read back leaves it such a message |
| Reencoding.DefaultsGood | MoonMessenger/Pods/nanopb/pb_decode.c:839-922 | The defaults are such a message |
| Staging.UnstageAll | MoonMessenger/Pods/Nuke/Sources/DataCache.swift:499-519 | Un-staging a snapshot in any dictionary order removes exactly the changes that are still those of the snapshot |
| WriteBehind.StageKeeps | MoonMessenger/Pods/Nuke/Sources/DataCache.swift:176-197 | Staging an operation changes what readers see as the operation changes the plain map |
| WriteBehind.StoreKeeps | MoonMessenger/Pods/Nuke/Sources/DataCache.swift:176-178 | Storing is storing in the plain map, and keeps the invariant |
| WriteBehind.RemoveKeyKeeps | MoonMessenger/Pods/Nuke/Sources/DataCache.swift:182-184 | So is removing |
| WriteBehind.RemoveEverythingKeeps | MoonMessenger/Pods/Nuke/Sources/DataCache.swift:188-190 | So is removing everything |
| WriteBehind.ClearDiskKeeps | MoonMessenger/Pods/Nuke/Sources/DataCache.swift:316-319 | Deleting the directory during a flush changes no read |
| WriteBehind.WriteChangeKeeps | MoonMessenger/Pods/Nuke/Sources/DataCache.swift:322-338 | Writing any change of the snapshot, in any order, changes no read |
| WriteBehind.FinishFlushKeeps | MoonMessenger/Pods/Nuke/Sources/DataCache.swift:292-300 | Un-staging the snapshot changes no read |
| WriteBehind.WriteKeyKeeps | MoonMessenger/Pods/Nuke/Sources/DataCache.swift:259-265 | Writing the change of a single key changes no read |
| WriteBehind.FinishFlushKeyExact | MoonMessenger/Pods/Nuke/Sources/DataCache.swift:259-265 | Un-staging the change of a single key keeps all reads exactly if it is not an addition over a staged removal of everything |
| WriteBehind.StepKeeps | MoonMessenger/Pods/Nuke/Sources/DataCache.swift:155-301 | Every step keeps the invariant and refines the plain map |
| WriteBehind.FlagsKept | MoonMessenger/Pods/Nuke/Sources/DataCache.swift:267-301 | Outside a flush: needed exactly if scheduled, then a block waits, and anything staged makes a flush needed; during one, staging differs from the snapshot only if a flush is needed again |
| WriteBehind.GuardKept | MoonMessenger/Pods/Nuke/Sources/DataCache.swift:259-265 | A flush of one key that starts under its guard never drops data, whatever happens before it ends |
| WriteBehind.FlushKeyExact | MoonMessenger/Pods/Nuke/Sources/DataCache.swift:259-265 | Undisturbed, flush(for:) leaves every read as it was exactly if the key's change is no addition or no removal of everything is staged |
| WriteBehind.FlushKeyLosesData | MoonMessenger/Pods/Nuke/Sources/DataCache.swift:259-265 | A run in which flush(for:) loses a stored item for good |
| Reads.ReaderStep | MoonMessenger/Pods/Nuke/Sources/DataCache.swift:155-172 | While a reader is between its two steps, whatever the disk holds or is about to hold is a value that the plain map has had since |
| Reads.ReaderInvariant | MoonMessenger/Pods/Nuke/Sources/DataCache.swift:155-172 | The same over runs |
| Reads.ReadsLinearizable | MoonMessenger/Pods/Nuke/Sources/DataCache.swift:155-172 | In a given run the read is linearizable, or it returns nothing and a sweep evicted, in between, a file over which a newer change was staged |
| Reads.GuardedFlush | MoonMessenger/Pods/Nuke/Sources/DataCache.swift:259-265 | What follows a guarded flush of one key is a run again, so that all its theorems hold on |
| Reads.UnguardedFlush | MoonMessenger/Pods/Nuke/Sources/DataCache.swift:259-265 | Without the guard, the flush only has to run to its end for a read to be wrong |
| Reads.Overtake | MoonMessenger/Pods/Nuke/Sources/DataCache.swift:356-382 | From any moment at which the key has a file and is not staged, the flush under way can be finished, the key stored again and the file swept, so that the read misses a key that is there all the time |
| Reads.SweepHidesItem | MoonMessenger/Pods/Nuke/Sources/DataCache.swift:356-382 | A concrete run in which a read misses an item that is there all the time |
| DataCaching.DataCache.constructor | MoonMessenger/Pods/Nuke/Sources/DataCache.swift:123-131 | Starts with nothing staged and whatever is in the directory |
| DataCaching.DataCache.StoreData | MoonMessenger/Pods/Nuke/Sources/DataCache.swift:176-178 | Is the protocol step that stages an addition |
| DataCaching.DataCache.RemoveData | MoonMessenger/Pods/Nuke/Sources/DataCache.swift:182-184 | Is the step that stages a removal |
| DataCaching.DataCache.RemoveAll | MoonMessenger/Pods/Nuke/Sources/DataCache.swift:188-190 | Is the step that stages a removal of everything |
| DataCaching.DataCache.SetNeedsFlushChanges | MoonMessenger/Pods/Nuke/Sources/DataCache.swift:267-271 | Sets the flag and schedules a block unless one is scheduled |
| DataCaching.DataCache.ScheduleNextFlush | MoonMessenger/Pods/Nuke/Sources/DataCache.swift:273-277 | Adds at most one block to the queue |
| DataCaching.DataCache.Read | MoonMessenger/Pods/Nuke/Sources/DataCache.swift:155-172 | Undisturbed, returns what the view of the state holds for the key |
| DataCaching.DataCache.TakeSnapshot | MoonMessenger/Pods/Nuke/Sources/DataCache.swift:281-288 | Is the locked step that begins a flush, or nothing when none is needed |
| DataCaching.DataCache.PerformRemoveAll | MoonMessenger/Pods/Nuke/Sources/DataCache.swift:316-319 | Is the step that clears the disk |
| DataCaching.DataCache.PerformChange | MoonMessenger/Pods/Nuke/Sources/DataCache.swift:322-338 | Brings one file to what the change demands |
| DataCaching.DataCache.PerformChanges | MoonMessenger/Pods/Nuke/Sources/DataCache.swift:305-314 | Applies the whole snapshot, in any order, without changing a read |
| DataCaching.DataCache.PerformNext | MoonMessenger/Pods/Nuke/Sources/DataCache.swift:310-312 | One change of the snapshot is a step of the protocol and changes no read |
| DataCaching.DataCache.Unstage | MoonMessenger/Pods/Nuke/Sources/DataCache.swift:294-300 | Is the locked step that ends a flush and schedules the next one if needed |
| DataCaching.DataCache.FlushChangesIfNeeded | MoonMessenger/Pods/Nuke/Sources/DataCache.swift:279-301 | Undisturbed, leaves nothing staged and makes the files exactly what could be read before |
| DataCaching.DataCache.FlushFor | MoonMessenger/Pods/Nuke/Sources/DataCache.swift:259-265 | Undisturbed, keeps every read exactly if its guard held |
| RecencyList.LinkedList.constructor | MoonMessenger/Pods/Nuke/Sources/Internal/LinkedList.swift:21-25 | An empty list |
| RecencyList.LinkedList.Append | MoonMessenger/Pods/Nuke/Sources/Internal/LinkedList.swift:40-49 | Appends a detached node; all links of the chain are right afterwards |
| RecencyList.LinkedList.Remove | MoonMessenger/Pods/Nuke/Sources/Internal/LinkedList.swift:51-62 | Takes out the node at any position; all links are right afterwards and the node is detached |
| RecencyList.LinkedList.Unlink | MoonMessenger/Pods/Nuke/Sources/Internal/LinkedList.swift:51-62 | The neighbours are linked to each other, and first and last follow |
| RecencyList.LinkedList.RemoveAll | MoonMessenger/Pods/Nuke/Sources/Internal/LinkedList.swift:64-74 | Empties the list and detaches every node |
| ImageCaching.IndexedOnly | MoonMessenger/Pods/Nuke/Sources/ImageCache.swift:152-153 | The dictionary holds no key without a node in the list |
| ImageCaching.IndexedFind | MoonMessenger/Pods/Nuke/Sources/ImageCache.swift:205-207 | The dictionary's node for a key is where the list has its entry |
| ImageCaching.Cache.constructor | MoonMessenger/Pods/Nuke/Sources/ImageCache.swift:173-192 | An empty cache |
| ImageCaching.Cache.RemoveNode | MoonMessenger/Pods/Nuke/Sources/ImageCache.swift:250-254 | Removes one node from list, dictionary and total |
| ImageCaching.Cache.AddEntry | MoonMessenger/Pods/Nuke/Sources/ImageCache.swift:242-248 | Replaces an entry with the same key and makes the new one the most recent; dictionary, list and total stay in agreement |
| ImageCaching.Cache.AppendEntry | MoonMessenger/Pods/Nuke/Sources/ImageCache.swift:246-247 | Adds an entry with a new key as the most recent one |
| ImageCaching.Cache.TrimToCost | MoonMessenger/Pods/Nuke/Sources/ImageCache.swift:286-302 | Removes least recently used entries while the total exceeds the limit |
| ImageCaching.Cache.TrimToCount | MoonMessenger/Pods/Nuke/Sources/ImageCache.swift:294-302 | Removes least recently used entries while there are too many |
| ImageCaching.Cache.TrimToLimits | MoonMessenger/Pods/Nuke/Sources/ImageCache.swift:265-268 | Trims to the cost limit, then to the count limit |
| ImageCaching.Cache.ValueFor | MoonMessenger/Pods/Nuke/Sources/ImageCache.swift:202-219 | A hit becomes the most recent entry, an expired entry is removed, and anything else is left alone |
| ImageCaching.Cache.SetValue | MoonMessenger/Pods/Nuke/Sources/ImageCache.swift:221-229 | Inserts the entry with its expiration and trims |
| ImageCaching.Cache.RemoveValueFor | MoonMessenger/Pods/Nuke/Sources/ImageCache.swift:232-240 | Removes the entry of the key and returns its value |
| ImageCaching.Cache.Clear | MoonMessenger/Pods/Nuke/Sources/ImageCache.swift:257-263 | Removes everything |
| ImageCaching.Cache.SetCostLimit | MoonMessenger/Pods/Nuke/Sources/ImageCache.swift:158-160 | Trims when the limit is set |
| ImageCaching.Cache.SetCountLimit | MoonMessenger/Pods/Nuke/Sources/ImageCache.swift:162-164 | Trims when the limit is set |
| Lru.TrimCostExact | MoonMessenger/Pods/Nuke/Sources/ImageCache.swift:286-302 | Trimming to a cost leaves the longest suffix that costs no more, or nothing |
| Lru.TrimCountExact | MoonMessenger/Pods/Nuke/Sources/ImageCache.swift:294-302 | Trimming to a count leaves as many of the most recent entries as the limit allows |
| Lru.TrimLongest | MoonMessenger/Pods/Nuke/Sources/ImageCache.swift:265-302 | With non-negative costs and any limits, a trim leaves the longest suffix that fits both, or nothing |
| Lru.TrimExact | MoonMessenger/Pods/Nuke/Sources/ImageCache.swift:265-268 | With non-negative costs and limits, a trim leaves precisely the longest suffix of most recent entries that fits both limits |
| Lru.TrimsWellExactly | MoonMessenger/Pods/Nuke/Sources/ImageCache.swift:265-268 | Both limits hold after a trim for every choice of limits exactly if no suffix of positive cost outweighs a longer one |
| Lru.NonNegativeIsTame | MoonMessenger/Pods/Nuke/Sources/ImageCache.swift:265-268 | Which is so whenever no cost is negative |
| Lru.NegativeCostEscapes | MoonMessenger/Pods/Nuke/Sources/ImageCache.swift:265-268 | An entry with a negative cost lets the cost limit be exceeded |
| LruRuns.HitIncluded | MoonMessenger/Pods/Nuke/Sources/ImageCache.swift:202-219 | A lookup keeps the smaller cache included in the larger one |
| LruRuns.SetIncluded | MoonMessenger/Pods/Nuke/Sources/ImageCache.swift:221-229 | So does an insertion with its trim |
| LruRuns.DeleteIncluded | MoonMessenger/Pods/Nuke/Sources/ImageCache.swift:232-240 | So does a removal |
| LruRuns.OpKeeps | MoonMessenger/Pods/Nuke/Sources/ImageCache.swift:158-302 | Every operation keeps keys distinct and costs non-negative, and keeps the limits |
| LruRuns.TrimKeepsExactly | MoonMessenger/Pods/Nuke/Sources/ImageCache.swift:265-302 | Trimming a part and a whole keeps the one a part of the other if and only if what the whole holds from the oldest entry on that the part keeps fits the limits of the whole |
| LruRuns.StepExact | MoonMessenger/Pods/Nuke/Sources/ImageCache.swift:202-302 | The same for every operation |
| LruRuns.HitsCarryOver | MoonMessenger/Pods/Nuke/Sources/ImageCache.swift:202-219 | A hit in a cache that is included in another one is a hit there, with the same value |
| Lookups.LookupExactly | MoonMessenger/Pods/Nuke/Sources/ImageCache.swift:202-219 | A lookup gives the value of the entry for the key up to and including the time of its expiration, and nothing afterwards |
| Lookups.LookupMisses | MoonMessenger/Pods/Nuke/Sources/ImageCache.swift:205-207 | A lookup of a key that no entry has gives nothing and changes nothing |
| Lookups.LookupMoves | MoonMessenger/Pods/Nuke/Sources/ImageCache.swift:209-218 | It moves the entry to the end, or removes it when it has expired; the others keep their order |
| Lookups.StaysExactly | MoonMessenger/Pods/Nuke/Sources/ImageCache.swift:202-302 | Every call other than storing for the key keeps an entry exactly if it does not remove it, look it up too late, or trim when the entry and all used since do not fit; and adds nothing |
| Lookups.TrimKeeps | MoonMessenger/Pods/Nuke/Sources/ImageCache.swift:265-302 | A trim keeps an entry exactly if it fits the limits together with all entries used since |
| CostLimitExample.BindingCostLosesHit | MoonMessenger/Pods/Nuke/Sources/ImageCache.swift:221-229 | Two runs that differ in the count limit only, where the larger limit loses a hit because the cost limit is binding |
| Sections.JoinsBelowThreeHours | MoonMessenger/MoonMessenger/Messaging/DataBuilder.swift:93-98 | Two neighbours join exactly if origin and user agree and they are less than three hours apart, because whole hours are rounded down |
| Sections.RunsPartition | MoonMessenger/MoonMessenger/Messaging/DataBuilder.swift:49-84 | The runs make up the messages in order; neighbours within a run are joined, those across a break are not |
| Sections.RunsUnique | MoonMessenger/MoonMessenger/Messaging/DataBuilder.swift:49-84 | No other way of cutting the messages has these properties |
| Sections.RunsSnoc | MoonMessenger/MoonMessenger/Messaging/DataBuilder.swift:55-83 | One more message extends the last run if it joins it, and starts a run otherwise |
| Snapshots.ShapeShowsAll | MoonMessenger/MoonMessenger/Messaging/DataBuilder.swift:49-84 | A snapshot in the shape of a group holds exactly its messages, in order |
| Snapshots.JoinedShape | MoonMessenger/MoonMessenger/Messaging/DataBuilder.swift:60-75 | Re-rounding the last item to top or middle and appending the new one as bottom gives the grouping with the message |
| Snapshots.SeparateShape | MoonMessenger/MoonMessenger/Messaging/DataBuilder.swift:77-83 | A new section with one basic item gives the grouping with the message |
| Snapshots.LastReplaced | MoonMessenger/MoonMessenger/Messaging/DataBuilder.swift:61-71 | The last item may be deleted and appended again: no item is ever appended that the snapshot already holds |
| Snapshots.GroupedPlain | MoonMessenger/MoonMessenger/Messaging/DataBuilder.swift:49-84 | Seen marks and old corners have no influence on the grouping |
| Snapshots.MarkOnlyExact | MoonMessenger/MoonMessenger/Messaging/DataBuilder.swift:38-46 | Afterwards exactly the last seen message is marked |
| Snapshots.MarkMoves | MoonMessenger/MoonMessenger/Messaging/SeenBadgeBuilder.swift:37-42 | If a new message is seen, the last marked item shown is the last seen message of all |
| Snapshots.MarkStays | MoonMessenger/MoonMessenger/Messaging/SeenBadgeBuilder.swift:37-42 | Otherwise the last marked item stays where it was |
| DataBuilding.DataBuilder.constructor | MoonMessenger/MoonMessenger/Messaging/DataBuilder.swift:16-19 | Takes over the items of a snapshot that a builder made |
| DataBuilding.DataBuilder.Build | MoonMessenger/MoonMessenger/Messaging/DataBuilder.swift:32-87 | The incremental loop ends with the grouping of old and new messages, and the last marked item is the last seen message |
| DataBuilding.DataBuilder.TakeOver | MoonMessenger/MoonMessenger/Messaging/DataBuilder.swift:34-46 | Adds the new messages, and moves the mark to the last one seen if a new one is |
| DataBuilding.DataBuilder.AddNext | MoonMessenger/MoonMessenger/Messaging/DataBuilder.swift:51-83 | One round of the loop |
| DataBuilding.DataBuilder.AddToLast | MoonMessenger/MoonMessenger/Messaging/DataBuilder.swift:60-75 | The branch for a message that joins the one before it |
| DataBuilding.DataBuilder.Replace | MoonMessenger/MoonMessenger/Messaging/DataBuilder.swift:60-71 | The last item is deleted and appended again with its new corner |
| DataBuilding.DataBuilder.StartSection | MoonMessenger/MoonMessenger/Messaging/DataBuilder.swift:77-83 | The branch for any other message |
| DataBuilding.AddMessages | MoonMessenger/MoonMessenger/Messaging/ChatView.swift:267-272 | A builder on the snapshot shown gives what a build of everything would show |
| JpegScanning.ScansExtend | MoonMessenger/Pods/Nuke/Sources/ImageDecoding.swift:159-166 | More data leaves the markers found so far, and has new ones only from the last byte scanned on |
| JpegScanning.CutLast | MoonMessenger/Pods/Nuke/Sources/ImageDecoding.swift:180-190 | With two markers the last one starts at the third byte or later, and the data before it holds all others |
| JpegScanning.Scanner.constructor | MoonMessenger/Pods/Nuke/Sources/ImageDecoding.swift:148-153 | Knows what a scan of no data finds |
| JpegScanning.Scanner.Scan | MoonMessenger/Pods/Nuke/Sources/ImageDecoding.swift:157-190 | Counts the markers from where it left off, remembers the last, and returns the index before it exactly if new ones were found and more than one is known |
| JpegScanning.Scanner.Preview | MoonMessenger/Pods/Nuke/Sources/ImageDecoding.swift:136-144 | For growing data there is a preview exactly if a scan has begun since the last call and another came before it; it is a proper prefix that ends where the last scan starts and holds all others |

## Left out

- Callback, pointer and extension fields with the memory allocated for them, fixed-count arrays and error-message strings of nanopb: user code, raw memory or configuration.
- Null submessage descriptors and read or write errors of callback streams: cannot occur with generated descriptors and memory buffers.
- Struct layout: a field is an indexed slot, the members of a oneof have a slot each, and the byte-by-byte test for zero of a number is a comparison with zero.
- The destination struct of the decoder is a value that goes in and comes out, so update in place and aliasing are not modelled, nor are its contents after a failed decode.
- Delimited and null-terminated variants of encode and decode: a length prefix or a zero byte around what is modelled.
- Encoder.PbEncode: its size counters are unbounded, and schemas whose messages could reach 2^64 bytes are excluded, because the C counters would wrap there; no C struct that large can exist.
- Encoder.PbGetEncodedSize: the same restriction on schemas.
- Encoder.EncodeToBuffer: the same restriction on schemas.
- Reads.ReadsLinearizable: it does not tell when a sweep makes a given read miss, because the exact condition concerns all that may happen next and is that of Reads.ReadsExactly.
- Disk errors and partially written files: file operations succeed and are atomic, as is the deletion of the directory; the file name is a total and injective function of the key.
- WriteBehind.RunRefines: sweeping is an arbitrary eviction while the queue is idle; the choice of files by access date and size is not modelled.
- Timers and the lock itself: a waiting block may run at any time the queue is idle, and each locked section is one step.
- DataBuilding.DataBuilder.Build: section identifiers are left out, sections are told apart by position; the texts, names and delivery states of messages play no part and are omitted.
- ImageCaching.Cache: memory-pressure and background notifications, which call the operations that are modelled, and the computation of image costs.
- JPEG decoding itself and the other image types.
- ImagePipeline, ImagePrefetcher, DataLoader, image processing, Firebase glue, view controllers and other user interface code: they rest on frameworks that are not part of the repository.
