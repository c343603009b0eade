# libspc message serialization, modelled in Dafny

libspc talks to launchd-style services over Mach ports. It speaks an
XPC-compatible wire format. `libspc/serialization.c` turns a message into a
Mach message and back. A message is a remote port, a local port, an id and a
dictionary of typed values. This project models that file.

**Encoding side**
- The writer is a growable byte buffer plus a side list of the ports met on
  the way.
- `spc_serialize_value`, `spc_write_array` and `spc_write_dict` walk the value
  tree.
- Array and dictionary byte sizes are backpatched after their items are
  written.
- `spc_serialize` builds one of two envelopes:
  - a simple message, when no ports were collected;
  - a complex message otherwise: a descriptor count and one port descriptor
    per collected port, in front of the content.

**Decoding side**
- The reader is a cursor over `[buf, end)` with an index into the list of
  received ports.
- `spc_deserialize_value` and its array and dictionary loops decode values.
- `spc_deserialize`:
  1. checks the message id;
  2. parses the descriptors;
  3. checks the magic `"CPX@\x05\0\0\0"`;
  4. decodes the top-level dictionary.

The layers and their files:

| file | module | role |
|---|---|---|
| `wire.dfy` | `Wire` | little-endian integers and 4-byte padding |
| `values.dfy` | `Values` | the value tree, ports, messages and the ways a decode can fail |
| `encoding.dfy` | `Encoding` | the bytes and ports the writer produces, as functions of the value |
| `decoding.dfy` | `Decoding` | what the reader computes from a byte range, as functions |
| `writer.dfy` | `Writing` | the writer as a `class` with a buffer, a cursor and a port list; each method is proved to append exactly the `Encoding` bytes and ports |
| `reader.dfy` | `Reading` | the reader as a `class`; each method is proved to compute exactly the `Decoding` function |
| `roundtrip.dfy` | `RoundTrip` | decoding an encoded value gives back what the C decoder rebuilds |
| `envelope.dfy` | `Envelope` | the Mach envelope (`spc_serialize`, `spc_deserialize`), with the end-to-end round trip |

Every process-terminating path of the source is a `Failure` value: `abort()`
in `spc_read`, `exit(-1)` on unknown tags, descriptors or message id 71, and
`strdup(NULL)` after a failed `spc_read_str`. The two `return NULL` paths are
`BadMagic` and `NotADict`. `Failure.IsFatal` tells the two groups apart.

Several behaviours of the code are reproduced as written:
- Dictionaries decode by prepending, so their entries come back in reverse
  order.
- A Bool is written as a truncated `uint32`.
- An FD value is written as a port, but decoding its tag ends the process.
- Byte sizes and counts are stored modulo 2^32.
- The decoded local port takes its name from `msgh_remote_port`.
- A descriptor's type byte is looked at before the bounds check.
- When fewer than n bytes remain, `spc_ensure_space` grows the buffer by n
  bytes.

## Model

| member | source | states |
|---|---|---|
| Wire.Trunc32Mod | libspc/serialization.c:179 | storing a `size_t` into a `uint32_t` field keeps it modulo 2^32 |
| Wire.I64RoundTrip | libspc/serialization.c:88-96 | the 8-byte pattern written for an int64 reads back as the same signed value |
| Wire.PadLenMod | libspc/serialization.c:49 | the padding is `(4 - len % 4) % 4` and brings the length to a multiple of 4 |
| Wire.PaddedLenIsLeastMultiple | libspc/serialization.c:49-58 | the padded length is the least multiple of 4 not below the length |
| Wire.PaddedFacts | libspc/serialization.c:53-58 | padded data is the data followed by zero bytes, and its length is a multiple of 4 |
| Wire.U32RoundTrip | libspc/serialization.c:66-76 | a `uint32` written little-endian reads back unchanged |
| Wire.U64RoundTrip | libspc/serialization.c:78-86 | a `uint64` written little-endian reads back unchanged |
| Values.TagOf | libspc/serialization.c:118-161 | a value falls to the `default` branch exactly when its type field is none of the known tags |
| Encoding.StrBytes | libspc/serialization.c:61-64 | a written string is the string, then its zero terminator, then padding: at least 4 bytes, a multiple of 4 |
| Encoding.Framed | libspc/serialization.c:166-199 | an array or dictionary block is two 4-byte fields followed by the items unchanged |
| Encoding.EncodeValue | libspc/serialization.c:118-164 | every encoded value starts with its 4-byte type tag |
| Encoding.Payload | libspc/serialization.c:122-161 | exactly Null, FD, send port, receive port and unknown kinds write nothing after the tag |
| Encoding.EncodeElems | libspc/serialization.c:174-176 | the elements of an array take at least 4 bytes each |
| Encoding.EncodeEntries | libspc/serialization.c:191-194 | the items of a dictionary take at least 8 bytes each, key and value |
| Encoding.PortsOf | libspc/serialization.c:147-151 | an FD, send or receive port contributes exactly its port; only those and containers contribute ports |
| Encoding.ElemsAppend | libspc/serialization.c:174-176 | encoding the elements of a longer array appends bytes and ports, in index order |
| Encoding.EntriesAppend | libspc/serialization.c:191-194 | encoding more dictionary items appends bytes and ports, in list order |
| Encoding.TagOnlyKinds | libspc/serialization.c:121-161 | Null, FD, send and receive ports, and unknown kinds write only their 4-byte tag; the port kinds add exactly their port |
| Encoding.EncodedAligned | libspc/serialization.c:118-164 | every encoded value is at least its tag, and its length is a multiple of 4 |
| Encoding.ElemsAligned | libspc/serialization.c:174-176 | the elements of an array keep the stream 4-byte aligned |
| Encoding.EntriesAligned | libspc/serialization.c:191-194 | the items of a dictionary keep the stream 4-byte aligned |
| Encoding.FramedFields | libspc/serialization.c:166-199 | the backpatched size field holds the number of bytes after it (mod 2^32), followed by the count |
| Writing.Writer.constructor | libspc/serialization.c:205-211 | a fresh writer of the initial capacity has written nothing and holds no ports |
| Writing.Writer.EnsureSpace | libspc/serialization.c:26-35 | when fewer than n bytes remain, the buffer grows by exactly n; the bytes, the cursor and the ports are kept |
| Writing.Writer.Put | libspc/serialization.c:41-42 | copies the data at the cursor and advances past it, within the buffer's existing space |
| Writing.Writer.Write | libspc/serialization.c:37-45 | appends the data and returns its length |
| Writing.Writer.WritePadded | libspc/serialization.c:47-59 | appends the data and its zero padding, and returns that length, a multiple of 4 |
| Writing.Writer.WriteStr | libspc/serialization.c:61-64 | appends the string, its terminator and padding, and returns that length |
| Writing.Writer.WriteU32 | libspc/serialization.c:66-76 | appends the 4 little-endian bytes and returns 4 |
| Writing.Writer.WriteU64 | libspc/serialization.c:78-86 | appends the 8 little-endian bytes and returns 8 |
| Writing.Writer.WriteI64 | libspc/serialization.c:88-96 | appends the 8 bytes of the value's bit pattern and returns 8 |
| Writing.Writer.WriteDouble | libspc/serialization.c:98-106 | appends the 8 bytes of the double's bit pattern and returns 8 |
| Writing.Writer.WritePort | libspc/serialization.c:108-113 | appends exactly one port to the side list and leaves the bytes alone |
| Writing.Writer.StoreU32 | libspc/serialization.c:179 | overwrites 4 already-written bytes at an offset and nothing else |
| Writing.Writer.SerializeValue | libspc/serialization.c:118-164 | appends exactly the value's encoding, returns its length, and collects its ports in traversal order |
| Writing.Writer.WriteScalar | libspc/serialization.c:125-136 | the Bool, UInt64, Int64 and Double cases append their payload; a Bool is truncated to 32 bits |
| Writing.Writer.WriteString | libspc/serialization.c:137-140 | the string case appends `strlen + 1` and then the padded string |
| Writing.Writer.WriteData | libspc/serialization.c:155-158 | the data case appends the size and then the padded bytes |
| Writing.Writer.WriteArray | libspc/serialization.c:166-181 | appends the backpatched size, the count and the elements in order; returns the total length and collects the elements' ports in order |
| Writing.Writer.WriteDict | libspc/serialization.c:183-199 | appends the backpatched size, the count and each key and value in list order; returns the total length and collects the ports in order |
| Writing.ElemsSnoc | libspc/serialization.c:174-176 | one more loop turn appends one element's bytes and ports |
| Writing.EntriesSnoc | libspc/serialization.c:191-194 | one more loop turn appends one item's key, value and ports |
| Writing.BackPatch | libspc/serialization.c:169-180 | a placeholder, then overwriting it with the byte count, yields the framed layout |
| Decoding.ReadBytes | libspc/serialization.c:259-270 | a read fails, out of bounds, exactly when `ptr + len > end`; otherwise it yields len bytes and advances by len |
| Decoding.ReadU32 | libspc/serialization.c:287-290 | a 4-byte read fails exactly when fewer than 4 bytes remain, and otherwise advances by 4 |
| Decoding.ReadU64 | libspc/serialization.c:272-285 | an 8-byte read fails exactly when fewer than 8 bytes remain, and otherwise advances by 8 |
| Decoding.ReadPadded | libspc/serialization.c:292-297 | a padded read fails exactly when size rounded up to a multiple of 4 does not fit; otherwise it yields exactly that many next bytes (at least size) and advances by exactly that amount |
| Decoding.ReadStr | libspc/serialization.c:299-306 | a string read fails only for want of a terminator or out of bounds; a success advances past the string and more |
| Decoding.FindZero | libspc/serialization.c:301 | a zero byte is only ever found inside the remaining range |
| Decoding.FindZeroIsFirst | libspc/serialization.c:301-303 | `memchr` finds the first zero byte, and fails exactly when none is left |
| Decoding.ReadStrOutcome | libspc/serialization.c:299-306 | reading a string fails for want of a terminator exactly when no zero byte is left; with a zero byte found it succeeds exactly when the padded terminator fits, and otherwise aborts out of bounds; a success yields the bytes before the first zero and moves past the padded terminator |
| Decoding.NextPort | libspc/serialization.c:308-315 | the index never passes the end, and when it does not move the port handed out is the null port |
| Decoding.TakePortsInOrder | libspc/serialization.c:308-315 | successive calls hand out the received ports in order, then the null port for every further call |
| Decoding.DecodeValue | libspc/serialization.c:348-398 | a decoded value consumes at least its tag and stays inside the message; every failure ends the process |
| Decoding.DecodeBody | libspc/serialization.c:351-395 | each case of the switch stays inside the message and uses ports only forward; every failure ends the process |
| Decoding.DecodeArray | libspc/serialization.c:319-330 | an array consumes at least its size and count fields; every failure ends the process |
| Decoding.DecodeDict | libspc/serialization.c:332-346 | a dictionary consumes at least its size and count fields; every failure ends the process |
| Decoding.DecodeElems | libspc/serialization.c:324-327 | the element loop stays inside the message; every failure ends the process |
| Decoding.DecodeEntries | libspc/serialization.c:336-343 | the item loop stays inside the message; every failure ends the process |
| Decoding.ElemsStep | libspc/serialization.c:324-327 | one loop turn appends the decoded element |
| Decoding.EntriesStep | libspc/serialization.c:336-343 | one loop turn prepends the decoded key and value to the items so far |
| Decoding.UnknownTagIsFatal | libspc/serialization.c:393-395 | an FD tag or an unknown tag ends the process |
| Reading.Reader.constructor | libspc/serialization.c:404-409 | a fresh reader starts at the beginning with no ports and next index 0 |
| Reading.Reader.Read | libspc/serialization.c:259-270 | a read fails exactly when `ptr + len > end`; otherwise it returns the next len bytes and advances by len |
| Reading.Reader.ReadU32 | libspc/serialization.c:287-290 | reads 4 little-endian bytes, bounds-checked |
| Reading.Reader.ReadU64 | libspc/serialization.c:272-275 | reads 8 little-endian bytes, bounds-checked |
| Reading.Reader.ReadI64 | libspc/serialization.c:277-280 | reads the same 8 bytes as `spc_read_uint64` and reinterprets them as signed |
| Reading.Reader.ReadPadded | libspc/serialization.c:292-297 | consumes the size rounded up to a multiple of 4 |
| Reading.Reader.ReadStr | libspc/serialization.c:299-306 | computes the string read of `Decoding` |
| Reading.Reader.NextPort | libspc/serialization.c:308-315 | hands out the next received port, or the null port when they are used up |
| Reading.Reader.DeserializeValue | libspc/serialization.c:348-398 | computes exactly `Decoding.DecodeValue`, with the final cursor and port index |
| Reading.Reader.DeserializeArray | libspc/serialization.c:319-330 | computes exactly `Decoding.DecodeArray` |
| Reading.Reader.DeserializeDict | libspc/serialization.c:332-346 | computes exactly `Decoding.DecodeDict`, prepending items |
| RoundTrip.AsDecodedElems | libspc/serialization.c:324-327 | the decoded array has as many elements as the written one |
| RoundTrip.AsDecodedEntries | libspc/serialization.c:336-343 | the decoded dictionary has as many items as the written one |
| RoundTrip.DecodeEncode | libspc/serialization.c:118-164 | decoding the bytes written for a value, with its ports waiting in order, rebuilds it and uses up exactly its bytes and ports; Bool comes back truncated and dictionaries reversed |
| RoundTrip.DecodeLeaf | libspc/serialization.c:351-386 | Null, Bool and UUID values come back from their bytes |
| RoundTrip.DecodeWide | libspc/serialization.c:358-366 | UInt64, Int64 and Double values come back from their 8 bytes |
| RoundTrip.WideBody | libspc/serialization.c:358-366 | the 8-byte cases of the switch rebuild the value |
| RoundTrip.DecodeHandle | libspc/serialization.c:377-382 | send and receive ports are reattached from the port list, one each, in order |
| RoundTrip.DecodeStr | libspc/serialization.c:367-370 | a string comes back from its length, bytes and padded terminator |
| RoundTrip.DecodeData | libspc/serialization.c:387-391 | data comes back from its size and padded bytes |
| RoundTrip.ArrayFields | libspc/serialization.c:319-330 | the array case ignores the size field and decodes count elements |
| RoundTrip.DictFields | libspc/serialization.c:332-346 | the dictionary case ignores the size field and decodes count items |
| RoundTrip.DecodeEncodeArray | libspc/serialization.c:319-330 | an encoded array decodes to its elements in the same order |
| RoundTrip.DecodeEncodeDict | libspc/serialization.c:332-346 | an encoded dictionary decodes to its items in reverse order |
| RoundTrip.ArrayExpected | libspc/serialization.c:319-330 | the expected array result spans the whole framed encoding |
| RoundTrip.DictExpected | libspc/serialization.c:332-346 | the expected dictionary result spans the whole framed encoding |
| RoundTrip.DecodeEncodeElems | libspc/serialization.c:324-327 | the element loop decodes every encoded element in order |
| RoundTrip.ElemsHead | libspc/serialization.c:324-327 | the first element of an encoded list decodes on its own |
| RoundTrip.ExpectedElemsCons | libspc/serialization.c:324-327 | appending one decoded element advances the expected array result |
| RoundTrip.EntryHead | libspc/serialization.c:337-342 | the first key and value of an encoded list decode on their own |
| RoundTrip.ExpectedEntriesCons | libspc/serialization.c:337-342 | prepending one decoded item advances the expected, reversed dictionary result |
| RoundTrip.DecodeEncodeEntries | libspc/serialization.c:336-343 | the item loop decodes every encoded item, reversing their order |
| RoundTrip.DecodeOwnEncoding | libspc/serialization.c:118-164 | a value's own encoding with its own ports decodes back and is used up completely |
| RoundTrip.UndecodableKinds | libspc/serialization.c:147-151 | an FD or unknown kind is written as a bare tag, and the decoder ends the process on it |
| Envelope.PortDescriptor | libspc/serialization.c:234-239 | a port descriptor is 12 bytes |
| Envelope.Descriptors | libspc/serialization.c:234-240 | the descriptor array is 12 bytes per port |
| Envelope.DescriptorsSnoc | libspc/serialization.c:234-240 | one loop turn appends one descriptor |
| Envelope.EncodeMessage | libspc/serialization.c:201-257 | the header carries the remote and local port names and the id unchanged, and the body holds at least the magic and the type tag |
| Envelope.WriteContent | libspc/serialization.c:205-217 | the content is the magic, the DICT tag and the dictionary, with its ports in traversal order |
| Envelope.WriteDescriptors | libspc/serialization.c:227-240 | writes the descriptor count and then one descriptor per port, in order |
| Envelope.Serialize | libspc/serialization.c:201-257 | computes exactly `EncodeMessage` |
| Envelope.EncodeMessageSize | libspc/serialization.c:222-250 | `msgh_size` is the header plus, when there are ports, the body count and 12 bytes per port, plus the content, mod 2^32 |
| Envelope.EncodeMessageContent | libspc/serialization.c:214-216 | the content starts with the magic, then the DICT tag and the encoded dictionary, right after any descriptors |
| Envelope.EncodeMessageDescriptors | libspc/serialization.c:228-240 | with ports, the body starts with their number and descriptor i carries port i |
| Envelope.EncodeMessageBits | libspc/serialization.c:225-251 | the complex bit is set exactly when there are ports, and the remote and local dispositions sit where `MACH_MSGH_BITS_REMOTE` and `MACH_MSGH_BITS_LOCAL` read them |
| Envelope.MsghBitsFields | libspc/serialization.c:251 | combining the complex bit with `MACH_MSGH_BITS` keeps each field recoverable |
| Envelope.ComplexField | libspc/serialization.c:225 | the complex bit survives the disposition bits |
| Envelope.RemoteField | libspc/serialization.c:251 | the remote disposition is recoverable from the bits |
| Envelope.LocalField | libspc/serialization.c:251 | the local disposition is recoverable from the bits |
| Envelope.BitFields | libspc/serialization.c:251 | the three bit fields do not overlap |
| Envelope.Received | libspc/serialization.c:408-409 | the reader's range is the body up to `msgh_size` bytes from the start of the header, and no further |
| Envelope.ParseDescriptors | libspc/serialization.c:420-445 | every failure of the descriptor loop ends the process |
| Envelope.ParseBody | libspc/serialization.c:420-445 | a simple message has no descriptors; a complex one advances past the count and 12 bytes for every port taken; every failure ends the process |
| Envelope.ReadDescriptors | libspc/serialization.c:420-445 | the descriptor loop on the reader computes exactly `ParseDescriptors` and collects the ports |
| Envelope.Deserialize | libspc/serialization.c:402-469 | computes exactly `DecodeMessage` |
| Envelope.PortDescriptorFields | libspc/serialization.c:235-237 | a written descriptor carries the port name, its disposition byte and the port-descriptor type |
| Envelope.DescriptorAt | libspc/serialization.c:234-240 | descriptor i sits 12·i bytes in |
| Envelope.BodyContent | libspc/serialization.c:243-252 | the content follows the descriptors, copied whole |
| Envelope.BodyDescriptors | libspc/serialization.c:228-240 | a complex body starts with the count and then the descriptors |
| Envelope.ContentFields | libspc/serialization.c:214-216 | the content holds the magic, then the DICT tag and dictionary |
| Envelope.ParseDescriptorsAt | libspc/serialization.c:424-431 | written port descriptors are read back as the same ports, in order |
| Envelope.ParseDescriptorsBounds | libspc/serialization.c:420-445 | the loop keeps the ports taken so far, adds at most one per descriptor, and advances at least 12 bytes per descriptor |
| Envelope.BadDescriptorIsFatal | libspc/serialization.c:441-443 | a descriptor of another type ends the process |
| Envelope.OutOfLineSkipped | libspc/serialization.c:432-439 | out-of-line memory and out-of-line port descriptors are skipped and add no port |
| Envelope.DecodeMessage | libspc/serialization.c:402-469 | id 71 ends the process; NULL comes only after the descriptors were accepted; both port names of the result come from `msgh_remote_port` and the id is kept |
| Envelope.BadMagicReturnsNull | libspc/serialization.c:420-450 | after any accepted descriptors, simple or complex message, a wrong magic gives NULL |
| Envelope.NotADictReturnsNull | libspc/serialization.c:420-457 | after any accepted descriptors and the magic, a top-level value other than a dictionary gives NULL |
| Envelope.ParseBodyOf | libspc/serialization.c:420-445 | the descriptors spc_serialize writes are read back as its port list |
| Envelope.DecodeMessageOf | libspc/serialization.c:447-466 | after the descriptors, the magic and a dictionary give the message built from the header |
| Envelope.ReceivedIsBody | libspc/serialization.c:408 | for a message spc_serialize built (its `msgh_size` set to the whole message at line 250), the reader's range, which ends at `msgh_size`, is the whole body |
| Envelope.ContentReads | libspc/serialization.c:447-452 | the content spc_serialize wrote passes the magic check and decodes |
| Envelope.DecodeBuilt | libspc/serialization.c:402-469 | any header with the right bits and size over a built body decodes to its content |
| Envelope.DeserializeSerialize | libspc/serialization.c:201-469 | deserializing what spc_serialize built gives back the message: the remote port, the local disposition under the remote name, the id, and the content with Bools truncated and dictionaries reversed |

## Left out

- Memory management is not modelled: `malloc`, `realloc`, `free` and `strdup`'s copy. Buffers and lists are sequences, and the new bytes of a grown buffer are zeros.
- `printf` and `puts` diagnostics are left out because they have no effect on the result.
- The container library (`spc_array_*`, `spc_dictionary_*`, `spc_value_destroy`) is not part of this model. Arrays are sequences, and a dictionary is its item list in list order.
- The `SPC_TYPE_*` tags are taken as the XPC wire values; the proofs use only that they are distinct.
- The Mach kernel is not modelled. Its header and descriptor sizes, descriptor kinds and bit masks are named constants: 24, 4, 12 and 16 bytes; kinds 0, 1 and 2; `0x80000000`, `0x1f` and `0x1f00`.
- Floating point: a double is carried as its 8-byte pattern, and `spc_read_double` reads the same bytes as `spc_read_uint64`.
- Uninitialised bytes are modelled as zeros: the padding of a port descriptor. The voucher field of the header is not modelled.
- Envelope.Deserialize requires `msgh_size` to be no more than the bytes actually present, as the kernel guarantees for a received message.
- Writing.Writer.WriteDict writes the length of the item list as the count; the source's separate `num_items` field is assumed to agree with the list.
- `size_t` counters are unbounded integers; only the stores into `uint32_t` fields are truncated.
- The signed `int i` descriptor loop counter of `spc_deserialize` is not modelled, because counts of 2^31 or more cannot fit in a message.
- Envelope.EncodeMessageBits and Envelope.MsghBitsFields require both dispositions to fit 5 bits. `MACH_MSGH_BITS` comes from a system header that is not part of this model. The model takes it as the unmasked `MACH_MSGH_BITS(remote, local) = remote | (local << 8)`, as Envelope.MsghBits defines it; masking versions of the header would confine each field to 5 bits themselves. Unmasked, a local disposition wider than 5 bits shifted by 8 can reach the complex bit, so the bits would no longer say whether ports were sent.
- Envelope.DeserializeSerialize is stated for messages whose dispositions fit the 5-bit header fields and whose port dispositions fit the descriptor's byte. It needs a total size below 2^32 and an id other than 71.
- `strdup(NULL)` after `spc_read_str` finds no terminator is `MissingTerminator`, an end of the process.
- A descriptor whose type byte lies past the end of the message is `PeekPastEnd`: the source reads it unchecked, and every path after that ends the process.
- Connection-interrupted handling: the dictionary the source builds before exiting is dropped.
