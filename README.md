# GenericPacket framing codec, modelled in Dafny

GenericPacket frames messages for a byte stream. Each packet on the wire is a
fixed header `[size][type]` followed by exactly `size` payload bytes. Both
header fields are unsigned integers of 1, 2 or 4 bytes (the template arguments
`S` and `T`). They are written in network byte order (big-endian, most
significant byte first). A 1-byte field is copied as it is.

The model covers:

- `ByteOrder` (`byte_order.dfy`): `hton`/`ntoh` for the three supported
  widths, as big-endian bytes, with both round trips proved.
- `QtBytes` (`qt_bytes.dfy`): the parts of `QByteArray` the codec uses.
  `mid`, `left` and `remove` keep Qt's clamping. `ByteArray` is a buffer
  passed by reference, so a callee can shorten the caller's buffer.
- `GenericPacketHelper` (`raw_header.dfy`): the packed `RawHeader<S, T>` and
  its `toData`/`fromData`, as explicit byte sequences.
- `GenericPacket` (`generic_packet.dfy`): the templated codec of
  `include/GenericPacket.h`.
  - `Header` and `Packet` are classes, because `setSize`, `setType` and
    `setPayload` assign their fields.
  - The completeness predicates and the decoders are pure static functions:
    `Header.Decode`, `Packet.Decode`, `Packet.Extract` and `Packet.Encode`.
  - The static methods that build objects (`FromData`, `ExtractFromData`,
    `New`) are proved against those functions. `ExtractFromData` removes
    exactly the consumed bytes from the caller's `ByteArray`.
- `LegacyPacket` (`legacy_packet.dfy`): the two older copies.
  - `GenericPacket.h`/`GenericPacket.cpp` are fixed to a 32-bit size and a
    32-bit type. Their constructor has no range check.
  - `GenericPacketT.cpp` is a template.
  - Both copies share the encoder, the decoder and the predicates above. Their
    extract path differs, and it is modelled as written.

The template arguments become a `Layout(sizeWidth, typeWidth)` value drawn
from the closed set `U8 | U16 | U32`. The `std::length_error` and
`std::range_error` exceptions become `Failure(IncompleteData)` and
`Failure(PayloadTooLarge)`. A byte is the newtype `byte` (0..255).

The constructors check that the payload length fits `S`, but `setPayload`
does not: it casts the new length to `S`, so an oversized payload is recorded
with a truncated size. The model does what the code does (see Findings).

## Model

| member | source | states |
|---|---|---|
| ByteOrder.MaxValue | include/GenericPacket.h:218-222 | `numeric_limits<S>::max()`: one less than 256 to the power of the field's byte count (255, 65535, 4294967295) |
| ByteOrder.Truncate | include/GenericPacket.h:240-243 | `static_cast<S>` of a length: the result fits the field and is congruent to the length modulo 256^sizeof(S) (it wraps, it does not saturate); it equals the length when it fits and differs from it when it does not |
| ByteOrder.Hton | include/GenericPacket.h:123-136 | `hton`: exactly sizeof(T) wire bytes, most significant first: byte i is digit sizeof(T) - 1 - i of the value in base 256; a 1-byte value is copied unchanged |
| ByteOrder.Ntoh | include/GenericPacket.h:108-121 | `ntoh`: the value read back fits the width; a 1-byte field is taken unchanged |
| ByteOrder.DecodeEncode | include/GenericPacket.h:113-136 | decoding the big-endian bytes of any value that fits gives that value back |
| ByteOrder.EncodeDecode | include/GenericPacket.h:113-121 | re-encoding any decoded byte sequence over its own length reproduces it |
| ByteOrder.EncodeDigit | include/GenericPacket.h:123-136 | byte i of the k-byte big-endian encoding of n is (n / 256^(k-1-i)) mod 256, for every n, k and i |
| ByteOrder.NtohHton | GenericPacketT.cpp:8-38 | `ntoh(hton(v)) == v` for every value of the width |
| ByteOrder.HtonNtoh | GenericPacketT.cpp:8-38 | `hton(ntoh(b)) == b` for every byte pattern of the width |
| ByteOrder.NetworkOrderExamples | GenericPacketT.cpp:20-38 | the most significant byte goes first: 0x0102 is `01 02`, 0x01020304 is `01 02 03 04`; 8-bit values are unchanged |
| QtBytes.Mid | include/GenericPacket.h:312-317 | `QByteArray::mid(pos, len)`: at most len bytes copied from pos, none when pos is past the end |
| QtBytes.Left | include/GenericPacket.h:319-323 | `QByteArray::left(len)`: a prefix of the buffer of length min(len, size) |
| QtBytes.Remove | include/GenericPacket.h:231-238 | `QByteArray::remove(pos, len)`: nothing when pos is out of range, otherwise the bytes before pos are kept and min(len, size - pos) bytes are dropped |
| QtBytes.ToInt | GenericPacketT.cpp:216 | a size_t length passed to Qt 5's `int` parameter: a value in the `int` range, equal to the length below 2^31 and congruent to it modulo 2^32 |
| QtBytes.RemoveNarrowed | GenericPacketT.cpp:216 | Qt 5's `remove(pos, len)` given a size_t length: a length that narrows to zero or less removes nothing, otherwise `Remove` with the narrowed length |
| QtBytes.ByteArray.RemoveRange | include/GenericPacket.h:237 | removing from the caller's buffer in place: the buffer becomes `Remove` of its old contents |
| QtBytes.ByteArray.RemoveNarrowedRange | GenericPacket.cpp:144 | the older extract's `remove` on the caller's buffer: the buffer becomes `RemoveNarrowed` of its old contents |
| QtBytes.ByteArray.constructor | include/GenericPacket.h:319-322 | the caller-owned `QByteArray` that `GenericPacket(QByteArray &)` receives by reference: a buffer object holding the given bytes |
| QtBytes.RemoveFront | include/GenericPacket.h:326 | removing a prefix that is present leaves exactly the bytes after it |
| QtBytes.MidOfSuffix | GenericPacketT.cpp:213-214 | `mid` on a buffer whose first k bytes were removed reads k bytes further into the original |
| QtBytes.RemoveOfSuffix | GenericPacketT.cpp:216 | a second `remove` on an already shortened buffer drops min(k + len, size) bytes of the original |
| GenericPacketHelper.RawHeader.ToData | include/GenericPacket.h:150-154 | the header is exactly sizeof(S)+sizeof(T) bytes: the size field in network order comes first, then the type field in network order; a 1-byte field appears on the wire unchanged |
| GenericPacketHelper.RawHeader.FromData | include/GenericPacket.h:145-149 | the decoded size and type always fit their field types |
| GenericPacketHelper.FromToData | include/GenericPacket.h:145-154 | reading back what toData wrote gives the same size and type |
| GenericPacketHelper.ToFromData | include/GenericPacket.h:145-154 | writing out what fromData read reproduces the header bytes exactly |
| GenericPacketHelper.FromDataPrefix | include/GenericPacket.h:145-149 | fromData looks only at the first sizeof(RawHeader) bytes; anything after them is ignored |
| GenericPacketHelper.PackedSizeExamples | include/GenericPacket.h:138-156 | the packed struct has no padding: 3 bytes for uint16/uint8, 8 for uint32/uint32, 2 for uint8/uint8 |
| GenericPacket.Header.Default | include/GenericPacket.h:63-64 | `Header() = default` (line 29) with the member initialisers: size 0 and type 0 |
| GenericPacket.Header.constructor | include/GenericPacket.h:160-166 | `Header(Size, Type)` stores the given size and type |
| GenericPacket.Header.DataSize | include/GenericPacket.h:212-216 | `dataSize()` is sizeof(S)+sizeof(T), between 2 and 8 |
| GenericPacket.Header.MaxSize | include/GenericPacket.h:218-222 | `maxSize()` is exactly the largest length the size field stores without loss |
| GenericPacket.Header.HasCompleteHeader | include/GenericPacket.h:168-172 | holds iff the buffer has at least sizeof(S)+sizeof(T) bytes |
| GenericPacket.Header.Decode | include/GenericPacket.h:174-181 | fails with IncompleteData iff the header is incomplete; otherwise the fields fit and re-encode to exactly the first dataSize() bytes |
| GenericPacket.Header.FromData | include/GenericPacket.h:174-181 | returns a new header whose fields are `Decode`'s, or its IncompleteData failure |
| GenericPacket.Header.ExtractFromData | include/GenericPacket.h:183-190 | the same header or failure as `Decode`; on success exactly the first dataSize() bytes are removed from the caller's buffer; on failure the buffer is unchanged |
| GenericPacket.Header.FromBytes | include/GenericPacket.h:224-229 | the private `Header(const QByteArray &)` reads both fields from the front of the data |
| GenericPacket.Header.FromBuffer | include/GenericPacket.h:231-238 | the private `Header(QByteArray &)` reads from the front first, then removes dataSize() bytes |
| GenericPacket.Header.SetSize | include/GenericPacket.h:192-197 | the size becomes the given value and the type is unchanged |
| GenericPacket.Header.SetType | include/GenericPacket.h:199-204 | the type becomes the given value and the size is unchanged |
| GenericPacket.Header.ToData | include/GenericPacket.h:206-210 | exactly dataSize() bytes, which decode back to this header |
| GenericPacket.Packet.Default | include/GenericPacket.h:67 | `GenericPacket() = default`: an empty payload under a zero header |
| GenericPacket.Packet.Unchecked | GenericPacket.cpp:78-88 | the constructors' member initialisers: the size is the payload length cast to S, the type is the given one, and nothing is checked |
| GenericPacket.Packet.SizeCanHoldPayload | include/GenericPacket.h:329-339 | the range check passes iff casting the payload length to S loses nothing |
| GenericPacket.Packet.New | include/GenericPacket.h:240-254 | fails with PayloadTooLarge iff the payload is longer than maxSize(); otherwise size = payload length, type = the given type, and the payload is the given bytes |
| GenericPacket.Packet.HasCompletePacket | include/GenericPacket.h:256-264 | holds iff the header is complete and at least the decoded size of bytes follows it; the subtraction is reached only after the header check, so it cannot underflow |
| GenericPacket.Packet.Encode | include/GenericPacket.h:300-304 | `toData` as a value: dataSize() + payload length bytes, the payload after the header, and the header part decodes to the packet's header |
| GenericPacket.Packet.Decode | include/GenericPacket.h:266-273 | fails with IncompleteData iff the packet is incomplete; otherwise size == payload length, and re-encoding gives exactly the consumed prefix of the buffer |
| GenericPacket.Packet.Extract | include/GenericPacket.h:275-282 | fails iff the packet is incomplete; otherwise the same packet as `Decode`, and the buffer is that packet's bytes followed by what is left |
| GenericPacket.Packet.FromData | include/GenericPacket.h:266-273 | returns a new packet equal to `Decode`'s result, or its failure |
| GenericPacket.Packet.ExtractFromData | include/GenericPacket.h:275-282 | returns the packet `Extract` gives and leaves the caller's buffer as `Extract`'s remainder; on failure the buffer is unchanged |
| GenericPacket.Packet.FromBytes | include/GenericPacket.h:312-317 | the private `GenericPacket(const QByteArray &)`: header by fromData, payload by mid(dataSize(), size) equals `Decode` |
| GenericPacket.Packet.FromBuffer | include/GenericPacket.h:319-327 | the private `GenericPacket(QByteArray &)`: header extract, left(size), remove(0, size) together equal `Extract` |
| GenericPacket.Packet.SetPayload | include/GenericPacket.h:284-298 | the payload is replaced, the size becomes its length cast to S with no range check, and the type is unchanged |
| GenericPacket.Packet.SetPayloadChecked | include/GenericPacket.h:329-339 | setPayload with the constructors' range check: PayloadTooLarge iff too long, with nothing changed; otherwise the size is the exact length |
| GenericPacket.Packet.ToData | include/GenericPacket.h:300-304 | the header bytes followed by the payload; a packet whose size matches its payload decodes back to itself |
| GenericPacket.Packet.DataSize | include/GenericPacket.h:306-310 | exactly the length of toData() |
| GenericPacket.RoundTrip | include/GenericPacket.h:312-327 | a constructed packet followed by any bytes is complete and decodes to itself; extracting it leaves exactly the bytes that followed |
| GenericPacket.DrainsOnePacket | GenericPacket.h:65-69 | extracting from P1 ++ P2 yields P1 and leaves exactly P2's bytes |
| GenericPacket.CompletenessMonotonic | GenericPacket.h:58-59 | a complete packet stays complete, and decodes the same, when more bytes are appended |
| GenericPacket.IncompleteHeaderRejected | GenericPacket.h:26-35 | a buffer shorter than a header fails both decoders with IncompleteData and is not a complete packet |
| GenericPacket.EmptyPayload | GenericPacket.h:58-64 | an empty payload encodes to the header alone, which is a complete packet and decodes back |
| GenericPacket.ByteExactExample | include/GenericPacket.h:300-304 | with a 16-bit size and an 8-bit type, a 20-byte payload of type 42 is sent as `00 14 2A` followed by the payload |
| GenericPacket.OversizedPayload | include/GenericPacket.h:329-332 | an 8-bit size field cannot hold a 300-byte payload |
| GenericPacket.SetPayloadTruncates | include/GenericPacket.h:284-290 | as written, a 300-byte payload under an 8-bit size field is recorded as 44 and decodes back as its first 44 bytes |
| LegacyPacket.Layout32Facts | GenericPacket.cpp:7-31 | the fixed copy's header is 8 bytes, complete iff 8 bytes are present, and its size field holds up to 4294967295 |
| LegacyPacket.New32 | GenericPacket.h:55-56 | the fixed copy's constructors never fail; the size is the payload length cast to uint32, exact for lengths up to 4294967295 |
| LegacyPacket.ExtractHeaderAsWritten | GenericPacket.cpp:73-76 | as written: fails iff the header is incomplete; otherwise the header bytes are removed first and the header is decoded from the bytes after them |
| LegacyPacket.ExtractAsWritten | GenericPacket.cpp:140-145 | as written: fails iff the packet is incomplete; the final `remove` length n + size is narrowed to Qt 5's `int` |
| LegacyPacket.ExtractAsWrittenHeaderSlot | GenericPacketT.cpp:212-213 | as written, with n the header length: the header comes from the second header slot, bytes [n, 2n) |
| LegacyPacket.ExtractAsWrittenPayload | GenericPacketT.cpp:214 | as written: the payload is the up to size bytes from offset 2n of the original buffer |
| LegacyPacket.ExtractAsWrittenRemoves | GenericPacketT.cpp:216 | as written, with k = n + size narrowed to `int`: for k > 0 what is left is the original buffer from byte min(n + k, length) on; for k <= 0 nothing more is removed and all but the first n bytes are left |
| LegacyPacket.ExtractHeaderFromBuffer | GenericPacketT.cpp:120-124 | the older header extract on the caller's buffer equals `ExtractHeaderAsWritten`; on failure the buffer is unchanged |
| LegacyPacket.ExtractFromDataAsWritten | GenericPacketT.cpp:211-217 | the older packet extract on the caller's buffer, with the narrowed `remove`, equals `ExtractAsWritten` and returns a fresh packet and header; on failure the buffer is unchanged |
| LegacyPacket.GuardAdmitsOutOfBoundsRead | GenericPacket.cpp:41-47 | a header-only 32/32 packet passes the completeness checks, yet the older extract would read its header past the end of the buffer |
| LegacyPacket.ExtractAsWrittenSkipsPacket | GenericPacket.cpp:140-145 | when the first packet has an empty payload and the buffer fits a Qt 5 `QByteArray`, the older extract returns the second packet and removes both |
| LegacyPacket.ExtractAsWrittenDisagrees | GenericPacketT.cpp:204-217 | on two header-only packets of types 1 and 2, the current extract returns type 1 and leaves the second, while the older one returns type 2 and leaves nothing |
| LegacyPacket.ExtractAsWrittenWrapped | GenericPacketT.cpp:211-217 | on a complete 32/32 buffer under 2^31 bytes whose second header slot has size 0xFFFFFFFF, the older extract returns the bytes from 16 on as the payload and leaves the bytes from 15 on |
| LegacyPacket.ExtractAsWrittenLengthWraps | GenericPacketT.cpp:216 | a packet whose payload is a header of size 0xFFFFFFFF followed by a tail: the older extract hands out the tail as a payload, yet leaves the last header byte and the whole tail in the buffer |

## Left out

- Error messages: the `QObject::tr(...).arg(...)` text of the range error is not modelled, only the error kind.
- `reinterpret_cast`, `#pragma pack(1)`, host endianness and the `is_pod` static assertions: the header is modelled as the bytes that reach the wire.
- Widths other than 8, 16 and 32 bits have no `hton`/`ntoh` overload and do not compile; the width is a closed three-value datatype.
- The `&&` overloads of the constructors and of `setPayload`, copy-on-write and move semantics: they behave like the `const &` ones.
- `QByteArray` sizes are Qt 5 `int`s, so real buffers are shorter than 2^31 bytes; the model's buffers are unbounded sequences, and a 32-bit size cast is modelled with explicit truncation.
- The `int` narrowing of a length is modelled only for the older extract's final `remove(0, sizeof(RawHeader) + size)`, the one call whose length is not bounded by the buffer. Every other `mid`/`left`/`remove` length is at most the buffer length, or the narrowed value reads to the end just as the clamp does, so narrowing changes nothing there. Qt 6 takes `qsizetype` and does not narrow, so `ExtractAsWrittenRemoves` describes the code built against Qt 5.
- LegacyPacket.ExtractAsWrittenSkipsPacket: requires the two packets to fit a Qt 5 buffer (fewer than 2^31 bytes). A longer second payload would narrow the final `remove` length, and Qt 5 cannot hold such a buffer anyway.
- `NamedType`'s implicit conversion to the integer: `Size` and `Type` are distinct wrapper datatypes, also in the 32/32 copy where both wrap `std::uint32_t`.
- `header()` and `payload()` return mutable references; in the model the fields are simply public. `Packet.Valid()` therefore does not include size == payload length, because the source does not enforce it.
- C++ value semantics: a packet copies its header, while the model's `Packet` points to a `Header` object. The constructors and decoders allocate a fresh header each time, but the model does not forbid two packets sharing one.
- LegacyPacket.ExtractHeaderAsWritten: only defined when the buffer holds two header lengths. The source reads past the end of shorter complete buffers, which has no defined result, so those buffers are excluded by a precondition.
- LegacyPacket.ExtractAsWritten: the same precondition as ExtractHeaderAsWritten, for the same reason.
- LegacyPacket.ExtractHeaderFromBuffer: the same precondition as ExtractHeaderAsWritten, on the caller's buffer, for the same reason.
- LegacyPacket.ExtractFromDataAsWritten: the same precondition as ExtractAsWritten, on the caller's buffer, for the same reason.
- Header.SetSize and Header.SetType require the value to fit the field; in C++ the field's integer type guarantees this.
- The codec does no I/O and has no shared state, so nothing about transports or concurrency is modelled.

## Findings

| source | as written | input that shows it | evidently intended | confidence | as-written member | corrected member |
|---|---|---|---|---|---|---|
| GenericPacket.cpp:73-76 | `Header(QByteArray &)` removes the 8 header bytes before decoding, so it decodes bytes 8-15 after checking only that 8 bytes exist | a 32/32 header-only packet: 8 bytes with size 0 | decode bytes 0-7, then remove them | high, not executed | LegacyPacket.GuardAdmitsOutOfBoundsRead | GenericPacket.Header.ExtractFromData |
| GenericPacketT.cpp:211-217 | the packet extract decodes the second header slot, slices the payload at offset sizeof(RawHeader) of the shortened buffer, and removes too much | two header-only 32/32 packets of types 1 and 2, back to back | return the first packet and leave exactly the second | high, not executed | LegacyPacket.ExtractAsWrittenDisagrees | GenericPacket.DrainsOnePacket |
| GenericPacketT.cpp:216 | `remove(0, sizeof(RawHeader) + m_header.size())` narrows the size_t sum to Qt 5's `int`, and the size comes from the unchecked second header slot | the 24-byte 32/32 buffer `00 00 00 10 00 00 00 01 FF FF FF FF 00 00 00 02 01 02 03 04 05 06 07 08`: the length narrows to 7, the payload returned is `01`-`08`, and 9 bytes `02 01 … 08` stay behind | remove exactly the bytes of the packet returned | medium, not executed | LegacyPacket.ExtractAsWrittenLengthWraps | GenericPacket.DrainsOnePacket |
| include/GenericPacket.h:284-298 | `setPayload` casts the length to S with no range check | an 8-bit size field and a 300-byte payload: the size becomes 44 | throw `range_error` as the constructors do | medium, not executed | GenericPacket.SetPayloadTruncates | GenericPacket.Packet.SetPayloadChecked |
