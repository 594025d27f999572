/**
  The two older copies of the codec: GenericPacket.h/GenericPacket.cpp, fixed
  to a uint32 size and a uint32 type, and the template GenericPacketT.cpp.
  They share the encoder, the decoder and the completeness checks of
  `GenericPacket`; what differs is modelled here.

  - The fixed copy's constructors store payload.size() cast to uint32 and have
    no range check (`New32`).
  - Both copies extract a header by first removing the header bytes from the
    caller's buffer and only then decoding, so the header is read from the
    bytes after the first header slot; the packet extract then takes the
    payload at offset sizeof(RawHeader) of the shortened buffer and removes
    sizeof(RawHeader) + size more bytes.  That path is modelled as written
    (`ExtractHeaderAsWritten`, `ExtractAsWritten`).  Its header read stays
    inside the buffer only when two header lengths are present, which is what
    `HeaderReadInBounds` states and the functions require.
  - That last remove length is a size_t sum built from the unchecked second
    header slot, and Qt 5's `remove` takes an `int`: the length is narrowed
    (`RemoveNarrowed`), so a size of 2^31 - n or more removes nothing or only
    a few bytes (`ExtractAsWrittenLengthWraps`).
 */
module LegacyPacket {
  import opened ByteOrder
  import opened QtBytes
  import opened GenericPacketHelper
  import opened GenericPacket

  /** GenericPacket.h: Size and Type are both NamedType<std::uint32_t>. */
  const Layout32 := Layout(U32, U32)

  /** The header as the older extract leaves it: the decoded fields and the shortened buffer. */
  datatype HeaderExtracted = HeaderExtracted(header: RawHeader, rest: seq<byte>)

  /** The fixed copy: an 8-byte header, complete as soon as 8 bytes are there. */
  lemma Layout32Facts(data: seq<byte>)
    ensures Header.DataSize(Layout32) == 8
    ensures Header.HasCompleteHeader(Layout32, data) <==> |data| >= 8
    ensures Header.MaxSize(Layout32) == 0xFFFF_FFFF
  {
  }

  /** GenericPacket(Type, payload) in the fixed copy: size is payload.size() cast to uint32; nothing is checked or thrown. */
  method New32(tag: Type, payload: seq<byte>) returns (p: Packet)
    requires tag.value <= MaxValue(U32)
    ensures fresh(p) && fresh(p.header) && p.layout == Layout32 && p.Valid()
    ensures p.Value() == Frame(RawHeader(Truncate(U32, |payload|), tag.value), payload)
    ensures |payload| <= 0xFFFF_FFFF ==> p.Value().Synchronized()
  {
    p := new Packet.Unchecked(Layout32, tag, payload);
  }

  /**
    The older extract reads its header from the bytes after the first header
    slot; the read stays inside the buffer only if two header lengths are there.
   */
  predicate HeaderReadInBounds(layout: Layout, data: seq<byte>)
  {
    |data| >= 2 * Header.DataSize(layout)
  }

  /** Header::extractFromData as written in the older copies: remove the header bytes, then decode what follows. */
  function ExtractHeaderAsWritten(layout: Layout, data: seq<byte>): (r: Result<HeaderExtracted>)
    requires Header.HasCompleteHeader(layout, data) ==> HeaderReadInBounds(layout, data)
    ensures r.Success? <==> Header.HasCompleteHeader(layout, data)
    ensures r.Failure? ==> r.error == IncompleteData
    ensures r.Success? ==> r.value.rest == data[Header.DataSize(layout)..]
    ensures r.Success? ==> Header.Decode(layout, r.value.rest) == Success(r.value.header)
  {
    if !Header.HasCompleteHeader(layout, data) then Failure(IncompleteData)
    else
      var rest := data[Header.DataSize(layout)..];
      Success(HeaderExtracted(RawHeader.FromData(layout, rest), rest))
  }

  /** GenericPacket::extractFromData as written in the older copies: the header slot is removed before decoding. */
  function ExtractAsWritten(layout: Layout, data: seq<byte>): (r: Result<Extracted>)
    requires Packet.HasCompletePacket(layout, data) ==> HeaderReadInBounds(layout, data)
    ensures r.Success? <==> Packet.HasCompletePacket(layout, data)
    ensures r.Failure? ==> r.error == IncompleteData
  {
    if !Packet.HasCompletePacket(layout, data) then Failure(IncompleteData)
    else
      var n := Header.DataSize(layout);
      var x := ExtractHeaderAsWritten(layout, data).value;
      Success(Extracted(Frame(x.header, Mid(x.rest, n, x.header.size)), RemoveNarrowed(x.rest, 0, n + x.header.size)))
  }

  /** The older packet extract in the order the source runs it: the header step, then mid and remove on what it left. */
  lemma ExtractAsWrittenSteps(layout: Layout, data: seq<byte>)
    requires Packet.HasCompletePacket(layout, data) && HeaderReadInBounds(layout, data)
    ensures var n, x := Header.DataSize(layout), ExtractHeaderAsWritten(layout, data).value;
            ExtractAsWritten(layout, data)
            == Success(Extracted(Frame(x.header, Mid(x.rest, n, x.header.size)), RemoveNarrowed(x.rest, 0, n + x.header.size)))
  {
  }

  /** The same steps, field by field, on the bytes after the first header slot. */
  lemma ExtractAsWrittenFields(layout: Layout, data: seq<byte>)
    requires Packet.HasCompletePacket(layout, data) && HeaderReadInBounds(layout, data)
    ensures var n, r := Header.DataSize(layout), ExtractAsWritten(layout, data).value;
            && Header.Decode(layout, data[n..]) == Success(r.packet.header)
            && r.packet.payload == Mid(data[n..], n, r.packet.header.size)
            && r.rest == RemoveNarrowed(data[n..], 0, n + r.packet.header.size)
  {
    ExtractAsWrittenSteps(layout, data);
  }

  /** The older extract decodes its header from the second header slot, bytes [n, 2n) with n the header length. */
  lemma ExtractAsWrittenHeaderSlot(layout: Layout, data: seq<byte>)
    requires Packet.HasCompletePacket(layout, data) && HeaderReadInBounds(layout, data)
    ensures var n := Header.DataSize(layout);
            Header.Decode(layout, data[n..]) == Success(ExtractAsWritten(layout, data).value.packet.header)
  {
    ExtractAsWrittenFields(layout, data);
  }

  /** The older extract's payload: at most size bytes from offset 2n, with n the header length. */
  lemma ExtractAsWrittenPayload(layout: Layout, data: seq<byte>)
    requires Packet.HasCompletePacket(layout, data) && HeaderReadInBounds(layout, data)
    ensures var r := ExtractAsWritten(layout, data).value;
            var n := Header.DataSize(layout);
            r.packet.payload == data[n + n..Min(n + n + r.packet.header.size, |data|)]
  {
    ExtractAsWrittenFields(layout, data);
    var r := ExtractAsWritten(layout, data).value;
    SecondSlotMid(data, Header.DataSize(layout), r.packet.header.size);
  }

  /**
    The older extract removes n + size bytes from the shortened buffer, with the
    length narrowed to Qt 5's `int` first: k > 0 bytes of it leave the original
    from byte n + k on (or nothing), while k <= 0 leaves all but the first slot.
   */
  lemma ExtractAsWrittenRemoves(layout: Layout, data: seq<byte>)
    requires Packet.HasCompletePacket(layout, data) && HeaderReadInBounds(layout, data)
    ensures var r := ExtractAsWritten(layout, data).value;
            var n := Header.DataSize(layout);
            var k := ToInt(n + r.packet.header.size);
            r.rest == if k <= 0 then data[n..] else data[Min(n + k, |data|)..]
  {
    ExtractAsWrittenFields(layout, data);
    var r := ExtractAsWritten(layout, data).value;
    var k := ToInt(Header.DataSize(layout) + r.packet.header.size);
    if k > 0 {
      RemoveOfSuffix(data, Header.DataSize(layout), k);
    }
  }

  /** mid on a buffer whose first n bytes are gone reads from the original's second n-byte slot onwards. */
  lemma SecondSlotMid(d: seq<byte>, n: nat, size: nat)
    requires n + n <= |d|
    ensures Mid(d[n..], n, size) == d[n + n..Min(n + n + size, |d|)]
  {
    MidOfSuffix(d, n, n, size);
  }

  /** Header::extractFromData in the older copies, on the caller's buffer. */
  method ExtractHeaderFromBuffer(layout: Layout, buf: ByteArray) returns (r: Result<Header>)
    requires Header.HasCompleteHeader(layout, buf.data) ==> HeaderReadInBounds(layout, buf.data)
    modifies buf
    ensures r.Failure? ==> ExtractHeaderAsWritten(layout, old(buf.data)) == Failure(r.error)
    ensures r.Failure? ==> buf.data == old(buf.data)
    ensures r.Success? ==> fresh(r.value) && r.value.layout == layout && r.value.Valid()
    ensures r.Success? ==> ExtractHeaderAsWritten(layout, old(buf.data)) == Success(HeaderExtracted(r.value.Raw(), buf.data))
  {
    if !Header.HasCompleteHeader(layout, buf.data) {
      return Failure(IncompleteData);
    }
    RemoveFront(buf.data, Header.DataSize(layout));
    buf.RemoveRange(0, Header.DataSize(layout));
    var h := new Header.FromBytes(layout, buf.data);
    return Success(h);
  }

  /** The older extract, given what its header step left behind and what it then cut from that. */
  lemma AsWrittenFromParts(layout: Layout, d: seq<byte>, header: RawHeader, rest: seq<byte>, payload: seq<byte>, after: seq<byte>)
    requires Packet.HasCompletePacket(layout, d) && HeaderReadInBounds(layout, d)
    requires ExtractHeaderAsWritten(layout, d) == Success(HeaderExtracted(header, rest))
    requires payload == Mid(rest, Header.DataSize(layout), header.size)
    requires after == RemoveNarrowed(rest, 0, Header.DataSize(layout) + header.size)
    ensures ExtractAsWritten(layout, d) == Success(Extracted(Frame(header, payload), after))
  {
    ExtractAsWrittenSteps(layout, d);
  }

  /** GenericPacket::extractFromData in the older copies, on the caller's buffer. */
  method ExtractFromDataAsWritten(layout: Layout, buf: ByteArray) returns (r: Result<Packet>)
    requires Packet.HasCompletePacket(layout, buf.data) ==> HeaderReadInBounds(layout, buf.data)
    modifies buf
    ensures r.Failure? ==> ExtractAsWritten(layout, old(buf.data)) == Failure(r.error)
    ensures r.Failure? ==> buf.data == old(buf.data)
    ensures r.Success? ==> fresh(r.value) && fresh(r.value.header) && r.value.layout == layout && r.value.Valid()
    ensures r.Success? ==> ExtractAsWritten(layout, old(buf.data)) == Success(Extracted(r.value.Value(), buf.data))
  {
    if !Packet.HasCompletePacket(layout, buf.data) {
      return Failure(IncompleteData);
    }
    ghost var d := buf.data;
    var hr := ExtractHeaderFromBuffer(layout, buf);
    assert hr.Success?;
    var h := hr.value;
    ghost var rest := buf.data;
    var payload := Mid(buf.data, Header.DataSize(layout), h.size);
    buf.RemoveNarrowedRange(0, Header.DataSize(layout) + h.size);
    AsWrittenFromParts(layout, d, h.Raw(), rest, payload, buf.data);
    var p := Assemble(layout, h, payload);
    return Success(p);
  }

  /** The packet the older constructor leaves behind: the extracted header object and the cut payload. */
  method Assemble(layout: Layout, h: Header, payload: seq<byte>) returns (p: Packet)
    requires h.layout == layout && h.Valid()
    ensures fresh(p) && p.header == h && p.layout == layout && p.Valid()
    ensures p.Value() == Frame(h.Raw(), payload)
  {
    p := new Packet.Default(layout);
    p.header, p.payload := h, payload;
  }

  /**
    A 32/32 buffer of 8 to 15 bytes passes the older extract's check, yet the
    header is then read from bytes 8 to 15, past the end of the buffer.  A
    header-only packet is such a buffer.
   */
  lemma GuardAdmitsOutOfBoundsRead(tag: nat)
    requires tag <= MaxValue(U32)
    ensures var d := Packet.Encode(Layout32, Frame(RawHeader(0, tag), []));
            Packet.HasCompletePacket(Layout32, d) && !HeaderReadInBounds(Layout32, d)
  {
    RoundTrip(Layout32, Frame(RawHeader(0, tag), []), []);
    assert Packet.Encode(Layout32, Frame(RawHeader(0, tag), [])) + [] == Packet.Encode(Layout32, Frame(RawHeader(0, tag), []));
  }

  /** A packet's bytes after an n-byte header: mid(n, size) is the payload and remove(0, n + size) empties them. */
  lemma PayloadAfterHeader(e: seq<byte>, n: nat, payload: seq<byte>)
    requires |e| == n + |payload| && e[n..] == payload
    requires |e| < 0x8000_0000
    ensures Mid(e, n, |payload|) == payload
    ensures RemoveNarrowed(e, 0, n + |payload|) == []
  {
    assert e[n..n + |payload|] == payload;
  }

  /**
    When the first packet of a stream has an empty payload, the older extract
    returns the second packet instead and removes both from the buffer.
   */
  lemma {:induction false} ExtractAsWrittenSkipsPacket(layout: Layout, f1: Frame, f2: Frame)
    requires f1.header.Fits(layout) && f1.Synchronized() && f1.payload == []
    requires f2.header.Fits(layout) && f2.Synchronized()
    requires 2 * Header.DataSize(layout) + |f2.payload| < 0x8000_0000
    ensures var d := Packet.Encode(layout, f1) + Packet.Encode(layout, f2);
            HeaderReadInBounds(layout, d) &&
            ExtractAsWritten(layout, d) == Success(Extracted(f2, []))
  {
    var e1, e2 := Packet.Encode(layout, f1), Packet.Encode(layout, f2);
    var d := e1 + e2;
    var n := Header.DataSize(layout);
    RoundTrip(layout, f1, e2);
    assert d[n..] == e2;
    var x := ExtractHeaderAsWritten(layout, d).value;
    assert x.header == f2.header;
    ExtractAsWrittenSteps(layout, d);
    PayloadAfterHeader(e2, n, f2.payload);
  }

  /** Two header-only 32/32 packets of types 1 and 2: the corrected extract and the older one disagree. */
  lemma ExtractAsWrittenDisagrees()
    ensures var p1, p2 := Frame(RawHeader(0, 1), []), Frame(RawHeader(0, 2), []);
            var d := Packet.Encode(Layout32, p1) + Packet.Encode(Layout32, p2);
            Packet.Extract(Layout32, d) == Success(Extracted(p1, Packet.Encode(Layout32, p2))) &&
            ExtractAsWritten(Layout32, d) == Success(Extracted(p2, []))
  {
    var p1, p2 := Frame(RawHeader(0, 1), []), Frame(RawHeader(0, 2), []);
    DrainsOnePacket(Layout32, p1, p2);
    ExtractAsWrittenSkipsPacket(Layout32, p1, p2);
  }

  /** 8 + 0xFFFFFFFF does not fit an `int`: it narrows to 7. */
  lemma WrapsToSeven()
    ensures ToInt(8 + 0xFFFF_FFFF) == 7
  {
    assert (8 + 0xFFFF_FFFF) % 0x1_0000_0000 == 7;
  }

  /**
    A complete 32/32 buffer that Qt 5 can hold, whose second header slot has
    a size of 0xFFFFFFFF: the older extract reads that header, mid(8, size)
    narrows to -1 and reads to the end, and remove(0, 8 + size) narrows to 7.
   */
  lemma ExtractAsWrittenWrapped(d: seq<byte>, t2: nat)
    requires Packet.HasCompletePacket(Layout32, d) && HeaderReadInBounds(Layout32, d)
    requires |d| < 0x8000_0000
    requires Header.Decode(Layout32, d[8..]) == Success(RawHeader(0xFFFF_FFFF, t2))
    ensures ExtractAsWritten(Layout32, d) == Success(Extracted(Frame(RawHeader(0xFFFF_FFFF, t2), d[16..]), d[15..]))
  {
    ExtractAsWrittenFields(Layout32, d);
    var r := ExtractAsWritten(Layout32, d).value;
    assert r.packet.header == RawHeader(0xFFFF_FFFF, t2);
    WrapsToSeven();
    ExtractAsWrittenRemoves(Layout32, d);
    assert r.rest == d[15..];
    SecondSlotMid(d, 8, 0xFFFF_FFFF);
    assert r.packet.payload == d[16..];
  }

  /** A packet of size 8 + |tail| whose payload is a header of size 0xFFFFFFFF followed by tail. */
  lemma WrapBuffer(t1: nat, t2: nat, tail: seq<byte>)
    requires t1 <= MaxValue(U32) && t2 <= MaxValue(U32)
    requires 16 + |tail| < 0x8000_0000
    ensures var e2 := RawHeader.ToData(Layout32, 0xFFFF_FFFF, t2);
            var d := RawHeader.ToData(Layout32, 8 + |tail|, t1) + e2 + tail;
            && Packet.HasCompletePacket(Layout32, d) && HeaderReadInBounds(Layout32, d)
            && Header.Decode(Layout32, d[8..]) == Success(RawHeader(0xFFFF_FFFF, t2))
            && d[15..] == e2[7..] + tail && d[16..] == tail
  {
    var h1, h2 := RawHeader(8 + |tail|, t1), RawHeader(0xFFFF_FFFF, t2);
    var e1, e2 := RawHeader.ToData(Layout32, h1.size, t1), RawHeader.ToData(Layout32, h2.size, t2);
    var d := e1 + e2 + tail;
    FromToData(Layout32, h1);
    FromToData(Layout32, h2);
    assert d == e1 + (e2 + tail);
    FromDataPrefix(Layout32, e1, e2 + tail);
    assert d[8..] == e2 + tail;
    FromDataPrefix(Layout32, e2, tail);
  }

  /**
    The older extract on a 32/32 packet whose payload starts with a header of
    size 0xFFFFFFFF: the caller is given tail as a payload, yet the last byte
    of that header and the whole of tail stay in the buffer.
   */
  lemma ExtractAsWrittenLengthWraps(t1: nat, t2: nat, tail: seq<byte>)
    requires t1 <= MaxValue(U32) && t2 <= MaxValue(U32)
    requires 16 + |tail| < 0x8000_0000
    ensures var e2 := RawHeader.ToData(Layout32, 0xFFFF_FFFF, t2);
            var d := RawHeader.ToData(Layout32, 8 + |tail|, t1) + e2 + tail;
            HeaderReadInBounds(Layout32, d) &&
            ExtractAsWritten(Layout32, d) == Success(Extracted(Frame(RawHeader(0xFFFF_FFFF, t2), tail), e2[7..] + tail))
  {
    var e2 := RawHeader.ToData(Layout32, 0xFFFF_FFFF, t2);
    var d := RawHeader.ToData(Layout32, 8 + |tail|, t1) + e2 + tail;
    WrapBuffer(t1, t2, tail);
    ExtractAsWrittenWrapped(d, t2);
  }
}
