/**
  GenericPacket<S, T>: a packet is a `Header` (payload length and type tag)
  followed by the payload bytes.  The header is encoded by GenericPacketHelper;
  this module adds the completeness checks, the two ways of decoding a buffer
  (copying from it, or consuming its front), the constructors with their range
  check, and the setters.

  `Header` and `Packet` are classes because their setters assign their fields.
  Each decoding operation has a pure specification (`Header.Decode`,
  `Packet.Decode`, `Packet.Extract`) and `Packet.Encode` is the pure meaning of
  `toData`; the static methods that build objects are proved against them.
 */
module GenericPacket {
  import opened ByteOrder
  import opened QtBytes
  import opened GenericPacketHelper

  /** NamedType<S>: a payload length, kept apart from a type tag at call sites. */
  datatype Size = Size(value: nat)

  /** NamedType<T>: a type tag. */
  datatype Type = Type(value: nat)

  /** std::length_error (IncompleteData) and std::range_error (PayloadTooLarge). */
  datatype Error = IncompleteData | PayloadTooLarge

  datatype Result<T> = Success(value: T) | Failure(error: Error)

  /** The value a GenericPacket holds: its header fields and its payload. */
  datatype Frame = Frame(header: RawHeader, payload: seq<byte>)
  {
    /** The size field describes the payload, as the constructors arrange. */
    predicate Synchronized()
    {
      header.size == |payload|
    }
  }

  /** What extractFromData yields: the packet, and what is left of the caller's buffer. */
  datatype Extracted = Extracted(packet: Frame, rest: seq<byte>)

  class Header {
    const layout: Layout
    var size: nat
    var tag: nat

    /** Both fields hold values of their integer types S and T. */
    ghost predicate Valid()
      reads this
    {
      Raw().Fits(layout)
    }

    function Raw(): RawHeader
      reads this
    {
      RawHeader(size, tag)
    }

    /** Header() = default: both fields zero. */
    constructor Default(layout: Layout)
      ensures this.layout == layout && Valid()
      ensures Raw() == RawHeader(0, 0)
    {
      this.layout := layout;
      size, tag := 0, 0;
    }

    /** Header(Size, Type). */
    constructor (layout: Layout, size: Size, tag: Type)
      requires RawHeader(size.value, tag.value).Fits(layout)
      ensures this.layout == layout && Valid()
      ensures Raw() == RawHeader(size.value, tag.value)
    {
      this.layout := layout;
      this.size, this.tag := size.value, tag.value;
    }

    /** sizeof(RawHeader<S, T>): the packed header has no padding. */
    static function DataSize(layout: Layout): (n: nat)
      ensures n == ByteCount(layout.sizeWidth) + ByteCount(layout.typeWidth)
      ensures 2 <= n <= 8
    {
      PackedSize(layout)
    }

    /** numeric_limits<S>::max(): exactly the lengths the size field stores without loss. */
    static function MaxSize(layout: Layout): (m: nat)
      ensures forall n: nat :: n <= m <==> Truncate(layout.sizeWidth, n) == n
      ensures m + 1 == Pow256(ByteCount(layout.sizeWidth))
    {
      MaxValue(layout.sizeWidth)
    }

    /** hasCompleteHeader: the buffer is long enough to hold a header. */
    static predicate HasCompleteHeader(layout: Layout, data: seq<byte>)
      ensures HasCompleteHeader(layout, data) <==> |data| >= ByteCount(layout.sizeWidth) + ByteCount(layout.typeWidth)
    {
      |data| >= DataSize(layout)
    }

    /** Header::fromData as a value: fails exactly when the header is incomplete. */
    static function Decode(layout: Layout, data: seq<byte>): (r: Result<RawHeader>)
      ensures r.Success? <==> HasCompleteHeader(layout, data)
      ensures r.Failure? ==> r.error == IncompleteData
      ensures r.Success? ==> r.value.Fits(layout)
      ensures r.Success? ==> RawHeader.ToData(layout, r.value.size, r.value.tag) == data[..DataSize(layout)]
    {
      if !HasCompleteHeader(layout, data) then Failure(IncompleteData)
      else
        ToFromData(layout, data);
        Success(RawHeader.FromData(layout, data))
    }

    /** Header::fromData: copies a header out of the buffer; the buffer is a value and stays as it was. */
    static method FromData(layout: Layout, data: seq<byte>) returns (r: Result<Header>)
      ensures r.Failure? ==> Decode(layout, data) == Failure(r.error)
      ensures r.Success? ==> fresh(r.value) && r.value.layout == layout && r.value.Valid()
      ensures r.Success? ==> Decode(layout, data) == Success(r.value.Raw())
    {
      if !HasCompleteHeader(layout, data) {
        return Failure(IncompleteData);
      }
      var h := new Header.FromBytes(layout, data);
      return Success(h);
    }

    /** Header::extractFromData: decodes like fromData and removes the header bytes from the caller's buffer. */
    static method ExtractFromData(layout: Layout, buf: ByteArray) returns (r: Result<Header>)
      modifies buf
      ensures r.Failure? ==> Decode(layout, old(buf.data)) == Failure(r.error) && buf.data == old(buf.data)
      ensures r.Success? ==> fresh(r.value) && r.value.layout == layout && r.value.Valid()
      ensures r.Success? ==> Decode(layout, old(buf.data)) == Success(r.value.Raw())
      ensures r.Success? ==> buf.data == old(buf.data)[DataSize(layout)..]
    {
      if !HasCompleteHeader(layout, buf.data) {
        return Failure(IncompleteData);
      }
      var h := new Header.FromBuffer(layout, buf);
      return Success(h);
    }

    /** The private Header(const QByteArray &): reads the fields from the front of data. */
    constructor FromBytes(layout: Layout, data: seq<byte>)
      requires HasCompleteHeader(layout, data)
      ensures this.layout == layout && Valid()
      ensures Raw() == RawHeader.FromData(layout, data)
    {
      this.layout := layout;
      size := RawHeader.FromData(layout, data).size;
      tag := RawHeader.FromData(layout, data).tag;
    }

    /** The private Header(QByteArray &): reads like FromBytes, then removes dataSize() bytes. */
    constructor FromBuffer(layout: Layout, buf: ByteArray)
      requires HasCompleteHeader(layout, buf.data)
      modifies buf
      ensures this.layout == layout && Valid()
      ensures Raw() == RawHeader.FromData(layout, old(buf.data))
      ensures buf.data == old(buf.data)[DataSize(layout)..]
    {
      this.layout := layout;
      size := RawHeader.FromData(layout, buf.data).size;
      tag := RawHeader.FromData(layout, buf.data).tag;
      new;
      RemoveFront(buf.data, DataSize(layout));
      buf.RemoveRange(0, DataSize(layout));
    }

    /** setSize: replaces the size field only. */
    method SetSize(size: Size)
      requires size.value <= MaxValue(layout.sizeWidth)
      modifies this
      ensures Raw() == RawHeader(size.value, old(tag))
    {
      this.size := size.value;
    }

    /** setType: replaces the type field only. */
    method SetType(tag: Type)
      requires tag.value <= MaxValue(layout.typeWidth)
      modifies this
      ensures Raw() == RawHeader(old(size), tag.value)
    {
      this.tag := tag.value;
    }

    /** Header::toData: exactly dataSize() bytes, which decode back to this header. */
    function ToData(): (r: seq<byte>)
      reads this
      requires Valid()
      ensures |r| == DataSize(layout)
      ensures Decode(layout, r) == Success(Raw())
    {
      FromToData(layout, Raw());
      RawHeader.ToData(layout, size, tag)
    }
  }

  class Packet {
    const layout: Layout
    var header: Header
    var payload: seq<byte>

    ghost predicate Valid()
      reads this, header
    {
      header.layout == layout && header.Valid()
    }

    function Value(): Frame
      reads this, header
    {
      Frame(header.Raw(), payload)
    }

    /** GenericPacket() = default: an empty payload under a zero header. */
    constructor Default(layout: Layout)
      ensures this.layout == layout && Valid() && fresh(header)
      ensures Value() == Frame(RawHeader(0, 0), [])
    {
      this.layout := layout;
      header := new Header.Default(layout);
      payload := [];
    }

    /** The member initialisers of GenericPacket(Type, payload): the size is payload.size() cast to S. */
    constructor Unchecked(layout: Layout, tag: Type, payload: seq<byte>)
      requires tag.value <= MaxValue(layout.typeWidth)
      ensures this.layout == layout && Valid() && fresh(header)
      ensures Value() == Frame(RawHeader(Truncate(layout.sizeWidth, |payload|), tag.value), payload)
    {
      this.layout := layout;
      header := new Header(layout, Size(Truncate(layout.sizeWidth, |payload|)), tag);
      this.payload := payload;
    }

    /** The test of ensureSizeCanHoldPayload: it passes exactly when casting the length to S loses nothing. */
    static function SizeCanHoldPayload(layout: Layout, payload: seq<byte>): (ok: bool)
      ensures ok <==> Truncate(layout.sizeWidth, |payload|) == |payload|
    {
      |payload| <= Header.MaxSize(layout)
    }

    /** GenericPacket(Type, payload): size = |payload|, or range_error when S cannot hold it. */
    static method New(layout: Layout, tag: Type, payload: seq<byte>) returns (r: Result<Packet>)
      requires tag.value <= MaxValue(layout.typeWidth)
      ensures r.Failure? <==> |payload| > Header.MaxSize(layout)
      ensures r.Failure? ==> r.error == PayloadTooLarge
      ensures r.Success? ==> fresh(r.value) && fresh(r.value.header) && r.value.layout == layout && r.value.Valid()
      ensures r.Success? ==> r.value.Value() == Frame(RawHeader(|payload|, tag.value), payload)
    {
      var p := new Packet.Unchecked(layout, tag, payload);
      if !SizeCanHoldPayload(layout, payload) {
        return Failure(PayloadTooLarge);
      }
      return Success(p);
    }

    /**
      hasCompletePacket: a complete header, and at least as many bytes after it
      as its size field announces.  The subtraction is reached only once the
      header is known to be complete, so it cannot go below zero.
     */
    static predicate HasCompletePacket(layout: Layout, data: seq<byte>)
      ensures HasCompletePacket(layout, data) <==>
                Header.HasCompleteHeader(layout, data) &&
                |data| >= Header.DataSize(layout) + RawHeader.FromData(layout, data).size
    {
      Header.HasCompleteHeader(layout, data) &&
      (|data| - Header.DataSize(layout)) as nat >= Header.Decode(layout, data).value.size
    }

    /** toData as a value: the encoded header followed by the payload. */
    static function Encode(layout: Layout, f: Frame): (r: seq<byte>)
      requires f.header.Fits(layout)
      ensures |r| == Header.DataSize(layout) + |f.payload|
      ensures r[Header.DataSize(layout)..] == f.payload
      ensures Header.Decode(layout, r) == Success(f.header)
    {
      var h := RawHeader.ToData(layout, f.header.size, f.header.tag);
      FromToData(layout, f.header);
      FromDataPrefix(layout, h, f.payload);
      h + f.payload
    }

    /** GenericPacket::fromData as a value: the packet at the front of data, which is left untouched. */
    static function Decode(layout: Layout, data: seq<byte>): (r: Result<Frame>)
      ensures r.Success? <==> HasCompletePacket(layout, data)
      ensures r.Failure? ==> r.error == IncompleteData
      ensures r.Success? ==> r.value.Synchronized() && r.value.header.Fits(layout)
      ensures r.Success? ==> Header.DataSize(layout) + |r.value.payload| <= |data|
      ensures r.Success? ==> Encode(layout, r.value) == data[..Header.DataSize(layout) + |r.value.payload|]
    {
      if !HasCompletePacket(layout, data) then Failure(IncompleteData)
      else
        var n := Header.DataSize(layout);
        var h := Header.Decode(layout, data).value;
        assert n + h.size <= |data|;
        var f := Frame(h, Mid(data, n, h.size));
        assert f.payload == data[n..n + h.size];
        assert data[..n + h.size] == data[..n] + f.payload;
        Success(f)
    }

    /**
      GenericPacket::extractFromData as a value: the same packet as Decode, and
      the caller's buffer with exactly that packet's bytes taken off its front.
     */
    static function Extract(layout: Layout, data: seq<byte>): (r: Result<Extracted>)
      ensures r.Success? <==> HasCompletePacket(layout, data)
      ensures r.Failure? ==> r.error == IncompleteData
      ensures r.Success? ==> Decode(layout, data) == Success(r.value.packet)
      ensures r.Success? ==> data == Encode(layout, r.value.packet) + r.value.rest
    {
      if !HasCompletePacket(layout, data) then Failure(IncompleteData)
      else
        var f := Decode(layout, data).value;
        var n := Header.DataSize(layout) + |f.payload|;
        assert data == data[..n] + data[n..];
        Success(Extracted(f, data[n..]))
    }

    /** GenericPacket::fromData: a new packet copied from data. */
    static method FromData(layout: Layout, data: seq<byte>) returns (r: Result<Packet>)
      ensures r.Failure? ==> Decode(layout, data) == Failure(r.error)
      ensures r.Success? ==> fresh(r.value) && fresh(r.value.header) && r.value.layout == layout && r.value.Valid()
      ensures r.Success? ==> Decode(layout, data) == Success(r.value.Value())
    {
      if !HasCompletePacket(layout, data) {
        return Failure(IncompleteData);
      }
      var p := new Packet.FromBytes(layout, data);
      return Success(p);
    }

    /** GenericPacket::extractFromData: a new packet, consumed from the front of the caller's buffer. */
    static method ExtractFromData(layout: Layout, buf: ByteArray) returns (r: Result<Packet>)
      modifies buf
      ensures r.Failure? ==> Extract(layout, old(buf.data)) == Failure(r.error) && buf.data == old(buf.data)
      ensures r.Success? ==> fresh(r.value) && fresh(r.value.header) && r.value.layout == layout && r.value.Valid()
      ensures r.Success? ==> Extract(layout, old(buf.data)) == Success(Extracted(r.value.Value(), buf.data))
    {
      if !HasCompletePacket(layout, buf.data) {
        return Failure(IncompleteData);
      }
      var p := new Packet.FromBuffer(layout, buf);
      return Success(p);
    }

    /** The private GenericPacket(const QByteArray &): header from fromData, payload by mid(dataSize(), size). */
    constructor FromBytes(layout: Layout, data: seq<byte>)
      requires HasCompletePacket(layout, data)
      ensures this.layout == layout && Valid() && fresh(header)
      ensures Decode(layout, data) == Success(Value())
    {
      this.layout := layout;
      var h := new Header.FromBytes(layout, data);
      header := h;
      payload := Mid(data, Header.DataSize(layout), h.size);
    }

    /**
      The private GenericPacket(QByteArray &): extracting the header removes
      its bytes, the payload is then the left(size) of what remains, and
      remove(0, size) takes the payload off as well.
     */
    constructor FromBuffer(layout: Layout, buf: ByteArray)
      requires HasCompletePacket(layout, buf.data)
      modifies buf
      ensures this.layout == layout && Valid() && fresh(header)
      ensures Extract(layout, old(buf.data)) == Success(Extracted(Value(), buf.data))
    {
      this.layout := layout;
      ghost var d := buf.data;
      var h := new Header.FromBuffer(layout, buf);
      header := h;
      payload := Left(buf.data, h.size);
      new;
      ExtractInSteps(layout, d);
      buf.RemoveRange(0, header.size);
    }

    /** setPayload: replaces the payload and stores its length cast to S, without a range check; the type stays. */
    method SetPayload(payload: seq<byte>)
      requires Valid()
      modifies this, header
      ensures Valid() && header == old(header)
      ensures Value() == Frame(RawHeader(Truncate(layout.sizeWidth, |payload|), old(header.tag)), payload)
    {
      this.payload := payload;
      header.SetSize(Size(Truncate(layout.sizeWidth, |payload|)));
    }

    /** setPayload with the constructors' range check: refuses a payload S cannot describe and then changes nothing. */
    method SetPayloadChecked(payload: seq<byte>) returns (r: Result<()>)
      requires Valid()
      modifies this, header
      ensures Valid() && header == old(header)
      ensures r.Failure? <==> |payload| > Header.MaxSize(layout)
      ensures r.Failure? ==> r.error == PayloadTooLarge && Value() == old(Value())
      ensures r.Success? ==> Value() == Frame(RawHeader(|payload|, old(header.tag)), payload)
    {
      if !SizeCanHoldPayload(layout, payload) {
        return Failure(PayloadTooLarge);
      }
      SetPayload(payload);
      return Success(());
    }

    /** toData: the header's bytes followed by the payload; a synchronized packet decodes back to itself. */
    function ToData(): (r: seq<byte>)
      reads this, header
      requires Valid()
      ensures r == Encode(layout, Value())
      ensures Value().Synchronized() ==> Decode(layout, r) == Success(Value())
    {
      var r := header.ToData() + payload;
      if Value().Synchronized() then
        RoundTrip(layout, Value(), []);
        assert r + [] == r;
        r
      else
        r
    }

    /** dataSize: the exact number of bytes toData produces. */
    function DataSize(): (n: nat)
      reads this, header
      requires Valid()
      ensures n == |ToData()|
      ensures n == Header.DataSize(layout) + |payload|
    {
      Header.DataSize(layout) + |payload|
    }
  }

  /**
    The private GenericPacket(QByteArray &) in steps: the header is extracted
    first, then left(size) of what remains is the payload and remove(0, size)
    leaves the rest; together they give Extract.
   */
  lemma ExtractInSteps(layout: Layout, d: seq<byte>)
    requires Packet.HasCompletePacket(layout, d)
    ensures var n, h := Header.DataSize(layout), Header.Decode(layout, d).value;
            Packet.Extract(layout, d) == Success(Extracted(Frame(h, Left(d[n..], h.size)), Remove(d[n..], 0, h.size)))
  {
    var n, h := Header.DataSize(layout), Header.Decode(layout, d).value;
    var f := Packet.Decode(layout, d).value;
    assert f.payload == Mid(d, n, h.size) == d[n..n + h.size] == Left(d[n..], h.size);
    RemoveOfSuffix(d, n, h.size);
  }

  /**
    Round trip: an encoded packet followed by anything at all decodes to the
    same packet, and extracting it leaves exactly the bytes that followed.
   */
  lemma RoundTrip(layout: Layout, f: Frame, more: seq<byte>)
    requires f.header.Fits(layout) && f.Synchronized()
    ensures Packet.HasCompletePacket(layout, Packet.Encode(layout, f) + more)
    ensures Packet.Decode(layout, Packet.Encode(layout, f) + more) == Success(f)
    ensures Packet.Extract(layout, Packet.Encode(layout, f) + more) == Success(Extracted(f, more))
  {
    var e := Packet.Encode(layout, f);
    var d := e + more;
    var n := Header.DataSize(layout);
    FromDataPrefix(layout, e, more);
    assert Header.Decode(layout, d) == Success(f.header);
    assert d[n..n + |f.payload|] == f.payload;
    assert d[n + |f.payload|..] == more;
  }

  /** Draining a stream: extracting from P1 ++ P2 yields P1 and leaves exactly P2's bytes. */
  lemma DrainsOnePacket(layout: Layout, f1: Frame, f2: Frame)
    requires f1.header.Fits(layout) && f1.Synchronized()
    requires f2.header.Fits(layout) && f2.Synchronized()
    ensures Packet.Extract(layout, Packet.Encode(layout, f1) + Packet.Encode(layout, f2))
         == Success(Extracted(f1, Packet.Encode(layout, f2)))
  {
    RoundTrip(layout, f1, Packet.Encode(layout, f2));
  }

  /** A complete packet stays complete, and decodes the same, when more bytes arrive. */
  lemma {:induction false} CompletenessMonotonic(layout: Layout, data: seq<byte>, more: seq<byte>)
    requires Packet.HasCompletePacket(layout, data)
    ensures Packet.HasCompletePacket(layout, data + more)
    ensures Packet.Decode(layout, data + more) == Packet.Decode(layout, data)
  {
    var f := Packet.Decode(layout, data).value;
    var n := Header.DataSize(layout) + |f.payload|;
    var e := Packet.Encode(layout, f);
    assert e == data[..n];
    calc {
      data + more;
      (data[..n] + data[n..]) + more;
      e + (data[n..] + more);
    }
    RoundTrip(layout, f, data[n..] + more);
    RoundTrip(layout, f, data[n..]);
  }

  /** A buffer shorter than a header holds neither a header nor a packet. */
  lemma IncompleteHeaderRejected(layout: Layout, data: seq<byte>)
    requires |data| < Header.DataSize(layout)
    ensures Header.Decode(layout, data) == Failure(IncompleteData)
    ensures !Packet.HasCompletePacket(layout, data)
    ensures Packet.Decode(layout, data) == Failure(IncompleteData)
  {
  }

  /** An empty payload: the header alone, with size 0, is a complete packet. */
  lemma EmptyPayload(layout: Layout, tag: nat)
    requires tag <= MaxValue(layout.typeWidth)
    ensures var f := Frame(RawHeader(0, tag), []);
            |Packet.Encode(layout, f)| == Header.DataSize(layout) &&
            Packet.HasCompletePacket(layout, Packet.Encode(layout, f)) &&
            Packet.Decode(layout, Packet.Encode(layout, f)) == Success(f)
  {
    RoundTrip(layout, Frame(RawHeader(0, tag), []), []);
    assert Packet.Encode(layout, Frame(RawHeader(0, tag), [])) + [] == Packet.Encode(layout, Frame(RawHeader(0, tag), []));
  }

  /** With a 16-bit size and an 8-bit type, a 20-byte payload of type 42 starts with 00 14 2A. */
  lemma ByteExactExample(payload: seq<byte>)
    requires |payload| == 20
    ensures Packet.Encode(Layout(U16, U8), Frame(RawHeader(20, 42), payload)) == [0x00, 0x14, 0x2A] + payload
  {
  }

  /** An 8-bit size field cannot describe a 300-byte payload. */
  lemma OversizedPayload(payload: seq<byte>, typeWidth: Width)
    requires |payload| == 300
    ensures !Packet.SizeCanHoldPayload(Layout(U8, typeWidth), payload)
  {
  }

  /**
    setPayload as written: with an 8-bit size field, a 300-byte payload is
    recorded as size 44, and the packet then encodes to bytes that decode to a
    44-byte payload.
   */
  lemma SetPayloadTruncates(payload: seq<byte>)
    requires |payload| == 300
    ensures var f := Frame(RawHeader(Truncate(U8, |payload|), 7), payload);
            f.header.size == 44 &&
            Packet.Decode(Layout(U8, U8), Packet.Encode(Layout(U8, U8), f)) == Success(Frame(RawHeader(44, 7), payload[..44]))
  {
    var layout := Layout(U8, U8);
    var h := RawHeader.ToData(layout, 44, 7);
    var g := Frame(RawHeader(44, 7), payload[..44]);
    assert Packet.Encode(layout, Frame(RawHeader(44, 7), payload)) == h + payload;
    assert Packet.Encode(layout, g) == h + payload[..44];
    assert payload == payload[..44] + payload[44..];
    assert h + payload == (h + payload[..44]) + payload[44..];
    RoundTrip(layout, g, payload[44..]);
  }
}
