/**
  GenericPacketHelper: the packed on-wire header `[size][type]`.

  The C++ struct is `#pragma pack(1)` and is filled through `reinterpret_cast`
  after converting each field with `hton`; the model writes the resulting
  bytes out explicitly: the size field in network order over sizeof(S) bytes,
  immediately followed by the type field in network order over sizeof(T)
  bytes, with no padding.
 */
module GenericPacketHelper {
  import opened ByteOrder

  /** The template arguments <S, T>: the widths of the size and type fields. */
  datatype Layout = Layout(sizeWidth: Width, typeWidth: Width)

  /** sizeof(RawHeader<S, T>) for the packed struct. */
  function PackedSize(layout: Layout): nat
  {
    ByteCount(layout.sizeWidth) + ByteCount(layout.typeWidth)
  }

  /** RawHeader<S, T>: the two header fields as host integers. */
  datatype RawHeader = RawHeader(size: nat, tag: nat)
  {
    /** Both fields are values of their field's integer type. */
    predicate Fits(layout: Layout)
    {
      size <= MaxValue(layout.sizeWidth) && tag <= MaxValue(layout.typeWidth)
    }

    /** RawHeader::toData(size, type): the header as it goes on the wire. */
    static function ToData(layout: Layout, size: nat, tag: nat): (r: seq<byte>)
      requires RawHeader(size, tag).Fits(layout)
      ensures |r| == PackedSize(layout)
      ensures layout.sizeWidth == U8 ==> r[0] as nat == size
      ensures layout.typeWidth == U8 ==> r[ByteCount(layout.sizeWidth)] as nat == tag
      ensures r[..ByteCount(layout.sizeWidth)] == Hton(layout.sizeWidth, size)
      ensures r[ByteCount(layout.sizeWidth)..] == Hton(layout.typeWidth, tag)
    {
      Hton(layout.sizeWidth, size) + Hton(layout.typeWidth, tag)
    }

    /** RawHeader::fromData(data): the header read from the front of data. */
    static function FromData(layout: Layout, data: seq<byte>): (h: RawHeader)
      requires |data| >= PackedSize(layout)
      ensures h.Fits(layout)
    {
      var s := ByteCount(layout.sizeWidth);
      RawHeader(Ntoh(layout.sizeWidth, data[..s]), Ntoh(layout.typeWidth, data[s..PackedSize(layout)]))
    }
  }

  /** Reading back what toData wrote gives the same size and type. */
  lemma FromToData(layout: Layout, h: RawHeader)
    requires h.Fits(layout)
    ensures RawHeader.FromData(layout, RawHeader.ToData(layout, h.size, h.tag)) == h
  {
    var s := ByteCount(layout.sizeWidth);
    var d := RawHeader.ToData(layout, h.size, h.tag);
    assert d[..s] == Hton(layout.sizeWidth, h.size);
    assert d[s..PackedSize(layout)] == Hton(layout.typeWidth, h.tag);
    NtohHton(layout.sizeWidth, h.size);
    NtohHton(layout.typeWidth, h.tag);
  }

  /** Writing out what fromData read reproduces the header bytes exactly. */
  lemma ToFromData(layout: Layout, data: seq<byte>)
    requires |data| >= PackedSize(layout)
    ensures var h := RawHeader.FromData(layout, data);
            RawHeader.ToData(layout, h.size, h.tag) == data[..PackedSize(layout)]
  {
    var s := ByteCount(layout.sizeWidth);
    HtonNtoh(layout.sizeWidth, data[..s]);
    HtonNtoh(layout.typeWidth, data[s..PackedSize(layout)]);
    assert data[..PackedSize(layout)] == data[..s] + data[s..PackedSize(layout)];
  }

  /** fromData looks at the header bytes only: anything after them is ignored. */
  lemma FromDataPrefix(layout: Layout, data: seq<byte>, more: seq<byte>)
    requires |data| >= PackedSize(layout)
    ensures RawHeader.FromData(layout, data + more) == RawHeader.FromData(layout, data)
  {
    var s := ByteCount(layout.sizeWidth);
    SliceOfPrefix(data, more, 0, s);
    SliceOfPrefix(data, more, s, PackedSize(layout));
  }

  /** A slice that lies inside the first operand of a concatenation. */
  lemma SliceOfPrefix(a: seq<byte>, b: seq<byte>, i: nat, j: nat)
    requires i <= j <= |a|
    ensures (a + b)[i..j] == a[i..j]
    ensures i == 0 ==> (a + b)[..j] == a[..j]
  {
    assert forall k | 0 <= k < j - i :: (a + b)[i..j][k] == a[i..j][k];
  }

  /** The packed size: 3 bytes for uint16/uint8, 8 bytes for uint32/uint32. */
  lemma PackedSizeExamples()
    ensures PackedSize(Layout(U16, U8)) == 3
    ensures PackedSize(Layout(U32, U32)) == 8
    ensures PackedSize(Layout(U8, U8)) == 2
  {
  }
}
