/**
  Network byte order for the three unsigned integer widths the codec supports.

  The C++ helpers `ntoh`/`hton` turn a host integer into one whose in-memory
  bytes are in network order (big-endian); the header then copies those bytes
  to the wire.  Here they are modelled by their effect on the wire: `Hton`
  yields the big-endian bytes of a value, `Ntoh` reads a value back from them.
  Only 8-, 16- and 32-bit widths have an overload, so `Width` is a closed set.
 */
module ByteOrder {

  /** One octet of a QByteArray. */
  newtype byte = b: int | 0 <= b < 256

  /** std::uint8_t, std::uint16_t, std::uint32_t */
  datatype Width = U8 | U16 | U32

  /** sizeof of the integer type */
  function ByteCount(w: Width): nat
  {
    match w
    case U8 => 1
    case U16 => 2
    case U32 => 4
  }

  /** 256 to the power k: the number of values k bytes can hold */
  function Pow256(k: nat): (p: nat)
    ensures p > 0
  {
    if k == 0 then 1 else 256 * Pow256(k - 1)
  }

  /** std::numeric_limits<S>::max() */
  function MaxValue(w: Width): (m: nat)
    ensures m + 1 == Pow256(ByteCount(w))
  {
    match w
    case U8 => 0xFF
    case U16 => assert Pow256(2) == 256 * 256; 0xFFFF
    case U32 => assert Pow256(4) == 256 * 256 * 256 * 256; 0xFFFF_FFFF
  }

  /** static_cast to the width: keeps the low-order bytes of n */
  function Truncate(w: Width, n: nat): (t: nat)
    ensures t <= MaxValue(w)
    ensures n <= MaxValue(w) ==> t == n
    ensures n > MaxValue(w) ==> t != n
    ensures (n - t) % Pow256(ByteCount(w)) == 0
  {
    n % (MaxValue(w) + 1)
  }

  /** The k low-order bytes of n, most significant first. */
  function EncodeBE(n: nat, k: nat): (r: seq<byte>)
    ensures |r| == k
  {
    if k == 0 then [] else EncodeBE(n / 256, k - 1) + [(n % 256) as byte]
  }

  /** The unsigned value of a big-endian byte sequence. */
  function DecodeBE(bs: seq<byte>): (n: nat)
    ensures n < Pow256(|bs|)
  {
    if |bs| == 0 then 0 else DecodeBE(bs[..|bs| - 1]) * 256 + bs[|bs| - 1] as nat
  }

  /** Decoding the big-endian bytes of a value that fits gives the value back. */
  lemma {:induction false} DecodeEncode(n: nat, k: nat)
    requires n < Pow256(k)
    ensures DecodeBE(EncodeBE(n, k)) == n
  {
    if k > 0 {
      var e := EncodeBE(n, k);
      EncodeSplit(n, k);
      QuotientFits(n, Pow256(k - 1));
      DecodeEncode(n / 256, k - 1);
      assert DecodeBE(e[..k - 1]) == n / 256;
      assert DecodeBE(e) == (n / 256) * 256 + n % 256;
    }
  }

  lemma EncodeSplit(n: nat, k: nat)
    requires k > 0
    ensures EncodeBE(n, k)[..k - 1] == EncodeBE(n / 256, k - 1)
    ensures EncodeBE(n, k)[k - 1] as nat == n % 256
  {
  }

  lemma QuotientFits(n: nat, p: nat)
    requires n < 256 * p
    ensures n / 256 < p
  {
  }

  /** Re-encoding a decoded sequence over its own length gives the same bytes. */
  lemma {:induction false} EncodeDecode(bs: seq<byte>)
    ensures EncodeBE(DecodeBE(bs), |bs|) == bs
  {
    if |bs| > 0 {
      var k := |bs|;
      var init := bs[..k - 1];
      var n := DecodeBE(bs);
      assert n / 256 == DecodeBE(init);
      assert (n % 256) as byte == bs[k - 1];
      EncodeDecode(init);
      assert bs == init + [bs[k - 1]];
    }
  }

  /** Byte i of the k-byte big-endian encoding is digit k - 1 - i of n in base 256. */
  lemma {:induction false} EncodeDigit(n: nat, k: nat, i: nat)
    requires i < k
    ensures EncodeBE(n, k)[i] as nat == (n / Pow256(k - 1 - i)) % 256
  {
    EncodeSplit(n, k);
    if i < k - 1 {
      EncodeDigit(n / 256, k - 1, i);
      DivDiv(n, Pow256(k - 2 - i));
    }
  }

  /** Dividing by 256 and then by p is dividing by 256 * p. */
  lemma DivDiv(n: nat, p: nat)
    requires p > 0
    ensures n / 256 / p == n / (256 * p)
  {
    var q, r := n / 256, n % 256;
    var q2, r2 := q / p, q % p;
    assert n == 256 * (p * q2 + r2) + r;
    assert n == (256 * p) * q2 + (256 * r2 + r);
    assert 256 * r2 + r < 256 * p by {
      assert r2 <= p - 1;
      assert 256 * r2 <= 256 * (p - 1);
    }
    DivUnique(n, 256 * p, q2, 256 * r2 + r);
  }

  /** The quotient is the only q with n = d * q + r and 0 <= r < d. */
  lemma DivUnique(n: nat, d: nat, q: nat, r: nat)
    requires d > 0 && r < d && n == d * q + r
    ensures n / d == q
  {
    var q', r' := n / d, n % d;
    if q' < q {
      assert d * q >= d * (q' + 1) by { MulMono(d, q' + 1, q); }
    } else if q' > q {
      assert d * q' >= d * (q + 1) by { MulMono(d, q + 1, q'); }
    }
  }

  lemma MulMono(d: nat, a: nat, b: nat)
    requires a <= b
    ensures d * a <= d * b
  {
  }

  /** hton: the value as it appears on the wire, in network byte order. */
  function Hton(w: Width, v: nat): (r: seq<byte>)
    requires v <= MaxValue(w)
    ensures |r| == ByteCount(w)
    ensures w == U8 ==> r == [v as byte]
    ensures forall i | 0 <= i < |r| :: r[i] as nat == (v / Pow256(|r| - 1 - i)) % 256
  {
    var k := ByteCount(w);
    assert forall i | 0 <= i < k :: EncodeBE(v, k)[i] as nat == (v / Pow256(k - 1 - i)) % 256 by {
      forall i | 0 <= i < k {
        EncodeDigit(v, k, i);
      }
    }
    EncodeBE(v, k)
  }

  /** ntoh: the value of network-order bytes read off the wire. */
  function Ntoh(w: Width, bytes: seq<byte>): (v: nat)
    requires |bytes| == ByteCount(w)
    ensures v <= MaxValue(w)
    ensures w == U8 ==> v == bytes[0] as nat
  {
    DecodeBE(bytes)
  }

  /** ntoh undoes hton for every value of the width. */
  lemma NtohHton(w: Width, v: nat)
    requires v <= MaxValue(w)
    ensures Ntoh(w, Hton(w, v)) == v
  {
    DecodeEncode(v, ByteCount(w));
  }

  /** hton undoes ntoh for every byte pattern of the width. */
  lemma HtonNtoh(w: Width, bytes: seq<byte>)
    requires |bytes| == ByteCount(w)
    ensures Hton(w, Ntoh(w, bytes)) == bytes
  {
    EncodeDecode(bytes);
  }

  /** The most significant byte goes first on the wire. */
  lemma NetworkOrderExamples()
    ensures Hton(U16, 0x0102) == [0x01, 0x02]
    ensures Hton(U32, 0x0102_0304) == [0x01, 0x02, 0x03, 0x04]
    ensures Hton(U8, 0x2A) == [0x2A]
  {
  }
}
