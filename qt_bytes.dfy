/**
  The part of QByteArray the codec relies on: a growable byte buffer that can
  be sliced (`mid`, `left`) and shortened in place (`remove`).  Qt clamps
  out-of-range positions and lengths instead of failing, and the model keeps
  that clamping.
 */
module QtBytes {
  import opened ByteOrder

  function Min(a: nat, b: nat): nat
  {
    if a <= b then a else b
  }

  /** QByteArray::mid(pos, len): at most len bytes starting at pos, none if pos is past the end. */
  function Mid(d: seq<byte>, pos: nat, len: nat): (r: seq<byte>)
    ensures pos > |d| ==> r == []
    ensures pos <= |d| ==> |r| == Min(len, |d| - pos)
    ensures pos <= |d| ==> r == d[pos..pos + |r|]
  {
    if pos > |d| then [] else d[pos..pos + Min(len, |d| - pos)]
  }

  /** QByteArray::left(len): the first len bytes, or all of them if there are fewer. */
  function Left(d: seq<byte>, len: nat): (r: seq<byte>)
    ensures |r| == Min(len, |d|)
    ensures r <= d
  {
    d[..Min(len, |d|)]
  }

  /**
    QByteArray::remove(pos, len): nothing happens when pos is out of range;
    when pos + len reaches past the end the array is truncated at pos.
   */
  function Remove(d: seq<byte>, pos: nat, len: nat): (r: seq<byte>)
    ensures pos >= |d| ==> r == d
    ensures pos < |d| ==> |r| == |d| - Min(len, |d| - pos)
    ensures pos < |d| ==> r[..pos] == d[..pos]
    ensures pos < |d| ==> r[pos..] == d[pos + Min(len, |d| - pos)..]
  {
    if pos >= |d| then d else d[..pos] + d[pos + Min(len, |d| - pos)..]
  }

  /**
    A size_t length passed to one of Qt 5's `int` parameters: the low 32 bits,
    read as a two's-complement value.
   */
  function ToInt(n: nat): (i: int)
    ensures -0x8000_0000 <= i < 0x8000_0000
    ensures n < 0x8000_0000 ==> i == n
    ensures (n - i) % 0x1_0000_0000 == 0
  {
    var low := n % 0x1_0000_0000;
    if low < 0x8000_0000 then low else low - 0x1_0000_0000
  }

  /**
    QByteArray::remove(pos, len) in Qt 5 with a size_t length: the length is
    narrowed to `int` first, and a length of zero or less removes nothing.
   */
  function RemoveNarrowed(d: seq<byte>, pos: nat, len: nat): (r: seq<byte>)
    ensures ToInt(len) <= 0 ==> r == d
    ensures ToInt(len) > 0 ==> r == Remove(d, pos, ToInt(len))
  {
    var k := ToInt(len);
    if k <= 0 then d else Remove(d, pos, k)
  }

  /** Removing a prefix that is there leaves exactly the bytes after it. */
  lemma RemoveFront(d: seq<byte>, len: nat)
    requires len <= |d|
    ensures Remove(d, 0, len) == d[len..]
  {
    if len < |d| {
      assert Remove(d, 0, len) == [] + d[len..];
    }
  }

  /** mid on a buffer whose first k bytes were removed reads k bytes further into the original. */
  lemma MidOfSuffix(d: seq<byte>, k: nat, pos: nat, len: nat)
    requires k + pos <= |d|
    ensures Mid(d[k..], pos, len) == d[k + pos..Min(k + pos + len, |d|)]
  {
  }

  /** Removing len bytes from a buffer whose first k bytes were removed removes k + len from the original, clamped. */
  lemma RemoveOfSuffix(d: seq<byte>, k: nat, len: nat)
    requires k <= |d|
    ensures Remove(d[k..], 0, len) == d[Min(k + len, |d|)..]
  {
    if len < |d| - k {
      assert Remove(d[k..], 0, len) == [] + d[k..][len..];
    }
  }

  /** A QByteArray held by reference, so that a callee can shorten the caller's buffer. */
  class ByteArray {
    var data: seq<byte>

    constructor (data: seq<byte>)
      ensures this.data == data
    {
      this.data := data;
    }

    /** QByteArray::remove(pos, len), in place. */
    method RemoveRange(pos: nat, len: nat)
      modifies this
      ensures data == Remove(old(data), pos, len)
    {
      data := Remove(data, pos, len);
    }

    /** QByteArray::remove(pos, len) in place, with a size_t length narrowed to `int`. */
    method RemoveNarrowedRange(pos: nat, len: nat)
      modifies this
      ensures data == RemoveNarrowed(old(data), pos, len)
    {
      var k := ToInt(len);
      if k > 0 {
        data := Remove(data, pos, k);
      }
    }
  }
}
