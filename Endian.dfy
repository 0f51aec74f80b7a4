/**
  Byte order of 16-bit samples and length fields.

  The container stores every int16 (frame lengths and PCM samples) little-endian.
  A host keeps an int16 in memory as two bytes whose order depends on the host;
  on a big-endian host the decoder calls swap_endian to exchange them.
 */
module Endian {

  type byte = b: int | 0 <= b < 0x100
  type int16 = x: int | -0x8000 <= x < 0x8000

  /** Memory byte order of the machine the decoder runs on. */
  datatype HostOrder = LittleEndianHost | BigEndianHost

  /** The two's-complement bit pattern of `v`, read as an unsigned number. */
  function Unsigned(v: int16): (u: int)
    ensures 0 <= u < 0x1_0000
    ensures (u - v) % 0x1_0000 == 0
  {
    if v < 0 then v + 0x1_0000 else v
  }

  /** The int16 whose little-endian encoding is the bytes `lo`, `hi`. */
  function FromBytesLE(lo: byte, hi: byte): (v: int16)
    ensures Unsigned(v) == lo + 0x100 * hi
    ensures v < 0 <==> hi >= 0x80
  {
    var u := lo + 0x100 * hi;
    if u >= 0x8000 then u - 0x1_0000 else u
  }

  /** The two little-endian bytes of `v`: low byte first. */
  function ToBytesLE(v: int16): (b: seq<byte>)
    ensures |b| == 2
    ensures b[0] as int + 0x100 * (b[1] as int) == Unsigned(v)
    ensures FromBytesLE(b[0], b[1]) == v
  {
    var u := Unsigned(v);
    [u % 0x100, u / 0x100]
  }

  lemma BytesRoundTrip(lo: byte, hi: byte)
    ensures ToBytesLE(FromBytesLE(lo, hi)) == [lo, hi]
  {
    var b := ToBytesLE(FromBytesLE(lo, hi));
    assert b[0] as int + 0x100 * (b[1] as int) == lo as int + 0x100 * (hi as int);
  }

  /** The two bytes that hold `v` in the memory of a `host` machine. */
  function MemBytes(host: HostOrder, v: int16): (m: seq<byte>)
    ensures |m| == 2
    ensures host == LittleEndianHost ==> m[0] as int + 0x100 * (m[1] as int) == Unsigned(v)
    ensures host == BigEndianHost ==> 0x100 * (m[0] as int) + m[1] as int == Unsigned(v)
  {
    var b := ToBytesLE(v);
    if host == LittleEndianHost then b else [b[1], b[0]]
  }

  /** The int16 a `host` machine sees in two memory bytes `m0`, `m1` (lower address first). */
  function MemValue(host: HostOrder, m0: byte, m1: byte): (v: int16)
    ensures MemBytes(host, v) == [m0, m1]
  {
    BytesRoundTrip(m0, m1);
    BytesRoundTrip(m1, m0);
    if host == LittleEndianHost then FromBytesLE(m0, m1) else FromBytesLE(m1, m0)
  }

  /** `v` with its two bytes exchanged. */
  function ByteSwap(v: int16): (r: int16)
    ensures ToBytesLE(r) == [ToBytesLE(v)[1], ToBytesLE(v)[0]]
  {
    var b := ToBytesLE(v);
    BytesRoundTrip(b[1], b[0]);
    FromBytesLE(b[1], b[0])
  }

  lemma ByteSwapInvolutive(v: int16)
    ensures ByteSwap(ByteSwap(v)) == v
  {
    assert ToBytesLE(ByteSwap(ByteSwap(v))) == ToBytesLE(v);
    assert FromBytesLE(ToBytesLE(v)[0], ToBytesLE(v)[1]) == v;
  }

  /**
    Exchanging the two memory bytes of an int16 (what swap_endian does through
    byte pointers) swaps its value's bytes whatever the host's order.
   */
  lemma SwapInMemory(host: HostOrder, v: int16)
    ensures MemValue(host, MemBytes(host, v)[1], MemBytes(host, v)[0]) == ByteSwap(v)
  {
    var m := MemBytes(host, v);
    var w := MemValue(host, m[1], m[0]);
    assert MemBytes(host, w) == [m[1], m[0]];
    assert ToBytesLE(w) == ToBytesLE(ByteSwap(v));
    assert FromBytesLE(ToBytesLE(w)[0], ToBytesLE(w)[1]) == w;
  }

  /**
    A length field read from the file into memory, then swapped on a big-endian
    host, is the little-endian int16 of the two file bytes on either host.
   */
  lemma LengthFieldIsLittleEndian(host: HostOrder, b0: byte, b1: byte)
    ensures var m := MemValue(host, b0, b1);
            (if host == BigEndianHost then ByteSwap(m) else m) == FromBytesLE(b0, b1)
  {
    var m := MemValue(host, b0, b1);
    if host == BigEndianHost {
      BytesRoundTrip(b0, b1);
      assert ToBytesLE(ByteSwap(m)) == [b0, b1];
      assert FromBytesLE(ToBytesLE(ByteSwap(m))[0], ToBytesLE(ByteSwap(m))[1]) == ByteSwap(m);
    } else {
      assert ToBytesLE(m) == [b0, b1];
      assert FromBytesLE(ToBytesLE(m)[0], ToBytesLE(m)[1]) == m;
    }
  }

  /** Every element of `s` byte-swapped. */
  function SwapAll(s: seq<int16>): (r: seq<int16>)
    ensures |r| == |s|
    ensures forall i :: 0 <= i < |s| ==> r[i] == ByteSwap(s[i])
  {
    seq(|s|, i requires 0 <= i < |s| => ByteSwap(s[i]))
  }

  lemma SwapAllInvolutive(s: seq<int16>)
    ensures SwapAll(SwapAll(s)) == s
  {
    forall i | 0 <= i < |s|
      ensures SwapAll(SwapAll(s))[i] == s[i]
    {
      ByteSwapInvolutive(s[i]);
    }
  }

  function Max0(n: int): nat {
    if n < 0 then 0 else n
  }

  /**
    swap_endian, compiled only for big-endian hosts: exchanges, in memory, the two
    bytes of each of the first `len` elements of `vec` and leaves the rest alone.
   */
  method SwapEndian(vec: array<int16>, len: int)
    requires len <= vec.Length
    modifies vec
    ensures vec[..] == SwapAll(old(vec[..])[..Max0(len)]) + old(vec[..])[Max0(len)..]
  {
    var i := 0;
    while i < len
      invariant 0 <= i <= Max0(len)
      invariant forall j :: 0 <= j < i ==> vec[j] == ByteSwap(old(vec[j]))
      invariant forall j :: i <= j < vec.Length ==> vec[j] == old(vec[j])
    {
      var tmp := vec[i];
      var p2 := MemBytes(BigEndianHost, tmp);
      SwapInMemory(BigEndianHost, tmp);
      vec[i] := MemValue(BigEndianHost, p2[1], p2[0]);
      i := i + 1;
    }
    ghost var n := Max0(len);
    assert vec[..] == SwapAll(old(vec[..])[..n]) + old(vec[..])[n..] by {
      forall j | 0 <= j < vec.Length
        ensures vec[..][j] == (SwapAll(old(vec[..])[..n]) + old(vec[..])[n..])[j]
      {
        if j < n {
          assert vec[..][j] == ByteSwap(old(vec[..])[j]);
        }
      }
    }
  }

  /** The bytes fwrite stores for `s` on a `host` machine: each element's memory image in turn. */
  function HostBytes(host: HostOrder, s: seq<int16>): (b: seq<byte>)
    ensures |b| == 2 * |s|
  {
    if s == [] then [] else MemBytes(host, s[0]) + HostBytes(host, s[1..])
  }

  /**
    The memory image of a swapped array on a big-endian host is the image of
    the unswapped array on a little-endian host: swap_endian turns one host's
    layout into the other's.
   */
  lemma {:induction false} SwappedImageIsLittleEndianImage(s: seq<int16>)
    ensures HostBytes(BigEndianHost, SwapAll(s)) == HostBytes(LittleEndianHost, s)
  {
    if s != [] {
      SwappedImageIsLittleEndianImage(s[1..]);
      assert SwapAll(s)[1..] == SwapAll(s[1..]);
      assert MemBytes(BigEndianHost, SwapAll(s)[0]) == MemBytes(LittleEndianHost, s[0]);
    }
  }

  /** The little-endian byte stream of `s`, as the container stores samples. */
  function EncodeLE(s: seq<int16>): (b: seq<byte>)
    ensures |b| == 2 * |s|
  {
    if s == [] then [] else ToBytesLE(s[0]) + EncodeLE(s[1..])
  }

  /** Reads a little-endian byte stream back as int16s. */
  function DecodeLE(b: seq<byte>): (s: seq<int16>)
    requires |b| % 2 == 0
    ensures 2 * |s| == |b|
  {
    if b == [] then [] else [FromBytesLE(b[0], b[1])] + DecodeLE(b[2..])
  }

  lemma {:induction false} EncodeDecodeRoundTrip(s: seq<int16>)
    ensures DecodeLE(EncodeLE(s)) == s
  {
    if s != [] {
      var b := EncodeLE(s);
      assert b[2..] == EncodeLE(s[1..]);
      EncodeDecodeRoundTrip(s[1..]);
    }
  }

  lemma {:induction false} EncodeLEAppend(a: seq<int16>, b: seq<int16>)
    ensures EncodeLE(a + b) == EncodeLE(a) + EncodeLE(b)
  {
    if a != [] {
      assert (a + b)[0] == a[0];
      assert (a + b)[1..] == a[1..] + b;
      EncodeLEAppend(a[1..], b);
      assert EncodeLE(a + b) == ToBytesLE(a[0]) + EncodeLE(a[1..] + b);
    } else {
      assert a + b == b;
    }
  }

  /**
    What the decoder writes for a packet (the samples swapped first on a
    big-endian host, then stored as the host holds them) is their little-endian
    encoding: the output does not depend on the host's byte order.
   */
  lemma {:induction false} WrittenBytesAreLittleEndian(host: HostOrder, s: seq<int16>)
    ensures HostBytes(host, if host == BigEndianHost then SwapAll(s) else s) == EncodeLE(s)
  {
    if s != [] {
      WrittenBytesAreLittleEndian(host, s[1..]);
      if host == BigEndianHost {
        assert SwapAll(s)[1..] == SwapAll(s[1..]);
        ByteSwapInvolutive(s[0]);
        assert MemBytes(host, SwapAll(s)[0]) == ToBytesLE(s[0]);
      }
    }
  }
}
