/** The pixel accessors of generation.cpp: byte offsets computed in
    `uint32_t`, the two `GetPixel` overloads and `SetPixel`, together with the
    views `ImageSource` and `NormalSink` declared in generation.h. */
module Pixels {
  import opened Vectors

  /** 2^32: every `uint32_t` computation is taken modulo this. */
  const Modulus: int := 0x1_0000_0000

  /** The values of a `uint32_t`. */
  type U32 = x: int | 0 <= x < 0x1_0000_0000

  /** Conversion of a non-negative integer to `uint32_t`. */
  function Wrap32(n: nat): U32
  {
    n % Modulus
  }

  /** Bytes per source pixel (`PixelSize` in the source `GetPixel`). */
  const SourcePixelSize: nat := 4

  /** Bytes per sink pixel: three 4-byte floats. */
  const SinkPixelSize: nat := 12

  /** The offset of a pixel: its column times the pixel size plus its row
      times the row pitch, stored in a `uint32_t`. The product of two
      `uint32_t` wraps; `col * PixelSize` is computed in `size_t` and the
      sum wraps when it is stored into `offset`. Either way the offset is the
      exact expression taken modulo 2^32. */
  function Offset(pixelSize: nat, pitch: U32, col: U32, row: U32): (r: U32)
    ensures r == (col * pixelSize + row * pitch) % Modulus
  {
    Wrap32(col * pixelSize + Wrap32(row * pitch))
  }

  /** Neighbouring pixels of a row lie `pixelSize` bytes apart, neighbouring
      rows `pitch` bytes apart, both modulo 2^32. */
  lemma OffsetSteps(pixelSize: nat, pitch: U32, col: U32, row: U32)
    ensures col + 1 < Modulus ==>
      Offset(pixelSize, pitch, col + 1, row) == (Offset(pixelSize, pitch, col, row) + pixelSize) % Modulus
    ensures row + 1 < Modulus ==>
      Offset(pixelSize, pitch, col, row + 1) == (Offset(pixelSize, pitch, col, row) + pitch) % Modulus
  {
    var e := col * pixelSize + row * pitch;
    assert (col + 1) * pixelSize + row * pitch == e + pixelSize;
    assert col * pixelSize + (row + 1) * pitch == e + pitch;
    AddModulus(e, pixelSize);
    AddModulus(e, pitch);
  }

  lemma AddModulus(e: nat, k: nat)
    ensures (e + k) % Modulus == (e % Modulus + k) % Modulus
  {
  }

  /** A byte of memory. */
  newtype uint8 = x: int | 0 <= x < 0x100

  /** The signedness of plain `char`, which the C++ standard leaves to the
      platform. Source bytes are read through `char const*`. */
  datatype CharSign = SignedChar | UnsignedChar

  /** The integer that a `char` holding byte `b` promotes to: the byte
      itself, or its two's-complement reading. */
  function CharValue(sign: CharSign, b: uint8): (r: int)
    ensures r % 256 == b as int
    ensures sign == UnsignedChar ==> 0 <= r < 256
    ensures sign == SignedChar ==> -128 <= r < 128
  {
    match sign
    case UnsignedChar => b as int
    case SignedChar => if b < 0x80 then b as int else b as int - 0x100
  }

  /** A source byte divided by 255, computed exactly. */
  function Channel(sign: CharSign, b: uint8): real
  {
    CharValue(sign, b) as real / 255.0
  }

  /** With unsigned `char` a channel lies in [0, 1]; with signed `char` a byte
      of 128 or more gives a negative channel, and the two readings differ by
      exactly 256/255 there. */
  lemma ChannelRange(b: uint8)
    ensures 0.0 <= Channel(UnsignedChar, b) <= 1.0
    ensures b < 128 ==> Channel(SignedChar, b) == Channel(UnsignedChar, b)
    ensures b >= 128 ==> Channel(SignedChar, b) < 0.0
    ensures b >= 128 ==> Channel(SignedChar, b) == Channel(UnsignedChar, b) - 256.0 / 255.0
  {
  }

  /** `struct ImageSource`: a read-only view of 4-byte pixels. */
  datatype ImageSource = ImageSource(
    pixelBytes: seq<uint8>,
    rowPitchInBytes: U32,
    rowCount: U32,
    columnCount: U32)

  /** Start of source pixel (`col`, `row`) relative to `pixelBytes`. */
  function SourceOffset(img: ImageSource, col: U32, row: U32): U32
  {
    Offset(SourcePixelSize, img.rowPitchInBytes, col, row)
  }

  /** The three bytes `GetPixel` reads from `img` are inside the buffer. */
  predicate SourceReadable(img: ImageSource, col: U32, row: U32)
  {
    SourceOffset(img, col, row) + 3 <= |img.pixelBytes|
  }

  /** `GetPixel(ImageSource, col, row)`: the first three bytes of the pixel,
      each divided by 255; the fourth byte is not read. */
  function GetSourcePixel(sign: CharSign, img: ImageSource, col: U32, row: U32): (r: Float3)
    requires SourceReadable(img, col, row)
    ensures sign == UnsignedChar ==>
      0.0 <= r.x <= 1.0 && 0.0 <= r.y <= 1.0 && 0.0 <= r.z <= 1.0
  {
    var offset := SourceOffset(img, col, row);
    var p := img.pixelBytes[offset..];
    ChannelRange(p[0]);
    ChannelRange(p[1]);
    ChannelRange(p[2]);
    Float3(Channel(sign, p[0]), Channel(sign, p[1]), Channel(sign, p[2]))
  }

  /** The value of a source pixel depends on its first three bytes only. */
  lemma GetSourcePixelReadsThreeBytes(sign: CharSign, a: ImageSource, b: ImageSource, col: U32, row: U32)
    requires a.rowPitchInBytes == b.rowPitchInBytes
    requires SourceReadable(a, col, row) && SourceReadable(b, col, row)
    requires a.pixelBytes[SourceOffset(a, col, row)..SourceOffset(a, col, row) + 3]
          == b.pixelBytes[SourceOffset(b, col, row)..SourceOffset(b, col, row) + 3]
    ensures GetSourcePixel(sign, a, col, row) == GetSourcePixel(sign, b, col, row)
  {
    var o := SourceOffset(a, col, row);
    assert a.pixelBytes[o] == a.pixelBytes[o..o + 3][0] == b.pixelBytes[o..o + 3][0] == b.pixelBytes[o];
    assert a.pixelBytes[o + 1] == a.pixelBytes[o..o + 3][1] == b.pixelBytes[o..o + 3][1] == b.pixelBytes[o + 1];
    assert a.pixelBytes[o + 2] == a.pixelBytes[o..o + 3][2] == b.pixelBytes[o..o + 3][2] == b.pixelBytes[o + 2];
  }

  /** The object representation of a `float`: the four bytes `memcpy`
      moves. */
  type FloatBytes = b: seq<uint8> | |b| == 4 witness [0, 0, 0, 0]

  /** How a 32-bit float and a real relate when `memcpy` moves its bytes:
      `store` is a float store (it rounds a real to a representable value
      and yields that value's four bytes), `load` is the value four bytes
      denote. The IEEE-754 binary32 format and the byte order are the
      platform's and are not part of this model. */
  datatype Codec = Codec(store: real -> FloatBytes, load: FloatBytes -> real)

  /** The value `x` takes once stored as a float. */
  function Round(c: Codec, x: real): real
  {
    c.load(c.store(x))
  }

  /** The 12 bytes of a `float3` in memory: x, y, z. */
  function Encode(c: Codec, v: Float3): (r: seq<uint8>)
    ensures |r| == SinkPixelSize
  {
    c.store(v.x) + c.store(v.y) + c.store(v.z)
  }

  /** The `float3` that 12 bytes in memory hold. */
  function Decode(c: Codec, b: seq<uint8>): Float3
    requires |b| == SinkPixelSize
  {
    Float3(c.load(b[0..4]), c.load(b[4..8]), c.load(b[8..12]))
  }

  /** Reading back a stored `float3` gives each component as a float store
      rounds it; a vector whose components are representable comes back
      unchanged. */
  lemma {:induction false} DecodeEncode(c: Codec, v: Float3)
    ensures Decode(c, Encode(c, v)) == Float3(Round(c, v.x), Round(c, v.y), Round(c, v.z))
    ensures Round(c, v.x) == v.x && Round(c, v.y) == v.y && Round(c, v.z) == v.z ==>
      Decode(c, Encode(c, v)) == v
  {
    var b := Encode(c, v);
    assert b[0..4] == c.store(v.x);
    assert b[4..8] == c.store(v.y);
    assert b[8..12] == c.store(v.z);
  }

  /** `struct NormalSink`: a writable view of 12-byte pixels. Its row and
      column counts are those of the sources. */
  datatype NormalSink = NormalSink(normalBytes: array<uint8>, rowPitchInBytes: U32)

  /** Start of sink pixel (`col`, `row`) relative to `normalBytes`. */
  function SinkOffset(pitch: U32, col: U32, row: U32): U32
  {
    Offset(SinkPixelSize, pitch, col, row)
  }

  /** The 12 bytes `GetPixel` reads from a sink of `len` bytes are inside it. */
  predicate SinkReadable(pitch: U32, len: nat, col: U32, row: U32)
  {
    SinkOffset(pitch, col, row) + SinkPixelSize <= len
  }

  /** The 12 bytes that `GetPixel(NormalSink, col, row)` copies out of the
      sink's bytes `bytes`: the object representation of the `float3` it
      returns. */
  function SinkPixelBytes(bytes: seq<uint8>, pitch: U32, col: U32, row: U32): (r: seq<uint8>)
    requires SinkReadable(pitch, |bytes|, col, row)
    ensures |r| == SinkPixelSize
  {
    var offset := SinkOffset(pitch, col, row);
    bytes[offset..offset + SinkPixelSize]
  }

  /** The value of that `float3`: its three components as loaded floats. */
  function SinkVector(c: Codec, bytes: seq<uint8>, pitch: U32, col: U32, row: U32): Float3
    requires SinkReadable(pitch, |bytes|, col, row)
  {
    Decode(c, SinkPixelBytes(bytes, pitch, col, row))
  }

  /** The sink's bytes after `SetPixel` stores a `float3` whose object
      representation is `pixel`: `memcpy` copies those 12 bytes to the start
      of the buffer, whatever the pixel position. A `float3` computed by
      arithmetic has the bytes `Encode` gives; one returned by the sink's
      `GetPixel` and passed on by value keeps the bytes it was copied from. */
  function Stored(bytes: seq<uint8>, pixel: seq<uint8>): (r: seq<uint8>)
    requires |pixel| == SinkPixelSize && SinkPixelSize <= |bytes|
    ensures |r| == |bytes|
    ensures r[..SinkPixelSize] == pixel
    ensures r[SinkPixelSize..] == bytes[SinkPixelSize..]
  {
    pixel + bytes[SinkPixelSize..]
  }

  /** After a store, the pixel at offset 0 holds the stored bytes, so a
      stored vector reads back rounded; a pixel whose offset is 12 or more
      still holds what it held before. */
  lemma {:induction false} StoredReadBack(c: Codec, bytes: seq<uint8>, value: Float3, pitch: U32, col: U32, row: U32)
    requires SinkPixelSize <= |bytes|
    requires SinkReadable(pitch, |bytes|, col, row)
    ensures SinkOffset(pitch, col, row) == 0 ==>
      SinkPixelBytes(Stored(bytes, Encode(c, value)), pitch, col, row) == Encode(c, value)
    ensures SinkOffset(pitch, col, row) == 0 ==>
      SinkVector(c, Stored(bytes, Encode(c, value)), pitch, col, row)
        == Float3(Round(c, value.x), Round(c, value.y), Round(c, value.z))
    ensures SinkOffset(pitch, col, row) >= SinkPixelSize ==>
      SinkPixelBytes(Stored(bytes, Encode(c, value)), pitch, col, row) == SinkPixelBytes(bytes, pitch, col, row)
  {
    var after := Stored(bytes, Encode(c, value));
    var o := SinkOffset(pitch, col, row);
    if o == 0 {
      assert after[o..o + SinkPixelSize] == Encode(c, value);
      DecodeEncode(c, value);
    } else if o >= SinkPixelSize {
      SlicePastPrefix(bytes, after, SinkPixelSize, o, o + SinkPixelSize);
    }
  }

  /** A pixel that lies past the first 12 bytes has the same bytes, and so
      reads the same, in two buffers that agree from byte 12 on. */
  lemma SinkVectorPastPrefix(c: Codec, a: seq<uint8>, b: seq<uint8>, pitch: U32, col: U32, row: U32)
    requires |a| == |b| && SinkPixelSize <= |a|
    requires a[SinkPixelSize..] == b[SinkPixelSize..]
    requires SinkReadable(pitch, |a|, col, row)
    requires SinkOffset(pitch, col, row) >= SinkPixelSize
    ensures SinkPixelBytes(a, pitch, col, row) == SinkPixelBytes(b, pitch, col, row)
    ensures SinkVector(c, a, pitch, col, row) == SinkVector(c, b, pitch, col, row)
  {
    var o := SinkOffset(pitch, col, row);
    SlicePastPrefix(a, b, SinkPixelSize, o, o + SinkPixelSize);
  }

  /** Two sequences that agree from `k` on agree on every slice past `k`. */
  lemma SlicePastPrefix(a: seq<uint8>, b: seq<uint8>, k: nat, i: nat, j: nat)
    requires |a| == |b| && k <= i <= j <= |a|
    requires a[k..] == b[k..]
    ensures a[i..j] == b[i..j]
  {
    forall t | i <= t < j
      ensures a[t] == b[t]
    {
      assert a[t] == a[k..][t - k];
      assert b[t] == b[k..][t - k];
    }
  }

  /** `SetPixel`: computes the pixel's offset but then copies the 12 bytes
      of the value, `pixel`, to the start of the buffer, so that exactly
      bytes [0, 12) change and `col` and `row` have no effect. */
  method SetPixel(img: NormalSink, col: U32, row: U32, pixel: seq<uint8>)
    requires |pixel| == SinkPixelSize
    requires SinkPixelSize <= img.normalBytes.Length
    modifies img.normalBytes
    ensures img.normalBytes[..] == Stored(old(img.normalBytes[..]), pixel)
  {
    var offset := SinkOffset(img.rowPitchInBytes, col, row);
    forall i | 0 <= i < SinkPixelSize {
      img.normalBytes[i] := pixel[i];
    }
    assert img.normalBytes[..SinkPixelSize] == pixel;
    assert img.normalBytes[..] == img.normalBytes[..SinkPixelSize] + img.normalBytes[SinkPixelSize..];
  }
}
