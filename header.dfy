/**
 * The header readers `getDataOffset`, `getWidth` and `getHeight`: each seeks
 * to a fixed offset of the Microsoft BMP header and `fread`s little-endian
 * bytes into an `unsigned int`. The file is a byte sequence here.
 */
module Header {
  import opened Pixels
  import opened Grid

  /** `bfOffBits`: where the pixel data starts, 4 bytes. */
  const OffsetField: nat := 0x0A
  /** `biWidth`: a 4-byte field, of which the reader takes the low 2 bytes. */
  const WidthField: nat := 0x12
  /** `biHeight`: a 4-byte field, of which the reader takes the low 2 bytes. */
  const HeightField: nat := 0x16
  /** One past the last header byte any reader touches. */
  const HeaderExtent: nat := 0x18

  function Pow256(n: nat): (p: nat)
    ensures p >= 1
  {
    if n == 0 then 1 else 256 * Pow256(n - 1)
  }

  /**
   * The value of `bs` read least significant byte first, as an `fread` into
   * an `unsigned int` stores it on a little-endian host.
   */
  function LittleEndian(bs: seq<Byte>): (v: nat)
    ensures v < Pow256(|bs|)
  {
    if |bs| == 0 then 0 else bs[0] + 256 * LittleEndian(bs[1..])
  }

  /** The n bytes that store `v` little-endian: how a writer lays a field down. */
  function EncodeLittleEndian(v: nat, n: nat): (bs: seq<Byte>)
    requires v < Pow256(n)
    ensures |bs| == n
  {
    if n == 0 then [] else [v % 256] + EncodeLittleEndian(v / 256, n - 1)
  }

  lemma {:induction false} DecodeEncode(v: nat, n: nat)
    requires v < Pow256(n)
    ensures LittleEndian(EncodeLittleEndian(v, n)) == v
  {
    if n > 0 {
      var bs := EncodeLittleEndian(v, n);
      assert bs[1..] == EncodeLittleEndian(v / 256, n - 1);
      DecodeEncode(v / 256, n - 1);
    }
  }

  lemma {:induction false} EncodeDecode(bs: seq<Byte>)
    ensures EncodeLittleEndian(LittleEndian(bs), |bs|) == bs
  {
    if |bs| > 0 {
      var v, rest := LittleEndian(bs), LittleEndian(bs[1..]);
      SplitLowByte(bs[0], rest);
      assert v % 256 == bs[0] && v / 256 == rest;
      EncodeDecode(bs[1..]);
      assert EncodeLittleEndian(v, |bs|) == [bs[0]] + bs[1..];
    }
  }

  /** The low byte and the remaining high part of `lo + 256 * hi`. */
  lemma SplitLowByte(lo: Byte, hi: nat)
    ensures (lo + 256 * hi) % 256 == lo && (lo + 256 * hi) / 256 == hi
  {
  }

  lemma LittleEndianOfTwo(bs: seq<Byte>)
    requires |bs| == 2
    ensures LittleEndian(bs) == bs[0] as int + 0x100 * bs[1] as int
  {
    assert bs[1..][1..] == [];
  }

  lemma LittleEndianOfFour(bs: seq<Byte>)
    requires |bs| == 4
    ensures LittleEndian(bs) == bs[0] as int + 0x100 * bs[1] as int + 0x1_0000 * bs[2] as int + 0x100_0000 * bs[3] as int
    ensures LittleEndian(bs) < U32Limit
  {
    LittleEndianOfTwo(bs[2..]);
    assert bs[1..][1..] == bs[2..];
  }

  /** `getDataOffset`: the 4 bytes at 0x0A. */
  function DataOffset(file: seq<Byte>): (offset: U32)
    requires |file| >= OffsetField + 4
    ensures offset == file[0x0A] as int + 0x100 * file[0x0B] as int + 0x1_0000 * file[0x0C] as int + 0x100_0000 * file[0x0D] as int
  {
    var field := file[OffsetField..OffsetField + 4];
    LittleEndianOfFour(field);
    LittleEndian(field)
  }

  /**
   * `getWidth`: 2 bytes at 0x12 read into a 4-byte `unsigned int`; the two
   * high bytes the `fread` leaves untouched are taken to be zero.
   */
  function Width(file: seq<Byte>): (width: U32)
    requires |file| >= WidthField + 2
    ensures width < 0x1_0000
    ensures width == file[0x12] as int + 0x100 * file[0x13] as int
  {
    var field := file[WidthField..WidthField + 2];
    LittleEndianOfTwo(field);
    LittleEndian(field)
  }

  /** `getHeight`: 2 bytes at 0x16, high bytes taken to be zero as for the width. */
  function Height(file: seq<Byte>): (height: U32)
    requires |file| >= HeightField + 2
    ensures height < 0x1_0000
    ensures height == file[0x16] as int + 0x100 * file[0x17] as int
  {
    var field := file[HeightField..HeightField + 2];
    LittleEndianOfTwo(field);
    LittleEndian(field)
  }

  /** A header written with these three values reads back as them. */
  lemma HeaderRoundTrip(file: seq<Byte>, offset: U32, width: nat, height: nat)
    requires |file| >= HeaderExtent && width < 0x1_0000 && height < 0x1_0000
    requires file[OffsetField..OffsetField + 4] == EncodeLittleEndian(offset, 4)
    requires file[WidthField..WidthField + 2] == EncodeLittleEndian(width, 2)
    requires file[HeightField..HeightField + 2] == EncodeLittleEndian(height, 2)
    ensures DataOffset(file) == offset && Width(file) == width && Height(file) == height
  {
    DecodeEncode(offset, 4);
    DecodeEncode(width, 2);
    DecodeEncode(height, 2);
  }

  lemma ProductBelow32Bits(a: nat, b: nat)
    requires a < 0x1_0000 && b < 0x1_0000
    ensures a * b < U32Limit
  {
    MulMonotone(b, 0xFFFF, a);
    MulMonotone(a, 0xFFFF, 0xFFFF);
  }

  /** `size = width * height` in `main` cannot wrap around: both factors are below 2^16. */
  lemma SizeFitsU32(file: seq<Byte>)
    requires |file| >= HeaderExtent
    ensures Width(file) * Height(file) < U32Limit
  {
    ProductBelow32Bits(Width(file), Height(file));
  }

  /** `unsigned int size = width * height`, the number of pixels. */
  function Size(file: seq<Byte>): U32
    requires |file| >= HeaderExtent
  {
    SizeFitsU32(file);
    Width(file) * Height(file)
  }
}
