/**
 * `getDataArray`: reads `size` pixels of four bytes each, starting at the
 * pixel-data offset, into a freshly allocated array. In the file each pixel
 * is stored as alpha, blue, green, red.
 */
module Decoder {
  import opened Pixels

  /** The pixel whose four bytes start at `pos`; every channel is one byte. */
  function DecodePixel(file: seq<Byte>, pos: nat): (p: Pixel)
    requires pos + 4 <= |file|
    ensures IsBytePixel(p)
  {
    Pixel(r := file[pos + 3], g := file[pos + 2], b := file[pos + 1], a := file[pos])
  }

  /** The image as a value: `size` consecutive four-byte pixels from `offset` on. */
  function DecodeImage(file: seq<Byte>, offset: nat, size: nat): (ps: seq<Pixel>)
    requires offset + 4 * size <= |file|
    ensures |ps| == size
    ensures AllBytes(ps)
    decreases size
  {
    if size == 0 then [] else [DecodePixel(file, offset)] + DecodeImage(file, offset + 4, size - 1)
  }

  /** Pixel i of the decoded image comes from bytes offset + 4i .. offset + 4i + 3. */
  lemma {:induction false} DecodeImageAt(file: seq<Byte>, offset: nat, size: nat, i: nat)
    requires offset + 4 * size <= |file| && i < size
    ensures DecodeImage(file, offset, size)[i] == DecodePixel(file, offset + 4 * i)
    decreases size
  {
    if i > 0 {
      DecodeImageAt(file, offset + 4, size - 1, i - 1);
    }
  }

  /** The bytes a writer stores for these pixels: a, b, g, r for each in turn. */
  function EncodePixels(ps: seq<Pixel>): (bytes: seq<Byte>)
    requires AllBytes(ps)
    ensures |bytes| == 4 * |ps|
  {
    if ps == [] then []
    else [ps[0].a as Byte, ps[0].b as Byte, ps[0].g as Byte, ps[0].r as Byte] + EncodePixels(ps[1..])
  }

  /** Decoding the pixel data of any file laid out as header, pixels, trailer gives back the pixels. */
  lemma {:induction false} DecodeEncodePixels(header: seq<Byte>, ps: seq<Pixel>, trailer: seq<Byte>)
    requires AllBytes(ps)
    ensures DecodeImage(header + EncodePixels(ps) + trailer, |header|, |ps|) == ps
    decreases |ps|
  {
    if ps != [] {
      var quad := [ps[0].a as Byte, ps[0].b as Byte, ps[0].g as Byte, ps[0].r as Byte];
      var rest := EncodePixels(ps[1..]) + trailer;
      EncodeLayout(header, ps, trailer);
      DecodeEncodePixels(header + quad, ps[1..], trailer);
      DecodeQuad(header, quad, rest);
      assert [ps[0]] + ps[1..] == ps;
    }
  }

  /** The encoded file is the header, the first pixel's four bytes, and the rest. */
  lemma EncodeLayout(header: seq<Byte>, ps: seq<Pixel>, trailer: seq<Byte>)
    requires AllBytes(ps) && ps != []
    ensures var quad := [ps[0].a as Byte, ps[0].b as Byte, ps[0].g as Byte, ps[0].r as Byte];
            && header + EncodePixels(ps) + trailer == header + quad + (EncodePixels(ps[1..]) + trailer)
            && (header + quad) + EncodePixels(ps[1..]) + trailer == header + quad + (EncodePixels(ps[1..]) + trailer)
  {
  }

  /** The four bytes after `header` decode to the pixel they store, red last. */
  lemma DecodeQuad(header: seq<Byte>, quad: seq<Byte>, rest: seq<Byte>)
    requires |quad| == 4
    ensures DecodePixel(header + quad + rest, |header|) == Pixel(quad[3], quad[2], quad[1], quad[0])
  {
    var file := header + quad + rest;
    assert file[|header| + 3] == quad[3] && file[|header| + 2] == quad[2];
    assert file[|header| + 1] == quad[1] && file[|header|] == quad[0];
  }

  /**
   * `getDataArray`. Positions are kept below 2^31, where the source's `int`
   * index arithmetic and its unsigned seek positions are exact.
   */
  method DecodePixels(file: seq<Byte>, offset: nat, size: nat) returns (pixels: array<Pixel>)
    requires offset + 4 * size <= |file|
    requires offset + 4 * size <= 0x8000_0000
    ensures fresh(pixels) && pixels.Length == size
    ensures forall i :: 0 <= i < size ==> pixels[i] == DecodePixel(file, offset + 4 * i)
    ensures pixels[..] == DecodeImage(file, offset, size)
  {
    pixels := new Pixel[size](_ => Black);
    for i := 0 to size
      invariant forall k :: 0 <= k < i ==> pixels[k] == DecodePixel(file, offset + 4 * k)
    {
      pixels[i] := pixels[i].(a := file[offset + i * 4]);
      pixels[i] := pixels[i].(b := file[offset + i * 4 + 1]);
      pixels[i] := pixels[i].(g := file[offset + i * 4 + 2]);
      pixels[i] := pixels[i].(r := file[offset + i * 4 + 3]);
    }
    forall i | 0 <= i < size
      ensures pixels[..][i] == DecodeImage(file, offset, size)[i]
    {
      DecodeImageAt(file, offset, size, i);
    }
  }
}
