/**
 * Values the viewer works with: bytes of the bitmap file, C's 32-bit
 * `unsigned int`, and the four-channel `Pixel` record of bmpcurses.h.
 */
module Pixels {

  /** One byte of the bitmap file. */
  type Byte = x: int | 0 <= x < 0x100

  /** 2^32: one past the largest `unsigned int`. */
  const U32Limit: int := 0x1_0000_0000

  /** A C `unsigned int` on the platforms the viewer targets. */
  type U32 = x: int | 0 <= x < 0x1_0000_0000

  /** Unsigned addition as C performs it: the sum wraps around modulo 2^32. */
  function AddU32(x: U32, y: U32): (s: U32)
    ensures x + y < U32Limit ==> s == x + y
    ensures x + y >= U32Limit ==> s == x + y - U32Limit
  {
    (x + y) % U32Limit
  }

  /** A pixel: every channel is an `unsigned int`, wide enough to accumulate sums. */
  datatype Pixel = Pixel(r: U32, g: U32, b: U32, a: U32)

  /** The four channels, so that lemmas can speak of "every channel" at once. */
  datatype Channel = R | G | B | A

  function Get(p: Pixel, c: Channel): U32
  {
    match c
    case R => p.r
    case G => p.g
    case B => p.b
    case A => p.a
  }

  /** The all-zero pixel: the start value of an accumulator. */
  const Black: Pixel := Pixel(0, 0, 0, 0)

  /** Every channel holds one byte, as after decoding and after averaging. */
  predicate IsBytePixel(p: Pixel)
  {
    p.r < 0x100 && p.g < 0x100 && p.b < 0x100 && p.a < 0x100
  }

  /** Every pixel of a buffer is a byte pixel. */
  predicate AllBytes(ps: seq<Pixel>)
  {
    forall k :: 0 <= k < |ps| ==> IsBytePixel(ps[k])
  }

  /**
   * `addPixels`: channel-wise unsigned addition. The arguments are passed by
   * value, so the result is a new pixel and neither argument changes.
   */
  function AddPixels(p1: Pixel, p2: Pixel): (sum: Pixel)
    ensures forall c :: Get(p1, c) + Get(p2, c) < U32Limit ==> Get(sum, c) == Get(p1, c) + Get(p2, c)
    ensures forall c :: Get(p1, c) + Get(p2, c) >= U32Limit ==> Get(sum, c) == Get(p1, c) + Get(p2, c) - U32Limit
  {
    Pixel(AddU32(p1.r, p2.r), AddU32(p1.g, p2.g), AddU32(p1.b, p2.b), AddU32(p1.a, p2.a))
  }

  lemma AddPixelsCommutative(p1: Pixel, p2: Pixel)
    ensures AddPixels(p1, p2) == AddPixels(p2, p1)
  {
  }

  lemma AddU32Associative(x: U32, y: U32, z: U32)
    ensures AddU32(AddU32(x, y), z) == AddU32(x, AddU32(y, z))
  {
  }

  /** The order in which a block's pixels are added into the accumulator does not matter. */
  lemma AddPixelsAssociative(p1: Pixel, p2: Pixel, p3: Pixel)
    ensures AddPixels(AddPixels(p1, p2), p3) == AddPixels(p1, AddPixels(p2, p3))
  {
    AddU32Associative(p1.r, p2.r, p3.r);
    AddU32Associative(p1.g, p2.g, p3.g);
    AddU32Associative(p1.b, p2.b, p3.b);
    AddU32Associative(p1.a, p2.a, p3.a);
  }
}
