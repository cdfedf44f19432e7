/**
 * `getGreyscale`: the mean of r, g and b, rescaled from 0..255 to the
 * 0..1000 scale of ncurses colours by `/ 0.255`, then divided by 62 to pick
 * a colour pair. The double division is modelled as the exact quotient
 * mean * 1000 / 255, truncated as the assignment to `short int` truncates it.
 */
module Palette {
  import opened Pixels

  /** The painter initialises pairs 0..15 only. */
  const PaletteSize: nat := 16
  /** Distance between palette greys on the 0..1000 scale. */
  const Step: nat := 62

  /** `init_color(i, i * 62, i * 62, i * 62)`: the grey of palette entry i. */
  function PaletteGrey(index: nat): nat
  {
    index * Step
  }

  /** `r + g + b` in unsigned arithmetic; for byte pixels it cannot wrap. */
  function Brightness(p: Pixel): (s: U32)
    ensures IsBytePixel(p) ==> s == p.r + p.g + p.b
  {
    AddU32(AddU32(p.r, p.g), p.b)
  }

  /** `(r + g + b) / 3`, an unsigned division. */
  function Mean(p: Pixel): (m: nat)
    ensures IsBytePixel(p) ==> m <= 255
  {
    Brightness(p) / 3
  }

  /** `mean / 0.255` truncated: mean * 1000 / 255. */
  function Rescale(mean: nat): nat
  {
    mean * 1000 / 255
  }

  /** The rescaled value fits the `short int` it is stored in. */
  predicate FitsShort(p: Pixel)
  {
    Rescale(Mean(p)) <= 0x7FFF
  }

  /**
   * The colour pair of a pixel: the palette entry whose grey is the largest
   * one not above the pixel's rescaled brightness. For byte pixels it is at
   * most 16, one more than the last pair the painter initialises.
   */
  function Greyscale(p: Pixel): (index: nat)
    requires FitsShort(p)
    ensures PaletteGrey(index) <= Rescale(Mean(p)) < PaletteGrey(index + 1)
    ensures IsBytePixel(p) ==> index <= PaletteSize
  {
    Rescale(Mean(p)) / Step
  }

  /** Every byte pixel, such as every averaged block, can be quantised. */
  lemma BytePixelFitsShort(p: Pixel)
    requires IsBytePixel(p)
    ensures FitsShort(p) && Rescale(Mean(p)) <= 1000
  {
  }

  /** A brighter pixel never gets a darker pair. */
  lemma GreyscaleMonotone(p: Pixel, q: Pixel)
    requires FitsShort(p) && FitsShort(q)
    requires Brightness(p) <= Brightness(q)
    ensures Greyscale(p) <= Greyscale(q)
  {
    assert Mean(p) <= Mean(q);
    assert Rescale(Mean(p)) <= Rescale(Mean(q));
  }

  /**
   * A byte pixel lands on pair 16, which the painter never initialises,
   * exactly when its mean is 253 or more.
   */
  lemma OutsidePaletteIff(p: Pixel)
    requires IsBytePixel(p)
    ensures Greyscale(p) == PaletteSize <==> Mean(p) >= 253
  {
    if Mean(p) >= 253 {
      assert Rescale(Mean(p)) >= Rescale(253) == 992;
    } else {
      assert Rescale(Mean(p)) <= Rescale(252) == 988;
    }
  }

  const White: Pixel := Pixel(255, 255, 255, 255)

  /** A white block uses pair 16; black uses pair 0. */
  lemma WhiteAndBlackPairs()
    ensures Greyscale(White) == PaletteSize
    ensures Greyscale(Black) == 0
  {
    OutsidePaletteIff(White);
  }

  /**
   * The double quotient `mean / 0.255` can differ from the exact one only
   * by rounding, which moves the truncated value by one at most where the
   * exact quotient is a whole number: at the multiples of 51. There the
   * division by 62 gives the same pair either way.
   */
  lemma RoundingCannotMovePair(mean: nat)
    requires 0 < mean <= 255 && mean % 51 == 0
    ensures mean * 1000 % 255 == 0
    ensures (Rescale(mean) - 1) / Step == Rescale(mean) / Step
  {
    var k := mean / 51;
    assert mean == 51 * k && 1 <= k <= 5;
    assert Rescale(mean) == 200 * k;
  }

  /** Between the multiples of 51 the exact quotient is never whole. */
  lemma ExactOnlyAtMultiplesOf51(mean: nat)
    requires mean <= 255 && mean * 1000 % 255 == 0
    ensures mean % 51 == 0
  {
  }
}
