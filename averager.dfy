/**
 * `getAveragedArray` and its use of `addPixels`: every full 8x8 block of the
 * row-major pixel buffer is summed channel by channel into one cell of a
 * zero-started buffer, and each sum is then divided by 64.
 *
 * The source's loop bounds are `ceil(height/BLOCK_HEIGHT)` and
 * `ceil(width/BLOCK_WIDTH)`, but the quotients are unsigned integer
 * divisions that truncate before `ceil` sees them: the grid is
 * floor(height/8) x floor(width/8) and partial edge blocks are never read.
 */
module Averager {
  import opened Pixels
  import opened Grid

  const BlockWidth: nat := 8
  const BlockHeight: nat := 8
  /** `divisor`: the number of pixels in a block. */
  const Divisor: nat := 64

  /**
   * `averagedSize`, the length of the output buffer: `ceil` of the double
   * quotient floor(size / 8) / 8, that is, the least n with 8n >= floor(size / 8).
   */
  function AveragedSize(size: nat): (n: nat)
    ensures BlockHeight * n >= size / BlockWidth
    ensures n == 0 || BlockHeight * (n - 1) < size / BlockWidth
  {
    (size / BlockWidth + BlockHeight - 1) / BlockHeight
  }

  /** Number of block rows: only full blocks, the remainder rows are dropped. */
  function GridRows(height: nat): (rows: nat)
    ensures BlockHeight * rows <= height < BlockHeight * rows + BlockHeight
  {
    height / BlockHeight
  }

  /** Number of block columns: only full blocks, the remainder columns are dropped. */
  function GridCols(width: nat): (cols: nat)
    ensures BlockWidth * cols <= width < BlockWidth * cols + BlockWidth
  {
    width / BlockWidth
  }

  /** Block (i, j) is a full block of an image of this size stored in `ps`. */
  predicate InGrid(ps: seq<Pixel>, width: nat, height: nat, i: nat, j: nat)
  {
    |ps| == width * height && i < GridRows(height) && j < GridCols(width)
  }

  /**
   * Index of pixel (x, y) of block (i, j) in the row-major source buffer;
   * it lies inside the image, so the averager never reads out of bounds.
   */
  function SourceIndex(width: nat, height: nat, i: nat, j: nat, y: nat, x: nat): (k: nat)
    requires i < GridRows(height) && j < GridCols(width) && y < BlockHeight && x < BlockWidth
    ensures k < width * height
  {
    CellIndexBound(width, height, i * BlockHeight + y, j * BlockWidth + x);
    (i * BlockHeight + y) * width + (j * BlockWidth + x)
  }

  /**
   * The accumulator of block (i, j) after its first n additions, starting
   * from zero: row y = n / 8 of the block outermost, column x = n % 8 inner.
   */
  function BlockAccum(ps: seq<Pixel>, width: nat, height: nat, i: nat, j: nat, n: nat): Pixel
    requires InGrid(ps, width, height, i, j) && n <= Divisor
  {
    if n == 0 then Black
    else
      var y, x := (n - 1) / BlockWidth, (n - 1) % BlockWidth;
      AddPixels(BlockAccum(ps, width, height, i, j, n - 1), ps[SourceIndex(width, height, i, j, y, x)])
  }

  /** Addition number 8y + x + 1 adds pixel (x, y) of the block. */
  lemma BlockAccumStep(ps: seq<Pixel>, width: nat, height: nat, i: nat, j: nat, y: nat, x: nat)
    requires InGrid(ps, width, height, i, j) && y < BlockHeight && x < BlockWidth
    ensures BlockWidth * y + x + 1 <= Divisor
    ensures BlockAccum(ps, width, height, i, j, BlockWidth * y + x + 1)
         == AddPixels(BlockAccum(ps, width, height, i, j, BlockWidth * y + x), ps[SourceIndex(width, height, i, j, y, x)])
  {
    BlockPosition(y, x);
  }

  /** Addition number n = 8y + x + 1 is the one for row y, column x of the block. */
  lemma BlockPosition(y: nat, x: nat)
    requires y < BlockHeight && x < BlockWidth
    ensures (BlockWidth * y + x) / BlockWidth == y && (BlockWidth * y + x) % BlockWidth == x
    ensures BlockWidth * y + x < Divisor
  {
  }

  /** Reference sum: channel c over the first x pixels of row y of block (i, j). */
  function RowSum(ps: seq<Pixel>, width: nat, height: nat, i: nat, j: nat, y: nat, x: nat, c: Channel): nat
    requires InGrid(ps, width, height, i, j) && y < BlockHeight && x <= BlockWidth
  {
    if x == 0 then 0
    else RowSum(ps, width, height, i, j, y, x - 1, c) + Get(ps[SourceIndex(width, height, i, j, y, x - 1)], c)
  }

  /** Reference sum: channel c over the first y full rows of block (i, j). */
  function RowsSum(ps: seq<Pixel>, width: nat, height: nat, i: nat, j: nat, y: nat, c: Channel): nat
    requires InGrid(ps, width, height, i, j) && y <= BlockHeight
  {
    if y == 0 then 0
    else RowsSum(ps, width, height, i, j, y - 1, c) + RowSum(ps, width, height, i, j, y - 1, BlockWidth, c)
  }

  /** The exact sum of channel c over the 64 pixels of block (i, j). */
  function BlockSum(ps: seq<Pixel>, width: nat, height: nat, i: nat, j: nat, c: Channel): nat
    requires InGrid(ps, width, height, i, j)
  {
    RowsSum(ps, width, height, i, j, BlockHeight, c)
  }

  /** Reference sum of channel c over the first n pixels of block (i, j), taken row by row. */
  function PartialSum(ps: seq<Pixel>, width: nat, height: nat, i: nat, j: nat, n: nat, c: Channel): nat
    requires InGrid(ps, width, height, i, j) && n <= Divisor
  {
    RowsSum(ps, width, height, i, j, n / BlockWidth, c)
    + (if n % BlockWidth == 0 then 0 else RowSum(ps, width, height, i, j, n / BlockWidth, n % BlockWidth, c))
  }

  /** Adding the n-th pixel of the block extends the partial sum by that pixel's channel. */
  lemma PartialSumStep(ps: seq<Pixel>, width: nat, height: nat, i: nat, j: nat, n: nat, c: Channel)
    requires InGrid(ps, width, height, i, j) && 0 < n <= Divisor
    ensures PartialSum(ps, width, height, i, j, n, c)
         == PartialSum(ps, width, height, i, j, n - 1, c)
            + Get(ps[SourceIndex(width, height, i, j, (n - 1) / BlockWidth, (n - 1) % BlockWidth)], c)
  {
    var y, x := (n - 1) / BlockWidth, (n - 1) % BlockWidth;
    if x == BlockWidth - 1 {
      assert n / BlockWidth == y + 1 && n % BlockWidth == 0;
      assert RowsSum(ps, width, height, i, j, y + 1, c)
          == RowsSum(ps, width, height, i, j, y, c) + RowSum(ps, width, height, i, j, y, BlockWidth, c);
    } else {
      assert n / BlockWidth == y && n % BlockWidth == x + 1;
    }
  }

  /**
   * With byte pixels the unsigned accumulator never wraps: after n additions
   * it holds the exact sum of the first n pixels in row-by-row order.
   */
  lemma {:induction false} AccumIsExactSum(ps: seq<Pixel>, width: nat, height: nat, i: nat, j: nat, n: nat, c: Channel)
    requires InGrid(ps, width, height, i, j) && AllBytes(ps) && n <= Divisor
    ensures Get(BlockAccum(ps, width, height, i, j, n), c) == PartialSum(ps, width, height, i, j, n, c)
    ensures Get(BlockAccum(ps, width, height, i, j, n), c) <= 255 * n
  {
    if n > 0 {
      var prev := BlockAccum(ps, width, height, i, j, n - 1);
      var k := SourceIndex(width, height, i, j, (n - 1) / BlockWidth, (n - 1) % BlockWidth);
      assert BlockAccum(ps, width, height, i, j, n) == AddPixels(prev, ps[k]);
      AccumIsExactSum(ps, width, height, i, j, n - 1, c);
      PartialSumStep(ps, width, height, i, j, n, c);
      assert IsBytePixel(ps[k]);
      assert Get(ps[k], c) <= 255;
      assert Get(prev, c) + Get(ps[k], c) <= 255 * (n - 1) + 255 == 255 * n;
    }
  }

  /** Channel-wise `/= divisor`. */
  function DividePixel(p: Pixel, d: nat): (q: Pixel)
    requires d > 0
    ensures forall c :: Get(q, c) * d <= Get(p, c) < Get(q, c) * d + d
  {
    Pixel(p.r / d, p.g / d, p.b / d, p.a / d)
  }

  /** What the averager stores for block (i, j): the accumulated block divided by 64. */
  function BlockMean(ps: seq<Pixel>, width: nat, height: nat, i: nat, j: nat): (m: Pixel)
    requires InGrid(ps, width, height, i, j)
    ensures AllBytes(ps) ==> IsBytePixel(m)
  {
    var sum := BlockAccum(ps, width, height, i, j, Divisor);
    BoundedIfBytes(ps, width, height, i, j);
    if AllBytes(ps) then MeanOfBoundedIsByte(sum); DividePixel(sum, Divisor)
    else DividePixel(sum, Divisor)
  }

  lemma MeanOfBoundedIsByte(p: Pixel)
    requires forall c :: Get(p, c) <= 255 * Divisor
    ensures IsBytePixel(DividePixel(p, Divisor))
  {
    assert Get(p, R) == p.r && Get(p, G) == p.g && Get(p, B) == p.b && Get(p, A) == p.a;
  }

  lemma BoundedIfBytes(ps: seq<Pixel>, width: nat, height: nat, i: nat, j: nat)
    requires InGrid(ps, width, height, i, j)
    ensures AllBytes(ps) ==> forall c :: Get(BlockAccum(ps, width, height, i, j, Divisor), c) <= 255 * Divisor
  {
    if AllBytes(ps) {
      forall c | true
        ensures Get(BlockAccum(ps, width, height, i, j, Divisor), c) <= 255 * Divisor
      {
        AccumIsExactSum(ps, width, height, i, j, Divisor, c);
      }
    }
  }

  /**
   * Each averaged channel is the truncated mean of the block's 64 source
   * values, and so at most 255.
   */
  lemma BlockMeanIsTruncatedMean(ps: seq<Pixel>, width: nat, height: nat, i: nat, j: nat, c: Channel)
    requires InGrid(ps, width, height, i, j) && AllBytes(ps)
    ensures Get(BlockMean(ps, width, height, i, j), c) == BlockSum(ps, width, height, i, j, c) / Divisor
    ensures Get(BlockMean(ps, width, height, i, j), c) <= 255
  {
    AccumIsExactSum(ps, width, height, i, j, Divisor, c);
    assert PartialSum(ps, width, height, i, j, Divisor, c) == BlockSum(ps, width, height, i, j, c);
    var sum := BlockAccum(ps, width, height, i, j, Divisor);
    assert Get(DividePixel(sum, Divisor), c) == Get(sum, c) / Divisor;
  }

  lemma {:induction false} UniformRowSum(ps: seq<Pixel>, width: nat, height: nat, i: nat, j: nat, y: nat, x: nat, c: Channel, p: Pixel)
    requires InGrid(ps, width, height, i, j) && y < BlockHeight && x <= BlockWidth
    requires forall k :: 0 <= k < |ps| ==> ps[k] == p
    ensures RowSum(ps, width, height, i, j, y, x, c) == x * Get(p, c)
  {
    if x > 0 {
      var g := Get(p, c);
      UniformRowSum(ps, width, height, i, j, y, x - 1, c, p);
      assert ps[SourceIndex(width, height, i, j, y, x - 1)] == p;
      assert (x - 1) * g + g == x * g;
    }
  }

  lemma {:induction false} UniformRowsSum(ps: seq<Pixel>, width: nat, height: nat, i: nat, j: nat, y: nat, c: Channel, p: Pixel)
    requires InGrid(ps, width, height, i, j) && y <= BlockHeight
    requires forall k :: 0 <= k < |ps| ==> ps[k] == p
    ensures RowsSum(ps, width, height, i, j, y, c) == y * (BlockWidth * Get(p, c))
  {
    if y > 0 {
      var g := Get(p, c);
      UniformRowsSum(ps, width, height, i, j, y - 1, c, p);
      UniformRowSum(ps, width, height, i, j, y - 1, BlockWidth, c, p);
      var w := BlockWidth * g;
      assert (y - 1) * w + w == y * w;
    }
  }

  /** A block of identical byte pixels averages to that pixel. */
  lemma UniformBlockMean(ps: seq<Pixel>, width: nat, height: nat, i: nat, j: nat, p: Pixel)
    requires InGrid(ps, width, height, i, j) && IsBytePixel(p)
    requires forall k :: 0 <= k < |ps| ==> ps[k] == p
    ensures BlockMean(ps, width, height, i, j) == p
  {
    var m := BlockMean(ps, width, height, i, j);
    forall c | true
      ensures Get(m, c) == Get(p, c)
    {
      UniformRowsSum(ps, width, height, i, j, BlockHeight, c, p);
      BlockMeanIsTruncatedMean(ps, width, height, i, j, c);
    }
    assert m.r == Get(m, R) && m.g == Get(m, G) && m.b == Get(m, B) && m.a == Get(m, A);
  }

  /** An image narrower than a block has no blocks at all, however tall it is. */
  lemma NarrowImageHasNoBlocks(width: nat, height: nat)
    requires width < BlockWidth
    ensures GridRows(height) * GridCols(width) == 0
  {
  }

  /** The floor(height/8) x floor(width/8) cells fit in the buffer of AveragedSize(width * height). */
  lemma GridFitsBuffer(width: nat, height: nat)
    ensures GridRows(height) * GridCols(width) <= AveragedSize(width * height)
  {
    var rows, cols := GridRows(height), GridCols(width);
    var cells := rows * cols;
    MulMonotone(BlockHeight * rows, height, BlockWidth * cols);
    MulMonotone(BlockWidth * cols, width, height);
    assert Divisor * cells == (BlockHeight * rows) * (BlockWidth * cols);
    assert Divisor * cells <= width * height;
    assert BlockHeight * cells <= (width * height) / BlockWidth;
  }

  /**
   * Lines 119-124 for one block: 64 `addPixels` into the zero cell, in
   * row-major order within the block. Only that cell changes.
   */
  method AccumulateBlock(pixels: array<Pixel>, width: nat, height: nat, i: nat, j: nat, averaged: array<Pixel>, cell: nat)
    requires pixels.Length == width * height && i < GridRows(height) && j < GridCols(width)
    requires averaged != pixels
    requires cell < averaged.Length && averaged[cell] == Black
    modifies averaged
    ensures averaged[..] == old(averaged[..])[cell := BlockAccum(pixels[..], width, height, i, j, Divisor)]
  {
    ghost var ps := pixels[..];
    ghost var start := averaged[..];
    // The number of additions so far.
    ghost var n: nat := 0;
    for y := 0 to BlockHeight
      invariant n == BlockWidth * y && n <= Divisor
      invariant averaged[..] == start[cell := BlockAccum(ps, width, height, i, j, n)]
    {
      for x := 0 to BlockWidth
        invariant n == BlockWidth * y + x && n <= Divisor
        invariant averaged[..] == start[cell := BlockAccum(ps, width, height, i, j, n)]
      {
        BlockAccumStep(ps, width, height, i, j, y, x);
        ghost var before := averaged[..];
        averaged[cell] := AddPixels(averaged[cell], pixels[SourceIndex(width, height, i, j, y, x)]);
        assert averaged[..] == before[cell := averaged[cell]];
        n := n + 1;
      }
      NextRowStart(BlockWidth, y);
    }
  }

  /**
   * Lines 119-130 for one block: the accumulated cell, then each channel
   * divided by 64. Only that cell changes.
   */
  method AverageBlock(pixels: array<Pixel>, width: nat, height: nat, i: nat, j: nat, averaged: array<Pixel>, cell: nat)
    requires pixels.Length == width * height && i < GridRows(height) && j < GridCols(width)
    requires averaged != pixels
    requires cell < averaged.Length && averaged[cell] == Black
    modifies averaged
    ensures averaged[..] == old(averaged[..])[cell := BlockMean(pixels[..], width, height, i, j)]
  {
    AccumulateBlock(pixels, width, height, i, j, averaged, cell);
    var divisor := BlockWidth * BlockHeight;
    ghost var sum := averaged[cell];
    averaged[cell] := averaged[cell].(r := averaged[cell].r / divisor);
    averaged[cell] := averaged[cell].(g := averaged[cell].g / divisor);
    averaged[cell] := averaged[cell].(b := averaged[cell].b / divisor);
    averaged[cell] := averaged[cell].(a := averaged[cell].a / divisor);
    assert averaged[cell] == DividePixel(sum, Divisor);
  }

  /**
   * Progress through block row i: its first n cells hold their block means,
   * every cell from there on is still zero, and the cells of other rows are
   * as in `start`.
   */
  ghost predicate RowProgress(cells: seq<Pixel>, start: seq<Pixel>, ps: seq<Pixel>, width: nat, height: nat, i: nat, n: nat)
    requires |ps| == width * height && i < GridRows(height) && n <= GridCols(width)
  {
    var rows, cols := GridRows(height), GridCols(width);
    && |cells| == |start|
    && rows * cols <= |cells|
    && (forall j :: 0 <= j < n ==> cells[CellIndex(cols, rows, i, j)] == BlockMean(ps, width, height, i, j))
    && (forall k :: i * cols + n <= k < |cells| ==> cells[k] == Black)
    && (forall k :: 0 <= k < |cells| && (k < i * cols || (i + 1) * cols <= k) ==> cells[k] == start[k])
  }

  /** Averaging block (i, n) into its cell advances the row by one block. */
  lemma RowProgressStep(cells: seq<Pixel>, start: seq<Pixel>, ps: seq<Pixel>, width: nat, height: nat, i: nat, n: nat, next: seq<Pixel>)
    requires |ps| == width * height && i < GridRows(height) && n < GridCols(width)
    requires RowProgress(cells, start, ps, width, height, i, n)
    requires next == cells[CellIndex(GridCols(width), GridRows(height), i, n) := BlockMean(ps, width, height, i, n)]
    ensures RowProgress(next, start, ps, width, height, i, n + 1)
  {
    var rows, cols := GridRows(height), GridCols(width);
    NextRowStart(cols, i);
    assert CellIndex(cols, rows, i, n) == i * cols + n;
  }

  /** Lines 117-131 for block row i: every block of the row, left to right. */
  method AverageRow(pixels: array<Pixel>, width: nat, height: nat, i: nat, averaged: array<Pixel>)
    requires pixels.Length == width * height && i < GridRows(height)
    requires averaged != pixels
    requires GridRows(height) * GridCols(width) <= averaged.Length
    requires forall k :: i * GridCols(width) <= k < averaged.Length ==> averaged[k] == Black
    modifies averaged
    ensures RowProgress(averaged[..], old(averaged[..]), pixels[..], width, height, i, GridCols(width))
  {
    var rows, cols := GridRows(height), GridCols(width);
    ghost var ps := pixels[..];
    ghost var start := averaged[..];
    for j := 0 to cols
      invariant RowProgress(averaged[..], start, ps, width, height, i, j)
    {
      var cell := CellIndex(cols, rows, i, j);
      assert averaged[..][cell] == Black;
      ghost var before := averaged[..];
      AverageBlock(pixels, width, height, i, j, averaged, cell);
      RowProgressStep(before, start, ps, width, height, i, j, averaged[..]);
    }
  }

  /**
   * Block rows 0 .. n - 1 are averaged into their cells and every cell from
   * row n on is still zero.
   */
  ghost predicate RowsDone(cells: seq<Pixel>, ps: seq<Pixel>, width: nat, height: nat, n: nat)
    requires |ps| == width * height && n <= GridRows(height)
  {
    var rows, cols := GridRows(height), GridCols(width);
    && rows * cols <= |cells|
    && (forall i, j :: 0 <= i < n && 0 <= j < cols ==> cells[CellIndex(cols, rows, i, j)] == BlockMean(ps, width, height, i, j))
    && (forall k :: n * cols <= k < |cells| ==> cells[k] == Black)
  }

  /** Completing block row i extends the averaged rows by one. */
  lemma RowsDoneStep(cells: seq<Pixel>, next: seq<Pixel>, ps: seq<Pixel>, width: nat, height: nat, i: nat)
    requires |ps| == width * height && i < GridRows(height)
    requires RowsDone(cells, ps, width, height, i)
    requires RowProgress(next, cells, ps, width, height, i, GridCols(width))
    ensures RowsDone(next, ps, width, height, i + 1)
  {
    var rows, cols := GridRows(height), GridCols(width);
    EarlierRows(cols, rows, i);
    NextRowStart(cols, i);
  }

  /** Lines 116-132: every block row in turn, into a zero-filled buffer. */
  method AverageRows(pixels: array<Pixel>, width: nat, height: nat, averaged: array<Pixel>)
    requires pixels.Length == width * height
    requires averaged != pixels
    requires GridRows(height) * GridCols(width) <= averaged.Length
    requires forall k :: 0 <= k < averaged.Length ==> averaged[k] == Black
    modifies averaged
    ensures RowsDone(averaged[..], pixels[..], width, height, GridRows(height))
  {
    var rows := GridRows(height);
    ghost var ps := pixels[..];
    for i := 0 to rows
      invariant RowsDone(averaged[..], ps, width, height, i)
    {
      ghost var before := averaged[..];
      AverageRow(pixels, width, height, i, averaged);
      RowsDoneStep(before, averaged[..], ps, width, height, i);
    }
  }

  /**
   * `getAveragedArray`. The buffer is modelled as zero-filled where the
   * source leaves it uninitialised; cells past the grid are never written.
   * Source indices stay below 2^31, where the source's `(int)` casts are exact.
   */
  method AverageBlocks(pixels: array<Pixel>, size: nat, width: nat, height: nat) returns (averaged: array<Pixel>)
    requires pixels.Length == size == width * height
    requires size < 0x8000_0000
    ensures fresh(averaged) && averaged.Length == AveragedSize(size)
    ensures GridRows(height) * GridCols(width) <= averaged.Length
    ensures forall i, j :: 0 <= i < GridRows(height) && 0 <= j < GridCols(width) ==>
              averaged[CellIndex(GridCols(width), GridRows(height), i, j)] == BlockMean(pixels[..], width, height, i, j)
    ensures forall k :: GridRows(height) * GridCols(width) <= k < averaged.Length ==> averaged[k] == Black
  {
    GridFitsBuffer(width, height);
    averaged := new Pixel[AveragedSize(size)](_ => Black);
    AverageRows(pixels, width, height, averaged);
  }
}
