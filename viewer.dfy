/**
 * The data flow of `main` once the file is open: read the header, decode
 * the pixels, average the blocks and paint the block grid. The grid passed
 * to the painter is floor(height/8) rows by floor(width/8) columns.
 */
module Viewer {
  import opened Pixels
  import opened Grid
  import opened Header
  import opened Decoder
  import opened Averager
  import opened Palette
  import opened Display

  /** The pixel buffer a file describes. */
  function Image(file: seq<Byte>): (ps: seq<Pixel>)
    requires |file| >= HeaderExtent
    requires DataOffset(file) + 4 * Size(file) <= |file|
  {
    DecodeImage(file, DataOffset(file), Size(file))
  }

  /**
   * The colour pair of block (i, j) of the file's image: the pair of its
   * averaged pixel, never above 16.
   */
  function BlockPair(file: seq<Byte>, i: nat, j: nat): (pair: nat)
    requires |file| >= HeaderExtent
    requires DataOffset(file) + 4 * Size(file) <= |file|
    requires i < GridRows(Height(file)) && j < GridCols(Width(file))
    ensures pair <= PaletteSize
  {
    var mean := BlockMean(Image(file), Width(file), Height(file), i, j);
    BytePixelFitsShort(mean);
    Greyscale(mean)
  }

  /**
   * Lines 31-38 of `main`: header fields, decoded pixels, averaged blocks.
   * Each block of the grid holds the averaged pixel of the file's image.
   */
  method DecodeAndAverage(file: seq<Byte>) returns (averaged: array<Pixel>)
    requires |file| >= HeaderExtent
    requires DataOffset(file) + 4 * Size(file) <= |file|
    requires DataOffset(file) + 4 * Size(file) <= 0x8000_0000
    ensures GridRows(Height(file)) * GridCols(Width(file)) <= averaged.Length
    ensures forall i, j :: 0 <= i < GridRows(Height(file)) && 0 <= j < GridCols(Width(file)) ==>
              averaged[CellIndex(GridCols(Width(file)), GridRows(Height(file)), i, j)]
              == BlockMean(Image(file), Width(file), Height(file), i, j)
  {
    var offset := DataOffset(file);
    var width := Width(file);
    var height := Height(file);
    var size := Size(file);
    var pixels := DecodePixels(file, offset, size);
    ghost var image := pixels[..];
    assert image == Image(file);
    averaged := AverageBlocks(pixels, size, width, height);
    assert pixels[..] == image;
  }

  /**
   * `main` from the header reads to the call of `displayImage`. Every block
   * row but the stored-first one is painted, each block with the pair of its
   * averaged pixel, and every pair is at most 16.
   */
  method ViewImage(file: seq<Byte>) returns (draws: seq<Draw>)
    requires |file| >= HeaderExtent
    requires DataOffset(file) + 4 * Size(file) <= |file|
    requires DataOffset(file) + 4 * Size(file) <= 0x8000_0000
    ensures |draws| == if GridRows(Height(file)) <= 1 then 0 else (GridRows(Height(file)) - 1) * GridCols(Width(file))
    ensures forall i, j :: 1 <= i < GridRows(Height(file)) && 0 <= j < GridCols(Width(file)) ==>
              draws[PlanPos(GridCols(Width(file)), GridRows(Height(file)), i, j)]
              == Draw(GridRows(Height(file)) - i, j, BlockPair(file, i, j))
    ensures forall d :: d in draws ==> d.pair <= PaletteSize
  {
    var averaged := DecodeAndAverage(file);
    var rows, cols := GridRows(Height(file)), GridCols(Width(file));
    forall i, j | 0 <= i < rows && 0 <= j < cols
      ensures IsBytePixel(averaged[CellIndex(cols, rows, i, j)])
      ensures FitsShort(averaged[CellIndex(cols, rows, i, j)])
    {
      BytePixelFitsShort(averaged[CellIndex(cols, rows, i, j)]);
    }
    draws := PaintPlan(averaged, cols, rows);
  }

  /**
   * A 16x16 white image averages to a 2x2 grid of white blocks, and each of
   * them takes pair 16, one past the sixteen pairs the painter initialises.
   */
  lemma WhiteImageUsesPairSixteen(i: nat, j: nat)
    requires i < 2 && j < 2
    ensures BlockMean(seq(256, _ => White), 16, 16, i, j) == White
    ensures Greyscale(BlockMean(seq(256, _ => White), 16, 16, i, j)) == PaletteSize
  {
    UniformBlockMean(seq(256, _ => White), 16, 16, i, j, White);
    WhiteAndBlackPairs();
  }

  /** A 16x16 black image averages to black blocks, each taking pair 0. */
  lemma BlackImageUsesPairZero(i: nat, j: nat)
    requires i < 2 && j < 2
    ensures BlockMean(seq(256, _ => Black), 16, 16, i, j) == Black
    ensures Greyscale(BlockMean(seq(256, _ => Black), 16, 16, i, j)) == 0
  {
    UniformBlockMean(seq(256, _ => Black), 16, 16, i, j, Black);
    WhiteAndBlackPairs();
  }

  /**
   * A file laid out as a header that records a 16x16 image whose pixel data
   * starts right after it, followed by 256 white pixels, meets every
   * requirement of `ViewImage`, and block (1, j), the one row painted, takes
   * pair 16.
   */
  lemma WhiteFileIsViewable(header: seq<Byte>, j: nat)
    requires HeaderExtent <= |header| < 0x1_0000 && j < 2
    requires header[OffsetField..OffsetField + 4] == EncodeLittleEndian(|header|, 4)
    requires header[WidthField..WidthField + 2] == EncodeLittleEndian(16, 2)
    requires header[HeightField..HeightField + 2] == EncodeLittleEndian(16, 2)
    ensures var file := header + EncodePixels(seq(256, _ => White));
            && |file| >= HeaderExtent
            && DataOffset(file) + 4 * Size(file) <= |file|
            && DataOffset(file) + 4 * Size(file) <= 0x8000_0000
            && GridRows(Height(file)) == 2 && GridCols(Width(file)) == 2
            && BlockPair(file, 1, j) == PaletteSize
  {
    var ps := seq(256, _ => White);
    var file := header + EncodePixels(ps);
    assert file[..|header|] == header;
    HeaderRoundTrip(file, |header|, 16, 16);
    assert Size(file) == 256;
    DecodeEncodePixels(header, ps, []);
    assert file + [] == file;
    assert Image(file) == ps;
    WhiteImageUsesPairSixteen(1, j);
  }
}
