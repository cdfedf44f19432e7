# bmpcurses: a verified model of the image pipeline

bmpcurses is a terminal viewer for 32-bit uncompressed BMP images. It reads
three header fields, decodes four bytes per pixel, averages each 8x8 block of
the image, maps each block's mean brightness to one of 16 grey colour pairs
and paints one terminal cell per block. This project models that pipeline in
Dafny, with the file as a byte sequence and the terminal as a list of draws.

Modules, one per stage of the pipeline:

- `Pixels` (pixels.dfy): bytes, C's `unsigned int` with explicit wrap-around,
  the `Pixel` record and `addPixels`.
- `Grid` (grid.dfy): row-major cell index arithmetic, shared by the averager
  and the painter.
- `Header` (header.dfy): `getDataOffset`, `getWidth`, `getHeight` as
  little-endian reads, with an encoder as their inverse.
- `Decoder` (decoder.dfy): `getDataArray` as a loop filling an array, the
  decoded image as a value, and an encoder as its inverse.
- `Averager` (averager.dfy): `getAveragedArray` as nested loops that
  accumulate into a zero-started array and then divide in place. A
  reference row-by-row sum is proved equal to the accumulator.
- `Palette` (greyscale.dfy): `getGreyscale` and the palette of pairs 0..15.
- `Display` (display.dfy): the loops of `displayImage`, producing
  `(row, col, pair)` draws.
- `Viewer` (viewer.dfy): the data flow of `main` from the header reads to the
  call of `displayImage`.

What the proofs establish:

- The header fields read back as the values a writer encoded.
- `size = width * height` fits 32 bits.
- Decoding yields exactly `size` byte pixels, from the right bytes.
- Every read and write of the averager is in bounds.
- Each averaged channel is the truncated mean of its block's 64 values.
- The quantiser is monotone.
- The painter draws block `i * W + j` at screen cell `(H - i, j)` for block
  rows `H-1` down to `1`.

Behaviour of the code worth knowing:

- **Grid size.** The grid is `floor(height/8)` x `floor(width/8)`: the `ceil`
  at lines 116-117 is applied to quotients that unsigned integer division has
  already truncated, so partial edge blocks are dropped. They are never read
  out of bounds (`Averager.SourceIndex`).
- **Narrow images.** An image less than 8 pixels wide has no blocks at all,
  however tall it is (`Averager.NarrowImageHasNoBlocks`).
- **Pair range.** Line 160 initialises pairs 0..15 only, yet the quantiser
  yields pairs 0..16: a byte pixel whose mean is 253 or more, such as a white
  block, gets pair 16 (`Palette.OutsidePaletteIff`,
  `Viewer.WhiteImageUsesPairSixteen`).
- **Header widths.** Lines 69 and 80 read the width and height as 2 bytes
  each, although the BMP fields are 4 bytes. A negative (top-down) height
  therefore reads as a large positive number.

## Model

| member | source | states |
|---|---|---|
| Pixels.AddU32 | bmpcurses.c:150-153 | unsigned addition is the exact sum below 2^32 and wraps by 2^32 above it |
| Pixels.AddPixels | bmpcurses.c:147-155 | each channel of the result is the wrapped unsigned sum of the two argument channels |
| Pixels.AddPixelsCommutative | bmpcurses.c:147-155 | adding pixels does not depend on argument order |
| Pixels.AddPixelsAssociative | bmpcurses.c:147-155 | the accumulation does not depend on grouping, so the order of the 64 additions does not matter |
| Grid.CellIndex | bmpcurses.c:122 | the cell index `i * cols + j` of a block in the grid lies below rows * cols |
| Grid.CellIndexInjective | bmpcurses.c:116-131 | distinct blocks have distinct cells, so no cell is written for two blocks |
| Header.LittleEndian | bmpcurses.c:58 | the value read from n bytes is below 256^n |
| Header.DecodeEncode | bmpcurses.c:57-58 | reading back a little-endian encoding gives the encoded value |
| Header.EncodeDecode | bmpcurses.c:57-58 | encoding the value read from n bytes gives back those bytes |
| Header.DataOffset | bmpcurses.c:51-61 | the data offset is bytes 0x0A..0x0D read least significant first |
| Header.Width | bmpcurses.c:63-72 | the width is bytes 0x12..0x13 read little-endian, so it is below 2^16 |
| Header.Height | bmpcurses.c:74-83 | the height is bytes 0x16..0x17 read little-endian, so it is below 2^16 |
| Header.HeaderRoundTrip | bmpcurses.c:51-83 | a header written with an offset, width and height reads back as exactly those three values |
| Header.SizeFitsU32 | bmpcurses.c:32-34 | `size = width * height` is below 2^32, so the unsigned multiplication does not wrap |
| Decoder.DecodePixel | bmpcurses.c:91-101 | a decoded pixel takes a, b, g, r from four consecutive bytes, and every channel is a byte |
| Decoder.DecodeImage | bmpcurses.c:85-105 | decoding `size` pixels yields exactly `size` pixels, all with byte channels |
| Decoder.DecodeImageAt | bmpcurses.c:90-102 | pixel i comes from bytes offset+4i .. offset+4i+3 |
| Decoder.EncodePixels | bmpcurses.c:89-101 | a writer's pixel bytes are four per pixel, in a, b, g, r order |
| Decoder.DecodeEncodePixels | bmpcurses.c:85-105 | decoding the pixel data of a file laid out as header, pixels, trailer returns those pixels |
| Decoder.DecodePixels | bmpcurses.c:85-105 | the loop fills a newly allocated array of `size` pixels, each decoded from its own four bytes |
| Averager.AveragedSize | bmpcurses.c:110 | the output buffer has ceil(floor(size/8)/8) cells: the least n with 8n >= floor(size/8) |
| Averager.GridRows | bmpcurses.c:116 | the number of block rows is floor(height/8): only full blocks |
| Averager.GridCols | bmpcurses.c:117 | the number of block columns is floor(width/8): only full blocks |
| Averager.SourceIndex | bmpcurses.c:122 | every source index of a full block lies below width * height |
| Averager.AccumIsExactSum | bmpcurses.c:119-124 | with byte pixels the accumulator never wraps and equals the reference row-by-row sum, at most 255 per addition |
| Averager.DividePixel | bmpcurses.c:127-130 | each channel of the result is the truncated quotient of that channel by the divisor |
| Averager.BlockMean | bmpcurses.c:119-130 | the value stored for a block of byte pixels has byte channels |
| Averager.BlockMeanIsTruncatedMean | bmpcurses.c:114-130 | each averaged channel equals floor(sum of the block's 64 values / 64) and is at most 255 |
| Averager.UniformBlockMean | bmpcurses.c:119-130 | a block of identical byte pixels averages to that pixel |
| Averager.NarrowImageHasNoBlocks | bmpcurses.c:116-117 | an image narrower than 8 pixels has an empty grid |
| Averager.GridFitsBuffer | bmpcurses.c:110-122 | all floor(h/8)*floor(w/8) cells lie inside the buffer of ceil(floor(size/8)/8) cells |
| Averager.AccumulateBlock | bmpcurses.c:119-124 | the cell holds the result of the 64 `addPixels` calls over the block in row-major order, starting from zero; no other cell changes |
| Averager.AverageBlock | bmpcurses.c:119-130 | after the additions and the four divisions the cell holds the block mean and the rest of the buffer is unchanged |
| Averager.AverageRow | bmpcurses.c:117-131 | every cell of block row i holds its block mean, the cells after the row are still zero, and cells of other rows are unchanged |
| Averager.AverageRows | bmpcurses.c:116-132 | every cell of the grid holds the mean of its block and every cell past the grid is still zero |
| Averager.AverageBlocks | bmpcurses.c:107-135 | a newly allocated buffer of ceil(floor(size/8)/8) cells, in which cell i*cols+j holds the mean of block (i, j); cells past the grid stay zero |
| Palette.Brightness | bmpcurses.c:143 | for byte pixels the unsigned `r + g + b` is the exact sum |
| Palette.Mean | bmpcurses.c:143 | for byte pixels `(r + g + b) / 3` is at most 255 |
| Palette.Greyscale | bmpcurses.c:137-145 | the pair is the palette entry whose grey (i*62) is the largest not above the rescaled brightness; at most 16 for byte pixels |
| Palette.BytePixelFitsShort | bmpcurses.c:143 | for byte pixels the rescaled value is at most 1000 and fits `short int` |
| Palette.GreyscaleMonotone | bmpcurses.c:143-144 | a pixel with larger r+g+b never gets a smaller pair |
| Palette.OutsidePaletteIff | bmpcurses.c:143-144 | a byte pixel gets pair 16, beyond the initialised pairs 0..15, exactly when its mean is at least 253 |
| Palette.WhiteAndBlackPairs | bmpcurses.c:143-144 | white gets pair 16 and black gets pair 0 |
| Palette.RoundingCannotMovePair | bmpcurses.c:143 | at the points where mean*1000/255 is whole, one unit of rounding below it gives the same pair |
| Palette.ExactOnlyAtMultiplesOf51 | bmpcurses.c:143 | mean*1000/255 is whole only when the mean is a multiple of 51 |
| Display.PlanPos | bmpcurses.c:166-167 | the draw of block (i, j) comes at position (H-1-i)*W + j, inside the (H-1)*W draws |
| Display.PaintRow | bmpcurses.c:167-170 | block row i yields W draws; draw j is at screen row H-i, column j, with the pair of block i*W+j |
| Display.PaintPlan | bmpcurses.c:157-172 | (H-1)*W draws, none if H <= 1; block (i, j) for i = H-1 down to 1 is drawn at (H-i, j) with the pair of block i*W+j; block row 0 is never drawn; pairs are at most 16 when blocks are bytes |
| Viewer.BlockPair | bmpcurses.c:168 | the pair of any block of a decoded image is at most 16 |
| Viewer.DecodeAndAverage | bmpcurses.c:31-38 | every grid cell of the averaged buffer holds the block mean of the file's decoded image |
| Viewer.ViewImage | bmpcurses.c:31-40 | the whole pipeline draws each block outside row 0 once, at its inverted row, with the pair of its block mean; every pair is at most 16 |
| Viewer.WhiteImageUsesPairSixteen | bmpcurses.c:107-145 | a 16x16 white image averages to white blocks that take pair 16 |
| Viewer.BlackImageUsesPairZero | bmpcurses.c:107-145 | a 16x16 black image averages to black blocks that take pair 0 |
| Viewer.WhiteFileIsViewable | bmpcurses.c:31-40 | a file holding a header for a 16x16 image and 256 white pixels after it meets every requirement of the pipeline, has a 2x2 grid, and its painted blocks take pair 16 |

## Left out

- `main`'s argument handling, `fopen`, the ncurses session (`initscr`, `start_color`, `has_colors`, `refresh`, `getch`, `endwin`) and `pixedError`: terminal I/O and user interface, with no data flow to model.
- The ncurses calls in `displayImage` (`init_color`, `init_pair`, `attron`, `mvprintw`): the model returns the draws they would perform. Palette initialisation survives as the constants `PaletteSize` (16) and `PaletteGrey` (i*62).
- The `size` argument of `displayImage`: the source never uses it, so `PaintPlan` does not take it.
- `fseek`/`fread` as I/O: the file is a byte sequence. The header readers and the decoder require the file to cover the bytes they read. A short read, which the source does not detect, is not modelled.
- Uninitialised memory is modelled as zero, and the source does not guarantee this:
  - the two high bytes of the `unsigned int` that the 2-byte width and height reads fill;
  - the three high bytes of each channel that the 1-byte reads fill;
  - the `malloc`ed averaged buffer, which is accumulated into without being cleared. The decoder's `malloc`ed buffer gets one byte per channel written, so its unwritten high bytes are the previous item; the model starts it at zero.
- Floating point:
  - `ceil` is applied only to values that are already whole, except for the buffer size, which is modelled as the integer ceiling `AveragedSize`.
  - `/ 0.255` is modelled as the exact `* 1000 / 255`. Double rounding could move the truncated value only where the exact quotient is whole, and `RoundingCannotMovePair` shows that the pair is the same there.
- `malloc` failure, and the allocation at line 36 that is leaked when line 37 overwrites it: memory management with no behaviour to model.
- Decoder.DecodePixels: requires `offset + 4 * size` below 2^31, for two reasons. The source's `int` arithmetic `i * 4` overflows once `4 * i` reaches 2^31, which is undefined behaviour. The seek position `index + i * 4` is computed in unsigned 32-bit arithmetic and passed to `fseek` as a `long`; below 2^31 it neither wraps nor changes value, even where `long` has 32 bits.
- Averager.AverageBlocks: requires `size` below 2^31. Beyond that the source's `(int)` casts of source indices do not preserve the value.
- Palette.Greyscale: requires the rescaled value to fit `short int`. Otherwise the conversion from double is undefined. Every byte pixel fits, and so does every averaged block.
- Display.PaintPlan: the row `abs(i - height)` relies on an implementation-defined conversion of the wrapped unsigned difference back to `int`. It is modelled as its usual result, `height - i`.
