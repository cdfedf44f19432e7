/**
 * The loops of `displayImage`, with the terminal left out: which block is
 * painted, with which colour pair, at which screen cell. A bitmap stores its
 * bottom row first, so block row i is painted at screen row height - i.
 */
module Display {
  import opened Pixels
  import opened Grid
  import opened Palette

  /** One `mvprintw(row, col, " ")` under `attron(COLOR_PAIR(pair))`. */
  datatype Draw = Draw(row: int, col: int, pair: nat)

  /**
   * Position in the plan of the draw for block (i, j): block rows are
   * visited from height - 1 down to 1, each from left to right.
   */
  function PlanPos(width: nat, height: nat, i: nat, j: nat): (k: nat)
    requires 1 <= i < height && j < width
    ensures k < (height - 1) * width
  {
    CellIndexBound(width, height - 1, height - 1 - i, j);
    (height - 1 - i) * width + j
  }

  /** Every block of the grid holds byte channels, as every averaged block does. */
  predicate BlocksAreBytes(cells: array<Pixel>, width: nat, height: nat)
    requires height * width <= cells.Length
    reads cells
  {
    forall i, j :: 0 <= i < height && 0 <= j < width ==> IsBytePixel(cells[CellIndex(width, height, i, j)])
  }

  /** The inner loop of `displayImage`: block row i, painted left to right at screen row height - i. */
  method PaintRow(cells: array<Pixel>, width: nat, height: nat, i: nat) returns (row: seq<Draw>)
    requires height * width <= cells.Length && 1 <= i < height
    requires forall j :: 0 <= j < width ==> FitsShort(cells[CellIndex(width, height, i, j)])
    ensures |row| == width
    ensures forall j :: 0 <= j < width ==> row[j] == Draw(height - i, j, Greyscale(cells[CellIndex(width, height, i, j)]))
  {
    row := [];
    for j := 0 to width
      invariant |row| == j
      invariant forall j' :: 0 <= j' < j ==> row[j'] == Draw(height - i, j', Greyscale(cells[CellIndex(width, height, i, j')]))
    {
      var pair := Greyscale(cells[CellIndex(width, height, i, j)]);
      // `mvprintw(abs(i-height), j, " ")`: the row is height - i.
      row := row + [Draw(height - i, j, pair)];
    }
  }

  /** Every block of the grid can be quantised. */
  predicate AllFitShort(cells: array<Pixel>, width: nat, height: nat)
    requires height * width <= cells.Length
    reads cells
  {
    forall i, j :: 0 <= i < height && 0 <= j < width ==> FitsShort(cells[CellIndex(width, height, i, j)])
  }

  /**
   * The draws of `displayImage` once block rows height - 1 down to i + 1
   * have been painted.
   */
  ghost predicate Painted(cells: array<Pixel>, width: nat, height: nat, i: nat, draws: seq<Draw>)
    requires height * width <= cells.Length && i < height
    requires AllFitShort(cells, width, height)
    reads cells
  {
    && |draws| == (height - 1 - i) * width
    && (forall i', j :: i < i' < height && 0 <= j < width ==>
          PlanPos(width, height, i', j) < |draws| &&
          draws[PlanPos(width, height, i', j)] == Draw(height - i', j, Greyscale(cells[CellIndex(width, height, i', j)])))
    && (forall d :: d in draws ==> 1 <= d.row < height - i && 0 <= d.col < width)
    && (BlocksAreBytes(cells, width, height) ==> forall d :: d in draws ==> d.pair <= PaletteSize)
  }

  /** Appending the draws of block row i extends the painted rows down to i. */
  lemma PaintedStep(cells: array<Pixel>, width: nat, height: nat, i: nat, draws: seq<Draw>, row: seq<Draw>)
    requires height * width <= cells.Length && 1 <= i < height
    requires AllFitShort(cells, width, height)
    requires Painted(cells, width, height, i, draws)
    requires |row| == width
    requires forall j :: 0 <= j < width ==> row[j] == Draw(height - i, j, Greyscale(cells[CellIndex(width, height, i, j)]))
    ensures Painted(cells, width, height, i - 1, draws + row)
  {
    var next := draws + row;
    NextRowStart(width, height - 1 - i);
    assert |next| == (height - 1 - (i - 1)) * width;
    forall i', j | i - 1 < i' < height && 0 <= j < width
      ensures PlanPos(width, height, i', j) < |next|
      ensures next[PlanPos(width, height, i', j)] == Draw(height - i', j, Greyscale(cells[CellIndex(width, height, i', j)]))
    {
      if i' == i {
        assert PlanPos(width, height, i', j) == |draws| + j;
      } else {
        assert next[PlanPos(width, height, i', j)] == draws[PlanPos(width, height, i', j)];
      }
    }
    forall d | d in next
      ensures 1 <= d.row < height - (i - 1) && 0 <= d.col < width
      ensures BlocksAreBytes(cells, width, height) ==> d.pair <= PaletteSize
    {
      if d !in draws {
        var j :| 0 <= j < width && row[j] == d;
        if BlocksAreBytes(cells, width, height) {
          assert IsBytePixel(cells[CellIndex(width, height, i, j)]);
        }
      }
    }
  }

  /**
   * `displayImage` over a grid of `height` x `width` blocks. The outer loop
   * stops at i > 0, so block row 0 is never painted; with fewer than two
   * block rows nothing is painted at all.
   */
  method PaintPlan(cells: array<Pixel>, width: nat, height: nat) returns (draws: seq<Draw>)
    requires height * width <= cells.Length
    requires forall i, j :: 0 <= i < height && 0 <= j < width ==> FitsShort(cells[CellIndex(width, height, i, j)])
    ensures |draws| == if height <= 1 then 0 else (height - 1) * width
    ensures forall i, j :: 1 <= i < height && 0 <= j < width ==>
              draws[PlanPos(width, height, i, j)] == Draw(height - i, j, Greyscale(cells[CellIndex(width, height, i, j)]))
    ensures forall d :: d in draws ==> 1 <= d.row < height && 0 <= d.col < width
    ensures BlocksAreBytes(cells, width, height) ==> forall d :: d in draws ==> d.pair <= PaletteSize
  {
    draws := [];
    // `int i = height-1`: for height == 0 the unsigned difference wraps and converts to -1.
    var i: int := height - 1;
    while i > 0
      invariant height == 0 ==> i == -1 && draws == []
      invariant height > 0 ==> 0 <= i < height
      invariant 0 <= i ==> Painted(cells, width, height, i, draws)
    {
      var row := PaintRow(cells, width, height, i);
      PaintedStep(cells, width, height, i, draws, row);
      draws, i := draws + row, i - 1;
    }
  }
}
