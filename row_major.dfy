/** Row-major grids as src/maze-gen/maze-gen.c, src/raycast-engine/raycast-engine.c
    and src/simptg/stg-buffer.c all store them: the cell at (col, row) of a
    grid `width` cells wide is element `row * width + col` of one array. */
module RowMajor {
  import opened IntOps

  predicate InBounds(width: int, height: int, col: int, row: int)
  {
    0 <= col && 0 <= row && col < width && row < height
  }

  /** The row-major index `row * width + col`. */
  function Index(width: int, col: int, row: int): int
  {
    row * width + col
  }

  /** Within bounds the index addresses an array of width * height cells. */
  lemma IndexInRange(width: int, height: int, col: int, row: int)
    requires InBounds(width, height, col, row)
    ensures 0 <= Index(width, col, row) < width * height
  {
    assert row * width <= (height - 1) * width;
    assert (height - 1) * width + width == height * width;
  }

  /** Distinct positions within bounds have distinct indices. */
  lemma IndexInjective(width: int, height: int, col: int, row: int, col': int, row': int)
    requires InBounds(width, height, col, row) && InBounds(width, height, col', row')
    requires Index(width, col, row) == Index(width, col', row')
    ensures col == col' && row == row'
  {
    if row < row' {
      assert row' * width == row * width + (row' - row) * width;
      MulAtLeast(row' - row, width);
      assert false;
    } else if row' < row {
      assert row * width == row' * width + (row - row') * width;
      MulAtLeast(row - row', width);
      assert false;
    }
  }

  /** Every index of the cell array is the index of one position. */
  lemma PositionOfIndex(width: int, height: int, i: int)
    requires width > 0 && 0 <= i < width * height
    ensures InBounds(width, height, i % width, i / width) && Index(width, i % width, i / width) == i
  {
    DivBounds(i, width);
    var q := i / width;
    assert (q - height + 1) * width == q * width - height * width + width;
    if q >= height {
      MulAtLeast(q - height + 1, width);
      assert false;
    }
  }
}
