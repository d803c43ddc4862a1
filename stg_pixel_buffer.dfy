/** The pixel buffer of src/simptg/stg-pixel-buffer.c: a character buffer
    read as a grid of square pixels, each pixel being two horizontally
    adjacent character cells drawn in their background colour. Pixel column
    `col` is the pair of cells at columns `col * 2` and `col * 2 + 1`, both
    converted to uint16_t as the accessors' parameters are. */
module StgPixelBuffer {
  import opened IntOps
  import opened RowMajor
  import opened StgBuffer

  /** The character `' '`. */
  const SPACE: CChar := 0x20

  /** The character column of the left half of pixel column `col`: always
      even, and `2 * col` itself when that fits in 16 bits. */
  function LeftColumn(col: UInt16): (c: UInt16)
    ensures c % 2 == 0
    ensures col < TWO_15 ==> c == 2 * col
    ensures col >= TWO_15 ==> c == 2 * (col - TWO_15)
  {
    WrapU16(col * 2)
  }

  /** The character column of the right half of pixel column `col`: always
      the column after the left half, since the left half is even. */
  function RightColumn(col: UInt16): (c: UInt16)
    ensures c == LeftColumn(col) + 1
  {
    WrapU16(col * 2 + 1)
  }

  /** stg_pixel_buffer_create: a character buffer `width * 2` cells wide (the
      product converted to uint16_t) and `height` high, every character a
      space. */
  method Create(width: UInt16, height: UInt16) returns (buffer: SCGBuffer)
    requires WrapU16(width * 2) * height < TWO_31
    ensures fresh(buffer) && fresh(buffer.cells) && buffer.Valid()
    ensures buffer.width == WrapU16(width * 2) && buffer.height == height
    ensures forall i :: 0 <= i < buffer.cells.Length ==> buffer.cells[i].ch == SPACE
  {
    buffer := new SCGBuffer(WrapU16(width * 2), height);
    buffer.FillCh(SPACE);
  }

  /** stg_pixel_buffer_set: the background colour of both cells of the pixel
      changes; nothing else does. */
  method SetPixel(buffer: SCGBuffer, col: UInt16, row: UInt16, color: ColorCode)
    requires buffer.Valid()
    requires buffer.Addressable(LeftColumn(col), row) && buffer.Addressable(RightColumn(col), row)
    modifies buffer.cells
    ensures var i := Index(buffer.width, LeftColumn(col), row);
      buffer.cells[..] == old(buffer.cells[..])[i := old(buffer.cells[i]).(bgColor := color)]
                                               [i + 1 := old(buffer.cells[i + 1]).(bgColor := color)]
    ensures GetPixel(buffer, col, row) == color
  {
    buffer.SetBgColor(LeftColumn(col), row, color);
    buffer.SetBgColor(RightColumn(col), row, color);
  }

  /** stg_pixel_buffer_get: the background colour of the left cell. */
  function GetPixel(buffer: SCGBuffer, col: UInt16, row: UInt16): ColorCode
    reads buffer, buffer.cells
    requires buffer.Valid() && buffer.Addressable(LeftColumn(col), row)
  {
    buffer.GetBgColor(LeftColumn(col), row)
  }

  /** stg_pixel_buffer_fill: every cell's background colour. */
  method Fill(buffer: SCGBuffer, color: ColorCode)
    requires buffer.Valid()
    modifies buffer.cells
    ensures forall i :: 0 <= i < buffer.cells.Length ==> buffer.cells[i] == old(buffer.cells[i]).(bgColor := color)
  {
    buffer.FillBgColor(color);
  }

  /** stg_pixel_buffer_get_width: half the character width, rounded down,
      so that two character cells make one pixel. */
  function GetWidth(buffer: SCGBuffer): (w: UInt16)
    ensures 2 * w <= buffer.width <= 2 * w + 1
  {
    buffer.width / 2
  }

  /** stg_pixel_buffer_get_height as written: half the character height, in
      the same way as the width, although Create does not double the height. */
  function GetHeightAsWritten(buffer: SCGBuffer): (h: UInt16)
    ensures 2 * h <= buffer.height <= 2 * h + 1
  {
    buffer.height / 2
  }

  /** The pixel height: the character height, which Create does not double. */
  function GetHeight(buffer: SCGBuffer): UInt16
  {
    buffer.height
  }

  /** The width and height given to Create are read back by GetWidth and
      GetHeight; a width of 2^15 or more comes back reduced modulo 2^15,
      because `width * 2` is stored in 16 bits. */
  lemma DimensionsRoundTrip(buffer: SCGBuffer, width: UInt16, height: UInt16)
    requires buffer.width == WrapU16(width * 2) && buffer.height == height
    ensures GetWidth(buffer) == width % TWO_15
    ensures width < TWO_15 ==> GetWidth(buffer) == width
    ensures GetHeight(buffer) == height
  {
    if width >= TWO_15 {
      assert width * 2 - TWO_16 == 2 * (width - TWO_15);
    }
  }

  /** As written, the height read back is half the height given to Create:
      a pixel buffer created 4 x 10 reports a height of 5. */
  lemma HeightHalved(buffer: SCGBuffer, width: UInt16, height: UInt16)
    requires buffer.width == WrapU16(width * 2) && buffer.height == height
    ensures GetHeightAsWritten(buffer) == height / 2
    ensures height >= 1 ==> GetHeightAsWritten(buffer) != height
    ensures width == 4 && height == 10 ==> GetHeightAsWritten(buffer) == 5
  {
  }
}
