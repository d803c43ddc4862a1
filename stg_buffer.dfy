/** The character buffer of src/simptg/stg-buffer.c: a width x height grid
    of terminal cells stored row-major, each a character with a foreground
    and a background colour, and the mapping of colour codes to ANSI SGR
    codes. Printing is not modelled. */
module StgBuffer {
  import opened IntOps
  import opened RowMajor

  /** A C `char`. */
  type CChar = c: int | -0x80 <= c < 0x80

  /** enum SCGColorCode. Its enumerators are declared in simptg.h, which is
      not part of this model, so any `int` is allowed. */
  type ColorCode = Int32

  datatype SCGCell = SCGCell(ch: CChar, fgColor: ColorCode, bgColor: ColorCode)

  /** struct SCGBuffer: the dimensions and a flexible array of cells. */
  class SCGBuffer {
    const width: UInt16
    const height: UInt16
    const cells: array<SCGCell>

    predicate Valid()
    {
      cells.Length == width * height
    }

    /** stg_buffer_create: room for width * height cells. The product is
        computed in `int`, so it must not exceed INT_MAX. The cells are not
        initialised. */
    constructor (w: UInt16, h: UInt16)
      requires w * h < TWO_31
      ensures width == w && height == h && Valid() && fresh(cells)
    {
      width, height := w, h;
      cells := new SCGCell[w * h];
    }

    /** The cell index `row * width + col` of the accessors, computed in
        `int`; it has to lie within the cell array. */
    predicate Addressable(col: int, row: int)
    {
      0 <= Index(width, col, row) < cells.Length
    }

    /** stg_buffer_set_ch: the character of one cell changes. */
    method SetCh(col: UInt16, row: UInt16, ch: CChar)
      requires Valid() && Addressable(col, row)
      modifies cells
      ensures cells[..] == old(cells[..])[Index(width, col, row) := old(cells[Index(width, col, row)]).(ch := ch)]
      ensures GetCh(col, row) == ch
      ensures GetFgColor(col, row) == old(GetFgColor(col, row)) && GetBgColor(col, row) == old(GetBgColor(col, row))
    {
      var i := Index(width, col, row);
      cells[i] := cells[i].(ch := ch);
    }

    function GetCh(col: UInt16, row: UInt16): CChar
      reads this, cells
      requires Valid() && Addressable(col, row)
    {
      cells[Index(width, col, row)].ch
    }

    /** stg_buffer_set_fg_color: the foreground colour of one cell changes. */
    method SetFgColor(col: UInt16, row: UInt16, fgColor: ColorCode)
      requires Valid() && Addressable(col, row)
      modifies cells
      ensures cells[..] == old(cells[..])[Index(width, col, row) := old(cells[Index(width, col, row)]).(fgColor := fgColor)]
      ensures GetFgColor(col, row) == fgColor
      ensures GetCh(col, row) == old(GetCh(col, row)) && GetBgColor(col, row) == old(GetBgColor(col, row))
    {
      var i := Index(width, col, row);
      cells[i] := cells[i].(fgColor := fgColor);
    }

    function GetFgColor(col: UInt16, row: UInt16): ColorCode
      reads this, cells
      requires Valid() && Addressable(col, row)
    {
      cells[Index(width, col, row)].fgColor
    }

    /** stg_buffer_set_bg_color: the background colour of one cell changes. */
    method SetBgColor(col: UInt16, row: UInt16, bgColor: ColorCode)
      requires Valid() && Addressable(col, row)
      modifies cells
      ensures cells[..] == old(cells[..])[Index(width, col, row) := old(cells[Index(width, col, row)]).(bgColor := bgColor)]
      ensures GetBgColor(col, row) == bgColor
      ensures GetCh(col, row) == old(GetCh(col, row)) && GetFgColor(col, row) == old(GetFgColor(col, row))
    {
      var i := Index(width, col, row);
      cells[i] := cells[i].(bgColor := bgColor);
    }

    function GetBgColor(col: UInt16, row: UInt16): ColorCode
      reads this, cells
      requires Valid() && Addressable(col, row)
    {
      cells[Index(width, col, row)].bgColor
    }

    /** stg_buffer_fill_ch: row by row, column by column, every cell's
        character becomes `ch`; the colours stay. */
    method FillCh(ch: CChar)
      requires Valid()
      modifies cells
      ensures forall i :: 0 <= i < cells.Length ==> cells[i] == old(cells[i]).(ch := ch)
    {
      var row: UInt16 := 0;
      while row < height
        invariant 0 <= row <= height
        invariant forall i :: 0 <= i < cells.Length ==>
          cells[i] == if i < row * width then old(cells[i]).(ch := ch) else old(cells[i])
      {
        var col: UInt16 := 0;
        while col < width
          invariant 0 <= col <= width
          invariant forall i :: 0 <= i < cells.Length ==>
            cells[i] == if i < row * width + col then old(cells[i]).(ch := ch) else old(cells[i])
        {
          IndexInRange(width, height, col, row);
          SetCh(col, row, ch);
          col := col + 1;
        }
        row := row + 1;
      }
    }

    /** stg_buffer_fill_fg_color: every cell's foreground colour becomes
        `fgColor`; the character and background stay. */
    method FillFgColor(fgColor: ColorCode)
      requires Valid()
      modifies cells
      ensures forall i :: 0 <= i < cells.Length ==> cells[i] == old(cells[i]).(fgColor := fgColor)
    {
      var row: UInt16 := 0;
      while row < height
        invariant 0 <= row <= height
        invariant forall i :: 0 <= i < cells.Length ==>
          cells[i] == if i < row * width then old(cells[i]).(fgColor := fgColor) else old(cells[i])
      {
        var col: UInt16 := 0;
        while col < width
          invariant 0 <= col <= width
          invariant forall i :: 0 <= i < cells.Length ==>
            cells[i] == if i < row * width + col then old(cells[i]).(fgColor := fgColor) else old(cells[i])
        {
          IndexInRange(width, height, col, row);
          SetFgColor(col, row, fgColor);
          col := col + 1;
        }
        row := row + 1;
      }
    }

    /** stg_buffer_fill_bg_color: every cell's background colour becomes
        `bgColor`; the character and foreground stay. */
    method FillBgColor(bgColor: ColorCode)
      requires Valid()
      modifies cells
      ensures forall i :: 0 <= i < cells.Length ==> cells[i] == old(cells[i]).(bgColor := bgColor)
    {
      var row: UInt16 := 0;
      while row < height
        invariant 0 <= row <= height
        invariant forall i :: 0 <= i < cells.Length ==>
          cells[i] == if i < row * width then old(cells[i]).(bgColor := bgColor) else old(cells[i])
      {
        var col: UInt16 := 0;
        while col < width
          invariant 0 <= col <= width
          invariant forall i :: 0 <= i < cells.Length ==>
            cells[i] == if i < row * width + col then old(cells[i]).(bgColor := bgColor) else old(cells[i])
        {
          IndexInRange(width, height, col, row);
          SetBgColor(col, row, bgColor);
          col := col + 1;
        }
        row := row + 1;
      }
    }
  }

  /** Replacing the cell at (col, row) of a snapshot and reading any position
      within bounds back: that position shows the new cell, every other
      position its old one. */
  lemma SetThenGet(width: int, height: int, s: seq<SCGCell>, col: int, row: int,
                    cell: SCGCell, col': int, row': int)
    requires |s| == width * height && InBounds(width, height, col, row) && InBounds(width, height, col', row')
    ensures 0 <= Index(width, col, row) < |s| && 0 <= Index(width, col', row') < |s|
    ensures s[Index(width, col, row) := cell][Index(width, col', row')]
      == if col' == col && row' == row then cell else s[Index(width, col', row')]
  {
    IndexInRange(width, height, col, row);
    IndexInRange(width, height, col', row');
    if Index(width, col, row) == Index(width, col', row') {
      IndexInjective(width, height, col, row, col', row');
    }
  }

  /** stg_color_code_to_ansi_fg: the code plus 39, returned as uint16_t. */
  function AnsiFg(colorCode: ColorCode): (code: UInt16)
    ensures Congruent(code, colorCode + 39, TWO_16)
  {
    WrapU16(colorCode + 39)
  }

  /** stg_color_code_to_ansi_bg: the code plus 49, returned as uint16_t. */
  function AnsiBg(colorCode: ColorCode): (code: UInt16)
    ensures Congruent(code, colorCode + 49, TWO_16)
  {
    WrapU16(colorCode + 49)
  }

  /** For colour codes whose ANSI codes need no wrap-around, the foreground
      code gives back the colour code, and the background code of a colour
      is its foreground code plus 10, as in the SGR numbering (30-39
      foreground, 40-49 background). */
  lemma AnsiOffsets(colorCode: ColorCode)
    requires -39 <= colorCode && colorCode + 49 < TWO_16
    ensures AnsiFg(colorCode) - 39 == colorCode
    ensures AnsiBg(colorCode) == AnsiFg(colorCode) + 10
  {
    CongruentInRange(AnsiFg(colorCode), colorCode + 39, 0, TWO_16);
    CongruentInRange(AnsiBg(colorCode), colorCode + 49, 0, TWO_16);
  }
}
