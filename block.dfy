/** One block of a block buffer: a character matrix drawn in one foreground and one background
    colour (Block.cs). */
module Blocks {
  import opened Common

  class Block {
    var Data: array2<char>
    var ForegroundColor: Color
    var BackgroundColor: Color

    function Rows(): nat
      reads this
    {
      Data.Length0
    }

    function Cols(): nat
      reads this
    {
      Data.Length1
    }

    /** Every character of the block is c. */
    ghost predicate FilledWith(c: char)
      reads this, Data
    {
      forall i, j :: 0 <= i < Data.Length0 && 0 <= j < Data.Length1 ==> Data[i, j] == c
    }

    /** `new Block(blockSize, fColor, bColor)`: blockSize.Rows x blockSize.Cols spaces in the
        given colours (the C# defaults are White on Black). A negative size makes the C# array
        allocation throw, so the size must not be negative. */
    constructor (blockSize: Dimension, fColor: Color, bColor: Color)
      requires blockSize.Rows >= 0 && blockSize.Cols >= 0
      ensures fresh(Data) && Rows() == blockSize.Rows && Cols() == blockSize.Cols
      ensures ForegroundColor == fColor && BackgroundColor == bColor
      ensures FilledWith(' ')
    {
      Data := new char[blockSize.Rows, blockSize.Cols];
      ForegroundColor := fColor;
      BackgroundColor := bColor;
      new;
      Fill(' ');
    }

    /** `new Block(block)`: the same size, colours and characters, in a fresh matrix. */
    constructor Copy(block: Block)
      ensures fresh(Data) && Rows() == block.Rows() && Cols() == block.Cols()
      ensures ForegroundColor == block.ForegroundColor && BackgroundColor == block.BackgroundColor
      ensures forall i, j :: 0 <= i < Rows() && 0 <= j < Cols() ==> Data[i, j] == block.Data[i, j]
    {
      var data := new char[block.Rows(), block.Cols()];
      var rowLimit := data.Length0;
      var colLimit := data.Length1;
      var row := 0;
      while row < rowLimit
        invariant 0 <= row <= rowLimit
        invariant forall i, j :: 0 <= i < row && 0 <= j < colLimit ==> data[i, j] == block.Data[i, j]
      {
        var col := 0;
        while col < colLimit
          invariant 0 <= col <= colLimit
          invariant forall i, j :: 0 <= i < row && 0 <= j < colLimit ==> data[i, j] == block.Data[i, j]
          invariant forall j :: 0 <= j < col ==> data[row, j] == block.Data[row, j]
        {
          data[row, col] := block.Data[row, col];
          col := col + 1;
        }
        row := row + 1;
      }
      Data := data;
      ForegroundColor := block.ForegroundColor;
      BackgroundColor := block.BackgroundColor;
    }

    /** `Fill(c)`: every character becomes c; the colours stay. */
    method Fill(c: char)
      modifies Data
      ensures FilledWith(c)
      ensures ForegroundColor == old(ForegroundColor) && BackgroundColor == old(BackgroundColor)
    {
      var rowLimit := Rows();
      var colLimit := Cols();
      var row := 0;
      while row < rowLimit
        invariant 0 <= row <= rowLimit
        invariant forall i, j :: 0 <= i < row && 0 <= j < colLimit ==> Data[i, j] == c
      {
        var col := 0;
        while col < colLimit
          invariant 0 <= col <= colLimit
          invariant forall i, j :: 0 <= i < row && 0 <= j < colLimit ==> Data[i, j] == c
          invariant forall j :: 0 <= j < col ==> Data[row, j] == c
        {
          Data[row, col] := c;
          col := col + 1;
        }
        row := row + 1;
      }
    }

    /** The indexer's getter: outside the matrix the C# array access throws. */
    method Get(i: int, j: int) returns (r: Result<char>)
      ensures 0 <= i < Rows() && 0 <= j < Cols() ==> r == Ok(Data[i, j])
      ensures !(0 <= i < Rows() && 0 <= j < Cols()) ==> r == Err(IndexOutOfRange)
    {
      if 0 <= i < Data.Length0 && 0 <= j < Data.Length1 {
        return Ok(Data[i, j]);
      }
      return Err(IndexOutOfRange);
    }

    /** The indexer's setter: changes exactly one character. */
    method Set(i: int, j: int, value: char) returns (r: Outcome)
      modifies Data
      ensures 0 <= i < Rows() && 0 <= j < Cols() ==> r == Done && Data[i, j] == value
      ensures !(0 <= i < Rows() && 0 <= j < Cols()) ==> r == Fail(IndexOutOfRange)
      ensures forall k, l :: 0 <= k < Rows() && 0 <= l < Cols() && (k != i || l != j) ==>
        Data[k, l] == old(Data[k, l])
    {
      if 0 <= i < Data.Length0 && 0 <= j < Data.Length1 {
        Data[i, j] := value;
        return Done;
      }
      return Fail(IndexOutOfRange);
    }
  }
}
