/** A matrix of blocks, all of one block size (BlockBuffer.cs). */
module BlockBuffers {
  import opened Common
  import opened Blocks

  /** Entry (k, l) comes before entry (i, j) when the rows are filled in order. */
  predicate FilledBefore(k: int, l: int, i: int, j: int, cols: int) {
    (0 <= k < i && 0 <= l < cols) || (k == i && 0 <= l < j)
  }

  class BlockBuffer {
    const BufferSize: Dimension
    const BlockSize: Dimension
    var Blocks: array2<Block?>

    /** The matrix has BufferSize's shape and every entry holds a block. */
    ghost predicate Valid()
      reads this, Blocks
    {
      Blocks.Length0 == BufferSize.Rows && Blocks.Length1 == BufferSize.Cols &&
      forall i, j :: 0 <= i < Blocks.Length0 && 0 <= j < Blocks.Length1 ==> Blocks[i, j] != null
    }

    /** No two entries share a block, so changing one block leaves the others alone. */
    ghost predicate Separate()
      reads this, Blocks
    {
      forall i, j, k, l ::
        (0 <= i < Blocks.Length0 && 0 <= j < Blocks.Length1 && 0 <= k < Blocks.Length0 && 0 <= l < Blocks.Length1 &&
         (i != k || j != l)) ==> Blocks[i, j] != Blocks[k, l]
    }

    /** `new BlockBuffer(bufferSize, blockSize)`: bufferSize.Rows x bufferSize.Cols fresh blocks,
        each blockSize large and blank, White on Black. */
    constructor (bufferSize: Dimension, blockSize: Dimension)
      requires bufferSize.Rows >= 0 && bufferSize.Cols >= 0
      requires blockSize.Rows >= 0 && blockSize.Cols >= 0
      ensures Valid() && Separate() && fresh(Blocks) && BufferSize == bufferSize && BlockSize == blockSize
      ensures forall i, j :: 0 <= i < Blocks.Length0 && 0 <= j < Blocks.Length1 ==>
        var b := Blocks[i, j];
        b != null && fresh(b) && fresh(b.Data) && b.Rows() == blockSize.Rows && b.Cols() == blockSize.Cols &&
        b.ForegroundColor == White && b.BackgroundColor == Black && b.FilledWith(' ')
    {
      var blocks := new Block?[bufferSize.Rows, bufferSize.Cols];
      var i := 0;
      while i < blocks.Length0
        invariant 0 <= i <= blocks.Length0
        invariant forall k, l :: 0 <= k < i && 0 <= l < blocks.Length1 ==>
          var b := blocks[k, l];
          b != null && fresh(b) && fresh(b.Data) && b.Rows() == blockSize.Rows && b.Cols() == blockSize.Cols &&
          b.ForegroundColor == White && b.BackgroundColor == Black && b.FilledWith(' ')
        invariant forall k, l, m, n ::
          (0 <= k < i && 0 <= l < blocks.Length1 && 0 <= m < i && 0 <= n < blocks.Length1 && (k != m || l != n)) ==>
          blocks[k, l] != blocks[m, n]
      {
        var j := 0;
        while j < blocks.Length1
          invariant 0 <= j <= blocks.Length1
          invariant forall k, l :: ((0 <= k < i && 0 <= l < blocks.Length1) || (k == i && 0 <= l < j)) ==>
            var b := blocks[k, l];
            b != null && fresh(b) && fresh(b.Data) && b.Rows() == blockSize.Rows && b.Cols() == blockSize.Cols &&
            b.ForegroundColor == White && b.BackgroundColor == Black && b.FilledWith(' ')
          invariant forall k, l, m, n ::
            (FilledBefore(k, l, i, j, blocks.Length1) && FilledBefore(m, n, i, j, blocks.Length1) && (k != m || l != n)) ==>
            blocks[k, l] != blocks[m, n]
        {
          blocks[i, j] := new Block(blockSize, White, Black);
          j := j + 1;
        }
        i := i + 1;
      }
      BufferSize := bufferSize;
      BlockSize := blockSize;
      Blocks := blocks;
    }

    /** `new BlockBuffer(bf)`: the same sizes, and a fresh copy of every block, each its own
        object, so changing one of the copy's blocks leaves bf's and the copy's other blocks
        alone. */
    constructor Copy(bf: BlockBuffer)
      requires bf.Valid()
      ensures Valid() && Separate() && fresh(Blocks) && BufferSize == bf.BufferSize && BlockSize == bf.BlockSize
      ensures forall i, j :: 0 <= i < Blocks.Length0 && 0 <= j < Blocks.Length1 ==>
        var b, s := Blocks[i, j], bf.Blocks[i, j];
        b != null && s != null && fresh(b) && fresh(b.Data) && b.Rows() == s.Rows() && b.Cols() == s.Cols() &&
        b.ForegroundColor == s.ForegroundColor && b.BackgroundColor == s.BackgroundColor &&
        forall k, l :: 0 <= k < b.Rows() && 0 <= l < b.Cols() ==> b.Data[k, l] == s.Data[k, l]
    {
      var blocks := new Block?[bf.BufferSize.Rows, bf.BufferSize.Cols];
      var row := 0;
      while row < bf.BufferSize.Rows
        invariant 0 <= row <= bf.BufferSize.Rows
        invariant forall i, j :: 0 <= i < row && 0 <= j < blocks.Length1 ==>
          var b, s := blocks[i, j], bf.Blocks[i, j];
          b != null && s != null && fresh(b) && fresh(b.Data) && b.Rows() == s.Rows() && b.Cols() == s.Cols() &&
          b.ForegroundColor == s.ForegroundColor && b.BackgroundColor == s.BackgroundColor &&
          forall k, l :: 0 <= k < b.Rows() && 0 <= l < b.Cols() ==> b.Data[k, l] == s.Data[k, l]
        invariant forall k, l, m, n ::
          (0 <= k < row && 0 <= l < blocks.Length1 && 0 <= m < row && 0 <= n < blocks.Length1 && (k != m || l != n)) ==>
          blocks[k, l] != blocks[m, n]
      {
        CopyRow(bf, blocks, row);
        row := row + 1;
      }
      BufferSize := bf.BufferSize;
      BlockSize := bf.BlockSize;
      Blocks := blocks;
    }
  }

  /** The inner loop of `new BlockBuffer(bf)`: row `row` of blocks gets a fresh copy of each
      of bf's blocks in that row, each its own object; the other rows stay. */
  method CopyRow(bf: BlockBuffer, blocks: array2<Block?>, row: int)
    requires bf.Valid() && blocks != bf.Blocks
    requires blocks.Length0 == bf.Blocks.Length0 && blocks.Length1 == bf.Blocks.Length1 && 0 <= row < blocks.Length0
    modifies blocks
    ensures forall i, j :: 0 <= i < blocks.Length0 && 0 <= j < blocks.Length1 && i != row ==>
      blocks[i, j] == old(blocks[i, j])
    ensures forall j :: 0 <= j < blocks.Length1 ==>
      var b, s := blocks[row, j], bf.Blocks[row, j];
      b != null && s != null && fresh(b) && fresh(b.Data) && b.Rows() == s.Rows() && b.Cols() == s.Cols() &&
      b.ForegroundColor == s.ForegroundColor && b.BackgroundColor == s.BackgroundColor &&
      forall k, l :: 0 <= k < b.Rows() && 0 <= l < b.Cols() ==> b.Data[k, l] == s.Data[k, l]
    ensures forall j, n :: 0 <= j < blocks.Length1 && 0 <= n < blocks.Length1 && j != n ==> blocks[row, j] != blocks[row, n]
  {
    var col := 0;
    while col < blocks.Length1
      invariant 0 <= col <= blocks.Length1
      invariant forall i, j :: 0 <= i < blocks.Length0 && 0 <= j < blocks.Length1 && (i != row || j >= col) ==>
        blocks[i, j] == old(blocks[i, j])
      invariant forall j :: 0 <= j < col ==>
        var b, s := blocks[row, j], bf.Blocks[row, j];
        b != null && s != null && fresh(b) && fresh(b.Data) && b.Rows() == s.Rows() && b.Cols() == s.Cols() &&
        b.ForegroundColor == s.ForegroundColor && b.BackgroundColor == s.BackgroundColor &&
        forall k, l :: 0 <= k < b.Rows() && 0 <= l < b.Cols() ==> b.Data[k, l] == s.Data[k, l]
      invariant forall j, n :: 0 <= j < col && 0 <= n < col && j != n ==> blocks[row, j] != blocks[row, n]
    {
      blocks[row, col] := new Block.Copy(bf.Blocks[row, col]);
      col := col + 1;
    }
  }
}
