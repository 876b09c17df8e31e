/** The screen as a matrix of coloured characters (ScreenBuffer.cs). */
module ScreenBuffers {
  import opened Common
  import opened Text

  predicate IsDefaultColored(cc: ColoredChar) {
    cc.ForegroundColor == White && cc.BackgroundColor == Black
  }

  class ScreenBuffer {
    var Chars: array2<ColoredChar>

    function Rows(): nat
      reads this
    {
      Chars.Length0
    }

    function Cols(): nat
      reads this
    {
      Chars.Length1
    }

    /** The characters of row i, without colours. */
    ghost function RowText(i: int): (s: string)
      requires 0 <= i < Chars.Length0
      reads this, Chars
      ensures |s| == Chars.Length1
      ensures forall j :: 0 <= j < |s| ==> s[j] == Chars[i, j].Char
    {
      var a := Chars;
      seq(a.Length1, j requires 0 <= j < a.Length1 reads a => a[i, j].Char)
    }

    /** All rows as text, top to bottom. */
    ghost function Text(): (ls: seq<string>)
      reads this, Chars
      ensures |ls| == Chars.Length0
      ensures forall i :: 0 <= i < |ls| ==> ls[i] == RowText(i)
    {
      seq(Chars.Length0, i requires 0 <= i < Chars.Length0 reads this, Chars => RowText(i))
    }

    /** `new ScreenBuffer(size)`: size.Rows x size.Cols white spaces on black. */
    constructor (size: Dimension)
      requires size.Rows >= 0 && size.Cols >= 0
      ensures fresh(Chars) && Rows() == size.Rows && Cols() == size.Cols
      ensures forall i, j :: 0 <= i < Rows() && 0 <= j < Cols() ==> Chars[i, j] == Blank
    {
      Chars := new ColoredChar[size.Rows, size.Cols];
      new;
      Fill(' ', White, Black);
    }

    /** `new ScreenBuffer(screenBuffer)`: a cell-by-cell copy in a fresh matrix. */
    constructor Copy(screenBuffer: ScreenBuffer)
      ensures fresh(Chars) && Rows() == screenBuffer.Rows() && Cols() == screenBuffer.Cols()
      ensures forall i, j :: 0 <= i < Rows() && 0 <= j < Cols() ==> Chars[i, j] == screenBuffer.Chars[i, j]
    {
      var chars := new ColoredChar[screenBuffer.Rows(), screenBuffer.Cols()];
      var rowLim := chars.Length0;
      var colLim := chars.Length1;
      var row := 0;
      while row < rowLim
        invariant 0 <= row <= rowLim
        invariant forall i, j :: 0 <= i < row && 0 <= j < colLim ==> chars[i, j] == screenBuffer.Chars[i, j]
      {
        var col := 0;
        while col < colLim
          invariant 0 <= col <= colLim
          invariant forall i, j :: 0 <= i < row && 0 <= j < colLim ==> chars[i, j] == screenBuffer.Chars[i, j]
          invariant forall j :: 0 <= j < col ==> chars[row, j] == screenBuffer.Chars[row, j]
        {
          chars[row, col] := screenBuffer.Chars[row, col];
          col := col + 1;
        }
        row := row + 1;
      }
      Chars := chars;
    }

    /** The indexer's getter: outside the matrix the C# array access throws. */
    method Get(i: int, j: int) returns (r: Result<ColoredChar>)
      ensures 0 <= i < Rows() && 0 <= j < Cols() ==> r == Ok(Chars[i, j])
      ensures !(0 <= i < Rows() && 0 <= j < Cols()) ==> r == Err(IndexOutOfRange)
    {
      if 0 <= i < Chars.Length0 && 0 <= j < Chars.Length1 {
        return Ok(Chars[i, j]);
      }
      return Err(IndexOutOfRange);
    }

    /** The indexer's setter: changes exactly one cell. */
    method Set(i: int, j: int, value: ColoredChar) returns (r: Outcome)
      modifies Chars
      ensures 0 <= i < Rows() && 0 <= j < Cols() ==> r == Done && Chars[i, j] == value
      ensures !(0 <= i < Rows() && 0 <= j < Cols()) ==> r == Fail(IndexOutOfRange)
      ensures forall k, l :: 0 <= k < Rows() && 0 <= l < Cols() && (k != i || l != j) ==>
        Chars[k, l] == old(Chars[k, l])
    {
      if 0 <= i < Chars.Length0 && 0 <= j < Chars.Length1 {
        Chars[i, j] := value;
        return Done;
      }
      return Fail(IndexOutOfRange);
    }

    /** `Fill(c, fcolor, bcolor)`: every cell becomes exactly (c, fcolor, bcolor). */
    method Fill(c: char, fcolor: Color, bcolor: Color)
      modifies Chars
      ensures forall i, j :: 0 <= i < Rows() && 0 <= j < Cols() ==> Chars[i, j] == ColoredChar(c, fcolor, bcolor)
    {
      var rowLim := Rows();
      var colLim := Cols();
      var row := 0;
      while row < rowLim
        invariant 0 <= row <= rowLim
        invariant forall i, j :: 0 <= i < row && 0 <= j < colLim ==> Chars[i, j] == ColoredChar(c, fcolor, bcolor)
      {
        var col := 0;
        while col < colLim
          invariant 0 <= col <= colLim
          invariant forall i, j :: 0 <= i < row && 0 <= j < colLim ==> Chars[i, j] == ColoredChar(c, fcolor, bcolor)
          invariant forall j :: 0 <= j < col ==> Chars[row, j] == ColoredChar(c, fcolor, bcolor)
        {
          Chars[row, col] := ColoredChar(c, fcolor, bcolor);
          col := col + 1;
        }
        row := row + 1;
      }
    }

    /** `IsColored()`: some cell is not white on black. */
    method IsColored() returns (b: bool)
      ensures b <==> exists i, j :: 0 <= i < Rows() && 0 <= j < Cols() && !IsDefaultColored(Chars[i, j])
    {
      var rowLim := Rows();
      var colLim := Cols();
      var row := 0;
      while row < rowLim
        invariant 0 <= row <= rowLim
        invariant forall i, j :: 0 <= i < row && 0 <= j < colLim ==> IsDefaultColored(Chars[i, j])
      {
        var col := 0;
        while col < colLim
          invariant 0 <= col <= colLim
          invariant forall i, j :: 0 <= i < row && 0 <= j < colLim ==> IsDefaultColored(Chars[i, j])
          invariant forall j :: 0 <= j < col ==> IsDefaultColored(Chars[row, j])
        {
          if Chars[row, col].ForegroundColor != White || Chars[row, col].BackgroundColor != Black {
            return true;
          }
          col := col + 1;
        }
        row := row + 1;
      }
      return false;
    }

    /** `GetAsString()`: the rows' characters joined with '\n', with none after the last row. */
    method GetAsString() returns (ret: string)
      ensures ret == Join(Text())
    {
      ret := "";
      var rowLim := Rows();
      var colLim := Cols();
      var row := 0;
      while row < rowLim
        invariant 0 <= row <= rowLim
        invariant row == 0 ==> ret == ""
        invariant 0 < row ==> ret == Join(Text()[..row]) + (if row < rowLim then [NewLine] else "")
      {
        ghost var before := ret;
        var col := 0;
        while col < colLim
          invariant 0 <= col <= colLim
          invariant ret == before + RowText(row)[..col]
        {
          ret := ret + [Chars[row, col].Char];
          col := col + 1;
        }
        assert RowText(row)[..col] == RowText(row);
        if row > 0 {
          JoinSnoc(Text()[..row], RowText(row));
          assert Text()[..row + 1] == Text()[..row] + [RowText(row)];
        } else {
          assert Text()[..1] == [RowText(0)];
        }
        if row < rowLim - 1 {
          ret := ret + [NewLine];
        }
        row := row + 1;
      }
      assert Text()[..row] == Text();
    }

    /** `GetAsLines()`: a fresh array whose line i is row i's characters. */
    method GetAsLines() returns (ret: array<string>)
      ensures fresh(ret) && ret[..] == Text()
    {
      ret := new string[Rows()];
      var rowLim := Rows();
      var colLim := Cols();
      var row := 0;
      while row < rowLim
        invariant 0 <= row <= rowLim
        invariant forall i :: 0 <= i < row ==> ret[i] == RowText(i)
      {
        var line := "";
        var col := 0;
        while col < colLim
          invariant 0 <= col <= colLim
          invariant line == RowText(row)[..col]
        {
          line := line + [Chars[row, col].Char];
          col := col + 1;
        }
        assert RowText(row)[..col] == RowText(row);
        ret[row] := line;
        row := row + 1;
      }
    }

    /** `Equals(obj)`: another screen buffer of the same size whose every cell matches in
        character and both colours (`obj is ScreenBuffer` fails for null). */
    method Equals(other: ScreenBuffer?) returns (b: bool)
      ensures b <==> (other != null && other.Rows() == Rows() && other.Cols() == Cols() &&
                      forall i, j :: 0 <= i < Rows() && 0 <= j < Cols() ==> Chars[i, j] == other.Chars[i, j])
    {
      if other != null {
        if other.Rows() == Rows() && other.Cols() == Cols() {
          var rowLim := Rows();
          var colLim := Cols();
          var row := 0;
          while row < rowLim
            invariant 0 <= row <= rowLim
            invariant forall i, j :: 0 <= i < row && 0 <= j < colLim ==> Chars[i, j] == other.Chars[i, j]
          {
            var col := 0;
            while col < colLim
              invariant 0 <= col <= colLim
              invariant forall i, j :: 0 <= i < row && 0 <= j < colLim ==> Chars[i, j] == other.Chars[i, j]
              invariant forall j :: 0 <= j < col ==> Chars[row, j] == other.Chars[row, j]
            {
              if Chars[row, col] != other.Chars[row, col] {
                return false;
              }
              col := col + 1;
            }
            row := row + 1;
          }
          return true;
        }
      }
      return false;
    }
  }

  /** The rendered text of a buffer with at least one row is Rows*Cols + Rows - 1 characters
      long, and cutting it at '\n' gives back the rows when no cell holds a '\n'. */
  lemma RenderedText(sb: ScreenBuffer)
    requires sb.Rows() >= 1
    ensures |Join(sb.Text())| == sb.Rows() * sb.Cols() + sb.Rows() - 1
    ensures (forall i, j :: 0 <= i < sb.Rows() && 0 <= j < sb.Cols() ==> sb.Chars[i, j].Char != NewLine) ==>
      Split(Join(sb.Text())) == sb.Text()
  {
    var ls := sb.Text();
    JoinLength(ls);
    TotalLengthUniform(ls, sb.Cols());
    if forall i, j :: 0 <= i < sb.Rows() && 0 <= j < sb.Cols() ==> sb.Chars[i, j].Char != NewLine {
      forall k | 0 <= k < |ls| ensures NoNewLine(ls[k]) {
        assert forall j :: 0 <= j < |ls[k]| ==> ls[k][j] == sb.Chars[k, j].Char;
      }
      SplitJoin(ls);
    }
  }
}
