/** The character tiles the layout is drawn with (Sprite.cs): one 3 x 5 tile per connector
    shape, the frame drawn around a vertex, and the banner shown when no layout is found. */
module Sprites {
  import opened Common
  import opened PathSegments
  import opened Blocks
  import opened BlockBuffers

  /** A tile as rows of characters. */
  type Tile = seq<string>

  const TileRows := 3
  const TileCols := 5

  const EmptyTile: Tile := ["     ", "     ", "     "]
  const HorizontalTile: Tile := ["     ", "─────", "     "]
  const VerticalTile: Tile := ["  │  ", "  │  ", "  │  "]
  const BottomLeftToTopRightTile: Tile := ["    ╱", "  ╱  ", "╱    "]
  const TopLeftToBottomRightTile: Tile := ["╲    ", "  ╲  ", "    ╲"]
  const BottomLeftToRightTile: Tile := ["     ", " ────", "╱    "]
  const TopLeftToRightTile: Tile := ["╲    ", " ────", "     "]
  const LeftToTopRightTile: Tile := ["    ╱", "──── ", "     "]
  const LeftToBottomRightTile: Tile := ["     ", "──── ", "    ╲"]
  const BottomLeftToTopTile: Tile := ["  │  ", " ╱   ", "╱    "]
  const TopLeftToBottomTile: Tile := ["╲    ", " ╲   ", "  │  "]
  const TopToBottomRightTile: Tile := ["  │  ", "   ╲ ", "    ╲"]
  const BottomToTopRightTile: Tile := ["    ╱", "   ╱ ", "  │  "]
  const LeftToTopTile: Tile := ["  │  ", "──┘  ", "     "]
  const LeftToBottomTile: Tile := ["     ", "──┐  ", "  │  "]
  const TopToRightTile: Tile := ["  │  ", "  └──", "     "]
  const BottomToRightTile: Tile := ["     ", "  ┌──", "  │  "]

  /** The frame around a vertex; its centre is replaced by the vertex's ID. */
  const VertexFrame: Tile := ["┏━━━┓", "┃   ┃", "┗━━━┛"]

  /** The "DrX" banner, 6 x 19. */
  const Placeholder: Tile := [
    " _____      __   __",
    "|  __ \\     \\ \\ / /",
    "| |  | | _ __\\ V / ",
    "| |  | || '__|> <  ",
    "| |__| || |  / . \\ ",
    "|_____/ |_| /_/ \\_\\"]

  predicate IsTile(t: Tile, rows: nat, cols: nat) {
    |t| == rows && forall i :: 0 <= i < rows ==> |t[i]| == cols
  }

  /** The character matrix a holds exactly the tile t. */
  ghost predicate Holds(a: array2<char>, t: Tile)
    reads a
  {
    IsTile(t, a.Length0, a.Length1) &&
    forall i, j :: 0 <= i < a.Length0 && 0 <= j < a.Length1 ==> a[i, j] == t[i][j]
  }

  /** The vertex frame with the vertex's ID in its centre. */
  function VertexTile(id: char): Tile {
    [VertexFrame[0], VertexFrame[1][2 := id], VertexFrame[2]]
  }

  /** `PathSegmentToSprite(pathSegment)`: the tile of a named shape; any other code draws as the
      empty tile. */
  function PathSegmentToSprite(pathSegment: PathSegment): (t: Tile) {
    if pathSegment == Empty then EmptyTile
    else if pathSegment == Horizontal then HorizontalTile
    else if pathSegment == Vertical then VerticalTile
    else if pathSegment == BottomLeftToTopRight then BottomLeftToTopRightTile
    else if pathSegment == TopLeftToBottomRight then TopLeftToBottomRightTile
    else if pathSegment == BottomLeftToRight then BottomLeftToRightTile
    else if pathSegment == TopLeftToRight then TopLeftToRightTile
    else if pathSegment == LeftToTopRight then LeftToTopRightTile
    else if pathSegment == LeftToBottomRight then LeftToBottomRightTile
    else if pathSegment == BottomLeftToTop then BottomLeftToTopTile
    else if pathSegment == TopLeftToBottom then TopLeftToBottomTile
    else if pathSegment == TopToBottomRight then TopToBottomRightTile
    else if pathSegment == BottomToTopRight then BottomToTopRightTile
    else if pathSegment == LeftToTop then LeftToTopTile
    else if pathSegment == LeftToBottom then LeftToBottomTile
    else if pathSegment == TopToRight then TopToRightTile
    else if pathSegment == BottomToRight then BottomToRightTile
    else EmptyTile
  }

  predicate OnBorder(r: int, c: int) {
    r == 0 || r == TileRows - 1 || c == 0 || c == TileCols - 1
  }

  /** Where the shape's line meets the tile's border: a left or right nibble k meets row k - 1
      of that column, a top or bottom nibble k meets column 2(k - 1) of that row. */
  predicate IsEndpoint(s: PathSegment, r: int, c: int) {
    (Left(s) != 0 && c == 0 && r == Left(s) as int - 1) ||
    (Right(s) != 0 && c == TileCols - 1 && r == Right(s) as int - 1) ||
    (Top(s) != 0 && r == 0 && c == 2 * (Top(s) as int - 1)) ||
    (Bottom(s) != 0 && r == TileRows - 1 && c == 2 * (Bottom(s) as int - 1))
  }

  /** The tile's border is drawn exactly at the endpoints its code names. */
  predicate TouchesItsSides(t: Tile, s: PathSegment)
    requires IsTile(t, TileRows, TileCols)
  {
    forall r, c :: 0 <= r < TileRows && 0 <= c < TileCols && OnBorder(r, c) ==>
      (t[r][c] != ' ' <==> IsEndpoint(s, r, c))
  }

  /** Every code draws as a 3 x 5 tile; an unnamed code draws as the empty tile. */
  lemma SpriteShape(s: PathSegment)
    ensures IsTile(PathSegmentToSprite(s), TileRows, TileCols)
    ensures !IsNamed(s) ==> PathSegmentToSprite(s) == EmptyTile
  {
  }

  /** The tile of every named shape meets the tile border exactly where the shape's code says
      its line ends, so neighbouring tiles whose codes agree on a shared side join up. */
  lemma SpriteMatchesCode(s: PathSegment)
    requires IsNamed(s)
    ensures IsTile(PathSegmentToSprite(s), TileRows, TileCols)
    ensures TouchesItsSides(PathSegmentToSprite(s), s)
  {
    SpriteShape(s);
    StraightTilesTouch();
    DiagonalTilesTouch();
    HorizontalBendTilesTouch();
    VerticalBendTilesTouch();
    CornerTilesTouch();
    if s == Empty {
      assert PathSegmentToSprite(s) == EmptyTile;
    } else if s == Horizontal {
      assert PathSegmentToSprite(s) == HorizontalTile;
    } else if s == Vertical {
      assert PathSegmentToSprite(s) == VerticalTile;
    } else if s == BottomLeftToTopRight {
      assert PathSegmentToSprite(s) == BottomLeftToTopRightTile;
    } else if s == TopLeftToBottomRight {
      assert PathSegmentToSprite(s) == TopLeftToBottomRightTile;
    } else if s == BottomLeftToRight {
      assert PathSegmentToSprite(s) == BottomLeftToRightTile;
    } else if s == TopLeftToRight {
      assert PathSegmentToSprite(s) == TopLeftToRightTile;
    } else if s == LeftToTopRight {
      assert PathSegmentToSprite(s) == LeftToTopRightTile;
    } else if s == LeftToBottomRight {
      assert PathSegmentToSprite(s) == LeftToBottomRightTile;
    } else if s == BottomLeftToTop {
      assert PathSegmentToSprite(s) == BottomLeftToTopTile;
    } else if s == TopLeftToBottom {
      assert PathSegmentToSprite(s) == TopLeftToBottomTile;
    } else if s == TopToBottomRight {
      assert PathSegmentToSprite(s) == TopToBottomRightTile;
    } else if s == BottomToTopRight {
      assert PathSegmentToSprite(s) == BottomToTopRightTile;
    } else if s == LeftToTop {
      assert PathSegmentToSprite(s) == LeftToTopTile;
    } else if s == LeftToBottom {
      assert PathSegmentToSprite(s) == LeftToBottomTile;
    } else if s == TopToRight {
      assert PathSegmentToSprite(s) == TopToRightTile;
    } else {
      assert s == BottomToRight;
    }
  }

  lemma StraightTilesTouch()
    ensures TouchesItsSides(EmptyTile, Empty)
    ensures TouchesItsSides(HorizontalTile, Horizontal)
    ensures TouchesItsSides(VerticalTile, Vertical)
  {
  }

  lemma DiagonalTilesTouch()
    ensures TouchesItsSides(BottomLeftToTopRightTile, BottomLeftToTopRight)
    ensures TouchesItsSides(TopLeftToBottomRightTile, TopLeftToBottomRight)
  {
  }

  lemma HorizontalBendTilesTouch()
    ensures TouchesItsSides(BottomLeftToRightTile, BottomLeftToRight)
    ensures TouchesItsSides(TopLeftToRightTile, TopLeftToRight)
    ensures TouchesItsSides(LeftToTopRightTile, LeftToTopRight)
    ensures TouchesItsSides(LeftToBottomRightTile, LeftToBottomRight)
  {
  }

  lemma VerticalBendTilesTouch()
    ensures TouchesItsSides(BottomLeftToTopTile, BottomLeftToTop)
    ensures TouchesItsSides(TopLeftToBottomTile, TopLeftToBottom)
    ensures TouchesItsSides(TopToBottomRightTile, TopToBottomRight)
    ensures TouchesItsSides(BottomToTopRightTile, BottomToTopRight)
  {
    LeftVerticalBendTilesTouch();
    RightVerticalBendTilesTouch();
  }

  lemma LeftVerticalBendTilesTouch()
    ensures TouchesItsSides(BottomLeftToTopTile, BottomLeftToTop)
    ensures TouchesItsSides(TopLeftToBottomTile, TopLeftToBottom)
  {
  }

  lemma RightVerticalBendTilesTouch()
    ensures TouchesItsSides(TopToBottomRightTile, TopToBottomRight)
    ensures TouchesItsSides(BottomToTopRightTile, BottomToTopRight)
  {
  }

  lemma CornerTilesTouch()
    ensures TouchesItsSides(LeftToTopTile, LeftToTop)
    ensures TouchesItsSides(LeftToBottomTile, LeftToBottom)
    ensures TouchesItsSides(TopToRightTile, TopToRight)
    ensures TouchesItsSides(BottomToRightTile, BottomToRight)
  {
  }

  /** The vertex tile and the banner have the sizes their users rely on. */
  lemma FixedTileShapes()
    ensures IsTile(VertexFrame, TileRows, TileCols)
    ensures IsTile(Placeholder, 6, 19)
  {
  }

  /** `VertexToSprite(ID)`: a fresh copy of the vertex frame with ID in its centre. */
  method VertexToSprite(id: char) returns (vrtx: array2<char>)
    ensures fresh(vrtx) && vrtx.Length0 == TileRows && vrtx.Length1 == TileCols
    ensures forall i, j :: 0 <= i < TileRows && 0 <= j < TileCols ==>
      vrtx[i, j] == (if i == 1 && j == 2 then id else VertexFrame[i][j])
    ensures Holds(vrtx, VertexTile(id))
  {
    vrtx := new char[TileRows, TileCols];
    var i := 0;
    while i < TileRows
      invariant 0 <= i <= TileRows
      invariant forall k, l :: 0 <= k < i && 0 <= l < TileCols ==> vrtx[k, l] == VertexFrame[k][l]
    {
      var j := 0;
      while j < TileCols
        invariant 0 <= j <= TileCols
        invariant forall k, l :: ((0 <= k < i && 0 <= l < TileCols) || (k == i && 0 <= l < j)) ==>
          vrtx[k, l] == VertexFrame[k][l]
      {
        vrtx[i, j] := VertexFrame[i][j];
        j := j + 1;
      }
      i := i + 1;
    }
    vrtx[1, 2] := id;
  }

  /** `PathSegmentToSprite(pathSegment)` as the renderer receives it: the shape's tile as a
      character matrix. */
  method PathSegmentMatrix(pathSegment: PathSegment) returns (m: array2<char>)
    ensures fresh(m) && m.Length0 == TileRows && m.Length1 == TileCols
    ensures Holds(m, PathSegmentToSprite(pathSegment))
  {
    var t := PathSegmentToSprite(pathSegment);
    SpriteShape(pathSegment);
    m := new char[TileRows, TileCols];
    var i := 0;
    while i < TileRows
      invariant 0 <= i <= TileRows
      invariant forall k, l :: 0 <= k < i && 0 <= l < TileCols ==> m[k, l] == t[k][l]
    {
      var j := 0;
      while j < TileCols
        invariant 0 <= j <= TileCols
        invariant forall k, l :: ((0 <= k < i && 0 <= l < TileCols) || (k == i && 0 <= l < j)) ==>
          m[k, l] == t[k][l]
      {
        m[i, j] := t[i][j];
        j := j + 1;
      }
      i := i + 1;
    }
  }

  /** `GetPlaceholder()`: a buffer of one block the banner's size, holding the banner, white on
      black. */
  method GetPlaceholder() returns (bf: BlockBuffer)
    ensures fresh(bf) && bf.Valid() && bf.BufferSize == Dimension(1, 1) && bf.BlockSize == Dimension(6, 19)
    ensures var b := bf.Blocks[0, 0];
      b.Rows() == 6 && b.Cols() == 19 && b.ForegroundColor == White && b.BackgroundColor == Black &&
      forall i, j :: 0 <= i < 6 && 0 <= j < 19 ==> b.Data[i, j] == Placeholder[i][j]
    ensures Holds(bf.Blocks[0, 0].Data, Placeholder)
  {
    var d := Dimension(|Placeholder|, |Placeholder[0]|);
    bf := new BlockBuffer(Dimension(1, 1), d);
    var block := bf.Blocks[0, 0];
    var data := block.Data;
    var i := 0;
    while i < data.Length0
      invariant 0 <= i <= data.Length0 == 6 && data.Length1 == 19
      invariant forall k, l :: 0 <= k < i && 0 <= l < 19 ==> data[k, l] == Placeholder[k][l]
      modifies data
    {
      var j := 0;
      while j < data.Length1
        invariant 0 <= j <= data.Length1
        invariant forall k, l :: ((0 <= k < i && 0 <= l < 19) || (k == i && 0 <= l < j)) ==>
          data[k, l] == Placeholder[k][l]
        modifies data
      {
        data[i, j] := Placeholder[i][j];
        j := j + 1;
      }
      i := i + 1;
    }
  }
}
