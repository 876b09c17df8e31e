/** What the block buffer shows for a laid-out map (`FillBlockBuffer` and
    `ColoredVrtxToMapColor` in Graph.cs): one 3 x 5 block per map cell; a vertex or path cell
    draws its tile in the colours of the first override for its coordinate, and an Empty cell
    keeps the blank block. */
module Rendering {
  import opened Common
  import opened MapItems
  import opened GridMap
  import opened Vertices
  import opened Blocks
  import opened Sprites

  /** The colours and characters of one block. */
  datatype Look = Look(Foreground: Color, Background: Color, Picture: Tile)

  /** A block as `new BlockBuffer` leaves it: blank, white on black. */
  const BlankLook := Look(White, Black, EmptyTile)

  /** The one block shown when no layout is found. */
  const BannerLook := Look(White, Black, Placeholder)

  /** The block b shows the look. */
  ghost predicate Shows(b: Block, look: Look)
    reads b, b.Data
  {
    b.ForegroundColor == look.Foreground && b.BackgroundColor == look.Background && Holds(b.Data, look.Picture)
  }

  /** The tile a cell draws: a path cell its shape, a vertex its framed ID, an Empty cell
      nothing. */
  function CellTile(item: MapItem): Tile {
    match item.Status
    case PathCell => PathSegmentToSprite(item.Segment)
    case VertexCell => VertexTile(item.ID)
    case EmptyCell => EmptyTile
  }

  /** The block of the cell at `at`: an Empty cell keeps the blank block; a path or vertex cell
      draws its tile in the colours of the first override for `at`, white on black if none. */
  function CellLook(item: MapItem, at: Coordinate, mColor: seq<MapItemColor>): Look {
    if item.Status == EmptyCell then BlankLook
    else match FindMapColorAtCoord(mColor, at)
      case Some(mc) => Look(mc.ForegroundColor, mc.BackgroundColor, CellTile(item))
      case None => Look(White, Black, CellTile(item))
  }

  /** Every cell draws as a 3 x 5 tile, and only path and vertex cells take an override's
      colours. */
  lemma CellLookShape(item: MapItem, at: Coordinate, mColor: seq<MapItemColor>)
    ensures IsTile(CellLook(item, at, mColor).Picture, TileRows, TileCols)
    ensures item.Status == EmptyCell ==> CellLook(item, at, mColor) == BlankLook
    ensures FindMapColorAtCoord(mColor, at).None? ==>
      CellLook(item, at, mColor).Foreground == White && CellLook(item, at, mColor).Background == Black
  {
    SpriteShape(item.Segment);
    FixedTileShapes();
  }

  /** The blocks `new BlockBuffer(..., Dimension(3, 5))` creates show the blank look. */
  lemma BlankBlockShows(b: Block)
    requires b.Rows() == TileRows && b.Cols() == TileCols && b.FilledWith(' ')
    requires b.ForegroundColor == White && b.BackgroundColor == Black
    ensures Shows(b, BlankLook)
  {
    forall i, j | 0 <= i < TileRows && 0 <= j < TileCols ensures b.Data[i, j] == EmptyTile[i][j] {
      assert EmptyTile[i] == "     ";
    }
  }

  /** `ColoredVrtxToMapColor(vrtxColor)`: each vertex colour becomes an override for the first
      cell, row-major, with that ID, or for (-1,-1) when no cell has it. */
  function MapColors(g: Grid, vrtxColor: seq<VertexColor>): (mcs: seq<MapItemColor>)
    ensures |mcs| == |vrtxColor|
    ensures forall i :: 0 <= i < |mcs| ==>
      mcs[i].ForegroundColor == vrtxColor[i].ForegroundColor && mcs[i].BackgroundColor == vrtxColor[i].BackgroundColor
  {
    seq(|vrtxColor|, i requires 0 <= i < |vrtxColor| =>
      MapItemColor(FindWhere(g, HasID(vrtxColor[i].ID), 0), vrtxColor[i].ForegroundColor, vrtxColor[i].BackgroundColor))
  }

  /** An override lands on (-1,-1), and so on no cell, exactly when no cell has its ID. */
  lemma UnknownIDColorsNothing(g: Grid, vrtxColor: seq<VertexColor>, i: int)
    requires 0 <= i < |vrtxColor|
    ensures MapColors(g, vrtxColor)[i].Coordinate == NotFound <==>
      forall r, k :: 0 <= r < |g| && 0 <= k < |g[r]| ==> g[r][k].ID != vrtxColor[i].ID
  {
    FindWhereIsFirst(g, HasID(vrtxColor[i].ID), 0);
  }

  /** For the cell at `at`, the first with its ID, an override is meant for it exactly when the
      override's ID is the cell's. */
  lemma OverrideLandsOnItsVertex(g: Grid, vrtxColor: seq<VertexColor>, at: Coordinate)
    requires Rectangular(g) && InBounds(g, at) && FindWhere(g, HasID(g[at.Y][at.X].ID), 0) == at
    ensures forall i :: 0 <= i < |vrtxColor| ==>
      (MapColors(g, vrtxColor)[i].Coordinate == at <==> vrtxColor[i].ID == g[at.Y][at.X].ID)
  {
    var mcs := MapColors(g, vrtxColor);
    forall i | 0 <= i < |vrtxColor|
      ensures mcs[i].Coordinate == at <==> vrtxColor[i].ID == g[at.Y][at.X].ID
    {
      FindWhereIsFirst(g, HasID(vrtxColor[i].ID), 0);
    }
  }

  /** The block of a cell that is not empty and is the first holding its ID (as every vertex
      cell is): its tile, in the colours of the first vertex colour naming that ID, and white
      on black when none names it. */
  lemma FirstColorWins(g: Grid, vrtxColor: seq<VertexColor>, at: Coordinate)
    requires Rectangular(g) && InBounds(g, at) && g[at.Y][at.X].Status != EmptyCell
    requires FindWhere(g, HasID(g[at.Y][at.X].ID), 0) == at
    ensures var look := CellLook(g[at.Y][at.X], at, MapColors(g, vrtxColor));
      look.Picture == CellTile(g[at.Y][at.X]) &&
      ((forall i :: 0 <= i < |vrtxColor| ==> vrtxColor[i].ID != g[at.Y][at.X].ID) ==>
        look.Foreground == White && look.Background == Black) &&
      (forall i ::
        (0 <= i < |vrtxColor| && vrtxColor[i].ID == g[at.Y][at.X].ID && forall k :: 0 <= k < i ==> vrtxColor[k].ID != g[at.Y][at.X].ID)
        ==> look.Foreground == vrtxColor[i].ForegroundColor && look.Background == vrtxColor[i].BackgroundColor)
  {
    var id := g[at.Y][at.X].ID;
    var mcs := MapColors(g, vrtxColor);
    OverrideLandsOnItsVertex(g, vrtxColor, at);
    var r := FindMapColorAtCoord(mcs, at);
    if r.Some? {
      var j :| 0 <= j < |mcs| && mcs[j] == r.value && r.value.Coordinate == at &&
        forall k :: 0 <= k < j ==> mcs[k].Coordinate != at;
      forall i | 0 <= i < |vrtxColor| && vrtxColor[i].ID == id && (forall k :: 0 <= k < i ==> vrtxColor[k].ID != id)
        ensures i == j
      {
        assert vrtxColor[j].ID == id;
        assert mcs[i].Coordinate == at;
      }
    }
  }

  /** A path or vertex cell that is not the first cell holding its ID takes no override: every
      override lands on the first cell holding its own ID. It draws its tile white on black. */
  lemma LaterCellDrawsPlain(g: Grid, vrtxColor: seq<VertexColor>, at: Coordinate)
    requires Rectangular(g) && InBounds(g, at) && g[at.Y][at.X].Status != EmptyCell
    requires FindWhere(g, HasID(g[at.Y][at.X].ID), 0) != at
    ensures var look := CellLook(g[at.Y][at.X], at, MapColors(g, vrtxColor));
      look.Picture == CellTile(g[at.Y][at.X]) && look.Foreground == White && look.Background == Black
  {
    var mcs := MapColors(g, vrtxColor);
    forall i | 0 <= i < |mcs| ensures mcs[i].Coordinate != at {
      FindWhereIsFirst(g, HasID(vrtxColor[i].ID), 0);
    }
  }

  /** A path cell (which holds no ID) of a map whose top-left cell is an empty one, as on every
      map with a margin, draws its connector white on black whatever the vertex colours say. */
  lemma PathCellDrawsPlain(g: Grid, vrtxColor: seq<VertexColor>, at: Coordinate)
    requires Rectangular(g) && InBounds(g, at) && at != Coordinate(0, 0)
    requires g[0][0] == NewEmpty() && g[at.Y][at.X].Status == PathCell && g[at.Y][at.X].ID == NoID
    ensures var look := CellLook(g[at.Y][at.X], at, MapColors(g, vrtxColor));
      look.Picture == CellTile(g[at.Y][at.X]) && look.Foreground == White && look.Background == Black
  {
    FindWhereIsFirst(g, HasID(NoID), 0);
    LaterCellDrawsPlain(g, vrtxColor, at);
  }
}
