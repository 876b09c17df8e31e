/** The graph of the game board and its layout engine (Graph.cs): the vertices read from the
    map file, the map the layout is drawn on, and the block buffer the map is rendered into.
    Each step of the layout is a method proved equal to the function of layout.dfy,
    placement.dfy or wiring.dfy that specifies it. */
module Graphs {
  import opened Common
  import opened Sequences
  import opened Numerals
  import opened PathSegments
  import opened MapItems
  import opened GridMap
  import opened Vertices
  import opened Layout
  import opened Placement
  import opened Routing
  import opened Routes
  import opened Wiring
  import opened Blocks
  import opened BlockBuffers
  import opened Sprites
  import opened Rendering
  import opened Assembly

  class Graph {
    /** The vertices, in map-file order; never changed once parsed. */
    const vertices: seq<Vertex>
    /** The layout grid. */
    const layoutMap: Map

    /** The rendered map, or the banner once the layout has failed or is switched off. */
    var bf: BlockBuffer?
    /** Whether the map is shown; cleared for good when no layout is found. */
    var generateMap: bool

    /** `new Graph(mapLines, generateMap)` once `ParseMap` has given the vertices: the layout
        is generated when asked for, and the banner is shown otherwise. */
    constructor (vs: seq<Vertex>, generate: bool)
      requires Declared(vs) && NoSelfLoops(vs) && |vs| < Int32Max
      ensures vertices == vs && fresh(layoutMap) && layoutMap.Valid()
      ensures bf != null && fresh(bf) && bf.Valid()
      ensures generateMap ==>
        generate && bf.BufferSize == Dimension(layoutMap.Rows(), layoutMap.Cols()) && Laid(vertices) && AllJoined(layoutMap.items) &&
        (NamedIDs(vertices) ==> VertexCount(layoutMap.items) == |vertices|) &&
        forall i, j :: 0 <= i < layoutMap.Rows() && 0 <= j < layoutMap.Cols() ==>
          Shows(bf.Blocks[i, j], CellLook(layoutMap.items[i][j], Coordinate(i, j), []))
      ensures !generateMap ==> bf.BufferSize == Dimension(1, 1) && Shows(bf.Blocks[0, 0], BannerLook)
      ensures generate && !Laid(vertices) ==> !generateMap
    {
      vertices := vs;
      layoutMap := new Map();
      generateMap := generate;
      new;
      if generate {
        GenerateGraphLayout();
      } else {
        FillPlaceholder();
      }
    }

    /** `new Graph(mapLines, generateMap)`: the exception `ParseMap` throws, or the graph. */
    static method FromMapLines(mapLines: seq<string>, generate: bool) returns (r: Result<Graph>)
      requires |mapLines| <= Int32Max
      requires ParsedVertices(mapLines).Ok? ==> NoSelfLoops(ParsedVertices(mapLines).value)
      ensures ParsedVertices(mapLines).Err? ==> r == Err(ParsedVertices(mapLines).error)
      ensures ParsedVertices(mapLines).Ok? ==> r.Ok? && fresh(r.value) && r.value.vertices == ParsedVertices(mapLines).value
    {
      var parsed := ParseMap(mapLines);
      if parsed.Err? {
        return Err(parsed.error);
      }
      ParsedVerticesShape(mapLines);
      var g := new Graph(parsed.value, generate);
      return Ok(g);
    }

    /** `ParseMap(mapLines)`: the vertex list the map file declares, or the exception the
        parser throws. */
    static method ParseMap(mapLines: seq<string>) returns (r: Result<seq<Vertex>>)
      ensures r == ParsedVertices(mapLines)
    {
      if |mapLines| == 0 {
        return Err(IndexOutOfRange);
      }
      var parsed := ParseInt32(mapLines[0]);
      if parsed.Err? {
        return Err(parsed.error);
      }
      var vertexCount := parsed.value;
      var vs: seq<Vertex> := [];
      var i := 1;
      while i <= vertexCount
        invariant 1 <= i <= Count(vertexCount) + 1 && |vs| == i - 1 && (i > 1 ==> i - 1 < |mapLines|)
        invariant forall l :: 1 <= l < i ==> l < |mapLines| && mapLines[l] != [] && vs[l - 1] == Vertex(mapLines[l][0], [])
      {
        if i >= |mapLines| || |mapLines[i]| == 0 {
          ParsedVerticesShortFile(mapLines, vertexCount, i);
          return Err(IndexOutOfRange);
        }
        vs := vs + [Vertex(mapLines[i][0], [])];
        i := i + 1;
      }
      assert forall l :: 0 <= l < Count(vertexCount) ==> mapLines[l + 1] != [] && vs[l].ID == mapLines[l + 1][0] by {
        forall l | 0 <= l < Count(vertexCount) ensures mapLines[l + 1] != [] && vs[l].ID == mapLines[l + 1][0] {
          assert 1 <= l + 1 < i;
        }
      }
      ParsedVerticesWellFormed(mapLines, vertexCount);
      r := ConnectVertices(mapLines, Count(vertexCount), vs);
    }

    /** The second pass of `ParseMap`: line k + 1 gives vertex k its neighbours, each looked up
        among the vertices by ID; InvalidOperation for an ID no vertex has. */
    static method ConnectVertices(mapLines: seq<string>, n: nat, vertexList: seq<Vertex>) returns (r: Result<seq<Vertex>>)
      requires n < |mapLines| && |vertexList| == n
      requires forall l :: 0 <= l < n ==> mapLines[l + 1] != [] && vertexList[l].ID == mapLines[l + 1][0]
      ensures var spec := LinesVertices(mapLines[1..n + 1]);
        r == if Declared(spec) then Ok(spec) else Err(InvalidOperation)
    {
      var vs := vertexList;
      ghost var spec := LinesVertices(mapLines[1..n + 1]);
      forall l | 0 <= l < |vs| ensures vs[l].ID == spec[l].ID {
        assert vertexList[l].ID == mapLines[l + 1][0];
        LinesVerticesAt(mapLines, n, l);
      }
      var k := 0;
      while k < |vs|
        invariant 0 <= k <= |vs| == |spec| == n
        invariant forall l :: 0 <= l < |vs| ==> vs[l].ID == spec[l].ID
        invariant forall l :: 0 <= l < k ==> vs[l] == spec[l]
        invariant forall l, j :: 0 <= l < k && 0 <= j < |spec[l].ConnectedVertexIDs| ==>
          spec[l].ConnectedVertexIDs[j] in IDs(spec)
      {
        var line := mapLines[k + 1];
        assert vertexList[k].ID == line[0];
        LinesVerticesAt(mapLines, n, k);
        SameIDs(vs, spec);
        var conns := NeighbourIDs(vs, line);
        if conns.None? {
          var j :| 1 <= j < |line| && line[j] !in IDs(vs);
          assert line[j] == spec[k].ConnectedVertexIDs[j - 1];
          UndeclaredAt(spec, k, j - 1);
          return Err(InvalidOperation);
        }
        vs := vs[k := Vertex(vs[k].ID, conns.value)];
        k := k + 1;
      }
      assert vs == spec;
      DeclaredByIndex(spec);
      return Ok(vs);
    }

    /** The inner loop of `ParseMap` over one line: each character after the first is looked
        up among the vertices; the IDs found, or none when one of them is missing. */
    static method NeighbourIDs(vs: seq<Vertex>, line: string) returns (r: Option<seq<char>>)
      requires line != []
      ensures r.Some? <==> forall j :: 1 <= j < |line| ==> line[j] in IDs(vs)
      ensures r.Some? ==> r.value == line[1..]
    {
      var conns: seq<char> := [];
      var j := 1;
      while j < |line|
        invariant 1 <= j <= |line| && conns == line[1..j]
        invariant forall l :: 1 <= l < j ==> line[l] in IDs(vs)
      {
        SliceSnoc(line, 1, j);
        var connected := FindVertexInList(vs, line[j]);
        if connected.None? {
          return None;
        }
        conns := conns + [connected.value.ID];
        j := j + 1;
      }
      return Some(conns);
    }

    /** `VerticesWithLeastConnections(vertexList)`: the vertices of least degree, in order. */
    static method VerticesWithLeastConnections(vertexList: seq<Vertex>) returns (r: seq<Vertex>)
      ensures r == LeastConnected(vertexList)
    {
      r := [];
      var minCount := Int32Max;
      var i := 0;
      while i < |vertexList|
        invariant 0 <= i <= |vertexList|
        invariant r == LeastConnected(vertexList[..i])
        invariant i > 0 ==> r != [] && minCount == MinDegree(vertexList[..i])
      {
        var v := vertexList[i];
        var connCount := |v.ConnectedVertexIDs|;
        LeastConnectedStep(vertexList, i, r, minCount);
        if |r| == 0 {
          r := [v];
          minCount := connCount;
        } else if minCount > connCount {
          r := [v];
          minCount := connCount;
        } else if minCount == connCount {
          r := r + [v];
        }
        i := i + 1;
      }
      assert vertexList[..i] == vertexList;
    }

    /** `DFS(start, ref longestPath, discovered, path)`: the recursive search; the path and
        the discovered list are restored before it returns, so they are passed as values. */
    method DFS(start: Vertex, longestPath: seq<Vertex>, discovered: seq<Vertex>, path: seq<Vertex>) returns (longest: seq<Vertex>)
      requires Declared(vertices) && start in vertices
      ensures longest == DfsFrom(vertices, start, longestPath, discovered, path)
      decreases IDSet(vertices) - IDSet(discovered) - {start.ID}, if start.ID in IDs(discovered) then 0 else 1
    {
      longest := longestPath;
      var p := path;
      if |discovered| == 0 {
        p := p + [start];
      }
      var ns := start.ConnectedVertexIDs;
      var i := 0;
      while i < |ns|
        invariant 0 <= i <= |ns|
        invariant DfsLoop(vertices, start, ns[i..], longest, discovered, p) == DfsFrom(vertices, start, longestPath, discovered, path)
      {
        assert ns[i..][0] == ns[i] && ns[i..][1..] == ns[i + 1..];
        if FindVertexInList(discovered, ns[i]).None? {
          var connected := FindVertexInList(vertices, ns[i]).value;
          var newPath := p + [connected];
          var d := discovered + [start];
          IDSetSnoc(discovered, start);
          IDSetSnoc(d, connected);
          assert IDs(d) == IDs(discovered) + [start.ID];
          longest := DFS(connected, longest, d, newPath);
          if |newPath| > |longest| {
            longest := newPath;
          }
        }
        i := i + 1;
      }
    }

    /** `SearchLongestPath()`: the first longest path the searches from the least-connected
        vertices keep. */
    method SearchLongestPath() returns (path: seq<Vertex>)
      requires Declared(vertices)
      ensures path == LongestPath(vertices)
    {
      path := [];
      var roots := VerticesWithLeastConnections(vertices);
      LeastConnectedExact(vertices);
      ghost var candidates := Searches(vertices, roots);
      var i := 0;
      while i < |roots|
        invariant 0 <= i <= |roots|
        invariant FirstLongest(path, candidates[i..]) == FirstLongest([], candidates)
      {
        assert candidates[i..][0] == candidates[i] && candidates[i..][1..] == candidates[i + 1..];
        var longestPath := DFS(roots[i], [], [], []);
        if |path| < |longestPath| {
          path := longestPath;
        }
        i := i + 1;
      }
    }

    /** `AddTheHorizontalVertices(longestPath)` on the empty map: one row holding the path's
        vertices at even columns, joined by horizontal path cells. */
    method AddTheHorizontalVertices(longestPath: seq<Vertex>)
      requires layoutMap.Valid() && layoutMap.items == []
      modifies layoutMap
      ensures layoutMap.Valid()
      ensures layoutMap.items == if longestPath == [] then [] else [BackboneRow(longestPath)]
    {
      var i := 0;
      while i < |longestPath|
        invariant 0 <= i <= |longestPath| && layoutMap.Valid()
        invariant layoutMap.items == if i == 0 then [] else [BackboneRow(longestPath[..i])]
      {
        ghost var done := longestPath[..i];
        PrefixSnoc(longestPath, i);
        if i == 0 {
          PlaceFirstVertex(longestPath[0]);
          assert done + [longestPath[0]] == [longestPath[0]];
        } else {
          assert done[|done| - 1] == longestPath[i - 1];
          PlaceNextVertex(BackboneRow(done), longestPath[i - 1].ID, longestPath[i]);
          BackboneRowPush(done, longestPath[i]);
        }
        i := i + 1;
      }
      assert longestPath[..i] == longestPath;
    }

    /** The first pass of the loop in `AddTheHorizontalVertices`: a row is added and the first
        vertex, missing all its neighbours, goes into its only cell. */
    method PlaceFirstVertex(vertex: Vertex)
      requires layoutMap.Valid() && layoutMap.items == []
      modifies layoutMap
      ensures layoutMap.Valid() && layoutMap.items == [BackboneRow([vertex])]
    {
      layoutMap.AddRowBottom();
      FirstRow();
      assert layoutMap.items == [[]];
      var v := NewVertex(vertex.ID, vertex.ConnectedVertexIDs, vertex.ConnectedVertexIDs);
      layoutMap.AddColRight();
      OneRowColRight([]);
      assert [] + [NewEmpty()] == [NewEmpty()];
      assert layoutMap.items == [[NewEmpty()]];
      layoutMap.Set(Coordinate(0, 0), v);
      UpdateSingleton(NewEmpty(), v);
      UpdateSingleton([NewEmpty()], [v]);
      BackboneVertexCell([vertex], 0);
      assert BackboneRow([vertex]) == [v];
    }

    /** A later pass of the loop in `AddTheHorizontalVertices`: a horizontal path cell and the
        vertex are appended, and the two vertices drop each other from their missing lists. */
    method PlaceNextVertex(ghost row: seq<MapItem>, prevID: char, vertex: Vertex)
      requires row != [] && layoutMap.Valid() && layoutMap.items == [row]
      modifies layoutMap
      ensures layoutMap.Valid() && layoutMap.items == [Appended(row, vertex, prevID)]
    {
      var col := layoutMap.Cols();
      AppendCell(row, NewPath(Horizontal));
      var missingConns := RemovedFirst(vertex.ConnectedVertexIDs, prevID);
      RemoveMissing(row + [NewPath(Horizontal)], col - 1, vertex.ID);
      ghost var row3 := (row + [NewPath(Horizontal)])[col - 1 := row[col - 1].(MissingConnections := RemovedFirst(row[col - 1].MissingConnections, vertex.ID))];
      AppendCell(row3, NewVertex(vertex.ID, vertex.ConnectedVertexIDs, missingConns));
      AppendedSteps(row, vertex, prevID);
    }

    /** `layoutMap[0, col].MissingConnections.Remove(id)` on the one-row map. */
    method RemoveMissing(ghost row: seq<MapItem>, col: nat, id: char)
      requires layoutMap.Valid() && layoutMap.items == [row] && col < |row|
      modifies layoutMap
      ensures layoutMap.Valid()
      ensures layoutMap.items == [row[col := row[col].(MissingConnections := RemovedFirst(row[col].MissingConnections, id))]]
    {
      var cell := layoutMap.At(Coordinate(0, col));
      layoutMap.Set(Coordinate(0, col), cell.(MissingConnections := RemovedFirst(cell.MissingConnections, id)));
    }

    /** `AddColRight()` and then `Set` on the new last column of the one-row map. */
    method AppendCell(ghost row: seq<MapItem>, item: MapItem)
      requires layoutMap.Valid() && layoutMap.items == [row]
      modifies layoutMap
      ensures layoutMap.Valid() && layoutMap.items == [row + [item]]
    {
      layoutMap.AddColRight();
      OneRowColRight(row);
      var last := layoutMap.Cols() - 1;
      assert last == |row|;
      layoutMap.Set(Coordinate(0, last), item);
      UpdateAppended(row, NewEmpty(), item);
      UpdateSingleton(row + [NewEmpty()], row + [item]);
    }

    /** `GenerateMissedVertices(longestPath)`: the vertices left once each path vertex is
        removed by ID. */
    method GenerateMissedVertices(longestPath: seq<Vertex>) returns (missedOut: seq<Vertex>)
      ensures missedOut == MissedVertices(vertices, longestPath)
    {
      missedOut := vertices;
      var i := 0;
      while i < |longestPath|
        invariant 0 <= i <= |longestPath|
        invariant MissedVertices(missedOut, longestPath[i..]) == MissedVertices(vertices, longestPath)
      {
        assert longestPath[i..][0] == longestPath[i] && longestPath[i..][1..] == longestPath[i + 1..];
        missedOut := RemovedFirstID(missedOut, longestPath[i]);
        i := i + 1;
      }
    }

    /** `MakeTheMapSquare()`: rows or columns added, half on each side, until the map is
        square or one short of it (see `SquaredIsNearlySquare`). */
    method MakeTheMapSquare()
      requires layoutMap.Valid()
      modifies layoutMap
      ensures layoutMap.Valid() && layoutMap.items == Squared(old(layoutMap.items))
    {
      var neededRows := layoutMap.Cols() - layoutMap.Rows();
      var neededCols := layoutMap.Rows() - layoutMap.Cols();
      if neededRows > 0 {
        layoutMap.AddRowsTop(neededRows / 2);
        layoutMap.AddRowsBottom(neededRows / 2);
      } else if neededCols > 0 {
        layoutMap.AddColsLeft(neededCols / 2);
        layoutMap.AddColsRight(neededCols / 2);
      }
    }

    /** `FindEmptySpace(coord)`: the first in-bounds Empty cell among the eight probes around
        coord, or (-1,-1). */
    method FindEmptySpace(coord: Coordinate) returns (c: Coordinate)
      requires layoutMap.Valid()
      ensures c == EmptySpaceNear(layoutMap.items, coord)
    {
      var offsets := Probes;
      var i := 0;
      while i < |offsets|
        invariant 0 <= i <= |offsets|
        invariant EmptySpaceFrom(layoutMap.items, coord, i) == EmptySpaceNear(layoutMap.items, coord)
      {
        c := offsets[i].Plus(coord);
        if layoutMap.HasCoordinate(c) {
          if layoutMap.At(c).Status == EmptyCell {
            return;
          }
        }
        i := i + 1;
      }
      return NotFound;
    }

    /** The inner `while` of `AddMissedVertices` over one vertex's neighbour IDs: where the
        vertex is aimed, or None when no neighbour is on the map yet. The branches for a
        negative `verticalOffset` are dead and left out. */
    method NeighbourAnchor(connVertices: seq<char>) returns (anchor: Option<Coordinate>)
      requires layoutMap.Valid()
      ensures anchor == Anchor(layoutMap.items, connVertices)
    {
      var xSum := 0;
      var yEdge := 0;
      var onMapCount := 0;
      var leastOneOnMap := false;
      ghost var found: seq<Coordinate> := [];
      var i := 0;
      while i < |connVertices|
        invariant 0 <= i <= |connVertices|
        invariant found == OnMap(layoutMap.items, connVertices[..i])
        invariant xSum == SumX(found) && yEdge == EdgeY(found) && onMapCount == |found|
        invariant leastOneOnMap == (found != [])
      {
        var tmp := layoutMap.CoordOf(connVertices[i]);
        OnMapStep(layoutMap.items, connVertices, i);
        if tmp.X != -1 {
          leastOneOnMap := true;
          onMapCount := onMapCount + 1;
          xSum := xSum + tmp.X;
          if yEdge < tmp.Y {
            yEdge := tmp.Y;
          }
          found := found + [tmp];
        }
        i := i + 1;
      }
      assert connVertices[..i] == connVertices;
      if leastOneOnMap {
        anchor := Some(Coordinate(yEdge + VerticalOffset, xSum / onMapCount));
      } else {
        anchor := None;
      }
    }

    /** The body of `if (leastOneOnMap)` in `AddMissedVertices`: rows are added until the
        anchor is on the map; if its cell is taken, room is made around the neighbours' edge
        row and the first free probe is taken instead. False when no probe is free. */
    method PlaceMissedVertex(vertex: Vertex, anchor: Coordinate) returns (ok: bool)
      requires layoutMap.Valid() && 0 <= anchor.X < layoutMap.Cols() && anchor.Y >= VerticalOffset
      modifies layoutMap
      ensures layoutMap.Valid()
      ensures Placed(layoutMap.items, ok) == PlaceAt(old(layoutMap.items), vertex, anchor)
    {
      var pos := FindTarget(anchor);
      if pos.X == -1 {
        return false;
      }
      var cell := layoutMap.At(pos);
      layoutMap.Set(pos, cell.(Status := VertexCell, ID := vertex.ID,
        MissingConnections := vertex.ConnectedVertexIDs, Connections := vertex.ConnectedVertexIDs));
      return true;
    }

    /** The part of `PlaceMissedVertex` before the write: the grown map and the cell to
        write, or (-1,-1). */
    method FindTarget(anchor: Coordinate) returns (pos: Coordinate)
      requires layoutMap.Valid() && 0 <= anchor.X < layoutMap.Cols() && anchor.Y >= VerticalOffset
      modifies layoutMap
      ensures layoutMap.Valid()
      ensures Spot(layoutMap.items, pos) == Target(old(layoutMap.items), anchor)
    {
      ghost var g := layoutMap.items;
      GrowBelow(anchor);
      pos := anchor;
      if layoutMap.At(pos).Status != EmptyCell {
        TargetMoved(g, anchor);
        pos := Relocate(Coordinate(pos.Y - VerticalOffset, pos.X));
      } else {
        TargetKept(g, anchor);
      }
    }

    /** The anchor's cell is taken: room is made around the cell `VerticalOffset` rows above
        it and the first free probe near it is chosen. */
    method Relocate(start: Coordinate) returns (pos: Coordinate)
      requires layoutMap.Valid()
      modifies layoutMap
      ensures layoutMap.Valid()
      ensures Spot(layoutMap.items, pos) == Relocated(old(layoutMap.items), start)
    {
      pos := MakeRoomAround(start);
      pos := FindEmptySpace(pos);
    }

    /** The `while (!layoutMap.HasCoordinate(pos))` loop: two rows at the bottom until the
        anchor is on the map. */
    method GrowBelow(anchor: Coordinate)
      requires layoutMap.Valid() && 0 <= anchor.X < layoutMap.Cols() && anchor.Y >= 0
      modifies layoutMap
      ensures layoutMap.Valid() && layoutMap.items == RowsBelow(old(layoutMap.items), anchor)
    {
      while !layoutMap.HasCoordinate(anchor)
        invariant layoutMap.Valid() && 0 <= anchor.X < layoutMap.Cols()
        invariant RowsBelow(layoutMap.items, anchor) == RowsBelow(old(layoutMap.items), anchor)
        decreases anchor.Y - layoutMap.Rows()
      {
        BottomGrowth(layoutMap.items, 2);
        layoutMap.AddRowsBottom(2);
      }
    }

    /** The four checks before `FindEmptySpace`: rows or columns added where a probe two
        cells away would be off the map; the position follows its cell. */
    method MakeRoomAround(start: Coordinate) returns (pos: Coordinate)
      requires layoutMap.Valid()
      modifies layoutMap
      ensures layoutMap.Valid()
      ensures Spot(layoutMap.items, pos) == MakeRoom(old(layoutMap.items), start)
    {
      pos := start;
      ghost var g := layoutMap.items;
      RoomSteps(g, pos);
      var checkPos := pos.Plus(Coordinate(2, 0));
      if !layoutMap.HasCoordinate(checkPos) {
        layoutMap.AddRowsBottom(2);
      }
      ghost var s1 := RoomBelow(g, start);
      assert layoutMap.items == s1.grid && pos == s1.pos;
      RoomSteps(s1.grid, s1.pos);
      checkPos := pos.Plus(Coordinate(-2, 0));
      if !layoutMap.HasCoordinate(checkPos) {
        layoutMap.AddRowsTop(2);
        pos := pos.Plus(Coordinate(2, 0));
      }
      ghost var s2 := RoomAbove(s1.grid, s1.pos);
      assert layoutMap.items == s2.grid && pos == s2.pos;
      RoomSteps(s2.grid, s2.pos);
      checkPos := pos.Plus(Coordinate(0, 2));
      if !layoutMap.HasCoordinate(checkPos) {
        layoutMap.AddColsRight(2);
      }
      ghost var s3 := RoomRight(s2.grid, s2.pos);
      assert layoutMap.items == s3.grid && pos == s3.pos;
      RoomSteps(s3.grid, s3.pos);
      checkPos := pos.Plus(Coordinate(0, -2));
      if !layoutMap.HasCoordinate(checkPos) {
        layoutMap.AddColsLeft(2);
        pos := pos.Plus(Coordinate(0, 2));
      }
    }

    /** `AddMissedVertices(missedVertices)`: rounds over the missed vertices, each placing
        those with a neighbour already on the map, until none is left or a round places
        nothing; true iff none is left. */
    method AddMissedVertices(missedVertices: seq<Vertex>) returns (ok: bool)
      requires layoutMap.Valid() && |missedVertices| < Int32Max
      modifies layoutMap
      ensures layoutMap.Valid()
      ensures var r := Rounds(old(layoutMap.items), missedVertices);
        layoutMap.items == r.grid && ok == (r.left == [])
    {
      var missed := missedVertices;
      var lastLen := Int32Max;
      while |missed| > 0 && |missed| < lastLen
        invariant layoutMap.Valid() && |missed| <= lastLen
        invariant Rounds(old(layoutMap.items), missedVertices) ==
          if |missed| < lastLen then Rounds(layoutMap.items, missed) else Progress(layoutMap.items, missed, false)
        decreases |missed|, lastLen - |missed|
      {
        lastLen := |missed|;
        ghost var before := layoutMap.items;
        ghost var round := missed;
        var failed;
        missed, failed := MissedRound(missed);
        if failed {
          FailedLeavesSome(before, round, []);
          return false;
        }
      }
      return |missed| == 0;
    }

    /** One pass of the `for` loop of `AddMissedVertices` over the vertices still missed:
        each placed one is unlinked (`RemoveByNode`), and a failed placement ends the pass. */
    method MissedRound(round: seq<Vertex>) returns (missed: seq<Vertex>, failed: bool)
      requires layoutMap.Valid()
      modifies layoutMap
      ensures layoutMap.Valid()
      ensures Progress(layoutMap.items, missed, failed) == Round(old(layoutMap.items), round, [])
    {
      missed := round;
      var kept: seq<Vertex> := [];
      var j := 0;
      while j < |round|
        invariant 0 <= j <= |round| && layoutMap.Valid()
        invariant Round(layoutMap.items, round[j..], kept) == Round(old(layoutMap.items), round, [])
        invariant missed == kept + round[j..]
      {
        var vertex := round[j];
        assert round[j..][0] == vertex && round[j..][1..] == round[j + 1..];
        var anchor := NeighbourAnchor(vertex.ConnectedVertexIDs);
        if anchor.Some? {
          RoundPlaces(layoutMap.items, round[j..], kept);
          var placed := PlaceMissedVertex(vertex, anchor.value);
          if !placed {
            return missed, true;
          }
          missed := kept + round[j + 1..];
        } else {
          RoundKeeps(layoutMap.items, round[j..], kept);
          UnlinkAfter(kept, round[j..]);
          kept := kept + [vertex];
        }
        j := j + 1;
      }
      return missed, false;
    }

    /** One pass of the loop in `ProcessMissingConnections`: the start cell at `at` is routed
        to the first cell holding the ID of its p-th missing entry, under the ceiling. The
        route is accepted only when Dijkstra reached that cell within the ceiling; it is then
        drawn, and the pair is taken off both missing lists. */
    method Connect(at: Coordinate, p: nat, costLimit: int)
      returns (joined: bool, ghost route: seq<Coordinate>, ghost table: seq<DijkstraInfo>)
      requires layoutMap.Valid() && InBounds(layoutMap.items, at) && NoSelfMissing(layoutMap.items)
      requires p < |layoutMap.items[at.Y][at.X].MissingConnections| && 0 <= costLimit < Blocked
      modifies layoutMap
      ensures layoutMap.Valid() && Wired(old(layoutMap.items), layoutMap.items)
      ensures var g := old(layoutMap.items);
        var target := FindWhere(g, HasID(g[at.Y][at.X].MissingConnections[p]), 0);
        if joined then
          InBounds(g, target) && target != at &&
          route != [] && route[0] == target && route[|route| - 1] == StartOf(g, g[at.Y][at.X]) &&
          (forall k :: 0 <= k < |route| ==> InBounds(g, route[k])) &&
          StepsAdjacent(route) && Distinct(route) && RouteCost(g, target, route) <= costLimit &&
          layoutMap.items == Ticked(Drawn(g, route), at, target, p) &&
          layoutMap.items[at.Y][at.X].MissingConnections == RemovedAt(g[at.Y][at.X].MissingConnections, p)
        else layoutMap.items == g
      ensures var g := old(layoutMap.items);
        var target := FindWhere(g, HasID(g[at.Y][at.X].MissingConnections[p]), 0);
        Searched(g, target, StartOf(g, g[at.Y][at.X]), costLimit, table) &&
        (joined <==> IndexOfCoord(table, target) != -1)
      ensures var g := old(layoutMap.items);
        var target := FindWhere(g, HasID(g[at.Y][at.X].MissingConnections[p]), 0);
        forall r :: RouteWithin(g, target, StartOf(g, g[at.Y][at.X]), costLimit, r) ==> joined
    {
      ghost var g := layoutMap.items;
      var cell := layoutMap.At(at);
      var id := cell.MissingConnections[p];
      var targetCoord := layoutMap.CoordOf(id);
      var visited := Dijkstra(layoutMap, cell, targetCoord, costLimit);
      table := visited;
      forall r | RouteWithin(g, targetCoord, StartOf(g, cell), costLimit, r) ensures IndexOfCoord(visited, targetCoord) != -1 {
        SearchComplete(g, targetCoord, StartOf(g, cell), costLimit, visited, r);
      }
      var i := IndexOfCoord(visited, targetCoord);
      joined, route := false, [];
      if i != -1 && visited[i].Cost <= costLimit {
        BacktrackedRoute(g, targetCoord, StartOf(g, cell), visited, i);
        var path := BacktrackDijkstraPath(visited, visited[i]);
        assert path == Backtracked(visited, i);
        route := path.value;
        assert InBounds(g, targetCoord) && route[0] == targetCoord;
        FindWhereIsFirst(g, HasID(id), 0);
        assert id in cell.MissingConnections;
        assert targetCoord != at;
        DrawAndTick(at, targetCoord, p, path.value);
        joined := true;
      }
    }

    /** An accepted route is drawn (`DrawPath`) and the pair is taken off both missing lists. */
    method DrawAndTick(at: Coordinate, target: Coordinate, p: nat, route: seq<Coordinate>)
      requires layoutMap.Valid() && InBounds(layoutMap.items, at) && InBounds(layoutMap.items, target) && at != target
      requires p < |layoutMap.items[at.Y][at.X].MissingConnections|
      requires Distinct(route) && forall k :: 0 <= k < |route| ==> InBounds(layoutMap.items, route[k])
      modifies layoutMap
      ensures layoutMap.Valid() && Wired(old(layoutMap.items), layoutMap.items)
      ensures layoutMap.items == Ticked(Drawn(old(layoutMap.items), route), at, target, p)
      ensures layoutMap.items[at.Y][at.X].MissingConnections == RemovedAt(old(layoutMap.items)[at.Y][at.X].MissingConnections, p)
    {
      ghost var g := layoutMap.items;
      DrawRoute(layoutMap, route);
      DrawnExact(g, layoutMap.items, route);
      DrawnWired(g, route);
      ghost var drawn := layoutMap.items;
      TickPair(at, target, p);
      TickedPair(drawn, at, target, p);
      WiredTrans(g, drawn, layoutMap.items);
    }

    /** `target.MissingConnections.Remove(mapitem.ID)` and the start's `RemoveByNode`. */
    method TickPair(at: Coordinate, target: Coordinate, p: nat)
      requires layoutMap.Valid() && InBounds(layoutMap.items, at) && InBounds(layoutMap.items, target) && at != target
      requires p < |layoutMap.items[at.Y][at.X].MissingConnections|
      modifies layoutMap
      ensures layoutMap.Valid() && layoutMap.items == Ticked(old(layoutMap.items), at, target, p)
    {
      var id := layoutMap.At(at).ID;
      var t := layoutMap.At(target);
      layoutMap.Set(target, t.(MissingConnections := RemovedFirst(t.MissingConnections, id)));
      var s := layoutMap.At(at);
      layoutMap.Set(at, s.(MissingConnections := RemovedAt(s.MissingConnections, p)));
    }

    /** `ProcessMissingConnections(mapitem, costLimit)` for the vertex cell at `at`: each entry
        of its missing list, in order, is tried once (a joined entry is unlinked and the walk
        goes on from its old successor). The start's list loses exactly the joined entries. */
    method ProcessMissingConnections(at: Coordinate, costLimit: int) returns (ghost joined: seq<char>)
      requires layoutMap.Valid() && InBounds(layoutMap.items, at) && NoSelfMissing(layoutMap.items)
      requires 0 <= costLimit < Blocked
      modifies layoutMap
      ensures layoutMap.Valid() && Wired(old(layoutMap.items), layoutMap.items) && NoSelfMissing(layoutMap.items)
      ensures multiset(layoutMap.items[at.Y][at.X].MissingConnections) + multiset(joined) ==
        multiset(old(layoutMap.items)[at.Y][at.X].MissingConnections)
    {
      ghost var g := layoutMap.items;
      var missingConns := layoutMap.At(at).MissingConnections;
      var kept: seq<char> := [];
      joined := [];
      var j := 0;
      while j < |missingConns|
        invariant 0 <= j <= |missingConns| && layoutMap.Valid()
        invariant Wired(g, layoutMap.items) && NoSelfMissing(layoutMap.items) && InBounds(layoutMap.items, at)
        invariant layoutMap.items[at.Y][at.X].MissingConnections == kept + missingConns[j..]
        invariant multiset(kept) + multiset(joined) == multiset(missingConns[..j])
      {
        assert missingConns[j..][0] == missingConns[j] && missingConns[j..][1..] == missingConns[j + 1..];
        SplitStep(kept, joined, missingConns, j);
        var ok := TryEntry(at, kept, missingConns[j..], costLimit);
        if ok {
          joined := joined + [missingConns[j]];
        } else {
          kept := kept + [missingConns[j]];
        }
        j := j + 1;
      }
      assert missingConns[..j] == missingConns;
    }

    /** One pass of the loop of `ProcessMissingConnections`: the entry after the `kept` ones is
        routed, and dropped from the start's list when joined. */
    method TryEntry(at: Coordinate, kept: seq<char>, ghost rest: seq<char>, costLimit: int) returns (ok: bool)
      requires layoutMap.Valid() && InBounds(layoutMap.items, at) && NoSelfMissing(layoutMap.items)
      requires layoutMap.items[at.Y][at.X].MissingConnections == kept + rest && rest != []
      requires 0 <= costLimit < Blocked
      modifies layoutMap
      ensures layoutMap.Valid() && Wired(old(layoutMap.items), layoutMap.items) && NoSelfMissing(layoutMap.items)
      ensures InBounds(layoutMap.items, at)
      ensures layoutMap.items[at.Y][at.X].MissingConnections == (if ok then kept else kept + [rest[0]]) + rest[1..]
      ensures var g := old(layoutMap.items);
        forall r :: RouteWithin(g, FindWhere(g, HasID(rest[0]), 0), StartOf(g, g[at.Y][at.X]), costLimit, r) ==> ok
    {
      ghost var g: Grid := layoutMap.items;
      assert g[at.Y][at.X].MissingConnections[|kept|] == rest[0];
      UnlinkAfter(kept, rest);
      ghost var route, table;
      ok, route, table := Connect(at, |kept|, costLimit);
      WiredNoSelfMissing(g, layoutMap.items);
    }

    /** One pass of the sweep loop of `GenerateMapPaths` over the vertex cells at `coords`:
        each cell whose missing list is not empty is processed. The pass reports success
        exactly when every list was already empty, and then it changed nothing. */
    method Sweep(coords: seq<Coordinate>, costLimit: int) returns (allConnectedInLoop: bool)
      requires layoutMap.Valid() && NoSelfMissing(layoutMap.items) && 0 <= costLimit < Blocked
      requires forall k :: 0 <= k < |coords| ==> InBounds(layoutMap.items, coords[k])
      modifies layoutMap
      ensures layoutMap.Valid() && Wired(old(layoutMap.items), layoutMap.items) && NoSelfMissing(layoutMap.items)
      ensures allConnectedInLoop <==> ListsEmptyAt(old(layoutMap.items), coords)
      ensures allConnectedInLoop ==> layoutMap.items == old(layoutMap.items)
    {
      ghost var g := layoutMap.items;
      allConnectedInLoop := true;
      var i := 0;
      while i < |coords|
        invariant 0 <= i <= |coords| && layoutMap.Valid()
        invariant Wired(g, layoutMap.items) && NoSelfMissing(layoutMap.items)
        invariant allConnectedInLoop <==> ListsEmptyAt(g, coords[..i])
        invariant allConnectedInLoop ==> layoutMap.items == g
      {
        var c := coords[i];
        ghost var before := layoutMap.items;
        var empty := SweepCell(c, costLimit);
        WiredTrans(g, before, layoutMap.items);
        if !empty {
          allConnectedInLoop := false;
        }
        assert coords[..i + 1] == coords[..i] + [c];
        i := i + 1;
      }
      assert coords[..i] == coords;
    }

    /** The body of the sweep loop for the vertex cell at c: its missing connections are
        processed when it has any; a cell with none is left as it is. */
    method SweepCell(c: Coordinate, costLimit: int) returns (empty: bool)
      requires layoutMap.Valid() && NoSelfMissing(layoutMap.items) && 0 <= costLimit < Blocked
      requires InBounds(layoutMap.items, c)
      modifies layoutMap
      ensures layoutMap.Valid() && Wired(old(layoutMap.items), layoutMap.items) && NoSelfMissing(layoutMap.items)
      ensures empty <==> old(layoutMap.items)[c.Y][c.X].MissingConnections == []
      ensures empty ==> layoutMap.items == old(layoutMap.items)
    {
      empty := |layoutMap.At(c).MissingConnections| == 0;
      if !empty {
        ghost var joined := ProcessMissingConnections(c, costLimit);
      }
    }

    /** `GenerateMapPaths()`: sweeps under the ceilings 2, 6, 10, ... below the perimeter
        bound (`CeilingsFrom`), until a sweep finds every vertex cell joined. `ceilings` are
        those the sweeps ran under: a prefix of all of them, and all of them on failure. On
        success every vertex cell has all its connections drawn. */
    method GenerateMapPaths() returns (allConnected: bool, ghost ceilings: seq<int>)
      requires layoutMap.Valid() && NoSelfMissing(layoutMap.items)
      modifies layoutMap
      ensures layoutMap.Valid() && Wired(old(layoutMap.items), layoutMap.items) && NoSelfMissing(layoutMap.items)
      ensures var all := CeilingsFrom(2, MaxCost(old(layoutMap.items)));
        |ceilings| <= |all| && ceilings == all[..|ceilings|] && (!allConnected ==> ceilings == all)
      ensures allConnected ==> AllJoined(layoutMap.items)
    {
      ghost var g := layoutMap.items;
      var mapVertices := layoutMap.GetListOfVertexCoords();
      allConnected := false;
      var costLimit := 2;
      var maxCost := Min((layoutMap.Cols() + layoutMap.Rows()) * 2, 10000);
      ceilings := [];
      while !allConnected && costLimit < maxCost
        invariant layoutMap.Valid() && Wired(g, layoutMap.items) && NoSelfMissing(layoutMap.items)
        invariant var all := CeilingsFrom(2, maxCost);
          |ceilings| <= |all| && ceilings == all[..|ceilings|] && costLimit == 2 + 4 * |ceilings|
        invariant allConnected ==> AllJoined(layoutMap.items)
        decreases maxCost - costLimit
      {
        ghost var before := layoutMap.items;
        VertexListInBounds(g, before);
        var allConnectedInLoop := Sweep(mapVertices, costLimit);
        WiredTrans(g, before, layoutMap.items);
        if allConnectedInLoop {
          allConnected := true;
          EmptyListsAllJoined(g, layoutMap.items, mapVertices);
        }
        CeilingsNext(maxCost, ceilings, costLimit);
        ceilings := ceilings + [costLimit];
        costLimit := costLimit + 4;
      }
      if !allConnected {
        CeilingsExhausted(maxCost, ceilings, costLimit);
      }
    }

    // ----- the whole layout and the block buffer -----

    /** `GenerateGraphLayout()`: the vertices are placed, and if some cannot be the banner is
        shown; otherwise the routes are drawn, and if that fails too the banner is shown. A
        finished layout holds one vertex cell per vertex, every connection is drawn, and the
        buffer shows the map uncoloured. */
    method GenerateGraphLayout()
      requires Declared(vertices) && NoSelfLoops(vertices) && |vertices| < Int32Max
      requires layoutMap.Valid() && layoutMap.items == [] && generateMap
      modifies this, layoutMap
      ensures layoutMap.Valid() && bf != null && fresh(bf) && bf.Valid()
      ensures generateMap ==>
        bf.BufferSize == Dimension(layoutMap.Rows(), layoutMap.Cols()) && Laid(vertices) && AllJoined(layoutMap.items) &&
        (NamedIDs(vertices) ==> VertexCount(layoutMap.items) == |vertices|) &&
        forall i, j :: 0 <= i < layoutMap.Rows() && 0 <= j < layoutMap.Cols() ==>
          Shows(bf.Blocks[i, j], CellLook(layoutMap.items[i][j], Coordinate(i, j), []))
      ensures !generateMap ==> bf.BufferSize == Dimension(1, 1) && Shows(bf.Blocks[0, 0], BannerLook)
      ensures !Laid(vertices) ==> !generateMap
    {
      var canContinue := PlaceVertices();
      if !canContinue {
        FillPlaceholder();
        return;
      }
      if NamedIDs(vertices) {
        LaidHoldsEveryVertex(vertices);
      }
      canContinue := DrawRoutes();
      if !canContinue {
        FillPlaceholder();
        return;
      }
      FillBlockBuffer([]);
    }

    /** The first half of `GenerateGraphLayout`: the longest path becomes the backbone row,
        and the other vertices are placed around it in rounds. True iff every vertex is on the
        map. */
    method PlaceVertices() returns (canContinue: bool)
      requires Declared(vertices) && NoSelfLoops(vertices) && |vertices| < Int32Max
      requires layoutMap.Valid() && layoutMap.items == []
      modifies layoutMap
      ensures layoutMap.Valid() && canContinue == Laid(vertices)
      ensures canContinue ==> layoutMap.items == Arranged(vertices).grid && NoSelfMissing(layoutMap.items)
    {
      var longestPath := SearchLongestPath();
      LongestPathIsChain(vertices);
      AddTheHorizontalVertices(longestPath);
      var missedOut := GenerateMissedVertices(longestPath);
      MissedVerticesWithin(vertices, longestPath);
      assert NoSelfLoops(longestPath) by {
        forall v | v in longestPath ensures v.ID !in v.ConnectedVertexIDs {
          var k :| 0 <= k < |longestPath| && longestPath[k] == v;
        }
      }
      BackboneNoSelfMissing(longestPath);
      ghost var backbone := layoutMap.items;
      assert backbone == Backbone(longestPath);
      canContinue := AddMissedVertices(missedOut);
      if canContinue {
        RoundsNoSelfMissing(backbone, missedOut);
      }
    }

    /** The second half of `GenerateGraphLayout`: a border of 3 cells is added and the routes
        are drawn; if that fails, the map is made (nearly) square and the routes are drawn once
        more. True iff every connection is drawn; vertex cells are neither added nor removed. */
    method DrawRoutes() returns (canContinue: bool)
      requires layoutMap.Valid() && NoSelfMissing(layoutMap.items)
      modifies layoutMap
      ensures layoutMap.Valid() && VertexCount(layoutMap.items) == VertexCount(old(layoutMap.items))
      ensures canContinue ==> AllJoined(layoutMap.items)
    {
      ghost var placed := layoutMap.items;
      layoutMap.AddBorder(3);
      BorderNoSelfMissing(placed, 3);
      BorderKeepsCount(placed, 3);
      ghost var bordered := layoutMap.items;
      ghost var ceilings: seq<int>;
      canContinue, ceilings := GenerateMapPaths();
      WiredKeepsCount(bordered, layoutMap.items);
      if !canContinue {
        ghost var tried := layoutMap.items;
        MakeTheMapSquare();
        SquaredNoSelfMissing(tried);
        SquaredKeepsCount(tried);
        ghost var squared := layoutMap.items;
        canContinue, ceilings := GenerateMapPaths();
        WiredKeepsCount(squared, layoutMap.items);
      }
    }

    /** `GenerateBlockBuffer(vrtxColor)`: while the map is shown, the buffer is filled anew
        with the vertex colours as overrides; the buffer is returned either way.
        `GenerateBlockBuffer()` is this with no colours. */
    method GenerateBlockBuffer(vrtxColor: seq<VertexColor>) returns (r: BlockBuffer?)
      requires layoutMap.Valid()
      modifies this
      ensures r == bf && generateMap == old(generateMap)
      ensures !generateMap ==> bf == old(bf)
      ensures generateMap ==>
        bf != null && fresh(bf) && bf.Valid() &&
        bf.BufferSize == Dimension(layoutMap.Rows(), layoutMap.Cols()) &&
        forall i, j :: 0 <= i < layoutMap.Rows() && 0 <= j < layoutMap.Cols() ==>
          Shows(bf.Blocks[i, j], CellLook(layoutMap.items[i][j], Coordinate(i, j), MapColors(layoutMap.items, vrtxColor)))
    {
      if generateMap {
        var mcs := ColoredVrtxToMapColor(vrtxColor);
        FillBlockBuffer(mcs);
      }
      return bf;
    }

    /** `FillBlockBuffer(mColor)`: a fresh buffer of one 3 x 5 block per map cell, each block
        drawn as `CellLook` says. */
    method FillBlockBuffer(mColor: seq<MapItemColor>)
      requires layoutMap.Valid()
      modifies this
      ensures generateMap == old(generateMap)
      ensures bf != null && fresh(bf) && bf.Valid() && bf.Separate()
      ensures bf.BufferSize == Dimension(layoutMap.Rows(), layoutMap.Cols()) && bf.BlockSize == Dimension(TileRows, TileCols)
      ensures forall i, j :: 0 <= i < layoutMap.Rows() && 0 <= j < layoutMap.Cols() ==>
        Shows(bf.Blocks[i, j], CellLook(layoutMap.items[i][j], Coordinate(i, j), mColor))
    {
      var rows, cols := layoutMap.Rows(), layoutMap.Cols();
      var buffer := new BlockBuffer(Dimension(rows, cols), Dimension(TileRows, TileCols));
      forall i, j | 0 <= i < rows && 0 <= j < cols ensures Shows(buffer.Blocks[i, j], BlankLook) {
        BlankBlockShows(buffer.Blocks[i, j]);
      }
      var row := 0;
      while row < rows
        invariant 0 <= row <= rows
        invariant buffer.Valid() && buffer.Separate() && buffer.BufferSize == Dimension(rows, cols)
        invariant buffer.BlockSize == Dimension(TileRows, TileCols) && generateMap == old(generateMap)
        invariant forall i, j :: 0 <= i < rows && 0 <= j < cols ==> fresh(buffer.Blocks[i, j])
        invariant forall i, j :: 0 <= i < rows && 0 <= j < cols ==>
          Shows(buffer.Blocks[i, j], if i < row then CellLook(layoutMap.items[i][j], Coordinate(i, j), mColor) else BlankLook)
      {
        var col := 0;
        while col < cols
          invariant 0 <= col <= cols
          invariant buffer.Valid() && buffer.Separate() && buffer.BufferSize == Dimension(rows, cols)
          invariant buffer.BlockSize == Dimension(TileRows, TileCols) && generateMap == old(generateMap)
          invariant forall i, j :: 0 <= i < rows && 0 <= j < cols ==> fresh(buffer.Blocks[i, j])
          invariant forall i, j :: 0 <= i < rows && 0 <= j < cols ==>
            Shows(buffer.Blocks[i, j],
              if i < row || (i == row && j < col) then CellLook(layoutMap.items[i][j], Coordinate(i, j), mColor) else BlankLook)
        {
          DrawCell(buffer.Blocks[row, col], mColor, layoutMap.items[row][col], Coordinate(row, col));
          col := col + 1;
        }
        row := row + 1;
      }
      bf := buffer;
    }

    /** One pass of the inner loop of `FillBlockBuffer`: a path or vertex cell's block takes
        the colours of the first override for its coordinate, if any, and the cell's tile; an
        Empty cell's block is left blank. */
    static method DrawCell(b: Block, mColor: seq<MapItemColor>, item: MapItem, at: Coordinate)
      requires Shows(b, BlankLook)
      modifies b
      ensures Shows(b, CellLook(item, at, mColor))
    {
      if item.Status == PathCell {
        var mapColor := FindMapColorAtCoord(mColor, at);
        if mapColor.Some? {
          b.BackgroundColor := mapColor.value.BackgroundColor;
          b.ForegroundColor := mapColor.value.ForegroundColor;
        }
        var data := PathSegmentMatrix(item.Segment);
        b.Data := data;
      } else if item.Status == VertexCell {
        var mapColor := FindMapColorAtCoord(mColor, at);
        if mapColor.Some? {
          b.BackgroundColor := mapColor.value.BackgroundColor;
          b.ForegroundColor := mapColor.value.ForegroundColor;
        }
        var data := VertexToSprite(item.ID);
        b.Data := data;
      }
    }

    /** `ColoredVrtxToMapColor(vrtxColor)`: each vertex colour moved to the coordinate
        `CoordOf` finds for its ID. */
    method ColoredVrtxToMapColor(vrtxColor: seq<VertexColor>) returns (mcs: seq<MapItemColor>)
      requires layoutMap.Valid()
      ensures mcs == MapColors(layoutMap.items, vrtxColor)
    {
      mcs := [];
      var i := 0;
      while i < |vrtxColor|
        invariant 0 <= i <= |vrtxColor|
        invariant mcs == MapColors(layoutMap.items, vrtxColor)[..i]
      {
        var coord := layoutMap.CoordOf(vrtxColor[i].ID);
        mcs := mcs + [MapItemColor(coord, vrtxColor[i].ForegroundColor, vrtxColor[i].BackgroundColor)];
        i := i + 1;
      }
    }

    /** `FillPlaceholder()`: the map is switched off for good and the buffer holds the banner. */
    method FillPlaceholder()
      modifies this
      ensures !generateMap && bf != null && fresh(bf) && bf.Valid()
      ensures bf.BufferSize == Dimension(1, 1) && Shows(bf.Blocks[0, 0], BannerLook)
    {
      generateMap := false;
      bf := GetPlaceholder();
    }

    // ----- queries -----

    /** `GetConnectedVertices(vertex)`: copies of the vertices whose IDs vertex lists, in
        map-file order. */
    method GetConnectedVertices(vertex: Vertex) returns (connectedVertices: seq<Vertex>)
      ensures connectedVertices == ConnectedVertices(vertices, vertex)
    {
      connectedVertices := [];
      var i := 0;
      while i < |vertices|
        invariant 0 <= i <= |vertices|
        invariant connectedVertices == ConnectedVertices(vertices[..i], vertex)
      {
        assert vertices[..i + 1][..i] == vertices[..i];
        if vertices[i].ID in vertex.ConnectedVertexIDs {
          connectedVertices := connectedVertices + [vertices[i]];
        }
        i := i + 1;
      }
      assert vertices[..i] == vertices;
    }

    /** `GetConnectedIDs(pos)`: a copy of the full neighbour list of the cell at pos; outside
        the map the indexer throws. */
    method GetConnectedIDs(pos: Coordinate) returns (r: Result<seq<char>>)
      requires layoutMap.Valid()
      ensures r.Ok? <==> InBounds(layoutMap.items, pos)
      ensures r.Ok? ==> r.value == layoutMap.items[pos.Y][pos.X].Connections
      ensures r.Err? ==> r.error == IndexOutOfRange
    {
      if !(0 <= pos.Y < layoutMap.Rows() && 0 <= pos.X < layoutMap.Cols()) {
        return Err(IndexOutOfRange);
      }
      return Ok(layoutMap.At(pos).Connections);
    }

    /** `GetListOfVertices()`: a copy of the vertex list. */
    method GetListOfVertices() returns (vs: seq<Vertex>)
      ensures vs == vertices
    {
      vs := vertices;
    }

    /** `GetListOfVertexIDs()`: the IDs, in map-file order. */
    method GetListOfVertexIDs() returns (ids: seq<char>)
      ensures ids == IDs(vertices)
    {
      ids := [];
      var i := 0;
      while i < |vertices|
        invariant 0 <= i <= |vertices| && ids == IDs(vertices[..i])
      {
        assert vertices[..i + 1] == vertices[..i] + [vertices[i]];
        ids := ids + [vertices[i].ID];
        i := i + 1;
      }
      assert vertices[..i] == vertices;
    }

    /** `CoordinateToID(coord)`: the ID of the cell at coord; outside the map the indexer
        throws. */
    method CoordinateToID(coord: Coordinate) returns (r: Result<char>)
      requires layoutMap.Valid()
      ensures r.Ok? <==> InBounds(layoutMap.items, coord)
      ensures r.Ok? ==> r.value == layoutMap.items[coord.Y][coord.X].ID
      ensures r.Err? ==> r.error == IndexOutOfRange
    {
      if !(0 <= coord.Y < layoutMap.Rows() && 0 <= coord.X < layoutMap.Cols()) {
        return Err(IndexOutOfRange);
      }
      return Ok(layoutMap.At(coord).ID);
    }

    /** `IDToVertex(ID)`: a copy of the first vertex with the ID, or null. */
    method IDToVertex(id: char) returns (r: Option<Vertex>)
      ensures r == FindVertexInList(vertices, id)
    {
      var i := 0;
      while i < |vertices|
        invariant 0 <= i <= |vertices|
        invariant forall k :: 0 <= k < i ==> vertices[k].ID != id
      {
        if vertices[i].ID == id {
          FindVertexIsFirst(vertices, id, i);
          return Some(vertices[i]);
        }
        i := i + 1;
      }
      assert id !in IDs(vertices);
      return None;
    }
  }
}
