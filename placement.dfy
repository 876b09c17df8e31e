/** Placing the vertices that are not on the backbone (Graph.cs, `AddMissedVertices` and
    `FindEmptySpace`), stated as functions on the grid: where a vertex goes, how the grid grows
    to make room for it, and how the rounds over the still-missed vertices end. The methods of
    the `Graph` class that do this work in place are proved equal to these functions. */
module Placement {
  import opened Common
  import opened MapItems
  import opened GridMap
  import opened Vertices

  /** `verticalOffset` of `AddMissedVertices`: fixed at 2, so its negative branches are dead. */
  const VerticalOffset := 2

  /** The eight probes of `FindEmptySpace`, in the order they are tried: down, up, right,
      left, up-left, up-right, down-left, down-right, each two cells away. */
  const Probes: seq<Coordinate> := [
    Coordinate(2, 0), Coordinate(-2, 0), Coordinate(0, 2), Coordinate(0, -2),
    Coordinate(-2, -2), Coordinate(-2, 2), Coordinate(2, -2), Coordinate(2, 2)]

  /** A cell a vertex may be written into: on the map and Empty. */
  predicate IsFree(g: Grid, c: Coordinate) {
    InBounds(g, c) && c.X < |g[c.Y]| && g[c.Y][c.X].Status == EmptyCell
  }

  // ----- FindEmptySpace -----

  /** The first free cell among the probes k, k+1, ... around c, or (-1,-1). */
  function EmptySpaceFrom(g: Grid, c: Coordinate, k: nat): (r: Coordinate)
    requires k <= |Probes|
    ensures r == NotFound || IsFree(g, r)
    decreases |Probes| - k
  {
    if k == |Probes| then NotFound
    else if IsFree(g, Probes[k].Plus(c)) then Probes[k].Plus(c)
    else EmptySpaceFrom(g, c, k + 1)
  }

  /** `FindEmptySpace(coord)`. */
  function EmptySpaceNear(g: Grid, c: Coordinate): Coordinate {
    EmptySpaceFrom(g, c, 0)
  }

  /** The search gives (-1,-1) exactly when no probe is free, and otherwise the first free
      probe in the listed order. */
  lemma {:induction false} EmptySpaceFromIsFirst(g: Grid, c: Coordinate, k: nat)
    requires k <= |Probes|
    ensures var r := EmptySpaceFrom(g, c, k);
      (r == NotFound <==> forall j :: k <= j < |Probes| ==> !IsFree(g, Probes[j].Plus(c))) &&
      (r != NotFound ==> exists j :: k <= j < |Probes| && r == Probes[j].Plus(c) &&
                                     forall i :: k <= i < j ==> !IsFree(g, Probes[i].Plus(c)))
    decreases |Probes| - k
  {
    if k < |Probes| {
      EmptySpaceFromIsFirst(g, c, k + 1);
      var r := EmptySpaceFrom(g, c, k + 1);
      if !IsFree(g, Probes[k].Plus(c)) && r != NotFound {
        var j :| k + 1 <= j < |Probes| && r == Probes[j].Plus(c) &&
          forall i :: k + 1 <= i < j ==> !IsFree(g, Probes[i].Plus(c));
        assert forall i :: k <= i < j ==> !IsFree(g, Probes[i].Plus(c));
      }
    }
  }

  // ----- where a missed vertex is aimed -----

  /** The coordinates `CoordOf` gives for the neighbour IDs, in list order, those not on the
      map (X == -1) left out. */
  function OnMap(g: Grid, conns: seq<char>): (cs: seq<Coordinate>)
    ensures |cs| <= |conns|
  {
    if conns == [] then []
    else
      var c := FindWhere(g, HasID(conns[|conns| - 1]), 0);
      if c.X != -1 then OnMap(g, conns[..|conns| - 1]) + [c] else OnMap(g, conns[..|conns| - 1])
  }

  function SumX(cs: seq<Coordinate>): int {
    if cs == [] then 0 else SumX(cs[..|cs| - 1]) + cs[|cs| - 1].X
  }

  /** `yEdge`: the largest row among the coordinates, starting from 0. */
  function EdgeY(cs: seq<Coordinate>): int {
    if cs == [] then 0 else
      var y := EdgeY(cs[..|cs| - 1]);
      if y < cs[|cs| - 1].Y then cs[|cs| - 1].Y else y
  }

  /** One more neighbour ID: its coordinate joins the list when it is on the map, adding its
      column to the sum and raising the edge row to its own when lower. */
  lemma OnMapStep(g: Grid, conns: seq<char>, i: int)
    requires 0 <= i < |conns|
    ensures var c := FindWhere(g, HasID(conns[i]), 0);
      var found := OnMap(g, conns[..i]);
      OnMap(g, conns[..i + 1]) == (if c.X != -1 then found + [c] else found) &&
      SumX(found + [c]) == SumX(found) + c.X &&
      EdgeY(found + [c]) == (if EdgeY(found) < c.Y then c.Y else EdgeY(found))
  {
    var c := FindWhere(g, HasID(conns[i]), 0);
    var found := OnMap(g, conns[..i]);
    assert conns[..i + 1][..i] == conns[..i];
    assert (found + [c])[..|found|] == found;
  }

  /** Where `AddMissedVertices` first aims a vertex with these neighbours: the average column
      of the neighbours already on the map (the sum is never negative, so C#'s truncating
      division is Dafny's), two rows below the lowest of them; None when none is on the map. */
  function Anchor(g: Grid, conns: seq<char>): Option<Coordinate> {
    var cs := OnMap(g, conns);
    if cs == [] then None else Some(Coordinate(EdgeY(cs) + VerticalOffset, SumX(cs) / |cs|))
  }

  /** Every coordinate `OnMap` keeps is a cell of the map. */
  lemma {:induction false} OnMapInBounds(g: Grid, conns: seq<char>)
    requires Rectangular(g)
    ensures forall c :: c in OnMap(g, conns) ==> InBounds(g, c)
  {
    if conns != [] {
      OnMapInBounds(g, conns[..|conns| - 1]);
      FindWhereIsFirst(g, HasID(conns[|conns| - 1]), 0);
    }
  }

  lemma {:induction false} SumXBounds(cs: seq<Coordinate>, cols: int)
    requires forall c :: c in cs ==> 0 <= c.X < cols
    ensures 0 <= SumX(cs) && (cs != [] ==> SumX(cs) < |cs| * cols)
  {
    if cs != [] {
      var init := cs[..|cs| - 1];
      assert forall c :: c in init ==> c in cs;
      SumXBounds(init, cols);
      assert cs[|cs| - 1] in cs;
      if init != [] {
        assert SumX(cs) < |init| * cols + cols;
      }
    }
  }

  lemma {:induction false} EdgeYBounds(cs: seq<Coordinate>)
    ensures 0 <= EdgeY(cs)
  {
    if cs != [] {
      EdgeYBounds(cs[..|cs| - 1]);
    }
  }

  /** An average of n columns each below `cols` is below `cols`. */
  lemma AverageBelow(s: int, n: int, cols: int)
    requires 0 <= s < n * cols && n > 0
    ensures 0 <= s / n < cols
  {
  }

  /** The anchor lies in a column of the map, at least two rows down. */
  lemma AnchorInRange(g: Grid, conns: seq<char>)
    requires Rectangular(g) && Anchor(g, conns).Some?
    ensures var a := Anchor(g, conns).value; 0 <= a.X < ColsOf(g) && a.Y >= VerticalOffset
  {
    var cs := OnMap(g, conns);
    OnMapInBounds(g, conns);
    SumXBounds(cs, ColsOf(g));
    AverageBelow(SumX(cs), |cs|, ColsOf(g));
    EdgeYBounds(cs);
  }

  // ----- growing the map around the target -----

  /** `while (!map.HasCoordinate(pos)) map.AddRowBottom(2);` */
  function RowsBelow(g: Grid, pos: Coordinate): (r: Grid)
    requires Rectangular(g) && 0 <= pos.X < ColsOf(g) && pos.Y >= 0
    ensures Rectangular(r) && InBounds(r, pos) && ColsOf(r) == ColsOf(g)
    decreases pos.Y - |g|
  {
    if InBounds(g, pos) then g
    else
      BottomGrowth(g, 2);
      RowsBelow(WithRowsBottom(g, 2), pos)
  }

  /** A grid and a position in it. */
  datatype Spot = Spot(grid: Grid, pos: Coordinate)

  /** The four checks of `AddMissedVertices` before `FindEmptySpace`, one function each: two
      rows at the bottom when the cell two below is off the map, two on top (the position
      moving down with the cells) when the cell two above is, and the same for the columns
      right and left. */
  function RoomBelow(g: Grid, pos: Coordinate): Spot {
    if !InBounds(g, pos.Plus(Coordinate(2, 0))) then Spot(WithRowsBottom(g, 2), pos) else Spot(g, pos)
  }

  function RoomAbove(g: Grid, pos: Coordinate): Spot {
    if !InBounds(g, pos.Plus(Coordinate(-2, 0))) then Spot(WithRowsTop(g, 2), pos.Plus(Coordinate(2, 0))) else Spot(g, pos)
  }

  function RoomRight(g: Grid, pos: Coordinate): Spot {
    if !InBounds(g, pos.Plus(Coordinate(0, 2))) then Spot(WithColsRight(g, 2), pos) else Spot(g, pos)
  }

  function RoomLeft(g: Grid, pos: Coordinate): Spot {
    if !InBounds(g, pos.Plus(Coordinate(0, -2))) then Spot(WithColsLeft(g, 2), pos.Plus(Coordinate(0, 2))) else Spot(g, pos)
  }

  /** Each check keeps the grid rectangular and its vertex cells. */
  lemma RoomSteps(g: Grid, pos: Coordinate)
    requires Rectangular(g)
    ensures Rectangular(RoomBelow(g, pos).grid) && VertexCount(RoomBelow(g, pos).grid) == VertexCount(g)
    ensures Rectangular(RoomAbove(g, pos).grid) && VertexCount(RoomAbove(g, pos).grid) == VertexCount(g)
    ensures Rectangular(RoomRight(g, pos).grid) && VertexCount(RoomRight(g, pos).grid) == VertexCount(g)
    ensures Rectangular(RoomLeft(g, pos).grid) && VertexCount(RoomLeft(g, pos).grid) == VertexCount(g)
  {
    BottomGrowth(g, 2);
    TopGrowth(g, 2);
    RightGrowth(g, 2);
    LeftGrowth(g, 2);
    GrowthKeepsCount(g, 2);
  }

  function MakeRoom(g: Grid, pos: Coordinate): Spot {
    var s1 := RoomBelow(g, pos);
    var s2 := RoomAbove(s1.grid, s1.pos);
    var s3 := RoomRight(s2.grid, s2.pos);
    RoomLeft(s3.grid, s3.pos)
  }

  /** The four checks together keep the grid rectangular and its vertex cells. */
  lemma MakeRoomShape(g: Grid, pos: Coordinate)
    requires Rectangular(g)
    ensures Rectangular(MakeRoom(g, pos).grid) && VertexCount(MakeRoom(g, pos).grid) == VertexCount(g)
  {
    var s1 := RoomBelow(g, pos);
    RoomSteps(g, pos);
    var s2 := RoomAbove(s1.grid, s1.pos);
    RoomSteps(s1.grid, s1.pos);
    var s3 := RoomRight(s2.grid, s2.pos);
    RoomSteps(s2.grid, s2.pos);
    RoomSteps(s3.grid, s3.pos);
  }

  /** The cell taken: room is made around `start` and the first free probe near it is
      chosen, or (-1,-1). */
  function Relocated(g: Grid, start: Coordinate): Spot {
    var s := MakeRoom(g, start);
    Spot(s.grid, EmptySpaceNear(s.grid, s.pos))
  }

  /** The grid just before the vertex is written and the cell it is written into: the anchor
      when that cell is Empty, and otherwise the first free probe around the neighbours' edge
      row (the anchor moved back up by `verticalOffset`) once room is made, or (-1,-1). */
  function Target(g: Grid, anchor: Coordinate): Spot
    requires Rectangular(g) && 0 <= anchor.X < ColsOf(g) && anchor.Y >= VerticalOffset
  {
    var g1 := RowsBelow(g, anchor);
    if g1[anchor.Y][anchor.X].Status == EmptyCell then Spot(g1, anchor)
    else Relocated(g1, Coordinate(anchor.Y - VerticalOffset, anchor.X))
  }

  /** The anchor itself, when its cell is Empty once the rows below are added. */
  lemma TargetKept(g: Grid, anchor: Coordinate)
    requires Rectangular(g) && 0 <= anchor.X < ColsOf(g) && anchor.Y >= VerticalOffset
    requires RowsBelow(g, anchor)[anchor.Y][anchor.X].Status == EmptyCell
    ensures Target(g, anchor) == Spot(RowsBelow(g, anchor), anchor)
  {
  }

  /** Otherwise the free probe found once room is made around the cell `VerticalOffset` rows
      above the anchor. */
  lemma TargetMoved(g: Grid, anchor: Coordinate)
    requires Rectangular(g) && 0 <= anchor.X < ColsOf(g) && anchor.Y >= VerticalOffset
    requires RowsBelow(g, anchor)[anchor.Y][anchor.X].Status != EmptyCell
    ensures Target(g, anchor) == Relocated(RowsBelow(g, anchor), Coordinate(anchor.Y - VerticalOffset, anchor.X))
  {
  }

  /** The chosen cell is (-1,-1) or a free cell of the grown map, and growing the map keeps
      its vertex cells. */
  lemma TargetShape(g: Grid, anchor: Coordinate)
    requires Rectangular(g) && 0 <= anchor.X < ColsOf(g) && anchor.Y >= VerticalOffset
    ensures var t := Target(g, anchor);
      Rectangular(t.grid) && (t.pos == NotFound || IsFree(t.grid, t.pos)) && VertexCount(t.grid) == VertexCount(g)
  {
    RowsBelowKeepsCount(g, anchor);
    var g1: Grid := RowsBelow(g, anchor);
    if g1[anchor.Y][anchor.X].Status != EmptyCell {
      TargetMoved(g, anchor);
      MakeRoomShape(g1, Coordinate(anchor.Y - VerticalOffset, anchor.X));
    } else {
      TargetKept(g, anchor);
    }
  }

  /** The cell at pos becomes a vertex cell with v's ID, its neighbours as connections and
      all of them missing; its path segment is left as it was. */
  function Mark(g: Grid, pos: Coordinate, v: Vertex): (r: Grid)
    requires Rectangular(g) && InBounds(g, pos)
    ensures Rectangular(r) && RowsOf(r) == RowsOf(g) && ColsOf(r) == ColsOf(g)
  {
    var cell := g[pos.Y][pos.X];
    g[pos.Y := g[pos.Y][pos.X := cell.(Status := VertexCell, ID := v.ID,
      MissingConnections := v.ConnectedVertexIDs, Connections := v.ConnectedVertexIDs)]]
  }

  /** Only the marked cell changes, and it holds the vertex with its full neighbour list
      missing. */
  lemma MarkOnly(g: Grid, pos: Coordinate, v: Vertex)
    requires Rectangular(g) && InBounds(g, pos)
    ensures var r := Mark(g, pos, v);
      r[pos.Y][pos.X].Status == VertexCell && r[pos.Y][pos.X].ID == v.ID &&
      r[pos.Y][pos.X].MissingConnections == v.ConnectedVertexIDs &&
      r[pos.Y][pos.X].Connections == v.ConnectedVertexIDs &&
      forall y, x :: InBounds(g, Coordinate(y, x)) && Coordinate(y, x) != pos ==> r[y][x] == g[y][x]
  {
  }

  /** The grid after one vertex is handled, and whether it was placed. */
  datatype Placed = Placed(grid: Grid, ok: bool)

  /** The body of `if (leastOneOnMap)` in `AddMissedVertices`. */
  function PlaceAt(g: Grid, v: Vertex, anchor: Coordinate): (r: Placed)
    requires Rectangular(g) && 0 <= anchor.X < ColsOf(g) && anchor.Y >= VerticalOffset
    ensures Rectangular(r.grid)
  {
    TargetShape(g, anchor);
    var t := Target(g, anchor);
    if t.pos == NotFound then Placed(t.grid, false) else Placed(Mark(t.grid, t.pos, v), true)
  }

  // ----- the rounds -----

  /** The grid, the vertices still missed, and whether a placement failed. */
  datatype Progress = Progress(grid: Grid, left: seq<Vertex>, failed: bool)

  /** One pass of the `for` loop over the missed vertices: `kept` are the ones passed over so
      far. A vertex with no neighbour on the map is kept; a placed one is removed; a failed
      placement ends everything, the vertex still missed. */
  function Round(g: Grid, round: seq<Vertex>, kept: seq<Vertex>): (r: Progress)
    requires Rectangular(g)
    ensures Rectangular(r.grid) && |r.left| <= |kept| + |round|
    decreases |round|
  {
    if round == [] then Progress(g, kept, false)
    else
      var v := round[0];
      var a := Anchor(g, v.ConnectedVertexIDs);
      if a.None? then Round(g, round[1..], kept + [v])
      else
        AnchorInRange(g, v.ConnectedVertexIDs);
        var p := PlaceAt(g, v, a.value);
        if !p.ok then Progress(p.grid, kept + round, true)
        else Round(p.grid, round[1..], kept)
  }

  /** A vertex with no neighbour on the map is passed over and kept. */
  lemma RoundKeeps(g: Grid, round: seq<Vertex>, kept: seq<Vertex>)
    requires Rectangular(g) && round != [] && Anchor(g, round[0].ConnectedVertexIDs).None?
    ensures Round(g, round, kept) == Round(g, round[1..], kept + [round[0]])
  {
  }

  /** A vertex with a neighbour on the map is placed near it; a failed placement ends the
      round with every vertex from it on still missed. */
  lemma RoundPlaces(g: Grid, round: seq<Vertex>, kept: seq<Vertex>)
    requires Rectangular(g) && round != [] && Anchor(g, round[0].ConnectedVertexIDs).Some?
    ensures var a := Anchor(g, round[0].ConnectedVertexIDs).value;
      0 <= a.X < ColsOf(g) && a.Y >= VerticalOffset &&
      var p := PlaceAt(g, round[0], a);
      Round(g, round, kept) == if !p.ok then Progress(p.grid, kept + round, true) else Round(p.grid, round[1..], kept)
  {
    AnchorInRange(g, round[0].ConnectedVertexIDs);
  }

  /** The `while` loop: rounds go on while some vertex is missed and the last round placed
      one. */
  function Rounds(g: Grid, missed: seq<Vertex>): (r: Progress)
    requires Rectangular(g)
    ensures Rectangular(r.grid)
    decreases |missed|
  {
    if missed == [] then Progress(g, [], false)
    else
      var r := Round(g, missed, []);
      if r.failed || |r.left| == |missed| then r else Rounds(r.grid, r.left)
  }

  // ----- what placement promises -----

  /** How many vertex cells the grid holds. */
  function RowVertexCount(row: seq<MapItem>): nat {
    if row == [] then 0
    else RowVertexCount(row[..|row| - 1]) + if row[|row| - 1].Status == VertexCell then 1 else 0
  }

  function VertexCount(g: Grid): nat {
    if g == [] then 0 else VertexCount(g[..|g| - 1]) + RowVertexCount(g[|g| - 1])
  }

  lemma {:induction false} RowVertexCountAppend(a: seq<MapItem>, b: seq<MapItem>)
    ensures RowVertexCount(a + b) == RowVertexCount(a) + RowVertexCount(b)
    decreases |b|
  {
    if b != [] {
      assert (a + b)[..|a + b| - 1] == a + b[..|b| - 1];
      RowVertexCountAppend(a, b[..|b| - 1]);
    } else {
      assert a + b == a;
    }
  }

  lemma {:induction false} VertexCountAppend(a: Grid, b: Grid)
    ensures VertexCount(a + b) == VertexCount(a) + VertexCount(b)
    decreases |b|
  {
    if b != [] {
      assert (a + b)[..|a + b| - 1] == a + b[..|b| - 1];
      VertexCountAppend(a, b[..|b| - 1]);
    } else {
      assert a + b == a;
    }
  }

  lemma {:induction false} EmptyRowNoVertex(n: nat)
    ensures RowVertexCount(EmptyRow(n)) == 0
  {
    if n > 0 {
      assert EmptyRow(n)[..n - 1] == EmptyRow(n - 1);
      EmptyRowNoVertex(n - 1);
    }
  }

  lemma {:induction false} EmptyRowsNoVertex(n: nat, cols: nat)
    ensures VertexCount(EmptyRows(n, cols)) == 0
  {
    if n > 0 {
      assert EmptyRows(n, cols)[..n - 1] == EmptyRows(n - 1, cols);
      EmptyRowsNoVertex(n - 1, cols);
      EmptyRowNoVertex(cols);
    }
  }

  /** Adding Empty columns to every row keeps the count. */
  lemma {:induction false} ColsKeepCount(g: Grid, t: Grid, n: nat, left: bool)
    requires |t| == |g|
    requires forall i :: 0 <= i < |g| ==> t[i] == if left then EmptyRow(n) + g[i] else g[i] + EmptyRow(n)
    ensures VertexCount(t) == VertexCount(g)
    decreases |g|
  {
    if g != [] {
      var k := |g| - 1;
      ColsKeepCount(g[..k], t[..k], n, left);
      EmptyRowNoVertex(n);
      if left {
        RowVertexCountAppend(EmptyRow(n), g[k]);
      } else {
        RowVertexCountAppend(g[k], EmptyRow(n));
      }
    }
  }

  /** Growing the map at any edge adds only Empty cells. */
  lemma GrowthKeepsCount(g: Grid, n: nat)
    ensures VertexCount(WithRowsBottom(g, n)) == VertexCount(g)
    ensures VertexCount(WithRowsTop(g, n)) == VertexCount(g)
    ensures VertexCount(WithColsRight(g, n)) == VertexCount(g)
    ensures VertexCount(WithColsLeft(g, n)) == VertexCount(g)
  {
    RowGrowthKeepsCount(g, n);
    ColsKeepCount(g, WithColsRight(g, n), n, false);
    ColsKeepCount(g, WithColsLeft(g, n), n, true);
  }

  lemma RowGrowthKeepsCount(g: Grid, n: nat)
    ensures VertexCount(WithRowsBottom(g, n)) == VertexCount(g)
    ensures VertexCount(WithRowsTop(g, n)) == VertexCount(g)
  {
    var e := EmptyRows(n, ColsOf(g));
    VertexCountAppend(g, e);
    VertexCountAppend(e, g);
    EmptyRowsNoVertex(n, ColsOf(g));
  }

  lemma {:induction false} RowsBelowKeepsCount(g: Grid, pos: Coordinate)
    requires Rectangular(g) && 0 <= pos.X < ColsOf(g) && pos.Y >= 0
    ensures VertexCount(RowsBelow(g, pos)) == VertexCount(g)
    decreases pos.Y - |g|
  {
    if !InBounds(g, pos) {
      BottomGrowth(g, 2);
      GrowthKeepsCount(g, 2);
      RowsBelowKeepsCount(WithRowsBottom(g, 2), pos);
    }
  }

  /** Writing a vertex into one cell of a row changes the row's count by the change of that
      cell. */
  lemma {:induction false} RowCountUpdate(row: seq<MapItem>, x: int, item: MapItem)
    requires 0 <= x < |row|
    ensures RowVertexCount(row[x := item]) + (if row[x].Status == VertexCell then 1 else 0) ==
      RowVertexCount(row) + (if item.Status == VertexCell then 1 else 0)
    decreases |row|
  {
    var k := |row| - 1;
    if x < k {
      assert row[x := item][..k] == row[..k][x := item];
      RowCountUpdate(row[..k], x, item);
    } else {
      assert row[x := item][..k] == row[..k];
    }
  }

  lemma {:induction false} GridCountUpdate(g: Grid, y: int, row: seq<MapItem>)
    requires 0 <= y < |g|
    ensures VertexCount(g[y := row]) + RowVertexCount(g[y]) == VertexCount(g) + RowVertexCount(row)
    decreases |g|
  {
    var k := |g| - 1;
    if y < k {
      assert g[y := row][..k] == g[..k][y := row];
      GridCountUpdate(g[..k], y, row);
    } else {
      assert g[y := row][..k] == g[..k];
    }
  }

  /** A vertex written into an Empty cell adds exactly one vertex cell. */
  lemma MarkAddsOne(g: Grid, pos: Coordinate, v: Vertex)
    requires Rectangular(g) && IsFree(g, pos)
    ensures VertexCount(Mark(g, pos, v)) == VertexCount(g) + 1
  {
    var cell := g[pos.Y][pos.X];
    var item := cell.(Status := VertexCell, ID := v.ID, MissingConnections := v.ConnectedVertexIDs, Connections := v.ConnectedVertexIDs);
    RowCountUpdate(g[pos.Y], pos.X, item);
    GridCountUpdate(g, pos.Y, g[pos.Y][pos.X := item]);
  }

  /** Handling one vertex adds one vertex cell when it is placed and none otherwise: a vertex
      is only ever written into an Empty cell, and growing the map moves cells but never
      drops one. */
  lemma PlaceAtCount(g: Grid, v: Vertex, anchor: Coordinate)
    requires Rectangular(g) && 0 <= anchor.X < ColsOf(g) && anchor.Y >= VerticalOffset
    ensures var r := PlaceAt(g, v, anchor);
      VertexCount(r.grid) == VertexCount(g) + if r.ok then 1 else 0
  {
    var t := Target(g, anchor);
    TargetShape(g, anchor);
    if t.pos != NotFound {
      MarkAddsOne(t.grid, t.pos, v);
    }
  }

  /** Every vertex a round removes from the missed list is on the map afterwards as one more
      vertex cell. */
  lemma {:induction false} RoundCount(g: Grid, round: seq<Vertex>, kept: seq<Vertex>)
    requires Rectangular(g)
    ensures var r := Round(g, round, kept);
      VertexCount(r.grid) + |r.left| == VertexCount(g) + |kept| + |round|
    decreases |round|
  {
    if round != [] {
      var v := round[0];
      var a := Anchor(g, v.ConnectedVertexIDs);
      if a.None? {
        RoundCount(g, round[1..], kept + [v]);
      } else {
        AnchorInRange(g, v.ConnectedVertexIDs);
        PlaceAtCount(g, v, a.value);
        var p := PlaceAt(g, v, a.value);
        if p.ok {
          RoundCount(p.grid, round[1..], kept);
        }
      }
    }
  }

  /** `AddMissedVertices` places exactly the vertices it no longer lists, each into a cell
      that was Empty. */
  lemma {:induction false} RoundsCount(g: Grid, missed: seq<Vertex>)
    requires Rectangular(g)
    ensures var r := Rounds(g, missed);
      VertexCount(r.grid) + |r.left| == VertexCount(g) + |missed|
    decreases |missed|
  {
    if missed != [] {
      RoundCount(g, missed, []);
      var r := Round(g, missed, []);
      if !r.failed && |r.left| != |missed| {
        RoundsCount(r.grid, r.left);
      }
    }
  }

  /** A failed placement leaves the vertex missed, so the answer `missedVertices.Length == 0`
      is true exactly when nothing failed and every vertex was placed. */
  lemma {:induction false} FailedLeavesSome(g: Grid, round: seq<Vertex>, kept: seq<Vertex>)
    requires Rectangular(g)
    ensures var r := Round(g, round, kept); r.failed ==> r.left != []
    decreases |round|
  {
    if round != [] {
      var v := round[0];
      var a := Anchor(g, v.ConnectedVertexIDs);
      if a.None? {
        FailedLeavesSome(g, round[1..], kept + [v]);
      } else {
        AnchorInRange(g, v.ConnectedVertexIDs);
        var p := PlaceAt(g, v, a.value);
        if p.ok {
          FailedLeavesSome(p.grid, round[1..], kept);
        }
      }
    }
  }

  lemma {:induction false} RoundsAllPlaced(g: Grid, missed: seq<Vertex>)
    requires Rectangular(g)
    ensures var r := Rounds(g, missed);
      (r.left == [] <==> !r.failed && VertexCount(r.grid) == VertexCount(g) + |missed|)
    decreases |missed|
  {
    RoundsCount(g, missed);
    if missed != [] {
      FailedLeavesSome(g, missed, []);
      var r := Round(g, missed, []);
      if !r.failed && |r.left| != |missed| {
        RoundsAllPlaced(r.grid, r.left);
      }
    }
  }

  /** A round that places nothing changes nothing, so the round after it would only repeat
      it: stopping there loses no placement. */
  lemma {:induction false} IdleRoundChangesNothing(g: Grid, round: seq<Vertex>, kept: seq<Vertex>)
    requires Rectangular(g)
    ensures var r := Round(g, round, kept);
      !r.failed && |r.left| == |kept| + |round| ==> r.grid == g && r.left == kept + round
    decreases |round|
  {
    if round != [] {
      var v := round[0];
      var a := Anchor(g, v.ConnectedVertexIDs);
      if a.None? {
        IdleRoundChangesNothing(g, round[1..], kept + [v]);
        assert (kept + [v]) + round[1..] == kept + round;
      } else {
        AnchorInRange(g, v.ConnectedVertexIDs);
        var p := PlaceAt(g, v, a.value);
        if p.ok {
          var r := Round(p.grid, round[1..], kept);
          assert |r.left| <= |kept| + |round| - 1;
        }
      }
    }
  }

  // ----- MakeTheMapSquare -----

  /** `MakeTheMapSquare()`: half the difference added on each side of the shorter dimension
      (C#'s division of a positive difference by 2). */
  function Squared(g: Grid): Grid {
    var neededRows := ColsOf(g) - RowsOf(g);
    var neededCols := RowsOf(g) - ColsOf(g);
    if neededRows > 0 then WithRowsBottom(WithRowsTop(g, neededRows / 2), neededRows / 2)
    else if neededCols > 0 then WithColsRight(WithColsLeft(g, neededCols / 2), neededCols / 2)
    else g
  }

  /** A map with at least one row comes out square or one short of square. */
  lemma SquaredIsNearlySquare(g: Grid)
    requires Rectangular(g) && RowsOf(g) > 0
    ensures var s := Squared(g);
      Rectangular(s) && 0 <= Abs(RowsOf(s) - ColsOf(s)) <= 1 &&
      (RowsOf(s) - ColsOf(s)) % 2 == (RowsOf(g) - ColsOf(g)) % 2
  {
    var d := ColsOf(g) - RowsOf(g);
    if d > 0 {
      TopGrowth(g, d / 2);
      BottomGrowth(WithRowsTop(g, d / 2), d / 2);
    } else if -d > 0 {
      LeftGrowth(g, -d / 2);
      RightGrowth(WithColsLeft(g, -d / 2), -d / 2);
    }
  }
}
