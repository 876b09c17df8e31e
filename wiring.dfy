/** The routing stage of Graph.cs (`GenerateMapPaths`, `ProcessMissingConnections`): what
    drawing the routes may do to the map, what joining one pair of vertices does to their two
    missing lists, the ceilings the sweeps run under, and the fact, kept from the parsed
    vertices through every layout step, that no vertex cell waits for a route to itself. */
module Wiring {
  import opened Common
  import opened Sequences
  import opened MapItems
  import opened GridMap
  import opened Vertices
  import opened Layout
  import opened Placement
  import opened Routing
  import opened Routes

  // ----- no cell waits for itself -----

  /** No cell lists its own ID among the connections still to draw. Routing such a cell would
      unlink the same list node twice, leaving the list's length one short. */
  ghost predicate NoSelfMissing(g: Grid) {
    forall y, x :: 0 <= y < |g| && 0 <= x < |g[y]| ==> g[y][x].ID !in g[y][x].MissingConnections
  }

  /** A vertex without a self-loop keeps none once part of its neighbours are removed. */
  lemma ShrunkNoSelf(id: char, conns: seq<char>, missing: seq<char>)
    requires id !in conns && multiset(missing) <= multiset(conns)
    ensures id !in missing
  {
    assert multiset(conns)[id] == 0;
    assert multiset(missing)[id] == 0;
  }

  /** No cell of the backbone row of a path without self-loops waits for itself. */
  lemma BackboneCellNoSelf(p: seq<Vertex>, x: int)
    requires NoSelfLoops(p) && p != [] && 0 <= x < |BackboneRow(p)|
    ensures BackboneRow(p)[x].ID !in BackboneRow(p)[x].MissingConnections
  {
    var i := x / 2;
    if x % 2 == 0 {
      assert x == 2 * i;
      BackboneVertexCell(p, i);
      BackboneMissingShrinks(p, i);
      assert p[i] in p;
      ShrunkNoSelf(p[i].ID, p[i].ConnectedVertexIDs, BackboneMissing(p, i));
    } else {
      assert x == 2 * i + 1;
      BackbonePathCell(p, i);
    }
  }

  /** The backbone row of a path without self-loops has no cell waiting for itself. */
  lemma BackboneNoSelfMissing(p: seq<Vertex>)
    requires NoSelfLoops(p)
    ensures NoSelfMissing(if p == [] then [] else [BackboneRow(p)])
  {
    if p != [] {
      var row := BackboneRow(p);
      forall x | 0 <= x < |row| ensures row[x].ID !in row[x].MissingConnections {
        BackboneCellNoSelf(p, x);
      }
    }
  }

  /** Growing the map at any edge adds only Empty cells, which wait for nothing. */
  lemma GrowthNoSelfMissing(g: Grid, n: nat)
    requires Rectangular(g) && NoSelfMissing(g)
    ensures NoSelfMissing(WithRowsBottom(g, n)) && NoSelfMissing(WithRowsTop(g, n))
    ensures NoSelfMissing(WithColsRight(g, n)) && NoSelfMissing(WithColsLeft(g, n))
  {
    BottomGrowth(g, n);
    TopGrowth(g, n);
    RightGrowth(g, n);
    LeftGrowth(g, n);
  }

  lemma {:induction false} RowsBelowNoSelfMissing(g: Grid, pos: Coordinate)
    requires Rectangular(g) && NoSelfMissing(g) && 0 <= pos.X < ColsOf(g) && pos.Y >= 0
    ensures NoSelfMissing(RowsBelow(g, pos))
    decreases pos.Y - |g|
  {
    if !InBounds(g, pos) {
      BottomGrowth(g, 2);
      GrowthNoSelfMissing(g, 2);
      RowsBelowNoSelfMissing(WithRowsBottom(g, 2), pos);
    }
  }

  lemma MakeRoomNoSelfMissing(g: Grid, pos: Coordinate)
    requires Rectangular(g) && NoSelfMissing(g)
    ensures NoSelfMissing(MakeRoom(g, pos).grid)
  {
    var s1 := RoomBelow(g, pos);
    RoomSteps(g, pos);
    GrowthNoSelfMissing(g, 2);
    var s2 := RoomAbove(s1.grid, s1.pos);
    RoomSteps(s1.grid, s1.pos);
    GrowthNoSelfMissing(s1.grid, 2);
    var s3 := RoomRight(s2.grid, s2.pos);
    RoomSteps(s2.grid, s2.pos);
    GrowthNoSelfMissing(s2.grid, 2);
    RoomSteps(s3.grid, s3.pos);
    GrowthNoSelfMissing(s3.grid, 2);
  }

  lemma TargetNoSelfMissing(g: Grid, anchor: Coordinate)
    requires Rectangular(g) && NoSelfMissing(g) && 0 <= anchor.X < ColsOf(g) && anchor.Y >= VerticalOffset
    ensures NoSelfMissing(Target(g, anchor).grid)
  {
    RowsBelowNoSelfMissing(g, anchor);
    var g1: Grid := RowsBelow(g, anchor);
    if g1[anchor.Y][anchor.X].Status != EmptyCell {
      TargetMoved(g, anchor);
      MakeRoomNoSelfMissing(g1, Coordinate(anchor.Y - VerticalOffset, anchor.X));
    } else {
      TargetKept(g, anchor);
    }
  }

  lemma MarkNoSelfMissing(g: Grid, pos: Coordinate, v: Vertex)
    requires Rectangular(g) && NoSelfMissing(g) && InBounds(g, pos) && v.ID !in v.ConnectedVertexIDs
    ensures NoSelfMissing(Mark(g, pos, v))
  {
    MarkOnly(g, pos, v);
    var r: Grid := Mark(g, pos, v);
    forall y, x | 0 <= y < |r| && 0 <= x < |r[y]| ensures r[y][x].ID !in r[y][x].MissingConnections {
      if Coordinate(y, x) != pos {
        assert r[y][x] == g[y][x];
      }
    }
  }

  /** Placing a vertex without a self-loop keeps every cell from waiting for itself. */
  lemma PlaceAtNoSelfMissing(g: Grid, v: Vertex, anchor: Coordinate)
    requires Rectangular(g) && NoSelfMissing(g) && 0 <= anchor.X < ColsOf(g) && anchor.Y >= VerticalOffset
    requires v.ID !in v.ConnectedVertexIDs
    ensures NoSelfMissing(PlaceAt(g, v, anchor).grid)
  {
    TargetNoSelfMissing(g, anchor);
    TargetShape(g, anchor);
    var t := Target(g, anchor);
    if t.pos != NotFound {
      MarkNoSelfMissing(t.grid, t.pos, v);
    }
  }

  /** The vertices a round leaves missed are among those it was given. */
  lemma {:induction false} RoundLeavesGiven(g: Grid, round: seq<Vertex>, kept: seq<Vertex>)
    requires Rectangular(g)
    ensures forall u :: u in Round(g, round, kept).left ==> u in kept || u in round
    decreases |round|
  {
    if round != [] {
      var v := round[0];
      var a := Anchor(g, v.ConnectedVertexIDs);
      if a.None? {
        RoundLeavesGiven(g, round[1..], kept + [v]);
      } else {
        AnchorInRange(g, v.ConnectedVertexIDs);
        var p := PlaceAt(g, v, a.value);
        if p.ok {
          RoundLeavesGiven(p.grid, round[1..], kept);
        }
      }
    }
  }

  lemma {:induction false} RoundNoSelfMissing(g: Grid, round: seq<Vertex>, kept: seq<Vertex>)
    requires Rectangular(g) && NoSelfMissing(g) && NoSelfLoops(round)
    ensures NoSelfMissing(Round(g, round, kept).grid)
    decreases |round|
  {
    if round != [] {
      var v := round[0];
      assert v in round;
      assert NoSelfLoops(round[1..]) by {
        forall u | u in round[1..] ensures u.ID !in u.ConnectedVertexIDs {
          assert u in round;
        }
      }
      var a := Anchor(g, v.ConnectedVertexIDs);
      if a.None? {
        RoundNoSelfMissing(g, round[1..], kept + [v]);
      } else {
        AnchorInRange(g, v.ConnectedVertexIDs);
        PlaceAtNoSelfMissing(g, v, a.value);
        var p := PlaceAt(g, v, a.value);
        if p.ok {
          RoundNoSelfMissing(p.grid, round[1..], kept);
        }
      }
    }
  }

  /** `AddMissedVertices` keeps every cell from waiting for itself when no missed vertex has a
      self-loop. */
  lemma {:induction false} RoundsNoSelfMissing(g: Grid, missed: seq<Vertex>)
    requires Rectangular(g) && NoSelfMissing(g) && NoSelfLoops(missed)
    ensures NoSelfMissing(Rounds(g, missed).grid)
    decreases |missed|
  {
    if missed != [] {
      RoundNoSelfMissing(g, missed, []);
      var r := Round(g, missed, []);
      if !r.failed && |r.left| != |missed| {
        RoundLeavesGiven(g, missed, []);
        RoundsNoSelfMissing(r.grid, r.left);
      }
    }
  }

  lemma BorderNoSelfMissing(g: Grid, w: nat)
    requires Rectangular(g) && NoSelfMissing(g)
    ensures NoSelfMissing(WithBorder(g, w))
  {
    BorderGrowth(g, w);
  }

  lemma SquaredNoSelfMissing(g: Grid)
    requires Rectangular(g) && NoSelfMissing(g)
    ensures NoSelfMissing(Squared(g))
  {
    var d := ColsOf(g) - RowsOf(g);
    if d > 0 {
      GrowthNoSelfMissing(g, d / 2);
      TopGrowth(g, d / 2);
      GrowthNoSelfMissing(WithRowsTop(g, d / 2), d / 2);
    } else if -d > 0 {
      GrowthNoSelfMissing(g, -d / 2);
      LeftGrowth(g, -d / 2);
      GrowthNoSelfMissing(WithColsLeft(g, -d / 2), -d / 2);
    }
  }

  // ----- what drawing routes may change -----

  /** What routing may do to one cell: a route turns an Empty cell into a Path cell with some
      shape, and joined pairs leave the missing list; the ID and the full neighbour list
      never change, and nothing is ever added to a missing list. */
  ghost predicate CellWired(a: MapItem, b: MapItem) {
    b.ID == a.ID && b.Connections == a.Connections &&
    multiset(b.MissingConnections) <= multiset(a.MissingConnections) &&
    ((b.Status == a.Status && b.Segment == a.Segment) || (a.Status == EmptyCell && b.Status == PathCell))
  }

  /** h is g after some routing: same dimensions, every cell changed only as `CellWired`
      allows. */
  ghost predicate Wired(g: Grid, h: Grid) {
    Rectangular(g) && Rectangular(h) && |h| == |g| && ColsOf(h) == ColsOf(g) &&
    forall y, x :: 0 <= y < |g| && 0 <= x < ColsOf(g) ==> CellWired(g[y][x], h[y][x])
  }

  /** Routing steps compose. */
  lemma WiredTrans(g: Grid, h: Grid, k: Grid)
    requires Wired(g, h) && Wired(h, k)
    ensures Wired(g, k)
  {
    forall y, x | 0 <= y < |g| && 0 <= x < ColsOf(g) ensures CellWired(g[y][x], k[y][x]) {
      assert CellWired(g[y][x], h[y][x]) && CellWired(h[y][x], k[y][x]);
    }
  }

  /** Routing keeps every cell from waiting for itself: missing lists only lose entries. */
  lemma WiredNoSelfMissing(g: Grid, h: Grid)
    requires Wired(g, h) && NoSelfMissing(g)
    ensures NoSelfMissing(h)
  {
    forall y, x | 0 <= y < |h| && 0 <= x < |h[y]| ensures h[y][x].ID !in h[y][x].MissingConnections {
      assert CellWired(g[y][x], h[y][x]);
      ShrunkNoSelf(g[y][x].ID, g[y][x].MissingConnections, h[y][x].MissingConnections);
    }
  }

  lemma {:induction false} RowVerticesKept(a: seq<MapItem>, b: seq<MapItem>, y: int, from: nat)
    requires |a| == |b| && from <= |a|
    requires forall x :: 0 <= x < |a| ==> (a[x].Status == VertexCell <==> b[x].Status == VertexCell)
    ensures VertexCoordsInRow(a, y, from) == VertexCoordsInRow(b, y, from)
    decreases |a| - from
  {
    if from < |a| {
      RowVerticesKept(a, b, y, from + 1);
    }
  }

  lemma {:induction false} GridVerticesKept(g: Grid, h: Grid, from: nat)
    requires Wired(g, h) && from <= |g|
    ensures VertexCoords(g, from) == VertexCoords(h, from)
    decreases |g| - from
  {
    if from < |g| {
      forall x | 0 <= x < |g[from]| ensures g[from][x].Status == VertexCell <==> h[from][x].Status == VertexCell {
        assert CellWired(g[from][x], h[from][x]);
      }
      RowVerticesKept(g[from], h[from], from, 0);
      GridVerticesKept(g, h, from + 1);
    }
  }

  /** Routing neither creates nor removes a vertex cell, so the vertex list taken before the
      sweeps stays the list of vertex cells throughout. */
  lemma WiredKeepsVertices(g: Grid, h: Grid)
    requires Wired(g, h)
    ensures VertexCoords(h, 0) == VertexCoords(g, 0)
  {
    GridVerticesKept(g, h, 0);
  }

  // ----- joining one pair -----

  /** The map once a route is drawn into it: `Painted` at every cell. */
  function Drawn(g: Grid, route: seq<Coordinate>): (h: Grid)
    requires Rectangular(g)
    ensures |h| == |g| && forall y :: 0 <= y < |g| ==> |h[y]| == ColsOf(g)
  {
    seq(|g|, y requires 0 <= y < |g| =>
      seq(ColsOf(g), x requires 0 <= x < ColsOf(g) => Painted(g, route, Coordinate(y, x))))
  }

  /** A map painted cell by cell along a route is `Drawn`. */
  lemma DrawnExact(g: Grid, h: Grid, route: seq<Coordinate>)
    requires Rectangular(g) && Rectangular(h) && |h| == |g| && ColsOf(h) == ColsOf(g)
    requires forall y, x :: 0 <= y < |g| && 0 <= x < ColsOf(g) ==> h[y][x] == Painted(g, route, Coordinate(y, x))
    ensures h == Drawn(g, route)
  {
    var d := Drawn(g, route);
    forall y | 0 <= y < |g| ensures h[y] == d[y] {
      assert |h[y]| == |d[y]|;
      forall x | 0 <= x < |h[y]| ensures h[y][x] == d[y][x] {
      }
    }
  }

  /** Drawing a route is routing: only Empty cells change, into Path cells. */
  lemma DrawnWired(g: Grid, route: seq<Coordinate>)
    requires Rectangular(g)
    ensures Wired(g, Drawn(g, route))
  {
    var h := Drawn(g, route);
    if |g| > 0 {
      assert ColsOf(h) == |h[0]|;
    }
    forall y, x | 0 <= y < |g| && 0 <= x < ColsOf(g) ensures CellWired(g[y][x], h[y][x]) {
      var item := Painted(g, route, Coordinate(y, x));
      assert h[y][x] == item;
      var cell := g[y][x];
      var k := IndexOf(route, Coordinate(y, x));
      if !(1 <= k && cell.Status == EmptyCell) {
        assert item == cell;
      }
    }
  }

  /** g with the cell at c replaced. */
  function WithCell(g: Grid, c: Coordinate, item: MapItem): (h: Grid)
    requires Rectangular(g) && InBounds(g, c)
    ensures |h| == |g| && forall y :: 0 <= y < |g| ==> |h[y]| == |g[y]|
  {
    g[c.Y := g[c.Y][c.X := item]]
  }

  /** Replacing one cell as routing may is routing, and leaves every other cell as it was. */
  lemma WithCellWired(g: Grid, c: Coordinate, item: MapItem)
    requires Rectangular(g) && InBounds(g, c) && CellWired(g[c.Y][c.X], item)
    ensures var h := WithCell(g, c, item);
      Wired(g, h) && h[c.Y][c.X] == item &&
      forall y, x :: 0 <= y < |g| && 0 <= x < ColsOf(g) && Coordinate(y, x) != c ==> h[y][x] == g[y][x]
  {
    var h := WithCell(g, c, item);
    assert ColsOf(h) == ColsOf(g) by {
      assert |h[0]| == |g[0]|;
    }
  }

  /** The target's list once it drops the start's ID (`Remove`: the first equal entry). */
  function TargetTicked(g: Grid, at: Coordinate, target: Coordinate): Grid
    requires Rectangular(g) && InBounds(g, at) && InBounds(g, target)
  {
    var t := g[target.Y][target.X];
    WithCell(g, target, t.(MissingConnections := RemovedFirst(t.MissingConnections, g[at.Y][at.X].ID)))
  }

  /** The two list updates once a route is accepted: the target drops the start's ID and then
      the start drops the entry at position p (its `RemoveByNode`). */
  function Ticked(g: Grid, at: Coordinate, target: Coordinate, p: int): Grid
    requires Rectangular(g) && InBounds(g, at) && InBounds(g, target) && at != target
    requires 0 <= p < |g[at.Y][at.X].MissingConnections|
  {
    var g1 := TargetTicked(g, at, target);
    assert Rectangular(g1) && g1[at.Y][at.X] == g[at.Y][at.X] by {
      var t := g[target.Y][target.X];
      RemovedFirstShrinks(t.MissingConnections, g[at.Y][at.X].ID);
      WithCellWired(g, target, t.(MissingConnections := RemovedFirst(t.MissingConnections, g[at.Y][at.X].ID)));
    }
    var s := g1[at.Y][at.X];
    WithCell(g1, at, s.(MissingConnections := RemovedAt(s.MissingConnections, p)))
  }

  lemma RemovedAtMultiset<T>(s: seq<T>, p: int)
    requires 0 <= p < |s|
    ensures multiset(RemovedAt(s, p)) == multiset(s) - multiset{s[p]}
  {
    assert s == s[..p] + [s[p]] + s[p + 1..];
    assert RemovedAt(s, p) == s[..p] + s[p + 1..];
  }

  /** Joining a pair takes the connection off both ends: the start loses exactly the entry it
      routed, the target loses one copy of the start's ID if it lists it, and no other cell
      changes. */
  lemma TickedPair(g: Grid, at: Coordinate, target: Coordinate, p: int)
    requires Rectangular(g) && InBounds(g, at) && InBounds(g, target) && at != target
    requires 0 <= p < |g[at.Y][at.X].MissingConnections|
    ensures var h := Ticked(g, at, target, p);
      var s := g[at.Y][at.X].MissingConnections;
      var t := g[target.Y][target.X].MissingConnections;
      Wired(g, h) &&
      multiset(h[at.Y][at.X].MissingConnections) == multiset(s) - multiset{s[p]} &&
      multiset(h[target.Y][target.X].MissingConnections) ==
        multiset(t) - (if g[at.Y][at.X].ID in t then multiset{g[at.Y][at.X].ID} else multiset{}) &&
      forall y, x :: 0 <= y < |g| && 0 <= x < ColsOf(g) && Coordinate(y, x) != at && Coordinate(y, x) != target ==>
        h[y][x] == g[y][x]
  {
    var s := g[at.Y][at.X].MissingConnections;
    var tc := g[target.Y][target.X];
    var id := g[at.Y][at.X].ID;
    RemovedFirstDropsOne(tc.MissingConnections, id);
    RemovedFirstShrinks(tc.MissingConnections, id);
    var g1: Grid := TargetTicked(g, at, target);
    WithCellWired(g, target, tc.(MissingConnections := RemovedFirst(tc.MissingConnections, id)));
    var sc := g1[at.Y][at.X];
    RemovedAtMultiset(s, p);
    WithCellWired(g1, at, sc.(MissingConnections := RemovedAt(s, p)));
    WiredTrans(g, g1, Ticked(g, at, target, p));
  }

  /** A route the sweep accepts, with a ceiling below the cost of any occupied cell, runs over
      Empty cells only between its two ends: it never crosses a vertex or an earlier route. */
  lemma AcceptedRouteAvoidsCells(g: Grid, target: Coordinate, route: seq<Coordinate>, costLimit: int)
    requires Rectangular(g) && route != [] && route[0] == target && Distinct(route)
    requires forall k :: 0 <= k < |route| ==> InBounds(g, route[k])
    requires RouteCost(g, target, route) <= costLimit < Blocked
    ensures forall k :: 0 < k < |route| - 1 ==> g[route[k].Y][route[k].X].Status == EmptyCell
  {
    RouteThroughEmpty(g, target, route);
    forall k | 0 < k < |route| - 1 ensures g[route[k].Y][route[k].X].Status == EmptyCell {
      assert route[k] != route[0];
    }
  }

  // ----- the sweeps -----

  /** The cost ceilings the sweeps run under, from `limit` on: one every 4 while below
      maxCost. */
  function CeilingsFrom(limit: int, maxCost: int): seq<int>
    decreases maxCost - limit
  {
    if limit < maxCost then [limit] + CeilingsFrom(limit + 4, maxCost) else []
  }

  /** The ceiling bound of `GenerateMapPaths`: the map's perimeter, at most 10000. */
  function MaxCost(g: Grid): int {
    Min((ColsOf(g) + RowsOf(g)) * 2, 10000)
  }

  /** The ceilings are limit, limit + 4, limit + 8, ..., each below maxCost, and the next one
      would not be. */
  lemma {:induction false} CeilingsFromAre(limit: int, maxCost: int)
    ensures var c := CeilingsFrom(limit, maxCost);
      (forall k :: 0 <= k < |c| ==> c[k] == limit + 4 * k && c[k] < maxCost) &&
      limit + 4 * |c| >= maxCost && (|c| == 0 || limit + 4 * (|c| - 1) < maxCost)
    decreases maxCost - limit
  {
    if limit < maxCost {
      CeilingsFromAre(limit + 4, maxCost);
      var c := CeilingsFrom(limit, maxCost);
      forall k | 0 <= k < |c| ensures c[k] == limit + 4 * k && c[k] < maxCost {
        if k > 0 {
          assert c[k] == CeilingsFrom(limit + 4, maxCost)[k - 1];
        }
      }
    }
  }

  /** Every ceiling `GenerateMapPaths` tries is 2 + 4k, at most 9998, and so below the cost
      of any occupied cell: a route never crosses a vertex or another route. */
  lemma CeilingsBelowBlocked(g: Grid)
    ensures var c := CeilingsFrom(2, MaxCost(g));
      forall k :: 0 <= k < |c| ==> c[k] == 2 + 4 * k && 2 <= c[k] < Blocked
  {
    CeilingsFromAre(2, MaxCost(g));
  }

  /** Every vertex cell has all its connections drawn. */
  ghost predicate AllJoined(g: Grid) {
    forall c :: c in VertexCoords(g, 0) ==> 0 <= c.Y < |g| && 0 <= c.X < |g[c.Y]| && g[c.Y][c.X].MissingConnections == []
  }

  /** The vertex list taken before the sweeps still lies on the map after any routing. */
  lemma VertexListInBounds(g: Grid, h: Grid)
    requires Wired(g, h)
    ensures forall c :: c in VertexCoords(g, 0) ==> InBounds(h, c)
  {
    VertexCoordsExact(g, 0);
  }

  /** The cells at coords all have empty missing lists. */
  ghost predicate ListsEmptyAt(g: Grid, coords: seq<Coordinate>) {
    forall k :: 0 <= k < |coords| ==>
      0 <= coords[k].Y < |g| && 0 <= coords[k].X < |g[coords[k].Y]| &&
      g[coords[k].Y][coords[k].X].MissingConnections == []
  }

  /** A sweep that finds the list of every vertex cell taken before the sweeps empty leaves
      the map with every vertex cell joined. */
  lemma EmptyListsAllJoined(g: Grid, h: Grid, coords: seq<Coordinate>)
    requires Wired(g, h) && coords == VertexCoords(g, 0) && ListsEmptyAt(h, coords)
    ensures AllJoined(h)
  {
    WiredKeepsVertices(g, h);
    forall c | c in VertexCoords(h, 0)
      ensures 0 <= c.Y < |h| && 0 <= c.X < |h[c.Y]| && h[c.Y][c.X].MissingConnections == []
    {
      var k :| 0 <= k < |coords| && coords[k] == c;
    }
  }

  /** The ceilings the sweeps have run under so far, extended by the next one. */
  lemma CeilingsNext(maxCost: int, done: seq<int>, costLimit: int)
    requires var all := CeilingsFrom(2, maxCost);
      |done| <= |all| && done == all[..|done|] && costLimit == 2 + 4 * |done| && costLimit < maxCost
    ensures var all := CeilingsFrom(2, maxCost);
      |done| < |all| && done + [costLimit] == all[..|done| + 1]
  {
    var all := CeilingsFrom(2, maxCost);
    CeilingsFromAre(2, maxCost);
    assert all[..|done| + 1] == all[..|done|] + [all[|done|]];
  }

  /** The sweeps stop for want of ceilings only once every ceiling has been tried. */
  lemma CeilingsExhausted(maxCost: int, done: seq<int>, costLimit: int)
    requires var all := CeilingsFrom(2, maxCost);
      |done| <= |all| && done == all[..|done|] && costLimit == 2 + 4 * |done| && costLimit >= maxCost
    ensures done == CeilingsFrom(2, maxCost)
  {
    var all := CeilingsFrom(2, maxCost);
    CeilingsFromAre(2, maxCost);
    assert all[..|all|] == all;
  }
}
