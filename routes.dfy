/** The routes of Graph.cs: the walk back along the predecessor links of the table `Dijkstra`
    returns (`BacktrackDijkstraPath`), what such a route is on the grid, and how a route is drawn
    into the map, one connector shape per Empty cell. */
module Routes {
  import opened Common
  import opened Sequences
  import opened PathSegments
  import opened MapItems
  import opened GridMap
  import opened PathClassifier
  import opened Routing

  /** Where in the table the predecessor of entry i has its first entry: -1 if it has no
      predecessor or the predecessor has no entry. */
  function PrevIndex(t: seq<DijkstraInfo>, i: int): (j: int)
    requires 0 <= i < |t|
    ensures -1 <= j < |t|
    ensures j != -1 ==> t[i].PreviousCoord.Some? && t[j].Coord == t[i].PreviousCoord.value
  {
    if t[i].PreviousCoord.None? then -1 else IndexOfCoord(t, t[i].PreviousCoord.value)
  }

  /** Every entry with a predecessor names a cell whose first entry comes earlier in the table,
      or a cell without an entry. The walk back along such a table ends. */
  predicate PointsBack(t: seq<DijkstraInfo>) {
    forall i {:trigger PrevIndex(t, i)} :: 0 <= i < |t| ==> PrevIndex(t, i) < i
  }

  /** `Linked` restated along the predecessor links: the start first, and every later entry
      one step, to a neighbouring cell, from an earlier entry whose cost it extends. */
  ghost predicate LinkedBack(g: Grid, target: Coordinate, start: Coordinate, t: seq<DijkstraInfo>) {
    Rectangular(g) && (t != [] ==> t[0] == DijkstraInfo(start, 0, None) && InBounds(g, start)) &&
    forall i {:trigger PrevIndex(t, i)} :: 0 < i < |t| ==>
      0 <= PrevIndex(t, i) < i && InBounds(g, t[i].Coord) &&
      Adjacent8(t[PrevIndex(t, i)].Coord, t[i].Coord) &&
      t[i].Cost == t[PrevIndex(t, i)].Cost + StepCost(g, target, t[PrevIndex(t, i)].Coord, t[i].Coord)
  }

  function Prepend(c: Coordinate, r: Result<seq<Coordinate>>): Result<seq<Coordinate>> {
    match r
    case Ok(p) => Ok([c] + p)
    case Err(e) => Err(e)
  }

  function Then(path: seq<Coordinate>, r: Result<seq<Coordinate>>): Result<seq<Coordinate>> {
    match r
    case Ok(p) => Ok(path + p)
    case Err(e) => Err(e)
  }

  lemma ThenPrepend(path: seq<Coordinate>, c: Coordinate, r: Result<seq<Coordinate>>)
    ensures Then(path, Prepend(c, r)) == Then(path + [c], r)
  {
    if r.Ok? {
      assert path + ([c] + r.value) == (path + [c]) + r.value;
    }
  }

  lemma ThenEmpty(r: Result<seq<Coordinate>>)
    ensures Then([], r) == r
  {
    if r.Ok? {
      assert [] + r.value == r.value;
    }
  }

  lemma ThenNothing(path: seq<Coordinate>)
    ensures Then(path, Ok([])) == Ok(path)
  {
    assert path + [] == path;
  }

  /** The cells met walking back from entry i: its cell, then those met from the entry of its
      predecessor; a predecessor without an entry dereferences a null node. */
  function Backtracked(t: seq<DijkstraInfo>, i: int): Result<seq<Coordinate>>
    requires PointsBack(t) && 0 <= i < |t|
    decreases i
  {
    if t[i].PreviousCoord.None? then Ok([t[i].Coord])
    else
      var j := PrevIndex(t, i);
      if j == -1 then Err(NullReference) else Prepend(t[i].Coord, Backtracked(t, j))
  }

  /** The walk back from the entry for cell c. */
  function BacktrackFrom(t: seq<DijkstraInfo>, c: Coordinate): Result<seq<Coordinate>>
    requires PointsBack(t)
  {
    var i := IndexOfCoord(t, c);
    if i == -1 then Err(NullReference) else Backtracked(t, i)
  }

  /** The walk from c is c followed by the walk from the predecessor of c's entry. */
  lemma BacktrackFromStep(t: seq<DijkstraInfo>, c: Coordinate)
    requires PointsBack(t) && IndexOfCoord(t, c) != -1
    ensures var e := t[IndexOfCoord(t, c)];
      BacktrackFrom(t, c) ==
        Prepend(c, if e.PreviousCoord.None? then Ok([]) else BacktrackFrom(t, e.PreviousCoord.value))
  {
    var i := IndexOfCoord(t, c);
    if t[i].PreviousCoord.Some? {
      var j := PrevIndex(t, i);
      assert j == IndexOfCoord(t, t[i].PreviousCoord.value);
      assert BacktrackFrom(t, t[i].PreviousCoord.value) == if j == -1 then Err(NullReference) else Backtracked(t, j);
    } else {
      assert [c] + [] == [c];
    }
  }

  /** `BacktrackDijkstraPath(dijkstraInfos, from)`: the cells from `from`'s cell back to the
      start, looking each one's entry up in the table. */
  method BacktrackDijkstraPath(dijkstraInfos: seq<DijkstraInfo>, from: DijkstraInfo) returns (r: Result<seq<Coordinate>>)
    requires PointsBack(dijkstraInfos)
    ensures r == BacktrackFrom(dijkstraInfos, from.Coord)
  {
    var path := [];
    var coord: Option<Coordinate> := Some(from.Coord);
    ghost var bound := |dijkstraInfos|;
    ThenEmpty(BacktrackFrom(dijkstraInfos, from.Coord));
    while coord.Some?
      invariant coord.Some? ==> IndexOfCoord(dijkstraInfos, coord.value) < bound
      invariant BacktrackFrom(dijkstraInfos, from.Coord) ==
        Then(path, if coord.None? then Ok([]) else BacktrackFrom(dijkstraInfos, coord.value))
      decreases if coord.Some? then bound + 1 else 0
    {
      var c := coord.value;
      var i := IndexOfCoord(dijkstraInfos, c);
      if i == -1 {
        return Err(NullReference);
      }
      BacktrackFromStep(dijkstraInfos, c);
      ThenPrepend(path, c, if dijkstraInfos[i].PreviousCoord.None? then Ok([])
        else BacktrackFrom(dijkstraInfos, dijkstraInfos[i].PreviousCoord.value));
      path := path + [c];
      coord := dijkstraInfos[i].PreviousCoord;
      bound := i;
    }
    ThenNothing(path);
    return Ok(path);
  }

  /** The visited table `Dijkstra` returns is linked back along its predecessors. */
  lemma LinkedIsLinkedBack(g: Grid, target: Coordinate, start: Coordinate, v: seq<DijkstraInfo>)
    requires Rectangular(g) && Linked(g, target, start, v)
    ensures LinkedBack(g, target, start, v)
  {
    forall i | 0 < i < |v|
      ensures 0 <= PrevIndex(v, i) < i && InBounds(g, v[i].Coord) &&
        Adjacent8(v[PrevIndex(v, i)].Coord, v[i].Coord) &&
        v[i].Cost == v[PrevIndex(v, i)].Cost + StepCost(g, target, v[PrevIndex(v, i)].Coord, v[i].Coord)
    {
      assert ReachedFrom(g, target, v[i], v[..i]);
      IndexOfCoordPrefix(v, i, v[i].PreviousCoord.value);
      var j := PrevIndex(v, i);
      assert v[..i][j] == v[j];
    }
  }

  lemma LinkedBackPointsBack(g: Grid, target: Coordinate, start: Coordinate, v: seq<DijkstraInfo>)
    requires LinkedBack(g, target, start, v)
    ensures PointsBack(v)
  {
    forall i | 0 <= i < |v| ensures PrevIndex(v, i) < i {
      if i == 0 {
        assert v[0].PreviousCoord.None?;
      }
    }
  }

  lemma LinkedBackInBounds(g: Grid, target: Coordinate, start: Coordinate, v: seq<DijkstraInfo>)
    requires LinkedBack(g, target, start, v)
    ensures forall k :: 0 <= k < |v| ==> InBounds(g, v[k].Coord)
  {
    forall k | 0 <= k < |v| ensures InBounds(g, v[k].Coord) {
      if k > 0 {
        assert PrevIndex(v, k) >= 0;
      }
    }
  }

  /** Each cell of a route is one of the eight neighbours of the one before. */
  ghost predicate StepsAdjacent(r: seq<Coordinate>) {
    forall k, l :: 0 <= k && l == k + 1 && l < |r| ==> Adjacent8(r[k], r[l])
  }

  /** What a route walked back from its end costs: each cell entered costs its own cost
      (nothing for the target) plus the direction of the step. */
  function RouteCost(g: Grid, target: Coordinate, r: seq<Coordinate>): int
    requires Rectangular(g) && forall k :: 0 <= k < |r| ==> InBounds(g, r[k])
    decreases |r|
  {
    if |r| <= 1 then 0 else StepCost(g, target, r[1], r[0]) + RouteCost(g, target, r[1..])
  }

  /** Every cell of r has an entry in t, at index at most i. */
  predicate EntriesWithin(t: seq<DijkstraInfo>, r: seq<Coordinate>, i: int) {
    forall k :: 0 <= k < |r| ==> 0 <= IndexOfCoord(t, r[k]) <= i
  }

  /** The entries of the cells of r come ever earlier in t. */
  predicate EntriesDescend(t: seq<DijkstraInfo>, r: seq<Coordinate>) {
    forall k, l :: 0 <= k < l < |r| ==> IndexOfCoord(t, r[l]) < IndexOfCoord(t, r[k])
  }

  lemma EntriesCons(t: seq<DijkstraInfo>, c: Coordinate, rest: seq<Coordinate>, i: int, j: int)
    requires 0 <= i && IndexOfCoord(t, c) == i && j < i && EntriesWithin(t, rest, j) && EntriesDescend(t, rest)
    ensures EntriesWithin(t, [c] + rest, i) && EntriesDescend(t, [c] + rest)
  {
    var r := [c] + rest;
    forall k | 0 <= k < |r| ensures 0 <= IndexOfCoord(t, r[k]) <= i {
      if k > 0 {
        assert r[k] == rest[k - 1];
      }
    }
    forall k, l | 0 <= k < l < |r| ensures IndexOfCoord(t, r[l]) < IndexOfCoord(t, r[k]) {
      assert r[l] == rest[l - 1];
      if k > 0 {
        assert r[k] == rest[k - 1];
      }
    }
  }

  lemma EntriesDescendDistinct(t: seq<DijkstraInfo>, r: seq<Coordinate>)
    requires EntriesDescend(t, r)
    ensures Distinct(r)
  {
  }

  lemma EntriesInBounds(g: Grid, t: seq<DijkstraInfo>, r: seq<Coordinate>, i: int)
    requires EntriesWithin(t, r, i) && forall k :: 0 <= k < |t| ==> InBounds(g, t[k].Coord)
    ensures forall k :: 0 <= k < |r| ==> InBounds(g, r[k])
  {
    forall k | 0 <= k < |r| ensures InBounds(g, r[k]) {
      assert t[IndexOfCoord(t, r[k])].Coord == r[k];
    }
  }

  lemma AdjacentCons(c: Coordinate, rest: seq<Coordinate>)
    requires rest != [] && Adjacent8(rest[0], c) && StepsAdjacent(rest)
    ensures StepsAdjacent([c] + rest)
  {
    var r := [c] + rest;
    forall k, l | 0 <= k && l == k + 1 && l < |r| ensures Adjacent8(r[k], r[l]) {
      if k > 0 {
        assert r[k] == rest[k - 1] && r[l] == rest[l - 1];
      }
    }
  }

  /** The walk back from entry i succeeds, runs from its cell to the start, and each cell it
      meets has its entry earlier in the table than the cell before. */
  lemma {:induction false} BacktrackedShape(g: Grid, target: Coordinate, start: Coordinate,
                                            t: seq<DijkstraInfo>, i: int)
    requires LinkedBack(g, target, start, t) && DistinctCoords(t) && 0 <= i < |t|
    ensures PointsBack(t) && Backtracked(t, i).Ok?
    ensures var r := Backtracked(t, i).value;
      r != [] && r[0] == t[i].Coord && r[|r| - 1] == start &&
      EntriesWithin(t, r, i) && EntriesDescend(t, r)
    decreases i
  {
    LinkedBackPointsBack(g, target, start, t);
    IndexOfOwnCoord(t, i);
    if i == 0 {
      assert t[0] == DijkstraInfo(start, 0, None);
    } else {
      var j := PrevIndex(t, i);
      assert 0 <= j < i;
      BacktrackedShape(g, target, start, t, j);
      var rest := Backtracked(t, j).value;
      assert Backtracked(t, i) == Ok([t[i].Coord] + rest);
      EntriesCons(t, t[i].Coord, rest, i, j);
    }
  }

  /** The walk back from entry i steps between neighbouring cells of the map, and what its
      steps cost adds up to the cost the entry records. */
  lemma {:induction false} BacktrackedSteps(g: Grid, target: Coordinate, start: Coordinate,
                                            t: seq<DijkstraInfo>, i: int)
    requires LinkedBack(g, target, start, t) && DistinctCoords(t) && 0 <= i < |t|
    ensures PointsBack(t) && Backtracked(t, i).Ok?
    ensures var r := Backtracked(t, i).value;
      (forall k :: 0 <= k < |r| ==> InBounds(g, r[k])) &&
      StepsAdjacent(r) && RouteCost(g, target, r) == t[i].Cost
    decreases i
  {
    BacktrackedShape(g, target, start, t, i);
    LinkedBackInBounds(g, target, start, t);
    var r := Backtracked(t, i).value;
    EntriesInBounds(g, t, r, i);
    if i == 0 {
      assert t[0] == DijkstraInfo(start, 0, None);
    } else {
      var j := PrevIndex(t, i);
      assert 0 <= j < i;
      BacktrackedSteps(g, target, start, t, j);
      BacktrackedShape(g, target, start, t, j);
      var rest := Backtracked(t, j).value;
      assert r == [t[i].Coord] + rest;
      assert r[1..] == rest;
      AdjacentCons(t[i].Coord, rest);
    }
  }

  /** The walk back from any entry of the visited table succeeds and gives a route: from the
      entry's cell to the start, over cells of the map visited no later than the entry, each
      next to the one before, no cell twice, and costing exactly what the entry records. */
  lemma BacktrackedRoute(g: Grid, target: Coordinate, start: Coordinate, t: seq<DijkstraInfo>, i: int)
    requires Rectangular(g) && Linked(g, target, start, t) && DistinctCoords(t) && 0 <= i < |t|
    ensures PointsBack(t) && Backtracked(t, i).Ok?
    ensures var r := Backtracked(t, i).value;
      r != [] && r[0] == t[i].Coord && r[|r| - 1] == start &&
      (forall k :: 0 <= k < |r| ==> InBounds(g, r[k]) && 0 <= IndexOfCoord(t, r[k]) <= i) &&
      StepsAdjacent(r) && Distinct(r) && RouteCost(g, target, r) == t[i].Cost
  {
    LinkedIsLinkedBack(g, target, start, t);
    BacktrackedShape(g, target, start, t, i);
    BacktrackedSteps(g, target, start, t, i);
    EntriesDescendDistinct(t, Backtracked(t, i).value);
  }

  /** Every step of a route costs at least 1, so a route costs at least what entering any one
      of its cells costs. */
  lemma {:induction false} RouteCostCoversEachCell(g: Grid, target: Coordinate, r: seq<Coordinate>, k: int)
    requires Rectangular(g) && forall m :: 0 <= m < |r| ==> InBounds(g, r[m])
    requires 0 <= k < |r| - 1 && r[k] != target
    ensures RouteCost(g, target, r) >= Cost(g[r[k].Y][r[k].X]) + 1
    decreases |r|
  {
    assert r[1..][0] == r[1];
    if k > 0 {
      assert r[1..][k - 1] == r[k];
      RouteCostCoversEachCell(g, target, r[1..], k - 1);
      RouteCostNonNegative(g, target, r[1..]);
    } else {
      RouteCostNonNegative(g, target, r[1..]);
    }
  }

  lemma {:induction false} RouteCostNonNegative(g: Grid, target: Coordinate, r: seq<Coordinate>)
    requires Rectangular(g) && forall m :: 0 <= m < |r| ==> InBounds(g, r[m])
    ensures RouteCost(g, target, r) >= |r| - 1
    decreases |r|
  {
    if |r| > 1 {
      RouteCostNonNegative(g, target, r[1..]);
    }
  }

  /** r is a route on the map from the start (its last cell) back to the target (its first
      cell) that costs no more than the ceiling. */
  ghost predicate RouteWithin(g: Grid, target: Coordinate, start: Coordinate, costLimit: int, r: seq<Coordinate>) {
    Rectangular(g) && r != [] && r[0] == target && r[|r| - 1] == start &&
    (forall k :: 0 <= k < |r| ==> InBounds(g, r[k])) && StepsAdjacent(r) && RouteCost(g, target, r) <= costLimit
  }

  /** A visited table closed under steps within the ceiling holds the first cell of every
      route from its start within the ceiling, at no more than the route's cost. */
  lemma {:induction false} ClosedHoldsRoute(g: Grid, target: Coordinate, start: Coordinate, costLimit: int,
                                            v: seq<DijkstraInfo>, r: seq<Coordinate>)
    requires Closed(g, target, v, costLimit) && v != [] && v[0] == DijkstraInfo(start, 0, None)
    requires r != [] && r[|r| - 1] == start && forall k :: 0 <= k < |r| ==> InBounds(g, r[k])
    requires StepsAdjacent(r) && RouteCost(g, target, r) <= costLimit
    ensures IndexOfCoord(v, r[0]) != -1 && v[IndexOfCoord(v, r[0])].Cost <= RouteCost(g, target, r)
    decreases |r|
  {
    if |r| > 1 {
      var rest := r[1..];
      assert Adjacent8(r[0], r[1]);
      assert forall k, l :: 0 <= k && l == k + 1 && l < |rest| ==> rest[k] == r[k + 1] && rest[l] == r[l + 1];
      assert RouteCost(g, target, r) == StepCost(g, target, r[1], r[0]) + RouteCost(g, target, rest);
      ClosedHoldsRoute(g, target, start, costLimit, v, rest);
      var i := IndexOfCoord(v, r[1]);
      assert v[i].Coord == r[1] && Adjacent8(v[i].Coord, r[0]);
    }
  }

  /** A search that ends without reaching the target still proves the target out of reach:
      whenever some route from the start to the target costs no more than the ceiling, the
      visited table holds the target. */
  lemma SearchComplete(g: Grid, target: Coordinate, start: Coordinate, costLimit: int,
                       v: seq<DijkstraInfo>, r: seq<Coordinate>)
    requires Searched(g, target, start, costLimit, v) && RouteWithin(g, target, start, costLimit, r)
    ensures IndexOfCoord(v, target) != -1
  {
    RouteCostNonNegative(g, target, r);
    if v[|v| - 1].Coord != target {
      ClosedHoldsRoute(g, target, start, costLimit, v, r);
    }
  }

  /** A route cheaper than a blocked cell runs over Empty cells only, apart from its end (the
      target, which costs nothing) and its start (which is never entered). */
  lemma RouteThroughEmpty(g: Grid, target: Coordinate, r: seq<Coordinate>)
    requires Rectangular(g) && forall m :: 0 <= m < |r| ==> InBounds(g, r[m])
    requires RouteCost(g, target, r) < Blocked
    ensures forall k :: 0 <= k < |r| - 1 && r[k] != target ==> g[r[k].Y][r[k].X].Status == EmptyCell
  {
    forall k | 0 <= k < |r| - 1 && r[k] != target ensures g[r[k].Y][r[k].X].Status == EmptyCell {
      RouteCostCoversEachCell(g, target, r, k);
    }
  }

  /** The connector shape of the k-th cell of a route (`CalcOptimalPathSegment` of its list
      node): from the cell before it towards the cell after it, if any. */
  function SegmentAt(route: seq<Coordinate>, k: int): PathSegment
    requires 1 <= k < |route|
  {
    CalcOptimalPathSegment(route[k - 1], route[k], if k + 1 < |route| then Some(route[k + 1]) else None)
  }

  /** The cell at c once a route is drawn: an Empty cell the route passes after its first cell
      becomes a Path cell with the route's shape there; every other cell is kept. */
  function Painted(g: Grid, route: seq<Coordinate>, c: Coordinate): (item: MapItem)
    requires Rectangular(g) && InBounds(g, c)
    ensures item.Status == g[c.Y][c.X].Status || (g[c.Y][c.X].Status == EmptyCell && item.Status == PathCell)
    ensures item.ID == g[c.Y][c.X].ID && item.Connections == g[c.Y][c.X].Connections
    ensures item.MissingConnections == g[c.Y][c.X].MissingConnections
  {
    var cell := g[c.Y][c.X];
    var k := IndexOf(route, c);
    if 1 <= k && cell.Status == EmptyCell then cell.(Segment := SegmentAt(route, k), Status := PathCell)
    else cell
  }

  /** cur is g with the cells of the route before its k-th drawn. */
  ghost predicate PaintedBefore(g: Grid, cur: Grid, route: seq<Coordinate>, k: int) {
    Rectangular(g) && Rectangular(cur) && |cur| == |g| && ColsOf(cur) == ColsOf(g) &&
    forall y, x :: 0 <= y < |g| && 0 <= x < ColsOf(g) ==>
      cur[y][x] == if IndexOf(route, Coordinate(y, x)) < k then Painted(g, route, Coordinate(y, x)) else g[y][x]
  }

  lemma PaintStart(g: Grid, route: seq<Coordinate>)
    requires Rectangular(g)
    ensures PaintedBefore(g, g, route, 1)
  {
  }

  /** Drawing the route's k-th cell extends the drawn part by one cell. */
  lemma PaintStep(g: Grid, cur: Grid, route: seq<Coordinate>, k: int)
    requires PaintedBefore(g, cur, route, k) && Distinct(route) && 1 <= k < |route| && InBounds(g, route[k])
    ensures var c := route[k];
      PaintedBefore(g, if cur[c.Y][c.X].Status == EmptyCell
        then cur[c.Y := cur[c.Y][c.X := cur[c.Y][c.X].(Segment := SegmentAt(route, k), Status := PathCell)]]
        else cur, route, k + 1)
  {
    IndexOfDistinct(route, k);
  }

  /** The loop of `ProcessMissingConnections` that draws a route, from its second cell on. */
  method DrawRoute(m: Map, route: seq<Coordinate>)
    requires m.Valid() && Distinct(route) && forall k :: 0 <= k < |route| ==> InBounds(m.items, route[k])
    modifies m
    ensures m.Valid() && |m.items| == |old(m.items)| && m.Cols() == old(m.Cols())
    ensures forall y, x :: 0 <= y < m.Rows() && 0 <= x < m.Cols() ==>
      m.items[y][x] == Painted(old(m.items), route, Coordinate(y, x))
  {
    ghost var g := m.items;
    PaintStart(g, route);
    var k := 1;
    while k < |route|
      invariant 1 <= k && (k <= |route| || |route| == 0)
      invariant m.Valid() && PaintedBefore(g, m.items, route, k)
    {
      var c := route[k];
      PaintStep(g, m.items, route, k);
      if m.At(c).Status == EmptyCell {
        var segment := SegmentAt(route, k);
        m.Set(c, m.At(c).(Segment := segment, Status := PathCell));
      }
      k := k + 1;
    }
  }
}
