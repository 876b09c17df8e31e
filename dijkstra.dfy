/** The router of Graph.cs: Dijkstra's algorithm over the grid, from a vertex cell towards a
    target coordinate, with a cost ceiling, and the walk back along the predecessor links of
    the visited table. Tables are lists of `DijkstraInfo` entries; two entries are the same
    entry when their coordinates are (`DijkstraInfo.Equals`), so every lookup and removal
    below compares coordinates only. */
module Routing {
  import opened Common
  import opened Sequences
  import opened MapItems
  import opened GridMap
  import opened PathClassifier

  /** int.MaxValue: the cost of a cell not reached yet. */
  const Infinity := 2147483647

  /** One row of the path-cost table: a cell, the cheapest cost found to reach it, and the cell
      it is reached from (null in the program, None here, while there is none). */
  datatype DijkstraInfo = DijkstraInfo(Coord: Coordinate, Cost: int, PreviousCoord: Option<Coordinate>)

  /** `new DijkstraInfo(coord)`: not reached yet. */
  function NewInfo(c: Coordinate): (e: DijkstraInfo)
    ensures e.Coord == c && e.Cost == Infinity && e.PreviousCoord == None
  {
    DijkstraInfo(c, Infinity, None)
  }

  /** The index of the first entry for cell c (`LinkedList.Find` and `Remove`), or -1. */
  function IndexOfCoord(t: seq<DijkstraInfo>, c: Coordinate): (i: int)
    ensures -1 <= i < |t|
    ensures i == -1 <==> forall k :: 0 <= k < |t| ==> t[k].Coord != c
    ensures i != -1 ==> t[i].Coord == c && forall k :: 0 <= k < i ==> t[k].Coord != c
    decreases |t|
  {
    if t == [] then -1
    else if t[0].Coord == c then 0
    else
      var j := IndexOfCoord(t[1..], c);
      assert forall k :: 1 <= k < |t| ==> t[k] == t[1..][k - 1];
      if j == -1 then -1 else j + 1
  }

  predicate DistinctCoords(t: seq<DijkstraInfo>) {
    forall i, j :: 0 <= i < j < |t| ==> t[i].Coord != t[j].Coord
  }

  /** In a table without repeated cells, the lookup of an entry's cell finds that entry. */
  lemma IndexOfOwnCoord(t: seq<DijkstraInfo>, k: int)
    requires DistinctCoords(t) && 0 <= k < |t|
    ensures IndexOfCoord(t, t[k].Coord) == k
  {
  }

  /** A lookup that succeeds in a prefix finds the same entry in the whole table. */
  lemma IndexOfCoordPrefix(t: seq<DijkstraInfo>, n: int, c: Coordinate)
    requires 0 <= n <= |t| && IndexOfCoord(t[..n], c) != -1
    ensures IndexOfCoord(t, c) == IndexOfCoord(t[..n], c)
  {
    var j := IndexOfCoord(t[..n], c);
    assert t[j] == t[..n][j];
    assert forall k :: 0 <= k < j ==> t[k] == t[..n][k];
  }

  /** The table entry `GenerateUnvisitedTable` makes for cell c: cost 0 at the start, not
      reached elsewhere. */
  function InitialEntry(c: Coordinate, start: Coordinate): DijkstraInfo {
    if c == start then DijkstraInfo(c, 0, None) else NewInfo(c)
  }

  /** The entries for the first n cells of row y. */
  function RowTable(y: int, n: nat, start: Coordinate): (r: seq<DijkstraInfo>)
    ensures |r| == n && forall k :: 0 <= k < n ==> r[k] == InitialEntry(Coordinate(y, k), start)
  {
    seq(n, k => InitialEntry(Coordinate(y, k), start))
  }

  /** The entries for the first `rows` rows, `cols` cells each, in row-major order. */
  function InitialTable(rows: nat, cols: nat, start: Coordinate): seq<DijkstraInfo>
    decreases rows
  {
    if rows == 0 then [] else InitialTable(rows - 1, cols, start) + RowTable(rows - 1, cols, start)
  }

  predicate InitialShape(t: seq<DijkstraInfo>, rows: int, cols: int, start: Coordinate) {
    (forall k :: 0 <= k < |t| ==> 0 <= t[k].Coord.Y < rows && 0 <= t[k].Coord.X < cols) &&
    (forall k :: 0 <= k < |t| ==> t[k] == InitialEntry(t[k].Coord, start)) &&
    (forall i, j :: 0 <= i < j < |t| ==> Precedes(t[i].Coord, t[j].Coord))
  }

  /** The initial table holds entries for cells of a rows x cols grid only, in row-major order
      (so no cell twice), none reached from anywhere, costing 0 at the start and Infinity
      everywhere else. */
  lemma {:induction false} InitialTableShape(rows: nat, cols: nat, start: Coordinate)
    ensures InitialShape(InitialTable(rows, cols, start), rows, cols, start)
    decreases rows
  {
    if rows > 0 {
      InitialTableShape(rows - 1, cols, start);
      var a, b := InitialTable(rows - 1, cols, start), RowTable(rows - 1, cols, start);
      assert forall k :: 0 <= k < |a| ==> (a + b)[k] == a[k];
      assert forall k :: |a| <= k < |a + b| ==> (a + b)[k] == b[k - |a|];
      assert InitialTable(rows, cols, start) == a + b;
      forall k | 0 <= k < |a + b|
        ensures 0 <= (a + b)[k].Coord.Y < rows && 0 <= (a + b)[k].Coord.X < cols
        ensures (a + b)[k] == InitialEntry((a + b)[k].Coord, start)
      {
        if k < |a| {
          assert (a + b)[k] == a[k];
          assert 0 <= a[k].Coord.Y < rows - 1;
        } else {
          assert (a + b)[k] == b[k - |a|];
          assert b[k - |a|] == InitialEntry(Coordinate(rows - 1, k - |a|), start);
        }
      }
      forall i, j | 0 <= i < j < |a + b| ensures Precedes((a + b)[i].Coord, (a + b)[j].Coord) {
        if j < |a| {
          assert (a + b)[i] == a[i] && (a + b)[j] == a[j];
        } else if i < |a| {
          assert (a + b)[i] == a[i] && (a + b)[j] == b[j - |a|];
        } else {
          assert (a + b)[i] == b[i - |a|] && (a + b)[j] == b[j - |a|];
        }
      }
    }
  }

  /** Every cell of the grid has an entry in the initial table. */
  lemma {:induction false} InitialTableCovers(rows: nat, cols: nat, start: Coordinate, c: Coordinate)
    requires 0 <= c.Y < rows && 0 <= c.X < cols
    ensures IndexOfCoord(InitialTable(rows, cols, start), c) != -1
    decreases rows
  {
    var a, b := InitialTable(rows - 1, cols, start), RowTable(rows - 1, cols, start);
    if c.Y < rows - 1 {
      InitialTableCovers(rows - 1, cols, start, c);
      var k := IndexOfCoord(a, c);
      assert (a + b)[k] == a[k];
    } else {
      assert (a + b)[|a| + c.X] == b[c.X];
    }
  }

  /** `GenerateUnvisitedTable(startCoord)`: one entry per cell of the map, row by row. */
  method GenerateUnvisitedTable(m: Map, startCoord: Coordinate) returns (table: seq<DijkstraInfo>)
    requires m.Valid()
    ensures table == InitialTable(m.Rows(), m.Cols(), startCoord)
  {
    table := [];
    var row := 0;
    while row < m.Rows()
      invariant 0 <= row <= m.Rows()
      invariant table == InitialTable(row, m.Cols(), startCoord)
    {
      var col := 0;
      while col < m.Cols()
        invariant 0 <= col <= m.Cols()
        invariant table == InitialTable(row, m.Cols(), startCoord) + RowTable(row, col, startCoord)
      {
        assert RowTable(row, col + 1, startCoord) ==
          RowTable(row, col, startCoord) + [InitialEntry(Coordinate(row, col), startCoord)];
        table := table + [NewInfo(Coordinate(row, col))];
        if row == startCoord.Y && col == startCoord.X {
          table := table[|table| - 1 := table[|table| - 1].(Cost := 0)];
        }
        col := col + 1;
      }
      row := row + 1;
    }
  }

  /** `CheapestNode`: the first entry of least cost; the program dereferences a null node on an
      empty table. */
  method CheapestNode(table: seq<DijkstraInfo>) returns (r: Result<nat>)
    ensures r.Err? <==> table == []
    ensures r.Err? ==> r.error == NullReference
    ensures r.Ok? ==> (r.value < |table| &&
      (forall k :: 0 <= k < |table| ==> table[r.value].Cost <= table[k].Cost) &&
      (forall k :: 0 <= k < r.value ==> table[r.value].Cost < table[k].Cost))
  {
    if table == [] {
      return Err(NullReference);
    }
    var cheapest := 0;
    var di := 0;
    while di < |table|
      invariant 0 <= cheapest < |table| && cheapest <= di <= |table|
      invariant cheapest < di || di == 0
      invariant forall k :: 0 <= k < di ==> table[cheapest].Cost <= table[k].Cost
      invariant forall k :: 0 <= k < cheapest ==> table[cheapest].Cost < table[k].Cost
    {
      if table[di].Cost < table[cheapest].Cost {
        cheapest := di;
      }
      di := di + 1;
    }
    return Ok(cheapest);
  }

  /** What entering cell `to` from its neighbour `from` costs: the cell's own cost (nothing
      for the target) plus the direction cost. */
  function StepCost(g: Grid, target: Coordinate, from: Coordinate, to: Coordinate): (c: int)
    requires Rectangular(g) && InBounds(g, to)
    ensures Adjacent8(from, to) ==> c >= 1
  {
    (if to == target then 0 else Cost(g[to.Y][to.X])) + DirectionCost(from, to)
  }

  /** e was reached from an entry of `before`: its predecessor is a cell with an entry there,
      one of its eight neighbours, and its cost is that entry's cost plus the step. */
  ghost predicate ReachedFrom(g: Grid, target: Coordinate, e: DijkstraInfo, before: seq<DijkstraInfo>) {
    Rectangular(g) && e.PreviousCoord.Some? && InBounds(g, e.Coord) &&
    var j := IndexOfCoord(before, e.PreviousCoord.value);
    j != -1 && Adjacent8(before[j].Coord, e.Coord) &&
    e.Cost == before[j].Cost + StepCost(g, target, before[j].Coord, e.Coord)
  }

  /** The visited table as Dijkstra builds it: the start first, at cost 0 and reached from
      nowhere, and every later entry reached from one before it. */
  ghost predicate Linked(g: Grid, target: Coordinate, start: Coordinate, v: seq<DijkstraInfo>) {
    (v != [] ==> v[0] == DijkstraInfo(start, 0, None) && InBounds(g, start)) &&
    forall i :: 0 < i < |v| ==> ReachedFrom(g, target, v[i], v[..i])
  }

  /** An entry of the unvisited table: not reached yet, the start before anything is visited,
      or reached from a visited entry. */
  ghost predicate Unvisited(g: Grid, target: Coordinate, start: Coordinate, e: DijkstraInfo, v: seq<DijkstraInfo>) {
    InBounds(g, e.Coord) &&
    ((e.Cost == Infinity && e.PreviousCoord == None) ||
     (v == [] && e == DijkstraInfo(start, 0, None)) ||
     ReachedFrom(g, target, e, v))
  }

  predicate Sorted(v: seq<DijkstraInfo>) {
    forall i, j :: 0 <= i < j < |v| ==> v[i].Cost <= v[j].Cost
  }

  /** Where `Dijkstra` starts from: the first cell that `Equals` the start item. */
  function StartOf(g: Grid, start: MapItem): Coordinate {
    FindWhere(g, EqualsItem(start), 0)
  }

  /** A link to an entry of a table is a link to the same entry of a longer table. */
  lemma ReachedFromExtended(g: Grid, target: Coordinate, e: DijkstraInfo, v: seq<DijkstraInfo>, x: DijkstraInfo)
    requires ReachedFrom(g, target, e, v)
    ensures ReachedFrom(g, target, e, v + [x])
  {
    IndexOfCoordPrefix(v + [x], |v|, e.PreviousCoord.value);
    assert (v + [x])[..|v|] == v;
  }

  /** Appending an entry reached from the table keeps the table linked. */
  lemma LinkedExtended(g: Grid, target: Coordinate, start: Coordinate, v: seq<DijkstraInfo>, x: DijkstraInfo)
    requires Linked(g, target, start, v)
    requires (v == [] && x == DijkstraInfo(start, 0, None) && InBounds(g, start)) || ReachedFrom(g, target, x, v)
    ensures Linked(g, target, start, v + [x])
  {
    var w := v + [x];
    assert w[..|v|] == v;
    forall i | 0 < i < |v| ensures ReachedFrom(g, target, w[i], w[..i]) {
      assert w[..i] == v[..i];
    }
  }

  /** The cost of reaching e's cell through `current`. */
  function CostThrough(g: Grid, target: Coordinate, current: DijkstraInfo, e: DijkstraInfo): int
    requires Rectangular(g) && InBounds(g, e.Coord)
  {
    current.Cost + StepCost(g, target, current.Coord, e.Coord)
  }

  /** One relaxation: an entry for a neighbour of the current cell takes the cost through the
      current cell, and the current cell as predecessor, when that is cheaper. */
  ghost function Relax(g: Grid, target: Coordinate, current: DijkstraInfo, e: DijkstraInfo): (r: DijkstraInfo)
    ensures r.Coord == e.Coord && r.Cost <= e.Cost
    ensures r != e ==> r.Cost < e.Cost && r.PreviousCoord == Some(current.Coord) && Adjacent8(current.Coord, e.Coord)
  {
    if Rectangular(g) && InBounds(g, e.Coord) && Adjacent8(current.Coord, e.Coord) && CostThrough(g, target, current, e) < e.Cost
    then DijkstraInfo(e.Coord, CostThrough(g, target, current, e), Some(current.Coord))
    else e
  }

  ghost function Relaxed(g: Grid, target: Coordinate, current: DijkstraInfo, t: seq<DijkstraInfo>): (r: seq<DijkstraInfo>)
    ensures |r| == |t| && forall k :: 0 <= k < |t| ==> r[k] == Relax(g, target, current, t[k])
  {
    seq(|t|, k requires 0 <= k < |t| => Relax(g, target, current, t[k]))
  }

  /** The loop of `Dijkstra` over the neighbours of the current cell: each neighbour that still
      has an entry in the unvisited table is looked up there and relaxed. Every entry of the
      table ends up relaxed, since only the neighbours' entries can change. */
  method RelaxNeighbours(m: Map, target: Coordinate, current: DijkstraInfo, unvisited: seq<DijkstraInfo>)
    returns (updated: seq<DijkstraInfo>)
    requires m.Valid() && DistinctCoords(unvisited)
    ensures updated == Relaxed(m.items, target, current, unvisited)
  {
    var acs := m.AdjacentCoordinatesOf(current.Coord);
    updated := unvisited;
    var a := 0;
    while a < |acs|
      invariant 0 <= a <= |acs|
      invariant PartlyRelaxed(m.items, target, current, unvisited, updated, acs[..a])
    {
      var adj := acs[a];
      NeighbourAt(m.items, current.Coord, acs, a);
      ghost var before := updated;
      var isInVisited, node := FindUnvisitedNode(updated, adj);
      if !isInVisited {
        var adjacentNodeCost := 0;
        if adj != target {
          adjacentNodeCost := Cost(m.items[adj.Y][adj.X]);
        }
        var unvisitedNode := updated[node];
        var currentCost := current.Cost + adjacentNodeCost;
        currentCost := currentCost + DirectionCost(current.Coord, unvisitedNode.Coord);
        assert currentCost == CostThrough(m.items, target, current, unvisitedNode);
        if currentCost < unvisitedNode.Cost {
          updated := updated[node := DijkstraInfo(unvisitedNode.Coord, currentCost, Some(current.Coord))];
        }
      }
      RelaxStep(m.items, target, current, unvisited, before, acs[..a], adj, if isInVisited then -1 else node, updated);
      PrefixSnoc(acs, a);
      a := a + 1;
    }
    assert acs[..a] == acs;
    forall k | 0 <= k < |unvisited|
      ensures updated[k] == Relax(m.items, target, current, unvisited[k])
    {
      if unvisited[k].Coord !in acs {
        NotANeighbour(m.items, current.Coord, acs, unvisited[k].Coord);
      }
    }
  }

  /** The search of `Dijkstra` for a neighbour's entry in the unvisited table: the index of the
      first entry for cell c, and `isInVisited` false, or true when the cell has no entry
      there (it was visited already). */
  method FindUnvisitedNode(table: seq<DijkstraInfo>, c: Coordinate) returns (isInVisited: bool, node: int)
    ensures isInVisited <==> IndexOfCoord(table, c) == -1
    ensures !isInVisited ==> node == IndexOfCoord(table, c)
  {
    isInVisited := true;
    node := 0;
    while isInVisited && node < |table|
      invariant 0 <= node <= |table|
      invariant forall k :: 0 <= k < node ==> table[k].Coord != c
      invariant !isInVisited ==> node < |table| && table[node].Coord == c
      decreases |table| - node + (if isInVisited then 1 else 0)
    {
      if c == table[node].Coord {
        isInVisited := false;
      }
      if isInVisited {
        node := node + 1;
      }
    }
  }

  /** After the first neighbours `done`: their entries are relaxed, the others untouched. */
  ghost predicate PartlyRelaxed(g: Grid, target: Coordinate, current: DijkstraInfo,
                                u: seq<DijkstraInfo>, t: seq<DijkstraInfo>, done: seq<Coordinate>) {
    |t| == |u| &&
    forall k :: 0 <= k < |u| ==> t[k] == if u[k].Coord in done then Relax(g, target, current, u[k]) else u[k]
  }

  /** Looking up one more neighbour and relaxing its entry, if it has one, relaxes one more
      neighbour's entries. */
  lemma RelaxStep(g: Grid, target: Coordinate, current: DijkstraInfo, u: seq<DijkstraInfo>,
                  before: seq<DijkstraInfo>, done: seq<Coordinate>, adj: Coordinate, node: int,
                  after: seq<DijkstraInfo>)
    requires Rectangular(g) && DistinctCoords(u) && PartlyRelaxed(g, target, current, u, before, done)
    requires InBounds(g, adj) && Adjacent8(current.Coord, adj)
    requires forall i :: 0 <= i < |done| ==> done[i] != adj
    requires -1 <= node < |before|
    requires node == -1 ==> after == before && forall k :: 0 <= k < |before| ==> before[k].Coord != adj
    requires node != -1 ==> (before[node].Coord == adj &&
      after == if CostThrough(g, target, current, before[node]) < before[node].Cost
               then before[node := DijkstraInfo(adj, CostThrough(g, target, current, before[node]), Some(current.Coord))]
               else before)
    ensures PartlyRelaxed(g, target, current, u, after, done + [adj])
  {
    forall k | 0 <= k < |u|
      ensures after[k] == if u[k].Coord in done + [adj] then Relax(g, target, current, u[k]) else u[k]
    {
      assert u[k].Coord in done + [adj] <==> u[k].Coord in done || u[k].Coord == adj;
      if node != -1 && k != node {
        assert before[k].Coord == u[k].Coord && before[node].Coord == u[node].Coord;
      }
    }
  }

  /** The a-th neighbour listed for c lies on the grid, next to c, and is not listed before. */
  lemma NeighbourAt(g: Grid, c: Coordinate, acs: seq<Coordinate>, a: int)
    requires acs == Neighbours(RowsOf(g), ColsOf(g), c, 9) && 0 <= a < |acs|
    ensures InBounds(g, acs[a]) && Adjacent8(c, acs[a])
    ensures forall i :: 0 <= i < a ==> acs[i] != acs[a]
  {
    assert acs[a] in acs;
    NeighboursMembers(RowsOf(g), ColsOf(g), c, 9, acs[a]);
    NeighboursOrdered(RowsOf(g), ColsOf(g), c, 9);
  }

  /** A cell the neighbour list leaves out is not a neighbour on the grid. */
  lemma NotANeighbour(g: Grid, c: Coordinate, acs: seq<Coordinate>, x: Coordinate)
    requires acs == Neighbours(RowsOf(g), ColsOf(g), c, 9) && x !in acs
    ensures !(InBounds(g, x) && Adjacent8(c, x))
  {
    NeighboursMembers(RowsOf(g), ColsOf(g), c, 9, x);
    OffsetStep(0, Diff(x, c));
  }

  /** What holds of the two tables between the rounds of `Dijkstra`: the visited table is
      linked from the start, sorted by cost and within the ceiling; no cell has two entries;
      no visited entry costs more than an unvisited one. */
  ghost predicate Frontier(g: Grid, target: Coordinate, start: Coordinate, costLimit: int,
                           v: seq<DijkstraInfo>, u: seq<DijkstraInfo>) {
    Linked(g, target, start, v) &&
    DistinctCoords(v) && DistinctCoords(u) && Sorted(v) &&
    (forall i, k :: 0 <= i < |v| && 0 <= k < |u| ==> v[i].Coord != u[k].Coord && v[i].Cost <= u[k].Cost) &&
    (forall k :: 0 <= k < |u| ==> Unvisited(g, target, start, u[k], v)) &&
    (forall i :: 0 <= i < |v| ==> InBounds(g, v[i].Coord) && v[i].Cost <= costLimit)
  }

  /** The cheapest unvisited entry, when within the ceiling, was reached from the visited
      table, or is the start entry while nothing is visited. */
  lemma CheapestIsLinked(g: Grid, target: Coordinate, start: Coordinate, costLimit: int,
                         v: seq<DijkstraInfo>, u: seq<DijkstraInfo>, ci: int)
    requires Frontier(g, target, start, costLimit, v, u) && costLimit < Infinity
    requires 0 <= ci < |u| && u[ci].Cost <= costLimit
    ensures (v == [] && u[ci] == DijkstraInfo(start, 0, None) && InBounds(g, start)) || ReachedFrom(g, target, u[ci], v)
  {
    assert Unvisited(g, target, start, u[ci], v);
  }

  /** A relaxed entry other than the current one is an unvisited entry once the current entry
      has moved to the visited table. */
  lemma RelaxedIsUnvisited(g: Grid, target: Coordinate, start: Coordinate, costLimit: int,
                           v: seq<DijkstraInfo>, u: seq<DijkstraInfo>, ci: int, k: int)
    requires Frontier(g, target, start, costLimit, v, u) && costLimit < Infinity
    requires 0 <= ci < |u| && u[ci].Cost <= costLimit && 0 <= k < |u| && k != ci
    ensures Unvisited(g, target, start, Relax(g, target, u[ci], u[k]), v + [u[ci]])
  {
    var current, e := u[ci], u[k];
    assert Unvisited(g, target, start, e, v);
    var r := Relax(g, target, current, e);
    if r != e {
      assert IndexOfCoord(v + [current], current.Coord) == |v| by {
        forall i | 0 <= i < |v| ensures (v + [current])[i].Coord != current.Coord {
          assert (v + [current])[i] == v[i];
          assert v[i].Coord != u[ci].Coord;
        }
        assert (v + [current])[|v|] == current;
      }
    } else if ReachedFrom(g, target, e, v) {
      ReachedFromExtended(g, target, e, v, current);
    } else {
      CheapestIsLinked(g, target, start, costLimit, v, u, ci);
    }
  }

  /** What one round of `Dijkstra` within the ceiling turns the tables into: the neighbours of
      the cheapest entry relaxed, that entry taken out of the unvisited table and appended to
      the visited one. */
  ghost predicate NextRound(g: Grid, target: Coordinate, v: seq<DijkstraInfo>, u: seq<DijkstraInfo>, ci: int,
                            v': seq<DijkstraInfo>, u': seq<DijkstraInfo>) {
    0 <= ci < |u| && v' == v + [u[ci]] && u' == RemovedAt(Relaxed(g, target, u[ci], u), ci)
  }

  /** The round keeps cells unique and costs in order. */
  lemma VisitKeepsOrder(g: Grid, target: Coordinate, start: Coordinate, costLimit: int,
                        v: seq<DijkstraInfo>, u: seq<DijkstraInfo>, ci: int, v': seq<DijkstraInfo>, u': seq<DijkstraInfo>)
    requires Frontier(g, target, start, costLimit, v, u) && costLimit < Infinity
    requires NextRound(g, target, v, u, ci, v', u') && u[ci].Cost <= costLimit
    requires forall k :: 0 <= k < |u| ==> u[ci].Cost <= u[k].Cost
    ensures DistinctCoords(v') && DistinctCoords(u') && Sorted(v')
    ensures forall i, k :: 0 <= i < |v'| && 0 <= k < |u'| ==> v'[i].Coord != u'[k].Coord && v'[i].Cost <= u'[k].Cost
    ensures forall i :: 0 <= i < |v'| ==> InBounds(g, v'[i].Coord) && v'[i].Cost <= costLimit
  {
    assert Unvisited(g, target, start, u[ci], v);
    RoundEntries(g, target, v, u, ci, v', u');
  }

  /** After a round, the visited table has the cheapest entry appended and the unvisited table
      keeps the other cells, none cheaper than it. */
  lemma RoundEntries(g: Grid, target: Coordinate, v: seq<DijkstraInfo>, u: seq<DijkstraInfo>, ci: int,
                     v': seq<DijkstraInfo>, u': seq<DijkstraInfo>)
    requires NextRound(g, target, v, u, ci, v', u')
    requires forall k :: 0 <= k < |u| ==> u[ci].Cost <= u[k].Cost
    ensures |v'| == |v| + 1 && v'[|v|] == u[ci] && forall i :: 0 <= i < |v| ==> v'[i] == v[i]
    ensures |u'| == |u| - 1
    ensures forall k :: 0 <= k < |u'| ==>
      u'[k].Coord == u[if k < ci then k else k + 1].Coord && u[ci].Cost <= u'[k].Cost
  {
    forall k | 0 <= k < |u'|
      ensures u'[k].Coord == u[if k < ci then k else k + 1].Coord && u[ci].Cost <= u'[k].Cost
    {
      var j := if k < ci then k else k + 1;
      assert u'[k] == Relax(g, target, u[ci], u[j]);
    }
  }

  /** The round keeps the visited table linked and the unvisited entries in shape. */
  lemma VisitKeepsLinks(g: Grid, target: Coordinate, start: Coordinate, costLimit: int,
                        v: seq<DijkstraInfo>, u: seq<DijkstraInfo>, ci: int, v': seq<DijkstraInfo>, u': seq<DijkstraInfo>)
    requires Frontier(g, target, start, costLimit, v, u) && costLimit < Infinity
    requires NextRound(g, target, v, u, ci, v', u') && u[ci].Cost <= costLimit
    ensures Linked(g, target, start, v')
    ensures forall k :: 0 <= k < |u'| ==> Unvisited(g, target, start, u'[k], v')
  {
    var current := u[ci];
    CheapestIsLinked(g, target, start, costLimit, v, u, ci);
    LinkedExtended(g, target, start, v, current);
    forall k | 0 <= k < |u'| ensures Unvisited(g, target, start, u'[k], v') {
      var j := if k < ci then k else k + 1;
      assert u'[k] == Relax(g, target, current, u[j]);
      RelaxedIsUnvisited(g, target, start, costLimit, v, u, ci, j);
    }
  }

  /** One round of `Dijkstra` within the ceiling keeps the tables in shape; the relaxed table
      still has the cheapest entry at its place, the one `Remove` takes out. */
  lemma VisitStep(g: Grid, target: Coordinate, start: Coordinate, costLimit: int,
                  v: seq<DijkstraInfo>, u: seq<DijkstraInfo>, ci: int, v': seq<DijkstraInfo>, u': seq<DijkstraInfo>)
    requires Frontier(g, target, start, costLimit, v, u) && costLimit < Infinity
    requires NextRound(g, target, v, u, ci, v', u') && u[ci].Cost <= costLimit
    requires forall k :: 0 <= k < |u| ==> u[ci].Cost <= u[k].Cost
    ensures IndexOfCoord(Relaxed(g, target, u[ci], u), u[ci].Coord) == ci
    ensures Frontier(g, target, start, costLimit, v', u')
  {
    var r := Relaxed(g, target, u[ci], u);
    assert forall k :: 0 <= k < |r| ==> r[k].Coord == u[k].Coord;
    IndexOfOwnCoord(r, ci);
    VisitKeepsOrder(g, target, start, costLimit, v, u, ci, v', u');
    VisitKeepsLinks(g, target, start, costLimit, v, u, ci, v', u');
  }

  // ----- where the search stops -----

  /** Cell c has an entry costing at most b: visited, or still in the unvisited table. */
  ghost predicate Within(v: seq<DijkstraInfo>, u: seq<DijkstraInfo>, c: Coordinate, b: int) {
    (IndexOfCoord(v, c) != -1 && v[IndexOfCoord(v, c)].Cost <= b) ||
    (IndexOfCoord(u, c) != -1 && u[IndexOfCoord(u, c)].Cost <= b)
  }

  /** Every cell of the map has an entry in one of the two tables. */
  ghost predicate Covered(g: Grid, v: seq<DijkstraInfo>, u: seq<DijkstraInfo>) {
    forall c :: InBounds(g, c) ==> IndexOfCoord(v, c) != -1 || IndexOfCoord(u, c) != -1
  }

  /** Every neighbour of a visited cell has an entry costing no more than the step from it. */
  ghost predicate Bounded(g: Grid, target: Coordinate, v: seq<DijkstraInfo>, u: seq<DijkstraInfo>) {
    Rectangular(g) &&
    forall i, c :: 0 <= i < |v| && InBounds(g, c) && Adjacent8(v[i].Coord, c) ==>
      Within(v, u, c, v[i].Cost + StepCost(g, target, v[i].Coord, c))
  }

  /** The visited table is closed under steps within the ceiling: a neighbour of a visited
      cell that the step reaches within the ceiling is visited too, at no greater cost. */
  ghost predicate Closed(g: Grid, target: Coordinate, v: seq<DijkstraInfo>, costLimit: int) {
    Rectangular(g) &&
    forall i, c ::
      (0 <= i < |v| && InBounds(g, c) && Adjacent8(v[i].Coord, c) &&
       v[i].Cost + StepCost(g, target, v[i].Coord, c) <= costLimit) ==>
      IndexOfCoord(v, c) != -1 && v[IndexOfCoord(v, c)].Cost <= v[i].Cost + StepCost(g, target, v[i].Coord, c)
  }

  /** What `Dijkstra` returns: the visited table, linked from the start cell, each cell once,
      in order of cost, only cells of the map reached within the ceiling. The search stops at
      the target, which is then the last entry; otherwise the table is closed under steps
      within the ceiling. The start is in it whenever the start is on the map and the
      ceiling is not negative. */
  ghost predicate Searched(g: Grid, target: Coordinate, start: Coordinate, costLimit: int, v: seq<DijkstraInfo>) {
    Linked(g, target, start, v) && DistinctCoords(v) && Sorted(v) &&
    (forall i :: 0 <= i < |v| ==> InBounds(g, v[i].Coord) && v[i].Cost <= costLimit) &&
    (forall i :: 0 <= i < |v| - 1 ==> v[i].Coord != target) &&
    ((v != [] && v[|v| - 1].Coord == target) || Closed(g, target, v, costLimit)) &&
    (InBounds(g, start) && 0 <= costLimit ==> v != [])
  }

  /** At the start every cell of the map has an unvisited entry, the start's costing 0. */
  lemma InitialTableCovered(g: Grid, start: Coordinate)
    ensures var t := InitialTable(RowsOf(g), ColsOf(g), start);
      Covered(g, [], t) &&
      (InBounds(g, start) ==> IndexOfCoord(t, start) != -1 && t[IndexOfCoord(t, start)].Cost == 0)
  {
    var t := InitialTable(RowsOf(g), ColsOf(g), start);
    forall c | InBounds(g, c) ensures IndexOfCoord(t, c) != -1 {
      InitialTableCovers(RowsOf(g), ColsOf(g), start, c);
    }
    if InBounds(g, start) {
      InitialTableShape(RowsOf(g), ColsOf(g), start);
      assert t[IndexOfCoord(t, start)] == InitialEntry(start, start);
    }
  }

  /** Appending an entry leaves the entries found before where they were. */
  lemma EntryAfterAppend(v: seq<DijkstraInfo>, x: DijkstraInfo, c: Coordinate)
    ensures IndexOfCoord(v, c) != -1 ==> IndexOfCoord(v + [x], c) == IndexOfCoord(v, c)
    ensures IndexOfCoord(v, c) == -1 ==> IndexOfCoord(v + [x], c) == if x.Coord == c then |v| else -1
  {
    assert (v + [x])[..|v|] == v;
    if IndexOfCoord(v, c) != -1 {
      IndexOfCoordPrefix(v + [x], |v|, c);
    } else {
      assert forall k :: 0 <= k < |v| ==> (v + [x])[k] == v[k];
      assert (v + [x])[|v|] == x;
    }
  }

  /** An unvisited entry other than the current one is, after the round, the relaxed entry,
      one place earlier when it came after the current one. */
  lemma EntryAfterRound(g: Grid, target: Coordinate, u: seq<DijkstraInfo>, ci: int, c: Coordinate)
    requires 0 <= ci < |u| && IndexOfCoord(u, c) != -1 && IndexOfCoord(u, c) != ci
    ensures var k := IndexOfCoord(u, c);
      var u' := RemovedAt(Relaxed(g, target, u[ci], u), ci);
      var j := if k < ci then k else k - 1;
      IndexOfCoord(u', c) == j && u'[j] == Relax(g, target, u[ci], u[k])
  {
    var k := IndexOfCoord(u, c);
    var u' := RemovedAt(Relaxed(g, target, u[ci], u), ci);
    var j := if k < ci then k else k - 1;
    assert u'[j] == Relax(g, target, u[ci], u[k]);
    forall l | 0 <= l < j ensures u'[l].Coord != c {
      if l < ci {
        assert u'[l] == Relax(g, target, u[ci], u[l]);
      } else {
        assert u'[l] == Relax(g, target, u[ci], u[l + 1]);
      }
    }
  }

  /** A round keeps every cell of the map in one of the tables. */
  lemma RoundKeepsCovered(g: Grid, target: Coordinate, v: seq<DijkstraInfo>, u: seq<DijkstraInfo>, ci: int,
                          v': seq<DijkstraInfo>, u': seq<DijkstraInfo>)
    requires NextRound(g, target, v, u, ci, v', u') && Covered(g, v, u)
    ensures Covered(g, v', u')
  {
    forall c | InBounds(g, c) ensures IndexOfCoord(v', c) != -1 || IndexOfCoord(u', c) != -1 {
      EntryAfterAppend(v, u[ci], c);
      if IndexOfCoord(v, c) == -1 && IndexOfCoord(u, c) != ci {
        EntryAfterRound(g, target, u, ci, c);
      }
    }
  }

  /** The bound for a neighbour of an earlier visited cell survives the round: its entry only
      moves to the visited table or gets cheaper. */
  lemma OldVisitedBounded(g: Grid, target: Coordinate, v: seq<DijkstraInfo>, u: seq<DijkstraInfo>, ci: int, b: int, c: Coordinate)
    requires 0 <= ci < |u| && Within(v, u, c, b)
    requires forall i, k :: 0 <= i < |v| && 0 <= k < |u| ==> v[i].Coord != u[k].Coord
    ensures Within(v + [u[ci]], RemovedAt(Relaxed(g, target, u[ci], u), ci), c, b)
  {
    EntryAfterAppend(v, u[ci], c);
    if IndexOfCoord(v, c) == -1 && IndexOfCoord(u, c) != ci {
      EntryAfterRound(g, target, u, ci, c);
    }
  }

  /** The neighbours of the cell just visited are visited already, at no greater cost, or
      have been relaxed through it. */
  lemma NewVisitedBounded(g: Grid, target: Coordinate, v: seq<DijkstraInfo>, u: seq<DijkstraInfo>, ci: int, c: Coordinate)
    requires Rectangular(g) && 0 <= ci < |u| && InBounds(g, c) && Adjacent8(u[ci].Coord, c) && Covered(g, v, u)
    requires forall i, k :: 0 <= i < |v| && 0 <= k < |u| ==> v[i].Cost <= u[k].Cost
    ensures Within(v + [u[ci]], RemovedAt(Relaxed(g, target, u[ci], u), ci), c,
                   u[ci].Cost + StepCost(g, target, u[ci].Coord, c))
  {
    EntryAfterAppend(v, u[ci], c);
    if IndexOfCoord(v, c) == -1 {
      EntryAfterRound(g, target, u, ci, c);
    }
  }

  /** A round keeps every cell of the map in a table, and the neighbours of visited cells
      bounded by the step from them. */
  lemma RoundKeepsBounded(g: Grid, target: Coordinate, start: Coordinate, costLimit: int,
                          v: seq<DijkstraInfo>, u: seq<DijkstraInfo>, ci: int, v': seq<DijkstraInfo>, u': seq<DijkstraInfo>)
    requires Frontier(g, target, start, costLimit, v, u)
    requires NextRound(g, target, v, u, ci, v', u') && Covered(g, v, u) && Bounded(g, target, v, u)
    ensures Covered(g, v', u') && Bounded(g, target, v', u')
  {
    RoundKeepsCovered(g, target, v, u, ci, v', u');
    forall i, c | 0 <= i < |v'| && InBounds(g, c) && Adjacent8(v'[i].Coord, c)
      ensures Within(v', u', c, v'[i].Cost + StepCost(g, target, v'[i].Coord, c))
    {
      if i < |v| {
        assert v'[i] == v[i];
        OldVisitedBounded(g, target, v, u, ci, v[i].Cost + StepCost(g, target, v[i].Coord, c), c);
      } else {
        NewVisitedBounded(g, target, v, u, ci, c);
      }
    }
  }

  /** Stopping at an entry over the ceiling, the cheapest one, leaves the visited table
      closed under steps within the ceiling. */
  lemma StopAtCeiling(g: Grid, target: Coordinate, v: seq<DijkstraInfo>, u: seq<DijkstraInfo>, ci: int, costLimit: int)
    requires Bounded(g, target, v, u) && 0 <= ci < |u| && costLimit < u[ci].Cost
    requires forall k :: 0 <= k < |u| ==> u[ci].Cost <= u[k].Cost
    ensures Closed(g, target, v, costLimit)
  {
  }

  /** So does running out of unvisited entries. */
  lemma StopEmpty(g: Grid, target: Coordinate, v: seq<DijkstraInfo>, costLimit: int)
    requires Bounded(g, target, v, [])
    ensures Closed(g, target, v, costLimit)
  {
  }

  /** One round of `Dijkstra` within the ceiling: the neighbours of the cheapest entry are
      relaxed, and the entry moves from the unvisited table to the end of the visited one. */
  method VisitCheapest(m: Map, target: Coordinate, ghost start: Coordinate, costLimit: int,
                       visited: seq<DijkstraInfo>, unvisited: seq<DijkstraInfo>, ci: nat)
    returns (visited': seq<DijkstraInfo>, unvisited': seq<DijkstraInfo>)
    requires m.Valid() && costLimit < Infinity
    requires Frontier(m.items, target, start, costLimit, visited, unvisited)
    requires Covered(m.items, visited, unvisited) && Bounded(m.items, target, visited, unvisited)
    requires ci < |unvisited| && unvisited[ci].Cost <= costLimit
    requires forall k :: 0 <= k < |unvisited| ==> unvisited[ci].Cost <= unvisited[k].Cost
    ensures NextRound(m.items, target, visited, unvisited, ci, visited', unvisited')
    ensures Frontier(m.items, target, start, costLimit, visited', unvisited')
    ensures Covered(m.items, visited', unvisited') && Bounded(m.items, target, visited', unvisited')
  {
    var current := unvisited[ci];
    var relaxed := RelaxNeighbours(m, target, current, unvisited);
    VisitStep(m.items, target, start, costLimit, visited, unvisited, ci, visited + [current], RemovedAt(relaxed, ci));
    RoundKeepsBounded(m.items, target, start, costLimit, visited, unvisited, ci, visited + [current], RemovedAt(relaxed, ci));
    unvisited' := RemovedAt(relaxed, IndexOfCoord(relaxed, current.Coord));
    visited' := visited + [current];
  }

  /** What holds between the rounds of `Dijkstra`: the tables keep their shape, every cell of
      the map has an entry, every neighbour of a visited cell is bounded by the step from
      it, the target is visited only as the last entry, and a stop at the ceiling leaves the
      visited table closed. Until something is visited, the start keeps its entry at cost 0. */
  ghost predicate SearchInv(g: Grid, target: Coordinate, start: Coordinate, costLimit: int,
                            v: seq<DijkstraInfo>, u: seq<DijkstraInfo>, targetReached: bool, costLimitReached: bool) {
    Frontier(g, target, start, costLimit, v, u) && Covered(g, v, u) && Bounded(g, target, v, u) &&
    IndexOfCoord(v, target) == (if targetReached then |v| - 1 else -1) && (targetReached ==> v != []) &&
    (costLimitReached ==> Closed(g, target, v, costLimit)) &&
    (v == [] && InBounds(g, start) ==>
      IndexOfCoord(u, start) != -1 && u[IndexOfCoord(u, start)].Cost == 0 && (costLimitReached ==> costLimit < 0))
  }

  /** The tables `Dijkstra` starts from: nothing visited, one entry per cell unvisited. */
  lemma SearchStart(g: Grid, target: Coordinate, start: Coordinate, costLimit: int)
    requires Rectangular(g)
    ensures SearchInv(g, target, start, costLimit, [], InitialTable(RowsOf(g), ColsOf(g), start), false, false)
  {
    var u := InitialTable(RowsOf(g), ColsOf(g), start);
    InitialTableShape(RowsOf(g), ColsOf(g), start);
    InitialTableCovered(g, start);
    forall k | 0 <= k < |u| ensures Unvisited(g, target, start, u[k], []) {
      assert u[k] == InitialEntry(u[k].Coord, start);
    }
  }

  /** When the loop ends, the visited table is what `Dijkstra` promises. */
  lemma SearchDone(g: Grid, target: Coordinate, start: Coordinate, costLimit: int,
                   v: seq<DijkstraInfo>, u: seq<DijkstraInfo>, targetReached: bool, costLimitReached: bool)
    requires SearchInv(g, target, start, costLimit, v, u, targetReached, costLimitReached)
    requires targetReached || costLimitReached || u == []
    ensures Searched(g, target, start, costLimit, v)
  {
    if !targetReached && !costLimitReached {
      StopEmpty(g, target, v, costLimit);
    }
  }

  /** One pass of the loop of `Dijkstra`: the cheapest unvisited entry stops the search when it
      is over the ceiling, and is visited otherwise. */
  method SearchStep(m: Map, target: Coordinate, ghost start: Coordinate, costLimit: int,
                    visited: seq<DijkstraInfo>, unvisited: seq<DijkstraInfo>)
    returns (visited': seq<DijkstraInfo>, unvisited': seq<DijkstraInfo>, targetReached: bool, costLimitReached: bool)
    requires m.Valid() && costLimit < Infinity && unvisited != []
    requires SearchInv(m.items, target, start, costLimit, visited, unvisited, false, false)
    ensures SearchInv(m.items, target, start, costLimit, visited', unvisited', targetReached, costLimitReached)
    ensures (targetReached || costLimitReached) ==> |unvisited'| <= |unvisited|
    ensures !(targetReached || costLimitReached) ==> |unvisited'| < |unvisited|
  {
    var cheapest := CheapestNode(unvisited);
    var ci := cheapest.value;
    var current := unvisited[ci];
    if current.Cost > costLimit {
      StopAtCeiling(m.items, target, visited, unvisited, ci, costLimit);
      visited', unvisited', targetReached, costLimitReached := visited, unvisited, false, true;
    } else {
      EntryAfterAppend(visited, current, target);
      visited', unvisited' := VisitCheapest(m, target, start, costLimit, visited, unvisited, ci);
      targetReached, costLimitReached := current.Coord == target, false;
    }
  }

  /** `Dijkstra(start, target, costLimit)`: the visited table. It is linked from the start cell,
      lists each cell once, only cells of the map reached within the ceiling, in order of
      cost, and stops at the target: the target, when reached, is the last entry. The
      ceiling is bounded so that no cost sum leaves the range of a 32-bit int. */
  method Dijkstra(m: Map, start: MapItem, target: Coordinate, costLimit: int) returns (visited: seq<DijkstraInfo>)
    requires m.Valid()
    requires costLimit <= Infinity - Blocked - 2
    ensures Searched(m.items, target, StartOf(m.items, start), costLimit, visited)
  {
    var startCoord := m.CoordOfItem(start);
    visited := [];
    var unvisited := GenerateUnvisitedTable(m, startCoord);
    SearchStart(m.items, target, startCoord, costLimit);
    var targetReached, costLimitReached := false, false;
    while !targetReached && !costLimitReached && |unvisited| > 0
      invariant SearchInv(m.items, target, startCoord, costLimit, visited, unvisited, targetReached, costLimitReached)
      decreases |unvisited| + (if targetReached || costLimitReached then 0 else 1)
    {
      visited, unvisited, targetReached, costLimitReached := SearchStep(m, target, startCoord, costLimit, visited, unvisited);
    }
    SearchDone(m.items, target, startCoord, costLimit, visited, unvisited, targetReached, costLimitReached);
  }
}
