/** The growable rectangular grid of cells the layout is drawn on (Map.cs). The grid is a list
    of rows; rows and columns can be added at every edge, and all rows keep one length. */
module GridMap {
  import opened Common
  import opened PathSegments
  import opened MapItems

  type Grid = seq<seq<MapItem>>

  function RowsOf(g: Grid): nat {
    |g|
  }

  /** The width of the grid: that of row 0, or 0 when there are no rows. */
  function ColsOf(g: Grid): nat {
    if |g| == 0 then 0 else |g[0]|
  }

  /** All rows have the same length. */
  ghost predicate Rectangular(g: Grid) {
    forall i :: 0 <= i < |g| ==> |g[i]| == ColsOf(g)
  }

  predicate InBounds(g: Grid, c: Coordinate) {
    0 <= c.Y < RowsOf(g) && 0 <= c.X < ColsOf(g)
  }

  /** A negative amount adds nothing (the C# loops do not run). */
  function Count(amount: int): nat {
    if amount < 0 then 0 else amount
  }

  function EmptyRow(n: nat): (r: seq<MapItem>)
    ensures |r| == n && forall k :: 0 <= k < n ==> r[k] == NewEmpty()
  {
    seq(n, _ => NewEmpty())
  }

  function EmptyRows(n: nat, cols: nat): (r: Grid)
    ensures |r| == n && forall k :: 0 <= k < n ==> r[k] == EmptyRow(cols)
  {
    seq(n, _ => EmptyRow(cols))
  }

  function WithRowsBottom(g: Grid, n: nat): Grid {
    g + EmptyRows(n, ColsOf(g))
  }

  function WithRowsTop(g: Grid, n: nat): Grid {
    EmptyRows(n, ColsOf(g)) + g
  }

  function WithColsRight(g: Grid, n: nat): (r: Grid)
    ensures |r| == |g|
  {
    seq(|g|, i requires 0 <= i < |g| => g[i] + EmptyRow(n))
  }

  function WithColsLeft(g: Grid, n: nat): (r: Grid)
    ensures |r| == |g|
  {
    seq(|g|, i requires 0 <= i < |g| => EmptyRow(n) + g[i])
  }

  /** One round of `AddBorder`: a row on top, a row at the bottom, a column left and right. */
  function WithBorderOnce(g: Grid): Grid {
    WithColsRight(WithColsLeft(WithRowsBottom(WithRowsTop(g, 1), 1), 1), 1)
  }

  function WithBorder(g: Grid, w: nat): Grid
    decreases w
  {
    if w == 0 then g else WithBorder(WithBorderOnce(g), w - 1)
  }

  /** Rows added at the bottom: the rows grow by n, the width is kept, old cells stay where
      they were and the new ones are Empty. */
  lemma BottomGrowth(g: Grid, n: nat)
    requires Rectangular(g)
    ensures var t := WithRowsBottom(g, n);
      Rectangular(t) && RowsOf(t) == RowsOf(g) + n && (RowsOf(t) > 0 ==> ColsOf(t) == ColsOf(g)) &&
      forall r, c :: 0 <= r < RowsOf(t) && 0 <= c < ColsOf(g) ==>
        t[r][c] == if r < RowsOf(g) then g[r][c] else NewEmpty()
  {
  }

  /** A row added to a map without rows is a row without cells. */
  lemma FirstRow()
    ensures WithRowsBottom([], 1) == [[]]
  {
    assert EmptyRows(1, 0)[0] == [];
  }

  /** A column added to a one-row map appends one Empty cell to that row. */
  lemma OneRowColRight(row: seq<MapItem>)
    ensures WithColsRight([row], 1) == [row + [NewEmpty()]]
  {
    assert WithColsRight([row], 1)[0] == row + EmptyRow(1);
    assert EmptyRow(1) == [NewEmpty()];
  }

  /** Rows added on top: the rows grow by n, the width is kept, old cells move n rows down and
      the new ones are Empty. */
  lemma TopGrowth(g: Grid, n: nat)
    requires Rectangular(g)
    ensures var t := WithRowsTop(g, n);
      Rectangular(t) && RowsOf(t) == RowsOf(g) + n && (RowsOf(t) > 0 ==> ColsOf(t) == ColsOf(g)) &&
      forall r, c :: 0 <= r < RowsOf(t) && 0 <= c < ColsOf(g) ==>
        t[r][c] == if r < n then NewEmpty() else g[r - n][c]
  {
  }

  /** Columns added on the right of a grid with rows: every row grows by n, old cells stay and
      the new ones are Empty; a grid without rows is left as it is. */
  lemma RightGrowth(g: Grid, n: nat)
    requires Rectangular(g)
    ensures var t := WithColsRight(g, n);
      Rectangular(t) && RowsOf(t) == RowsOf(g) &&
      (RowsOf(g) > 0 ==> ColsOf(t) == ColsOf(g) + n) && (RowsOf(g) == 0 ==> t == g) &&
      forall r, c :: 0 <= r < RowsOf(g) && 0 <= c < ColsOf(g) + n ==>
        t[r][c] == if c < ColsOf(g) then g[r][c] else NewEmpty()
  {
    if |g| > 0 {
      assert ColsOf(WithColsRight(g, n)) == |g[0] + EmptyRow(n)|;
    }
  }

  /** Columns added on the left of a grid with rows: every row grows by n, old cells move n
      columns right and the new ones are Empty; a grid without rows is left as it is. */
  lemma LeftGrowth(g: Grid, n: nat)
    requires Rectangular(g)
    ensures var t := WithColsLeft(g, n);
      Rectangular(t) && RowsOf(t) == RowsOf(g) &&
      (RowsOf(g) > 0 ==> ColsOf(t) == ColsOf(g) + n) && (RowsOf(g) == 0 ==> t == g) &&
      forall r, c :: 0 <= r < RowsOf(g) && 0 <= c < ColsOf(g) + n ==>
        t[r][c] == if c < n then NewEmpty() else g[r][c - n]
  {
    if |g| > 0 {
      assert ColsOf(WithColsLeft(g, n)) == |EmptyRow(n) + g[0]|;
    }
  }

  /** Adding no rows at the bottom changes nothing; adding one more row after i is adding i+1. */
  lemma BottomSteps(g: Grid, i: nat)
    requires Rectangular(g)
    ensures WithRowsBottom(g, 0) == g
    ensures WithRowsBottom(WithRowsBottom(g, i), 1) == WithRowsBottom(g, i + 1)
  {
    BottomGrowth(g, i);
    if |g| == 0 {
      assert WithRowsBottom(WithRowsBottom(g, i), 1) == EmptyRows(i + 1, 0);
    } else {
      assert ColsOf(WithRowsBottom(g, i)) == ColsOf(g);
      assert EmptyRows(i, ColsOf(g)) + EmptyRows(1, ColsOf(g)) == EmptyRows(i + 1, ColsOf(g));
    }
  }

  /** Adding no rows on top changes nothing; adding one more row after i is adding i+1. */
  lemma TopSteps(g: Grid, i: nat)
    requires Rectangular(g)
    ensures WithRowsTop(g, 0) == g
    ensures WithRowsTop(WithRowsTop(g, i), 1) == WithRowsTop(g, i + 1)
  {
    TopGrowth(g, i);
    if |g| == 0 {
      assert WithRowsTop(WithRowsTop(g, i), 1) == EmptyRows(i + 1, 0);
    } else {
      assert ColsOf(WithRowsTop(g, i)) == ColsOf(g);
      assert EmptyRows(1, ColsOf(g)) + EmptyRows(i, ColsOf(g)) == EmptyRows(i + 1, ColsOf(g));
    }
  }

  /** Adding no columns on the right changes nothing; one more after i is adding i+1. */
  lemma RightSteps(g: Grid, i: nat)
    ensures WithColsRight(g, 0) == g
    ensures WithColsRight(WithColsRight(g, i), 1) == WithColsRight(g, i + 1)
  {
    assert WithColsRight(g, 0) == g by {
      forall k | 0 <= k < |g| ensures WithColsRight(g, 0)[k] == g[k] {
        assert g[k] + EmptyRow(0) == g[k];
      }
    }
    forall k | 0 <= k < |g|
      ensures WithColsRight(WithColsRight(g, i), 1)[k] == WithColsRight(g, i + 1)[k]
    {
      assert EmptyRow(i) + EmptyRow(1) == EmptyRow(i + 1);
      assert (g[k] + EmptyRow(i)) + EmptyRow(1) == g[k] + EmptyRow(i + 1);
    }
  }

  /** Adding no columns on the left changes nothing; one more after i is adding i+1. */
  lemma LeftSteps(g: Grid, i: nat)
    ensures WithColsLeft(g, 0) == g
    ensures WithColsLeft(WithColsLeft(g, i), 1) == WithColsLeft(g, i + 1)
  {
    assert WithColsLeft(g, 0) == g by {
      forall k | 0 <= k < |g| ensures WithColsLeft(g, 0)[k] == g[k] {
        assert EmptyRow(0) + g[k] == g[k];
      }
    }
    forall k | 0 <= k < |g|
      ensures WithColsLeft(WithColsLeft(g, i), 1)[k] == WithColsLeft(g, i + 1)[k]
    {
      assert EmptyRow(i) + EmptyRow(1) == EmptyRow(i + 1);
      assert EmptyRow(1) + (EmptyRow(i) + g[k]) == EmptyRow(i + 1) + g[k];
    }
  }

  /** The cell of a grid surrounded by a border of width w: old cells move w down and w right,
      the others are Empty. */
  function BorderedCell(g: Grid, w: nat, r: int, c: int): MapItem
    requires Rectangular(g)
  {
    if w <= r < w + RowsOf(g) && w <= c < w + ColsOf(g) then g[r - w][c - w] else NewEmpty()
  }

  lemma OneBorder(g: Grid)
    requires Rectangular(g)
    ensures var b := WithBorderOnce(g);
      Rectangular(b) && RowsOf(b) == RowsOf(g) + 2 && ColsOf(b) == ColsOf(g) + 2 &&
      forall r, c :: 0 <= r < RowsOf(b) && 0 <= c < ColsOf(b) ==> b[r][c] == BorderedCell(g, 1, r, c)
  {
    var t := WithRowsTop(g, 1);
    TopGrowth(g, 1);
    var tb := WithRowsBottom(t, 1);
    BottomGrowth(t, 1);
    var tbl := WithColsLeft(tb, 1);
    LeftGrowth(tb, 1);
    var b := WithColsRight(tbl, 1);
    RightGrowth(tbl, 1);
    forall r, c | 0 <= r < RowsOf(b) && 0 <= c < ColsOf(b)
      ensures b[r][c] == BorderedCell(g, 1, r, c)
    {
      if c < ColsOf(tbl) {
        assert b[r][c] == tbl[r][c];
        if c >= 1 {
          assert tbl[r][c] == tb[r][c - 1];
          if r < RowsOf(t) {
            assert tb[r][c - 1] == t[r][c - 1];
          }
        }
      }
    }
  }

  /** A border of width w adds 2w rows and 2w columns, even to a grid without rows, moves every
      old cell w down and w right, and surrounds the old cells with Empty cells. */
  lemma {:induction false} BorderGrowth(g: Grid, w: nat)
    requires Rectangular(g)
    ensures var b := WithBorder(g, w);
      Rectangular(b) && RowsOf(b) == RowsOf(g) + 2 * w && ColsOf(b) == ColsOf(g) + 2 * w &&
      forall r, c :: 0 <= r < RowsOf(b) && 0 <= c < ColsOf(b) ==> b[r][c] == BorderedCell(g, w, r, c)
    decreases w
  {
    if w > 0 {
      var g1 := WithBorderOnce(g);
      OneBorder(g);
      BorderGrowth(g1, w - 1);
      var b := WithBorder(g, w);
      assert b == WithBorder(g1, w - 1);
      forall r, c | 0 <= r < RowsOf(b) && 0 <= c < ColsOf(b)
        ensures b[r][c] == BorderedCell(g, w, r, c)
      {
        assert b[r][c] == BorderedCell(g1, w - 1, r, c);
        if w - 1 <= r < w - 1 + RowsOf(g1) && w - 1 <= c < w - 1 + ColsOf(g1) {
          assert b[r][c] == g1[r - (w - 1)][c - (w - 1)];
          assert g1[r - (w - 1)][c - (w - 1)] == BorderedCell(g, 1, r - (w - 1), c - (w - 1));
        }
      }
    }
  }

  /** The first cell, in row-major order, that satisfies p: the column within one row. */
  function FindInRow(row: seq<MapItem>, p: MapItem -> bool, from: nat): (c: int)
    requires from <= |row|
    ensures c == -1 || from <= c < |row|
    decreases |row| - from
  {
    if from == |row| then -1
    else if p(row[from]) then from
    else FindInRow(row, p, from + 1)
  }

  /** The first cell, in row-major order from row `from` on, that satisfies p, or (-1,-1). */
  function FindWhere(g: Grid, p: MapItem -> bool, from: nat): Coordinate
    requires from <= |g|
    decreases |g| - from
  {
    if from == |g| then NotFound
    else
      var c := FindInRow(g[from], p, 0);
      if c >= 0 then Coordinate(from, c) else FindWhere(g, p, from + 1)
  }

  /** `CoordOf(ID)` and `CoordOf(mapItem)` look for these. */
  function HasID(id: char): MapItem -> bool {
    (item: MapItem) => item.ID == id
  }

  function EqualsItem(item: MapItem): MapItem -> bool {
    (other: MapItem) => ItemEquals(other, item)
  }

  lemma {:induction false} FindInRowIsFirst(row: seq<MapItem>, p: MapItem -> bool, from: nat)
    requires from <= |row|
    ensures var c := FindInRow(row, p, from);
      (c == -1 <==> forall k :: from <= k < |row| ==> !p(row[k])) &&
      (c != -1 ==> p(row[c]) && forall k :: from <= k < c ==> !p(row[k]))
    decreases |row| - from
  {
    if from < |row| && !p(row[from]) {
      FindInRowIsFirst(row, p, from + 1);
    }
  }

  /** Row-major order: (r, k) comes before c. */
  predicate Before(r: int, k: int, c: Coordinate) {
    r < c.Y || (r == c.Y && k < c.X)
  }

  /** The search returns (-1,-1) exactly when no cell matches, and otherwise a matching cell
      with no matching cell before it in row-major order. */
  lemma {:induction false} FindWhereIsFirst(g: Grid, p: MapItem -> bool, from: nat)
    requires from <= |g|
    ensures var c := FindWhere(g, p, from);
      (c == NotFound <==> forall r, k :: from <= r < |g| && 0 <= k < |g[r]| ==> !p(g[r][k])) &&
      (c != NotFound ==>
        from <= c.Y < |g| && 0 <= c.X < |g[c.Y]| && p(g[c.Y][c.X]) &&
        forall r, k :: from <= r < |g| && 0 <= k < |g[r]| && Before(r, k, c) ==> !p(g[r][k]))
    decreases |g| - from
  {
    if from < |g| {
      FindInRowIsFirst(g[from], p, 0);
      FindWhereIsFirst(g, p, from + 1);
    }
  }

  /** The k-th step (0 to 8) of the nested loops of `AdjacentCoordinatesOf`: three steps per
      row offset -1, 0, 1, the column offset running -1, 0, 1 within each; step 4 is the centre. */
  function Offset(k: int): Coordinate {
    var dy := if k < 3 then -1 else if k < 6 then 0 else 1;
    Coordinate(dy, k - 3 * (dy + 1) - 1)
  }

  /** The step at which the loops visit an offset. */
  function StepOf(o: Coordinate): int {
    (o.Y + 1) * 3 + (o.X + 1)
  }

  predicate IsUnitOffset(o: Coordinate) {
    -1 <= o.Y <= 1 && -1 <= o.X <= 1
  }

  lemma OffsetStep(k: int, o: Coordinate)
    requires 0 <= k < 9
    ensures IsUnitOffset(Offset(k)) && StepOf(Offset(k)) == k
    ensures IsUnitOffset(o) ==> 0 <= StepOf(o) < 9 && Offset(StepOf(o)) == o
  {
  }

  /** The in-bounds neighbours of c visited in the first k steps, the centre excluded. */
  function Neighbours(rows: int, cols: int, c: Coordinate, k: nat): seq<Coordinate>
    decreases k
  {
    if k == 0 then []
    else
      var n := c.Plus(Offset(k - 1));
      Neighbours(rows, cols, c, k - 1) +
      (if Offset(k - 1) != Coordinate(0, 0) && 0 <= n.Y < rows && 0 <= n.X < cols then [n] else [])
  }

  /** One step of the nested loops adds the neighbour at offset (i, j) when it is not the
      centre and lies on the grid. */
  lemma NeighboursStep(rows: int, cols: int, c: Coordinate, i: int, j: int, k: nat)
    requires -1 <= i <= 1 && -1 <= j <= 1 && k == 3 * (i + 1) + (j + 1)
    ensures !(i == 0 && j == 0) && 0 <= c.Y + i < rows && 0 <= c.X + j < cols ==>
      Neighbours(rows, cols, c, k + 1) == Neighbours(rows, cols, c, k) + [Coordinate(c.Y + i, c.X + j)]
    ensures !(!(i == 0 && j == 0) && 0 <= c.Y + i < rows && 0 <= c.X + j < cols) ==>
      Neighbours(rows, cols, c, k + 1) == Neighbours(rows, cols, c, k)
  {
    OffsetStep(k, Coordinate(i, j));
  }

  /** Row-major order on coordinates. */
  predicate Precedes(a: Coordinate, b: Coordinate) {
    a.Y < b.Y || (a.Y == b.Y && a.X < b.X)
  }

  predicate Adjacent8(a: Coordinate, b: Coordinate) {
    a != b && Abs(a.Y - b.Y) <= 1 && Abs(a.X - b.X) <= 1
  }

  function Diff(a: Coordinate, b: Coordinate): Coordinate {
    Coordinate(a.Y - b.Y, a.X - b.X)
  }

  /** The cell the loops consider at step k is n exactly when n is the in-bounds 8-neighbour
      whose offset from c is visited at step k. */
  lemma NeighbourOfStep(rows: int, cols: int, c: Coordinate, k: nat, n: Coordinate)
    requires k < 9
    ensures (n == c.Plus(Offset(k)) && Offset(k) != Coordinate(0, 0) && 0 <= n.Y < rows && 0 <= n.X < cols) <==>
      (Adjacent8(n, c) && 0 <= n.Y < rows && 0 <= n.X < cols && StepOf(Diff(n, c)) == k)
  {
    OffsetStep(k, Diff(n, c));
  }

  lemma {:induction false} NeighboursMembers(rows: int, cols: int, c: Coordinate, k: nat, n: Coordinate)
    requires k <= 9
    ensures n in Neighbours(rows, cols, c, k) <==>
      Adjacent8(n, c) && 0 <= n.Y < rows && 0 <= n.X < cols && StepOf(Diff(n, c)) < k
    decreases k
  {
    if k > 0 {
      NeighboursMembers(rows, cols, c, k - 1, n);
      NeighbourOfStep(rows, cols, c, k - 1, n);
    }
  }

  lemma {:induction false} NeighboursLength(rows: int, cols: int, c: Coordinate, k: nat)
    requires k <= 9
    ensures |Neighbours(rows, cols, c, k)| <= if k <= 4 then k else k - 1
    decreases k
  {
    if k > 0 {
      NeighboursLength(rows, cols, c, k - 1);
    }
  }

  lemma {:induction false} NeighboursOrdered(rows: int, cols: int, c: Coordinate, k: nat)
    requires k <= 9
    ensures var ns := Neighbours(rows, cols, c, k);
      forall i, j :: 0 <= i < j < |ns| ==> Precedes(ns[i], ns[j])
    decreases k
  {
    if k > 0 {
      NeighboursOrdered(rows, cols, c, k - 1);
      var prev := Neighbours(rows, cols, c, k - 1);
      var n := c.Plus(Offset(k - 1));
      OffsetStep(k - 1, Coordinate(0, 0));
      forall i | 0 <= i < |prev| ensures Precedes(prev[i], n) {
        NeighboursMembers(rows, cols, c, k - 1, prev[i]);
        OffsetStep(k - 1, Diff(prev[i], c));
      }
    }
  }

  /** The neighbour list holds exactly the in-bounds 8-neighbours of c, each once, in row-major
      order; so there are at most 8 of them. */
  lemma NeighboursAreTheEightAdjacent(rows: int, cols: int, c: Coordinate)
    ensures var ns := Neighbours(rows, cols, c, 9);
      |ns| <= 8 &&
      (forall n :: n in ns <==> Adjacent8(n, c) && 0 <= n.Y < rows && 0 <= n.X < cols) &&
      (forall i, j :: 0 <= i < j < |ns| ==> Precedes(ns[i], ns[j]))
  {
    NeighboursLength(rows, cols, c, 9);
    NeighboursOrdered(rows, cols, c, 9);
    forall n ensures n in Neighbours(rows, cols, c, 9) <==>
      Adjacent8(n, c) && 0 <= n.Y < rows && 0 <= n.X < cols
    {
      NeighboursMembers(rows, cols, c, 9, n);
    }
  }

  /** The nested loops of `AdjacentCoordinatesOf` on a map of the given size. */
  method AdjacentCoordinatesWithin(rows: int, cols: int, c: Coordinate) returns (acs: seq<Coordinate>)
    ensures acs == Neighbours(rows, cols, c, 9)
  {
    acs := [];
    ghost var k := 0;
    var i := -1;
    while i <= 1
      invariant -1 <= i <= 2 && k == 3 * (i + 1)
      invariant acs == Neighbours(rows, cols, c, k)
    {
      var j := -1;
      while j <= 1
        invariant -1 <= j <= 2 && k == 3 * (i + 1) + (j + 1)
        invariant acs == Neighbours(rows, cols, c, k)
      {
        NeighboursStep(rows, cols, c, i, j, k);
        if !(i == 0 && j == 0) {
          var rowIdx := c.Y + i;
          var colIdx := c.X + j;
          if rowIdx < rows && colIdx < cols && colIdx >= 0 && rowIdx >= 0 {
            acs := acs + [Coordinate(rowIdx, colIdx)];
          }
        }
        assert acs == Neighbours(rows, cols, c, k + 1);
        j := j + 1;
        k := k + 1;
      }
      i := i + 1;
    }
  }

  /** The coordinates of all Vertex cells, row-major, from row `from` on. */
  function VertexCoords(g: Grid, from: nat): seq<Coordinate>
    requires from <= |g|
    decreases |g| - from
  {
    if from == |g| then [] else VertexCoordsInRow(g[from], from, 0) + VertexCoords(g, from + 1)
  }

  function VertexCoordsInRow(row: seq<MapItem>, y: int, from: nat): seq<Coordinate>
    requires from <= |row|
    decreases |row| - from
  {
    if from == |row| then []
    else
      (if row[from].Status == VertexCell then [Coordinate(y, from)] else []) +
      VertexCoordsInRow(row, y, from + 1)
  }

  lemma {:induction false} VertexCoordsInRowExact(row: seq<MapItem>, y: int, from: nat)
    requires from <= |row|
    ensures var vs := VertexCoordsInRow(row, y, from);
      (forall c :: c in vs <==> c.Y == y && from <= c.X < |row| && row[c.X].Status == VertexCell) &&
      (forall i, j :: 0 <= i < j < |vs| ==> vs[i].X < vs[j].X)
    decreases |row| - from
  {
    if from < |row| {
      VertexCoordsInRowExact(row, y, from + 1);
    }
  }

  /** The vertex list holds exactly the coordinates of Vertex cells, each once, in row-major
      order. */
  lemma {:induction false} VertexCoordsExact(g: Grid, from: nat)
    requires from <= |g|
    ensures var vs := VertexCoords(g, from);
      (forall c :: c in vs <==>
        from <= c.Y < |g| && 0 <= c.X < |g[c.Y]| && g[c.Y][c.X].Status == VertexCell) &&
      (forall i, j :: 0 <= i < j < |vs| ==> Precedes(vs[i], vs[j]))
    decreases |g| - from
  {
    if from < |g| {
      VertexCoordsInRowExact(g[from], from, 0);
      VertexCoordsExact(g, from + 1);
      var a := VertexCoordsInRow(g[from], from, 0);
      var b := VertexCoords(g, from + 1);
      forall i, j | 0 <= i < j < |a + b| ensures Precedes((a + b)[i], (a + b)[j]) {
        if j >= |a| && i < |a| {
          assert (a + b)[i] in a && (a + b)[j] in b;
        }
      }
    }
  }

  /** The game map. */
  class Map {
    var items: Grid

    ghost predicate Valid()
      reads this
    {
      Rectangular(items)
    }

    function Rows(): nat
      reads this
    {
      |items|
    }

    function Cols(): nat
      reads this
    {
      ColsOf(items)
    }

    /** The cell at c (the indexer). */
    function At(c: Coordinate): MapItem
      requires Valid() && HasCoordinate(c)
      reads this
    {
      items[c.Y][c.X]
    }

    /** `new Map()`: no rows and no columns. */
    constructor ()
      ensures Valid() && items == []
    {
      items := [];
    }

    /** `new Map(map)`: the same dimensions, every cell a copy (without its connection lists)
        that `Equals` the original. */
    constructor Copy(other: Map)
      requires other.Valid()
      ensures Valid() && Rows() == other.Rows() && Cols() == other.Cols()
      ensures forall r, c :: 0 <= r < Rows() && 0 <= c < Cols() ==>
        items[r][c] == CopyOf(other.items[r][c]) && ItemEquals(items[r][c], other.items[r][c])
    {
      items := [];
      new;
      var row := 0;
      while row < other.Rows()
        invariant 0 <= row <= other.Rows() && Valid() && |items| == row
        invariant row > 0 ==> Cols() == other.Cols()
        invariant forall r, c :: 0 <= r < row && 0 <= c < other.Cols() ==>
          items[r][c] == CopyOf(other.items[r][c])
      {
        AddRowBottom();
        var col := 0;
        while col < other.Cols()
          invariant 0 <= col <= other.Cols() && Valid() && |items| == row + 1
          invariant row == 0 ==> Cols() == col
          invariant row > 0 ==> Cols() == other.Cols()
          invariant forall r, c :: 0 <= r < row && 0 <= c < other.Cols() ==>
            items[r][c] == CopyOf(other.items[r][c])
          invariant forall c :: 0 <= c < col ==> items[row][c] == CopyOf(other.items[row][c])
        {
          if row == 0 {
            AddColRight();
          }
          Set(Coordinate(row, col), CopyOf(other.items[row][col]));
          col := col + 1;
        }
        row := row + 1;
      }
    }

    /** The indexer's setter. */
    method Set(c: Coordinate, item: MapItem)
      requires Valid() && HasCoordinate(c)
      modifies this
      ensures Valid() && items == old(items)[c.Y := old(items)[c.Y][c.X := item]]
    {
      items := items[c.Y := items[c.Y][c.X := item]];
    }

    /** Adds one row of Empty cells, as wide as the map, at the bottom. */
    method AddRowBottom()
      requires Valid()
      modifies this
      ensures Valid() && items == WithRowsBottom(old(items), 1)
      ensures Rows() == old(Rows()) + 1 && Cols() == old(Cols())
    {
      var newRow := [];
      var i := 0;
      while i < Cols()
        invariant 0 <= i <= Cols() && newRow == EmptyRow(i)
      {
        newRow := newRow + [NewEmpty()];
        i := i + 1;
      }
      assert [newRow] == EmptyRows(1, Cols());
      BottomGrowth(items, 1);
      items := items + [newRow];
    }

    method AddRowsBottom(amount: int)
      requires Valid()
      modifies this
      ensures Valid() && items == WithRowsBottom(old(items), Count(amount))
    {
      BottomSteps(items, 0);
      var i := 0;
      while i < amount
        invariant Valid() && 0 <= i <= Count(amount)
        invariant items == WithRowsBottom(old(items), i)
      {
        BottomSteps(old(items), i);
        AddRowBottom();
        i := i + 1;
      }
    }

    /** Adds one row of Empty cells, as wide as the map, on top. */
    method AddRowTop()
      requires Valid()
      modifies this
      ensures Valid() && items == WithRowsTop(old(items), 1)
      ensures Rows() == old(Rows()) + 1 && Cols() == old(Cols())
    {
      var newRow := [];
      var i := 0;
      while i < Cols()
        invariant 0 <= i <= Cols() && newRow == EmptyRow(i)
      {
        newRow := newRow + [NewEmpty()];
        i := i + 1;
      }
      assert [newRow] == EmptyRows(1, Cols());
      TopGrowth(items, 1);
      items := [newRow] + items;
    }

    method AddRowsTop(amount: int)
      requires Valid()
      modifies this
      ensures Valid() && items == WithRowsTop(old(items), Count(amount))
    {
      TopSteps(items, 0);
      var i := 0;
      while i < amount
        invariant Valid() && 0 <= i <= Count(amount)
        invariant items == WithRowsTop(old(items), i)
      {
        TopSteps(old(items), i);
        AddRowTop();
        i := i + 1;
      }
    }

    /** Appends an Empty cell to every row; with no rows it does nothing. */
    method AddColRight()
      requires Valid()
      modifies this
      ensures Valid() && items == WithColsRight(old(items), 1)
      ensures Rows() == old(Rows()) && Cols() == if Rows() == 0 then 0 else old(Cols()) + 1
    {
      var i := 0;
      while i < Rows()
        invariant 0 <= i <= Rows() == |old(items)|
        invariant forall k :: 0 <= k < |items| ==>
          items[k] == if k < i then old(items)[k] + [NewEmpty()] else old(items)[k]
      {
        items := items[i := items[i] + [NewEmpty()]];
        i := i + 1;
      }
      assert EmptyRow(1) == [NewEmpty()];
      RightGrowth(old(items), 1);
    }

    method AddColsRight(amount: int)
      requires Valid()
      modifies this
      ensures Valid() && items == WithColsRight(old(items), Count(amount))
    {
      RightSteps(items, 0);
      var i := 0;
      while i < amount
        invariant Valid() && 0 <= i <= Count(amount)
        invariant items == WithColsRight(old(items), i)
      {
        RightSteps(old(items), i);
        AddColRight();
        i := i + 1;
      }
    }

    /** Prepends an Empty cell to every row; with no rows it does nothing. */
    method AddColLeft()
      requires Valid()
      modifies this
      ensures Valid() && items == WithColsLeft(old(items), 1)
      ensures Rows() == old(Rows()) && Cols() == if Rows() == 0 then 0 else old(Cols()) + 1
    {
      var i := 0;
      while i < Rows()
        invariant 0 <= i <= Rows() == |old(items)|
        invariant forall k :: 0 <= k < |items| ==>
          items[k] == if k < i then [NewEmpty()] + old(items)[k] else old(items)[k]
      {
        items := items[i := [NewEmpty()] + items[i]];
        i := i + 1;
      }
      assert EmptyRow(1) == [NewEmpty()];
      LeftGrowth(old(items), 1);
    }

    method AddColsLeft(amount: int)
      requires Valid()
      modifies this
      ensures Valid() && items == WithColsLeft(old(items), Count(amount))
    {
      LeftSteps(items, 0);
      var i := 0;
      while i < amount
        invariant Valid() && 0 <= i <= Count(amount)
        invariant items == WithColsLeft(old(items), i)
      {
        LeftSteps(old(items), i);
        AddColLeft();
        i := i + 1;
      }
    }

    /** Surrounds the map with `width` rings of Empty cells (see `BorderGrowth`). */
    method AddBorder(width: int)
      requires Valid()
      modifies this
      ensures Valid() && items == WithBorder(old(items), Count(width))
    {
      var i := 0;
      while i < width
        invariant Valid() && 0 <= i <= Count(width)
        invariant WithBorder(items, Count(width) - i) == WithBorder(old(items), Count(width))
      {
        ghost var before := items;
        AddRowTop();
        AddRowBottom();
        AddColLeft();
        AddColRight();
        assert items == WithBorderOnce(before);
        i := i + 1;
      }
    }

    /** True iff c lies on the map. */
    function HasCoordinate(c: Coordinate): (b: bool)
      reads this
      ensures b <==> InBounds(items, c)
    {
      c.Y >= 0 && c.Y < Rows() && c.X >= 0 && c.X < Cols()
    }

    /** The nested loops of both `CoordOf` overloads. */
    method FirstCoordWhere(p: MapItem -> bool) returns (c: Coordinate)
      requires Valid()
      ensures c == FindWhere(items, p, 0)
    {
      var row := 0;
      while row < Rows()
        invariant 0 <= row <= Rows()
        invariant FindWhere(items, p, 0) == FindWhere(items, p, row)
      {
        var col := 0;
        while col < Cols()
          invariant 0 <= col <= Cols()
          invariant FindInRow(items[row], p, 0) == FindInRow(items[row], p, col)
        {
          if p(items[row][col]) {
            return Coordinate(row, col);
          }
          col := col + 1;
        }
        row := row + 1;
      }
      return NotFound;
    }

    /** `CoordOf(ID)`: the first cell, row-major, with this ID, or (-1,-1). */
    method CoordOf(id: char) returns (c: Coordinate)
      requires Valid()
      ensures c == FindWhere(items, HasID(id), 0)
    {
      c := FirstCoordWhere(HasID(id));
    }

    /** `CoordOf(mapItem)`: the first cell, row-major, that `Equals` the item, or (-1,-1). */
    method CoordOfItem(item: MapItem) returns (c: Coordinate)
      requires Valid()
      ensures c == FindWhere(items, EqualsItem(item), 0)
    {
      c := FirstCoordWhere(EqualsItem(item));
    }

    /** The in-bounds 8-neighbours of c, centre excluded, in row-major order. */
    method AdjacentCoordinatesOf(c: Coordinate) returns (acs: seq<Coordinate>)
      requires Valid()
      ensures acs == Neighbours(Rows(), Cols(), c, 9)
    {
      acs := AdjacentCoordinatesWithin(Rows(), Cols(), c);
    }

    /** `GetListOfVertexCoords`: the coordinates of the Vertex cells, row-major. */
    method GetListOfVertexCoords() returns (coords: seq<Coordinate>)
      requires Valid()
      ensures coords == VertexCoords(items, 0)
    {
      coords := [];
      var row := 0;
      while row < Rows()
        invariant 0 <= row <= Rows()
        invariant coords + VertexCoords(items, row) == VertexCoords(items, 0)
      {
        var col := 0;
        var rowCoords := [];
        while col < Cols()
          invariant 0 <= col <= Cols()
          invariant rowCoords + VertexCoordsInRow(items[row], row, col) ==
            VertexCoordsInRow(items[row], row, 0)
        {
          if items[row][col].Status == VertexCell {
            rowCoords := rowCoords + [Coordinate(row, col)];
          }
          col := col + 1;
        }
        coords := coords + rowCoords;
        row := row + 1;
      }
    }

    /** `GetListOfVerticesByRef`: the Vertex cells, row-major. The program returns live cells;
        here they are the cells at `GetListOfVertexCoords`' coordinates. */
    method GetListOfVerticesByRef() returns (cells: seq<MapItem>)
      requires Valid()
      ensures var vs := VertexCoords(items, 0);
        |cells| == |vs| && forall i :: 0 <= i < |vs| ==>
          InBounds(items, vs[i]) && cells[i] == items[vs[i].Y][vs[i].X] && cells[i].Status == VertexCell
    {
      var coords := GetListOfVertexCoords();
      VertexCoordsExact(items, 0);
      cells := [];
      var i := 0;
      while i < |coords|
        invariant 0 <= i <= |coords|
        invariant |cells| == i
        invariant forall k :: 0 <= k < i ==>
          InBounds(items, coords[k]) && cells[k] == items[coords[k].Y][coords[k].X]
      {
        assert coords[i] in coords;
        cells := cells + [items[coords[i].Y][coords[i].X]];
        i := i + 1;
      }
    }
  }
}
