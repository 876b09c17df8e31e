/** The layout as a whole (`GenerateGraphLayout` in Graph.cs): the backbone row and the
    placement rounds, and why a finished layout holds one vertex cell per vertex: the backbone
    holds the path, the rounds add one cell per missed vertex, and neither the border, nor
    squaring, nor drawing routes adds or removes a vertex cell. */
module Assembly {
  import opened Common
  import opened Sequences
  import opened PathSegments
  import opened MapItems
  import opened GridMap
  import opened Vertices
  import opened Layout
  import opened Placement
  import opened Wiring

  /** The map `AddTheHorizontalVertices(p)` builds on the empty map. */
  function Backbone(p: seq<Vertex>): (g: Grid)
    ensures Rectangular(g) && |g| <= 1
  {
    if p == [] then [] else [BackboneRow(p)]
  }

  /** The backbone and the placement rounds together, from the vertex list. */
  ghost function Arranged(vs: seq<Vertex>): Progress
    requires Declared(vs)
  {
    var p := LongestPath(vs);
    Rounds(Backbone(p), MissedVertices(vs, p))
  }

  /** The placement rounds left no vertex out: `AddMissedVertices` answers true. */
  ghost predicate Laid(vs: seq<Vertex>)
    requires Declared(vs)
  {
    Arranged(vs).left == []
  }

  /** A vertex whose ID is the empty character makes an Empty cell, so only the others
      count. */
  predicate NamedIDs(vs: seq<Vertex>) {
    forall k :: 0 <= k < |vs| ==> vs[k].ID != NoID
  }

  /** The backbone row holds one vertex cell per path vertex. */
  lemma {:induction false} BackboneRowCount(p: seq<Vertex>)
    requires NamedIDs(p)
    ensures RowVertexCount(BackboneRow(p)) == |p|
    decreases |p|
  {
    if |p| == 1 {
      BackboneVertexCell(p, 0);
      assert BackboneRow(p)[..0] == [];
    } else if |p| > 1 {
      var done := p[..|p| - 1];
      var v := p[|p| - 1];
      assert done + [v] == p;
      BackboneRowCount(done);
      BackboneRowPush(done, v);
      var row := BackboneRow(done);
      AppendedSteps(row, v, done[|done| - 1].ID);
      var last := row[|row| - 1];
      var ext := row + [NewPath(Horizontal)];
      var cell := NewVertex(v.ID, v.ConnectedVertexIDs, RemovedFirst(v.ConnectedVertexIDs, done[|done| - 1].ID));
      RowVertexCountAppend(row, [NewPath(Horizontal)]);
      assert [NewPath(Horizontal)][..0] == [];
      RowCountUpdate(ext, |row| - 1, last.(MissingConnections := RemovedFirst(last.MissingConnections, v.ID)));
      var updated := ext[|row| - 1 := last.(MissingConnections := RemovedFirst(last.MissingConnections, v.ID))];
      RowVertexCountAppend(updated, [cell]);
      assert [cell][..0] == [];
    }
  }

  lemma BackboneCount(p: seq<Vertex>)
    requires NamedIDs(p)
    ensures VertexCount(Backbone(p)) == |p|
  {
    if p != [] {
      BackboneRowCount(p);
      assert Backbone(p)[..0] == [];
    }
  }

  /** Removing a vertex by ID keeps every vertex with another ID. */
  lemma RemovedFirstIDKeeps(vs: seq<Vertex>, v: Vertex, u: Vertex)
    requires u in vs && u.ID != v.ID
    ensures u in RemovedFirstID(vs, v)
  {
    var i := IndexOfID(vs, v.ID);
    if i != -1 {
      var k :| 0 <= k < |vs| && vs[k] == u;
      var r := RemovedFirstID(vs, v);
      if k < i { assert r[k] == u; } else { assert r[k - 1] == u; }
    }
  }

  /** A path through the vertex list without a repeated ID leaves all other vertices missed,
      whatever IDs the other vertices repeat. */
  lemma {:induction false} MissedCount(vs: seq<Vertex>, p: seq<Vertex>)
    requires DistinctIDs(p) && forall k :: 0 <= k < |p| ==> p[k] in vs
    ensures |MissedVertices(vs, p)| == |vs| - |p|
    decreases |p|
  {
    if p != [] {
      var r := RemovedFirstID(vs, p[0]);
      var j :| 0 <= j < |vs| && vs[j] == p[0];
      assert IDs(vs)[j] == p[0].ID;
      forall k | 0 <= k < |p[1..]| ensures p[1..][k] in r {
        assert p[1..][k] == p[k + 1];
        RemovedFirstIDKeeps(vs, p[0], p[k + 1]);
      }
      MissedCount(r, p[1..]);
    }
  }

  /** The longest path is a chain through the list without a repeated ID, so its IDs are
      named when the list's are. */
  lemma LongestPathFacts(vs: seq<Vertex>)
    requires Declared(vs) && NoSelfLoops(vs) && NamedIDs(vs)
    ensures var p := LongestPath(vs);
      NamedIDs(p) && DistinctIDs(p) && forall k :: 0 <= k < |p| ==> p[k] in vs
  {
    var p := LongestPath(vs);
    LongestPathIsChain(vs);
    forall k | 0 <= k < |p| ensures p[k].ID != NoID {
      var j :| 0 <= j < |vs| && vs[j] == p[k];
    }
  }

  /** The backbone's vertex cells and the missed vertices together account for every vertex. */
  lemma BackboneAndMissedCount(vs: seq<Vertex>, p: seq<Vertex>)
    requires NamedIDs(p) && DistinctIDs(p) && forall k :: 0 <= k < |p| ==> p[k] in vs
    ensures VertexCount(Backbone(p)) + |MissedVertices(vs, p)| == |vs|
  {
    BackboneCount(p);
    MissedCount(vs, p);
  }

  /** When the placement rounds leave nothing out, the map holds one vertex cell per vertex. */
  lemma LaidHoldsEveryVertex(vs: seq<Vertex>)
    requires Declared(vs) && NoSelfLoops(vs) && NamedIDs(vs) && Laid(vs)
    ensures VertexCount(Arranged(vs).grid) == |vs|
  {
    var p := LongestPath(vs);
    LongestPathFacts(vs);
    BackboneAndMissedCount(vs, p);
    RoundsAllPlaced(Backbone(p), MissedVertices(vs, p));
  }

  // ----- what keeps the count -----

  lemma {:induction false} SameStatusRowCount(a: seq<MapItem>, b: seq<MapItem>)
    requires |a| == |b| && forall x :: 0 <= x < |a| ==> (a[x].Status == VertexCell <==> b[x].Status == VertexCell)
    ensures RowVertexCount(a) == RowVertexCount(b)
    decreases |a|
  {
    if a != [] {
      SameStatusRowCount(a[..|a| - 1], b[..|b| - 1]);
    }
  }

  lemma {:induction false} SameStatusCount(g: Grid, h: Grid)
    requires |g| == |h|
    requires forall y :: 0 <= y < |g| ==>
      |g[y]| == |h[y]| && forall x :: 0 <= x < |g[y]| ==> (g[y][x].Status == VertexCell <==> h[y][x].Status == VertexCell)
    ensures VertexCount(g) == VertexCount(h)
    decreases |g|
  {
    if g != [] {
      var k := |g| - 1;
      SameStatusRowCount(g[k], h[k]);
      SameStatusCount(g[..k], h[..k]);
    }
  }

  /** Drawing routes turns Empty cells into path cells only, so the vertex cells stay. */
  lemma WiredKeepsCount(g: Grid, h: Grid)
    requires Wired(g, h)
    ensures VertexCount(h) == VertexCount(g)
  {
    forall y | 0 <= y < |g| ensures |g[y]| == |h[y]| &&
      forall x :: 0 <= x < |g[y]| ==> (g[y][x].Status == VertexCell <==> h[y][x].Status == VertexCell)
    {
      forall x | 0 <= x < |g[y]| ensures g[y][x].Status == VertexCell <==> h[y][x].Status == VertexCell {
        assert CellWired(g[y][x], h[y][x]);
      }
    }
    SameStatusCount(g, h);
  }

  /** The border adds Empty cells only. */
  lemma {:induction false} BorderKeepsCount(g: Grid, w: nat)
    ensures VertexCount(WithBorder(g, w)) == VertexCount(g)
    decreases w
  {
    if w > 0 {
      var t := WithRowsTop(g, 1);
      var b := WithRowsBottom(t, 1);
      var l := WithColsLeft(b, 1);
      GrowthKeepsCount(g, 1);
      GrowthKeepsCount(t, 1);
      GrowthKeepsCount(b, 1);
      GrowthKeepsCount(l, 1);
      BorderKeepsCount(WithBorderOnce(g), w - 1);
    }
  }

  /** Squaring the map adds Empty rows or columns only. */
  lemma SquaredKeepsCount(g: Grid)
    ensures VertexCount(Squared(g)) == VertexCount(g)
  {
    var d := ColsOf(g) - RowsOf(g);
    if d > 0 {
      var t := WithRowsTop(g, d / 2);
      assert Squared(g) == WithRowsBottom(t, d / 2);
      GrowthKeepsCount(g, d / 2);
      GrowthKeepsCount(t, d / 2);
    } else if -d > 0 {
      var l := WithColsLeft(g, -d / 2);
      assert Squared(g) == WithColsRight(l, -d / 2);
      GrowthKeepsCount(g, -d / 2);
      GrowthKeepsCount(l, -d / 2);
    } else {
      assert Squared(g) == g;
    }
  }
}
