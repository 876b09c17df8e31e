/** The layout engine of Graph.cs, first half, as functions: reading the map file into
    vertices (`ParseMap`), the depth-first search for the longest loop-free path starting
    at a least-connected vertex (`DFS`, `SearchLongestPath`), the row of vertices that path
    becomes (`AddTheHorizontalVertices`) and the vertices it leaves out
    (`GenerateMissedVertices`).
    The class Graph in graph.dfy runs these steps imperatively and is proved equal to them. */
module Layout {
  import opened Common
  import opened Sequences
  import opened Numerals
  import opened PathSegments
  import opened MapItems
  import opened GridMap
  import opened Vertices

  /** Every neighbour ID a vertex lists is the ID of a vertex of the list (`ParseMap` refuses
      a map file where this fails). */
  predicate Declared(vs: seq<Vertex>) {
    forall v, id :: v in vs && id in v.ConnectedVertexIDs ==> id in IDs(vs)
  }

  /** No vertex lists itself as a neighbour. */
  predicate NoSelfLoops(vs: seq<Vertex>) {
    forall v :: v in vs ==> v.ID !in v.ConnectedVertexIDs
  }

  /** The vertex a map-file line declares: its first character is the ID, the rest are the
      neighbour IDs. */
  function LineVertex(line: string): Vertex {
    if line == [] then DefaultVertex else Vertex(line[0], line[1..])
  }

  function LinesVertices(lines: seq<string>): (vs: seq<Vertex>)
    ensures |vs| == |lines| && forall k :: 0 <= k < |lines| ==> vs[k] == LineVertex(lines[k])
  {
    seq(|lines|, k requires 0 <= k < |lines| => LineVertex(lines[k]))
  }

  /** `ParseMap(mapLines)`: line 0 holds the vertex count n, lines 1 to n declare one vertex
      each. No line 0, a line 1..n that is missing or empty, a count that is not a numeral and
      a neighbour ID that no vertex has are errors; a count below one declares nothing and
      lines after line n are ignored. */
  function ParsedVertices(mapLines: seq<string>): Result<seq<Vertex>> {
    if mapLines == [] then Err(IndexOutOfRange)
    else match ParseInt32(mapLines[0])
      case Err(e) => Err(e)
      case Ok(n) =>
        if n >= |mapLines| || exists i :: 1 <= i <= n && mapLines[i] == [] then Err(IndexOutOfRange)
        else
          var vs := LinesVertices(mapLines[1..Count(n) + 1]);
          if !Declared(vs) then Err(InvalidOperation) else Ok(vs)
  }

  /** The exception for a count line that reads n and a line 1..n that is missing or empty. */
  lemma ParsedVerticesShortFile(mapLines: seq<string>, n: int, i: int)
    requires mapLines != [] && ParseInt32(mapLines[0]) == Ok(n) && 1 <= i <= n
    requires i >= |mapLines| || mapLines[i] == []
    ensures ParsedVertices(mapLines) == Err(IndexOutOfRange)
  {
  }

  /** With all of lines 1..n present and non-empty, the parse is the lines' vertices when
      their neighbours are declared and InvalidOperation otherwise. */
  lemma ParsedVerticesWellFormed(mapLines: seq<string>, n: int)
    requires mapLines != [] && ParseInt32(mapLines[0]) == Ok(n)
    requires Count(n) < |mapLines| && forall l :: 1 <= l <= n ==> mapLines[l] != []
    ensures var vs := LinesVertices(mapLines[1..Count(n) + 1]);
      ParsedVertices(mapLines) == if Declared(vs) then Ok(vs) else Err(InvalidOperation)
  {
  }

  /** Vertex k of the parse comes from line k + 1. */
  lemma LinesVerticesAt(mapLines: seq<string>, n: nat, k: int)
    requires n < |mapLines| && 0 <= k < n && mapLines[k + 1] != []
    ensures var line := mapLines[k + 1];
      LinesVertices(mapLines[1..n + 1])[k] == Vertex(line[0], line[1..])
  {
    assert mapLines[1..n + 1][k] == mapLines[k + 1];
  }

  /** Declared, stated by index. */
  lemma DeclaredByIndex(vs: seq<Vertex>)
    requires forall l, j :: 0 <= l < |vs| && 0 <= j < |vs[l].ConnectedVertexIDs| ==> vs[l].ConnectedVertexIDs[j] in IDs(vs)
    ensures Declared(vs)
  {
    forall v, id | v in vs && id in v.ConnectedVertexIDs ensures id in IDs(vs) {
      var l :| 0 <= l < |vs| && vs[l] == v;
      var j :| 0 <= j < |v.ConnectedVertexIDs| && v.ConnectedVertexIDs[j] == id;
    }
  }

  /** A neighbour ID that no vertex has makes the list undeclared. */
  lemma UndeclaredAt(vs: seq<Vertex>, k: int, j: int)
    requires 0 <= k < |vs| && 0 <= j < |vs[k].ConnectedVertexIDs| && vs[k].ConnectedVertexIDs[j] !in IDs(vs)
    ensures !Declared(vs)
  {
    assert vs[k] in vs;
  }

  /** The map file describing a vertex list: the count, then one line per vertex. */
  function MapText(vs: seq<Vertex>): (lines: seq<string>)
    ensures |lines| == |vs| + 1
  {
    [IntText(|vs|)] + seq(|vs|, k requires 0 <= k < |vs| => [vs[k].ID] + vs[k].ConnectedVertexIDs)
  }

  /** Parsing the map file of a vertex list whose neighbours are all declared gives the list
      back, whatever lines follow. */
  lemma ParseMapText(vs: seq<Vertex>, extra: seq<string>)
    requires Declared(vs) && |vs| <= Int32Max
    ensures ParsedVertices(MapText(vs) + extra) == Ok(vs)
  {
    var lines := MapText(vs) + extra;
    ParseIntText(|vs|);
    assert lines[0] == IntText(|vs|);
    assert forall i :: 1 <= i <= |vs| ==> lines[i] == [vs[i - 1].ID] + vs[i - 1].ConnectedVertexIDs;
    var parsed := LinesVertices(lines[1..|vs| + 1]);
    forall k | 0 <= k < |vs| ensures parsed[k] == vs[k] {
      assert lines[1..|vs| + 1][k] == lines[k + 1];
      assert lines[k + 1][1..] == vs[k].ConnectedVertexIDs;
    }
    assert parsed == vs;
  }

  /** A parsed map declares as many vertices as line 0 says, each from its own line, and
      every neighbour it lists is declared. */
  lemma ParsedVerticesShape(mapLines: seq<string>)
    requires ParsedVertices(mapLines).Ok?
    ensures var vs := ParsedVertices(mapLines).value;
      ParseInt32(mapLines[0]).Ok? && |vs| == Count(ParseInt32(mapLines[0]).value) && |vs| < |mapLines| &&
      Declared(vs) &&
      forall k :: 0 <= k < |vs| ==>
        (mapLines[k + 1] != [] && vs[k] == Vertex(mapLines[k + 1][0], mapLines[k + 1][1..]))
  {
    var n := ParseInt32(mapLines[0]).value;
    var vs := ParsedVertices(mapLines).value;
    forall k | 0 <= k < |vs| ensures mapLines[k + 1] != [] && vs[k] == LineVertex(mapLines[k + 1]) {
      assert 1 <= k + 1 <= n;
    }
  }

  // ----- the depth-first search -----

  ghost function IDSet(vs: seq<Vertex>): set<char> {
    set v | v in vs :: v.ID
  }

  lemma IDSetSnoc(vs: seq<Vertex>, v: Vertex)
    ensures IDSet(vs + [v]) == IDSet(vs) + {v.ID}
    ensures forall id :: id in IDs(vs) <==> id in IDSet(vs)
  {
    forall id | id in IDs(vs) ensures id in IDSet(vs) {
      var k :| 0 <= k < |vs| && IDs(vs)[k] == id;
      assert vs[k] in vs;
    }
    forall id | id in IDSet(vs) ensures id in IDs(vs) {
      var u :| u in vs && u.ID == id;
      var k :| 0 <= k < |vs| && vs[k] == u;
      assert IDs(vs)[k] == id;
    }
  }

  /** `DFS(start, ref longestPath, discovered, path)`: the longest path kept after searching
      from start, where path ends at start (or is begun with it when nothing is discovered
      yet) and discovered holds the vertices before start on it. Each neighbour not
      discovered is appended to the path and searched from in turn; after it returns, the
      path is kept when it is strictly longer than the longest so far. */
  function DfsFrom(vs: seq<Vertex>, start: Vertex, longest: seq<Vertex>, discovered: seq<Vertex>, path: seq<Vertex>): seq<Vertex>
    requires Declared(vs) && start in vs
    decreases IDSet(vs) - IDSet(discovered) - {start.ID}, if start.ID in IDs(discovered) then 0 else 1, 1, 0
  {
    DfsLoop(vs, start, start.ConnectedVertexIDs, longest, discovered,
      if discovered == [] then path + [start] else path)
  }

  /** The loop of `DFS` over the neighbour IDs ns still to visit. */
  function DfsLoop(vs: seq<Vertex>, start: Vertex, ns: seq<char>, longest: seq<Vertex>, discovered: seq<Vertex>, path: seq<Vertex>): seq<Vertex>
    requires Declared(vs) && start in vs && forall id :: id in ns ==> id in start.ConnectedVertexIDs
    decreases IDSet(vs) - IDSet(discovered) - {start.ID}, if start.ID in IDs(discovered) then 0 else 1, 0, |ns|
  {
    if ns == [] then longest
    else if FindVertexInList(discovered, ns[0]).Some? then DfsLoop(vs, start, ns[1..], longest, discovered, path)
    else
      var connected := FindVertexInList(vs, ns[0]).value;
      var p := path + [connected];
      var d := discovered + [start];
      IDSetSnoc(discovered, start);
      IDSetSnoc(d, connected);
      assert IDs(d) == IDs(discovered) + [start.ID];
      var l := DfsFrom(vs, connected, longest, d, p);
      DfsLoop(vs, start, ns[1..], if |p| > |l| then p else l, discovered, path)
  }

  /** A path along the graph: vertices of the list, each listing the next as a neighbour. */
  ghost predicate Chain(vs: seq<Vertex>, p: seq<Vertex>) {
    p != [] && (forall k :: 0 <= k < |p| ==> p[k] in vs) &&
    forall k, l :: 0 <= k && l == k + 1 && l < |p| ==> p[l].ID in p[k].ConnectedVertexIDs
  }

  /** The search state: path runs from the root to start along the graph without repeating
      an ID, and discovered holds the IDs before start. */
  ghost predicate OnPath(vs: seq<Vertex>, root: Vertex, start: Vertex, discovered: seq<Vertex>, path: seq<Vertex>) {
    Chain(vs, path) && path[0] == root && path[|path| - 1] == start && DistinctIDs(path) &&
    IDs(discovered) == IDs(path[..|path| - 1])
  }

  lemma ChainSnoc(vs: seq<Vertex>, p: seq<Vertex>, v: Vertex)
    requires Chain(vs, p) && v in vs && v.ID in p[|p| - 1].ConnectedVertexIDs
    ensures Chain(vs, p + [v])
  {
    var q := p + [v];
    forall k, l | 0 <= k && l == k + 1 && l < |q| ensures q[l].ID in q[k].ConnectedVertexIDs {
      if l < |p| {
        assert q[l] == p[l] && q[k] == p[k];
      }
    }
  }

  lemma DistinctIDsSnoc(p: seq<Vertex>, v: Vertex)
    requires DistinctIDs(p) && v.ID !in IDs(p)
    ensures DistinctIDs(p + [v])
  {
    var q := p + [v];
    forall i, j | 0 <= i < j < |q| ensures q[i].ID != q[j].ID {
      if j == |p| {
        assert IDs(p)[i] == q[i].ID;
      }
    }
  }

  /** One step deeper: appending an undiscovered neighbour keeps the search state. */
  lemma OnPathStep(vs: seq<Vertex>, root: Vertex, start: Vertex, discovered: seq<Vertex>, path: seq<Vertex>, next: Vertex)
    requires NoSelfLoops(vs) && start in vs && next in vs
    requires OnPath(vs, root, start, discovered, path)
    requires next.ID in start.ConnectedVertexIDs && next.ID !in IDs(discovered)
    ensures OnPath(vs, root, next, discovered + [start], path + [next])
  {
    var p := path + [next];
    ChainSnoc(vs, path, next);
    assert path == path[..|path| - 1] + [start];
    assert IDs(path) == IDs(path[..|path| - 1]) + [start.ID];
    assert next.ID !in IDs(path);
    DistinctIDsSnoc(path, next);
    assert p[..|p| - 1] == path;
    assert IDs(discovered + [start]) == IDs(discovered) + [start.ID];
  }

  /** The search only ever keeps paths along the graph from the root without a repeated ID,
      each longer than the one it replaces. */
  lemma {:induction false} DfsFromKeepsChains(vs: seq<Vertex>, root: Vertex, start: Vertex, longest: seq<Vertex>, discovered: seq<Vertex>, path: seq<Vertex>)
    requires Declared(vs) && NoSelfLoops(vs) && start in vs
    requires discovered == [] ==> path == [] && start == root
    requires discovered != [] ==> OnPath(vs, root, start, discovered, path)
    ensures var r := DfsFrom(vs, start, longest, discovered, path);
      r == longest || (Chain(vs, r) && r[0] == root && DistinctIDs(r) && |r| > |longest|)
    decreases IDSet(vs) - IDSet(discovered) - {start.ID}, if start.ID in IDs(discovered) then 0 else 1, 1, 0
  {
    var p := if discovered == [] then path + [start] else path;
    if discovered == [] {
      assert p == [start];
      assert OnPath(vs, root, start, discovered, p);
    }
    DfsLoopKeepsChains(vs, root, start, start.ConnectedVertexIDs, longest, discovered, p);
  }

  lemma {:induction false} DfsLoopKeepsChains(vs: seq<Vertex>, root: Vertex, start: Vertex, ns: seq<char>, longest: seq<Vertex>, discovered: seq<Vertex>, path: seq<Vertex>)
    requires Declared(vs) && NoSelfLoops(vs) && start in vs && forall id :: id in ns ==> id in start.ConnectedVertexIDs
    requires OnPath(vs, root, start, discovered, path)
    ensures var r := DfsLoop(vs, start, ns, longest, discovered, path);
      r == longest || (Chain(vs, r) && r[0] == root && DistinctIDs(r) && |r| > |longest|)
    decreases IDSet(vs) - IDSet(discovered) - {start.ID}, if start.ID in IDs(discovered) then 0 else 1, 0, |ns|
  {
    if ns != [] {
      if FindVertexInList(discovered, ns[0]).Some? {
        DfsLoopKeepsChains(vs, root, start, ns[1..], longest, discovered, path);
      } else {
        var connected := FindVertexInList(vs, ns[0]).value;
        var p := path + [connected];
        var d := discovered + [start];
        IDSetSnoc(discovered, start);
        IDSetSnoc(d, connected);
        assert IDs(d) == IDs(discovered) + [start.ID];
        OnPathStep(vs, root, start, discovered, path, connected);
        DfsFromKeepsChains(vs, root, connected, longest, d, p);
        var l := DfsFrom(vs, connected, longest, d, p);
        var next := if |p| > |l| then p else l;
        DfsLoopKeepsChains(vs, root, start, ns[1..], next, discovered, path);
      }
    }
  }

  /** A loop-free path q along the graph that continues the current path by a neighbour still
      to visit is found: the search keeps a path at least as long as q. Lookups by ID find
      the vertex itself, as the IDs are distinct. */
  lemma {:induction false} DfsLoopFinds(vs: seq<Vertex>, root: Vertex, start: Vertex, ns: seq<char>, longest: seq<Vertex>, discovered: seq<Vertex>, path: seq<Vertex>, q: seq<Vertex>)
    requires Declared(vs) && NoSelfLoops(vs) && DistinctIDs(vs) && start in vs
    requires forall id :: id in ns ==> id in start.ConnectedVertexIDs
    requires OnPath(vs, root, start, discovered, path)
    requires Chain(vs, q) && DistinctIDs(q) && |q| > |path| && q[..|path|] == path && q[|path|].ID in ns
    ensures |DfsLoop(vs, start, ns, longest, discovered, path)| >= |q|
    decreases IDSet(vs) - IDSet(discovered) - {start.ID}, if start.ID in IDs(discovered) then 0 else 1, 0, |ns|, 1
  {
    var n := |path|;
    if FindVertexInList(discovered, ns[0]).None? && ns[0] == q[n].ID {
      DfsLoopFindsNext(vs, root, start, ns, longest, discovered, path, q);
    } else if FindVertexInList(discovered, ns[0]).Some? {
      if ns[0] == q[n].ID {
        assert false;
      }
      DfsLoopFinds(vs, root, start, ns[1..], longest, discovered, path, q);
    } else {
      var connected := FindVertexInList(vs, ns[0]).value;
      var p := path + [connected];
      var d := discovered + [start];
      IDSetSnoc(discovered, start);
      IDSetSnoc(d, connected);
      assert IDs(d) == IDs(discovered) + [start.ID];
      OnPathStep(vs, root, start, discovered, path, connected);
      var l := DfsFrom(vs, connected, longest, d, p);
      var next := if |p| > |l| then p else l;
      DfsLoopFinds(vs, root, start, ns[1..], next, discovered, path, q);
    }
  }

  /** The case where q continues through the first neighbour still to visit: the search
      from it finds a path at least as long as q, and the loop keeps the longer. */
  lemma {:induction false} DfsLoopFindsNext(vs: seq<Vertex>, root: Vertex, start: Vertex, ns: seq<char>, longest: seq<Vertex>, discovered: seq<Vertex>, path: seq<Vertex>, q: seq<Vertex>)
    requires Declared(vs) && NoSelfLoops(vs) && DistinctIDs(vs) && start in vs
    requires forall id :: id in ns ==> id in start.ConnectedVertexIDs
    requires OnPath(vs, root, start, discovered, path)
    requires Chain(vs, q) && DistinctIDs(q) && |q| > |path| && q[..|path|] == path && ns != []
    requires ns[0] == q[|path|].ID && FindVertexInList(discovered, ns[0]).None?
    ensures |DfsLoop(vs, start, ns, longest, discovered, path)| >= |q|
    decreases IDSet(vs) - IDSet(discovered) - {start.ID}, if start.ID in IDs(discovered) then 0 else 1, 0, |ns|, 0
  {
    var n := |path|;
    var connected := FindVertexInList(vs, ns[0]).value;
    var p := path + [connected];
    var d := discovered + [start];
    IDSetSnoc(discovered, start);
    IDSetSnoc(d, connected);
    assert IDs(d) == IDs(discovered) + [start.ID];
    OnPathStep(vs, root, start, discovered, path, connected);
    var l := DfsFrom(vs, connected, longest, d, p);
    var next := if |p| > |l| then p else l;
    var j :| 0 <= j < |vs| && vs[j] == q[n];
    FindVertexIsFirst(vs, ns[0], j);
    assert p == q[..n + 1];
    if |q| > n + 1 {
      assert q[n + 1].ID in connected.ConnectedVertexIDs;
      DfsFromFinds(vs, root, connected, longest, d, p, q);
    }
    DfsLoopKeepsChains(vs, root, start, ns[1..], next, discovered, path);
  }

  lemma {:induction false} DfsFromFinds(vs: seq<Vertex>, root: Vertex, start: Vertex, longest: seq<Vertex>, discovered: seq<Vertex>, path: seq<Vertex>, q: seq<Vertex>)
    requires Declared(vs) && NoSelfLoops(vs) && DistinctIDs(vs) && start in vs
    requires discovered != [] && OnPath(vs, root, start, discovered, path)
    requires Chain(vs, q) && DistinctIDs(q) && |q| > |path| && q[..|path|] == path
    ensures |DfsFrom(vs, start, longest, discovered, path)| >= |q|
    decreases IDSet(vs) - IDSet(discovered) - {start.ID}, if start.ID in IDs(discovered) then 0 else 1, 1, 0, 0
  {
    var n := |path|;
    assert q[n - 1] == start;
    DfsLoopFinds(vs, root, start, start.ConnectedVertexIDs, longest, discovered, path, q);
  }

  /** The candidates `SearchLongestPath` compares: one search from each least-connected
      vertex, each starting with nothing discovered. */
  function Searches(vs: seq<Vertex>, roots: seq<Vertex>): (r: seq<seq<Vertex>>)
    requires Declared(vs) && forall u :: u in roots ==> u in vs
    ensures |r| == |roots|
  {
    seq(|roots|, i requires 0 <= i < |roots| => DfsFrom(vs, roots[i], [], [], []))
  }

  /** `SearchLongestPath()`: the first longest of the searches from the least-connected
      vertices. */
  function LongestPath(vs: seq<Vertex>): seq<Vertex>
    requires Declared(vs)
  {
    var roots := LeastConnected(vs);
    LeastConnectedExact(vs);
    FirstLongest([], Searches(vs, roots))
  }

  /** The longest path is empty or runs along the graph, without repeating an ID, from a
      vertex of least degree; no search from a least-connected vertex found a longer one. */
  lemma LongestPathIsChain(vs: seq<Vertex>)
    requires Declared(vs) && NoSelfLoops(vs)
    ensures var r := LongestPath(vs);
      r == [] || (Chain(vs, r) && DistinctIDs(r) && r[0] in LeastConnected(vs))
    ensures forall u :: u in LeastConnected(vs) ==> |DfsFrom(vs, u, [], [], [])| <= |LongestPath(vs)|
  {
    var roots := LeastConnected(vs);
    LeastConnectedExact(vs);
    var cs := Searches(vs, roots);
    FirstLongestIsFirst([], cs);
    var r := LongestPath(vs);
    if r != [] {
      var i :| 0 <= i < |cs| && r == cs[i];
      DfsFromKeepsChains(vs, roots[i], roots[i], [], [], []);
    }
    forall u | u in roots ensures |DfsFrom(vs, u, [], [], [])| <= |r| {
      var i :| 0 <= i < |roots| && roots[i] == u;
      assert cs[i] == DfsFrom(vs, u, [], [], []);
    }
  }

  /** A search from the root begins its path with the root. */
  lemma DfsFromRoot(vs: seq<Vertex>, root: Vertex)
    requires Declared(vs) && root in vs
    ensures DfsFrom(vs, root, [], [], []) == DfsLoop(vs, root, root.ConnectedVertexIDs, [], [], [root])
  {
    assert [] + [root] == [root];
  }

  /** `SearchLongestPath` finds a longest loop-free path starting at a least-connected vertex
      (only those are tried as starts): with distinct IDs, no path along the graph from a
      least-connected vertex, with two vertices or more and no repeated ID, is longer. */
  lemma LongestPathIsLongest(vs: seq<Vertex>, q: seq<Vertex>)
    requires Declared(vs) && NoSelfLoops(vs) && DistinctIDs(vs)
    requires Chain(vs, q) && DistinctIDs(q) && |q| >= 2 && q[0] in LeastConnected(vs)
    ensures |q| <= |LongestPath(vs)|
  {
    var root := q[0];
    LeastConnectedExact(vs);
    assert root in vs;
    assert OnPath(vs, root, root, [], [root]) by {
      assert [root][0] == root && [root][..0] == [];
    }
    assert q[..1] == [root];
    DfsLoopFinds(vs, root, root, root.ConnectedVertexIDs, [], [], [root], q);
    DfsFromRoot(vs, root);
    LongestPathIsChain(vs);
  }

  /** A search from a vertex without neighbours keeps nothing: the one-vertex path is never
      compared with the longest. */
  lemma IsolatedSearchIsEmpty(vs: seq<Vertex>, v: Vertex)
    requires Declared(vs) && v in vs && v.ConnectedVertexIDs == []
    ensures DfsFrom(vs, v, [], [], []) == []
  {
  }

  // ----- the row of path vertices -----

  /** What is left to join for path vertex i once the horizontal route to each path
      neighbour is drawn: its neighbour list without the previous vertex's ID and then
      without the next one's (`LinkedList.Remove` takes the first match). */
  function BackboneMissing(p: seq<Vertex>, i: int): seq<char>
    requires 0 <= i < |p|
  {
    var m := if i > 0 then RemovedFirst(p[i].ConnectedVertexIDs, p[i - 1].ID) else p[i].ConnectedVertexIDs;
    if i + 1 < |p| then RemovedFirst(m, p[i + 1].ID) else m
  }

  /** The only row `AddTheHorizontalVertices(path)` builds, as it stands after the path's
      vertices so far: the first vertex alone, missing all its neighbours, then one `Appended`
      step per further vertex. */
  function BackboneRow(p: seq<Vertex>): (row: seq<MapItem>)
    ensures |row| == if p == [] then 0 else 2 * |p| - 1
    decreases |p|
  {
    if p == [] then []
    else if |p| == 1 then [NewVertex(p[0].ID, p[0].ConnectedVertexIDs, p[0].ConnectedVertexIDs)]
    else Appended(BackboneRow(p[..|p| - 1]), p[|p| - 1], p[|p| - 2].ID)
  }

  /** The row `AddTheHorizontalVertices` has after appending vertex v to `row`, whose last
      cell holds the vertex with ID prevID: the cells before the old last one stay, the old
      last vertex's missing list loses v's ID, and a horizontal path cell and v's cell follow,
      v missing all its neighbours but prevID. */
  function Appended(row: seq<MapItem>, v: Vertex, prevID: char): (r: seq<MapItem>)
    requires row != []
    ensures |r| == |row| + 2
  {
    seq(|row| + 2, j requires 0 <= j < |row| + 2 =>
      if j < |row| - 1 then row[j]
      else if j == |row| - 1 then row[j].(MissingConnections := RemovedFirst(row[j].MissingConnections, v.ID))
      else if j == |row| then NewPath(Horizontal)
      else NewVertex(v.ID, v.ConnectedVertexIDs, RemovedFirst(v.ConnectedVertexIDs, prevID)))
  }

  /** `Appended` is what the three steps of the loop body leave: `AddColRight` and a
      horizontal path cell, the old last vertex's `MissingConnections.Remove`, then
      `AddColRight` and the new vertex. */
  lemma AppendedSteps(row: seq<MapItem>, v: Vertex, prevID: char)
    requires row != []
    ensures Appended(row, v, prevID) ==
      (row + [NewPath(Horizontal)])[|row| - 1 := row[|row| - 1].(MissingConnections := RemovedFirst(row[|row| - 1].MissingConnections, v.ID))] +
      [NewVertex(v.ID, v.ConnectedVertexIDs, RemovedFirst(v.ConnectedVertexIDs, prevID))]
  {
    var ext := row + [NewPath(Horizontal)];
    var upd := ext[|row| - 1 := row[|row| - 1].(MissingConnections := RemovedFirst(row[|row| - 1].MissingConnections, v.ID))];
    var r := upd + [NewVertex(v.ID, v.ConnectedVertexIDs, RemovedFirst(v.ConnectedVertexIDs, prevID))];
    forall j | 0 <= j < |row| + 2 ensures Appended(row, v, prevID)[j] == r[j] {
      if j < |row| - 1 {
        assert upd[j] == ext[j] == row[j];
      } else if j == |row| {
        assert upd[j] == ext[j];
      }
    }
  }

  /** The row after one more vertex, in the terms `AddTheHorizontalVertices` builds it. */
  lemma BackboneRowPush(done: seq<Vertex>, v: Vertex)
    requires done != []
    ensures BackboneRow(done + [v]) == Appended(BackboneRow(done), v, done[|done| - 1].ID)
  {
    var q := done + [v];
    assert q[..|q| - 1] == done;
  }

  /** One vertex more on the path changes the missing list of the vertex before it only. */
  lemma BackboneMissingSnoc(done: seq<Vertex>, v: Vertex, i: int)
    requires 0 <= i < |done|
    ensures BackboneMissing(done + [v], i) ==
      if i == |done| - 1 then RemovedFirst(BackboneMissing(done, i), v.ID) else BackboneMissing(done, i)
  {
    var q := done + [v];
    assert q[i] == done[i] && q[i + 1] == (if i + 1 < |done| then done[i + 1] else v);
    if i > 0 {
      assert q[i - 1] == done[i - 1];
    }
  }

  /** Vertex i of the path sits at column 2i with its ID, its neighbours and what
      `BackboneMissing` leaves of them. */
  lemma {:induction false} BackboneVertexCell(p: seq<Vertex>, i: int)
    requires 0 <= i < |p|
    ensures BackboneRow(p)[2 * i] == NewVertex(p[i].ID, p[i].ConnectedVertexIDs, BackboneMissing(p, i))
    decreases |p|
  {
    if |p| > 1 && i < |p| - 1 {
      var n := |p| - 1;
      var done := p[..n];
      BackboneVertexCell(done, i);
      assert done + [p[n]] == p;
      BackboneMissingSnoc(done, p[n], i);
    }
  }

  /** A horizontal path cell sits between two consecutive path vertices. */
  lemma {:induction false} BackbonePathCell(p: seq<Vertex>, i: int)
    requires 0 <= i < |p| - 1
    ensures BackboneRow(p)[2 * i + 1] == NewPath(Horizontal)
    decreases |p|
  {
    if i < |p| - 2 {
      BackbonePathCell(p[..|p| - 1], i);
    }
  }

  /** Every cell of the row, as the two lemmas above place it. */
  lemma BackboneRowCells(p: seq<Vertex>)
    ensures forall i :: 0 <= i < |p| ==> BackboneRow(p)[2 * i] == NewVertex(p[i].ID, p[i].ConnectedVertexIDs, BackboneMissing(p, i))
    ensures forall i :: 0 <= i < |p| - 1 ==> BackboneRow(p)[2 * i + 1] == NewPath(Horizontal)
  {
    forall i | 0 <= i < |p| ensures BackboneRow(p)[2 * i] == NewVertex(p[i].ID, p[i].ConnectedVertexIDs, BackboneMissing(p, i)) {
      BackboneVertexCell(p, i);
    }
    forall i | 0 <= i < |p| - 1 ensures BackboneRow(p)[2 * i + 1] == NewPath(Horizontal) {
      BackbonePathCell(p, i);
    }
  }

  /** A path vertex's missing list keeps only what its neighbour list holds, no more often. */
  lemma BackboneMissingShrinks(p: seq<Vertex>, i: int)
    requires 0 <= i < |p|
    ensures multiset(BackboneMissing(p, i)) <= multiset(p[i].ConnectedVertexIDs)
  {
    var c := p[i].ConnectedVertexIDs;
    var m := if i > 0 then RemovedFirst(c, p[i - 1].ID) else c;
    if i > 0 {
      RemovedFirstShrinks(c, p[i - 1].ID);
    }
    if i + 1 < |p| {
      RemovedFirstShrinks(m, p[i + 1].ID);
    }
  }
}
