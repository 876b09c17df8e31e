/** The graph's vertices (Vertex.cs) and the read-only scans over vertex lists that Graph.cs
    makes: lookup by ID, neighbour lists, the minimum-degree vertices, and what is left of a
    vertex list once a path's vertices are taken out. Two vertices are equal when their IDs
    are, so every lookup and removal below compares IDs only. */
module Vertices {
  import opened Common
  import opened Sequences

  /** A vertex: its ID and the IDs of its neighbours, in the order the map file lists them. */
  datatype Vertex = Vertex(ID: char, ConnectedVertexIDs: seq<char>)

  /** `new Vertex()`: ID default(char) and no neighbours. */
  const DefaultVertex := Vertex('\0', [])

  /** A colour override for the vertex with this ID. */
  datatype VertexColor = VertexColor(ID: char, ForegroundColor: Color, BackgroundColor: Color)

  /** A colour override for the cell at this coordinate. */
  datatype MapItemColor = MapItemColor(Coordinate: Coordinate, ForegroundColor: Color, BackgroundColor: Color)

  /** The IDs of the vertices, in order (`GetListOfVertexIDs`). */
  function IDs(vs: seq<Vertex>): (ids: seq<char>)
    ensures |ids| == |vs| && forall i :: 0 <= i < |vs| ==> ids[i] == vs[i].ID
  {
    seq(|vs|, i requires 0 <= i < |vs| => vs[i].ID)
  }

  /** Lists whose vertices have the same IDs, position by position, have the same ID list. */
  lemma SameIDs(a: seq<Vertex>, b: seq<Vertex>)
    requires |a| == |b| && forall l :: 0 <= l < |a| ==> a[l].ID == b[l].ID
    ensures IDs(a) == IDs(b)
  {
  }

  /** The index of the first vertex with this ID, or -1. */
  function IndexOfID(vs: seq<Vertex>, id: char): (i: int)
    ensures -1 <= i < |vs|
    ensures i == -1 <==> id !in IDs(vs)
    ensures i != -1 ==> vs[i].ID == id && id !in IDs(vs[..i])
  {
    var k := IndexOf(IDs(vs), id);
    IndexOfIsFirst(IDs(vs), id);
    if k == -1 then k
    else
      assert IDs(vs[..k]) == IDs(vs)[..k];
      k
  }

  /** `FindVertexInList(list, ID)` and `IDToVertex(ID)`: the first vertex with this ID, if any. */
  function FindVertexInList(vs: seq<Vertex>, id: char): (r: Option<Vertex>)
    ensures r.None? <==> id !in IDs(vs)
    ensures r.Some? ==> r.value in vs && r.value.ID == id
  {
    var i := IndexOfID(vs, id);
    if i == -1 then None else Some(vs[i])
  }

  /** Lookup by ID finds the first vertex with the ID: with distinct IDs, the only one. */
  lemma FindVertexIsFirst(vs: seq<Vertex>, id: char, k: int)
    requires 0 <= k < |vs| && vs[k].ID == id
    requires forall i :: 0 <= i < k ==> vs[i].ID != id
    ensures FindVertexInList(vs, id) == Some(vs[k])
  {
    assert IDs(vs)[k] == id;
  }

  /** The vertices whose IDs v lists as neighbours, in the order of the vertex list
      (`GetConnectedVertices`). */
  function ConnectedVertices(vs: seq<Vertex>, v: Vertex): (r: seq<Vertex>)
    ensures forall u :: u in r <==> u in vs && u.ID in v.ConnectedVertexIDs
    ensures |r| <= |vs|
  {
    if vs == [] then []
    else
      var rest := ConnectedVertices(vs[..|vs| - 1], v);
      assert forall u :: u in vs <==> u in vs[..|vs| - 1] || u == vs[|vs| - 1] by {
        assert vs == vs[..|vs| - 1] + [vs[|vs| - 1]];
      }
      if vs[|vs| - 1].ID in v.ConnectedVertexIDs then rest + [vs[|vs| - 1]] else rest
  }

  function Degree(v: Vertex): nat {
    |v.ConnectedVertexIDs|
  }

  /** The least degree in a non-empty list. */
  function MinDegree(vs: seq<Vertex>): (m: nat)
    requires vs != []
    ensures forall i :: 0 <= i < |vs| ==> m <= Degree(vs[i])
    ensures exists i :: 0 <= i < |vs| && m == Degree(vs[i])
  {
    if |vs| == 1 then Degree(vs[0])
    else
      var m := MinDegree(vs[..|vs| - 1]);
      var d := Degree(vs[|vs| - 1]);
      assert forall i :: 0 <= i < |vs| - 1 ==> vs[..|vs| - 1][i] == vs[i];
      if d < m then d else m
  }

  /** The vertices of degree d, in order. */
  function OfDegree(vs: seq<Vertex>, d: nat): (r: seq<Vertex>)
    ensures forall u :: u in r <==> u in vs && Degree(u) == d
  {
    if vs == [] then []
    else
      var rest := OfDegree(vs[..|vs| - 1], d);
      assert forall u :: u in vs <==> u in vs[..|vs| - 1] || u == vs[|vs| - 1] by {
        assert vs == vs[..|vs| - 1] + [vs[|vs| - 1]];
      }
      if Degree(vs[|vs| - 1]) == d then rest + [vs[|vs| - 1]] else rest
  }

  /** The vertices of least degree, in input order (the result of
      `VerticesWithLeastConnections`); none for an empty list. */
  function LeastConnected(vs: seq<Vertex>): seq<Vertex> {
    if vs == [] then [] else OfDegree(vs, MinDegree(vs))
  }

  /** A vertex is among the least connected exactly when no vertex has a smaller degree; a
      non-empty list has at least one. */
  lemma LeastConnectedExact(vs: seq<Vertex>)
    ensures forall u :: u in LeastConnected(vs) <==>
      (u in vs && forall w :: w in vs ==> Degree(u) <= Degree(w))
    ensures vs != [] ==> LeastConnected(vs) != []
  {
    if vs != [] {
      var m := MinDegree(vs);
      forall u ensures u in LeastConnected(vs) <==> (u in vs && forall w :: w in vs ==> Degree(u) <= Degree(w)) {
        if u in vs && forall w :: w in vs ==> Degree(u) <= Degree(w) {
          var i :| 0 <= i < |vs| && m == Degree(vs[i]);
          assert vs[i] in vs;
        }
      }
      var i :| 0 <= i < |vs| && m == Degree(vs[i]);
      assert vs[i] in LeastConnected(vs);
    }
  }

  /** One more vertex: the least degree is the smaller of the old least degree and the new
      vertex's, and the least-connected vertices are the new one alone (when its degree is
      smaller), the old ones and the new one (when equal) or the old ones (when larger). */
  lemma LeastConnectedSnoc(vs: seq<Vertex>, v: Vertex)
    ensures vs == [] ==> LeastConnected(vs + [v]) == [v] && MinDegree(vs + [v]) == Degree(v)
    ensures vs != [] ==> var m := MinDegree(vs);
      MinDegree(vs + [v]) == (if Degree(v) < m then Degree(v) else m) &&
      LeastConnected(vs + [v]) ==
        if Degree(v) < m then [v]
        else if Degree(v) == m then LeastConnected(vs) + [v]
        else LeastConnected(vs)
  {
    var w := vs + [v];
    assert w[..|w| - 1] == vs;
    if vs == [] {
      assert OfDegree(w, Degree(v)) == OfDegree([], Degree(v)) + [v];
    } else if Degree(v) < MinDegree(vs) {
      OfDegreeNone(vs, Degree(v));
    }
  }

  /** One step of the `VerticesWithLeastConnections` loop over vs[..i]: the kept vertices
      and their degree once vs[i] has been looked at. */
  lemma LeastConnectedStep(vs: seq<Vertex>, i: int, r: seq<Vertex>, minCount: int)
    requires 0 <= i < |vs| && r == LeastConnected(vs[..i])
    requires i > 0 ==> r != [] && minCount == MinDegree(vs[..i])
    ensures var v := vs[i];
      var restart := r == [] || minCount > Degree(v);
      LeastConnected(vs[..i + 1]) == (if restart then [v] else if minCount == Degree(v) then r + [v] else r) &&
      MinDegree(vs[..i + 1]) == if restart then Degree(v) else minCount
  {
    var pre := vs[..i];
    PrefixSnoc(vs, i);
    LeastConnectedSnoc(pre, vs[i]);
    if i > 0 {
      assert pre != [];
    }
  }

  /** No vertex of a list has degree d when all have a larger one. */
  lemma OfDegreeNone(vs: seq<Vertex>, d: nat)
    requires forall i :: 0 <= i < |vs| ==> d < Degree(vs[i])
    ensures OfDegree(vs, d) == []
  {
  }

  /** vs without the first vertex whose ID is v's (`LinkedList.Remove` with ID equality). */
  function RemovedFirstID(vs: seq<Vertex>, v: Vertex): (r: seq<Vertex>)
    ensures v.ID !in IDs(vs) ==> r == vs
    ensures v.ID in IDs(vs) ==> |r| == |vs| - 1
  {
    var i := IndexOfID(vs, v.ID);
    if i == -1 then vs else RemovedAt(vs, i)
  }

  /** The vertices left once each path vertex has been removed by ID, in order
      (`GenerateMissedVertices`). */
  function MissedVertices(vs: seq<Vertex>, path: seq<Vertex>): seq<Vertex>
    decreases |path|
  {
    if path == [] then vs else MissedVertices(RemovedFirstID(vs, path[0]), path[1..])
  }

  predicate DistinctIDs(vs: seq<Vertex>) {
    forall i, j :: 0 <= i < j < |vs| ==> vs[i].ID != vs[j].ID
  }

  /** With distinct IDs, removing by ID removes exactly the vertices with that ID and keeps the
      IDs distinct. */
  lemma RemovedFirstIDExact(vs: seq<Vertex>, v: Vertex)
    requires DistinctIDs(vs)
    ensures DistinctIDs(RemovedFirstID(vs, v))
    ensures forall u :: u in RemovedFirstID(vs, v) <==> u in vs && u.ID != v.ID
  {
    var i := IndexOfID(vs, v.ID);
    if i != -1 {
      var r := RemovedAt(vs, i);
      forall u | u in vs && u.ID != v.ID ensures u in r {
        var k :| 0 <= k < |vs| && vs[k] == u;
        assert k != i;
        if k < i { assert r[k] == u; } else { assert r[k - 1] == u; }
      }
      forall u | u in r ensures u in vs && u.ID != v.ID {
        var k :| 0 <= k < |r| && r[k] == u;
        if k < i { assert vs[k] == u; } else { assert vs[k + 1] == u; }
      }
    } else {
      forall u | u in vs ensures u.ID != v.ID {
        var k :| 0 <= k < |vs| && vs[k] == u;
        assert IDs(vs)[k] == u.ID;
      }
    }
  }

  /** With distinct IDs, the missed vertices are exactly those whose ID is not on the path,
      whatever the path visits. */
  lemma {:induction false} MissedVerticesExact(vs: seq<Vertex>, path: seq<Vertex>)
    requires DistinctIDs(vs)
    ensures DistinctIDs(MissedVertices(vs, path))
    ensures forall u :: u in MissedVertices(vs, path) <==> u in vs && u.ID !in IDs(path)
    decreases |path|
  {
    if path != [] {
      RemovedFirstIDExact(vs, path[0]);
      MissedVerticesExact(RemovedFirstID(vs, path[0]), path[1..]);
      assert IDs(path) == [path[0].ID] + IDs(path[1..]);
    }
  }

  /** Whatever the IDs, the missed vertices are some of the vertices and no more of them. */
  lemma {:induction false} MissedVerticesWithin(vs: seq<Vertex>, path: seq<Vertex>)
    ensures |MissedVertices(vs, path)| <= |vs|
    ensures forall u :: u in MissedVertices(vs, path) ==> u in vs
    decreases |path|
  {
    if path != [] {
      var r := RemovedFirstID(vs, path[0]);
      MissedVerticesWithin(r, path[1..]);
      forall u | u in r ensures u in vs {
        var k :| 0 <= k < |r| && r[k] == u;
        var i := IndexOfID(vs, path[0].ID);
        if i != -1 {
          if k < i { assert vs[k] == u; } else { assert vs[k + 1] == u; }
        }
      }
    }
  }

  /** `FindMapColorAtCoord(mapColors, coord)`: the first override for this coordinate. */
  function FindMapColorAtCoord(mapColors: seq<MapItemColor>, coord: Coordinate): (r: Option<MapItemColor>)
    ensures r.None? <==> forall i :: 0 <= i < |mapColors| ==> mapColors[i].Coordinate != coord
    ensures r.Some? ==> exists i :: (0 <= i < |mapColors| && mapColors[i] == r.value &&
      r.value.Coordinate == coord && forall k :: 0 <= k < i ==> mapColors[k].Coordinate != coord)
    decreases |mapColors|
  {
    if mapColors == [] then None
    else if mapColors[0].Coordinate == coord then Some(mapColors[0])
    else
      var r := FindMapColorAtCoord(mapColors[1..], coord);
      assert forall i :: 1 <= i < |mapColors| ==> mapColors[i] == mapColors[1..][i - 1];
      if r.Some? then
        assert exists i :: (0 <= i < |mapColors| && mapColors[i] == r.value &&
          r.value.Coordinate == coord && forall k :: 0 <= k < i ==> mapColors[k].Coordinate != coord) by {
          var i :| 0 <= i < |mapColors[1..]| && mapColors[1..][i] == r.value &&
            r.value.Coordinate == coord && forall k :: 0 <= k < i ==> mapColors[1..][k].Coordinate != coord;
          assert mapColors[i + 1] == r.value;
          assert forall k :: 1 <= k < i + 1 ==> mapColors[k] == mapColors[1..][k - 1];
        }
        r
      else r
  }

  /** An override colouring the "not found" coordinate (an unknown vertex ID) colours no
      cell of the map, since every cell has non-negative coordinates. */
  lemma UnknownColorsNothing(mapColors: seq<MapItemColor>, coord: Coordinate)
    requires coord.Y >= 0 && coord.X >= 0
    requires forall i :: 0 <= i < |mapColors| ==> mapColors[i].Coordinate == NotFound
    ensures FindMapColorAtCoord(mapColors, coord) == None
  {
  }

  /** The path `SearchLongestPath` keeps: starting from none, a candidate replaces the kept
      path only when it is strictly longer, so the first of the longest wins. */
  function FirstLongest(kept: seq<Vertex>, candidates: seq<seq<Vertex>>): seq<Vertex>
    decreases |candidates|
  {
    if candidates == [] then kept
    else FirstLongest(if |kept| < |candidates[0]| then candidates[0] else kept, candidates[1..])
  }

  /** The kept path is no shorter than any candidate, and it is the first candidate of its
      length, unless every candidate is shorter than or as long as the initial one. */
  lemma {:induction false} FirstLongestIsFirst(kept: seq<Vertex>, candidates: seq<seq<Vertex>>)
    ensures var r := FirstLongest(kept, candidates);
      |r| >= |kept| && (forall i :: 0 <= i < |candidates| ==> |candidates[i]| <= |r|) &&
      (r == kept || exists i :: (0 <= i < |candidates| && r == candidates[i] && |kept| < |r| &&
        forall k :: 0 <= k < i ==> |candidates[k]| < |r|))
    decreases |candidates|
  {
    if candidates != [] {
      var next := if |kept| < |candidates[0]| then candidates[0] else kept;
      FirstLongestIsFirst(next, candidates[1..]);
      var r := FirstLongest(kept, candidates);
      assert forall i :: 1 <= i < |candidates| ==> candidates[i] == candidates[1..][i - 1];
      if r != next {
        var i :| 0 <= i < |candidates[1..]| && r == candidates[1..][i] && |next| < |r| &&
          forall k :: 0 <= k < i ==> |candidates[1..][k]| < |r|;
        assert r == candidates[i + 1];
        assert forall k :: 1 <= k < i + 1 ==> |candidates[k]| < |r| by {
          assert forall k :: 1 <= k < i + 1 ==> candidates[k] == candidates[1..][k - 1];
        }
      } else if r != kept {
        assert r == candidates[0];
      }
    }
  }
}
