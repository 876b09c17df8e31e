/** One cell of the layout grid. In the program a cell is an object whose fields the layout
    code rewrites; here it is a value and the grid replaces a cell to change it. */
module MapItems {
  import opened PathSegments

  datatype Status = EmptyCell | PathCell | VertexCell

  /** A vertex cell carries its ID, all its neighbour IDs (`Connections`) and those not yet
      joined by a drawn route (`MissingConnections`); a path cell carries its shape. */
  datatype MapItem = MapItem(
    Status: Status,
    Segment: PathSegment,
    ID: char,
    Connections: seq<char>,
    MissingConnections: seq<char>)

  /** The traversal cost of a cell that is not Empty: more than any route ceiling. */
  const Blocked := 10000

  /** default(char) in C#. */
  const NoID: char := '\0'

  /** The traversal cost the router charges for entering the cell. */
  function Cost(item: MapItem): (c: int)
    ensures c == 1 <==> item.Status == EmptyCell
    ensures c != 1 ==> c == Blocked
  {
    match item.Status
    case EmptyCell => 1
    case PathCell => Blocked
    case VertexCell => Blocked
  }

  /** `new MapItem()`: an empty cell. */
  function NewEmpty(): (r: MapItem)
    ensures r.Status == EmptyCell && r.Segment == PathSegments.Empty
    ensures r.Connections == [] && r.MissingConnections == []
  {
    MapItem(EmptyCell, PathSegments.Empty, NoID, [], [])
  }

  /** `new MapItem(ID, allConns, requiredConns)`: a vertex cell unless the ID is '\0'. */
  function NewVertex(id: char, allConns: seq<char>, requiredConns: seq<char>): (r: MapItem)
    ensures r.Status == VertexCell <==> id != NoID
    ensures r.Status != PathCell
    ensures r.ID == id && r.Segment == PathSegments.Empty
    ensures r.Connections == allConns && r.MissingConnections == requiredConns
  {
    MapItem(if id == NoID then EmptyCell else VertexCell, PathSegments.Empty, id, allConns, requiredConns)
  }

  /** `new MapItem(pathSegment)`: a path cell unless the segment is Empty. */
  function NewPath(segment: PathSegment): (r: MapItem)
    ensures r.Status == PathCell <==> segment != PathSegments.Empty
    ensures r.Status != VertexCell
    ensures r.Segment == segment && r.ID == NoID
  {
    MapItem(if segment == PathSegments.Empty then EmptyCell else PathCell, segment, NoID, [], [])
  }

  /** `new MapItem(mapItem)`: copies status, shape and ID but not the two connection lists. */
  function CopyOf(item: MapItem): (r: MapItem)
    ensures r.Status == item.Status && r.Segment == item.Segment && r.ID == item.ID
    ensures r.Connections == [] && r.MissingConnections == []
  {
    MapItem(item.Status, item.Segment, item.ID, [], [])
  }

  /** `MapItem.Equals`: compares ID, shape and status, ignoring the connection lists. */
  predicate ItemEquals(a: MapItem, b: MapItem) {
    a.ID == b.ID && a.Segment == b.Segment && a.Status == b.Status
  }

  /** Equality of cells is an equivalence that ignores the connection lists, so a copy equals
      its original although it has lost both lists. */
  lemma ItemEqualsIsEquivalence(a: MapItem, b: MapItem, c: MapItem)
    ensures ItemEquals(a, a)
    ensures ItemEquals(a, b) ==> ItemEquals(b, a)
    ensures ItemEquals(a, b) && ItemEquals(b, c) ==> ItemEquals(a, c)
    ensures ItemEquals(CopyOf(a), a)
    ensures a != CopyOf(a) <==> a.Connections != [] || a.MissingConnections != []
  {
  }
}
