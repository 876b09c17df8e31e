# DrX in Dafny

DrX is a console game of hide and seek on a graph. A map file names the vertices and their
neighbours. The program lays the graph out on a grid of cells:

- a longest loop-free path starting at a least-connected vertex becomes a horizontal backbone;
- the other vertices are placed near their neighbours;
- each missing edge is routed as a chain of path cells by a Dijkstra search under a cost
  ceiling; an edge stays unrouted only when no route within the ceiling exists;
- each path cell gets a connector shape.

The grid is then rendered into a buffer of 3 x 5 character blocks. The game state moves DrX and
the players over the vertices. The program also has its own linked list, its own array list and
its own character buffers: a coloured-markup line buffer, a screen buffer, blocks and a block
buffer.

The project models these parts. Each class of the program whose fields its methods change is a
Dafny `class` whose methods have `modifies` clauses and state the whole new state. Each
algorithm that runs as a loop is a `method` with its loop invariants, proved against a
specification function. What the layout promises is proved about those functions as lemmas.
Modules follow the program's files:

- `Graphs`: the `Graph` class of `Graph.cs`.
- Helper modules holding the specification functions and lemmas of `Graph.cs`:
  - `Layout`: parsing, longest path, backbone;
  - `Placement`: placing the missed vertices;
  - `Routing`: the Dijkstra search; `Routes`: backtracking a route and drawing it;
  - `PathClassifier`: connector shapes;
  - `Wiring`: the routing sweeps;
  - `Assembly`: the layout as a whole;
  - `Rendering`: what the block buffer shows.
- `GridMap` (`Map.cs`), `MapItems`, `PathSegments`, `Sprites`, `Vertices`.
- `LinkedLists`, `ArrayLists`.
- `Games` (`GameState.cs`, `Player.cs`).
- `LineBuffers`, `ScreenBuffers`, `Blocks`, `BlockBuffers`.
- `Common`, `Sequences`, `Text`, `Numerals`: shared definitions, including .NET's `int.Parse` (which also ignores '\0' characters at the end of its text).

Exceptions the program throws are modelled as the `Err`/`Fail` cases of `Result`/`Outcome`
values naming the .NET exception.

## Model

| member | source | states |
|---|---|---|
| Common.TruncDiv | DrX/Graphics/Buffers/LineBuffer.cs:90 | C#'s integer division truncates toward zero: it agrees with Euclidean division on non-negative dividends and is the negated quotient of the negation otherwise |
| Numerals.ParseInt32 | DrX/GraphHopper/Graph.cs:130 | `int.Parse` yields a value within the 32-bit range, and fails only with a format or overflow error |
| Numerals.DropTrailingNuls | DrX/GraphHopper/Graph.cs:130 | the '\0' characters `int.Parse` ignores are exactly those that end the text: what is left is a prefix not ending in '\0', and a text not ending in '\0' is kept whole |
| Numerals.ParseDigits | DrX/GraphHopper/Graph.cs:130 | any run of digits parses to its value, or to an overflow error when that exceeds the 32-bit range |
| Numerals.ParseTrailingNul | DrX/GraphHopper/Graph.cs:130 | a '\0' after any text leaves the parse unchanged |
| Numerals.TryParseInt32 | DrX/Graphics/Buffers/LineBuffer.cs:172-176 | `int.TryParse` succeeds exactly when `int.Parse` does, with the same value |
| Numerals.ParseIntText | DrX/GraphHopper/Graph.cs:130 | the decimal text of every 32-bit integer parses back to that integer (round trip) |
| Numerals.ParseInt32Lenient | DrX/GraphHopper/Graph.cs:130 | for example, surrounding white space, trailing '\0' characters and a leading '+' are accepted, while a '\0' followed by white space is a format error |
| Numerals.ParseInt32Malformed | DrX/GraphHopper/Graph.cs:130 | for example, an empty text, a bare sign and a non-digit are format errors |
| Sequences.IndexOf | DrX/Utils/Generic/List.cs:121-129 | the first index holding x, or -1 exactly when x is absent |
| Sequences.IndexOfIsFirst | DrX/Utils/Generic/List.cs:121-129 | no earlier position holds x |
| Sequences.RemovedAt | DrX/Utils/Generic/List.cs:270-287 | removing a position shortens by one, keeps the elements before it and shifts the later ones left |
| Sequences.InsertedAt | DrX/Utils/Generic/List.cs:246-263 | inserting at a position lengthens by one, puts x there, keeps the earlier elements and shifts the later ones right |
| Sequences.InsertRemoveInverse | DrX/Utils/Generic/List.cs:246-287 | removing what was just inserted at the same position gives the original sequence back |
| Sequences.RemovedFirstDropsOne | DrX/Utils/Generic/LinkedList.cs:213-223 | removing the first occurrence takes exactly one copy of x out of the multiset, or nothing when x is absent |
| Vertices.IDs | DrX/GraphHopper/Graph.cs:90-98 | the list of IDs has one entry per vertex, each the ID of the vertex at that position |
| Vertices.IndexOfID | DrX/GraphHopper/Vertex.cs:21-26 | the first index of a vertex with the ID, or -1 exactly when no vertex has it |
| Vertices.FindVertexInList | DrX/GraphHopper/Graph.cs:822-832 | no vertex exactly when the ID is unknown; otherwise a vertex of the list with that ID |
| Vertices.FindVertexIsFirst | DrX/GraphHopper/Graph.cs:822-832 | the lookup finds the first vertex with the ID, so with distinct IDs the only one |
| Vertices.ConnectedVertices | DrX/GraphHopper/Graph.cs:57-66 | a vertex is returned exactly when it is in the list and its ID is among the neighbours |
| Vertices.MinDegree | DrX/GraphHopper/Graph.cs:839-863 | the least degree is attained and no vertex has a smaller one |
| Vertices.LeastConnectedExact | DrX/GraphHopper/Graph.cs:839-863 | a vertex is kept exactly when no vertex has a smaller degree; a non-empty list keeps one at least |
| Vertices.LeastConnectedStep | DrX/GraphHopper/Graph.cs:845-861 | one loop step keeps the least-connected vertices of the prefix seen so far |
| Vertices.RemovedFirstIDExact | DrX/Utils/Generic/LinkedList.cs:63-66 | with distinct IDs, removal by ID (vertex equality) removes exactly the vertex with that ID |
| Vertices.MissedVerticesExact | DrX/GraphHopper/Graph.cs:323-331 | with distinct IDs the missed vertices are exactly those whose ID is not on the path |
| Vertices.MissedVerticesWithin | DrX/GraphHopper/Graph.cs:323-331 | whatever the IDs, the missed vertices are some of the vertices, no more of them |
| Vertices.FindMapColorAtCoord | DrX/GraphHopper/Graph.cs:804-814 | no override exactly when none names the coordinate; otherwise the first one naming it |
| Vertices.UnknownColorsNothing | DrX/GraphHopper/Graph.cs:776-814 | an override for (-1,-1) colours no cell of the map |
| Vertices.FirstLongestIsFirst | DrX/GraphHopper/Graph.cs:201-214 | the kept path is no shorter than any candidate and is the first candidate of its length |
| MapItems.Cost | DrX/GraphHopper/Containers/MapItem.cs:16-28 | an Empty cell costs 1 and any other cell costs 10000 |
| MapItems.NewEmpty | DrX/GraphHopper/Containers/MapItem.cs:30-34 | a new cell is Empty with the Empty shape and no connections |
| MapItems.NewVertex | DrX/GraphHopper/Containers/MapItem.cs:36-48 | the cell is a vertex exactly when the ID is not '\0', and it holds both connection lists |
| MapItems.NewPath | DrX/GraphHopper/Containers/MapItem.cs:50-58 | the cell is a path cell exactly when the shape is not Empty |
| MapItems.CopyOf | DrX/GraphHopper/Containers/MapItem.cs:60-66 | a copy keeps status, shape and ID and has empty connection lists |
| MapItems.ItemEqualsIsEquivalence | DrX/GraphHopper/Containers/MapItem.cs:68-73 | cell equality is an equivalence that ignores the connection lists, so a copy equals its original, and differs from it as a value exactly when the original has connections |
| PathSegments.Compose | DrX/GraphHopper/Containers/PathSegment.cs:4-41 | the code assembled from four nibbles reads back those nibbles on the left, top, right and bottom sides |
| PathSegments.NamedNibblesInRange | DrX/GraphHopper/Containers/PathSegment.cs:4-41 | every named shape is four nibbles, each 0..3, and reassembling them gives the code |
| PathSegments.NamedDistinct | DrX/GraphHopper/Containers/PathSegment.cs:22-41 | the 17 named shapes are pairwise distinct |
| PathSegments.StraightSegments | DrX/GraphHopper/Containers/PathSegment.cs:24-26 | Empty uses no side; Horizontal joins the left and right centres; Vertical joins the top and bottom centres |
| Sprites.SpriteShape | DrX/GraphHopper/Sprite.cs:17-40 | every code draws as a 3 x 5 tile, and a code that names no shape draws as the empty tile |
| Sprites.SpriteMatchesCode | DrX/GraphHopper/Sprite.cs:17-40 | every named shape's tile meets the tile border exactly where its code's nibbles say |
| Sprites.FixedTileShapes | DrX/GraphHopper/Sprite.cs:79-214 | the vertex frame is 3 x 5 and the banner is 6 x 19 |
| Sprites.VertexToSprite | DrX/GraphHopper/Sprite.cs:47-59 | a fresh 3 x 5 matrix equal to the frame except the centre, which holds the ID; the shared frame is not changed |
| Sprites.PathSegmentMatrix | DrX/GraphHopper/Sprite.cs:17-40 | a fresh 3 x 5 matrix holding the shape's tile |
| Sprites.GetPlaceholder | DrX/GraphHopper/Sprite.cs:65-77 | a fresh 1 x 1 buffer whose one block is 6 x 19, white on black, and holds the banner |
| GridMap.BottomGrowth | DrX/GraphHopper/Containers/Map.cs:55-74 | rows added at the bottom keep the width and every old cell's coordinate, and are Empty |
| GridMap.TopGrowth | DrX/GraphHopper/Containers/Map.cs:79-98 | rows added on top keep the width, move every old cell down by the amount, and are Empty |
| GridMap.RightGrowth | DrX/GraphHopper/Containers/Map.cs:103-120 | columns added on the right keep old coordinates and are Empty |
| GridMap.LeftGrowth | DrX/GraphHopper/Containers/Map.cs:125-142 | columns added on the left move every old cell right by the amount and are Empty |
| GridMap.FirstRow | DrX/GraphHopper/Containers/Map.cs:55-63 | a row added to a map without rows has no cells |
| GridMap.BorderGrowth | DrX/GraphHopper/Containers/Map.cs:148-157 | a border of width w adds 2w rows and 2w columns, moves every old cell w down and w right, and is Empty |
| GridMap.FindWhereIsFirst | DrX/GraphHopper/Containers/Map.cs:175-204 | the search gives (-1,-1) exactly when no cell matches, and otherwise the first match in row-major order |
| GridMap.OffsetStep | DrX/GraphHopper/Containers/Map.cs:290-312 | the nine loop steps and the nine unit offsets correspond one to one |
| GridMap.NeighboursAreTheEightAdjacent | DrX/GraphHopper/Containers/Map.cs:290-312 | the neighbour list holds exactly the in-bounds 8-neighbours without the centre, each once, in row-major order, at most 8 |
| GridMap.AdjacentCoordinatesWithin | DrX/GraphHopper/Containers/Map.cs:290-312 | the nested loops give that neighbour list |
| GridMap.VertexCoordsExact | DrX/GraphHopper/Containers/Map.cs:240-270 | the vertex list holds exactly the coordinates of the vertex cells, each once, in row-major order |
| GridMap.Map.constructor | DrX/GraphHopper/Containers/Map.cs:35 | a new map has no rows |
| GridMap.Map.Copy | DrX/GraphHopper/Containers/Map.cs:37-50 | the copy has the same dimensions and every cell equals its original |
| GridMap.Map.Set | DrX/GraphHopper/Containers/Map.cs:13-22 | the setter changes exactly one cell |
| GridMap.Map.AddRowBottom | DrX/GraphHopper/Containers/Map.cs:55-63 | one more row, the same width, as bottom growth by one |
| GridMap.Map.AddRowsBottom | DrX/GraphHopper/Containers/Map.cs:68-74 | bottom growth by the amount, none for a negative amount |
| GridMap.Map.AddRowTop | DrX/GraphHopper/Containers/Map.cs:79-87 | one more row, the same width, as top growth by one |
| GridMap.Map.AddRowsTop | DrX/GraphHopper/Containers/Map.cs:92-98 | top growth by the amount |
| GridMap.Map.AddColRight | DrX/GraphHopper/Containers/Map.cs:103-109 | one more column, none on a map without rows |
| GridMap.Map.AddColsRight | DrX/GraphHopper/Containers/Map.cs:114-120 | right growth by the amount |
| GridMap.Map.AddColLeft | DrX/GraphHopper/Containers/Map.cs:125-131 | one more column on the left, none on a map without rows |
| GridMap.Map.AddColsLeft | DrX/GraphHopper/Containers/Map.cs:136-142 | left growth by the amount |
| GridMap.Map.AddBorder | DrX/GraphHopper/Containers/Map.cs:148-157 | the map gets a border of the width, and stays rectangular |
| GridMap.Map.HasCoordinate | DrX/GraphHopper/Containers/Map.cs:164-168 | true exactly when the coordinate lies on the map |
| GridMap.Map.FirstCoordWhere | DrX/GraphHopper/Containers/Map.cs:175-204 | the nested loops find the first match in row-major order, or (-1,-1) |
| GridMap.Map.CoordOf | DrX/GraphHopper/Containers/Map.cs:175-186 | the first cell with the ID, or (-1,-1) |
| GridMap.Map.CoordOfItem | DrX/GraphHopper/Containers/Map.cs:193-204 | the first cell equal to the item, or (-1,-1) |
| GridMap.Map.AdjacentCoordinatesOf | DrX/GraphHopper/Containers/Map.cs:277-312 | the in-bounds 8-neighbours of the coordinate, in row-major order |
| GridMap.Map.GetListOfVertexCoords | DrX/GraphHopper/Containers/Map.cs:258-270 | the coordinates of the vertex cells, in row-major order |
| GridMap.Map.GetListOfVerticesByRef | DrX/GraphHopper/Containers/Map.cs:240-252 | the vertex cells, in row-major order, each the cell at its coordinate |
| Layout.LinesVerticesAt | DrX/GraphHopper/Graph.cs:132-159 | vertex k of the parse takes the first character of line k + 1 as its ID and the rest of that line as its neighbours |
| Layout.ParsedVerticesShortFile | DrX/GraphHopper/Graph.cs:130-137 | a count line for n with one of lines 1..n missing or empty throws an index error |
| Layout.ParsedVerticesWellFormed | DrX/GraphHopper/Graph.cs:139-159 | with all n lines present, the parse is their vertices when every neighbour is declared, and an invalid-operation error otherwise |
| Layout.UndeclaredAt | DrX/GraphHopper/Graph.cs:151-156 | a neighbour ID that no vertex has makes the list undeclared |
| Layout.ParseMapText | DrX/GraphHopper/Graph.cs:128-160 | parsing the map file written for a declared vertex list gives that list back (round trip) |
| Layout.ParsedVerticesShape | DrX/GraphHopper/Graph.cs:128-160 | a successful parse declares exactly as many vertices as line 0 says, each from its own line, and every neighbour is declared |
| Layout.DfsFromKeepsChains | DrX/GraphHopper/Graph.cs:229-260 | the search only keeps paths along the graph from the root without a repeated ID |
| Layout.DfsFromFinds | DrX/GraphHopper/Graph.cs:229-260 | the kept path is at least as long as any loop-free path the search can extend from the current one |
| Layout.DfsLoopFindsNext | DrX/GraphHopper/Graph.cs:244-256 | when such a path continues through the next undiscovered neighbour, the search from that neighbour finds one at least as long, and the loop keeps it |
| Layout.LongestPathIsChain | DrX/GraphHopper/Graph.cs:201-214 | the longest path is empty or runs along the graph from a least-connected vertex without repeating an ID, and no search from a least-connected vertex keeps a longer path |
| Layout.LongestPathIsLongest | DrX/GraphHopper/Graph.cs:201-260 | with distinct IDs, no loop-free path along the graph from a least-connected vertex is longer than the path found |
| Layout.IsolatedSearchIsEmpty | DrX/GraphHopper/Graph.cs:240-259 | a search from a vertex without neighbours keeps nothing |
| Layout.BackboneRowCells | DrX/GraphHopper/Graph.cs:266-297 | vertex i of the path sits at column 2i with its ID and neighbours, and a Horizontal path cell sits between consecutive vertices |
| Layout.BackboneRow | DrX/GraphHopper/Graph.cs:266-297 | the backbone row has 2k - 1 cells for a path of k vertices |
| Layout.BackboneRowPush | DrX/GraphHopper/Graph.cs:277-294 | one more path vertex extends the row as the loop body does |
| Layout.BackboneMissingShrinks | DrX/GraphHopper/Graph.cs:283-291 | a path vertex's missing list holds only entries of its neighbour list, no more often |
| Placement.EmptySpaceFromIsFirst | DrX/GraphHopper/Graph.cs:438-464 | the probe search gives (-1,-1) exactly when no probe is a free cell, and otherwise the first free probe in the listed order |
| Placement.OnMapInBounds | DrX/GraphHopper/Graph.cs:356-372 | every neighbour coordinate that counts towards the average lies on the map |
| Placement.OnMapStep | DrX/GraphHopper/Graph.cs:357-370 | one more neighbour ID: its coordinate joins the placed list when it is on the map, adding its column to the sum and raising the edge row to its own when lower |
| Placement.AnchorInRange | DrX/GraphHopper/Graph.cs:374-379 | the anchor lies in a column of the map and at least two rows down |
| Placement.RowsBelow | DrX/GraphHopper/Graph.cs:381-384 | rows are added until the anchor is on the map, keeping the width |
| Placement.RoomSteps | DrX/GraphHopper/Graph.cs:390-414 | each of the four checks keeps the grid rectangular and its vertex cells |
| Placement.MakeRoomShape | DrX/GraphHopper/Graph.cs:389-412 | the four checks together keep the grid rectangular and its vertex cells |
| Placement.TargetShape | DrX/GraphHopper/Graph.cs:374-419 | the chosen cell is (-1,-1) or a free cell of the grown map, and growing the map keeps every vertex cell |
| Placement.TargetKept | DrX/GraphHopper/Graph.cs:380-385 | when the anchor's cell is Empty once the rows below are added, the anchor itself is chosen |
| Placement.TargetMoved | DrX/GraphHopper/Graph.cs:385-415 | otherwise the cell is looked for around the cell two rows above, once room is made |
| Placement.MarkOnly | DrX/GraphHopper/Graph.cs:421-424 | only the chosen cell changes, into a vertex with the ID and the full neighbour list as both connection lists |
| Placement.MarkAddsOne | DrX/GraphHopper/Graph.cs:421-424 | writing a vertex into an Empty cell adds exactly one vertex cell |
| Placement.PlaceAtCount | DrX/GraphHopper/Graph.cs:374-427 | handling one vertex adds one vertex cell when it is placed and none otherwise |
| Placement.RoundCount | DrX/GraphHopper/Graph.cs:346-428 | every vertex a round removes from the missed list is on the map afterwards as one more vertex cell |
| Placement.RoundKeeps | DrX/GraphHopper/Graph.cs:346-373 | a vertex with no neighbour on the map stays missed and the map is unchanged |
| Placement.RoundPlaces | DrX/GraphHopper/Graph.cs:373-427 | a vertex with a neighbour on the map has an anchor inside the map; a failed placement ends the round with the rest kept missed, a successful one leaves the vertex off the missed list |
| Placement.RoundsCount | DrX/GraphHopper/Graph.cs:338-431 | the vertex cells added are exactly as many as the vertices no longer listed as missed |
| Placement.FailedLeavesSome | DrX/GraphHopper/Graph.cs:416-418 | a failed placement leaves the vertex missed, so the answer is false |
| Placement.RoundsAllPlaced | DrX/GraphHopper/Graph.cs:338-431 | when the rounds leave nothing missed, every missed vertex got its own vertex cell |
| Placement.IdleRoundChangesNothing | DrX/GraphHopper/Graph.cs:342-344 | a round that places nothing changes nothing, so stopping after it loses nothing |
| Placement.GrowthKeepsCount | DrX/GraphHopper/Containers/Map.cs:55-142 | growing the map at any edge keeps the vertex cells |
| Placement.RowGrowthKeepsCount | DrX/GraphHopper/Containers/Map.cs:55-101 | rows added at the bottom or on top hold no vertex cell |
| Placement.SquaredIsNearlySquare | DrX/GraphHopper/Graph.cs:302-316 | a map with rows comes out square or one short of square |
| Routing.IndexOfCoord | DrX/GraphHopper/Containers/DijkstraInfo.cs:24-28 | the first table entry for the cell (entries are equal by coordinate), or -1 exactly when none |
| Routing.InitialTableShape | DrX/GraphHopper/Graph.cs:625-638 | the initial table holds one entry per cell, in row-major order, the start at cost 0 and every other cell unreached |
| Routing.InitialTableCovers | DrX/GraphHopper/Graph.cs:625-638 | every cell of the grid has an entry |
| Routing.GenerateUnvisitedTable | DrX/GraphHopper/Graph.cs:625-638 | the loops build that initial table |
| Routing.CheapestNode | DrX/GraphHopper/Graph.cs:645-654 | an empty table dereferences null; otherwise the first entry of least cost |
| Routing.StepCost | DrX/GraphHopper/Graph.cs:593-599 | entering a neighbour costs at least 1 |
| Routing.Relax | DrX/GraphHopper/Graph.cs:597-605 | relaxation keeps the cell and never raises its cost; when it changes the entry, the cost drops and the predecessor becomes the current cell, a neighbour |
| Routing.RelaxNeighbours | DrX/GraphHopper/Graph.cs:577-607 | the neighbour loop relaxes exactly the unvisited entries of the current cell's neighbours |
| Routing.FindUnvisitedNode | DrX/GraphHopper/Graph.cs:580-589 | the inner search reports a visited cell exactly when the table has no entry for it, and otherwise finds its entry |
| Routing.CheapestIsLinked | DrX/GraphHopper/Graph.cs:571-575 | the cheapest entry within the ceiling is the start or was reached from a visited entry |
| Routing.VisitKeepsOrder | DrX/GraphHopper/Graph.cs:609-610 | a round keeps cells unique, and visited costs sorted and no greater than any unvisited cost |
| Routing.RoundEntries | DrX/GraphHopper/Graph.cs:597-610 | after a round the visited table gains the cheapest entry, and every remaining unvisited cell keeps its place and costs no less |
| Routing.VisitKeepsLinks | DrX/GraphHopper/Graph.cs:597-610 | a round keeps the visited table linked back to the start |
| Routing.VisitStep | DrX/GraphHopper/Graph.cs:569-614 | one round within the ceiling keeps the tables' invariant |
| Routing.Dijkstra | DrX/GraphHopper/Graph.cs:561-618 | the visited table starts at the start cell with cost 0 (whenever the start is on the map and the ceiling is not negative), has distinct cells, is sorted by cost, holds only cells of the map with cost within the ceiling, each entry was reached from an earlier one; the target is at most the last entry, and when it is absent the table is closed: every step from a visited cell within the ceiling lands on a visited cell at no more than that cost |
| Routing.SearchStart | DrX/GraphHopper/Graph.cs:563-568 | the initial tables satisfy the loop's invariant: nothing visited, every cell of the map unvisited, the start at cost 0 |
| Routing.SearchStep | DrX/GraphHopper/Graph.cs:571-614 | one pass of the loop keeps the invariant (tables linked, sorted, covering the map, neighbours of visited cells bounded) and shrinks the unvisited table unless it stops |
| Routing.SearchDone | DrX/GraphHopper/Graph.cs:569-617 | when the loop stops (target visited, ceiling passed or nothing left) the visited table is what Dijkstra promises |
| Routing.VisitCheapest | DrX/GraphHopper/Graph.cs:576-611 | visiting the cheapest entry keeps every cell covered and every neighbour of a visited cell bounded by the step from it |
| Routing.RoundKeepsBounded | DrX/GraphHopper/Graph.cs:577-610 | a round keeps every cell covered and the neighbours of visited cells bounded |
| Routing.EntryAfterAppend | DrX/GraphHopper/Containers/DijkstraInfo.cs:24-28 | appending an entry keeps every earlier lookup and makes the new cell's lookup the new last index |
| Routing.EntryAfterRound | DrX/GraphHopper/Graph.cs:597-610 | after a round each other unvisited cell's entry is its relaxed old entry, one place earlier when it came after the visited one |
| Routing.StopAtCeiling | DrX/GraphHopper/Graph.cs:573-574 | when the cheapest unvisited entry is over the ceiling, the visited table is closed under steps within the ceiling |
| Routing.StopEmpty | DrX/GraphHopper/Graph.cs:569 | when nothing is left unvisited, the visited table is closed under steps within the ceiling |
| Routing.InitialTableCovered | DrX/GraphHopper/Graph.cs:625-638 | the initial unvisited table has an entry for every cell of the map, the start's at cost 0 |
| Routing.RoundKeepsCovered | DrX/GraphHopper/Graph.cs:609-610 | moving the cheapest entry from the unvisited to the visited table keeps every cell of the map in one of them |
| Routes.ClosedHoldsRoute | DrX/GraphHopper/Graph.cs:561-618 | a closed visited table holds the first cell of every route from the start within the ceiling, at no more than the route's cost |
| Routes.SearchComplete | DrX/GraphHopper/Graph.cs:561-618 | whenever a route from the start to the target costs no more than the ceiling, the visited table holds the target |
| PathClassifier.DirectionCost | DrX/GraphHopper/Graph.cs:662-672 | 2 for a diagonal step, 1 for a straight one, 50000 for cells that are not adjacent |
| PathClassifier.DirectionCostOfNeighbours | DrX/GraphHopper/Graph.cs:662-672 | between two 8-neighbours the cost is 2 on a diagonal and 1 otherwise, and symmetric |
| PathClassifier.Bucket | DrX/GraphHopper/Graph.cs:706-723 | each of the eight directions contributes its side nibbles |
| PathClassifier.ClassifierSymmetric | DrX/GraphHopper/Graph.cs:697-730 | the shape does not depend on the direction the route is walked in |
| PathClassifier.ClassifierStraight | DrX/GraphHopper/Graph.cs:697-730 | passing straight left to right is Horizontal, top to bottom Vertical |
| PathClassifier.ClassifierOpposite | DrX/GraphHopper/Graph.cs:697-730 | a route passing between two opposite neighbours gets a named shape |
| PathClassifier.ClassifierTurnBack | DrX/GraphHopper/Graph.cs:697-730 | a route that turns back cancels out to Empty |
| Routes.BacktrackDijkstraPath | DrX/GraphHopper/Graph.cs:680-690 | the loop yields the walk back from the cell's entry along predecessors |
| Routes.BacktrackFromStep | DrX/GraphHopper/Graph.cs:684-688 | the walk from a cell is that cell followed by the walk from its predecessor |
| Routes.LinkedIsLinkedBack | DrX/GraphHopper/Graph.cs:561-618 | the table Dijkstra returns is linked back along its predecessors |
| Routes.BacktrackedRoute | DrX/GraphHopper/Graph.cs:680-690 | the walk back from any visited entry succeeds and gives a route from its cell to the start over distinct neighbouring cells of the map |
| Routes.RouteCostCoversEachCell | DrX/GraphHopper/Graph.cs:593-599 | a route costs at least what entering any of its cells costs, plus one |
| Routes.RouteThroughEmpty | DrX/GraphHopper/Graph.cs:525-539 | a route cheaper than a blocked cell runs over Empty cells only, apart from its ends |
| Routes.Painted | DrX/GraphHopper/Graph.cs:531-539 | drawing keeps every cell's status, or turns an Empty cell into a path cell, and keeps IDs and connection lists |
| Routes.PaintStep | DrX/GraphHopper/Graph.cs:531-539 | drawing one more cell of the route extends the drawn part by that cell |
| Routes.DrawRoute | DrX/GraphHopper/Graph.cs:529-539 | the drawing loop leaves the map with its dimensions and every cell painted by the route |
| Wiring.BackboneNoSelfMissing | DrX/GraphHopper/Graph.cs:266-297 | without self-loops no backbone cell waits to be joined to itself |
| Wiring.RoundsNoSelfMissing | DrX/GraphHopper/Graph.cs:338-431 | placement keeps every cell from waiting for itself |
| Wiring.WiredTrans | DrX/GraphHopper/Graph.cs:474-549 | routing steps compose |
| Wiring.WiredNoSelfMissing | DrX/GraphHopper/Graph.cs:511-549 | routing only shrinks missing lists, so no cell comes to wait for itself |
| Wiring.WiredKeepsVertices | DrX/GraphHopper/Graph.cs:476 | routing neither creates nor removes a vertex cell, so the vertex list taken before the sweeps stays right |
| Wiring.DrawnExact | DrX/GraphHopper/Graph.cs:531-539 | a map painted cell by cell along a route is the drawn map |
| Wiring.DrawnWired | DrX/GraphHopper/Graph.cs:531-539 | drawing a route only turns Empty cells into path cells |
| Wiring.TickedPair | DrX/GraphHopper/Graph.cs:541-542 | an accepted route takes the connection off both ends: the start loses exactly the entry routed, the target one copy of the start's ID if it lists it, and no other cell changes |
| Wiring.AcceptedRouteAvoidsCells | DrX/GraphHopper/Graph.cs:523-539 | a route accepted under a ceiling below 10000 runs over Empty cells only, apart from its ends |
| Wiring.CeilingsFromAre | DrX/GraphHopper/Graph.cs:479-500 | the ceilings are limit, limit + 4, ..., each below the bound, and the next one is not |
| Wiring.CeilingsBelowBlocked | DrX/GraphHopper/Graph.cs:478-479 | every ceiling tried is 2 + 4k and at most 9998 |
| Wiring.EmptyListsAllJoined | DrX/GraphHopper/Graph.cs:482-497 | a sweep that finds every vertex cell's list empty means every vertex cell is joined |
| Wiring.CeilingsExhausted | DrX/GraphHopper/Graph.cs:479 | the sweeps stop for want of ceilings only once every ceiling has been tried |
| Assembly.Backbone | DrX/GraphHopper/Graph.cs:266-297 | the backbone map is rectangular with at most one row |
| Assembly.BackboneCount | DrX/GraphHopper/Graph.cs:266-297 | the backbone holds one vertex cell per path vertex |
| Assembly.MissedCount | DrX/GraphHopper/Graph.cs:323-331 | a path without a repeated ID leaves all other vertices missed |
| Assembly.LaidHoldsEveryVertex | DrX/GraphHopper/Graph.cs:165-176 | when placement leaves nothing missed, the map holds one vertex cell per vertex |
| Assembly.WiredKeepsCount | DrX/GraphHopper/Graph.cs:474-504 | drawing routes keeps the number of vertex cells |
| Assembly.BorderKeepsCount | DrX/GraphHopper/Containers/Map.cs:148-157 | the border keeps the number of vertex cells |
| Assembly.SquaredKeepsCount | DrX/GraphHopper/Graph.cs:302-316 | squaring keeps the number of vertex cells |
| Rendering.CellLookShape | DrX/GraphHopper/Graph.cs:736-769 | every cell draws as a 3 x 5 tile; Empty cells stay blank; without an override a cell is white on black |
| Rendering.BlankBlockShows | DrX/Graphics/Buffers/BlockBuffer.cs:17-29 | a block of a new buffer shows the blank look |
| Rendering.MapColors | DrX/GraphHopper/Graph.cs:776-787 | one override per vertex colour, with its colours |
| Rendering.UnknownIDColorsNothing | DrX/GraphHopper/Graph.cs:776-787 | an override lands on (-1,-1) exactly when no cell has its ID |
| Rendering.OverrideLandsOnItsVertex | DrX/GraphHopper/Graph.cs:776-787 | an override is meant for a vertex's first cell exactly when it names the vertex's ID |
| Rendering.FirstColorWins | DrX/GraphHopper/Graph.cs:736-814 | a non-empty cell that is the first holding its ID (every vertex cell) draws its tile in the colours of the first vertex colour naming its ID, white on black when none does |
| Rendering.LaterCellDrawsPlain | DrX/GraphHopper/Graph.cs:736-814 | a non-empty cell that is not the first holding its ID takes no colour override and draws its tile white on black |
| Rendering.PathCellDrawsPlain | DrX/GraphHopper/Graph.cs:736-814 | on a map whose top-left cell is empty, a path cell (which holds no ID) draws its connector white on black whatever the vertex colours |
| Graphs.Graph.constructor | DrX/GraphHopper/Graph.cs:19-27 | with the map shown: a buffer of one block per cell, each block showing its cell, every vertex placed, every edge joined; otherwise the one-block banner; when placement fails the map is switched off |
| Graphs.Graph.FromMapLines | DrX/GraphHopper/Graph.cs:19-27 | the parse error, or the graph built from the parsed vertices |
| Graphs.Graph.ParseMap | DrX/GraphHopper/Graph.cs:128-160 | the loops give the parse, or its exception |
| Graphs.Graph.ConnectVertices | DrX/GraphHopper/Graph.cs:139-159 | line k + 1 gives vertex k its neighbours, or an invalid-operation error for the first undeclared one |
| Graphs.Graph.NeighbourIDs | DrX/GraphHopper/Graph.cs:143-156 | one line's neighbours, when every one is declared |
| Graphs.Graph.VerticesWithLeastConnections | DrX/GraphHopper/Graph.cs:839-863 | the vertices of least degree, in order |
| Graphs.Graph.DFS | DrX/GraphHopper/Graph.cs:229-260 | the recursive search keeps the longest path as specified |
| Graphs.Graph.SearchLongestPath | DrX/GraphHopper/Graph.cs:201-214 | the first longest path of the searches from the least-connected vertices |
| Graphs.Graph.AddTheHorizontalVertices | DrX/GraphHopper/Graph.cs:266-297 | the empty map becomes the backbone row, or stays empty for an empty path |
| Graphs.Graph.GenerateMissedVertices | DrX/GraphHopper/Graph.cs:323-331 | the vertices left once every path vertex is removed by ID |
| Graphs.Graph.MakeTheMapSquare | DrX/GraphHopper/Graph.cs:302-316 | the map becomes the squared map |
| Graphs.Graph.FindEmptySpace | DrX/GraphHopper/Graph.cs:438-464 | the first in-bounds Empty cell among the eight probes, or (-1,-1) |
| Graphs.Graph.NeighbourAnchor | DrX/GraphHopper/Graph.cs:348-379 | the anchor from the placed neighbours, or none when no neighbour is placed |
| Graphs.Graph.PlaceMissedVertex | DrX/GraphHopper/Graph.cs:374-427 | the map and answer are those of placing the vertex at the anchor |
| Graphs.Graph.FindTarget | DrX/GraphHopper/Graph.cs:376-419 | the grown map and the cell to write into |
| Graphs.Graph.GrowBelow | DrX/GraphHopper/Graph.cs:380-383 | rows are added at the bottom two at a time until the anchor is on the map |
| Graphs.Graph.Relocate | DrX/GraphHopper/Graph.cs:387-414 | the map grown by the four checks and the first free probe near the shifted position, or (-1,-1) |
| Graphs.Graph.MakeRoomAround | DrX/GraphHopper/Graph.cs:388-414 | the map grown by the four checks, and the shifted position |
| Graphs.Graph.AddMissedVertices | DrX/GraphHopper/Graph.cs:338-431 | the map and the vertices left are those of the rounds, and the answer is true exactly when none is left |
| Graphs.Graph.MissedRound | DrX/GraphHopper/Graph.cs:346-428 | one pass over the missed vertices does what one round specifies |
| Graphs.Graph.Connect | DrX/GraphHopper/Graph.cs:516-547 | one missing connection is routed and drawn exactly when the search's visited table holds the target, taking the pair off both lists; otherwise nothing changes; it is joined whenever some route from the start to the target costs no more than the ceiling |
| Graphs.Graph.DrawAndTick | DrX/GraphHopper/Graph.cs:527-542 | the route is drawn over Empty cells only, and the pair is taken off the start's and the target's missing lists |
| Graphs.Graph.TickPair | DrX/GraphHopper/Graph.cs:541-542 | the start loses the entry and the target loses the start's ID, nothing else changes |
| Graphs.Graph.TryEntry | DrX/GraphHopper/Graph.cs:517-546 | one entry of the missing list is dropped when it is joined and kept otherwise, the map staying wired and in bounds; it is joined whenever a route to its target within the ceiling exists |
| Graphs.Graph.ProcessMissingConnections | DrX/GraphHopper/Graph.cs:511-549 | routing only; the start's list keeps exactly the entries not joined |
| Graphs.Graph.Sweep | DrX/GraphHopper/Graph.cs:482-497 | routing only; it finds all lists empty exactly when they were, and then changes nothing |
| Graphs.Graph.SweepCell | DrX/GraphHopper/Graph.cs:486-491 | one vertex cell is processed exactly when its missing list is not empty; a cell with an empty list leaves the map unchanged |
| Graphs.Graph.GenerateMapPaths | DrX/GraphHopper/Graph.cs:474-504 | routing only, under the ceilings 2, 6, 10, ...; true means every vertex cell is joined |
| Graphs.Graph.GenerateGraphLayout | DrX/GraphHopper/Graph.cs:165-195 | as the constructor: the laid-out buffer, or the banner |
| Graphs.Graph.PlaceVertices | DrX/GraphHopper/Graph.cs:167-176 | the backbone and the placement rounds; true exactly when every vertex is placed |
| Graphs.Graph.DrawRoutes | DrX/GraphHopper/Graph.cs:178-192 | border, routing and the retry on a squared map keep the vertex cells; true means every vertex cell is joined |
| Graphs.Graph.GenerateBlockBuffer | DrX/GraphHopper/Graph.cs:33-51 | while the map is shown, each block shows its cell with the vertex colours applied; otherwise the buffer is unchanged |
| Graphs.Graph.FillBlockBuffer | DrX/GraphHopper/Graph.cs:736-769 | a fresh Rows x Cols buffer of 3 x 5 blocks, each showing its cell's look |
| Graphs.Graph.DrawCell | DrX/GraphHopper/Graph.cs:746-766 | the block shows the cell's look |
| Graphs.Graph.ColoredVrtxToMapColor | DrX/GraphHopper/Graph.cs:776-787 | the vertex colours moved to their vertices' coordinates |
| Graphs.Graph.FillPlaceholder | DrX/GraphHopper/Graph.cs:792-796 | the map is switched off and the buffer shows the banner |
| Graphs.Graph.GetConnectedVertices | DrX/GraphHopper/Graph.cs:57-66 | the vertices the vertex lists as neighbours, in list order |
| Graphs.Graph.GetConnectedIDs | DrX/GraphHopper/Graph.cs:72-75 | the cell's connections, or an index error exactly when the coordinate is off the map |
| Graphs.Graph.GetListOfVertices | DrX/GraphHopper/Graph.cs:81-84 | the vertex list |
| Graphs.Graph.GetListOfVertexIDs | DrX/GraphHopper/Graph.cs:90-98 | the IDs, in map-file order |
| Graphs.Graph.CoordinateToID | DrX/GraphHopper/Graph.cs:104-107 | the cell's ID, or an index error exactly when the coordinate is off the map |
| Graphs.Graph.IDToVertex | DrX/GraphHopper/Graph.cs:113-121 | the first vertex with the ID, or none |
| LinkedLists.Node.constructor | DrX/Utils/Generic/LinkedListNode.cs:9-12 | a new node holds the data and no links |
| LinkedLists.LinkedList.Links | DrX/Utils/Generic/LinkedList.cs:7-9 | each node of the chain is linked to its neighbours in both directions |
| LinkedLists.LinkedList.constructor | DrX/Utils/Generic/LinkedList.cs:17 | a new list is empty |
| LinkedLists.LinkedList.Copy | DrX/Utils/Generic/LinkedList.cs:34-37 | a copy with fresh nodes, the same elements in the same order |
| LinkedLists.LinkedList.FromArray | DrX/Utils/Generic/LinkedList.cs:24-27 | the array's elements, in order |
| LinkedLists.LinkedList.AddToChain | DrX/Utils/Generic/LinkedList.cs:347-363 | the node is spliced in at its position and the rest keeps its order |
| LinkedLists.LinkedList.AddToChainFront | DrX/Utils/Generic/LinkedList.cs:327-330 | the data becomes the first element |
| LinkedLists.LinkedList.AddToChainBack | DrX/Utils/Generic/LinkedList.cs:336-339 | the data becomes the last element |
| LinkedLists.LinkedList.RemoveFromChain | DrX/Utils/Generic/LinkedList.cs:369-385 | the node is unlinked, the rest keeps its order, and the node keeps its Next |
| LinkedLists.LinkedList.Add | DrX/Utils/Generic/LinkedList.cs:43-47 | the item becomes the last element and the length grows by one |
| LinkedLists.LinkedList.PushBack | DrX/Utils/Generic/LinkedList.cs:81-84 | as Add |
| LinkedLists.LinkedList.RemoveByNode | DrX/Utils/Generic/LinkedList.cs:54-57 | a null node throws; otherwise exactly that node is removed, keeping its Next |
| LinkedLists.LinkedList.Remove | DrX/Utils/Generic/LinkedList.cs:63-66 | the first equal element is removed, the rest keeps its order; nothing happens when none is equal |
| LinkedLists.LinkedList.RemoveAt | DrX/Utils/Generic/LinkedList.cs:72-75 | the position is removed when it is below the length; otherwise nothing happens |
| LinkedLists.LinkedList.PopBack | DrX/Utils/Generic/LinkedList.cs:90-98 | an empty list throws; otherwise the last element is removed and returned |
| LinkedLists.LinkedList.Get | DrX/Utils/Generic/LinkedList.cs:105-108 | the element at the position, or an index error past the end |
| LinkedLists.LinkedList.SetAt | DrX/Utils/Generic/LinkedList.cs:115-118 | only that position changes and the length stays; past the end an index error |
| LinkedLists.LinkedList.GetNodeAt | DrX/Utils/Generic/LinkedList.cs:272-289 | the node at the position, or an index error past the end |
| LinkedLists.LinkedList.SearchByIndexForward | DrX/Utils/Generic/LinkedList.cs:296-305 | the walk forward reaches the node at the position |
| LinkedLists.LinkedList.SearchByIndexBackward | DrX/Utils/Generic/LinkedList.cs:312-321 | the walk backward reaches the node at the position |
| LinkedLists.LinkedList.Contains | DrX/Utils/Generic/LinkedList.cs:125-135 | true exactly when the data is an element |
| LinkedLists.LinkedList.Find | DrX/Utils/Generic/LinkedList.cs:142-145 | the node of the first equal element, or null when none |
| LinkedLists.LinkedList.Clear | DrX/Utils/Generic/LinkedList.cs:150-155 | the list becomes empty |
| LinkedLists.LinkedList.ToArray | DrX/Utils/Generic/LinkedList.cs:161-172 | a fresh array with the elements in order |
| ArrayLists.CopyCount | DrX/Utils/Generic/List.cs:297-308 | how many elements the copy moves: the length given, or the shorter array's length, within both arrays |
| ArrayLists.List.Length | DrX/Utils/Generic/List.cs:9 | the length is the number of elements the list holds |
| ArrayLists.List.constructor | DrX/Utils/Generic/List.cs:17 | a new list is empty |
| ArrayLists.List.Copy | DrX/Utils/Generic/List.cs:34-37 | a copy in a fresh array, same elements and order |
| ArrayLists.List.FromArray | DrX/Utils/Generic/List.cs:24-27 | the array's elements, in order, in a fresh array |
| ArrayLists.List.Get | DrX/Utils/Generic/List.cs:11-15 | the element, or an index error outside the list |
| ArrayLists.List.Set | DrX/Utils/Generic/List.cs:11-15 | only that position changes; outside the list an index error |
| ArrayLists.List.Add | DrX/Utils/Generic/List.cs:43-46 | the item is appended |
| ArrayLists.List.PushBack | DrX/Utils/Generic/List.cs:87-90 | the item is appended |
| ArrayLists.List.Append | DrX/Utils/Generic/List.cs:210-214 | the item is appended in a fresh array |
| ArrayLists.List.AddAt | DrX/Utils/Generic/List.cs:53-60 | the item is inserted at the position, shifting the rest right; past the end an argument error |
| ArrayLists.List.Remove | DrX/Utils/Generic/List.cs:66-69 | the first equal element is removed; nothing happens when none is equal |
| ArrayLists.List.RemoveByData | DrX/Utils/Generic/List.cs:183-190 | the element at the index of the data is removed, if any |
| ArrayLists.List.RemoveAt | DrX/Utils/Generic/List.cs:75-81 | the position is removed, shifting the rest left; at or past the end the call fails with ArgumentOutOfRange and nothing changes |
| ArrayLists.List.RemoveByIndex | DrX/Utils/Generic/List.cs:196-204 | the position is removed, shifting the rest left; at or past the end the call fails with IndexOutOfRange and nothing changes |
| ArrayLists.List.PopBack | DrX/Utils/Generic/List.cs:96-104 | an empty list throws; otherwise the last element is removed and returned |
| ArrayLists.List.Contains | DrX/Utils/Generic/List.cs:111-114 | true exactly when the data is an element |
| ArrayLists.List.IndexOf | DrX/Utils/Generic/List.cs:121-129 | the first index holding the data, or -1 |
| ArrayLists.List.Clear | DrX/Utils/Generic/List.cs:134-137 | the list becomes empty |
| ArrayLists.List.ToArray | DrX/Utils/Generic/List.cs:143-154 | a fresh array with the elements in order |
| ArrayLists.List.AddSpace | DrX/Utils/Generic/List.cs:246-263 | a fresh array one longer, with the elements moved apart at the position, or a slot at the end |
| ArrayLists.List.RemoveSpace | DrX/Utils/Generic/List.cs:270-287 | a fresh array one shorter, without the position |
| ArrayLists.List.ArrayCopy | DrX/Utils/Generic/List.cs:297-308 | the counted elements are copied into the destination range and nothing else changes |
| Games.NewPlayer | DrX/Player.cs:24-33 | a new player stands on the default vertex, visible and inactive, with the name, colour and ID |
| Games.RealPositions | DrX/GameState.cs:209-217 | one position per player but DrX, in ID order |
| Games.Unoccupied | DrX/GameState.cs:232-240 | the kept positions are at most the given ones |
| Games.UnoccupiedMembers | DrX/GameState.cs:232-240 | a position is kept exactly when it is given and nobody in the list stands on its vertex |
| Games.NothingTakenKeepsAll | DrX/GameState.cs:232-240 | with nobody on the board every position is kept |
| Games.UnoccupiedIdempotent | DrX/GameState.cs:232-240 | removing the occupied positions twice removes nothing more |
| Games.DrXSteppedIsSafe | DrX/GameState.cs:100-108 | when DrX has somewhere to go, the move lands on a vertex next to the old one that no real player stands on, and the real players stay |
| Games.GameState.constructor | DrX/GameState.cs:29-37 | a new game has DrX, hidden, with ID 0, as its only player, round 0, not ended |
| Games.GameState.PlayerCount | DrX/GameState.cs:17-20 | at least one player, DrX |
| Games.GameState.AddPlayer | DrX/GameState.cs:55-60 | a copy of the player joins with ID equal to the number of players before |
| Games.GameState.AddPlayerAt | DrX/GameState.cs:44-49 | the player joins on the vertex with the ID; an unknown ID dereferences null |
| Games.GameState.GetPlayer | DrX/GameState.cs:67-70 | the player with the ID, or an index error |
| Games.GameState.SetPlayerActive | DrX/GameState.cs:77-80 | only that player's flag changes, or an index error |
| Games.GameState.GetRealPlayerPositions | DrX/GameState.cs:209-217 | the real players' positions; a vertex is occupied exactly when some real player stands on it |
| Games.GameState.GetAllPlayerPositions | DrX/GameState.cs:200-205 | the real players' positions, then DrX's |
| Games.GameState.RemoveRealPlayerPositions | DrX/GameState.cs:232-240 | exactly the given positions no real player stands on, in order |
| Games.GameState.GetFreeVertices | DrX/GameState.cs:221-226 | the vertices no real player stands on, in map-file order |
| Games.GameState.PlaceDrX | DrX/GameState.cs:85-89 | DrX goes to some free vertex, and only DrX moves; with none free an index error |
| Games.GameState.MoveDrX | DrX/GameState.cs:94-109 | in round VertexCount/4 the game ends with DrX winning; before that DrX steps to some free neighbour, or stays when there is none |
| Games.GameState.StepDrX | DrX/GameState.cs:104-106 | DrX moves to one of the free neighbours, and stays when there is none |
| Games.GameState.MovePlayerTo | DrX/GameState.cs:116-139 | an unknown vertex is an argument error; DrX may not move onto a real player; a real player landing on DrX ends the game with the players winning and still moves; an ended game stays ended |
| Games.GameState.NextRound | DrX/GameState.cs:144-147 | the round count grows by exactly one and nothing else changes |
| Games.GameState.GetPossibleNextStepIDs | DrX/GameState.cs:154-165 | the IDs of the player's neighbours in map-file order, each a neighbour of the position; an index error for an unknown player |
| Games.GameState.GetVertexIDs | DrX/GameState.cs:169-178 | the IDs of all vertices, one per vertex |
| Games.GameState.ChangeDrXVisibility | DrX/GameState.cs:184-187 | afterwards DrX is visible exactly when asked, and nothing else changes |
| Games.GameState.GetDrXVisibility | DrX/GameState.cs:193-196 | whether DrX is visible |
| Text.JoinLength | DrX/Graphics/Buffers/ScreenBuffer.cs:87-102 | joined lines are their total length plus one separator per gap |
| Text.SplitJoin | DrX/Graphics/Buffers/LineBuffer.cs:140-152 | cutting joined lines at '\n' gives the lines back when no line holds '\n' |
| Text.SplitCounts | DrX/Graphics/Buffers/LineBuffer.cs:140-152 | cutting at '\n' gives one piece more than there are '\n' characters, none holding one |
| LineBuffers.EscapeCode | DrX/Graphics/Buffers/LineBuffer.cs:170-177 | every colour has a two-character code |
| LineBuffers.EscapeCodeRoundTrip | DrX/Graphics/Buffers/LineBuffer.cs:170-177 | every colour's code parses back to it; a code that is not a number in 0..15 gives White |
| LineBuffers.EscapeCodeLenient | DrX/Graphics/Buffers/LineBuffer.cs:170-177 | for example, " 7" and "7\0" are read as 7, as `int.TryParse` reads them |
| LineBuffers.EscapeCodeSigned | DrX/Graphics/Buffers/LineBuffer.cs:170-177 | for example, "+7" is read as 7 and "-0" as Black |
| LineBuffers.EscapeCodeFallback | DrX/Graphics/Buffers/LineBuffer.cs:170-177 | for example, "-5", "16" and "ab" give White |
| LineBuffers.AppendToLast | DrX/Graphics/Buffers/LineBuffer.cs:146-150 | characters go onto the end of the last line and the other lines stay |
| LineBuffers.RunPlain | DrX/Graphics/Buffers/LineBuffer.cs:146-150 | ordinary characters go, in order, onto the last line in the colours on top of the stacks |
| LineBuffers.ColoredSpan | DrX/Graphics/Buffers/LineBuffer.cs:114-139 | text bracketed by a colour push and its pop is drawn in the pushed colour and leaves the stacks as they were |
| LineBuffers.RunVisible | DrX/Graphics/Buffers/LineBuffer.cs:99-163 | from any state, a successful run over any markup adds one line per '\n' outside the markers, and the text of the lines continues with exactly the characters outside the markers, in order |
| LineBuffers.RunNoNewLine | DrX/Graphics/Buffers/LineBuffer.cs:140-150 | a '\n' only starts a new line: no line ever holds one |
| LineBuffers.ParseVisible | DrX/Graphics/Buffers/LineBuffer.cs:51-64 | a successful parse of any markup gives one line more than the '\n' characters outside markers, and joining the lines' characters gives back the text with every marker and its three characters removed; the lines are that text cut at each '\n' |
| LineBuffers.ParsePlainText | DrX/Graphics/Buffers/LineBuffer.cs:99-163 | text without markup parses to its '\n'-separated pieces, white on black, one line more than there are '\n' characters |
| LineBuffers.LineRowsIsCeiling | DrX/Graphics/Buffers/LineBuffer.cs:85-93 | a non-empty line needs the rounded-up quotient of its length by the width; an empty line needs one row, or none at width one |
| LineBuffers.EmptyLineAtWidthOne | DrX/Graphics/Buffers/LineBuffer.cs:90 | as written, an empty line on a one-column screen needs no row |
| LineBuffers.LineRowsAtLeastOne | DrX/Graphics/Buffers/LineBuffer.cs:90 | with the intended rounding a line needs at least one row, and a non-empty line its rounded-up quotient |
| LineBuffers.LineBuffer.Cols | DrX/Graphics/Buffers/LineBuffer.cs:24-27 | the line's length, or an index error |
| LineBuffers.LineBuffer.constructor | DrX/Graphics/Buffers/LineBuffer.cs:29-36 | n lines, each one empty cell long |
| LineBuffers.LineBuffer.Copy | DrX/Graphics/Buffers/LineBuffer.cs:38-49 | every line with its length and entries |
| LineBuffers.LineBuffer.FromColoredString | DrX/Graphics/Buffers/LineBuffer.cs:65-68 | the parsed markup, or the parser's exception |
| LineBuffers.LineBuffer.ParseColoredStr | DrX/Graphics/Buffers/LineBuffer.cs:99-163 | the loop with its two colour stacks gives the parse; on success there is one line more than the '\n' characters outside markers, and the lines are the visible text cut at each '\n' |
| LineBuffers.LineBuffer.SetLine | DrX/Graphics/Buffers/LineBuffer.cs:75-78 | only that line changes, or an index error |
| LineBuffers.LineBuffer.RequiredRowsAtDimension | DrX/Graphics/Buffers/LineBuffer.cs:85-93 | the sum of the rows each line needs, as written; a zero width divides by zero |
| LineBuffers.Present | DrX/Graphics/Buffers/LineBuffer.cs:152-162 | the parsed lines as the jagged array holds them, every cell present |
| ScreenBuffers.ScreenBuffer.RowText | DrX/Graphics/Buffers/ScreenBuffer.cs:108-123 | a row's characters, one per column |
| ScreenBuffers.ScreenBuffer.constructor | DrX/Graphics/Buffers/ScreenBuffer.cs:23-27 | Rows x Cols spaces, white on black |
| ScreenBuffers.ScreenBuffer.Copy | DrX/Graphics/Buffers/ScreenBuffer.cs:29-42 | a cell-by-cell copy in a fresh matrix |
| ScreenBuffers.ScreenBuffer.Get | DrX/Graphics/Buffers/ScreenBuffer.cs:13-17 | the cell, or an index error |
| ScreenBuffers.ScreenBuffer.Set | DrX/Graphics/Buffers/ScreenBuffer.cs:13-17 | exactly one cell changes, or an index error |
| ScreenBuffers.ScreenBuffer.Fill | DrX/Graphics/Buffers/ScreenBuffer.cs:50-61 | every cell becomes exactly the character in the colours |
| ScreenBuffers.ScreenBuffer.IsColored | DrX/Graphics/Buffers/ScreenBuffer.cs:67-81 | true exactly when some cell is not white on black |
| ScreenBuffers.ScreenBuffer.GetAsString | DrX/Graphics/Buffers/ScreenBuffer.cs:87-102 | the rows joined by '\n', none after the last |
| ScreenBuffers.ScreenBuffer.GetAsLines | DrX/Graphics/Buffers/ScreenBuffer.cs:108-123 | a fresh array whose line i is row i's characters |
| ScreenBuffers.ScreenBuffer.Equals | DrX/Graphics/Buffers/ScreenBuffer.cs:125-145 | true exactly when the other buffer has the same size and every cell matches in character and colours |
| ScreenBuffers.RenderedText | DrX/Graphics/Buffers/ScreenBuffer.cs:87-102 | the text of a buffer with rows is Rows * Cols + Rows - 1 long and cuts back into its rows |
| Blocks.Block.constructor | DrX/Graphics/Buffers/Block.cs:26-32 | a block of the size, all spaces, in the colours |
| Blocks.Block.Copy | DrX/Graphics/Buffers/Block.cs:34-48 | the same size, colours and characters in a fresh matrix |
| Blocks.Block.Fill | DrX/Graphics/Buffers/Block.cs:50-61 | every character becomes c and the colours stay |
| Blocks.Block.Get | DrX/Graphics/Buffers/Block.cs:16-24 | the character, or an index error |
| Blocks.Block.Set | DrX/Graphics/Buffers/Block.cs:16-24 | exactly one character changes, or an index error |
| BlockBuffers.BlockBuffer.constructor | DrX/Graphics/Buffers/BlockBuffer.cs:17-29 | Rows x Cols separate fresh blocks of the block size, blank, white on black |
| BlockBuffers.BlockBuffer.Copy | DrX/Graphics/Buffers/BlockBuffer.cs:31-43 | the same sizes and a fresh copy of every block, no two blocks the same object |
| BlockBuffers.CopyRow | DrX/Graphics/Buffers/BlockBuffer.cs:38-41 | one row of the matrix gets a fresh copy of each source block, no two the same object, and the other rows stay |

## Left out

- Terminal I/O, the interactive game loop, start-up and the UI texts (`CLIGFX.cs`, `Game.cs`,
  `Program.cs`, `Texts.cs`) are not part of this model.
- The random choices of `PlaceDrX` and `MoveDrX` are modelled as a nondeterministic choice among
  the candidates, not as a random number generator.
- 32-bit overflow is not modelled. The integers are unbounded. This covers the perimeter
  `(Cols + Rows) * 2`, `RoundCount++`, the Dijkstra cost sums and `xSum`. Dijkstra's "infinity" is
  the constant `int.MaxValue`.
- Graphs.Graph.FromMapLines: requires at most `int.MaxValue` map lines and no vertex listing itself
  as a neighbour. With a self-loop, routing unlinks the same list node twice, which corrupts the
  list's length. The model excludes that case instead of reproducing the corruption.
- Graphs.Graph.constructor: the vertex-count property is stated only when every ID differs from
  '\0', because a '\0' ID makes an Empty cell.
- Graphs.Graph.GenerateGraphLayout: split into `PlaceVertices` and `DrawRoutes`. Its contract
  states that every vertex is placed and every edge joined. It does not state which routes are
  found. That part is stated by `GenerateMapPaths` and its helpers.
- Graphs.Graph.GenerateMapPaths: success is reported only after a sweep that finds nothing
  missing, so one extra sweep runs after the last route is drawn. The model keeps that sweep.
- The negative-`verticalOffset` branches of `AddMissedVertices` are not modelled. The offset is
  the constant 2, so those branches are dead.
- Reference aliasing is not modelled. `GetListOfVerticesByRef` returns live cells that routing
  changes. The model returns their coordinates, which stay valid because routing never grows
  the map.
- The graph's vertex lists, the Dijkstra tables and the routes are `seq` values, not
  `LinkedList` objects. The `LinkedList` class itself is modelled separately with its nodes.
- `GameState` keeps its players as a value sequence, and a `Player` is a value. The source's
  copies on the way in and out are therefore implicit.
- The shared static sprite arrays are not modelled as shared objects. Each use gets a fresh copy,
  as `VertexToSprite` makes one.
- LinkedLists.LinkedList.GetNodeAt: requires a non-negative index. The source does not reject a
  negative one (LinkedList.cs:274-285): it passes `index < Length`, and since C# rounds `-1 / 2`
  to 0 the forward search runs no steps, so the first node comes back (null on an empty list).
  The model leaves negative indices out.
- LinkedLists.LinkedList.Get: requires a non-negative index; in the source `Get(-1)` returns the
  first element of a non-empty list, by the same path.
- LinkedLists.LinkedList.SetAt: requires a non-negative index; in the source `SetAt(-1, x)`
  overwrites the first element of a non-empty list.
- LinkedLists.LinkedList.RemoveAt: requires a non-negative index; in the source `RemoveAt(-1)`
  removes the first element of a non-empty list (LinkedList.cs:231-237).
- ArrayLists.List.AddAt: requires a non-negative index. In the source `AddAt(x, -1)` passes the
  check at List.cs:55, grows the array by one slot at the end (List.cs:249, where -1 means the
  end), then throws at `internalArray[-1]`, leaving the list one default element longer.
- ArrayLists.List.RemoveAt: requires a non-negative index. In the source `RemoveAt(-1)` passes
  the checks at List.cs:77 and List.cs:198, and `RemoveSpace` reads -1 as the end
  (List.cs:273), so the last element is removed.
- Routing.Dijkstra: proves the search sound (the table is linked, sorted and within the ceiling)
  and complete (a target left out has no route within the ceiling), but not that the route
  backtracked from a reached target is a cheapest one.
- `Map.AdjacentItemsOf` (Map.cs:211-234) is not modelled. Nothing in the layout calls it.
- Numerals.ParseInt32: the sign symbols are the invariant culture's '+' and '-'. .NET takes them from the current culture, and the culture is input this model does not have.
- Colours are the numbers 0..15 in `ConsoleColor` order. Box-drawing glyphs are plain characters.
- `GenerateBlockBuffer()` without arguments is `GenerateBlockBuffer` with an empty colour list.

## Findings

| source | as written | input that shows it | evidently intended | confidence | as-written member | corrected member |
|---|---|---|---|---|---|---|
| DrX/Graphics/Buffers/LineBuffer.cs:90 | `(Cols(i) - 1) / dimension.Cols + 1`, commented "Returns at least 1" | an empty line at width 1: (0 - 1) / 1 + 1 = 0 rows | every line needs at least one row | not executed; high for the arithmetic, medium for the intent | LineBuffers.EmptyLineAtWidthOne | LineBuffers.LineRowsAtLeastOne |
