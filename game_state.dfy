/** The state of one game (GameState.cs and Player.cs): the players, DrX first, the round
    counter and the end-of-game flags, over the vertices of a graph. Player records are values,
    so storing or handing out a player is a copy, as the C# copy constructor makes it. Vertices
    are compared by ID, as `Vertex.Equals` does. The random draws of the game become a
    nondeterministic choice among the candidates. */
module Games {
  import opened Common
  import opened Vertices
  import opened Graphs

  const Blue: Color := 9

  /** The ID of DrX, the hidden player. */
  const DrXID := 0

  datatype Player = Player(Name: string, Position: Vertex, Color: Color, ID: int, Hidden: bool, Active: bool)

  /** `new Player()`. */
  const DefaultPlayer := Player("NoName", DefaultVertex, Blue, 0, false, false)

  /** `new Player(name, color, ID)`: on the default vertex, visible and inactive. */
  function NewPlayer(name: string, color: Color, id: int): Player {
    Player(name, DefaultVertex, color, id, false, false)
  }

  /** The positions of every player but DrX, in ID order. */
  function RealPositions(players: seq<Player>): (r: seq<Vertex>)
    ensures |players| >= 1 ==> |r| == |players| - 1
    ensures forall i :: 1 <= i < |players| ==> r[i - 1] == players[i].Position
  {
    if |players| <= 1 then [] else seq(|players| - 1, i requires 0 <= i < |players| - 1 => players[i + 1].Position)
  }

  /** Some vertex of `taken` has the ID of v (`LinkedList.Contains`, with `Vertex.Equals`). */
  predicate Occupied(taken: seq<Vertex>, v: Vertex) {
    v.ID in IDs(taken)
  }

  /** `RemoveRealPlayerPositions`: the positions whose vertex nobody in `taken` occupies, in
      their order. */
  function Unoccupied(positions: seq<Vertex>, taken: seq<Vertex>): (r: seq<Vertex>)
    ensures |r| <= |positions|
  {
    if positions == [] then []
    else
      var last := positions[|positions| - 1];
      var rest := positions[..|positions| - 1];
      assert positions == rest + [last];
      Unoccupied(rest, taken) + (if Occupied(taken, last) then [] else [last])
  }

  /** A position is kept exactly when it is one of the positions and nobody in `taken`
      stands on its vertex. */
  lemma {:induction false} UnoccupiedMembers(positions: seq<Vertex>, taken: seq<Vertex>)
    ensures forall v :: v in Unoccupied(positions, taken) <==> v in positions && !Occupied(taken, v)
    decreases |positions|
  {
    if positions != [] {
      var rest := positions[..|positions| - 1];
      var last := positions[|positions| - 1];
      assert positions == rest + [last];
      UnoccupiedMembers(rest, taken);
    }
  }

  /** With nobody on the board, every position stays. */
  lemma {:induction false} NothingTakenKeepsAll(positions: seq<Vertex>)
    ensures Unoccupied(positions, []) == positions
    decreases |positions|
  {
    if positions != [] {
      NothingTakenKeepsAll(positions[..|positions| - 1]);
      assert positions[..|positions| - 1] + [positions[|positions| - 1]] == positions;
    }
  }

  /** Removing the occupied positions a second time removes nothing more. */
  lemma {:induction false} UnoccupiedIdempotent(positions: seq<Vertex>, taken: seq<Vertex>)
    ensures Unoccupied(Unoccupied(positions, taken), taken) == Unoccupied(positions, taken)
    decreases |positions|
  {
    if positions != [] {
      var rest := positions[..|positions| - 1];
      var last := positions[|positions| - 1];
      assert positions == rest + [last];
      UnoccupiedIdempotent(rest, taken);
      var r := Unoccupied(rest, taken);
      assert Unoccupied(r, taken) == r;
      if !Occupied(taken, last) {
        var s := r + [last];
        assert Unoccupied(positions, taken) == s;
        assert s[..|s| - 1] == r && s[|s| - 1] == last;
        assert Unoccupied(s, taken) == Unoccupied(r, taken) + [last];
      } else {
        assert Unoccupied(positions, taken) == r + [] == r;
      }
    }
  }

  /** One move of DrX in `MoveDrX`: only DrX's position may change, to one of the neighbours
      of its old vertex that no real player stands on; with no such neighbour it stays. */
  ghost predicate DrXStepped(before: seq<Player>, after: seq<Player>, vertices: seq<Vertex>)
    requires |before| >= 1
  {
    var candidates := Unoccupied(ConnectedVertices(vertices, before[DrXID].Position), RealPositions(before));
    |after| == |before| && after == before[DrXID := before[DrXID].(Position := after[DrXID].Position)] &&
    (candidates == [] ==> after == before) &&
    (candidates != [] ==> after[DrXID].Position in candidates)
  }

  /** When DrX has somewhere to go, its move lands on a vertex of the graph, next to where it
      stood, and never on a real player. */
  lemma DrXSteppedIsSafe(before: seq<Player>, after: seq<Player>, vertices: seq<Vertex>)
    requires |before| >= 1 && DrXStepped(before, after, vertices)
    requires Unoccupied(ConnectedVertices(vertices, before[DrXID].Position), RealPositions(before)) != []
    ensures |after| == |before| && RealPositions(after) == RealPositions(before)
    ensures after[DrXID].Position in vertices
    ensures after[DrXID].Position.ID in before[DrXID].Position.ConnectedVertexIDs
    ensures !Occupied(RealPositions(after), after[DrXID].Position)
  {
    var neighbours := ConnectedVertices(vertices, before[DrXID].Position);
    UnoccupiedMembers(neighbours, RealPositions(before));
    assert RealPositions(after) == RealPositions(before);
  }

  class GameState {
    var IsGameEnded: bool
    var IsDrXWin: bool
    const VertexCount: int
    var RoundCount: int
    /** The players; the index of each is its ID, and DrX is first. */
    var players: seq<Player>
    const gameMap: Graph

    /** The player IDs are their indices, player 0 is DrX, and DrX stands on the default
        vertex or on a vertex of the graph. */
    ghost predicate Valid()
      reads this
    {
      |players| >= 1 && players[DrXID].Name == "DrX" &&
      (forall i :: 0 <= i < |players| ==> players[i].ID == i) &&
      (players[DrXID].Position == DefaultVertex || players[DrXID].Position in gameMap.vertices) &&
      VertexCount == |gameMap.vertices|
    }

    /** DrX is shown on the map. */
    ghost function DrXVisible(): bool
      reads this
      requires Valid()
    {
      !players[DrXID].Hidden
    }

    /** `new GameState(gameMap)`: a game that has not started, with DrX, hidden, as its only
        player. */
    constructor (gameMap: Graph)
      ensures Valid() && this.gameMap == gameMap
      ensures players == [Player("DrX", DefaultVertex, Red, DrXID, true, false)]
      ensures !IsGameEnded && IsDrXWin && RoundCount == 0 && !DrXVisible()
    {
      this.gameMap := gameMap;
      VertexCount := |gameMap.vertices|;
      IsGameEnded := false;
      IsDrXWin := true;
      RoundCount := 0;
      players := [];
      new;
      var drX := NewPlayer("DrX", Red, 0);
      drX := drX.(Hidden := true);
      AddPlayer(drX);
    }

    function PlayerCount(): (n: int)
      reads this
      requires Valid()
      ensures n >= 1 && n == |players|
    {
      |players|
    }

    /** `AddPlayer(player)`: a copy of the player joins with the next free ID. */
    method AddPlayer(player: Player)
      requires |players| >= 1 ==> Valid()
      requires |players| == 0 ==> player.Name == "DrX" && player.Position == DefaultVertex && VertexCount == |gameMap.vertices|
      modifies this
      ensures Valid()
      ensures players == old(players) + [player.(ID := |old(players)|)]
      ensures IsGameEnded == old(IsGameEnded) && IsDrXWin == old(IsDrXWin) && RoundCount == old(RoundCount)
    {
      var newPlayer := player.(ID := |players|);
      players := players + [newPlayer];
    }

    /** `AddPlayer(player, startingPoint)`: the player joins on the vertex with that ID; with no
        such vertex, copying the missing position throws and nobody joins. */
    method AddPlayerAt(player: Player, startingPoint: char) returns (r: Outcome)
      requires Valid()
      modifies this
      ensures Valid()
      ensures FindVertexInList(gameMap.vertices, startingPoint).None? ==> r == Fail(NullReference) && players == old(players)
      ensures FindVertexInList(gameMap.vertices, startingPoint).Some? ==>
        r == Done &&
        players == old(players) + [player.(Position := FindVertexInList(gameMap.vertices, startingPoint).value, ID := |old(players)|)]
      ensures IsGameEnded == old(IsGameEnded) && IsDrXWin == old(IsDrXWin) && RoundCount == old(RoundCount)
    {
      var pos := gameMap.IDToVertex(startingPoint);
      if pos.None? {
        return Fail(NullReference);
      }
      AddPlayer(player.(Position := pos.value));
      return Done;
    }

    /** `GetPlayer(ID)`: a copy of the player with that ID. */
    method GetPlayer(id: int) returns (r: Result<Player>)
      requires Valid()
      ensures !(0 <= id < |players|) ==> r == Err(IndexOutOfRange)
      ensures 0 <= id < |players| ==> r.Ok? && r.value == players[id] && r.value.ID == id
    {
      if !(0 <= id < |players|) {
        return Err(IndexOutOfRange);
      }
      return Ok(players[id]);
    }

    /** `SetPlayerActive(ID, active)`. */
    method SetPlayerActive(id: int, active: bool) returns (r: Outcome)
      requires Valid()
      modifies this
      ensures Valid()
      ensures !(0 <= id < |old(players)|) ==> r == Fail(IndexOutOfRange) && players == old(players)
      ensures 0 <= id < |old(players)| ==> r == Done && players == old(players)[id := old(players)[id].(Active := active)]
      ensures IsGameEnded == old(IsGameEnded) && IsDrXWin == old(IsDrXWin) && RoundCount == old(RoundCount)
    {
      if !(0 <= id < |players|) {
        return Fail(IndexOutOfRange);
      }
      players := players[id := players[id].(Active := active)];
      return Done;
    }

    /** `GetRealPlayerPositions()`: where every player but DrX stands. */
    method GetRealPlayerPositions() returns (playerPositions: seq<Vertex>)
      requires Valid()
      ensures playerPositions == RealPositions(players)
      ensures forall v :: Occupied(playerPositions, v) <==> exists i :: 1 <= i < |players| && players[i].Position.ID == v.ID
    {
      playerPositions := [];
      var i := DrXID + 1;
      while i < |players|
        invariant 1 <= i <= |players|
        invariant |playerPositions| == i - 1
        invariant forall k :: 1 <= k < i ==> playerPositions[k - 1] == players[k].Position
      {
        playerPositions := playerPositions + [players[i].Position];
        i := i + 1;
      }
      forall v ensures Occupied(playerPositions, v) <==> exists i :: 1 <= i < |players| && players[i].Position.ID == v.ID {
        if Occupied(playerPositions, v) {
          var k :| 0 <= k < |playerPositions| && IDs(playerPositions)[k] == v.ID;
          assert players[k + 1].Position.ID == v.ID;
        }
        if exists i :: 1 <= i < |players| && players[i].Position.ID == v.ID {
          var i :| 1 <= i < |players| && players[i].Position.ID == v.ID;
          assert IDs(playerPositions)[i - 1] == v.ID;
        }
      }
    }

    /** `GetAllPlayerPositions()`: the real players' positions, then DrX's. */
    method GetAllPlayerPositions() returns (allPos: seq<Vertex>)
      requires Valid()
      ensures |allPos| == |players|
      ensures allPos == RealPositions(players) + [players[DrXID].Position]
    {
      allPos := GetRealPlayerPositions();
      allPos := allPos + [players[DrXID].Position];
    }

    /** `RemoveRealPlayerPositions(positions)`: the positions no real player stands on. */
    method RemoveRealPlayerPositions(positions: seq<Vertex>) returns (free: seq<Vertex>)
      requires Valid()
      ensures free == Unoccupied(positions, RealPositions(players))
      ensures forall v :: v in free <==> v in positions && forall i :: 1 <= i < |players| ==> players[i].Position.ID != v.ID
    {
      var playerPositions := GetRealPlayerPositions();
      free := [];
      var n := 0;
      while n < |positions|
        invariant 0 <= n <= |positions|
        invariant free == Unoccupied(positions[..n], playerPositions)
      {
        assert positions[..n + 1][..n] == positions[..n];
        if !Occupied(playerPositions, positions[n]) {
          free := free + [positions[n]];
        }
        n := n + 1;
      }
      assert positions[..n] == positions;
      UnoccupiedMembers(positions, playerPositions);
    }

    /** `GetFreeVertices()`: the vertices no real player stands on, in map-file order. */
    method GetFreeVertices() returns (freeVertices: seq<Vertex>)
      requires Valid()
      ensures freeVertices == Unoccupied(gameMap.vertices, RealPositions(players))
    {
      freeVertices := gameMap.GetListOfVertices();
      freeVertices := RemoveRealPlayerPositions(freeVertices);
    }

    /** `PlaceDrX()`: DrX goes to some vertex no real player stands on; with none free, the
        index 0 of the empty list is out of range. */
    method PlaceDrX() returns (r: Outcome)
      requires Valid()
      modifies this
      ensures Valid()
      ensures Unoccupied(gameMap.vertices, RealPositions(old(players))) == [] ==> r == Fail(IndexOutOfRange) && players == old(players)
      ensures Unoccupied(gameMap.vertices, RealPositions(old(players))) != [] ==>
        r == Done &&
        players == old(players)[DrXID := old(players)[DrXID].(Position := players[DrXID].Position)] &&
        players[DrXID].Position in gameMap.vertices && !Occupied(RealPositions(players), players[DrXID].Position)
      ensures IsGameEnded == old(IsGameEnded) && IsDrXWin == old(IsDrXWin) && RoundCount == old(RoundCount)
    {
      var freePos := GetFreeVertices();
      UnoccupiedMembers(gameMap.vertices, RealPositions(players));
      if |freePos| == 0 {
        return Fail(IndexOutOfRange);
      }
      var k :| 0 <= k < |freePos|;
      assert freePos[k] in freePos;
      var before := players;
      players := players[DrXID := players[DrXID].(Position := freePos[k])];
      assert RealPositions(players) == RealPositions(before);
      return Done;
    }

    /** `MoveDrX()`: in round VertexCount/4 the game ends and DrX wins; before that DrX steps to
        some neighbour no real player stands on, and stays when there is none. */
    method MoveDrX()
      requires Valid()
      modifies this
      ensures Valid() && RoundCount == old(RoundCount)
      ensures old(RoundCount) == VertexCount / 4 ==> IsGameEnded && IsDrXWin && players == old(players)
      ensures old(RoundCount) != VertexCount / 4 ==>
        IsGameEnded == old(IsGameEnded) && IsDrXWin == old(IsDrXWin) &&
        DrXStepped(old(players), players, gameMap.vertices)
    {
      if RoundCount == VertexCount / 4 {
        IsGameEnded := true;
        IsDrXWin := true;
      } else {
        var freePos := gameMap.GetConnectedVertices(players[DrXID].Position);
        freePos := RemoveRealPlayerPositions(freePos);
        StepDrX(freePos);
      }
    }

    /** DrX steps to one of the free neighbours, and stays when there is none. */
    method StepDrX(freePos: seq<Vertex>)
      requires Valid()
      requires freePos == Unoccupied(ConnectedVertices(gameMap.vertices, players[DrXID].Position), RealPositions(players))
      modifies this
      ensures Valid() && RoundCount == old(RoundCount)
      ensures IsGameEnded == old(IsGameEnded) && IsDrXWin == old(IsDrXWin)
      ensures DrXStepped(old(players), players, gameMap.vertices)
    {
      if |freePos| > 0 {
        var k :| 0 <= k < |freePos|;
        ghost var before := players;
        players := players[DrXID := players[DrXID].(Position := freePos[k])];
        assert DrXStepped(before, players, gameMap.vertices);
        DrXSteppedIsSafe(before, players, gameMap.vertices);
      }
    }

    /** `MovePlayerTo(playerID, positionID)`. An ID that names no vertex is an argument error.
        DrX may not step where a real player stands. A real player stepping onto DrX's vertex
        ends the game, DrX losing, and still moves there. */
    method MovePlayerTo(playerID: int, positionID: char) returns (r: Outcome)
      requires Valid()
      modifies this
      ensures Valid() && RoundCount == old(RoundCount) && |players| == |old(players)|
      ensures old(IsGameEnded) ==> IsGameEnded
      ensures FindVertexInList(gameMap.vertices, positionID).None? ==>
        r == Fail(Argument) && players == old(players) && IsGameEnded == old(IsGameEnded) && IsDrXWin == old(IsDrXWin)
      ensures FindVertexInList(gameMap.vertices, positionID).Some? && playerID == DrXID ==>
        var pos := FindVertexInList(gameMap.vertices, positionID).value;
        IsGameEnded == old(IsGameEnded) && IsDrXWin == old(IsDrXWin) &&
        (Occupied(RealPositions(old(players)), pos) ==> r == Fail(Argument) && players == old(players)) &&
        (!Occupied(RealPositions(old(players)), pos) ==> r == Done && players == old(players)[DrXID := old(players)[DrXID].(Position := pos)])
      ensures FindVertexInList(gameMap.vertices, positionID).Some? && playerID != DrXID ==>
        var pos := FindVertexInList(gameMap.vertices, positionID).value;
        (old(players)[DrXID].Position.ID == pos.ID ==> IsGameEnded && !IsDrXWin) &&
        (old(players)[DrXID].Position.ID != pos.ID ==> IsGameEnded == old(IsGameEnded) && IsDrXWin == old(IsDrXWin)) &&
        (!(0 <= playerID < |old(players)|) ==> r == Fail(IndexOutOfRange) && players == old(players)) &&
        (0 <= playerID < |old(players)| ==> r == Done && players == old(players)[playerID := old(players)[playerID].(Position := pos)])
    {
      var pos := gameMap.IDToVertex(positionID);
      if pos.None? {
        return Fail(Argument);
      }
      if playerID == DrXID {
        var taken := GetRealPlayerPositions();
        if Occupied(taken, pos.value) {
          return Fail(Argument);
        }
        players := players[DrXID := players[DrXID].(Position := pos.value)];
      } else {
        if players[DrXID].Position.ID == pos.value.ID {
          IsGameEnded := true;
          IsDrXWin := false;
        }
        if !(0 <= playerID < |players|) {
          return Fail(IndexOutOfRange);
        }
        players := players[playerID := players[playerID].(Position := pos.value)];
      }
      return Done;
    }

    /** `NextRound()`. */
    method NextRound()
      requires Valid()
      modifies this
      ensures Valid() && RoundCount == old(RoundCount) + 1 && players == old(players)
      ensures IsGameEnded == old(IsGameEnded) && IsDrXWin == old(IsDrXWin)
    {
      RoundCount := RoundCount + 1;
    }

    /** `GetPossibleNextStepIDs(playerID)`: the IDs of the player's neighbours, in map-file
        order. */
    method GetPossibleNextStepIDs(playerID: int) returns (r: Result<seq<char>>)
      requires Valid()
      ensures !(0 <= playerID < |players|) ==> r == Err(IndexOutOfRange)
      ensures 0 <= playerID < |players| ==> r.Ok? && r.value == IDs(ConnectedVertices(gameMap.vertices, players[playerID].Position))
      ensures r.Ok? ==> forall c :: c in r.value ==> c in players[playerID].Position.ConnectedVertexIDs && c in IDs(gameMap.vertices)
    {
      if !(0 <= playerID < |players|) {
        return Err(IndexOutOfRange);
      }
      var possibleSteps := gameMap.GetConnectedVertices(players[playerID].Position);
      var stepIDs: seq<char> := [];
      var i := 0;
      while i < |possibleSteps|
        invariant 0 <= i <= |possibleSteps| && stepIDs == IDs(possibleSteps[..i])
      {
        assert possibleSteps[..i + 1] == possibleSteps[..i] + [possibleSteps[i]];
        stepIDs := stepIDs + [possibleSteps[i].ID];
        i := i + 1;
      }
      assert possibleSteps[..i] == possibleSteps;
      forall c | c in stepIDs ensures c in players[playerID].Position.ConnectedVertexIDs && c in IDs(gameMap.vertices) {
        var k :| 0 <= k < |stepIDs| && stepIDs[k] == c;
        assert possibleSteps[k] in possibleSteps;
        var j :| 0 <= j < |gameMap.vertices| && gameMap.vertices[j] == possibleSteps[k];
        assert IDs(gameMap.vertices)[j] == c;
      }
      return Ok(stepIDs);
    }

    /** `GetVertexIDs()`: the IDs of all vertices, in map-file order. */
    method GetVertexIDs() returns (ret: seq<char>)
      requires Valid()
      ensures |ret| == VertexCount && ret == IDs(gameMap.vertices)
    {
      var vertices := gameMap.GetListOfVertices();
      ret := [];
      var i := 0;
      while i < |vertices|
        invariant 0 <= i <= |vertices| && ret == IDs(vertices[..i])
      {
        assert vertices[..i + 1] == vertices[..i] + [vertices[i]];
        ret := ret + [vertices[i].ID];
        i := i + 1;
      }
      assert vertices[..i] == vertices;
    }

    /** `ChangeDrXVisibility(visible)`: afterwards DrX is visible exactly when asked. */
    method ChangeDrXVisibility(visible: bool)
      requires Valid()
      modifies this
      ensures Valid() && DrXVisible() == visible
      ensures players == old(players)[DrXID := old(players)[DrXID].(Hidden := !visible)]
      ensures IsGameEnded == old(IsGameEnded) && IsDrXWin == old(IsDrXWin) && RoundCount == old(RoundCount)
    {
      players := players[DrXID := players[DrXID].(Hidden := !visible)];
    }

    /** `GetDrXVisibility()`. */
    method GetDrXVisibility() returns (visible: bool)
      requires Valid()
      ensures visible == DrXVisible() && visible == !players[DrXID].Hidden
    {
      visible := !players[DrXID].Hidden;
    }
  }
}
