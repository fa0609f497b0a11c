/**
 * Game rules over a board: adjacency, connectivity of a player's
 * territory to its base, legal-move generation, and the neutral-placement
 * and aliveness queries.
 */
module Rules {
  import opened Cells
  import opened Boards
  import opened Players
  import opened Territory

  datatype MoveType = MoveGrow | MoveAttack

  /** A move claims position, expanding from fromCell. */
  datatype Move = Move(position: Position, moveType: MoveType, fromCell: Position)

  /** 8-directional adjacency: the two positions are exactly one king move apart. */
  predicate IsAdjacent(pos1: Position, pos2: Position)
    ensures IsAdjacent(pos1, pos2) <==> Chebyshev(pos1, pos2) == 1
  {
    var dr := Abs(pos1.row - pos2.row);
    var dc := Abs(pos1.col - pos2.col);
    dr <= 1 && dc <= 1 && (dr != 0 || dc != 0)
  }

  lemma AdjacentSymmetricIrreflexive(pos1: Position, pos2: Position)
    ensures IsAdjacent(pos1, pos2) <==> IsAdjacent(pos2, pos1)
    ensures !IsAdjacent(pos1, pos1)
  {
  }

  /** The cells the player owns, as a set. */
  function Owned(b: Board, playerID: int): (s: set<Position>)
    requires b.Valid()
    reads b.cells
    ensures forall p :: p in s <==> b.IsOwnedBy(p, playerID)
    ensures OnGrid(b.size, s)
  {
    set p | p in Grid(b.size) && b.IsOwnedBy(p, playerID)
  }

  // ---------------------------------------------------------------------
  // Connectivity

  /** The answer of IsConnectedToBase: false without a base entry, otherwise the search from the base. */
  function ConnectedToBase(b: Board, playerID: int, pos: Position): bool
    requires b.Valid()
    reads b, b.cells
  {
    if playerID !in b.basePos then false
    else
      var base := b.basePos[playerID];
      ConnLoop(b.size, Owned(b, playerID), base, pos, [base], {})
  }

  /**
   * IsConnectedToBase holds exactly when there is a base entry and pos is
   * linked to the base through owned cells; so it holds of the base
   * position itself, owned or not, and of no other cell the player does
   * not own.
   */
  lemma ConnectedToBaseMeaning(b: Board, playerID: int, pos: Position)
    requires b.Valid()
    ensures ConnectedToBase(b, playerID, pos) <==>
      playerID in b.basePos && Linked(Owned(b, playerID), b.basePos[playerID], pos)
    ensures playerID in b.basePos ==> ConnectedToBase(b, playerID, b.basePos[playerID])
    ensures ConnectedToBase(b, playerID, pos) && pos != b.basePos[playerID] ==> b.IsOwnedBy(pos, playerID)
  {
    if playerID in b.basePos {
      var base, owned := b.basePos[playerID], Owned(b, playerID);
      ConnLoopMeaning(b.size, owned, base, pos);
      ConnLoopMeaning(b.size, owned, base, base);
      LinkedRefl(owned, base);
      if Linked(owned, base, pos) && pos != base {
        LinkedIsOwned(owned, base, pos);
      }
    }
  }

  method IsConnectedToBase(b: Board, playerID: int, pos: Position) returns (connected: bool)
    requires b.Valid()
    ensures connected == ConnectedToBase(b, playerID, pos)
  {
    if playerID !in b.basePos {
      return false;
    }
    var basePos := b.basePos[playerID];
    ghost var owned := Owned(b, playerID);
    var visited: set<Position> := {};
    var queue := [basePos];
    while queue != []
      invariant QueueOk(b.size, basePos, queue)
      invariant ConnLoop(b.size, owned, basePos, pos, queue, visited) == ConnectedToBase(b, playerID, pos)
      decreases |Universe(b.size, basePos) - visited|, CountIn(queue, visited)
    {
      StepFacts(b.size, owned, basePos, queue, visited);
      var current := queue[0];
      if current.row == pos.row && current.col == pos.col {
        return true;
      }
      ConnLoopStep(b.size, owned, basePos, pos, queue, visited);
      queue := queue[1..];
      visited := visited + {current};
      var neighbors := b.GetNeighbors(current);
      queue := EnqueueOwned(b, playerID, neighbors, visited, queue);
    }
    return false;
  }

  /** The neighbour scan shared by both searches: appends, in order, each neighbour that is not visited and is owned. */
  method EnqueueOwned(b: Board, playerID: int, neighbors: seq<Position>, visited: set<Position>,
                      queue: seq<Position>) returns (result: seq<Position>)
    requires b.Valid()
    ensures result == queue + Unvisited(neighbors, visited, Owned(b, playerID))
  {
    ghost var owned := Owned(b, playerID);
    result := queue;
    for k := 0 to |neighbors|
      invariant result == queue + Unvisited(neighbors[..k], visited, owned)
    {
      var neighbor := neighbors[k];
      assert neighbors[..k + 1] == neighbors[..k] + [neighbor];
      UnvisitedSnoc(neighbors[..k], neighbor, visited, owned);
      if neighbor !in visited && b.IsOwnedBy(neighbor, playerID) {
        result := result + [neighbor];
      }
    }
    assert neighbors[..|neighbors|] == neighbors;
  }

  /** Where GetReachableCells starts: the base while the player still owns it, else its first cell in row-major order. */
  function ReachStart(b: Board, playerID: int): (start: Position)
    requires b.Valid()
    requires playerID in b.basePos
    requires b.IsOwnedBy(b.basePos[playerID], playerID) || b.PlayerCells(playerID) != []
    reads b, b.cells
    ensures b.IsValid(start) && Cells.Player(b.GetCell(start)) == playerID
  {
    var base := b.basePos[playerID];
    if b.IsOwnedBy(base, playerID) then base else b.PlayerCells(playerID)[0]
  }

  /** The answer of GetReachableCells. */
  function ReachableCells(b: Board, playerID: int): seq<Position>
    requires b.Valid()
    reads b, b.cells
  {
    if playerID !in b.basePos then []
    else if !b.IsOwnedBy(b.basePos[playerID], playerID) && b.PlayerCells(playerID) == [] then []
    else
      var start := ReachStart(b, playerID);
      ReachLoop(b.size, Owned(b, playerID), start, [start], {}, [])
  }

  /**
   * GetReachableCells is empty without a base entry, or when the base is
   * lost and the player has no cell left.  Otherwise it starts with
   * ReachStart, lists no cell twice, and lists exactly the cells linked to
   * the start through owned cells; every listed cell is on the grid and
   * carries the player's id.
   */
  lemma ReachableCellsMeaning(b: Board, playerID: int)
    requires b.Valid()
    ensures playerID !in b.basePos ==> ReachableCells(b, playerID) == []
    ensures playerID in b.basePos && !b.IsOwnedBy(b.basePos[playerID], playerID) && b.PlayerCells(playerID) == []
      ==> ReachableCells(b, playerID) == []
    ensures playerID in b.basePos && (b.IsOwnedBy(b.basePos[playerID], playerID) || b.PlayerCells(playerID) != []) ==>
      var r, start := ReachableCells(b, playerID), ReachStart(b, playerID);
      && r != [] && r[0] == start && Distinct(r)
      && (forall q :: q in r <==> Linked(Owned(b, playerID), start, q))
      && (forall q :: q in r ==> b.IsValid(q) && Cells.Player(b.GetCell(q)) == playerID)
  {
    if playerID in b.basePos && (b.IsOwnedBy(b.basePos[playerID], playerID) || b.PlayerCells(playerID) != []) {
      var start, owned := ReachStart(b, playerID), Owned(b, playerID);
      ReachLoopMeaning(b.size, owned, start);
      var r := ReachableCells(b, playerID);
      forall q | q in r
        ensures b.IsValid(q) && Cells.Player(b.GetCell(q)) == playerID
      {
        if q != start {
          LinkedIsOwned(owned, start, q);
        }
      }
    }
  }

  method GetReachableCells(b: Board, playerID: int) returns (reachable: seq<Position>)
    requires b.Valid()
    ensures reachable == ReachableCells(b, playerID)
  {
    if playerID !in b.basePos {
      return [];
    }
    var basePos := b.basePos[playerID];
    if !b.IsOwnedBy(basePos, playerID) {
      var playerCells := b.GetPlayerCells(playerID);
      if |playerCells| == 0 {
        return [];
      }
      basePos := playerCells[0];
    }
    assert basePos == ReachStart(b, playerID);
    reachable := ReachFrom(b, playerID, basePos);
  }

  /** The breadth-first search of GetReachableCells from a given start cell. */
  method ReachFrom(b: Board, playerID: int, start: Position) returns (reachable: seq<Position>)
    requires b.Valid()
    ensures reachable == ReachLoop(b.size, Owned(b, playerID), start, [start], {}, [])
  {
    ghost var owned := Owned(b, playerID);
    ghost var answer := ReachLoop(b.size, owned, start, [start], {}, []);
    reachable := [];
    var visited: set<Position> := {};
    var queue := [start];
    while queue != []
      invariant QueueOk(b.size, start, queue)
      invariant ReachLoop(b.size, owned, start, queue, visited, reachable) == answer
      decreases |Universe(b.size, start) - visited|, |queue|
    {
      StepFacts(b.size, owned, start, queue, visited);
      ReachLoopStep(b.size, owned, start, queue, visited, reachable);
      var current := queue[0];
      queue := queue[1..];
      if current in visited {
        continue;
      }
      visited := visited + {current};
      reachable := reachable + [current];
      var neighbors := b.GetNeighbors(current);
      queue := EnqueueOwned(b, playerID, neighbors, visited, queue);
    }
  }

  /** While the base is owned, the two searches agree: a cell is reachable exactly when it is connected to the base. */
  lemma ReachableIffConnected(b: Board, playerID: int, pos: Position)
    requires b.Valid()
    requires playerID in b.basePos && b.IsOwnedBy(b.basePos[playerID], playerID)
    ensures pos in ReachableCells(b, playerID) <==> ConnectedToBase(b, playerID, pos)
  {
    ReachableCellsMeaning(b, playerID);
    ConnectedToBaseMeaning(b, playerID, pos);
  }

  /**
   * After the base is lost the two searches disagree on the base position:
   * IsConnectedToBase still accepts it, but it is not reachable (for an id
   * other than 0 and 5, whose cells are exactly the cells it owns).
   */
  lemma LostBaseDisagreement(b: Board, playerID: int)
    requires b.Valid()
    requires playerID in b.basePos && !b.IsOwnedBy(b.basePos[playerID], playerID)
    requires playerID != 0 && playerID != CellNeutral
    ensures ConnectedToBase(b, playerID, b.basePos[playerID])
    ensures b.basePos[playerID] !in ReachableCells(b, playerID)
  {
    var base := b.basePos[playerID];
    ConnectedToBaseMeaning(b, playerID, base);
    ReachableCellsMeaning(b, playerID);
    forall q | q in ReachableCells(b, playerID)
      ensures b.IsOwnedBy(q, playerID)
    {
      CarriesIdIsOwned(b, playerID, q);
    }
  }

  /** For an id other than 0 and 5, a grid cell carrying the id is owned by it. */
  lemma CarriesIdIsOwned(b: Board, playerID: int, p: Position)
    requires b.Valid() && b.IsValid(p) && Cells.Player(b.GetCell(p)) == playerID
    requires playerID != 0 && playerID != CellNeutral
    ensures b.IsOwnedBy(p, playerID)
  {
    assert Cells.Player(CellEmpty) == 0 && Cells.Player(CellNeutral) == 5;
  }

  // ---------------------------------------------------------------------
  // Move legality and generation

  /** The claim a move makes is possible: a grow needs an empty cell, an attack an attackable enemy cell. */
  predicate Claimable(b: Board, playerID: int, m: Move)
    requires b.Valid()
    reads b.cells
  {
    match m.moveType
    case MoveGrow => b.IsEmpty(m.position)
    case MoveAttack => b.IsOpponent(m.position, playerID)
  }

  /**
   * The legality check of a single move: a move is legal exactly when its
   * target is on the grid, one king move from a source linked to the
   * player's base through owned cells, and empty (grow) or an attackable
   * enemy cell (attack).
   */
  function ValidMove(b: Board, playerID: int, move: Move): (r: bool)
    requires b.Valid()
    reads b, b.cells
    ensures r <==>
      && b.IsValid(move.position)
      && playerID in b.basePos && Linked(Owned(b, playerID), b.basePos[playerID], move.fromCell)
      && Chebyshev(move.fromCell, move.position) == 1
      && Claimable(b, playerID, move)
  {
    ConnectedToBaseMeaning(b, playerID, move.fromCell);
    if !b.IsValid(move.position) then false
    else if !ConnectedToBase(b, playerID, move.fromCell) then false
    else
      match move.moveType
      case MoveGrow => b.IsEmpty(move.position) && IsAdjacent(move.fromCell, move.position)
      case MoveAttack => b.IsOpponent(move.position, playerID) && IsAdjacent(move.fromCell, move.position)
  }

  /** The first-move placements: a grow on each listed cell, from the cell itself. */
  function Placements(s: seq<Position>): (r: seq<Move>)
    ensures forall m :: m in r <==> m.position in s && m.moveType == MoveGrow && m.fromCell == m.position
  {
    if s == [] then []
    else
      var last := s[|s| - 1];
      assert forall q :: q in s <==> q in s[..|s| - 1] || q == last;
      Placements(s[..|s| - 1]) + [Move(last, MoveGrow, last)]
  }

  lemma PlacementsSnoc(s: seq<Position>, p: Position)
    ensures Placements(s + [p]) == Placements(s) + [Move(p, MoveGrow, p)]
  {
    assert (s + [p])[..|s|] == s;
  }

  lemma {:induction false} PlacementsAppend(a: seq<Position>, c: seq<Position>)
    ensures Placements(a + c) == Placements(a) + Placements(c)
  {
    if c == [] {
      assert a + c == a;
    } else {
      var init, last := c[..|c| - 1], c[|c| - 1];
      assert a + c == (a + init) + [last];
      assert (a + c)[..|a + c| - 1] == a + init;
      PlacementsAppend(a, init);
      calc {
        Placements(a + c);
        Placements(a + init) + [Move(last, MoveGrow, last)];
        Placements(a) + Placements(init) + [Move(last, MoveGrow, last)];
        Placements(a) + (Placements(init) + [Move(last, MoveGrow, last)]);
        { assert c[..|c| - 1] == init; }
        Placements(a) + Placements(c);
      }
    }
  }

  /** The moves found at one neighbour: none on an owned cell, else a grow into an empty cell or an attack on an enemy cell. */
  function MovesAt(b: Board, playerID: int, fromCell: Position, neighbor: Position): (r: seq<Move>)
    requires b.Valid()
    reads b.cells
    ensures forall m :: m in r <==> m.position == neighbor && m.fromCell == fromCell && Claimable(b, playerID, m)
  {
    if b.IsOwnedBy(neighbor, playerID) then []
    else
      (if b.IsEmpty(neighbor) then [Move(neighbor, MoveGrow, fromCell)] else [])
      + (if b.IsOpponent(neighbor, playerID) then [Move(neighbor, MoveAttack, fromCell)] else [])
  }

  /** The moves from one source cell over the listed neighbours, in order. */
  function CellMoves(b: Board, playerID: int, fromCell: Position, s: seq<Position>): (r: seq<Move>)
    requires b.Valid()
    reads b.cells
    ensures forall m :: m in r <==> m.position in s && m.fromCell == fromCell && Claimable(b, playerID, m)
  {
    if s == [] then []
    else
      var last := s[|s| - 1];
      assert forall q :: q in s <==> q in s[..|s| - 1] || q == last;
      CellMoves(b, playerID, fromCell, s[..|s| - 1]) + MovesAt(b, playerID, fromCell, last)
  }

  /** The moves from each listed source cell into its neighbourhood, source by source. */
  function MovesFrom(b: Board, playerID: int, sources: seq<Position>): (r: seq<Move>)
    requires b.Valid()
    reads b.cells
    ensures forall m :: m in r <==>
      m.fromCell in sources && m.position in Neighbors(b.size, m.fromCell) && Claimable(b, playerID, m)
  {
    if sources == [] then []
    else
      var last := sources[|sources| - 1];
      assert forall q :: q in sources <==> q in sources[..|sources| - 1] || q == last;
      MovesFrom(b, playerID, sources[..|sources| - 1]) + CellMoves(b, playerID, last, Neighbors(b.size, last))
  }

  lemma CellMovesStep(b: Board, playerID: int, fromCell: Position, s: seq<Position>, k: int)
    requires b.Valid() && 0 <= k < |s|
    ensures CellMoves(b, playerID, fromCell, s[..k + 1]) == CellMoves(b, playerID, fromCell, s[..k]) + MovesAt(b, playerID, fromCell, s[k])
  {
    assert s[..k + 1][..k] == s[..k];
  }

  lemma MovesFromStep(b: Board, playerID: int, sources: seq<Position>, i: int)
    requires b.Valid() && 0 <= i < |sources|
    ensures MovesFrom(b, playerID, sources[..i + 1])
      == MovesFrom(b, playerID, sources[..i]) + CellMoves(b, playerID, sources[i], Neighbors(b.size, sources[i]))
  {
    assert sources[..i + 1][..i] == sources[..i];
  }

  /** The answer of GetValidMoves. */
  function ValidMoves(b: Board, playerID: int): seq<Move>
    requires b.Valid()
    reads b, b.cells
  {
    var reachable := ReachableCells(b, playerID);
    if reachable == [] then Placements(b.EmptyCells())
    else MovesFrom(b, playerID, reachable)
  }

  /** The moves at one neighbour depend only on cell values. */
  lemma MovesAtSame(b1: Board, b2: Board, playerID: int, fromCell: Position, neighbor: Position)
    requires SameBoard(b1, b2)
    ensures MovesAt(b1, playerID, fromCell, neighbor) == MovesAt(b2, playerID, fromCell, neighbor)
  {
    assert b1.GetCell(neighbor) == b2.GetCell(neighbor);
  }

  lemma {:induction false} CellMovesSame(b1: Board, b2: Board, playerID: int, fromCell: Position, s: seq<Position>)
    requires SameBoard(b1, b2)
    ensures CellMoves(b1, playerID, fromCell, s) == CellMoves(b2, playerID, fromCell, s)
    decreases |s|
  {
    if s != [] {
      CellMovesSame(b1, b2, playerID, fromCell, s[..|s| - 1]);
      MovesAtSame(b1, b2, playerID, fromCell, s[|s| - 1]);
    }
  }

  lemma {:induction false} MovesFromSame(b1: Board, b2: Board, playerID: int, sources: seq<Position>)
    requires SameBoard(b1, b2)
    ensures MovesFrom(b1, playerID, sources) == MovesFrom(b2, playerID, sources)
    decreases |sources|
  {
    if sources != [] {
      var last := sources[|sources| - 1];
      MovesFromSame(b1, b2, playerID, sources[..|sources| - 1]);
      CellMovesSame(b1, b2, playerID, last, Neighbors(b1.size, last));
    }
  }

  /** The territory search sees only cell values and bases, so it agrees on boards with the same cells. */
  lemma ReachableCellsSame(b1: Board, b2: Board, playerID: int)
    requires SameBoard(b1, b2)
    ensures ReachableCells(b1, playerID) == ReachableCells(b2, playerID)
  {
    assert Owned(b1, playerID) == Owned(b2, playerID) by {
      forall p
        ensures b1.IsOwnedBy(p, playerID) <==> b2.IsOwnedBy(p, playerID)
      {
        assert b1.GetCell(p) == b2.GetCell(p);
      }
    }
    CellsWhereSame(b1, b2, OwnedBy(playerID), b1.size);
    if playerID in b1.basePos {
      assert b1.GetCell(b1.basePos[playerID]) == b2.GetCell(b1.basePos[playerID]);
    }
  }

  /**
   * GetValidMoves sees only the board's size, bases and cell values: two
   * boards that agree on those give every player the same moves.
   */
  lemma ValidMovesSame(b1: Board, b2: Board, playerID: int)
    requires SameBoard(b1, b2)
    ensures ValidMoves(b1, playerID) == ValidMoves(b2, playerID)
  {
    ReachableCellsSame(b1, b2, playerID);
    CellsWhereSame(b1, b2, EmptyCell, b1.size);
    MovesFromSame(b1, b2, playerID, ReachableCells(b1, playerID));
  }

  /**
   * With no reachable cell, the moves are exactly a grow onto each empty
   * cell from itself; otherwise they are exactly the grows and attacks one
   * king move away from a reachable cell.
   */
  lemma ValidMovesMembership(b: Board, playerID: int, m: Move)
    requires b.Valid()
    ensures ReachableCells(b, playerID) == [] ==>
      (m in ValidMoves(b, playerID) <==>
        m.moveType == MoveGrow && m.fromCell == m.position && b.IsValid(m.position) && b.IsEmpty(m.position))
    ensures ReachableCells(b, playerID) != [] ==>
      (m in ValidMoves(b, playerID) <==>
        && m.fromCell in ReachableCells(b, playerID)
        && b.IsValid(m.position) && Chebyshev(m.fromCell, m.position) == 1
        && Claimable(b, playerID, m))
  {
  }

  /**
   * While the player owns its base, GetValidMoves lists exactly the moves
   * ValidMove accepts.
   */
  lemma ValidMovesAreTheLegalMoves(b: Board, playerID: int, m: Move)
    requires b.Valid()
    requires playerID in b.basePos && b.IsOwnedBy(b.basePos[playerID], playerID)
    ensures m in ValidMoves(b, playerID) <==> ValidMove(b, playerID, m)
  {
    ReachableCellsMeaning(b, playerID);
    ValidMovesMembership(b, playerID, m);
  }

  /**
   * Without any reachable cell, every generated placement away from the
   * stored base position is one that ValidMove rejects: the placement's
   * source is an empty cell, which is not linked to the base.
   */
  lemma PlacementsFailValidMove(b: Board, playerID: int, m: Move)
    requires b.Valid()
    requires ReachableCells(b, playerID) == [] && m in ValidMoves(b, playerID)
    requires playerID in b.basePos ==> m.position != b.basePos[playerID]
    ensures !ValidMove(b, playerID, m)
  {
    ValidMovesMembership(b, playerID, m);
    ConnectedToBaseMeaning(b, playerID, m.fromCell);
  }

  method GetValidMoves(b: Board, playerID: int) returns (moves: seq<Move>)
    requires b.Valid()
    ensures moves == ValidMoves(b, playerID)
  {
    var reachableCells := GetReachableCells(b, playerID);
    if |reachableCells| == 0 {
      moves := FirstMoves(b);
      return;
    }
    moves := [];
    for i := 0 to |reachableCells|
      invariant moves == MovesFrom(b, playerID, reachableCells[..i])
    {
      var fromCell := reachableCells[i];
      MovesFromStep(b, playerID, reachableCells, i);
      var found := MovesFromCell(b, playerID, fromCell);
      moves := moves + found;
    }
    assert reachableCells[..|reachableCells|] == reachableCells;
  }

  /** The first-move scan: a grow onto every empty cell, in row-major order. */
  method FirstMoves(b: Board) returns (moves: seq<Move>)
    requires b.Valid()
    ensures moves == Placements(b.EmptyCells())
  {
    moves := [];
    for row := 0 to b.size
      invariant moves == Placements(b.CellsWhere(EmptyCell, row))
    {
      var found := RowPlacements(b, row);
      PlacementsAppend(b.CellsWhere(EmptyCell, row), b.RowWhere(EmptyCell, row, b.size));
      moves := moves + found;
    }
  }

  /** The first-move scan of one row. */
  method RowPlacements(b: Board, row: int) returns (moves: seq<Move>)
    requires b.Valid() && 0 <= row < b.size
    ensures moves == Placements(b.RowWhere(EmptyCell, row, b.size))
  {
    moves := [];
    ghost var found: seq<Position> := [];
    for col := 0 to b.size
      invariant found == b.RowWhere(EmptyCell, row, col)
      invariant moves == Placements(found)
    {
      var pos := Position(row, col);
      b.RowWhereStep(EmptyCell, row, col);
      if b.IsEmpty(pos) {
        PlacementsSnoc(found, pos);
        moves := moves + [Move(pos, MoveGrow, pos)];
        found := found + [pos];
      }
    }
  }

  /** The scan of one reachable cell's neighbourhood. */
  method MovesFromCell(b: Board, playerID: int, fromCell: Position) returns (moves: seq<Move>)
    requires b.Valid()
    ensures moves == CellMoves(b, playerID, fromCell, Neighbors(b.size, fromCell))
  {
    moves := [];
    var neighbors := b.GetNeighbors(fromCell);
    for k := 0 to |neighbors|
      invariant moves == CellMoves(b, playerID, fromCell, neighbors[..k])
    {
      CellMovesStep(b, playerID, fromCell, neighbors, k);
      var found := ScanNeighbor(b, playerID, fromCell, neighbors[k]);
      moves := moves + found;
    }
    assert neighbors[..|neighbors|] == neighbors;
  }

  /** The body of the neighbour scan: an owned neighbour is skipped, else a grow if empty and an attack if an enemy's. */
  method ScanNeighbor(b: Board, playerID: int, fromCell: Position, neighbor: Position) returns (found: seq<Move>)
    requires b.Valid()
    ensures found == MovesAt(b, playerID, fromCell, neighbor)
  {
    found := [];
    if b.IsOwnedBy(neighbor, playerID) {
      return;
    }
    if b.IsEmpty(neighbor) {
      found := found + [Move(neighbor, MoveGrow, fromCell)];
    }
    if b.IsOpponent(neighbor, playerID) {
      found := found + [Move(neighbor, MoveAttack, fromCell)];
    }
  }

  /** The moves of s of type t, in order. */
  function OfType(s: seq<Move>, t: MoveType): (r: seq<Move>)
    ensures forall m :: m in r <==> m in s && m.moveType == t
    ensures |r| <= |s|
  {
    if s == [] then []
    else
      var last := s[|s| - 1];
      assert forall m :: m in s <==> m in s[..|s| - 1] || m == last;
      OfType(s[..|s| - 1], t) + (if last.moveType == t then [last] else [])
  }

  lemma OfTypeStep(s: seq<Move>, t: MoveType, i: int)
    requires 0 <= i < |s|
    ensures OfType(s[..i + 1], t) == OfType(s[..i], t) + (if s[i].moveType == t then [s[i]] else [])
  {
    assert s[..i + 1][..i] == s[..i];
  }

  /** Attacks and grows split the move list: every move lands in exactly one of the two filters, with its multiplicity. */
  lemma {:induction false} OfTypePartition(s: seq<Move>)
    ensures multiset(OfType(s, MoveAttack)) + multiset(OfType(s, MoveGrow)) == multiset(s)
  {
    if s != [] {
      var init, last := s[..|s| - 1], s[|s| - 1];
      assert s == init + [last];
      assert multiset(s) == multiset(init) + multiset{last};
      var attacks, grows := OfType(init, MoveAttack), OfType(init, MoveGrow);
      if last.moveType == MoveAttack {
        assert multiset(OfType(s, MoveAttack)) == multiset(attacks) + multiset{last};
        assert OfType(s, MoveGrow) == grows;
      } else {
        assert OfType(s, MoveAttack) == attacks;
        assert multiset(OfType(s, MoveGrow)) == multiset(grows) + multiset{last};
      }
      OfTypePartition(init);
    }
  }

  method FilterMoves(moves: seq<Move>, t: MoveType) returns (result: seq<Move>)
    ensures result == OfType(moves, t)
  {
    result := [];
    for i := 0 to |moves|
      invariant result == OfType(moves[..i], t)
    {
      OfTypeStep(moves, t, i);
      if moves[i].moveType == t {
        result := result + [moves[i]];
      }
    }
    assert moves[..|moves|] == moves;
  }

  method GetAttackMoves(b: Board, playerID: int) returns (attacks: seq<Move>)
    requires b.Valid()
    ensures attacks == OfType(ValidMoves(b, playerID), MoveAttack)
  {
    var moves := GetValidMoves(b, playerID);
    attacks := FilterMoves(moves, MoveAttack);
  }

  method GetGrowMoves(b: Board, playerID: int) returns (grows: seq<Move>)
    requires b.Valid()
    ensures grows == OfType(ValidMoves(b, playerID), MoveGrow)
  {
    var moves := GetValidMoves(b, playerID);
    grows := FilterMoves(moves, MoveGrow);
  }

  // ---------------------------------------------------------------------
  // Neutrals and aliveness

  /** Neutral placement is allowed exactly when two different cells carry the player's id. */
  method CanPlaceNeutrals(b: Board, playerID: int) returns (can: bool)
    requires b.Valid()
    ensures can <==> |b.PlayerCells(playerID)| >= 2
    ensures can <==> exists p, q :: p != q && p in b.PlayerCells(playerID) && q in b.PlayerCells(playerID)
  {
    var cells := b.GetPlayerCells(playerID);
    can := |cells| >= 2;
    if can {
      assert cells[0] != cells[1] && cells[0] in cells && cells[1] in cells;
    }
  }

  /** The cells carrying the player's id whose value is not the plain neutral value, in row-major order. */
  function NeutralPositions(b: Board, playerID: int): (r: seq<Position>)
    requires b.Valid()
    reads b.cells
    ensures forall p :: p in r <==> b.IsValid(p) && Cells.Player(b.GetCell(p)) == playerID && b.GetCell(p) != CellNeutral
    ensures Distinct(r)
  {
    NotNeutral(b, b.PlayerCells(playerID))
  }

  function NotNeutral(b: Board, s: seq<Position>): (r: seq<Position>)
    requires b.Valid()
    reads b.cells
    ensures forall p :: p in r <==> p in s && b.GetCell(p) != CellNeutral
    ensures Distinct(s) ==> Distinct(r)
  {
    if s == [] then []
    else
      var last := s[|s| - 1];
      assert forall q :: q in s <==> q in s[..|s| - 1] || q == last;
      NotNeutral(b, s[..|s| - 1]) + (if b.GetCell(last) != CellNeutral then [last] else [])
  }

  lemma NotNeutralStep(b: Board, s: seq<Position>, i: int)
    requires b.Valid() && 0 <= i < |s|
    ensures NotNeutral(b, s[..i + 1]) == NotNeutral(b, s[..i]) + (if b.GetCell(s[i]) != CellNeutral then [s[i]] else [])
  {
    assert s[..i + 1][..i] == s[..i];
  }

  /** For a real player id (not 0), the neutral candidates are exactly the cells the player owns. */
  lemma NeutralPositionsAreOwned(b: Board, playerID: int, p: Position)
    requires b.Valid() && playerID != 0
    ensures p in NeutralPositions(b, playerID) <==> b.IsOwnedBy(p, playerID)
  {
  }

  method GetNeutralPositions(b: Board, playerID: int) returns (neutrals: seq<Position>)
    requires b.Valid()
    ensures neutrals == NeutralPositions(b, playerID)
  {
    var cells := b.GetPlayerCells(playerID);
    neutrals := [];
    for i := 0 to |cells|
      invariant neutrals == NotNeutral(b, cells[..i])
    {
      NotNeutralStep(b, cells, i);
      if b.GetCell(cells[i]) != CellNeutral {
        neutrals := neutrals + [cells[i]];
      }
    }
    assert cells[..|cells|] == cells;
  }

  /** Some cell carries the player's id. */
  predicate HasCells(b: Board, playerID: int)
    requires b.Valid()
    reads b.cells
  {
    b.PlayerCells(playerID) != []
  }

  /** A player is alive exactly when some grid cell carries its id. */
  method IsAlive(b: Board, playerID: int) returns (alive: bool)
    requires b.Valid()
    ensures alive == HasCells(b, playerID)
    ensures alive <==> exists p :: b.IsValid(p) && Cells.Player(b.GetCell(p)) == playerID
  {
    var cells := b.GetPlayerCells(playerID);
    alive := |cells| > 0;
    if alive {
      assert cells[0] in cells;
    }
  }

  /** Player id 0 counts as alive whenever an empty cell is left, since empty cells carry id 0. */
  lemma EmptyCellKeepsIdZeroAlive(b: Board, p: Position)
    requires b.Valid() && b.IsValid(p) && b.IsEmpty(p)
    ensures HasCells(b, 0)
  {
    assert p in b.PlayerCells(0);
  }

  /** The listed ids, in order, that are alive and not excluded. */
  function AliveIds(b: Board, ids: seq<int>, excluded: set<int>): (r: seq<int>)
    requires b.Valid()
    reads b.cells
    ensures forall i :: i in r <==> i in ids && i !in excluded && HasCells(b, i)
    ensures |r| <= |ids|
  {
    if ids == [] then []
    else
      var last := ids[|ids| - 1];
      assert forall q :: q in ids <==> q in ids[..|ids| - 1] || q == last;
      AliveIds(b, ids[..|ids| - 1], excluded) + (if last !in excluded && HasCells(b, last) then [last] else [])
  }

  lemma AliveIdsStep(b: Board, s: seq<int>, excluded: set<int>, i: int)
    requires b.Valid() && 0 <= i < |s|
    ensures AliveIds(b, s[..i + 1], excluded) ==
      AliveIds(b, s[..i], excluded) + (if s[i] !in excluded && HasCells(b, s[i]) then [s[i]] else [])
  {
    assert s[..i + 1][..i] == s[..i];
  }

  method CollectAlive(b: Board, players: seq<Player>, excluded: set<int>) returns (ids: seq<int>)
    requires b.Valid()
    ensures ids == AliveIds(b, IdsOf(players), excluded)
  {
    ghost var all := IdsOf(players);
    ids := [];
    for i := 0 to |players|
      invariant ids == AliveIds(b, all[..i], excluded)
    {
      AliveIdsStep(b, all, excluded, i);
      var p := players[i];
      if p.id !in excluded {
        var alive := IsAlive(b, p.id);
        if alive {
          ids := ids + [p.id];
        }
      }
    }
    assert all[..|players|] == all;
  }

  method GetAlivePlayers(b: Board, players: seq<Player>) returns (alive: seq<int>)
    requires b.Valid()
    ensures alive == AliveIds(b, IdsOf(players), {})
  {
    alive := CollectAlive(b, players, {});
  }

  method GetOpponents(b: Board, playerID: int, allPlayers: seq<Player>) returns (opponents: seq<int>)
    requires b.Valid()
    ensures opponents == AliveIds(b, IdsOf(allPlayers), {playerID})
  {
    opponents := CollectAlive(b, allPlayers, {playerID});
  }

  /** s with every occurrence of x dropped. */
  function Without(s: seq<int>, x: int): (r: seq<int>)
    ensures forall i :: i in r <==> i in s && i != x
  {
    if s == [] then []
    else
      var last := s[|s| - 1];
      assert forall q :: q in s <==> q in s[..|s| - 1] || q == last;
      Without(s[..|s| - 1], x) + (if last != x then [last] else [])
  }

  lemma {:induction false} WithoutAppend(a: seq<int>, c: seq<int>, x: int)
    ensures Without(a + c, x) == Without(a, x) + Without(c, x)
  {
    if c == [] {
      assert a + c == a;
    } else {
      var init, last := c[..|c| - 1], c[|c| - 1];
      var tail := if last != x then [last] else [];
      assert a + c == (a + init) + [last];
      assert (a + c)[..|a + c| - 1] == a + init;
      WithoutAppend(a, init, x);
      calc {
        Without(a + c, x);
        Without(a + init, x) + tail;
        Without(a, x) + Without(init, x) + tail;
        Without(a, x) + (Without(init, x) + tail);
        { assert c[..|c| - 1] == init; }
        Without(a, x) + Without(c, x);
      }
    }
  }

  /** The opponents are the alive players with the given one dropped, in the same order. */
  lemma {:induction false} OpponentsAreOtherAlive(b: Board, ids: seq<int>, playerID: int)
    requires b.Valid()
    ensures AliveIds(b, ids, {playerID}) == Without(AliveIds(b, ids, {}), playerID)
  {
    if ids != [] {
      var init, last := ids[..|ids| - 1], ids[|ids| - 1];
      OpponentsAreOtherAlive(b, init, playerID);
      WithoutAppend(AliveIds(b, init, {}), if HasCells(b, last) then [last] else [], playerID);
    }
  }
}
