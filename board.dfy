/**
 * The N x N game board: a grid of packed cell values and the base
 * position of each player.  Every query is total: a position outside the
 * grid reads as an empty cell, and a write to it is ignored.
 */
module Boards {
  import opened Cells

  datatype Position = Position(row: int, col: int)

  function Abs(x: int): nat {
    if x < 0 then -x else x
  }

  /** Chebyshev (king-move) distance between two positions. */
  function Chebyshev(p: Position, q: Position): nat {
    var dr, dc := Abs(p.row - q.row), Abs(p.col - q.col);
    if dr < dc then dc else dr
  }

  predicate InBounds(n: int, p: Position) {
    0 <= p.row < n && 0 <= p.col < n
  }

  /** Strict row-major order on positions. */
  predicate Before(p: Position, q: Position) {
    p.row < q.row || (p.row == q.row && p.col < q.col)
  }

  predicate RowMajorSorted(s: seq<Position>) {
    forall i, j :: 0 <= i < j < |s| ==> Before(s[i], s[j])
  }

  predicate Distinct<T(==)>(s: seq<T>) {
    forall i, j :: 0 <= i < j < |s| ==> s[i] != s[j]
  }

  lemma SortedIsDistinct(s: seq<Position>)
    requires RowMajorSorted(s)
    ensures Distinct(s)
  {
  }

  /** The eight direction offsets, in the order the neighbour scan visits them. */
  const Directions: seq<(int, int)> :=
    [(-1, 0), (1, 0), (0, -1), (0, 1), (-1, -1), (-1, 1), (1, -1), (1, 1)]

  /** The eight positions around pos, in direction order (possibly off the grid). */
  function Around(pos: Position): (r: seq<Position>)
    ensures |r| == 8
    ensures forall q :: q in r <==> Chebyshev(pos, q) == 1
    ensures Distinct(r)
  {
    var r := seq(8, k requires 0 <= k < 8 => Position(pos.row + Directions[k].0, pos.col + Directions[k].1));
    assert forall q :: Chebyshev(pos, q) == 1 ==> q in r by {
      forall q | Chebyshev(pos, q) == 1
        ensures q in r
      {
        var dr, dc := q.row - pos.row, q.col - pos.col;
        var k :=
          if dr == -1 && dc == 0 then 0 else if dr == 1 && dc == 0 then 1
          else if dr == 0 && dc == -1 then 2 else if dr == 0 && dc == 1 then 3
          else if dr == -1 && dc == -1 then 4 else if dr == -1 && dc == 1 then 5
          else if dr == 1 && dc == -1 then 6 else 7;
        assert r[k] == q;
      }
    }
    r
  }

  /** The elements of s that lie on an n x n grid, in their original order. */
  function KeepInBounds(n: int, s: seq<Position>): (r: seq<Position>)
    ensures |r| <= |s|
    ensures forall q :: q in r <==> q in s && InBounds(n, q)
    ensures Distinct(s) ==> Distinct(r)
  {
    if s == [] then []
    else
      var front := KeepInBounds(n, s[..|s| - 1]);
      var last := s[|s| - 1];
      assert forall q :: q in s <==> q in s[..|s| - 1] || q == last;
      front + (if InBounds(n, last) then [last] else [])
  }

  /** The in-bounds 8-neighbourhood of pos: at most eight distinct grid cells, each at Chebyshev distance 1. */
  function Neighbors(n: int, pos: Position): (r: seq<Position>)
    ensures |r| <= 8
    ensures forall q :: q in r <==> InBounds(n, q) && Chebyshev(pos, q) == 1
    ensures Distinct(r)
  {
    KeepInBounds(n, Around(pos))
  }

  /** Which cells a row-major enumeration collects. */
  datatype CellQuery = OwnedBy(id: int) | EmptyCell

  predicate Matches(q: CellQuery, v: CellType) {
    match q
    case OwnedBy(id) => Player(v) == id
    case EmptyCell => v == CellEmpty
  }

  class Board {
    const size: nat
    const cells: array2<CellType>
    var basePos: map<int, Position>

    ghost predicate Valid() {
      cells.Length0 == size && cells.Length1 == size
    }

    /** A fresh board of n x n empty cells and no bases. */
    constructor (n: nat)
      ensures Valid() && size == n && basePos == map[] && fresh(cells)
      ensures forall i, j :: 0 <= i < n && 0 <= j < n ==> cells[i, j] == CellEmpty
    {
      size := n;
      cells := new CellType[n, n];
      basePos := map[];
      new;
      for i := 0 to n
        modifies cells
        invariant forall i', j :: 0 <= i' < i && 0 <= j < n ==> cells[i', j] == CellEmpty
      {
        for j := 0 to n
          modifies cells
          invariant forall i', j' :: 0 <= i' < i && 0 <= j' < n ==> cells[i', j'] == CellEmpty
          invariant forall j' :: 0 <= j' < j ==> cells[i, j'] == CellEmpty
        {
          cells[i, j] := CellEmpty;
        }
      }
    }

    /** A board over an existing square grid and base map. */
    constructor FromData(data: array2<CellType>, bases: map<int, Position>)
      requires data.Length0 == data.Length1
      ensures Valid() && size == data.Length0 && cells == data && basePos == bases
    {
      size := data.Length0;
      cells := data;
      basePos := bases;
    }

    predicate IsValid(pos: Position)
      ensures IsValid(pos) <==> 0 <= pos.row < size && 0 <= pos.col < size
    {
      pos.row >= 0 && pos.row < size && pos.col >= 0 && pos.col < size
    }

    /** The value at pos, or CellEmpty off the grid. */
    function GetCell(pos: Position): (c: CellType)
      requires Valid()
      reads cells
      ensures !IsValid(pos) ==> c == CellEmpty
    {
      if !IsValid(pos) then CellEmpty else cells[pos.row, pos.col]
    }

    /** Writes v at pos when pos is on the grid; every other cell keeps its value. */
    method SetCell(pos: Position, v: CellType)
      requires Valid()
      modifies cells
      ensures forall p :: GetCell(p) == if p == pos && IsValid(pos) then v else old(GetCell(p))
    {
      if IsValid(pos) {
        cells[pos.row, pos.col] := v;
      }
    }

    /**
     * An empty cell, which is also what every off-grid position reads as;
     * the empty value decodes to owner 0 with the normal flag.
     */
    function IsEmpty(pos: Position): (r: bool)
      requires Valid()
      reads cells
      ensures !IsValid(pos) ==> r
      ensures r ==> Player(GetCell(pos)) == 0 && CanBeAttacked(GetCell(pos))
    {
      GetCell(pos) == CellEmpty
    }

    /** Owned cells are on the grid, carry the player's id and are neither empty nor the plain neutral value. */
    predicate IsOwnedBy(pos: Position, playerID: int)
      requires Valid()
      reads cells
      ensures IsOwnedBy(pos, playerID) ==> IsValid(pos) && !IsEmpty(pos) && Player(GetCell(pos)) == playerID
      ensures GetCell(pos) == CellNeutral ==> !IsOwnedBy(pos, playerID)
    {
      var cell := GetCell(pos);
      Player(cell) == playerID && cell != CellEmpty && cell != CellNeutral
    }

    /**
     * A neutral wall.  It is always on the grid; its value decodes to
     * owner 5 with the normal flag, so the flag alone would let it be
     * attacked.
     */
    function IsNeutral(pos: Position): (r: bool)
      requires Valid()
      reads cells
      ensures r ==> IsValid(pos) && Player(GetCell(pos)) == 5 && CanBeAttacked(GetCell(pos))
    {
      GetCell(pos) == CellNeutral
    }

    /** An attackable enemy cell: on the grid, occupied, not the player's own, and normal-flagged. */
    predicate IsOpponent(pos: Position, playerID: int)
      requires Valid()
      reads cells
      ensures IsOpponent(pos, playerID) ==>
        IsValid(pos) && !IsEmpty(pos) && !IsNeutral(pos) && !IsOwnedBy(pos, playerID) && CanBeAttacked(GetCell(pos))
    {
      var cell := GetCell(pos);
      if cell == CellEmpty || cell == CellNeutral then false
      else Player(cell) != playerID && CanBeAttacked(cell)
    }

    method GetNeighbors(pos: Position) returns (neighbors: seq<Position>)
      ensures neighbors == Neighbors(size, pos)
    {
      neighbors := [];
      ghost var around := Around(pos);
      for k := 0 to |Directions|
        invariant neighbors == KeepInBounds(size, around[..k])
      {
        var d := Directions[k];
        var n := Position(pos.row + d.0, pos.col + d.1);
        assert around[..k + 1][..k] == around[..k] && around[k] == n;
        assert KeepInBounds(size, around[..k + 1]) == neighbors + (if InBounds(size, n) then [n] else []);
        if IsValid(n) {
          neighbors := neighbors + [n];
        }
      }
      assert around[..|Directions|] == around;
    }

    /** The neighbours of pos, in neighbour order, whose cell holds exactly v. */
    function AdjacentWith(s: seq<Position>, v: CellType): (r: seq<Position>)
      requires Valid()
      reads cells
      ensures forall q :: q in r <==> q in s && GetCell(q) == v
      ensures |r| <= |s|
    {
      if s == [] then []
      else
        var last := s[|s| - 1];
        assert forall q :: q in s <==> q in s[..|s| - 1] || q == last;
        AdjacentWith(s[..|s| - 1], v) + (if GetCell(last) == v then [last] else [])
    }

    function EmptyNeighbors(pos: Position): (r: seq<Position>)
      requires Valid()
      reads cells
      ensures |r| <= 8
      ensures forall q :: q in r <==> IsValid(q) && Chebyshev(pos, q) == 1 && IsEmpty(q)
    {
      AdjacentWith(Neighbors(size, pos), CellEmpty)
    }

    method GetAdjacentCells(pos: Position, cellType: CellType) returns (result: seq<Position>)
      requires Valid()
      ensures result == AdjacentWith(Neighbors(size, pos), cellType)
    {
      var neighbors := GetNeighbors(pos);
      result := [];
      for k := 0 to |neighbors|
        invariant result == AdjacentWith(neighbors[..k], cellType)
      {
        assert neighbors[..k + 1][..k] == neighbors[..k];
        if GetCell(neighbors[k]) == cellType {
          result := result + [neighbors[k]];
        }
      }
      assert neighbors[..|neighbors|] == neighbors;
    }

    method GetEmptyNeighbors(pos: Position) returns (result: seq<Position>)
      requires Valid()
      ensures result == EmptyNeighbors(pos)
    {
      result := GetAdjacentCells(pos, CellEmpty);
    }

    /** The neighbours in s, in order, that are attackable enemy cells for playerID. */
    function OpponentsAmong(s: seq<Position>, playerID: int): (r: seq<Position>)
      requires Valid()
      reads cells
      ensures forall q :: q in r <==> q in s && IsOpponent(q, playerID)
      ensures |r| <= |s|
    {
      if s == [] then []
      else
        var last := s[|s| - 1];
        assert forall q :: q in s <==> q in s[..|s| - 1] || q == last;
        OpponentsAmong(s[..|s| - 1], playerID) + (if IsOpponent(last, playerID) then [last] else [])
    }

    method GetOpponentNeighbors(pos: Position, playerID: int) returns (result: seq<Position>)
      requires Valid()
      ensures result == OpponentsAmong(Neighbors(size, pos), playerID)
    {
      var neighbors := GetNeighbors(pos);
      result := [];
      for k := 0 to |neighbors|
        invariant result == OpponentsAmong(neighbors[..k], playerID)
      {
        assert neighbors[..k + 1][..k] == neighbors[..k];
        if IsOpponent(neighbors[k], playerID) {
          result := result + [neighbors[k]];
        }
      }
      assert neighbors[..|neighbors|] == neighbors;
    }

    /** A deep copy: a fresh board and a fresh grid with the same cells, and the same base entries. */
    method Clone() returns (copy: Board)
      requires Valid()
      ensures fresh(copy) && fresh(copy.cells) && copy.Valid()
      ensures copy.size == size && copy.basePos == basePos
      ensures forall p :: copy.GetCell(p) == GetCell(p)
    {
      var newCells := new CellType[size, size];
      for i := 0 to size
        invariant forall i', j :: 0 <= i' < i && 0 <= j < size ==> newCells[i', j] == cells[i', j]
      {
        for j := 0 to size
          invariant forall i', j' :: 0 <= i' < i && 0 <= j' < size ==> newCells[i', j'] == cells[i', j']
          invariant forall j' :: 0 <= j' < j ==> newCells[i, j'] == cells[i, j']
        {
          newCells[i, j] := cells[i, j];
        }
      }
      var newBasePos := basePos;
      copy := new Board.FromData(newCells, newBasePos);
    }

    /**
     * A new board equal to this one except that pos (when on the grid)
     * holds the plain value of playerID; this board is left unchanged.
     */
    method ApplyMove(pos: Position, playerID: int, isAttack: bool) returns (newBoard: Board)
      requires Valid()
      ensures fresh(newBoard) && fresh(newBoard.cells) && newBoard.Valid()
      ensures newBoard.size == size && newBoard.basePos == basePos
      ensures forall p :: newBoard.GetCell(p) == if p == pos && IsValid(pos) then playerID else GetCell(p)
    {
      newBoard := Clone();
      var cellType: CellType := playerID;
      newBoard.SetCell(pos, cellType);
    }

    /** The cells of row r before column c that match q, left to right. */
    function RowWhere(q: CellQuery, r: nat, c: nat): (s: seq<Position>)
      requires Valid() && r < size && c <= size
      reads cells
      ensures forall p :: p in s <==> p.row == r && 0 <= p.col < c && Matches(q, cells[r, p.col])
      ensures RowMajorSorted(s)
    {
      if c == 0 then []
      else RowWhere(q, r, c - 1) + (if Matches(q, cells[r, c - 1]) then [Position(r, c - 1)] else [])
    }

    /** Extending a row scan by one column appends that column's cell when it matches. */
    lemma RowWhereStep(q: CellQuery, r: nat, c: nat)
      requires Valid() && r < size && c < size
      ensures RowWhere(q, r, c + 1) == RowWhere(q, r, c) + (if Matches(q, cells[r, c]) then [Position(r, c)] else [])
    {
    }

    /** The cells of rows before r that match q, in row-major order. */
    function CellsWhere(q: CellQuery, r: nat): (s: seq<Position>)
      requires Valid() && r <= size
      reads cells
      ensures forall p :: p in s <==> 0 <= p.row < r && 0 <= p.col < size && Matches(q, cells[p.row, p.col])
      ensures RowMajorSorted(s)
    {
      if r == 0 then []
      else CellsWhere(q, r - 1) + RowWhere(q, r - 1, size)
    }

    /** Row-major list of the cells whose owner field equals playerID (empty cells count for id 0). */
    function PlayerCells(playerID: int): (s: seq<Position>)
      requires Valid()
      reads cells
      ensures forall p :: p in s <==> IsValid(p) && Player(GetCell(p)) == playerID
      ensures RowMajorSorted(s) && Distinct(s)
    {
      var s := CellsWhere(OwnedBy(playerID), size);
      SortedIsDistinct(s);
      s
    }

    /** Row-major list of the empty cells. */
    function EmptyCells(): (s: seq<Position>)
      requires Valid()
      reads cells
      ensures forall p :: p in s <==> IsValid(p) && IsEmpty(p)
      ensures RowMajorSorted(s) && Distinct(s)
    {
      var s := CellsWhere(EmptyCell, size);
      SortedIsDistinct(s);
      s
    }

    method CollectWhere(q: CellQuery) returns (result: seq<Position>)
      requires Valid()
      ensures result == CellsWhere(q, size)
    {
      result := [];
      for row := 0 to size
        invariant result == CellsWhere(q, row)
      {
        var found := CollectRow(q, row);
        result := result + found;
      }
    }

    /** The scan of one row, left to right. */
    method CollectRow(q: CellQuery, r: nat) returns (found: seq<Position>)
      requires Valid() && r < size
      ensures found == RowWhere(q, r, size)
    {
      found := [];
      for col := 0 to size
        invariant found == RowWhere(q, r, col)
      {
        RowWhereStep(q, r, col);
        if Matches(q, cells[r, col]) {
          found := found + [Position(r, col)];
        }
      }
    }

    method GetPlayerCells(playerID: int) returns (result: seq<Position>)
      requires Valid()
      ensures result == PlayerCells(playerID)
    {
      result := CollectWhere(OwnedBy(playerID));
    }

    method GetEmptyCells() returns (result: seq<Position>)
      requires Valid()
      ensures result == EmptyCells()
    {
      result := CollectWhere(EmptyCell);
    }

    /** The number of cells whose owner field equals playerID: the length of PlayerCells. */
    method CountCells(playerID: int) returns (count: int)
      requires Valid()
      ensures count == |PlayerCells(playerID)|
    {
      count := 0;
      for row := 0 to size
        invariant count == |CellsWhere(OwnedBy(playerID), row)|
      {
        for col := 0 to size
          invariant count == |CellsWhere(OwnedBy(playerID), row)| + |RowWhere(OwnedBy(playerID), row, col)|
        {
          if Matches(OwnedBy(playerID), cells[row, col]) {
            count := count + 1;
          }
        }
      }
    }

    /** A grid cell is on the edge exactly when one king move from it leaves the grid. */
    function IsEdgePosition(pos: Position): (r: bool)
      ensures InBounds(size, pos) ==> (r <==> exists q :: Chebyshev(pos, q) == 1 && !InBounds(size, q))
    {
      assert pos.row == 0 ==> Chebyshev(pos, Position(-1, pos.col)) == 1;
      assert pos.row == size - 1 ==> Chebyshev(pos, Position(size, pos.col)) == 1;
      assert pos.col == 0 ==> Chebyshev(pos, Position(pos.row, -1)) == 1;
      assert pos.col == size - 1 ==> Chebyshev(pos, Position(pos.row, size)) == 1;
      pos.row == 0 || pos.row == size - 1 || pos.col == 0 || pos.col == size - 1
    }

    /** A corner lies on two edges at once, so it is always an edge position. */
    predicate IsCornerPosition(pos: Position)
      ensures IsCornerPosition(pos) ==> IsEdgePosition(pos)
    {
      (pos.row == 0 || pos.row == size - 1) && (pos.col == 0 || pos.col == size - 1)
    }
  }

  /** Two well-formed boards of the same size, with the same bases and the same value in every cell. */
  ghost predicate SameBoard(b1: Board, b2: Board)
    reads b1, b2, b1.cells, b2.cells
  {
    && b1.Valid() && b2.Valid() && b1.size == b2.size && b1.basePos == b2.basePos
    && forall p :: b1.GetCell(p) == b2.GetCell(p)
  }

  /** A row scan sees only cell values, so it agrees on boards with the same cells. */
  lemma {:induction false} RowWhereSame(b1: Board, b2: Board, q: CellQuery, r: nat, c: nat)
    requires SameBoard(b1, b2) && r < b1.size && c <= b1.size
    ensures b1.RowWhere(q, r, c) == b2.RowWhere(q, r, c)
    decreases c
  {
    if c > 0 {
      RowWhereSame(b1, b2, q, r, c - 1);
      assert b1.GetCell(Position(r, c - 1)) == b2.GetCell(Position(r, c - 1));
    }
  }

  /** The row-major scan agrees on boards with the same cells. */
  lemma {:induction false} CellsWhereSame(b1: Board, b2: Board, q: CellQuery, r: nat)
    requires SameBoard(b1, b2) && r <= b1.size
    ensures b1.CellsWhere(q, r) == b2.CellsWhere(q, r)
    decreases r
  {
    if r > 0 {
      CellsWhereSame(b1, b2, q, r - 1);
      RowWhereSame(b1, b2, q, r - 1, b1.size);
    }
  }
}
