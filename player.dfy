/**
 * A participant of the game: identity, base position, the list of cells
 * it believes it holds, and its alive and neutrals-used flags.
 */
module Players {
  import opened Cells
  import opened Boards

  /** The roster entry a game session announces for a player. */
  datatype PlayerInfo = PlayerInfo(id: int, name: string, symbol: CellType, position: Position)

  /** The value of every field of a player, for stating what an operation does to it. */
  datatype PlayerSnap = PlayerSnap(
    id: int, name: string, symbol: CellType, basePos: Position,
    cells: seq<Position>, isAlive: bool, hasUsedNeutrals: bool)

  /** s without its first occurrence of x; s itself when x does not occur. */
  function RemoveFirst<T(==)>(s: seq<T>, x: T): seq<T> {
    if s == [] then []
    else if s[0] == x then s[1..]
    else [s[0]] + RemoveFirst(s[1..], x)
  }

  /** Removing an absent element changes nothing. */
  lemma {:induction false} RemoveFirstAbsent<T>(s: seq<T>, x: T)
    requires x !in s
    ensures RemoveFirst(s, x) == s
  {
    if s != [] {
      RemoveFirstAbsent(s[1..], x);
    }
  }

  /** When x first occurs at index i, exactly that element is cut out and the rest keep their order. */
  lemma {:induction false} RemoveFirstAt<T>(s: seq<T>, x: T, i: nat)
    requires i < |s| && s[i] == x && x !in s[..i]
    ensures RemoveFirst(s, x) == s[..i] + s[i + 1..]
  {
    if i > 0 {
      assert s[0] != x by { assert s[0] in s[..i]; }
      assert s[1..][..i - 1] == s[..i][1..];
      RemoveFirstAt(s[1..], x, i - 1);
      assert s[..i] == [s[0]] + s[1..][..i - 1];
      assert s[i + 1..] == s[1..][i..];
    }
  }

  /** Exactly one copy of x leaves the multiset of elements, or none when x is absent. */
  lemma {:induction false} RemoveFirstMultiset<T>(s: seq<T>, x: T)
    ensures multiset(RemoveFirst(s, x)) == multiset(s) - multiset{x}
    ensures |RemoveFirst(s, x)| == if x in s then |s| - 1 else |s|
  {
    if s != [] {
      var rest := s[1..];
      assert s == [s[0]] + rest;
      assert multiset(s) == multiset{s[0]} + multiset(rest);
      if s[0] != x {
        RemoveFirstMultiset(rest, x);
        assert RemoveFirst(s, x) == [s[0]] + RemoveFirst(rest, x);
        assert multiset(RemoveFirst(s, x)) == multiset{s[0]} + multiset(RemoveFirst(rest, x));
        MinusOther(multiset(rest), s[0], x);
        assert x in s <==> x in rest;
      }
    }
  }

  lemma MinusOther<T>(m: multiset<T>, y: T, x: T)
    requires y != x
    ensures multiset{y} + (m - multiset{x}) == (multiset{y} + m) - multiset{x}
  {
    forall z
      ensures (multiset{y} + (m - multiset{x}))[z] == ((multiset{y} + m) - multiset{x})[z]
    {
    }
  }

  /** The loop of the membership scan: does pos occur in s at index i or later. */
  function ScanFor(s: seq<Position>, pos: Position, i: nat): (found: bool)
    requires i <= |s|
    ensures found <==> pos in s[i..]
    decreases |s| - i
  {
    if i == |s| then false
    else if s[i].row == pos.row && s[i].col == pos.col then true
    else ScanFor(s, pos, i + 1)
  }

  class Player {
    const id: int
    const name: string
    const symbol: CellType
    const basePos: Position
    var cells: seq<Position>
    var isAlive: bool
    var hasUsedNeutrals: bool

    function Snap(): PlayerSnap
      reads this
    {
      PlayerSnap(id, name, symbol, basePos, cells, isAlive, hasUsedNeutrals)
    }

    /** A new player holds just its base cell, is alive and has not placed neutrals. */
    constructor (id: int, name: string, symbol: CellType, basePos: Position)
      ensures this.id == id && this.name == name && this.symbol == symbol && this.basePos == basePos
      ensures cells == [basePos] && isAlive && !hasUsedNeutrals
    {
      this.id := id;
      this.name := name;
      this.symbol := symbol;
      this.basePos := basePos;
      this.cells := [basePos];
      this.isAlive := true;
      this.hasUsedNeutrals := false;
    }

    /** Appends pos; nothing else changes. */
    method AddCell(pos: Position)
      modifies this
      ensures cells == old(cells) + [pos]
      ensures isAlive == old(isAlive) && hasUsedNeutrals == old(hasUsedNeutrals)
    {
      cells := cells + [pos];
    }

    /**
     * Deletes the first occurrence of pos, if any; the player is marked dead
     * when no cell is left, and is never revived here.
     */
    method RemoveCell(pos: Position)
      modifies this
      ensures cells == RemoveFirst(old(cells), pos)
      ensures isAlive == (old(isAlive) && cells != [])
      ensures hasUsedNeutrals == old(hasUsedNeutrals)
    {
      var i := 0;
      while i < |cells| && !(cells[i].row == pos.row && cells[i].col == pos.col)
        invariant 0 <= i <= |cells|
        invariant pos !in cells[..i]
      {
        i := i + 1;
      }
      if i < |cells| {
        RemoveFirstAt(cells, pos, i);
        cells := cells[..i] + cells[i + 1..];
      } else {
        assert cells[..i] == cells;
        RemoveFirstAbsent(cells, pos);
      }
      if |cells| == 0 {
        isAlive := false;
      }
    }

    function CellCount(): (n: int)
      reads this
      ensures n == |cells|
    {
      |cells|
    }

    /** Whether the base position is still among the player's cells. */
    function HasBase(): (has: bool)
      reads this
      ensures has <==> basePos in cells
    {
      ScanFor(cells, basePos, 0)
    }

    /** A fresh player with the same value in every field. */
    method Clone() returns (copy: Player)
      ensures fresh(copy) && copy.Snap() == Snap()
    {
      copy := new Player(id, name, symbol, basePos);
      var newCells := cells;
      copy.cells := newCells;
      copy.isAlive := isAlive;
      copy.hasUsedNeutrals := hasUsedNeutrals;
    }
  }

  /** The ids of a roster, in roster order. */
  function IdsOf(players: seq<Player>): (ids: seq<int>)
    ensures |ids| == |players| && forall k :: 0 <= k < |players| ==> ids[k] == players[k].id
  {
    seq(|players|, k requires 0 <= k < |players| => players[k].id)
  }

  method PlayerFromInfo(info: PlayerInfo) returns (p: Player)
    ensures fresh(p)
    ensures p.Snap() == PlayerSnap(info.id, info.name, info.symbol, info.position, [info.position], true, false)
  {
    p := new Player(info.id, info.name, info.symbol, Position(info.position.row, info.position.col));
  }

  /** One fresh player per roster entry, in roster order. */
  method PlayersFromInfo(infos: seq<PlayerInfo>) returns (players: seq<Player>)
    ensures |players| == |infos| && Distinct(players)
    ensures forall i :: 0 <= i < |infos| ==> fresh(players[i])
    ensures forall i :: 0 <= i < |infos| ==>
      players[i].Snap() == PlayerSnap(infos[i].id, infos[i].name, infos[i].symbol, infos[i].position, [infos[i].position], true, false)
  {
    players := [];
    for i := 0 to |infos|
      invariant |players| == i && Distinct(players)
      invariant forall k :: 0 <= k < i ==> fresh(players[k])
      invariant forall k :: 0 <= k < i ==>
        players[k].Snap() == PlayerSnap(infos[k].id, infos[k].name, infos[k].symbol, infos[k].position, [infos[k].position], true, false)
    {
      var p := PlayerFromInfo(infos[i]);
      players := players + [p];
    }
  }
}
