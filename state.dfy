/**
 * The game as the bot sees it: the board, the roster of players in roster
 * order, whose turn it is and which player the bot controls.
 *
 * Moves and neutral placements are applied to a deep copy of the state;
 * the receiver is never changed (the methods that build the copy have no
 * modifies clause).  After a move or a neutral placement the turn passes
 * to the next alive player in roster order.
 */
module States {
  import opened Cells
  import opened Boards
  import opened Rules
  import opened Players

  // ---------------------------------------------------------------------
  // Values of the roster

  /** The value of every player of ps, in roster order. */
  function Snaps(ps: seq<Player>): (r: seq<PlayerSnap>)
    reads ps
    ensures |r| == |ps| && forall i :: 0 <= i < |ps| ==> r[i] == ps[i].Snap()
  {
    seq(|ps|, i requires 0 <= i < |ps| reads ps => ps[i].Snap())
  }

  /** The roster ps currently holds the values r, entry by entry. */
  ghost predicate Holds(ps: seq<Player>, r: seq<PlayerSnap>)
    reads ps
  {
    |ps| == |r| && forall j :: 0 <= j < |ps| ==> ps[j].Snap() == r[j]
  }

  /** The index of the first occurrence of x in ids, or -1 when x does not occur. */
  function IndexOf(ids: seq<int>, x: int): (k: int)
    ensures -1 <= k < |ids|
    ensures 0 <= k ==> ids[k] == x && x !in ids[..k]
    ensures k == -1 <==> x !in ids
  {
    if ids == [] then -1
    else if ids[0] == x then 0
    else
      var k := IndexOf(ids[1..], x);
      assert ids[1..][..k + 1] == ids[..k + 2][1..] by {
        if k >= 0 { assert ids[1..][..k] == ids[1..k + 1]; }
      }
      if k < 0 then -1 else k + 1
  }

  /** k is the index of the first occurrence of x in ids. */
  predicate FirstAt(ids: seq<int>, x: int, k: int) {
    0 <= k < |ids| && ids[k] == x && x !in ids[..k]
  }

  /** Only the first occurrence, or -1 for an absent value, satisfies the contract of IndexOf. */
  lemma IndexOfUnique(ids: seq<int>, x: int, k: int)
    requires FirstAt(ids, x, k) || (k == -1 && x !in ids)
    ensures k == IndexOf(ids, x)
  {
    var i := IndexOf(ids, x);
    if 0 <= k {
      assert forall j :: 0 <= j < k ==> ids[..k][j] == ids[j];
      assert forall j :: 0 <= j < i ==> ids[..i][j] == ids[j];
    }
  }

  /**
   * Turn rotation: the id after cur in the alive list, wrapping around;
   * the first alive id when cur is not alive; cur itself when nobody is
   * alive.
   */
  function NextTurn(alive: seq<int>, cur: int): (next: int)
    ensures alive == [] ==> next == cur
    ensures alive != [] ==> next in alive
    ensures cur !in alive && alive != [] ==> next == alive[0]
  {
    if alive == [] then cur else alive[(IndexOf(alive, cur) + 1) % |alive|]
  }

  /** The index arithmetic of the rotation: the successor index wraps to 0 only past the last entry. */
  lemma WrapIndex(x: int, n: int)
    requires 0 <= x <= n && n > 0
    ensures x % n == if x == n then 0 else x
  {
    if x == n {
      assert x == n * 1 + 0;
    } else {
      assert x == n * 0 + x;
    }
  }

  /** With distinct ids, the turn passes from the i-th alive player to the next one, the last handing over to the first. */
  lemma NextTurnRotates(alive: seq<int>, i: int)
    requires Distinct(alive) && 0 <= i < |alive|
    ensures NextTurn(alive, alive[i]) == if i + 1 < |alive| then alive[i + 1] else alive[0]
  {
    assert forall j :: 0 <= j < i ==> alive[..i][j] == alive[j] != alive[i];
    IndexOfUnique(alive, alive[i], i);
    WrapIndex(i + 1, |alive|);
  }

  /** The player whose turn it is after j rotations starting at cur. */
  function TurnsAfter(alive: seq<int>, cur: int, j: nat): int {
    if j == 0 then cur else NextTurn(alive, TurnsAfter(alive, cur, j - 1))
  }

  /**
   * Starting from the first alive player, the j-th rotation hands the turn
   * to the j-th alive player, and after one full round it is back to the
   * first: every alive player gets its turn, in roster order.
   */
  lemma {:induction false} RoundRobin(alive: seq<int>, j: nat)
    requires Distinct(alive) && 0 < j <= |alive|
    ensures TurnsAfter(alive, alive[0], j) == if j < |alive| then alive[j] else alive[0]
  {
    if j == 1 {
      NextTurnRotates(alive, 0);
    } else {
      RoundRobin(alive, j - 1);
      NextTurnRotates(alive, j - 1);
    }
  }

  /** The fields a move or a neutral placement never changes. */
  predicate SameIdentity(s: PlayerSnap, t: PlayerSnap) {
    s.id == t.id && s.name == t.name && s.symbol == t.symbol && s.basePos == t.basePos
  }

  /** A player after gaining pos. */
  function Gain(s: PlayerSnap, pos: Position): (t: PlayerSnap)
    ensures t.cells == s.cells + [pos]
    ensures SameIdentity(s, t) && t.isAlive == s.isAlive && t.hasUsedNeutrals == s.hasUsedNeutrals
  {
    s.(cells := s.cells + [pos])
  }

  /** A player after RemoveCell(pos). */
  function Lose(s: PlayerSnap, pos: Position): PlayerSnap {
    var c := RemoveFirst(s.cells, pos);
    s.(cells := c, isAlive := s.isAlive && c != [])
  }

  /** Losing pos takes one copy of it out of the cells, and kills the player exactly when no cell is left. */
  lemma LoseEffect(s: PlayerSnap, pos: Position)
    ensures multiset(Lose(s, pos).cells) == multiset(s.cells) - multiset{pos}
    ensures Lose(s, pos).isAlive <==> s.isAlive && Lose(s, pos).cells != []
    ensures SameIdentity(s, Lose(s, pos)) && Lose(s, pos).hasUsedNeutrals == s.hasUsedNeutrals
  {
    RemoveFirstMultiset(s.cells, pos);
  }

  /** The roster after the player at index k makes move m, with you the bot's id (the attack victims are the bot's opponents). */
  function AfterMove(r: seq<PlayerSnap>, k: int, you: int, m: Move): seq<PlayerSnap> {
    if k < 0 || k >= |r| then r
    else
      match m.moveType
      case MoveGrow => r[k := Gain(r[k], m.position)]
      case MoveAttack =>
        var hit := Attacked(r, you, m.position);
        hit[k := Gain(hit[k], m.position)]
  }

  /** The roster after every alive player other than the bot lost pos. */
  function Attacked(r: seq<PlayerSnap>, you: int, pos: Position): (hit: seq<PlayerSnap>)
    ensures |hit| == |r|
    ensures forall j :: 0 <= j < |r| ==> hit[j] == if r[j].isAlive && r[j].id != you then Lose(r[j], pos) else r[j]
  {
    seq(|r|, j requires 0 <= j < |r| => if r[j].isAlive && r[j].id != you then Lose(r[j], pos) else r[j])
  }

  /** A grow move appends the target to the mover's cells; nobody else changes. */
  lemma GrowEffect(r: seq<PlayerSnap>, k: int, you: int, m: Move)
    requires 0 <= k < |r| && m.moveType == MoveGrow
    ensures |AfterMove(r, k, you, m)| == |r|
    ensures AfterMove(r, k, you, m)[k].cells == r[k].cells + [m.position]
    ensures forall j :: 0 <= j < |r| && j != k ==> AfterMove(r, k, you, m)[j] == r[j]
    ensures SameIdentity(r[k], AfterMove(r, k, you, m)[k])
  {
  }

  /**
   * An attack takes one copy of the target out of each alive opponent of
   * the bot, kills an opponent left with no cell, and appends the target to
   * the mover's cells; every id and base is kept.
   */
  lemma AttackEffect(r: seq<PlayerSnap>, k: int, you: int, m: Move, j: int)
    requires 0 <= k < |r| && 0 <= j < |r| && m.moveType == MoveAttack
    ensures |AfterMove(r, k, you, m)| == |r|
    ensures SameIdentity(r[j], AfterMove(r, k, you, m)[j])
    ensures j == k ==> Last(AfterMove(r, k, you, m)[j].cells) == m.position
    ensures j != k && r[j].isAlive && r[j].id != you ==>
      && multiset(AfterMove(r, k, you, m)[j].cells) == multiset(r[j].cells) - multiset{m.position}
      && (AfterMove(r, k, you, m)[j].isAlive <==> AfterMove(r, k, you, m)[j].cells != [])
    ensures j != k && !(r[j].isAlive && r[j].id != you) ==> AfterMove(r, k, you, m)[j] == r[j]
  {
    var hit := Attacked(r, you, m.position);
    assert AfterMove(r, k, you, m) == hit[k := Gain(hit[k], m.position)];
    if r[j].isAlive && r[j].id != you {
      LoseEffect(r[j], m.position);
    }
  }

  /** The ids of the roster values r, in roster order. */
  function SnapIds(r: seq<PlayerSnap>): (ids: seq<int>)
    ensures |ids| == |r| && forall k :: 0 <= k < |r| ==> ids[k] == r[k].id
  {
    seq(|r|, k requires 0 <= k < |r| => r[k].id)
  }

  /** The ids of the alive entries of r, in roster order. */
  function LivingIds(r: seq<PlayerSnap>): seq<int> {
    if r == [] then []
    else LivingIds(r[..|r| - 1]) + (if r[|r| - 1].isAlive then [r[|r| - 1].id] else [])
  }

  /** A move keeps every roster entry's id in its place. */
  lemma AfterMoveIds(r: seq<PlayerSnap>, k: int, you: int, m: Move)
    ensures SnapIds(AfterMove(r, k, you, m)) == SnapIds(r)
  {
    if 0 <= k < |r| {
      forall j | 0 <= j < |r|
        ensures AfterMove(r, k, you, m)[j].id == r[j].id
      {
        if m.moveType == MoveAttack {
          AttackEffect(r, k, you, m, j);
        }
      }
    }
  }

  function Last<T>(s: seq<T>): T
    requires s != []
  {
    s[|s| - 1]
  }

  /** The bot's value after placing neutrals on ps, one RemoveCell per position in order. */
  function LoseAll(s: PlayerSnap, ps: seq<Position>): PlayerSnap {
    if ps == [] then s else Lose(LoseAll(s, ps[..|ps| - 1]), ps[|ps| - 1])
  }

  /** Neutral placement takes one copy of each listed position out of the bot's cells. */
  lemma {:induction false} LoseAllCells(s: PlayerSnap, ps: seq<Position>)
    ensures multiset(LoseAll(s, ps).cells) == multiset(s.cells) - multiset(ps)
  {
    if ps != [] {
      var init, last := ps[..|ps| - 1], ps[|ps| - 1];
      assert multiset(ps) == multiset(init) + multiset{last} by {
        assert ps == init + [last];
      }
      LoseAllCells(s, init);
      LoseEffect(LoseAll(s, init), last);
      DifferenceOfSum(multiset(s.cells), multiset(init), multiset{last});
    }
  }

  lemma DifferenceOfSum<T>(a: multiset<T>, b: multiset<T>, c: multiset<T>)
    ensures a - b - c == a - (b + c)
  {
    forall x
      ensures (a - b - c)[x] == (a - (b + c))[x]
    {
    }
  }

  /** Neutral placement keeps the identity and the neutrals flag, never revives, and kills exactly when no cell is left. */
  lemma {:induction false} LoseAllStatus(s: PlayerSnap, ps: seq<Position>)
    ensures SameIdentity(s, LoseAll(s, ps)) && LoseAll(s, ps).hasUsedNeutrals == s.hasUsedNeutrals
    ensures LoseAll(s, ps).isAlive ==> s.isAlive
    ensures ps != [] ==> (LoseAll(s, ps).isAlive <==> s.isAlive && LoseAll(s, ps).cells != [])
  {
    if ps != [] {
      var init := ps[..|ps| - 1];
      LoseAllStatus(s, init);
      LoseEffect(LoseAll(s, init), ps[|ps| - 1]);
      if init != [] && LoseAll(s, init).cells == [] {
        assert RemoveFirst(LoseAll(s, init).cells, ps[|ps| - 1]) == [];
      }
    }
  }

  /** The roster after the bot, at index k, placed neutrals on ps. */
  function AfterNeutrals(r: seq<PlayerSnap>, k: int, ps: seq<Position>): seq<PlayerSnap> {
    if k < 0 || k >= |r| then r
    else r[k := LoseAll(r[k].(hasUsedNeutrals := true), ps)]
  }

  // ---------------------------------------------------------------------
  // The state

  /** The players of ps that are alive and whose id is not excluded, in roster order. */
  function Survivors(ps: seq<Player>, excluded: set<int>): (r: seq<Player>)
    reads ps
    ensures forall i :: 0 <= i < |r| ==> r[i] in ps && r[i].isAlive && r[i].id !in excluded
    ensures forall j :: 0 <= j < |ps| && ps[j].isAlive && ps[j].id !in excluded ==> ps[j] in r
    ensures |r| <= |ps|
    ensures Distinct(ps) ==> Distinct(r)
  {
    if ps == [] then []
    else
      var last := ps[|ps| - 1];
      var init := ps[..|ps| - 1];
      var front := Survivors(init, excluded);
      assert forall j :: 0 <= j < |ps| - 1 ==> ps[j] == init[j];
      assert Distinct(ps) ==> last !in init;
      front + (if last.isAlive && last.id !in excluded then [last] else [])
  }

  /** The ids of the players GetAlivePlayers lists are the living ids of the roster's values. */
  lemma {:induction false} SurvivorIds(ps: seq<Player>)
    ensures IdsOf(Survivors(ps, {})) == LivingIds(Snaps(ps))
    decreases |ps|
  {
    if ps != [] {
      var init, last := ps[..|ps| - 1], ps[|ps| - 1];
      SurvivorIds(init);
      assert Snaps(ps)[..|ps| - 1] == Snaps(init);
      var front := Survivors(init, {});
      var tail := if last.isAlive then [last] else [];
      assert IdsOf(front + tail) == IdsOf(front) + IdsOf(tail);
    }
  }

  class GameState {
    const board: Board
    const players: seq<Player>
    var currentPlayer: int
    const yourPlayerID: int

    /** The board is well formed and no player object is listed twice. */
    ghost predicate Valid() {
      board.Valid() && Distinct(players)
    }

    constructor (board: Board, players: seq<Player>, currentPlayer: int, yourPlayerID: int)
      ensures this.board == board && this.players == players
      ensures this.currentPlayer == currentPlayer && this.yourPlayerID == yourPlayerID
    {
      this.board := board;
      this.players := players;
      this.currentPlayer := currentPlayer;
      this.yourPlayerID := yourPlayerID;
    }

    /** The first roster entry with the given id, or null when no entry has it. */
    function GetPlayer(playerID: int): (p: Player?)
      ensures p == null <==> forall j :: 0 <= j < |players| ==> players[j].id != playerID
      ensures p != null ==> p in players && p.id == playerID
      ensures p != null ==> exists k :: 0 <= k < |players| && players[k] == p && playerID !in IdsOf(players[..k])
    {
      var k := IndexOf(IdsOf(players), playerID);
      if k < 0 then null
      else
        assert IdsOf(players[..k]) == IdsOf(players)[..k];
        players[k]
    }

    /** The first roster entry whose id is the current player's, or null. */
    function GetCurrentPlayer(): (p: Player?)
      reads this
      ensures p == null <==> forall j :: 0 <= j < |players| ==> players[j].id != currentPlayer
      ensures p != null ==> p in players && p.id == currentPlayer
    {
      GetPlayer(currentPlayer)
    }

    /** The first roster entry whose id is the bot's, or null. */
    function GetYourPlayer(): (p: Player?)
      ensures p == null <==> forall j :: 0 <= j < |players| ==> players[j].id != yourPlayerID
      ensures p != null ==> p in players && p.id == yourPlayerID
    {
      GetPlayer(yourPlayerID)
    }

    /** The bot's turn: the player to move is the bot's own roster entry. */
    function IsMyTurn(): (r: bool)
      reads this
      ensures r ==> GetCurrentPlayer() == GetYourPlayer()
    {
      currentPlayer == yourPlayerID
    }

    /** The alive players other than the bot, in roster order. */
    function GetOpponents(): (r: seq<Player>)
      reads players
      ensures forall i :: 0 <= i < |r| ==> r[i] in players && r[i].isAlive && r[i].id != yourPlayerID
      ensures forall j :: 0 <= j < |players| && players[j].isAlive && players[j].id != yourPlayerID ==> players[j] in r
    {
      Survivors(players, {yourPlayerID})
    }

    /** The alive players, in roster order. */
    function GetAlivePlayers(): (r: seq<Player>)
      reads players
      ensures forall i :: 0 <= i < |r| ==> r[i] in players && r[i].isAlive
      ensures forall j :: 0 <= j < |players| && players[j].isAlive ==> players[j] in r
    {
      Survivors(players, {})
    }

    /** A deep copy: a fresh board and fresh players holding the same values. */
    method Clone() returns (copy: GameState)
      requires Valid()
      ensures fresh(copy) && fresh(copy.board) && fresh(copy.board.cells) && copy.Valid()
      ensures forall i :: 0 <= i < |copy.players| ==> fresh(copy.players[i])
      ensures Holds(copy.players, old(Snaps(players)))
      ensures copy.board.size == board.size && copy.board.basePos == board.basePos
      ensures forall p :: copy.board.GetCell(p) == board.GetCell(p)
      ensures copy.currentPlayer == currentPlayer && copy.yourPlayerID == yourPlayerID
    {
      var newPlayers: seq<Player> := [];
      for i := 0 to |players|
        invariant |newPlayers| == i && Distinct(newPlayers)
        invariant forall k :: 0 <= k < i ==> fresh(newPlayers[k])
        invariant forall k :: 0 <= k < i ==> newPlayers[k].Snap() == players[k].Snap()
      {
        var c := players[i].Clone();
        newPlayers := newPlayers + [c];
      }
      var newBoard := board.Clone();
      copy := new GameState(newBoard, newPlayers, currentPlayer, yourPlayerID);
    }

    /** Passes the turn to the alive player after the current one in roster order (see NextTurn). */
    method AdvancePlayer()
      modifies this
      ensures currentPlayer == NextTurn(IdsOf(GetAlivePlayers()), old(currentPlayer))
    {
      var alive := GetAlivePlayers();
      ghost var ids := IdsOf(alive);
      if |alive| == 0 {
        return;
      }
      var currentIdx := -1;
      for i := 0 to |alive|
        invariant currentIdx == -1 ==> currentPlayer !in ids[..i]
        invariant currentIdx != -1 ==> FirstAt(ids, currentPlayer, currentIdx)
      {
        assert ids[..i + 1] == ids[..i] + [ids[i]];
        if alive[i].id == currentPlayer {
          currentIdx := i;
          break;
        }
      }
      if currentIdx == -1 {
        assert ids[..|alive|] == ids;
      }
      IndexOfUnique(ids, currentPlayer, currentIdx);
      var nextIdx := (currentIdx + 1) % |alive|;
      assert NextTurn(ids, currentPlayer) == ids[nextIdx];
      currentPlayer := alive[nextIdx].id;
      assert GetAlivePlayers() == alive;
    }

    /**
     * The state after the current player makes move: the receiver is left
     * alone; the copy's board keeps the receiver's cells, because the board
     * built by Board.ApplyMove is dropped; its roster is AfterMove of the
     * receiver's; and the turn advances, unless no roster entry has the
     * current id.
     */
    method ApplyMove(move: Move) returns (next: GameState)
      requires Valid()
      ensures fresh(next) && fresh(next.board) && next.Valid()
      ensures forall i :: 0 <= i < |next.players| ==> fresh(next.players[i])
      ensures next.board.size == board.size && next.board.basePos == board.basePos
      ensures forall p :: next.board.GetCell(p) == board.GetCell(p)
      ensures next.yourPlayerID == yourPlayerID
      ensures Holds(next.players, AfterMove(old(Snaps(players)), IndexOf(IdsOf(players), currentPlayer), yourPlayerID, move))
      ensures next.currentPlayer ==
        if currentPlayer !in IdsOf(players) then currentPlayer
        else NextTurn(IdsOf(next.GetAlivePlayers()), currentPlayer)
    {
      ghost var r := Snaps(players);
      ghost var k := IndexOf(IdsOf(players), currentPlayer);
      next := Clone();
      assert IdsOf(next.players) == IdsOf(players);
      var player := next.GetCurrentPlayer();
      if player == null {
        assert k == -1 && AfterMove(r, k, yourPlayerID, move) == r;
        return;
      }
      assert player == next.players[k] && currentPlayer in IdsOf(players);
      MoveTurn(next, player, k, r, move);
    }

    /**
     * ApplyMove as evidently intended: the same as ApplyMove, except that the
     * copy's board takes the board built by Board.ApplyMove, so the move's
     * position holds the mover's id when the mover is in the roster.
     */
    method ApplyMoveOnBoard(move: Move) returns (next: GameState)
      requires Valid()
      ensures fresh(next) && fresh(next.board) && next.Valid()
      ensures forall i :: 0 <= i < |next.players| ==> fresh(next.players[i])
      ensures next.board.size == board.size && next.board.basePos == board.basePos
      ensures forall p :: next.board.GetCell(p) ==
                         if currentPlayer in IdsOf(players) && p == move.position && board.IsValid(p) then currentPlayer
                         else board.GetCell(p)
      ensures next.yourPlayerID == yourPlayerID
      ensures Holds(next.players, AfterMove(old(Snaps(players)), IndexOf(IdsOf(players), currentPlayer), yourPlayerID, move))
      ensures next.currentPlayer ==
        if currentPlayer !in IdsOf(players) then currentPlayer
        else NextTurn(IdsOf(next.GetAlivePlayers()), currentPlayer)
    {
      ghost var r := Snaps(players);
      ghost var k := IndexOf(IdsOf(players), currentPlayer);
      next := Clone();
      assert IdsOf(next.players) == IdsOf(players);
      var player := next.GetCurrentPlayer();
      if player == null {
        assert k == -1 && AfterMove(r, k, yourPlayerID, move) == r;
        return;
      }
      assert player == next.players[k] && currentPlayer in IdsOf(players);
      MoveTurnOnBoard(next, player, k, r, board, move);
    }

    /**
     * The state after the bot places neutrals on positions: the receiver is
     * left alone; when the bot is in the roster, the copy's board holds the
     * neutral value on each listed in-bounds position, the bot's value is
     * AfterNeutrals of the receiver's, and the turn advances.
     */
    method ApplyNeutrals(positions: seq<Position>) returns (next: GameState)
      requires Valid()
      ensures fresh(next) && fresh(next.board) && next.Valid()
      ensures forall i :: 0 <= i < |next.players| ==> fresh(next.players[i])
      ensures next.board.size == board.size && next.board.basePos == board.basePos
      ensures forall p :: next.board.GetCell(p) ==
                         if yourPlayerID in IdsOf(players) && p in positions && board.IsValid(p) then CellNeutral
                         else board.GetCell(p)
      ensures next.yourPlayerID == yourPlayerID
      ensures Holds(next.players, AfterNeutrals(old(Snaps(players)), IndexOf(IdsOf(players), yourPlayerID), positions))
      ensures next.currentPlayer ==
        if yourPlayerID !in IdsOf(players) then currentPlayer
        else NextTurn(IdsOf(next.GetAlivePlayers()), currentPlayer)
    {
      ghost var r := Snaps(players);
      ghost var k := IndexOf(IdsOf(players), yourPlayerID);
      next := Clone();
      assert IdsOf(next.players) == IdsOf(players);
      var player := next.GetYourPlayer();
      if player == null {
        assert k == -1 && AfterNeutrals(r, k, positions) == r;
        return;
      }
      assert player == next.players[k] && yourPlayerID in IdsOf(players);
      NeutralsTurn(next, player, k, r, board, positions);
    }
  }

  /**
   * The work of ApplyMove once the current player's entry, at index k, is
   * found: the board is moved on and the result dropped, the roster is
   * updated, then the turn passes.
   */
  method MoveTurn(s: GameState, player: Player, ghost k: int, ghost r: seq<PlayerSnap>, move: Move)
    requires s.Valid() && 0 <= k < |s.players| && s.players[k] == player && Holds(s.players, r)
    modifies s, s.players
    ensures unchanged(s.board, s.board.cells)
    ensures Holds(s.players, AfterMove(r, k, s.yourPlayerID, move))
    ensures s.currentPlayer == NextTurn(IdsOf(s.GetAlivePlayers()), old(s.currentPlayer))
  {
    var discarded := s.board.ApplyMove(move.position, player.id, move.moveType == MoveAttack);
    MoveInRoster(s, player, k, r, move);
    label moved:
    s.AdvancePlayer();
    assert unchanged@moved(s.players);
  }

  /** The work of ApplyMoveOnBoard once the current player's entry, at index k, is found. */
  method MoveTurnOnBoard(s: GameState, player: Player, ghost k: int, ghost r: seq<PlayerSnap>, ghost src: Board, move: Move)
    requires s.Valid() && 0 <= k < |s.players| && s.players[k] == player && Holds(s.players, r)
    requires src.Valid() && src.size == s.board.size
    requires forall p :: s.board.GetCell(p) == src.GetCell(p)
    modifies s, s.board.cells, s.players
    ensures forall p :: s.board.GetCell(p) == if p == move.position && src.IsValid(p) then player.id else src.GetCell(p)
    ensures Holds(s.players, AfterMove(r, k, s.yourPlayerID, move))
    ensures s.currentPlayer == NextTurn(IdsOf(s.GetAlivePlayers()), old(s.currentPlayer))
  {
    s.board.SetCell(move.position, player.id);
    label placed:
    MoveInRoster(s, player, k, r, move);
    assert unchanged@placed(s.board.cells);
    label moved:
    s.AdvancePlayer();
    assert unchanged@moved(s.players) && unchanged@moved(s.board.cells);
  }

  /** The roster update of ApplyMove, made by the player at index k. */
  method MoveInRoster(s: GameState, player: Player, ghost k: int, ghost r: seq<PlayerSnap>, move: Move)
    requires s.Valid() && 0 <= k < |s.players| && s.players[k] == player && Holds(s.players, r)
    modifies s.players
    ensures Holds(s.players, AfterMove(r, k, s.yourPlayerID, move))
  {
    if move.moveType == MoveGrow {
      player.AddCell(move.position);
    } else if move.moveType == MoveAttack {
      StripOpponents(s, r, move.position);
      player.AddCell(move.position);
    }
  }

  /** The attack loop of ApplyMove: every alive opponent of the bot, as listed before the loop, loses pos. */
  method StripOpponents(s: GameState, ghost r0: seq<PlayerSnap>, pos: Position)
    requires s.Valid() && Holds(s.players, r0)
    modifies s.players
    ensures Holds(s.players, Attacked(r0, s.yourPlayerID, pos))
  {
    var opponents := s.GetOpponents();
    assert forall j :: 0 <= j < |s.players| ==> (s.players[j] in opponents <==> r0[j].isAlive && r0[j].id != s.yourPlayerID);
    for i := 0 to |opponents|
      invariant forall j :: 0 <= j < |s.players| ==>
        s.players[j].Snap() == if s.players[j] in opponents[..i] then Lose(r0[j], pos) else r0[j]
    {
      assert opponents[..i + 1] == opponents[..i] + [opponents[i]];
      opponents[i].RemoveCell(pos);
    }
    assert opponents[..|opponents|] == opponents;
  }

  /** The work of ApplyNeutrals once the bot's entry, at index k, is found: the placement, then the turn passes. */
  method NeutralsTurn(s: GameState, player: Player, ghost k: int, ghost r: seq<PlayerSnap>, ghost src: Board, positions: seq<Position>)
    requires s.Valid() && 0 <= k < |s.players| && s.players[k] == player && Holds(s.players, r)
    requires src.Valid() && src.size == s.board.size && src.cells != s.board.cells
    requires forall p :: s.board.GetCell(p) == src.GetCell(p)
    modifies s, s.board.cells, player
    ensures forall p :: s.board.GetCell(p) == if p in positions && src.IsValid(p) then CellNeutral else src.GetCell(p)
    ensures Holds(s.players, AfterNeutrals(r, k, positions))
    ensures s.currentPlayer == NextTurn(IdsOf(s.GetAlivePlayers()), old(s.currentPlayer))
  {
    PlaceNeutrals(s, player, k, r, positions);
    label placed:
    s.AdvancePlayer();
    assert unchanged@placed(s.board.cells);
    assert unchanged@placed(s.players);
  }

  /**
   * The placement of ApplyNeutrals by the player at index k: it records
   * that neutrals were used, then each position becomes neutral on the board
   * and leaves the player's cells.
   */
  method PlaceNeutrals(s: GameState, player: Player, ghost k: int, ghost r: seq<PlayerSnap>, positions: seq<Position>)
    requires s.Valid() && 0 <= k < |s.players| && s.players[k] == player && Holds(s.players, r)
    modifies s.board.cells, player
    ensures forall p :: s.board.GetCell(p) == if p in positions && s.board.IsValid(p) then CellNeutral else old(s.board.GetCell(p))
    ensures Holds(s.players, AfterNeutrals(r, k, positions))
  {
    player.hasUsedNeutrals := true;
    ghost var r0 := r[k := r[k].(hasUsedNeutrals := true)];
    for i := 0 to |positions|
      invariant forall p :: s.board.GetCell(p) == if p in positions[..i] && s.board.IsValid(p) then CellNeutral else old(s.board.GetCell(p))
      invariant player.Snap() == LoseAll(r0[k], positions[..i])
      invariant forall j :: 0 <= j < |s.players| && j != k ==> s.players[j].Snap() == r0[j]
    {
      assert positions[..i + 1] == positions[..i] + [positions[i]];
      s.board.SetCell(positions[i], CellNeutral);
      player.RemoveCell(positions[i]);
    }
    assert positions[..|positions|] == positions;
  }

  // ---------------------------------------------------------------------
  // The dropped board of ApplyMove

  /** The mover's entry in the roster ends with pos. */
  ghost predicate MoverEndsWith(ps: seq<Player>, id: int, pos: Position)
    reads ps
  {
    exists j :: 0 <= j < |ps| && ps[j].id == id && ps[j].cells != [] && Last(ps[j].cells) == pos
  }

  /**
   * As written, ApplyMove records a grow onto an empty cell in the mover's
   * cell list, but the new state's board still shows that cell empty.
   */
  method GrowMissingFromBoard(s: GameState, move: Move) returns (next: GameState)
    requires s.Valid() && s.currentPlayer in IdsOf(s.players)
    requires move.moveType == MoveGrow && s.board.IsValid(move.position) && s.board.IsEmpty(move.position)
    ensures next.board.Valid() && next.board.IsEmpty(move.position)
    ensures MoverEndsWith(next.players, s.currentPlayer, move.position)
  {
    ghost var r := Snaps(s.players);
    ghost var k := IndexOf(IdsOf(s.players), s.currentPlayer);
    next := s.ApplyMove(move);
    GrowEffect(r, k, s.yourPlayerID, move);
    assert next.players[k].Snap() == AfterMove(r, k, s.yourPlayerID, move)[k];
  }

  /** With the board kept, a grow shows on the board as the mover's id and in the mover's cell list alike. */
  method GrowOnBoard(s: GameState, move: Move) returns (next: GameState)
    requires s.Valid() && s.currentPlayer in IdsOf(s.players)
    requires move.moveType == MoveGrow && s.board.IsValid(move.position) && s.board.IsEmpty(move.position)
    ensures next.board.Valid() && next.board.GetCell(move.position) == s.currentPlayer
    ensures MoverEndsWith(next.players, s.currentPlayer, move.position)
  {
    ghost var r := Snaps(s.players);
    ghost var k := IndexOf(IdsOf(s.players), s.currentPlayer);
    next := s.ApplyMoveOnBoard(move);
    GrowEffect(r, k, s.yourPlayerID, move);
    assert next.players[k].Snap() == AfterMove(r, k, s.yourPlayerID, move)[k];
  }

  // ---------------------------------------------------------------------
  // Construction from session data

  /** The base of every roster entry, keyed by id; a later entry with the same id wins. */
  function BaseMap(infos: seq<PlayerInfo>): (m: map<int, Position>)
    ensures forall i :: 0 <= i < |infos| ==> infos[i].id in m
    ensures forall id :: id in m ==> exists i :: 0 <= i < |infos| && infos[i].id == id
  {
    if infos == [] then map[]
    else
      var last := infos[|infos| - 1];
      BaseMap(infos[..|infos| - 1])[last.id := last.position]
  }

  /** The base recorded for an id is the position of the last roster entry carrying that id. */
  lemma {:induction false} BaseMapLast(infos: seq<PlayerInfo>, i: int)
    requires 0 <= i < |infos| && forall j :: i < j < |infos| ==> infos[j].id != infos[i].id
    ensures BaseMap(infos)[infos[i].id] == infos[i].position
    decreases |infos|
  {
    var init := infos[..|infos| - 1];
    if i < |infos| - 1 {
      assert init[i] == infos[i];
      BaseMapLast(init, i);
    }
  }

  /** A state over the given grid, with one fresh player per roster entry and the bases taken from the roster. */
  method NewGameState(data: array2<CellType>, infos: seq<PlayerInfo>, currentPlayer: int, yourPlayerID: int)
    returns (s: GameState)
    requires data.Length0 == data.Length1
    ensures fresh(s) && fresh(s.board) && s.Valid()
    ensures s.board.size == data.Length0 && s.board.cells == data && s.board.basePos == BaseMap(infos)
    ensures |s.players| == |infos|
    ensures forall i :: 0 <= i < |infos| ==> fresh(s.players[i])
    ensures forall i :: 0 <= i < |infos| ==>
      s.players[i].Snap() == PlayerSnap(infos[i].id, infos[i].name, infos[i].symbol, infos[i].position, [infos[i].position], true, false)
    ensures s.currentPlayer == currentPlayer && s.yourPlayerID == yourPlayerID
  {
    var bases: map<int, Position> := map[];
    for i := 0 to |infos|
      invariant bases == BaseMap(infos[..i])
    {
      assert infos[..i + 1][..i] == infos[..i];
      bases := bases[infos[i].id := infos[i].position];
    }
    assert infos[..|infos|] == infos;
    var board := new Board.FromData(data, bases);
    var players := PlayersFromInfo(infos);
    s := new GameState(board, players, currentPlayer, yourPlayerID);
  }
}
