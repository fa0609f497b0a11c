/**
 * The heuristic strategy: every legal move gets an additive six-factor
 * score, the scored moves are ranked by the selection sort and a
 * diversity filter picks the moves to play; neutral cells go on the two
 * best-scoring candidate cells.
 *
 * Scores are modelled as reals: the weights come from the configuration
 * and every term is a weight times a small integer.
 */
module Heuristic {
  import opened Cells
  import opened Boards
  import opened Rules
  import opened Players
  import opened States
  import opened Ranking

  /** The weight of each scoring factor. */
  datatype Factors = Factors(
    territoryGain: real,
    strategicPosition: real,
    threatRemoval: real,
    connectivity: real,
    expansionPotential: real,
    defensiveValue: real)

  const DefaultFactors: Factors := Factors(1.0, 0.5, 1.5, 0.3, 0.4, 0.2)

  predicate NonNegative(f: Factors) {
    && f.territoryGain >= 0.0 && f.strategicPosition >= 0.0 && f.threatRemoval >= 0.0
    && f.connectivity >= 0.0 && f.expansionPotential >= 0.0 && f.defensiveValue >= 0.0
  }

  // ---------------------------------------------------------------------
  // Move scoring

  /** The target is not itself connected to the base, but touches a cell of the reachable territory. */
  predicate ImprovesConnectivity(s: GameState, pos: Position, playerID: int)
    requires s.board.Valid()
    reads s.board, s.board.cells
  {
    && !ConnectedToBase(s.board, playerID, pos)
    && exists c :: c in ReachableCells(s.board, playerID) && IsAdjacent(c, pos)
  }

  /**
   * Without a base entry nothing improves connectivity.  While the player
   * owns its base, every legal move improves it: the target is one king
   * move from a reachable cell and, being empty or an enemy cell, is never
   * connected to the base itself.  So the connectivity term adds the same
   * bonus to every move and never tells two moves apart.
   */
  lemma ConnectivityBonusOnEveryMove(s: GameState, m: Move, playerID: int)
    requires s.board.Valid()
    ensures playerID !in s.board.basePos ==> !ImprovesConnectivity(s, m.position, playerID)
    ensures playerID in s.board.basePos && s.board.IsOwnedBy(s.board.basePos[playerID], playerID) && m in ValidMoves(s.board, playerID)
      ==> ImprovesConnectivity(s, m.position, playerID)
  {
    var b := s.board;
    ReachableCellsMeaning(b, playerID);
    if playerID in b.basePos && b.IsOwnedBy(b.basePos[playerID], playerID) && m in ValidMoves(b, playerID) {
      ValidMovesMembership(b, playerID, m);
      ConnectedToBaseMeaning(b, playerID, m.position);
      assert IsAdjacent(m.fromCell, m.position);
      assert !b.IsOwnedBy(m.position, playerID);
    }
  }

  /**
   * The target guards the bot's own base, or touches the base of an alive
   * opponent: it is one king move from the bot's base, or on the grid and
   * one king move from an opponent's base.
   */
  function HasDefensiveValue(s: GameState, pos: Position): (r: bool)
    reads s.players
    ensures r <==> (
      && s.GetYourPlayer() != null
      && (|| Chebyshev(pos, s.GetYourPlayer().basePos) == 1
          || exists opp :: opp in s.GetOpponents() && InBounds(s.board.size, pos) && Chebyshev(opp.basePos, pos) == 1))
  {
    var player := s.GetYourPlayer();
    && player != null
    && (|| IsAdjacent(pos, player.basePos)
        || exists opp :: opp in s.GetOpponents() && pos in Neighbors(s.board.size, opp.basePos))
  }

  /** What the scoring observes about a move. */
  datatype MoveFeatures = MoveFeatures(
    corner: bool,
    edge: bool,
    attack: bool,
    improvesConnectivity: bool,
    emptyNeighbors: nat,
    defensive: bool)

  /** The observations, for the given player; an attack is told apart from a grow by its type alone. */
  function Features(s: GameState, m: Move, playerID: int): (x: MoveFeatures)
    requires s.board.Valid()
    reads s.board, s.board.cells, s.players
    ensures x.emptyNeighbors <= 8
    ensures x.corner ==> x.edge
  {
    var b := s.board;
    MoveFeatures(
      b.IsCornerPosition(m.position),
      b.IsEdgePosition(m.position),
      m.moveType == MoveAttack,
      ImprovesConnectivity(s, m.position, playerID),
      |b.EmptyNeighbors(m.position)|,
      HasDefensiveValue(s, m.position))
  }

  /**
   * The weighted sum of the six terms: territory, position, threat,
   * connectivity, expansion, defence.  Under non-negative weights a score
   * lies between the territory term and MaxMoveScore, and an attack scores
   * at least the threat term above that floor.
   */
  function Score(f: Factors, x: MoveFeatures): (r: real)
    ensures NonNegative(f) && x.emptyNeighbors <= 8 ==> 10.0 * f.territoryGain <= r <= MaxMoveScore(f)
    ensures NonNegative(f) && x.emptyNeighbors <= 8 && x.attack ==> 10.0 * f.territoryGain + 15.0 * f.threatRemoval <= r
  {
    var expansion := (x.emptyNeighbors as real) * 4.0 * f.expansionPotential;
    ScaleBound(x.emptyNeighbors, f.expansionPotential);
    assert NonNegative(f) && x.emptyNeighbors <= 8 ==> 0.0 <= expansion <= 32.0 * f.expansionPotential;
    10.0 * f.territoryGain
    + (if x.corner then 8.0 * f.strategicPosition else if x.edge then 5.0 * f.strategicPosition else 0.0)
    + (if x.attack then 15.0 * f.threatRemoval else 0.0)
    + (if x.improvesConnectivity then 3.0 * f.connectivity else 0.0)
    + expansion
    + (if x.defensive then 2.0 * f.defensiveValue else 0.0)
  }

  /**
   * The additive score of a move for the given player: under non-negative
   * weights it lies between the territory term and MaxMoveScore, and an
   * attack scores at least the threat term above that floor.
   */
  function EvaluateMove(f: Factors, s: GameState, m: Move, playerID: int): (r: real)
    requires s.board.Valid()
    reads s.board, s.board.cells, s.players
    ensures NonNegative(f) ==> 10.0 * f.territoryGain <= r <= MaxMoveScore(f)
    ensures NonNegative(f) && m.moveType == MoveAttack ==> 10.0 * f.territoryGain + 15.0 * f.threatRemoval <= r
  {
    Score(f, Features(s, m, playerID))
  }

  /** The highest score any move can get under non-negative weights. */
  function MaxMoveScore(f: Factors): real {
    10.0 * f.territoryGain + 8.0 * f.strategicPosition + 15.0 * f.threatRemoval
    + 3.0 * f.connectivity + 32.0 * f.expansionPotential + 2.0 * f.defensiveValue
  }

  /** The expansion term of at most 8 empty neighbours lies between 0 and 32 times its weight. */
  lemma ScaleBound(n: int, w: real)
    ensures 0 <= n <= 8 && w >= 0.0 ==> 0.0 <= (n as real) * 4.0 * w <= 32.0 * w
  {
    if 0 <= n <= 8 && w >= 0.0 {
      assert (n as real) * 4.0 * w == (4 * n) as real * w;
      assert 32.0 * w - (4 * n) as real * w == (32 - 4 * n) as real * w;
    }
  }

  /**
   * The score depends on the target and the move type only: an attack on
   * a cell outscores a grow onto the same cell by exactly the threat term,
   * whatever cells the two moves start from.
   */
  lemma AttackBonus(f: Factors, s: GameState, p: Position, from1: Position, from2: Position, playerID: int)
    requires s.board.Valid()
    ensures EvaluateMove(f, s, Move(p, MoveAttack, from1), playerID)
      == EvaluateMove(f, s, Move(p, MoveGrow, from2), playerID) + 15.0 * f.threatRemoval
  {
    var x := Features(s, Move(p, MoveAttack, from1), playerID);
    assert Features(s, Move(p, MoveGrow, from2), playerID) == x.(attack := false);
    ScoreAttackTerm(f, x);
  }

  /** The attack flag adds the threat term and nothing else. */
  lemma ScoreAttackTerm(f: Factors, x: MoveFeatures)
    requires x.attack
    ensures Score(f, x) == Score(f, x.(attack := false)) + 15.0 * f.threatRemoval
  {
    var y := x.(attack := false);
    assert y.corner == x.corner && y.edge == x.edge && y.improvesConnectivity == x.improvesConnectivity;
    assert y.emptyNeighbors == x.emptyNeighbors && y.defensive == x.defensive && !y.attack;
    var position := if x.corner then 8.0 * f.strategicPosition else if x.edge then 5.0 * f.strategicPosition else 0.0;
    var connectivity := if x.improvesConnectivity then 3.0 * f.connectivity else 0.0;
    var expansion := (x.emptyNeighbors as real) * 4.0 * f.expansionPotential;
    var defence := if x.defensive then 2.0 * f.defensiveValue else 0.0;
    assert Score(f, x) == 10.0 * f.territoryGain + position + 15.0 * f.threatRemoval + connectivity + expansion + defence;
    assert Score(f, y) == 10.0 * f.territoryGain + position + 0.0 + connectivity + expansion + defence;
  }

  /** With the default weights every attack outscores every grow: a grow scores at most 28.1, an attack at least 32.5. */
  lemma DefaultsRankAttacksFirst(s: GameState, attack: Move, grow: Move, playerID: int)
    requires s.board.Valid()
    requires attack.moveType == MoveAttack && grow.moveType == MoveGrow
    ensures EvaluateMove(DefaultFactors, s, attack, playerID) > EvaluateMove(DefaultFactors, s, grow, playerID)
  {
    AttackBonus(DefaultFactors, s, grow.position, grow.fromCell, grow.fromCell, playerID);
  }

  /** Each move paired with its score, in the given order. */
  function ScoreAll(f: Factors, s: GameState, moves: seq<Move>, playerID: int): (r: seq<Scored<Move>>)
    requires s.board.Valid()
    reads s.board, s.board.cells, s.players
    ensures |r| == |moves|
    ensures forall i :: 0 <= i < |moves| ==> r[i] == Scored(moves[i], EvaluateMove(f, s, moves[i], playerID))
  {
    seq(|moves|, i requires 0 <= i < |moves| reads s.board, s.board.cells, s.players =>
      Scored(moves[i], EvaluateMove(f, s, moves[i], playerID)))
  }

  /** The scored moves for the bot, or nothing when the bot is not in the roster. */
  method ScoreMoves(f: Factors, s: GameState, moves: seq<Move>) returns (scored: seq<Scored<Move>>)
    requires s.board.Valid()
    ensures s.GetYourPlayer() == null ==> scored == []
    ensures s.GetYourPlayer() != null ==> scored == ScoreAll(f, s, moves, s.yourPlayerID)
  {
    var player := s.GetYourPlayer();
    if player == null {
      return [];
    }
    ghost var all := ScoreAll(f, s, moves, player.id);
    scored := [];
    for i := 0 to |moves|
      invariant scored == all[..i]
    {
      var score := EvaluateMove(f, s, moves[i], player.id);
      assert Scored(moves[i], score) == all[i];
      ExtendPrefix(all, i);
      scored := scored + [Scored(moves[i], score)];
    }
    assert all[..|moves|] == all;
  }

  // ---------------------------------------------------------------------
  // Diversity filter

  /** The source cells of the given moves. */
  function FromCells(ms: seq<Move>): (r: set<Position>)
    ensures |r| <= |ms|
    ensures forall k :: 0 <= k < |ms| ==> ms[k].fromCell in r
  {
    if ms == [] then {} else FromCells(ms[..|ms| - 1]) + {ms[|ms| - 1].fromCell}
  }

  /**
   * The moves the filter has selected after scanning s.  Once count moves
   * are selected nothing more is taken; otherwise a move is taken when its
   * source cell is new, or when count - 1 source cells are already used.
   */
  function Pick(s: seq<Scored<Move>>, count: int): (r: seq<Move>)
    requires count >= 0
    ensures |r| <= count
  {
    if s == [] then []
    else
      var prev := Pick(s[..|s| - 1], count);
      var m := s[|s| - 1].item;
      if |prev| >= count then prev
      else if m.fromCell !in FromCells(prev) || |FromCells(prev)| >= count - 1 then prev + [m]
      else prev
  }

  lemma PickStep(s: seq<Scored<Move>>, count: int, i: int)
    requires count >= 0 && 0 <= i < |s|
    ensures Pick(s[..i + 1], count) ==
      var prev := Pick(s[..i], count);
      var m := s[i].item;
      if |prev| >= count then prev
      else if m.fromCell !in FromCells(prev) || |FromCells(prev)| >= count - 1 then prev + [m]
      else prev
  {
    assert s[..i + 1][..i] == s[..i];
  }

  /** One step of the scan below the quota, as the loop takes it. */
  lemma PickNext(s: seq<Scored<Move>>, count: int, i: int, prev: seq<Move>)
    requires count >= 0 && 0 <= i < |s| && prev == Pick(s[..i], count) && |prev| < count
    ensures var m := s[i].item;
      && FromCells(prev + [m]) == FromCells(prev) + {m.fromCell}
      && (m.fromCell !in FromCells(prev) || |FromCells(prev)| >= count - 1 ==> Pick(s[..i + 1], count) == prev + [m])
      && (m.fromCell in FromCells(prev) && |FromCells(prev)| < count - 1 ==> Pick(s[..i + 1], count) == prev)
  {
    PickStep(s, count, i);
    assert (prev + [s[i].item])[..|prev|] == prev;
  }

  /** Once count moves are selected the rest of the ranking changes nothing: the scan may stop there. */
  lemma {:induction false} PickSaturated(s: seq<Scored<Move>>, count: int, i: int)
    requires count >= 0 && 0 <= i <= |s|
    requires |Pick(s[..i], count)| >= count
    ensures Pick(s, count) == Pick(s[..i], count)
    decreases |s|
  {
    if i < |s| {
      var init := s[..|s| - 1];
      assert init[..i] == s[..i];
      PickSaturated(init, count, i);
    } else {
      assert s[..i] == s;
    }
  }

  /** The filter takes each ranked move at most as often as it occurs in the ranking. */
  lemma {:induction false} PickFromRanking(s: seq<Scored<Move>>, count: int)
    requires count >= 0
    ensures multiset(Pick(s, count)) <= multiset(Items(s))
  {
    if s != [] {
      var init := s[..|s| - 1];
      PickFromRanking(init, count);
      assert Items(s) == Items(init) + [s[|s| - 1].item];
    }
  }

  /** With room for at least one move, the top-ranked move is always selected, and first. */
  lemma {:induction false} PickKeepsTop(s: seq<Scored<Move>>, count: int)
    requires count >= 1 && s != []
    ensures Pick(s, count) != [] && Pick(s, count)[0] == s[0].item
  {
    if |s| > 1 {
      var init := s[..|s| - 1];
      PickKeepsTop(init, count);
      assert init[0] == s[0];
    } else {
      assert s[..0] == [];
    }
  }

  /** The first n of the moves start from pairwise distinct cells. */
  predicate DistinctSources(ms: seq<Move>, n: int) {
    forall i, j :: 0 <= i < j < |ms| && j < n ==> ms[i].fromCell != ms[j].fromCell
  }

  /** Among the first count - 1 selected moves no two start from the same cell. */
  lemma {:induction false} PickDiverse(s: seq<Scored<Move>>, count: int)
    requires count >= 0
    ensures DistinctSources(Pick(s, count), count - 1)
  {
    if s != [] {
      var init := s[..|s| - 1];
      PickDiverse(init, count);
      var prev := Pick(init, count);
      var sel := Pick(s, count);
      if sel != prev {
        var m := s[|s| - 1].item;
        assert |prev| < count && sel == prev + [m];
        assert m.fromCell !in FromCells(prev) || |FromCells(prev)| >= count - 1;
        forall i, j | 0 <= i < j < |sel| && j < count - 1
          ensures sel[i].fromCell != sel[j].fromCell
        {
          assert sel[i] == prev[i];
          if j == |prev| {
            assert |FromCells(prev)| < count - 1;
            assert m.fromCell !in FromCells(prev);
            assert prev[i].fromCell in FromCells(prev);
            assert sel[j] == m;
          } else {
            assert sel[j] == prev[j];
            assert prev[i].fromCell != prev[j].fromCell;
          }
        }
      }
    }
  }

  /** The moves the filter returns: all of them, unsorted, when they fit; else the filter over the ranking. */
  function DiverseMoves(s: seq<Scored<Move>>, count: int): seq<Move>
    requires count >= 0
  {
    if |s| <= count then Items(s) else Pick(SelectionSort(s), count)
  }

  /** The diversity filter; the array holds the scored moves and is sorted in place. */
  method SelectDiverseMoves(a: array<Scored<Move>>, count: int) returns (selected: seq<Move>)
    requires count >= 0
    modifies a
    ensures selected == DiverseMoves(old(a[..]), count)
  {
    if a.Length <= count {
      selected := [];
      for i := 0 to a.Length
        invariant selected == Items(a[..i])
      {
        assert Items(a[..i + 1]) == Items(a[..i]) + [a[i].item];
        selected := selected + [a[i].item];
      }
      assert a[..a.Length] == a[..];
      return;
    }
    SortDescending(a);
    selected := FilterRanked(a[..], count);
  }

  /** One scan of the ranking, stopping once count moves are selected. */
  method FilterRanked(ranked: seq<Scored<Move>>, count: int) returns (selected: seq<Move>)
    requires count >= 0
    ensures selected == Pick(ranked, count)
  {
    selected := [];
    var usedFrom: set<Position> := {};
    var i := 0;
    while i < |ranked|
      invariant 0 <= i <= |ranked|
      invariant selected == Pick(ranked[..i], count) && usedFrom == FromCells(selected)
    {
      if |selected| >= count {
        PickSaturated(ranked, count, i);
        return;
      }
      var m := ranked[i].item;
      PickNext(ranked, count, i, selected);
      if m.fromCell !in usedFrom || |usedFrom| >= count - 1 {
        selected := selected + [m];
        usedFrom := usedFrom + {m.fromCell};
      }
      i := i + 1;
    }
    assert ranked[..i] == ranked;
  }

  // ---------------------------------------------------------------------
  // Move decision

  /** The moves the heuristic strategy plays. */
  function MovePlan(f: Factors, s: GameState, count: int): seq<Move>
    requires s.Valid() && count >= 0
    reads s, s.board, s.board.cells, s.players
  {
    if !s.IsMyTurn() || s.GetYourPlayer() == null then [] else ReadyPlan(f, s, count)
  }

  /** The moves played once it is the bot's turn and the bot is in the roster. */
  function ReadyPlan(f: Factors, s: GameState, count: int): seq<Move>
    requires s.board.Valid() && count >= 0
    reads s, s.board, s.board.cells, s.players
  {
    var valid := ValidMoves(s.board, s.yourPlayerID);
    if valid == [] then [] else DiverseMoves(ScoreAll(f, s, valid, s.yourPlayerID), count)
  }

  /**
   * The filter returns nothing exactly when there is nothing to choose
   * from or no room; it returns at most count moves, each one of the
   * scored moves, and all of them in the given order when they fit.
   */
  lemma DiverseMovesSound(sc: seq<Scored<Move>>, count: int)
    requires count >= 0
    ensures var r := DiverseMoves(sc, count);
      && (r == [] <==> sc == [] || count == 0)
      && |r| <= count
      && (forall m :: m in r ==> m in Items(sc))
      && (|sc| <= count ==> r == Items(sc))
  {
    if |sc| > count {
      var ranked := SelectionSort(sc);
      SelectionSortCorrect(sc);
      PickFromRanking(ranked, count);
      var sel := Pick(ranked, count);
      forall m | m in sel
        ensures m in Items(sc)
      {
        assert m in multiset(sel);
        var k :| 0 <= k < |ranked| && ranked[k].item == m;
        assert ranked[k] in multiset(sc);
        var j :| 0 <= j < |sc| && sc[j] == ranked[k];
        assert Items(sc)[j] == m;
      }
      if count > 0 {
        PickKeepsTop(ranked, count);
      }
    }
  }

  /**
   * When the filter has to choose (more scored moves than room, room for
   * at least one), its first move is the item of a best-scoring entry,
   * and the first count - 1 moves start from distinct cells.
   */
  lemma DiverseMovesTop(sc: seq<Scored<Move>>, count: int) returns (best: int)
    requires 1 <= count < |sc|
    ensures var r := DiverseMoves(sc, count);
      && 0 <= best < |sc| && r != [] && r[0] == sc[best].item
      && (forall k :: 0 <= k < |sc| ==> sc[k].score <= sc[best].score)
      && DistinctSources(r, count - 1)
  {
    var ranked := SelectionSort(sc);
    SelectionSortCorrect(sc);
    PickKeepsTop(ranked, count);
    PickDiverse(ranked, count);
    assert ranked[0] in multiset(sc);
    best :| 0 <= best < |sc| && sc[best] == ranked[0];
    forall k | 0 <= k < |sc|
      ensures sc[k].score <= sc[best].score
    {
      var j := RankOf(sc, sc[k]);
    }
  }

  /**
   * No move is played when it is not the bot's turn, the bot is not in
   * the roster, it has no legal move, or count is 0.  Otherwise every
   * played move is one of its legal moves, at most count are played, and
   * when all legal moves fit they are all played in generation order.
   */
  lemma MovePlanSound(f: Factors, s: GameState, count: int)
    requires s.Valid() && count >= 0
    ensures var r := MovePlan(f, s, count);
      && (r == [] <==> !s.IsMyTurn() || s.GetYourPlayer() == null || ValidMoves(s.board, s.yourPlayerID) == [] || count == 0)
      && |r| <= count
      && (forall m :: m in r ==> m in ValidMoves(s.board, s.yourPlayerID))
      && (s.IsMyTurn() && s.GetYourPlayer() != null && |ValidMoves(s.board, s.yourPlayerID)| <= count
          ==> r == ValidMoves(s.board, s.yourPlayerID))
  {
    var player := s.GetYourPlayer();
    if s.IsMyTurn() && player != null {
      var valid := ValidMoves(s.board, player.id);
      var scored := ScoreAll(f, s, valid, player.id);
      assert Items(scored) == valid;
      DiverseMovesSound(scored, count);
    }
  }

  /**
   * When more legal moves exist than may be played (and at least one may
   * be), the first move played is a legal move with the highest score,
   * and the first count - 1 played moves start from distinct cells.
   */
  lemma MovePlanPrefersBest(f: Factors, s: GameState, count: int)
    requires s.Valid() && count >= 1
    requires s.IsMyTurn() && s.GetYourPlayer() != null
    requires |ValidMoves(s.board, s.yourPlayerID)| > count
    ensures PrefersBest(f, s, ValidMoves(s.board, s.yourPlayerID), MovePlan(f, s, count), count)
  {
    var valid := ValidMoves(s.board, s.yourPlayerID);
    assert MovePlan(f, s, count) == DiverseMoves(ScoreAll(f, s, valid, s.yourPlayerID), count);
    RankedPrefersBest(f, s, valid, count);
  }

  /**
   * The first of the played moves r is one of the legal moves valid and
   * none of those scores higher; the first count - 1 played moves start
   * from distinct cells.
   */
  ghost predicate PrefersBest(f: Factors, s: GameState, valid: seq<Move>, r: seq<Move>, count: int)
    requires s.board.Valid()
    reads s.board, s.board.cells, s.players
  {
    && r != [] && r[0] in valid
    && (forall i :: 0 <= i < |valid| ==> EvaluateMove(f, s, valid[i], s.yourPlayerID) <= EvaluateMove(f, s, r[0], s.yourPlayerID))
    && DistinctSources(r, count - 1)
  }

  /** MovePlanPrefersBest for any list of candidate moves. */
  lemma RankedPrefersBest(f: Factors, s: GameState, valid: seq<Move>, count: int)
    requires s.board.Valid() && 1 <= count < |valid|
    ensures PrefersBest(f, s, valid, DiverseMoves(ScoreAll(f, s, valid, s.yourPlayerID), count), count)
  {
    var sc := ScoreAll(f, s, valid, s.yourPlayerID);
    var r := DiverseMoves(sc, count);
    var best := DiverseMovesTop(sc, count);
    assert r[0] == valid[best] by {
      assert sc[best] == Scored(valid[best], EvaluateMove(f, s, valid[best], s.yourPlayerID));
    }
    forall i | 0 <= i < |valid|
      ensures EvaluateMove(f, s, valid[i], s.yourPlayerID) <= EvaluateMove(f, s, r[0], s.yourPlayerID)
    {
      assert sc[i].score <= sc[best].score;
    }
  }

  /** The heuristic strategy's move decision. */
  method DecideMoves(f: Factors, s: GameState, count: int) returns (moves: seq<Move>)
    requires s.Valid() && count >= 0
    ensures moves == MovePlan(f, s, count)
  {
    if !s.IsMyTurn() {
      return [];
    }
    var player := s.GetYourPlayer();
    if player == null {
      return [];
    }
    moves := PlanMoves(f, s, count);
  }

  /** The legal moves of the bot, ranked and filtered. */
  method PlanMoves(f: Factors, s: GameState, count: int) returns (moves: seq<Move>)
    requires s.board.Valid() && count >= 0 && s.GetYourPlayer() != null
    ensures moves == ReadyPlan(f, s, count)
  {
    var validMoves := GetValidMoves(s.board, s.yourPlayerID);
    if |validMoves| == 0 {
      return [];
    }
    label listed:
    moves := RankMoves(f, s, validMoves, count);
    assert unchanged@listed(s.board, s.board.cells);
    assert ValidMoves(s.board, s.yourPlayerID) == validMoves;
  }

  /** Scores the legal moves and runs the diversity filter over them. */
  method RankMoves(f: Factors, s: GameState, validMoves: seq<Move>, count: int) returns (moves: seq<Move>)
    requires s.board.Valid() && count >= 0 && s.GetYourPlayer() != null
    ensures moves == DiverseMoves(ScoreAll(f, s, validMoves, s.yourPlayerID), count)
  {
    var scoredMoves := ScoreMoves(f, s, validMoves);
    moves := SelectFromScored(scoredMoves, count);
  }

  /** The diversity filter over a fresh array holding the scored moves. */
  method SelectFromScored(scored: seq<Scored<Move>>, count: int) returns (selected: seq<Move>)
    requires count >= 0
    ensures selected == DiverseMoves(scored, count)
  {
    var a := new Scored<Move>[|scored|](i requires 0 <= i < |scored| => scored[i]);
    assert a[..] == scored;
    selected := SelectDiverseMoves(a, count);
  }

  // ---------------------------------------------------------------------
  // Neutral placement

  /**
   * The position neighbours the stored base of ourID (the origin when
   * there is none): it is on the grid and one king move from that cell.
   * The opponent is not consulted.
   */
  function BlocksPathToBase(s: GameState, pos: Position, opponentID: int, ourID: int): (r: bool)
    reads s.board
    ensures r <==> (
      && InBounds(s.board.size, pos)
      && Chebyshev(if ourID in s.board.basePos then s.board.basePos[ourID] else Position(0, 0), pos) == 1)
  {
    var ourBase := if ourID in s.board.basePos then s.board.basePos[ourID] else Position(0, 0);
    pos in Neighbors(s.board.size, ourBase)
  }

  /** 20 points per listed opponent whose path the position blocks. */
  function BlockScore(s: GameState, pos: Position, opponents: seq<Player>, ourID: int): int
    reads s.board
  {
    if opponents == [] then 0
    else
      BlockScore(s, pos, opponents[..|opponents| - 1], ourID)
      + (if BlocksPathToBase(s, pos, opponents[|opponents| - 1].id, ourID) then 20 else 0)
  }

  /**
   * Blocking ignores the opponent, so the blocking term is all or
   * nothing: 20 per opponent exactly when the position is on the grid one
   * king move from the stored base.
   */
  lemma {:induction false} BlockScoreUniform(s: GameState, pos: Position, opponents: seq<Player>, ourID: int)
    ensures BlockScore(s, pos, opponents, ourID) ==
      if InBounds(s.board.size, pos) && ourID in s.board.basePos && Chebyshev(s.board.basePos[ourID], pos) == 1
      then 20 * |opponents|
      else if InBounds(s.board.size, pos) && ourID !in s.board.basePos && Chebyshev(Position(0, 0), pos) == 1
      then 20 * |opponents|
      else 0
  {
    if opponents != [] {
      BlockScoreUniform(s, pos, opponents[..|opponents| - 1], ourID);
    }
  }

  /** How many of the positions lie on the board's edge. */
  function EdgeCount(b: Board, ps: seq<Position>): (n: nat)
    ensures n <= |ps|
  {
    if ps == [] then 0
    else EdgeCount(b, ps[..|ps| - 1]) + (if b.IsEdgePosition(ps[|ps| - 1]) then 1 else 0)
  }

  /** At least two of the position's neighbours are edge cells: two distinct on-grid cells one king move away lie on the edge. */
  function CreatesChokepoint(b: Board, pos: Position): (r: bool)
    ensures r <==> exists x, y :: x in Neighbors(b.size, pos) && y in Neighbors(b.size, pos) && x != y && b.IsEdgePosition(x) && b.IsEdgePosition(y)
  {
    EdgePair(b, Neighbors(b.size, pos));
    EdgeCount(b, Neighbors(b.size, pos)) >= 2
  }

  /** Among distinct positions, at least two edge cells are counted exactly when two distinct ones are listed. */
  lemma EdgePair(b: Board, ps: seq<Position>)
    requires Distinct(ps)
    ensures EdgeCount(b, ps) >= 2 <==> exists x, y :: x in ps && y in ps && x != y && b.IsEdgePosition(x) && b.IsEdgePosition(y)
  {
    if EdgeCount(b, ps) >= 2 {
      var x, y := EdgeWitnesses(b, ps);
    } else if x, y :| x in ps && y in ps && x != y && b.IsEdgePosition(x) && b.IsEdgePosition(y) {
      EdgeCountTwo(b, ps, x, y);
    }
  }

  /** Two distinct edge cells among distinct positions counted at least twice. */
  lemma {:induction false} EdgeWitnesses(b: Board, ps: seq<Position>) returns (x: Position, y: Position)
    requires Distinct(ps) && EdgeCount(b, ps) >= 2
    ensures x in ps && y in ps && x != y && b.IsEdgePosition(x) && b.IsEdgePosition(y)
  {
    var init, last := ps[..|ps| - 1], ps[|ps| - 1];
    assert ps == init + [last];
    assert Distinct(init) && last !in init;
    if b.IsEdgePosition(last) {
      x := EdgeWitness(b, init);
      y := last;
    } else {
      x, y := EdgeWitnesses(b, init);
    }
  }

  /** An edge cell among positions counted at least once. */
  lemma {:induction false} EdgeWitness(b: Board, ps: seq<Position>) returns (x: Position)
    requires EdgeCount(b, ps) >= 1
    ensures x in ps && b.IsEdgePosition(x)
  {
    var init, last := ps[..|ps| - 1], ps[|ps| - 1];
    if b.IsEdgePosition(last) {
      x := last;
    } else {
      x := EdgeWitness(b, init);
    }
  }

  lemma {:induction false} EdgeCountNone(b: Board, ps: seq<Position>)
    requires forall q :: q in ps ==> !b.IsEdgePosition(q)
    ensures EdgeCount(b, ps) == 0
  {
    if ps != [] {
      EdgeCountNone(b, ps[..|ps| - 1]);
    }
  }

  lemma {:induction false} EdgeCountOne(b: Board, ps: seq<Position>, x: Position)
    requires x in ps && b.IsEdgePosition(x)
    ensures EdgeCount(b, ps) >= 1
  {
    if ps[|ps| - 1] != x {
      assert x in ps[..|ps| - 1];
      EdgeCountOne(b, ps[..|ps| - 1], x);
    }
  }

  lemma {:induction false} EdgeCountTwo(b: Board, ps: seq<Position>, x: Position, y: Position)
    requires x in ps && y in ps && x != y && b.IsEdgePosition(x) && b.IsEdgePosition(y)
    ensures EdgeCount(b, ps) >= 2
  {
    var init, last := ps[..|ps| - 1], ps[|ps| - 1];
    assert ps == init + [last];
    if last == x {
      EdgeCountOne(b, init, y);
    } else if last == y {
      EdgeCountOne(b, init, x);
    } else {
      EdgeCountTwo(b, init, x, y);
    }
  }

  /** Two distinct edge cells one king move from pos make it a chokepoint. */
  lemma TwoEdgeNeighbours(b: Board, pos: Position, x: Position, y: Position)
    requires InBounds(b.size, x) && InBounds(b.size, y) && x != y
    requires Chebyshev(pos, x) == 1 && Chebyshev(pos, y) == 1
    requires b.IsEdgePosition(x) && b.IsEdgePosition(y)
    ensures CreatesChokepoint(b, pos)
  {
    EdgeCountTwo(b, Neighbors(b.size, pos), x, y);
  }

  /**
   * The chokepoint test never looks at who owns anything: on a board of
   * size at least 2 a grid cell is a chokepoint exactly when it lies
   * within one row or column of the edge.
   */
  lemma ChokepointIffNearEdge(b: Board, pos: Position)
    requires b.size >= 2 && InBounds(b.size, pos)
    ensures CreatesChokepoint(b, pos) <==>
      !(2 <= pos.row <= b.size - 3 && 2 <= pos.col <= b.size - 3)
  {
    var n, r, c := b.size, pos.row, pos.col;
    if 2 <= r <= n - 3 && 2 <= c <= n - 3 {
      EdgeCountNone(b, Neighbors(n, pos));
    } else if r == 0 || r == n - 1 || c == 0 || c == n - 1 {
      ChokepointOnEdge(b, pos);
    } else {
      ChokepointBesideEdge(b, pos);
    }
  }

  lemma ChokepointOnEdge(b: Board, pos: Position)
    requires b.size >= 2 && InBounds(b.size, pos)
    requires pos.row == 0 || pos.row == b.size - 1 || pos.col == 0 || pos.col == b.size - 1
    ensures CreatesChokepoint(b, pos)
  {
    var n, r, c := b.size, pos.row, pos.col;
    if r == 0 || r == n - 1 {
      var r' := if r == 0 then 1 else r - 1;
      if c == 0 || c == n - 1 {
        var c' := if c == 0 then 1 else c - 1;
        TwoEdgeNeighbours(b, pos, Position(r, c'), Position(r', c));
      } else {
        TwoEdgeNeighbours(b, pos, Position(r, c - 1), Position(r, c + 1));
      }
    } else {
      TwoEdgeNeighbours(b, pos, Position(r - 1, c), Position(r + 1, c));
    }
  }

  lemma ChokepointBesideEdge(b: Board, pos: Position)
    requires b.size >= 2 && 1 <= pos.row <= b.size - 2 && 1 <= pos.col <= b.size - 2
    requires !(2 <= pos.row <= b.size - 3 && 2 <= pos.col <= b.size - 3)
    ensures CreatesChokepoint(b, pos)
  {
    var n, r, c := b.size, pos.row, pos.col;
    if r == 1 {
      TwoEdgeNeighbours(b, pos, Position(0, c - 1), Position(0, c));
    } else if r == n - 2 {
      TwoEdgeNeighbours(b, pos, Position(n - 1, c - 1), Position(n - 1, c));
    } else if c == 1 {
      TwoEdgeNeighbours(b, pos, Position(r - 1, 0), Position(r, 0));
    } else {
      assert c == n - 2;
      TwoEdgeNeighbours(b, pos, Position(r - 1, n - 1), Position(r, n - 1));
    }
  }

  /**
   * The integer score of a cell as a place for a neutral, between -10
   * (next to the bot's own base and nothing else) and 49 plus 20 per
   * alive opponent.
   */
  function EvaluateNeutralPosition(s: GameState, pos: Position, playerID: int): (r: int)
    requires s.board.Valid()
    reads s.board, s.board.cells, s.players
    ensures -10 <= r <= 20 * |s.GetOpponents()| + 49
  {
    BlockScoreUniform(s, pos, s.GetOpponents(), playerID);
    var b := s.board;
    var player := s.GetYourPlayer();
    BlockScore(s, pos, s.GetOpponents(), playerID)
    + (if CreatesChokepoint(b, pos) then 15 else 0)
    + (if b.IsCornerPosition(pos) then 10 else 0)
    + 3 * |b.EmptyNeighbors(pos)|
    - (if player != null && IsAdjacent(pos, player.basePos) then 10 else 0)
  }

  /** Each candidate cell paired with its score, in the given order. */
  function ScoreNeutrals(s: GameState, ps: seq<Position>, playerID: int): (r: seq<Scored<Position>>)
    requires s.board.Valid()
    reads s.board, s.board.cells, s.players
    ensures |r| == |ps|
    ensures forall i :: 0 <= i < |ps| ==> r[i] == Scored(ps[i], EvaluateNeutralPosition(s, ps[i], playerID) as real)
  {
    seq(|ps|, i requires 0 <= i < |ps| reads s.board, s.board.cells, s.players =>
      Scored(ps[i], EvaluateNeutralPosition(s, ps[i], playerID) as real))
  }

  /** Where the heuristic strategy places its two neutrals, or nothing. */
  function NeutralPlan(s: GameState): seq<Position>
    requires s.board.Valid()
    reads s.board, s.board.cells, s.players
  {
    var player := s.GetYourPlayer();
    if player == null || player.hasUsedNeutrals then []
    else
      var valid := NeutralPositions(s.board, player.id);
      if |valid| < 2 then []
      else
        var ranked := SelectionSort(ScoreNeutrals(s, valid, player.id));
        [ranked[0].item, ranked[1].item]
  }

  lemma {:induction false} DistinctMultiplicity<T>(s: seq<T>, x: T)
    requires Distinct(s)
    ensures multiset(s)[x] <= 1
  {
    if s != [] {
      var init := s[..|s| - 1];
      assert s == init + [s[|s| - 1]];
      DistinctMultiplicity(init, x);
      if s[|s| - 1] == x {
        assert x !in init;
      }
    }
  }

  lemma RepeatMultiplicity<T>(t: seq<T>, i: int, j: int)
    requires 0 <= i < j < |t| && t[i] == t[j]
    ensures multiset(t)[t[i]] >= 2
  {
    assert t == t[..j] + [t[j]] + t[j + 1..];
    assert t[i] in t[..j];
  }

  /**
   * Over entries that are pairwise distinct, the first two of the ranking
   * are two different entries, in order of score, and no other entry
   * scores more than the second.
   */
  lemma TopTwoOfRanking<T>(sc: seq<Scored<T>>) returns (first: int, second: int)
    requires |sc| >= 2 && Distinct(sc)
    ensures 0 <= first < |sc| && 0 <= second < |sc| && first != second
    ensures SelectionSort(sc)[0] == sc[first] && SelectionSort(sc)[1] == sc[second]
    ensures sc[second].score <= sc[first].score
    ensures forall k :: 0 <= k < |sc| && k != first && k != second ==> sc[k].score <= sc[second].score
  {
    var ranked := SelectionSort(sc);
    SelectionSortCorrect(sc);
    assert ranked[0] in multiset(sc) && ranked[1] in multiset(sc);
    first :| 0 <= first < |sc| && sc[first] == ranked[0];
    second :| 0 <= second < |sc| && sc[second] == ranked[1];
    if first == second {
      RepeatMultiplicity(ranked, 0, 1);
      DistinctMultiplicity(sc, ranked[0]);
      assert false;
    }
    forall k | 0 <= k < |sc| && k != first && k != second
      ensures sc[k].score <= sc[second].score
    {
      var j := RankOf(sc, sc[k]);
    }
  }

  /**
   * No neutrals when the bot is missing, has used its neutrals, or has
   * fewer than two eligible cells.  Otherwise the placement is the top
   * two of the eligible cells (TopTwoOf).
   */
  lemma NeutralPlanTopTwo(s: GameState)
    requires s.board.Valid()
    ensures var r, player := NeutralPlan(s), s.GetYourPlayer();
      && (r == [] <==> player == null || player.hasUsedNeutrals || |NeutralPositions(s.board, player.id)| < 2)
      && (r != [] ==> TopTwoOf(s, NeutralPositions(s.board, player.id), r, player.id))
  {
    var player := s.GetYourPlayer();
    if player != null && !player.hasUsedNeutrals && |NeutralPositions(s.board, player.id)| >= 2 {
      RankedTopTwo(s, NeutralPositions(s.board, player.id), player.id);
    }
  }

  /**
   * r is two distinct cells of valid, the first scoring at least as much
   * as the second, and no other cell of valid scoring more than the second.
   */
  ghost predicate TopTwoOf(s: GameState, valid: seq<Position>, r: seq<Position>, id: int)
    requires s.board.Valid()
    reads s.board, s.board.cells, s.players
  {
    && |r| == 2 && r[0] != r[1] && r[0] in valid && r[1] in valid
    && EvaluateNeutralPosition(s, r[1], id) <= EvaluateNeutralPosition(s, r[0], id)
    && forall i :: 0 <= i < |valid| && valid[i] != r[0] && valid[i] != r[1] ==>
         EvaluateNeutralPosition(s, valid[i], id) <= EvaluateNeutralPosition(s, r[1], id)
  }

  /** The first two of the ranking of any distinct candidate cells are their top two. */
  lemma RankedTopTwo(s: GameState, valid: seq<Position>, id: int)
    requires s.board.Valid() && |valid| >= 2 && Distinct(valid)
    ensures var ranked := SelectionSort(ScoreNeutrals(s, valid, id));
      TopTwoOf(s, valid, [ranked[0].item, ranked[1].item], id)
  {
    var scored := ScoreNeutrals(s, valid, id);
    assert Distinct(scored) by {
      forall i, j | 0 <= i < j < |scored|
        ensures scored[i] != scored[j]
      {
        assert scored[i].item == valid[i] && scored[j].item == valid[j];
      }
    }
    var first, second := TopTwoOfRanking(scored);
    assert scored[first].item == valid[first] && scored[second].item == valid[second];
  }

  /** The heuristic strategy's neutral placement. */
  method DecideNeutrals(s: GameState) returns (result: seq<Position>)
    requires s.board.Valid()
    ensures result == NeutralPlan(s)
  {
    var player := s.GetYourPlayer();
    if player == null || player.hasUsedNeutrals {
      return [];
    }
    var validPositions := GetNeutralPositions(s.board, player.id);
    if |validPositions| < 2 {
      return [];
    }
    result := RankNeutrals(s, validPositions, player.id);
  }

  /** Scores the candidate cells and keeps the two best. */
  method RankNeutrals(s: GameState, ps: seq<Position>, playerID: int) returns (result: seq<Position>)
    requires s.board.Valid() && |ps| >= 2
    ensures var ranked := SelectionSort(ScoreNeutrals(s, ps, playerID));
      result == [ranked[0].item, ranked[1].item]
  {
    var scored := ScoreNeutralPositions(s, ps, playerID);
    label scoredAll:
    result := TopTwo(scored);
    assert unchanged@scoredAll(s.board, s.board.cells) && unchanged@scoredAll(s.players);
  }

  /** Each candidate cell paired with its score. */
  method ScoreNeutralPositions(s: GameState, ps: seq<Position>, playerID: int) returns (scored: seq<Scored<Position>>)
    requires s.board.Valid()
    ensures scored == ScoreNeutrals(s, ps, playerID)
  {
    ghost var all := ScoreNeutrals(s, ps, playerID);
    scored := [];
    for i := 0 to |ps|
      invariant scored == all[..i]
    {
      var score := EvaluateNeutralPosition(s, ps[i], playerID);
      assert Scored(ps[i], score as real) == all[i];
      ExtendPrefix(all, i);
      scored := scored + [Scored(ps[i], score as real)];
    }
    assert all[..|ps|] == all;
  }

  /** The two best-ranked cells: the scores are sorted in place in a fresh array and the first two taken. */
  method TopTwo(scored: seq<Scored<Position>>) returns (result: seq<Position>)
    requires |scored| >= 2
    ensures result == [SelectionSort(scored)[0].item, SelectionSort(scored)[1].item]
  {
    var a := new Scored<Position>[|scored|](i requires 0 <= i < |scored| => scored[i]);
    assert a[..] == scored;
    SortDescending(a);
    result := [];
    var i := 0;
    while i < 2 && i < a.Length
      invariant 0 <= i <= 2 && i <= a.Length
      invariant result == Items(a[..i])
    {
      assert Items(a[..i + 1]) == Items(a[..i]) + [a[i].item];
      result := result + [a[i].item];
      i := i + 1;
    }
    assert result == [a[0].item, a[1].item];
  }
}
