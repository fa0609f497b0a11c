/**
 * The "MCTS" strategy.  It builds no search tree: the playouts run by
 * each iteration are scored and the scores dropped, so the moves played
 * come from a last pass that scores every legal move ten times with a
 * noisy base value (15 for an attack, 10 for a grow, plus up to 2),
 * sorts by the mean and keeps the first count.
 *
 * The random generator is an oracle: a stream of draws and a cursor.
 * The wall clock is a parameter saying how many iterations start before
 * the deadline.  Scores are reals; floating-point rounding is not
 * modelled.
 */
module Mcts {
  import opened Boards
  import opened Rules
  import opened Players
  import opened States
  import opened Ranking
  import Heuristic

  /** The largest finite binary64 value, (2 - 2^-52) * 2^1023. */
  const MaxFloat64: real := 179769313486231570814527423731704356798070567525844996598917476803157260780028538760589558632766878171540458953514382464234321326889464182768467546703537516986049910576551282076245490090389328944075868508455133942304583236903222948165808559332123348274797826204144723168738177180919299881250404026184124858368.0

  /** Search settings; the time limit is in nanoseconds. */
  datatype MctsConfig = MctsConfig(iterations: int, timeLimit: int, explorationConst: real, maxDepth: int)

  const DefaultMctsConfig: MctsConfig := MctsConfig(1000, 1_000_000_000, 1.41, 50)

  /**
   * The pseudo-random generator: floats(k) is the k-th draw read as a
   * float in [0, 1), ints(k) the k-th draw read as a non-negative integer,
   * and drawn counts the draws taken so far.
   */
  class Random {
    const floats: nat -> real
    const ints: nat -> nat
    var drawn: nat

    constructor (floats: nat -> real, ints: nat -> nat)
      ensures this.floats == floats && this.ints == ints && drawn == 0
    {
      this.floats := floats;
      this.ints := ints;
      drawn := 0;
    }

    /** The next draw as a float. */
    method Float64() returns (u: real)
      modifies this
      ensures u == floats(old(drawn)) && drawn == old(drawn) + 1
    {
      u := floats(drawn);
      drawn := drawn + 1;
    }

    /** The next draw reduced to an index below n. */
    method Intn(n: int) returns (k: int)
      requires n > 0
      modifies this
      ensures 0 <= k < n
      ensures k == ints(old(drawn)) % n && drawn == old(drawn) + 1
    {
      k := ints(drawn) % n;
      drawn := drawn + 1;
    }
  }

  /** Every float draw lies in [0, 1), as the generator promises. */
  ghost predicate UnitDraws(floats: nat -> real) {
    forall k: nat :: 0.0 <= floats(k) < 1.0
  }

  // ---------------------------------------------------------------------
  // Noisy scoring

  /** One noisy evaluation of a move, with u the float drawn for it. */
  function NoisyScore(m: Move, u: real): real {
    (if m.moveType == MoveAttack then 15.0 else 10.0) + u * 2.0
  }

  /** The sum of n noisy evaluations of m, using the draws from start on. */
  function DrawSum(m: Move, floats: nat -> real, start: nat, n: nat): real {
    if n == 0 then 0.0 else DrawSum(m, floats, start, n - 1) + NoisyScore(m, floats(start + n - 1))
  }

  /** The mean of ten noisy evaluations of m, using the draws from start on. */
  function MeanScore(m: Move, floats: nat -> real, start: nat): real {
    DrawSum(m, floats, start, 10) / 10.0
  }

  /** The base value of a move type: 15 for an attack, 10 for a grow. */
  function Base(m: Move): real {
    if m.moveType == MoveAttack then 15.0 else 10.0
  }

  /** n noisy evaluations sum to between n times the base and n times the base plus 2n, the upper end excluded. */
  lemma {:induction false} DrawSumRange(m: Move, floats: nat -> real, start: nat, n: nat)
    requires UnitDraws(floats) && n >= 1
    ensures (n as real) * Base(m) <= DrawSum(m, floats, start, n) < (n as real) * (Base(m) + 2.0)
  {
    var u := floats(start + n - 1);
    assert Base(m) <= NoisyScore(m, u) < Base(m) + 2.0;
    if n > 1 {
      DrawSumRange(m, floats, start, n - 1);
    }
  }

  /** An attack's mean lies in [15, 17) and a grow's in [10, 12): every attack outscores every grow. */
  lemma MeanScoreRange(m: Move, floats: nat -> real, start: nat)
    requires UnitDraws(floats)
    ensures m.moveType == MoveAttack ==> 15.0 <= MeanScore(m, floats, start) < 17.0
    ensures m.moveType == MoveGrow ==> 10.0 <= MeanScore(m, floats, start) < 12.0
  {
    DrawSumRange(m, floats, start, 10);
  }

  /** Each move paired with its mean score; move i uses the ten draws from start + 10 i on. */
  function NoisyScores(ms: seq<Move>, floats: nat -> real, start: nat): (r: seq<Scored<Move>>)
    ensures |r| == |ms|
    ensures forall i :: 0 <= i < |ms| ==> r[i] == Scored(ms[i], MeanScore(ms[i], floats, start + 10 * i))
  {
    seq(|ms|, i requires 0 <= i < |ms| => Scored(ms[i], MeanScore(ms[i], floats, start + 10 * i)))
  }

  /** The moves the final pass returns: all of them when they fit, else the first count of the ranking. */
  function BestMoves(ms: seq<Move>, count: int, floats: nat -> real, start: nat): seq<Move>
    requires count >= 0
  {
    if |ms| <= count then ms else Items(SelectionSort(NoisyScores(ms, floats, start)))[..count]
  }

  function IsAttack(m: Move): bool {
    m.moveType == MoveAttack
  }

  /** Ranked by noisy means, the attacks come before the grows. */
  lemma AttacksRankFirst(ms: seq<Move>, floats: nat -> real, start: nat)
    requires UnitDraws(floats)
    ensures PFirst(SelectionSort(NoisyScores(ms, floats, start)), IsAttack)
  {
    var scored := NoisyScores(ms, floats, start);
    var ranked := SelectionSort(scored);
    SelectionSortCorrect(scored);
    NoisyScoresBanded(ms, floats, start);
    forall k | 0 <= k < |ranked|
      ensures Banded(ranked[k])
    {
      assert ranked[k] in multiset(scored);
    }
    forall i, j | 0 <= i < j < |ranked| && IsAttack(ranked[j].item)
      ensures IsAttack(ranked[i].item)
    {
      assert Banded(ranked[i]) && Banded(ranked[j]);
    }
  }

  /** Attacks score at least 15, grows less than 12. */
  ghost predicate Banded(x: Scored<Move>) {
    if IsAttack(x.item) then 15.0 <= x.score else x.score < 12.0
  }

  lemma NoisyScoresBanded(ms: seq<Move>, floats: nat -> real, start: nat)
    requires UnitDraws(floats)
    ensures forall k :: 0 <= k < |ms| ==> Banded(NoisyScores(ms, floats, start)[k])
  {
    forall k | 0 <= k < |ms|
      ensures Banded(NoisyScores(ms, floats, start)[k])
    {
      MeanScoreRange(ms[k], floats, start + 10 * k);
    }
  }

  /** Counting attacks in a list of scored moves agrees with filtering the moves. */
  lemma {:induction false} AttackCount(s: seq<Scored<Move>>)
    ensures |OfType(Items(s), MoveAttack)| == CountIf(s, IsAttack)
  {
    if s != [] {
      var init := s[..|s| - 1];
      AttackCount(init);
      assert Items(s) == Items(init) + [s[|s| - 1].item];
      OfTypeStep(Items(s), MoveAttack, |s| - 1);
      assert Items(s)[..|s| - 1] == Items(init);
      assert Items(s)[..|s|] == Items(s);
    }
  }

  /**
   * When the moves fit they are returned unchanged.  Otherwise exactly
   * count moves are returned, each taken from a different input entry.
   */
  lemma BestMovesShape(ms: seq<Move>, count: int, floats: nat -> real, start: nat)
    requires count >= 0
    ensures |ms| <= count ==> BestMoves(ms, count, floats, start) == ms
    ensures |ms| > count ==> |BestMoves(ms, count, floats, start)| == count
    ensures multiset(BestMoves(ms, count, floats, start)) <= multiset(ms)
  {
    if |ms| > count {
      var scored := NoisyScores(ms, floats, start);
      var ranked := SelectionSort(scored);
      assert Items(scored) == ms;
      SortFromPermutesItems(scored, 0);
      var all := Items(ranked);
      assert all == all[..count] + all[count..];
    }
  }

  /**
   * When the moves do not fit, the result holds as many attacks as it
   * can: the smaller of count and the number of attacks offered.
   */
  lemma BestMovesPreferAttacks(ms: seq<Move>, count: int, floats: nat -> real, start: nat)
    requires count >= 0 && |ms| > count && UnitDraws(floats)
    ensures var attacks := |OfType(ms, MoveAttack)|;
      |OfType(BestMoves(ms, count, floats, start), MoveAttack)| == if count < attacks then count else attacks
  {
    var scored := NoisyScores(ms, floats, start);
    var ranked := SelectionSort(scored);
    var total := CountIf(scored, IsAttack);
    AttacksOffered(ms, floats, start);
    SelectionSortCorrect(scored);
    CountIfPermutation(scored, ranked, IsAttack);
    AttacksRankFirst(ms, floats, start);
    PrefixCount(ranked, IsAttack, count);
    AttacksReturned(ranked, count);
  }

  lemma AttacksOffered(ms: seq<Move>, floats: nat -> real, start: nat)
    ensures |OfType(ms, MoveAttack)| == CountIf(NoisyScores(ms, floats, start), IsAttack)
  {
    AttackCount(NoisyScores(ms, floats, start));
    assert Items(NoisyScores(ms, floats, start)) == ms;
  }

  lemma AttacksReturned(ranked: seq<Scored<Move>>, count: int)
    requires 0 <= count <= |ranked|
    ensures |OfType(Items(ranked)[..count], MoveAttack)| == CountIf(ranked[..count], IsAttack)
  {
    AttackCount(ranked[..count]);
    assert Items(ranked)[..count] == Items(ranked[..count]);
  }

  // ---------------------------------------------------------------------
  // The playout as a function of the players' values

  /**
   * What a playout keeps fixed: the valid moves of every roster id (the
   * playout's board never changes), the bot's id, the integer draws, the
   * depth bound, the bound on consecutive skips, and whether a skipped turn
   * counts towards the depth bound.
   */
  datatype Course = Course(table: map<int, seq<Move>>, you: int, ints: nat -> nat, maxDepth: int, fuel: nat, counted: bool)

  /**
   * How a playout ends: the recorded winner, the alive ids when the loop
   * stopped on at most one alive player (otherwise none), and the number
   * of draws taken by then.
   */
  datatype Outcome = Outcome(winner: int, endAlive: seq<int>, drawn: nat)

  /** One pass of a playout: the loop is over with an outcome, or goes on from a new position. */
  datatype Pass =
    | Over(outcome: Outcome)
    | Goes(r: seq<PlayerSnap>, cur: int, drawn: nat, depth: int, skips: nat)

  /** The valid moves of each listed player on b. */
  ghost function MovesTable(b: Board, ids: seq<int>): (t: map<int, seq<Move>>)
    requires b.Valid()
    reads b, b.cells
    ensures forall id :: id in t <==> id in ids
  {
    map id | id in ids :: ValidMoves(b, id)
  }

  /** Two boards with the same cells give the same table. */
  lemma MovesTableSame(b1: Board, b2: Board, ids: seq<int>)
    requires SameBoard(b1, b2)
    ensures MovesTable(b1, ids) == MovesTable(b2, ids)
  {
    forall id | id in ids
      ensures ValidMoves(b1, id) == ValidMoves(b2, id)
    {
      ValidMovesSame(b1, b2, id);
    }
  }

  /** GetValidMoves on a board with the same cells as b0, for a listed player: the moves b0's table lists. */
  method TabledMoves(b: Board, playerID: int, ghost b0: Board, ghost ids: seq<int>) returns (moves: seq<Move>)
    requires SameBoard(b0, b) && playerID in ids
    ensures moves == old(MovesTable(b0, ids))[playerID]
  {
    ghost var table := MovesTable(b0, ids);
    label before:
    moves := GetValidMoves(b, playerID);
    assert unchanged@before(b0, b0.cells);
    assert MovesTable(b0, ids) == table && table[playerID] == ValidMoves(b0, playerID);
    ValidMovesSame(b0, b, playerID);
  }

  /**
   * GameState.Clone for a playout: a fresh state with the roster's values,
   * the same current player and bot id, and a board with the same moves
   * for every roster id.
   */
  method CopyState(s: GameState) returns (copy: GameState)
    requires s.Valid()
    ensures fresh(copy) && copy.Valid() && copy.yourPlayerID == s.yourPlayerID && copy.currentPlayer == s.currentPlayer
    ensures IdsOf(copy.players) == IdsOf(s.players) && Snaps(copy.players) == old(Snaps(s.players))
    ensures MovesTable(copy.board, IdsOf(copy.players)) == old(MovesTable(s.board, IdsOf(s.players)))
    ensures copy.GetCurrentPlayer() == null <==> old(s.GetCurrentPlayer()) == null
  {
    ghost var table := MovesTable(s.board, IdsOf(s.players));
    CurrentListed(s);
    copy := s.Clone();
    assert unchanged(s.board, s.board.cells) && MovesTable(s.board, IdsOf(s.players)) == table;
    assert IdsOf(copy.players) == IdsOf(s.players);
    assert SameBoard(s.board, copy.board);
    MovesTableSame(s.board, copy.board, IdsOf(s.players));
    CurrentListed(copy);
  }

  /** The current player is found exactly when its id is in the roster. */
  lemma CurrentListed(s: GameState)
    ensures s.GetCurrentPlayer() == null <==> s.currentPlayer !in IdsOf(s.players)
  {
    var p := s.GetCurrentPlayer();
    if p != null {
      var j :| 0 <= j < |s.players| && s.players[j] == p;
      assert IdsOf(s.players)[j] == p.id;
    }
  }

  /** AdvancePlayer in a playout: the board and the roster stay, and the turn passes among the alive players. */
  method PassTurn(s: GameState, ghost b0: Board)
    requires s.Valid() && SameBoard(b0, s.board)
    modifies s
    ensures s.Valid() && SameBoard(b0, s.board)
    ensures Snaps(s.players) == old(Snaps(s.players))
    ensures s.currentPlayer == NextTurn(LivingIds(Snaps(s.players)), old(s.currentPlayer))
  {
    label before:
    s.AdvancePlayer();
    assert unchanged@before(s.players);
    SurvivorIds(s.players);
  }

  /**
   * A pass of a playout whose current player, in the roster, has no moves:
   * with skipped turns not counted and no skip left the playout is over;
   * otherwise the turn passes as PassTurn says, and the state is left at
   * the position PlayPass goes on from, one level deeper when skipped
   * turns are counted and otherwise with one skip spent.
   */
  method PassSkipped(s: GameState, counted: bool, depth: int, skips: nat, ghost c: Course, ghost b0: Board,
                     ghost r: seq<PlayerSnap>, ghost cur: int, ghost drawn: nat)
    returns (done: bool, depth': int, skips': nat)
    requires s.Valid() && SameBoard(b0, s.board) && c.counted == counted && depth < c.maxDepth
    requires r == Snaps(s.players) && cur == s.currentPlayer
    requires |LivingIds(r)| > 1 && cur in SnapIds(r) && cur in c.table && c.table[cur] == []
    modifies s
    ensures s.Valid() && SameBoard(b0, s.board)
    ensures Snaps(s.players) == old(Snaps(s.players))
    ensures done ==> PlayPass(c, r, cur, drawn, depth, skips) == Over(Outcome(-1, [], drawn))
    ensures !done ==> PlayPass(c, r, cur, drawn, depth, skips) == Goes(Snaps(s.players), s.currentPlayer, drawn, depth', skips')
  {
    if !counted && skips == 0 {
      PassRunsOut(c, r, cur, drawn, depth);
      return true, depth, skips;
    }
    PassTurn(s, b0);
    if counted {
      done, depth', skips' := false, depth + 1, skips;
    } else {
      done, depth', skips' := false, depth, skips - 1;
    }
  }

  /**
   * ApplyMove in a playout, for a current player in the roster: a fresh
   * state on a board with the same cells, the roster's values as AfterMove
   * gives them and the turn passed among the players alive after the move.
   */
  method ApplyPlayed(s: GameState, move: Move, ghost b0: Board) returns (next: GameState)
    requires s.Valid() && SameBoard(b0, s.board) && s.currentPlayer in IdsOf(s.players)
    ensures fresh(next) && next.Valid() && SameBoard(b0, next.board)
    ensures next.yourPlayerID == s.yourPlayerID
    ensures Snaps(next.players) == AfterMove(old(Snaps(s.players)), IndexOf(IdsOf(s.players), s.currentPlayer), s.yourPlayerID, move)
    ensures IdsOf(next.players) == IdsOf(s.players)
    ensures next.currentPlayer == NextTurn(LivingIds(Snaps(next.players)), s.currentPlayer)
  {
    ghost var r := Snaps(s.players);
    ghost var i := IndexOf(IdsOf(s.players), s.currentPlayer);
    next := s.ApplyMove(move);
    assert Snaps(next.players) == AfterMove(r, i, s.yourPlayerID, move);
    AfterMoveIds(r, i, s.yourPlayerID, move);
    assert IdsOf(next.players) == SnapIds(Snaps(next.players));
    assert IdsOf(s.players) == SnapIds(r);
    SurvivorIds(next.players);
  }

  /**
   * One pass of the playout loop on the roster's values r, with cur to
   * move, drawn draws taken, at the given depth and with skips skips left.
   * The loop is over at the depth bound; when at most one player is alive
   * (the winner is the bot when it is that player); or when cur is not in
   * the roster.  A player without moves is skipped and the turn passes
   * among the alive players, at the next depth when skipped turns are
   * counted and otherwise spending one skip (none left ends the loop).
   * Otherwise the next integer draw picks its move, which is played as
   * ApplyMove plays it, and the turn passes among the players alive after
   * it.  A pass that goes on either goes one level deeper, taking at most
   * one draw, or stays at its depth with a skip spent and no draw.
   */
  ghost function PlayPass(c: Course, r: seq<PlayerSnap>, cur: int, drawn: nat, depth: int, skips: nat): (p: Pass)
    ensures p.Over? ==> p.outcome.drawn == drawn
    ensures p.Goes? ==> depth < c.maxDepth && drawn <= p.drawn
    ensures p.Goes? ==> (p.depth == depth + 1 && p.drawn <= drawn + 1) || (!c.counted && p.depth == depth && p.skips < skips && p.drawn == drawn)
  {
    if depth >= c.maxDepth then Over(Outcome(-1, [], drawn))
    else
      var alive := LivingIds(r);
      if |alive| <= 1 then Over(Outcome(if alive == [c.you] then c.you else -1, alive, drawn))
      else if cur !in SnapIds(r) then Over(Outcome(-1, [], drawn))
      else
        var moves := if cur in c.table then c.table[cur] else [];
        if moves == [] then
          if c.counted then Goes(r, NextTurn(alive, cur), drawn, depth + 1, skips)
          else if skips == 0 then Over(Outcome(-1, [], drawn))
          else Goes(r, NextTurn(alive, cur), drawn, depth, skips - 1)
        else
          var next := AfterMove(r, IndexOf(SnapIds(r), cur), c.you, moves[c.ints(drawn) % |moves|]);
          Goes(next, NextTurn(LivingIds(next), cur), drawn + 1, depth + 1, c.fuel)
  }

  /** A pass whose player has moves: the next draw picks the move, which is played, and the turn passes. */
  lemma PassPlays(c: Course, r: seq<PlayerSnap>, cur: int, drawn: nat, depth: int, skips: nat, moves: seq<Move>)
    requires depth < c.maxDepth && |LivingIds(r)| > 1 && cur in SnapIds(r)
    requires cur in c.table && c.table[cur] == moves && moves != []
    ensures var next := AfterMove(r, IndexOf(SnapIds(r), cur), c.you, moves[c.ints(drawn) % |moves|]);
      PlayPass(c, r, cur, drawn, depth, skips) == Goes(next, NextTurn(LivingIds(next), cur), drawn + 1, depth + 1, c.fuel)
  {
  }

  /** A pass with at most one player alive is over, won by the bot exactly when it is that player. */
  lemma PassDecided(c: Course, r: seq<PlayerSnap>, cur: int, drawn: nat, depth: int, skips: nat)
    requires depth < c.maxDepth && |LivingIds(r)| <= 1
    ensures PlayPass(c, r, cur, drawn, depth, skips) == Over(Outcome(if LivingIds(r) == [c.you] then c.you else -1, LivingIds(r), drawn))
  {
  }

  /** A pass whose player is not in the roster is over without a winner. */
  lemma PassOffRoster(c: Course, r: seq<PlayerSnap>, cur: int, drawn: nat, depth: int, skips: nat)
    requires depth < c.maxDepth && |LivingIds(r)| > 1 && cur !in SnapIds(r)
    ensures PlayPass(c, r, cur, drawn, depth, skips) == Over(Outcome(-1, [], drawn))
  {
  }

  /** A pass whose player has no moves and no skip left, skipped turns not counted: the playout is over. */
  lemma PassRunsOut(c: Course, r: seq<PlayerSnap>, cur: int, drawn: nat, depth: int)
    requires !c.counted && depth < c.maxDepth && |LivingIds(r)| > 1 && cur in SnapIds(r)
    requires cur in c.table && c.table[cur] == []
    ensures PlayPass(c, r, cur, drawn, depth, 0) == Over(Outcome(-1, [], drawn))
  {
  }

  /** The whole playout loop: PlayPass repeated until a pass is over. */
  ghost function Rollout(c: Course, r: seq<PlayerSnap>, cur: int, drawn: nat, depth: int, skips: nat): Outcome
    decreases c.maxDepth - depth, skips
  {
    match PlayPass(c, r, cur, drawn, depth, skips)
    case Over(o) => o
    case Goes(r', cur', drawn', depth', skips') => Rollout(c, r', cur', drawn', depth', skips')
  }

  /**
   * The winner of a playout is -1 or the bot's id, and it is the bot's id
   * exactly when that id is -1 or the loop stopped with the bot as the
   * sole alive player; draws are only ever taken, never given back.
   */
  lemma {:induction false} RolloutWinner(c: Course, r: seq<PlayerSnap>, cur: int, drawn: nat, depth: int, skips: nat)
    ensures var o := Rollout(c, r, cur, drawn, depth, skips);
      && |o.endAlive| <= 1 && o.drawn >= drawn
      && (o.winner == -1 || o.winner == c.you)
      && (o.winner == c.you <==> c.you == -1 || o.endAlive == [c.you])
    decreases c.maxDepth - depth, skips
  {
    var p := PlayPass(c, r, cur, drawn, depth, skips);
    if p.Goes? {
      RolloutWinner(c, p.r, p.cur, p.drawn, p.depth, p.skips);
    }
  }

  /** With skipped turns counted, a playout takes at most one draw per level left below the depth bound. */
  lemma {:induction false} RolloutCountedDraws(c: Course, r: seq<PlayerSnap>, cur: int, drawn: nat, depth: int, skips: nat)
    requires c.counted
    ensures Rollout(c, r, cur, drawn, depth, skips).drawn <= drawn + (if depth < c.maxDepth then c.maxDepth - depth else 0)
    decreases c.maxDepth - depth
  {
    var p := PlayPass(c, r, cur, drawn, depth, skips);
    if p.Goes? {
      RolloutCountedDraws(c, p.r, p.cur, p.drawn, p.depth, p.skips);
    }
  }

  /**
   * As written (skips not counted), when two or more players are alive and
   * no roster player has a move, the playout ends only because the skips
   * run out: no winner, nothing alive recorded, no draw taken.
   */
  lemma {:induction false} RolloutStalls(c: Course, r: seq<PlayerSnap>, cur: int, drawn: nat, depth: int, skips: nat)
    requires !c.counted && |LivingIds(r)| >= 2
    requires forall id :: id in c.table ==> c.table[id] == []
    ensures Rollout(c, r, cur, drawn, depth, skips) == Outcome(-1, [], drawn)
    decreases skips
  {
    if depth < c.maxDepth && cur in SnapIds(r) && skips > 0 {
      assert PlayPass(c, r, cur, drawn, depth, skips) == Goes(r, NextTurn(LivingIds(r), cur), drawn, depth, skips - 1);
      RolloutStalls(c, r, NextTurn(LivingIds(r), cur), drawn, depth, skips - 1);
    }
  }

  // ---------------------------------------------------------------------
  // The strategy

  class MctsStrategy {
    const config: MctsConfig
    const rand: Random
    const debug: bool

    /** The strategy as configured: the depth bound is always 50. */
    constructor (iterations: int, timeLimit: int, uctConst: real, rand: Random, debug: bool)
      ensures config == MctsConfig(iterations, timeLimit, uctConst, 50)
      ensures this.rand == rand && this.debug == debug
    {
      config := MctsConfig(iterations, timeLimit, uctConst, 50);
      this.rand := rand;
      this.debug := debug;
    }

    /**
     * The move decision: nothing when it is not the bot's turn, the bot is
     * not in the roster or it has no legal move; otherwise the final pass
     * over its legal moves, run on the draws left after the playouts.
     */
    method DecideMoves(state: GameState, count: int, inTime: nat, fuel: nat) returns (moves: seq<Move>, ghost start: nat)
      requires state.Valid() && count >= 0
      modifies rand
      ensures !state.IsMyTurn() || state.GetYourPlayer() == null || ValidMoves(state.board, state.yourPlayerID) == [] ==> moves == []
      ensures state.IsMyTurn() && state.GetYourPlayer() != null && ValidMoves(state.board, state.yourPlayerID) != [] ==>
        moves == BestMoves(ValidMoves(state.board, state.yourPlayerID), count, rand.floats, start)
    {
      start := rand.drawn;
      if !state.IsMyTurn() {
        return [], start;
      }
      var player := state.GetYourPlayer();
      if player == null {
        return [], start;
      }
      var validMoves := GetValidMoves(state.board, player.id);
      if |validMoves| == 0 {
        return [], start;
      }
      label listed:
      moves, start := RunMcts(state, validMoves, count, inTime, fuel);
      assert unchanged@listed(state, state.board, state.board.cells) && unchanged@listed(state.players);
    }

    /**
     * The search: when the moves fit they are returned as they are.
     * Otherwise iterations run while the clock allows (inTime of them
     * start before the deadline) and the configured number is not reached;
     * their results are dropped, so the answer is the final pass over the
     * draws that remain, whatever number of iterations ran.
     */
    method RunMcts(state: GameState, validMoves: seq<Move>, count: int, inTime: nat, fuel: nat)
      returns (moves: seq<Move>, ghost start: nat)
      requires state.Valid() && count >= 0
      modifies rand
      ensures |validMoves| <= count ==> moves == validMoves
      ensures moves == BestMoves(validMoves, count, rand.floats, start)
    {
      if |validMoves| <= count {
        return validMoves, rand.drawn;
      }
      var iterations := 0;
      while iterations < inTime && iterations < config.iterations
        decreases inTime - iterations
      {
        var discarded := Iteration(state, validMoves, fuel);
        iterations := iterations + 1;
      }
      start := rand.drawn;
      moves := SelectBestMoves(validMoves, count);
    }

    /**
     * One iteration: a playout after each legal move, keeping the best
     * playout score, which the caller drops: -1 when there are no moves,
     * else 0 or 1.
     */
    method Iteration(rootState: GameState, validMoves: seq<Move>, fuel: nat) returns (bestScore: real)
      requires rootState.Valid()
      modifies rand
      ensures bestScore == -1.0 <==> validMoves == []
      ensures bestScore == -1.0 || bestScore == 0.0 || bestScore == 1.0
    {
      bestScore := -1.0;
      for i := 0 to |validMoves|
        invariant bestScore == -1.0 <==> i == 0
        invariant bestScore == -1.0 || bestScore == 0.0 || bestScore == 1.0
      {
        var score, endAlive := SimulateRandomPlayout(rootState, validMoves[i], fuel);
        if score > bestScore {
          bestScore := score;
        }
      }
    }

    /**
     * A random playout on a copy of the state: the first move, then
     * uniformly drawn legal moves until at most one player is alive, the
     * current player is missing, or the depth bound is reached; a player
     * without moves is skipped, at most fuel times in a row.  Moves are
     * applied with GameState.ApplyMove, which keeps the board as it was, so
     * the playout's board never changes.  The score is 1 exactly when the
     * winner Rollout gives for the roster after the first move equals the
     * bot's id; so a bot id of -1 always scores 1, and any other bot scores
     * 1 exactly when the loop stops with it as the sole alive player
     * (endAlive lists the alive ids at that stop).  When the current player
     * is not in the roster the score is 0 and nothing is drawn.
     */
    method SimulateRandomPlayout(state: GameState, firstMove: Move, fuel: nat) returns (score: real, ghost endAlive: seq<int>)
      requires state.Valid()
      modifies rand
      ensures score == 0.0 || score == 1.0
      ensures |endAlive| <= 1
      ensures score == 1.0 <==>
        old(state.GetCurrentPlayer()) != null && (state.yourPlayerID == -1 || endAlive == [state.yourPlayerID])
      ensures old(state.GetCurrentPlayer()) == null ==> endAlive == [] && rand.drawn == old(rand.drawn)
      ensures old(state.GetCurrentPlayer()) != null ==>
        var r := old(AfterMove(Snaps(state.players), IndexOf(IdsOf(state.players), state.currentPlayer), state.yourPlayerID, firstMove));
        var c := Course(old(MovesTable(state.board, IdsOf(state.players))), state.yourPlayerID, rand.ints, config.maxDepth, fuel, false);
        var o := Rollout(c, r, NextTurn(LivingIds(r), old(state.currentPlayer)), old(rand.drawn), 1, fuel);
        (score == 1.0 <==> o.winner == state.yourPlayerID) && endAlive == o.endAlive && rand.drawn == o.drawn
    {
      endAlive := [];
      var simState := CopyState(state);
      var player := simState.GetCurrentPlayer();
      if player == null {
        return 0.0, endAlive;
      }
      CurrentListed(simState);
      ghost var r := old(AfterMove(Snaps(state.players), IndexOf(IdsOf(state.players), state.currentPlayer), state.yourPlayerID, firstMove));
      ghost var c := Course(old(MovesTable(state.board, IdsOf(state.players))), state.yourPlayerID, rand.ints, config.maxDepth, fuel, false);
      ghost var cur := NextTurn(LivingIds(r), old(state.currentPlayer));
      ghost var o := Rollout(c, r, cur, old(rand.drawn), 1, fuel);
      RolloutWinner(c, r, cur, old(rand.drawn), 1, fuel);
      assert AfterMove(Snaps(simState.players), IndexOf(IdsOf(simState.players), simState.currentPlayer), simState.yourPlayerID, firstMove) == r;
      var winner;
      winner, endAlive := PlayFirst(simState, firstMove, fuel, c, r, old(rand.drawn));
      assert Outcome(winner, endAlive, rand.drawn) == o;
      score := if winner == state.yourPlayerID then 1.0 else 0.0;
    }

    /**
     * The playout proper, on the copy s of the state whose current player
     * is in the roster: the first move is played as ApplyMove plays it,
     * and the playout loop runs from there; the outcome is Rollout's from
     * the roster's values after the first move.  Only draws are consumed:
     * s itself is left as it was.
     */
    method PlayFirst(s: GameState, firstMove: Move, fuel: nat, ghost c: Course, ghost r: seq<PlayerSnap>, ghost d: nat)
      returns (winner: int, ghost endAlive: seq<int>)
      requires s.Valid() && s.currentPlayer in IdsOf(s.players)
      requires c == Course(MovesTable(s.board, IdsOf(s.players)), s.yourPlayerID, rand.ints, config.maxDepth, fuel, false)
      requires r == AfterMove(Snaps(s.players), IndexOf(IdsOf(s.players), s.currentPlayer), s.yourPlayerID, firstMove)
      requires d == rand.drawn
      modifies rand
      ensures Outcome(winner, endAlive, rand.drawn) == Rollout(c, r, NextTurn(LivingIds(r), s.currentPlayer), d, 1, fuel)
    {
      var next := FirstPlayed(s, firstMove, fuel, c, r);
      winner, endAlive := PlayOut(next, fuel, c, r, next.currentPlayer, d);
    }

    /**
     * The first move of a playout played as ApplyMove plays it: a fresh
     * state at the position r, with the turn passed among the players
     * alive after the move, on a board with the same moves.
     */
    method FirstPlayed(s: GameState, firstMove: Move, fuel: nat, ghost c: Course, ghost r: seq<PlayerSnap>) returns (next: GameState)
      requires s.Valid() && s.currentPlayer in IdsOf(s.players)
      requires c == Course(MovesTable(s.board, IdsOf(s.players)), s.yourPlayerID, rand.ints, config.maxDepth, fuel, false)
      requires r == AfterMove(Snaps(s.players), IndexOf(IdsOf(s.players), s.currentPlayer), s.yourPlayerID, firstMove)
      ensures fresh(next) && next.Valid()
      ensures c == Course(MovesTable(next.board, IdsOf(next.players)), next.yourPlayerID, rand.ints, config.maxDepth, fuel, false)
      ensures Snaps(next.players) == r && next.currentPlayer == NextTurn(LivingIds(r), s.currentPlayer)
    {
      ghost var ids := IdsOf(s.players);
      ghost var b0 := s.board;
      next := ApplyPlayed(s, firstMove, b0);
      assert unchanged(b0, b0.cells) && MovesTable(b0, ids) == c.table;
      MovesTableSame(b0, next.board, ids);
    }

    /**
     * The playout loop after the first move, as written, from the state
     * whose roster's values are r, with cur to move, d draws taken, and
     * the course c of its board's moves and the generator's draws: it ends
     * as Rollout does, with skipped turns not counted towards the depth
     * bound.
     */
    method PlayOut(state: GameState, fuel: nat, ghost c: Course, ghost r: seq<PlayerSnap>, ghost cur: int, ghost d: nat)
      returns (winner: int, ghost endAlive: seq<int>)
      requires state.Valid()
      requires c == Course(MovesTable(state.board, IdsOf(state.players)), state.yourPlayerID, rand.ints, config.maxDepth, fuel, false)
      requires r == Snaps(state.players) && cur == state.currentPlayer && d == rand.drawn
      modifies state, rand
      ensures Outcome(winner, endAlive, rand.drawn) == Rollout(c, r, cur, d, 1, fuel)
    {
      ghost var ids := IdsOf(state.players);
      ghost var b0 := state.board;
      ghost var goal := Rollout(c, r, cur, d, 1, fuel);
      var simState := state;
      var depth := 1;
      winner := -1;
      endAlive := [];
      var skips := fuel;
      while depth < config.maxDepth
        invariant (simState == state || fresh(simState)) && simState.Valid()
        invariant simState.yourPlayerID == c.you && IdsOf(simState.players) == ids
        invariant SameBoard(b0, simState.board) && MovesTable(b0, ids) == c.table
        invariant Rollout(c, Snaps(simState.players), simState.currentPlayer, rand.drawn, depth, skips) == goal
        invariant winner == -1 && endAlive == []
        decreases config.maxDepth - depth, skips
      {
        var done;
        label pass:
        simState, done, winner, endAlive, depth, skips := PlayTurn(simState, false, depth, skips, fuel, c, b0, ids, Snaps(simState.players), simState.currentPlayer, rand.drawn);
        assert unchanged@pass(b0, b0.cells);
        if done {
          break;
        }
      }
    }

    /**
     * One pass of the playout loop, as PlayPass states it on the roster's
     * values: the pass that is over returns its outcome, and the pass that
     * goes on leaves the state (the one given or a fresh one) at the new
     * position.  The board keeps its cells throughout.  When counted is
     * set a skipped turn moves to the next depth; otherwise it spends one
     * of the skips left.
     */
    method PlayTurn(s: GameState, counted: bool, depth: int, skips: nat, fuel: nat, ghost c: Course, ghost b0: Board, ghost ids: seq<int>,
                    ghost r: seq<PlayerSnap>, ghost cur: int, ghost d: nat)
      returns (next: GameState, done: bool, winner: int, ghost endAlive: seq<int>, depth': int, skips': nat)
      requires s.Valid() && SameBoard(b0, s.board) && MovesTable(b0, ids) == c.table && IdsOf(s.players) == ids
      requires r == Snaps(s.players) && cur == s.currentPlayer && d == rand.drawn
      requires c.counted == counted && c.you == s.yourPlayerID && c.ints == rand.ints && c.fuel == fuel && depth < c.maxDepth
      modifies s, rand
      ensures (next == s || fresh(next)) && next.Valid() && SameBoard(b0, next.board)
      ensures next.yourPlayerID == s.yourPlayerID && IdsOf(next.players) == ids
      ensures done ==> PlayPass(c, r, cur, d, depth, skips) == Over(Outcome(winner, endAlive, rand.drawn))
      ensures !done ==> winner == -1 && endAlive == []
      ensures !done ==> PlayPass(c, r, cur, d, depth, skips) == Goes(Snaps(next.players), next.currentPlayer, rand.drawn, depth', skips')
    {
      next, done, winner, endAlive, depth', skips' := s, true, -1, [], depth, skips;
      var alive := s.GetAlivePlayers();
      SurvivorIds(s.players);
      assert IdsOf(alive) == LivingIds(r);
      if |alive| <= 1 {
        PassDecided(c, r, cur, d, depth, skips);
        endAlive := IdsOf(alive);
        if |alive| == 1 && alive[0].id == s.yourPlayerID {
          winner := s.yourPlayerID;
        }
        return;
      }
      var currentPlayer := s.GetCurrentPlayer();
      CurrentListed(s);
      if currentPlayer == null {
        assert IdsOf(s.players) == SnapIds(r);
        PassOffRoster(c, r, cur, d, depth, skips);
        return;
      }
      next, done, depth', skips' := MoveOrSkip(s, counted, depth, skips, fuel, c, b0, ids, r, cur, d);
    }

    /**
     * The rest of a pass of PlayTurn, once at least two players are alive
     * and the current player is in the roster: its valid moves are looked
     * up; without one the turn is skipped (ending the playout when no skip
     * is left), and otherwise a move is drawn and played.
     */
    method MoveOrSkip(s: GameState, counted: bool, depth: int, skips: nat, fuel: nat, ghost c: Course, ghost b0: Board, ghost ids: seq<int>,
                      ghost r: seq<PlayerSnap>, ghost cur: int, ghost d: nat)
      returns (next: GameState, done: bool, depth': int, skips': nat)
      requires s.Valid() && SameBoard(b0, s.board) && MovesTable(b0, ids) == c.table && IdsOf(s.players) == ids
      requires r == Snaps(s.players) && cur == s.currentPlayer && d == rand.drawn
      requires c.counted == counted && c.you == s.yourPlayerID && c.ints == rand.ints && c.fuel == fuel && depth < c.maxDepth
      requires |LivingIds(r)| > 1 && cur in ids
      modifies s, rand
      ensures (next == s || fresh(next)) && next.Valid() && SameBoard(b0, next.board)
      ensures next.yourPlayerID == s.yourPlayerID && IdsOf(next.players) == ids
      ensures done ==> PlayPass(c, r, cur, d, depth, skips) == Over(Outcome(-1, [], rand.drawn))
      ensures !done ==> PlayPass(c, r, cur, d, depth, skips) == Goes(Snaps(next.players), next.currentPlayer, rand.drawn, depth', skips')
    {
      next, done, depth', skips' := s, true, depth, skips;
      var moves := TabledMoves(s.board, s.currentPlayer, b0, ids);
      assert Snaps(s.players) == r && moves == c.table[cur] && IdsOf(s.players) == SnapIds(r);
      if |moves| == 0 {
        done, depth', skips' := PassSkipped(s, counted, depth, skips, c, b0, r, cur, d);
        return;
      }
      next := PassPlayed(s, moves, depth, skips, c, b0, ids, r, cur, d);
      done, depth', skips' := false, depth + 1, fuel;
    }

    /**
     * A played pass of PlayTurn: the move is drawn and played as PlayDrawn
     * says, and the state is left at the position PlayPass goes on from.
     */
    method PassPlayed(s: GameState, moves: seq<Move>, depth: int, skips: nat, ghost c: Course, ghost b0: Board, ghost ids: seq<int>,
                      ghost r: seq<PlayerSnap>, ghost cur: int, ghost d: nat)
      returns (next: GameState)
      requires s.Valid() && SameBoard(b0, s.board) && IdsOf(s.players) == ids
      requires r == Snaps(s.players) && cur == s.currentPlayer && d == rand.drawn
      requires c.you == s.yourPlayerID && c.ints == rand.ints && depth < c.maxDepth
      requires |LivingIds(Snaps(s.players))| > 1 && s.currentPlayer in ids
      requires s.currentPlayer in c.table && moves == c.table[s.currentPlayer] && moves != []
      modifies rand
      ensures fresh(next) && next.Valid() && SameBoard(b0, next.board)
      ensures next.yourPlayerID == s.yourPlayerID && IdsOf(next.players) == ids
      ensures PlayPass(c, r, cur, d, depth, skips) == Goes(Snaps(next.players), next.currentPlayer, rand.drawn, depth + 1, c.fuel)
    {
      assert IdsOf(s.players) == SnapIds(r);
      PassPlays(c, r, cur, d, depth, skips, moves);
      next := PlayDrawn(s, moves, b0, c, r, cur, d);
    }

    /**
     * One played turn of a playout, for a current player in the roster:
     * the next integer draw picks among moves, and ApplyMove plays the pick
     * on a fresh state, on a board with the same moves, with the roster's
     * values as AfterMove gives them and the turn passed among the players
     * alive after the move.
     */
    method PlayDrawn(s: GameState, moves: seq<Move>, ghost b0: Board, ghost c: Course, ghost r: seq<PlayerSnap>, ghost cur: int, ghost d: nat)
      returns (next: GameState)
      requires moves != [] && s.Valid() && SameBoard(b0, s.board) && s.currentPlayer in IdsOf(s.players)
      requires r == Snaps(s.players) && cur == s.currentPlayer && d == rand.drawn && c.ints == rand.ints && c.you == s.yourPlayerID
      modifies rand
      ensures rand.drawn == d + 1
      ensures fresh(next) && next.Valid() && SameBoard(b0, next.board)
      ensures next.yourPlayerID == s.yourPlayerID && IdsOf(next.players) == IdsOf(s.players)
      ensures Snaps(next.players) == AfterMove(r, IndexOf(SnapIds(r), cur), c.you, moves[c.ints(d) % |moves|])
      ensures next.currentPlayer == NextTurn(LivingIds(Snaps(next.players)), cur)
    {
      label before:
      var k := rand.Intn(|moves|);
      assert unchanged@before(s, s.players, b0, b0.cells, s.board, s.board.cells);
      assert IdsOf(s.players) == SnapIds(r);
      next := ApplyPlayed(s, moves[k], b0);
    }

    /**
     * The playout loop with a skipped turn counted towards the depth bound,
     * as the bound evidently intends: it ends as Rollout does with skipped
     * turns counted, so it stops after at most maxDepth - 1 passes whatever
     * the board, needs no bound on skips, and takes at most one draw per
     * pass.
     */
    method PlayOutCounted(state: GameState) returns (winner: int, ghost endAlive: seq<int>)
      requires state.Valid()
      modifies state, rand
      ensures Outcome(winner, endAlive, rand.drawn) ==
        Rollout(Course(old(MovesTable(state.board, IdsOf(state.players))), state.yourPlayerID, rand.ints, config.maxDepth, 0, true),
                old(Snaps(state.players)), old(state.currentPlayer), old(rand.drawn), 1, 0)
      ensures |endAlive| <= 1
      ensures winner == state.yourPlayerID <==> state.yourPlayerID == -1 || endAlive == [state.yourPlayerID]
      ensures winner == -1 || winner == state.yourPlayerID
      ensures rand.drawn <= old(rand.drawn) + if config.maxDepth > 1 then config.maxDepth - 1 else 0
    {
      ghost var ids := IdsOf(state.players);
      ghost var b0 := state.board;
      ghost var c := Course(MovesTable(b0, ids), state.yourPlayerID, rand.ints, config.maxDepth, 0, true);
      ghost var start := (Snaps(state.players), state.currentPlayer, rand.drawn);
      ghost var goal := Rollout(c, start.0, start.1, start.2, 1, 0);
      var simState := state;
      var depth := 1;
      winner := -1;
      endAlive := [];
      var skips := 0;
      while depth < config.maxDepth
        invariant (simState == state || fresh(simState)) && simState.Valid()
        invariant simState.yourPlayerID == c.you && IdsOf(simState.players) == ids
        invariant SameBoard(b0, simState.board) && MovesTable(b0, ids) == c.table
        invariant Rollout(c, Snaps(simState.players), simState.currentPlayer, rand.drawn, depth, skips) == goal
        invariant winner == -1 && endAlive == []
        decreases config.maxDepth - depth, skips
      {
        var done;
        label pass:
        simState, done, winner, endAlive, depth, skips := PlayTurn(simState, true, depth, skips, 0, c, b0, ids, Snaps(simState.players), simState.currentPlayer, rand.drawn);
        assert unchanged@pass(b0, b0.cells);
        if done {
          break;
        }
      }
      RolloutWinner(c, start.0, start.1, start.2, 1, 0);
      RolloutCountedDraws(c, start.0, start.1, start.2, 1, 0);
    }

    /** One noisy evaluation: 15 for an attack, 10 for a grow, plus twice a float draw. */
    method EvaluateMove(move: Move) returns (score: real)
      modifies rand
      ensures score == NoisyScore(move, rand.floats(old(rand.drawn))) && rand.drawn == old(rand.drawn) + 1
    {
      score := 0.0;
      if move.moveType == MoveAttack {
        score := score + 15.0;
      } else {
        score := score + 10.0;
      }
      var u := rand.Float64();
      score := score + u * 2.0;
    }

    /**
     * The final pass: when the moves fit they are returned as they are;
     * otherwise each is scored by the mean of ten noisy evaluations, the
     * scores are sorted in place and the first count moves returned.
     */
    method SelectBestMoves(moves: seq<Move>, count: int) returns (result: seq<Move>)
      requires count >= 0
      modifies rand
      ensures result == BestMoves(moves, count, rand.floats, old(rand.drawn))
      ensures rand.drawn == old(rand.drawn) + if |moves| <= count then 0 else 10 * |moves|
    {
      if |moves| <= count {
        return moves;
      }
      var scored := new Scored<Move>[|moves|];
      for i := 0 to |moves|
        modifies scored
        invariant forall k :: 0 <= k < i ==> scored[k] == Scored(moves[k], 0.0)
      {
        scored[i] := Scored(moves[i], 0.0);
      }
      ScoreEach(scored, moves);
      SortDescending(scored);
      result := TopItems(scored, count);
    }

    /** The moves of the first count entries, copied into a fresh result array. */
    static method TopItems(scored: array<Scored<Move>>, count: int) returns (result: seq<Move>)
      requires 0 <= count <= scored.Length
      ensures result == Items(scored[..])[..count]
    {
      var top := new Move[count];
      for i := 0 to count
        modifies top
        invariant forall k :: 0 <= k < i ==> top[k] == scored[k].item
      {
        top[i] := scored[i].item;
      }
      result := top[..];
    }

    /** The scoring loop of the final pass: entry i gets the mean of the next ten noisy evaluations of its move. */
    method ScoreEach(scored: array<Scored<Move>>, moves: seq<Move>)
      requires scored.Length == |moves|
      requires forall k :: 0 <= k < |moves| ==> scored[k] == Scored(moves[k], 0.0)
      modifies scored, rand
      ensures scored[..] == NoisyScores(moves, rand.floats, old(rand.drawn))
      ensures rand.drawn == old(rand.drawn) + 10 * |moves|
    {
      ghost var start := rand.drawn;
      for i := 0 to scored.Length
        invariant rand.drawn == start + 10 * i
        invariant forall k :: 0 <= k < i ==> scored[k] == Scored(moves[k], MeanScore(moves[k], rand.floats, start + 10 * k))
        invariant forall k :: i <= k < scored.Length ==> scored[k] == Scored(moves[k], 0.0)
      {
        var entry := scored[i];
        var sumScore := 0.0;
        for j := 0 to 10
          modifies rand
          invariant rand.drawn == start + 10 * i + j
          invariant sumScore == DrawSum(entry.item, rand.floats, start + 10 * i, j)
        {
          var e := EvaluateMove(entry.item);
          sumScore := sumScore + e;
        }
        scored[i] := entry.(score := sumScore / 10.0);
      }
      assert scored[..] == NoisyScores(moves, rand.floats, start);
    }

    /**
     * The tree policy's priority of a child; root stands for the square
     * root of log(parentVisits) / visits, which the math library computes.
     * An unvisited child gets the largest finite float.
     */
    function Uct(wins: real, visits: real, root: real): (r: real)
      ensures visits == 0.0 ==> r == MaxFloat64
    {
      if visits == 0.0 then MaxFloat64 else wins / visits + config.explorationConst * root
    }

    /** Neutral placement is the heuristic strategy's. */
    method DecideNeutrals(state: GameState) returns (result: seq<Position>)
      requires state.board.Valid()
      ensures result == Heuristic.NeutralPlan(state)
    {
      result := Heuristic.DecideNeutrals(state);
    }
  }

  /**
   * An unvisited child outranks every visited child whose win rate is at
   * most 1 and whose exploration term is a float no larger than the
   * largest float less one.
   */
  lemma UnvisitedFirst(s: MctsStrategy, wins: real, visits: real, root: real, root': real)
    requires 0.0 <= wins <= visits && visits > 0.0
    requires s.config.explorationConst * root <= MaxFloat64 - 1.0
    ensures s.Uct(wins, visits, root) <= s.Uct(0.0, 0.0, root')
  {
    assert wins / visits <= 1.0;
  }

  /**
   * As written, a skipped turn changes neither the board nor the roster and
   * does not count towards the depth bound.  So when two or more players
   * are alive (with distinct ids) and none of them has a valid move, one
   * round of the playout loop's skips, starting from the first alive
   * player, brings the loop back to exactly the state it started from: the
   * same board, the same players, the same current player and the same
   * depth.  Without a bound on skips the loop never ends.
   */
  method StalledRound(s: GameState)
    requires s.Valid()
    requires |s.GetAlivePlayers()| >= 2 && Distinct(IdsOf(s.GetAlivePlayers()))
    requires s.currentPlayer == s.GetAlivePlayers()[0].id
    requires Stuck(s.board, s.GetAlivePlayers())
    modifies s
    ensures s.GetAlivePlayers() == old(s.GetAlivePlayers())
    ensures s.currentPlayer == old(s.currentPlayer)
  {
    var start := s.GetAlivePlayers();
    ghost var ids := IdsOf(start);
    assert Distinct(ids) && s.currentPlayer == ids[0];
    var j := 0;
    while j < |start|
      invariant 0 <= j <= |ids|
      invariant s.Valid() && s.GetAlivePlayers() == start && Stuck(s.board, start)
      invariant s.currentPlayer == if j < |ids| then ids[j] else ids[0]
      invariant Distinct(ids) && ids[0] == old(s.currentPlayer)
    {
      NextTurnRotates(ids, j);
      SkipTurn(s, start);
      j := j + 1;
    }
  }

  /** No player in alive has a valid move on the board. */
  ghost predicate Stuck(b: Board, alive: seq<Player>)
    requires b.Valid()
    reads b, b.cells
  {
    forall p :: p in alive ==> ValidMoves(b, p.id) == []
  }

  /** One pass of the playout loop's body when the current player, like every alive player, has no valid move. */
  method SkipTurn(s: GameState, alive: seq<Player>)
    requires s.Valid() && s.GetAlivePlayers() == alive && |alive| >= 2
    requires s.currentPlayer in IdsOf(alive)
    requires Stuck(s.board, alive)
    modifies s
    ensures s.Valid() && s.GetAlivePlayers() == alive && Stuck(s.board, alive)
    ensures s.currentPlayer == NextTurn(IdsOf(alive), old(s.currentPlayer))
  {
    var live := s.GetAlivePlayers();
    assert |live| > 1;
    var moves := MovesOfStalled(s, alive);
    assert moves == [];
    AdvanceStuck(s, alive);
  }

  /** AdvancePlayer, which changes neither the board nor whether the players are stuck. */
  method AdvanceStuck(s: GameState, alive: seq<Player>)
    requires s.Valid() && s.GetAlivePlayers() == alive && Stuck(s.board, alive)
    modifies s
    ensures s.Valid() && s.GetAlivePlayers() == alive && Stuck(s.board, alive)
    ensures s.currentPlayer == NextTurn(IdsOf(alive), old(s.currentPlayer))
  {
    label before:
    s.AdvancePlayer();
    assert unchanged@before(s.players);
  }

  /** The current player's valid moves when no alive player has one: there are none. */
  method MovesOfStalled(s: GameState, alive: seq<Player>) returns (moves: seq<Move>)
    requires s.Valid() && s.GetAlivePlayers() == alive
    requires s.currentPlayer in IdsOf(alive)
    requires Stuck(s.board, alive)
    ensures moves == []
  {
    var current := s.GetCurrentPlayer();
    ghost var i :| 0 <= i < |alive| && alive[i].id == s.currentPlayer;
    assert alive[i] in s.players;
    moves := GetValidMoves(s.board, current.id);
    assert alive[i] in alive;
  }
}
