# virusbot core, modelled in Dafny

virusbot is a bot for the "virus" territory game: players own cells on a
square grid, grow into empty neighbouring cells, attack enemy cells next to
their territory, and may once turn two of their own cells into neutral
walls. A move is legal only from a cell that a chain of the player's own
cells links to the player's base. The bot decides its moves with one of
two strategies: a weighted heuristic, or a Monte Carlo search with noisy
evaluation.

This project models the core of the bot:

- the bit-field decoding of a cell value (`cells.dfy`, module `Cells`);
- the board with its neighbourhood queries and row-major scans (`board.dfy`, `Boards`);
- the breadth-first searches over a player's territory, proved equal to reachability by chains of owned cells (`territory.dfy`, `Territory`);
- players (`player.dfy`, `Players`);
- the move rules (`rules.dfy`, `Rules`);
- the game state with turn rotation, moves and neutral placement (`state.dfy`, `States`);
- the selection sort and counting facts the strategies rank with (`ranking.dfy`, `Ranking`);
- the heuristic strategy (`evaluator.dfy`, `Heuristic`);
- the Monte Carlo strategy (`mcts.dfy`, `Mcts`).

Objects that the program updates in place are classes:

- `Board`: its grid is an `array2`.
- `Player`: its cell list is a `seq` field.
- `GameState`.
- `MctsStrategy` and its random generator.

Most of their methods are proved against functional specifications: a
method's result and new state are stated as a function of its inputs and
old state. The Monte Carlo playout, for instance, ends with the outcome of
`Mcts.Rollout`, the playout loop written as a recursive function over the
players' values. The properties the program relies on are then proved
about those specifications. Examples:

- a legal move starts from a cell linked to the base;
- the turn passes round-robin over the living players;
- the heuristic's choice contains the best-scored move, and its first count-1 picks use distinct source cells (once count-1 distinct sources are chosen, the program admits a repeated source);
- the Monte Carlo choice takes attacks before grows.

Both strategies rank with the program's own hand-written selection sort
(internal/strategy/evaluator.go:198-206 and 257-265,
internal/strategy/mcts.go:194-202). The model reproduces that sort pass
for pass, including its order for equal scores: each pass swaps in the
first entry of highest score, because the comparison is strict
(`Ranking.ArgMax`). The properties of the rankings are proved about this
sort (`Ranking.SelectionSort`).

Two searches decide whether a cell belongs to a player's territory:

- the base-connectivity search (`ConnectedToBase`);
- the reachable-cells search (`ReachableCells`).

When the player still owns its base cell, the two searches agree (`Rules.ReachableIffConnected`).

When the base cell has been lost (neutralised):

- the connectivity search still treats the base position as connected to itself;
- the reachable-cells search never lists it;
- instead, it starts from the player's first cell in row-major order.

`Rules.LostBaseDisagreement` proves this difference.

## Model

| member | source | states |
|---|---|---|
| Cells.Player | internal/protocol/messages.go:63-65 | the owner id is a four-bit field, between 0 and 15 |
| Cells.Flag | internal/protocol/messages.go:68-70 | the flag field is always one of normal, base, fortified, killed |
| Cells.DecodeIsMasking | internal/protocol/messages.go:37-70 | on a byte, decoding equals masking with 0x0F for the owner and 0x30 for the flag |
| Cells.ThroughLowByte | internal/protocol/messages.go:63-70 | truncating a value to its low byte first does not change either decoded field |
| Cells.LowByteOnly | internal/protocol/messages.go:63-70 | values 256 apart decode to the same owner and flag |
| Cells.FieldsIndependent | internal/protocol/messages.go:37-70 | packing any owner id 0..15 with any flag decodes back to that id and that flag |
| Cells.IsBase | internal/protocol/messages.go:73-75 | a value is a base exactly when its flag field (bits 4-5) is 1 |
| Cells.IsFortified | internal/protocol/messages.go:78-80 | a value is fortified exactly when its flag field is 2 |
| Cells.IsKilled | internal/protocol/messages.go:83-85 | a value is killed exactly when its flag field is 3 |
| Cells.CanBeAttacked | internal/protocol/messages.go:88-90 | a cell is attackable exactly when it is neither base, fortified nor killed |
| Cells.ExactlyOneStatus | internal/protocol/messages.go:73-90 | every value has exactly one of the statuses base, fortified, killed, attackable |
| Cells.PlainValues | internal/protocol/messages.go:53-61 | the plain values empty, players 1-4 and neutral carry the normal flag and decode to themselves |
| Boards.Board.constructor | internal/game/board.go:20-34 | a new board is n by n, all cells empty, with no bases |
| Boards.Board.FromData | internal/game/board.go:37-44 | a board built over given data uses that grid and base map, sized by the grid |
| Boards.Board.IsValid | internal/game/board.go:62-65 | a position is valid exactly when both coordinates lie in 0..size-1 |
| Boards.Board.GetCell | internal/game/board.go:47-52 | reading off the board gives the empty cell |
| Boards.Board.SetCell | internal/game/board.go:55-59 | only the written on-board position changes; writing off the board changes nothing |
| Boards.Board.IsEmpty | internal/game/board.go:68-70 | an off-board position counts as empty; an empty cell has owner 0 and is attackable |
| Boards.Board.IsNeutral | internal/game/board.go:80-82 | a neutral cell is on the board, has owner 5 and is attackable |
| Boards.Board.IsOwnedBy | internal/game/board.go:73-77 | an owned cell is on the board, not empty, and carries the player's id; a neutral cell is owned by nobody |
| Boards.Board.IsOpponent | internal/game/board.go:85-93 | an opponent cell is on the board, occupied, not neutral, not the player's, and attackable |
| Boards.Neighbors | internal/game/board.go:96-118 | the neighbours are exactly the on-board positions one king move away, at most 8, without repeats |
| Boards.Board.GetNeighbors | internal/game/board.go:96-118 | the method's result is exactly the neighbour list `Neighbors` specifies |
| Boards.Board.AdjacentWith | internal/game/board.go:121-130 | the filtered neighbours are exactly those holding the given cell value |
| Boards.Board.GetAdjacentCells | internal/game/board.go:121-130 | the result is the neighbours, in neighbour order, holding the given cell value |
| Boards.Board.EmptyNeighbors | internal/game/board.go:133-135 | the empty neighbours are exactly the on-board empty cells one king move away, at most 8 |
| Boards.Board.GetEmptyNeighbors | internal/game/board.go:133-135 | the result is the empty-neighbour list |
| Boards.Board.OpponentsAmong | internal/game/board.go:138-147 | the filtered neighbours are exactly the opponent cells among them |
| Boards.Board.GetOpponentNeighbors | internal/game/board.go:138-147 | the result is the neighbours, in neighbour order, that are opponent cells |
| Boards.Board.Clone | internal/game/board.go:150-167 | the copy has a fresh grid with the same size, the same cells and the same bases |
| Boards.Board.ApplyMove | internal/game/board.go:170-175 | the new fresh board differs from the old only at the move's position, which holds the player id |
| Boards.Board.CellsWhere | internal/game/board.go:178-216 | a scan of the first r rows lists exactly the matching cells, in strict row-major order |
| Boards.Board.RowWhere | internal/game/board.go:178-216 | a scan of one row lists exactly that row's matching cells, left to right |
| Boards.Board.CountCells | internal/game/board.go:178-189 | the count is the number of on-board cells carrying the player's id |
| Boards.Board.PlayerCells | internal/game/board.go:192-203 | the player's cells are exactly the on-board positions carrying its id, row-major and distinct |
| Boards.Board.GetPlayerCells | internal/game/board.go:192-203 | the method returns the player's cells in row-major order |
| Boards.Board.EmptyCells | internal/game/board.go:206-216 | the empty cells are exactly the on-board empty positions, row-major and distinct |
| Boards.Board.GetEmptyCells | internal/game/board.go:206-216 | the method returns the empty cells in row-major order |
| Boards.Board.IsEdgePosition | internal/game/board.go:219-222 | an on-board position is an edge exactly when one of its eight neighbours lies off the board |
| Boards.Board.IsCornerPosition | internal/game/board.go:219-228 | every corner is an edge position |
| Boards.SortedIsDistinct | internal/game/board.go:178-216 | a row-major sorted list of positions has no repeats |
| Territory.LinkedStep | internal/game/rules.go:57-90 | a chain of owned cells extends by any owned neighbour of its end |
| Territory.ConnLoopSound | internal/game/rules.go:57-90 | when the connectivity search finds the target, a chain of owned cells links it to the start |
| Territory.ConnLoopComplete | internal/game/rules.go:57-90 | when a chain links the target to the start, the connectivity search finds it |
| Territory.ConnLoopMeaning | internal/game/rules.go:57-90 | the search from the start succeeds exactly when a chain of owned cells links start and target |
| Territory.ClosedHoldsLinked | internal/game/rules.go:57-133 | a visited set closed under owned neighbours contains every cell linked to a visited start |
| Territory.ReachLoopInvariant | internal/game/rules.go:93-133 | the reachable-cells search lists each cell once and lists exactly the linked cells |
| Territory.ReachLoopMeaning | internal/game/rules.go:93-133 | the search from a start lists the start first and then, once each, exactly the cells linked to it |
| Territory.ConnLoopStep | internal/game/rules.go:67-87 | one round of the connectivity search dequeues a cell, marks it visited and enqueues its unvisited owned neighbours |
| Territory.ReachLoopStep | internal/game/rules.go:114-130 | one round of the reachable search skips a visited cell, or records it and enqueues its owned unvisited neighbours |
| Territory.StepFacts | internal/game/rules.go:67-87 | each search round either visits a new cell or shrinks the unvisited part of the queue, so the search terminates |
| Players.Player.constructor | internal/game/player.go:19-28 | a new player owns only its base cell, is alive, and has not used neutrals |
| Players.PlayerFromInfo | internal/game/player.go:31-36 | a player built from a roster entry has that entry's id, name, symbol and base, and owns only the base |
| Players.PlayersFromInfo | internal/game/player.go:88-94 | one fresh, distinct player per roster entry, in roster order |
| Players.Player.AddCell | internal/game/player.go:39-41 | the position is appended to the cells; liveness and neutral use are unchanged |
| Players.Player.RemoveCell | internal/game/player.go:44-54 | the first copy of the position leaves the cells; the player stays alive only while cells remain |
| Players.RemoveFirstMultiset | internal/game/player.go:44-54 | removing takes exactly one copy of the position out of the cells, and shortens them only if it was present |
| Players.RemoveFirstAt | internal/game/player.go:44-54 | removal cuts out exactly the first occurrence of the position |
| Players.RemoveFirstAbsent | internal/game/player.go:44-54 | removing an absent position leaves the cells unchanged |
| Players.Player.CellCount | internal/game/player.go:57-59 | the count is the length of the cell list |
| Players.ScanFor | internal/game/player.go:62-69 | the scan finds the position exactly when it occurs in the rest of the list |
| Players.Player.HasBase | internal/game/player.go:62-69 | a player has its base exactly when the base position is among its cells |
| Players.Player.Clone | internal/game/player.go:72-85 | the copy is a fresh player with every field equal |
| Rules.IsAdjacent | internal/game/rules.go:48-53 | two positions are adjacent exactly when they are one king move apart |
| Rules.AdjacentSymmetricIrreflexive | internal/game/rules.go:48-53 | adjacency is symmetric, and no position is adjacent to itself |
| Rules.Owned | internal/game/rules.go:57-90 | a player's territory is exactly the cells it owns, all on the board |
| Rules.ConnectedToBaseMeaning | internal/game/rules.go:57-90 | a cell is connected exactly when the player has a base and a chain of owned cells links the base to it; the base is connected to itself; every other connected cell is owned |
| Rules.IsConnectedToBase | internal/game/rules.go:57-90 | the breadth-first search returns the connectivity the specification defines |
| Rules.EnqueueOwned | internal/game/rules.go:78-86 | the queue grows by the unvisited owned neighbours, in neighbour order |
| Rules.ReachStart | internal/game/rules.go:94-108 | the search starts from a valid cell carrying the player's id |
| Rules.ReachableCellsMeaning | internal/game/rules.go:93-133 | no base, or no cells at all, gives nothing; otherwise the start comes first, each cell once, exactly the cells linked to the start, all carrying the player's id |
| Rules.GetReachableCells | internal/game/rules.go:93-133 | the method returns the reachable cells the specification defines |
| Rules.ReachFrom | internal/game/rules.go:110-132 | the search loop returns the list the functional search from the start gives |
| Rules.ReachableIffConnected | internal/game/rules.go:57-133 | while the base is owned, a cell is reachable exactly when it is connected to the base |
| Rules.LostBaseDisagreement | internal/game/rules.go:57-133 | with the base cell lost, the base counts as connected but is never listed as reachable |
| Rules.CarriesIdIsOwned | internal/game/rules.go:93-133 | for a real player id, carrying the id means being owned |
| Rules.ValidMove | internal/game/rules.go:23-45 | a move is legal exactly when its target is on the board, its source is linked to the base, the two are adjacent, and the target is empty or an attackable enemy cell with the matching move type |
| Rules.Placements | internal/game/rules.go:143-157 | placements without territory are exactly grow moves onto each listed cell from itself |
| Rules.MovesFrom | internal/game/rules.go:160-186 | the generated moves are exactly the claimable moves onto neighbours of the listed sources |
| Rules.ValidMovesMembership | internal/game/rules.go:136-189 | with no territory, a move is valid exactly when it places on an empty cell; otherwise exactly when it claims a neighbour of a reachable cell |
| Rules.ValidMovesAreTheLegalMoves | internal/game/rules.go:23-45 | while the base is owned, the generated moves are exactly the moves the legality check accepts |
| Rules.PlacementsFailValidMove | internal/game/rules.go:23-45 | placements offered without territory, away from the base are moves the legality check rejects |
| Rules.GetValidMoves | internal/game/rules.go:136-189 | the method returns the generated move list the specification defines |
| Rules.FirstMoves | internal/game/rules.go:143-157 | without territory, the moves are placements on every empty cell in row-major order |
| Rules.MovesFromCell | internal/game/rules.go:162-185 | the moves from one source are its claimable neighbours, in neighbour order |
| Rules.OfType | internal/game/rules.go:192-213 | the filter keeps exactly the moves of the given type |
| Rules.OfTypePartition | internal/game/rules.go:192-213 | attacks and grows together are a permutation of all the moves |
| Rules.FilterMoves | internal/game/rules.go:192-213 | the filtering loop returns the moves of the given type, in order |
| Rules.GetAttackMoves | internal/game/rules.go:192-201 | the attack moves are the valid moves of type attack |
| Rules.GetGrowMoves | internal/game/rules.go:204-213 | the grow moves are the valid moves of type grow |
| Rules.CanPlaceNeutrals | internal/game/rules.go:216-224 | neutrals can be placed exactly when the player holds at least two distinct cells |
| Rules.NeutralPositions | internal/game/rules.go:227-238 | the candidates are exactly the on-board cells carrying the player's id that are not already neutral, without repeats |
| Rules.NeutralPositionsAreOwned | internal/game/rules.go:227-238 | for a real player, the candidates are exactly the cells it owns |
| Rules.GetNeutralPositions | internal/game/rules.go:227-238 | the method returns the neutral candidates the specification defines |
| Rules.IsAlive | internal/game/rules.go:241-244 | a player is alive exactly when some on-board cell carries its id |
| Rules.EmptyCellKeepsIdZeroAlive | internal/game/rules.go:241-244 | id 0 counts as alive whenever an empty cell exists |
| Rules.AliveIds | internal/game/rules.go:247-266 | the listed ids are exactly the non-excluded roster ids whose player is alive |
| Rules.GetAlivePlayers | internal/game/rules.go:247-255 | the living players are the roster ids alive on the board, in roster order |
| Rules.GetOpponents | internal/game/rules.go:258-266 | the opponents are the living roster ids other than the player, in roster order |
| Rules.OpponentsAreOtherAlive | internal/game/rules.go:247-266 | the opponents are exactly the living players with the player's own id removed |
| States.IndexOf | internal/game/state.go:58-65 | the index is that of the first roster entry with the id, or -1 when none has it |
| States.IndexOfUnique | internal/game/state.go:58-65 | only the first occurrence, or -1 when absent, meets the index contract |
| States.GameState.GetPlayer | internal/game/state.go:58-65 | the result is null exactly when no entry has the id; otherwise it is the first entry with that id |
| States.GameState.GetCurrentPlayer | internal/game/state.go:38-45 | the result is null exactly when no entry is the current player; otherwise an entry with that id |
| States.GameState.GetYourPlayer | internal/game/state.go:48-55 | the result is null exactly when no entry is the bot; otherwise an entry with the bot's id |
| States.Survivors | internal/game/state.go:73-92 | the filtered roster holds exactly the alive, non-excluded players, without repeats |
| States.GameState.IsMyTurn | internal/game/state.go:68-70 | when it is the bot's turn, the current player entry is the bot's entry |
| States.GameState.GetOpponents | internal/game/state.go:73-81 | the opponents are exactly the alive roster players other than the bot |
| States.GameState.GetAlivePlayers | internal/game/state.go:84-92 | the alive players are exactly the roster players marked alive |
| States.GameState.Clone | internal/game/state.go:95-107 | the copy has a fresh board and fresh players equal field by field, and the same turn and bot ids |
| States.NextTurn | internal/game/state.go:138-156 | with nobody alive the turn stays; otherwise it goes to a living player, the first one when the current player is dead |
| States.NextTurnRotates | internal/game/state.go:138-156 | the turn passes from each living player to the next one in roster order, wrapping to the first |
| States.RoundRobin | internal/game/state.go:138-156 | starting from the first living player, the j-th rotation reaches the j-th one, and a full round returns to the first |
| States.GameState.AdvancePlayer | internal/game/state.go:138-156 | the current player becomes the next turn among the living players |
| States.Gain | internal/game/state.go:110-135 | a gained cell is appended, and nothing else about the player changes |
| States.LoseEffect | internal/game/player.go:44-54 | losing a cell removes one copy of it and kills the player exactly when no cell remains |
| States.Attacked | internal/game/state.go:123-128 | on an attack, every living player other than the bot loses the target cell and nobody else changes |
| States.GrowEffect | internal/game/state.go:110-135 | a grow appends the target to the mover's cells and changes no other player |
| States.AttackEffect | internal/game/state.go:110-135 | on an attack, the mover ends holding the target; other living non-bot players lose one copy of it and die when emptied; the rest are unchanged |
| States.GameState.ApplyMove | internal/game/state.go:110-135 | as written: the new state's board is an unchanged copy, the roster is updated by the move, and the turn advances when the mover is in the roster |
| States.GrowMissingFromBoard | internal/game/state.go:110-135 | as written, a grow onto an empty cell ends the mover's cell list but leaves the board cell empty |
| States.GameState.ApplyMoveOnBoard | internal/game/state.go:110-135 | corrected: as ApplyMove, but the board also shows the move's position holding the mover's id |
| States.GrowOnBoard | internal/game/state.go:110-135 | corrected, a grow shows as the mover's id on the board and as the last of the mover's cells |
| States.LoseAllCells | internal/game/state.go:159-178 | placing neutrals takes one copy of each listed position out of the bot's cells |
| States.LoseAllStatus | internal/game/state.go:159-178 | neutral placement keeps the player's identity, never revives it, and kills it exactly when no cell remains |
| States.GameState.ApplyNeutrals | internal/game/state.go:159-178 | the new state turns the listed on-board cells neutral when the bot is in the roster, removes them from the bot, marks neutrals used, and advances the turn |
| States.BaseMap | internal/game/state.go:16-24 | every roster id has a base entry, and every entry comes from the roster |
| States.BaseMapLast | internal/game/state.go:16-24 | an id's base is the position of its last roster entry |
| States.NewGameState | internal/game/state.go:16-35 | a new state is built over the grid, with bases from the roster, one fresh player per entry, and the given turn and bot ids |
| Ranking.ArgMax | internal/strategy/evaluator.go:198-206 | the chosen index holds the highest score, and no earlier index has it |
| Ranking.SwapPermutes | internal/strategy/evaluator.go:198-206 | swapping two entries keeps the same multiset |
| Ranking.RoundSettles | internal/strategy/evaluator.go:198-206 | one selection round keeps the settled prefix and settles one more entry |
| Ranking.SelectionSortCorrect | internal/strategy/evaluator.go:198-206 | the ranking is a permutation of the scored candidates with scores never increasing |
| Ranking.RankOf | internal/strategy/evaluator.go:198-206 | every candidate appears in the ranking, with nothing lower before it and nothing higher after it |
| Ranking.SortDescending | internal/strategy/mcts.go:194-202 | sorting the array in place leaves the ranking of its old contents |
| Ranking.CountIfPermutation | internal/strategy/mcts.go:194-208 | permuting candidates does not change how many satisfy a property |
| Ranking.PrefixCount | internal/strategy/mcts.go:205-208 | when the candidates satisfying a property come first, the first c contain min(c, total) of them |
| Ranking.PrefixCoversMatches | internal/strategy/mcts.go:205-208 | with the matching candidates first, a prefix that stops before a non-match holds all of them |
| Heuristic.ImprovesConnectivity | internal/strategy/evaluator.go:143-158 | the bonus applies when the target is not connected to the base but touches a reachable cell |
| Heuristic.ConnectivityBonusOnEveryMove | internal/strategy/evaluator.go:143-158 | without a base the bonus never applies; with the base owned, every valid move earns it |
| Heuristic.Features | internal/strategy/evaluator.go:102-140 | a move sees at most 8 empty neighbours, and a corner is always an edge |
| Heuristic.Score | internal/strategy/evaluator.go:102-140 | with non-negative weights, a score lies between the territory gain and the sum of all maximal terms; an attack adds at least the threat term |
| Heuristic.EvaluateMove | internal/strategy/evaluator.go:102-140 | with non-negative weights every move's score lies in those bounds, and every attack's score includes the threat term |
| Heuristic.HasDefensiveValue | internal/strategy/evaluator.go:161-184 | a cell has defensive value exactly when the bot is in the roster and the cell is next to the bot's base, or it is on the board and next to the base of an opponent |
| Heuristic.AttackBonus | internal/strategy/evaluator.go:102-140 | an attack on a cell scores exactly the threat weight times 15 above a grow onto the same cell |
| Heuristic.DefaultsRankAttacksFirst | internal/strategy/evaluator.go:19-28 | under the default weights, any attack scores strictly above any grow on the same state |
| Heuristic.ScoreAll | internal/strategy/evaluator.go:83-99 | each move is paired with its own score, in order |
| Heuristic.ScoreMoves | internal/strategy/evaluator.go:83-99 | without the bot in the roster nothing is scored; otherwise every move is scored for the bot |
| Heuristic.FromCells | internal/strategy/evaluator.go:209-222 | every picked move's source cell is recorded, and no more cells than moves |
| Heuristic.Pick | internal/strategy/evaluator.go:209-222 | the filter never takes more than the requested count |
| Heuristic.PickFromRanking | internal/strategy/evaluator.go:209-222 | every picked move comes from the ranking, each no more often than it occurs there |
| Heuristic.PickKeepsTop | internal/strategy/evaluator.go:209-222 | the top-ranked move is always picked first |
| Heuristic.PickDiverse | internal/strategy/evaluator.go:209-222 | the first count-1 picks use pairwise distinct source cells |
| Heuristic.FilterRanked | internal/strategy/evaluator.go:209-222 | the filtering loop returns the diverse pick of the ranking |
| Heuristic.SelectDiverseMoves | internal/strategy/evaluator.go:187-225 | sorting the array in place and filtering gives the diverse selection of the original scores |
| Heuristic.DiverseMovesSound | internal/strategy/evaluator.go:187-225 | the selection is empty exactly when there is nothing to choose or count is 0, never exceeds count, takes only offered moves, and returns all of them when they fit |
| Heuristic.DiverseMovesTop | internal/strategy/evaluator.go:187-225 | when choosing fewer than offered, the first chosen move has the highest score, and the sources are diverse |
| Heuristic.MovePlanSound | internal/strategy/evaluator.go:57-80 | the plan is empty exactly when it is not the bot's turn, the bot is absent, no move is valid or count is 0; otherwise it holds at most count valid moves, and all of them when they fit |
| Heuristic.MovePlanPrefersBest | internal/strategy/evaluator.go:57-80 | when more moves are valid than wanted, the plan starts with a best-scored valid move and uses diverse sources |
| Heuristic.RankedPrefersBest | internal/strategy/evaluator.go:187-225 | ranking and filtering any move list starts with a best-scored move and keeps sources diverse |
| Heuristic.DecideMoves | internal/strategy/evaluator.go:57-80 | the heuristic's answer is its move plan |
| Heuristic.PlanMoves | internal/strategy/evaluator.go:67-79 | on the bot's turn, the answer is nothing without valid moves, otherwise the ranked diverse selection |
| Heuristic.RankMoves | internal/strategy/evaluator.go:73-79 | scoring and selecting gives the diverse selection of the scored moves |
| Heuristic.SelectFromScored | internal/strategy/evaluator.go:187-225 | copying into an array, sorting and filtering gives the diverse selection |
| Heuristic.BlockScoreUniform | internal/strategy/evaluator.go:280-326 | the blocking term counts 20 for every opponent exactly when the cell is on the board and next to the bot's base (or next to the origin when the bot has no base), else 0 |
| Heuristic.BlocksPathToBase | internal/strategy/evaluator.go:313-326 | a cell blocks the path exactly when it is on the board and next to the bot's base, or next to the origin when the bot has no base |
| Heuristic.CreatesChokepoint | internal/strategy/evaluator.go:329-341 | a cell is a chokepoint exactly when two distinct of its on-board neighbours are edge positions |
| Heuristic.EdgeCount | internal/strategy/evaluator.go:329-341 | no more edge cells than neighbours are counted |
| Heuristic.TwoEdgeNeighbours | internal/strategy/evaluator.go:329-341 | two distinct on-board edge neighbours make a chokepoint |
| Heuristic.ChokepointIffNearEdge | internal/strategy/evaluator.go:329-341 | a cell is a chokepoint exactly when it lies within one row or column of the edge, that is outside the inner square 2..size-3 |
| Heuristic.EvaluateNeutralPosition | internal/strategy/evaluator.go:277-310 | a neutral position scores between -10 and 20 per opponent plus 49 |
| Heuristic.ScoreNeutrals | internal/strategy/evaluator.go:247-254 | each candidate is paired with its own position score, in order |
| Heuristic.NeutralPlanTopTwo | internal/strategy/evaluator.go:234-274 | the plan is empty exactly when the bot is absent, has used neutrals, or has fewer than two candidates; otherwise it is two distinct candidates that no other outscores |
| Heuristic.RankedTopTwo | internal/strategy/evaluator.go:257-271 | the top two of a ranked distinct list are distinct candidates that no other outscores |
| Heuristic.TopTwoOfRanking | internal/strategy/evaluator.go:257-271 | the first two ranked entries are two distinct entries of the list, in score order, above every other |
| Heuristic.DecideNeutrals | internal/strategy/evaluator.go:234-274 | the method returns the neutral plan |
| Heuristic.RankNeutrals | internal/strategy/evaluator.go:247-271 | scoring, sorting and taking two gives the top two of the ranking |
| Heuristic.ScoreNeutralPositions | internal/strategy/evaluator.go:247-254 | the loop scores every candidate, in order |
| Heuristic.TopTwo | internal/strategy/evaluator.go:257-271 | sorting and taking two gives the first two of the ranking |
| Mcts.Random.Float64 | internal/strategy/mcts.go:214-228 | each float draw reads the next value of the stream and advances it by one |
| Mcts.Random.Intn | internal/strategy/mcts.go:116-164 | each bounded draw is in 0..n-1, reads the next value of the stream and advances it by one |
| Mcts.DrawSumRange | internal/strategy/mcts.go:214-228 | n noisy evaluations sum to at least n times the base value and to less than n times the base plus 2n |
| Mcts.MeanScoreRange | internal/strategy/mcts.go:184-191 | the mean of ten noisy evaluations lies in [15, 17) for an attack and [10, 12) for a grow |
| Mcts.NoisyScores | internal/strategy/mcts.go:184-191 | each move gets the mean of its own ten draws, taken in order from the stream |
| Mcts.NoisyScoresBanded | internal/strategy/mcts.go:184-191 | every attack's mean is at least 15 and every grow's mean is below 12 |
| Mcts.AttacksRankFirst | internal/strategy/mcts.go:184-202 | in the noisy ranking, every attack comes before every grow |
| Mcts.BestMovesShape | internal/strategy/mcts.go:167-211 | all moves come back when they fit; otherwise exactly count of them, each taken from the offered moves |
| Mcts.BestMovesPreferAttacks | internal/strategy/mcts.go:167-211 | when choosing fewer than offered, the choice holds as many attacks as possible: min(count, attacks offered) |
| Mcts.AttackCount | internal/strategy/mcts.go:167-211 | the attacks among the ranked items are counted by the attack predicate |
| Mcts.MctsStrategy.constructor | internal/strategy/mcts.go:37-48 | the strategy keeps the configured iterations, time limit and exploration constant, with depth bound 50 |
| Mcts.MctsStrategy.DecideMoves | internal/strategy/mcts.go:56-77 | nothing when it is not the bot's turn, the bot is absent or nothing is valid; otherwise the noisy best moves among the valid ones |
| Mcts.MctsStrategy.RunMcts | internal/strategy/mcts.go:80-96 | after the bounded search iterations, the answer is all moves when they fit, else the noisy best count |
| Mcts.MctsStrategy.Iteration | internal/strategy/mcts.go:99-113 | the best playout score is -1 exactly when there is no move, and is otherwise 0 or 1 |
| Mcts.PlayPass | internal/strategy/mcts.go:130-157 | one pass of the playout loop: a pass that ends keeps the draw count; a pass that goes on starts below the depth bound and either goes one level deeper taking at most one draw, or (skipped turns not counted) stays at its depth with one skip fewer and no draw |
| Mcts.RolloutWinner | internal/strategy/mcts.go:130-163 | the loop records at most one survivor and never gives draws back; its winner is -1 or the bot's id, and is the bot's id exactly when that id is -1 or the bot is the sole survivor |
| Mcts.RolloutCountedDraws | internal/strategy/mcts.go:130-157 | corrected loop: with skipped turns counted, the loop takes at most one draw per depth level left below the bound |
| Mcts.RolloutStalls | internal/strategy/mcts.go:146-150 | as written: with two or more players alive and no player able to move, the loop only stops when the skip bound runs out, with no winner, no survivor recorded and no draw taken |
| Mcts.MctsStrategy.SimulateRandomPlayout | internal/strategy/mcts.go:116-164 | the score is 1 exactly when the mover exists and the bot is the sole survivor (or the bot's id is -1), else 0; with no mover nothing is drawn; otherwise the survivors, the win and the draws taken are exactly those of `Rollout` from the players' values after the first move, on the moves of the state's board |
| Mcts.MctsStrategy.PlayFirst | internal/strategy/mcts.go:124-157 | after the first move, the outcome and the draws taken are exactly `Rollout`'s from the position that move leaves |
| Mcts.MctsStrategy.FirstPlayed | internal/strategy/mcts.go:124 | the first move leaves a fresh state holding the players' values `AfterMove` gives, the turn passed among the players still alive, and a board with the same moves |
| Mcts.MctsStrategy.PlayOut | internal/strategy/mcts.go:126-157 | the loop as written (skipped turns not counted) ends with the winner, survivors and draw count that `Rollout` gives for the players' values, current player, draws and board moves it starts from |
| Mcts.MctsStrategy.PlayTurn | internal/strategy/mcts.go:131-156 | one pass of the loop body does what `PlayPass` states: when the pass ends, its winner and survivors; otherwise the new state's players' values, current player, draw count, depth and skips are the ones `PlayPass` goes on with, on a board with the same cells |
| Mcts.MctsStrategy.MoveOrSkip | internal/strategy/mcts.go:145-156 | once two players are alive and the current player is listed, the pass ends or goes on exactly as `PlayPass` says |
| Mcts.PassSkipped | internal/strategy/mcts.go:146-150 | a player without moves ends the loop when no skip is left and skipped turns are not counted; otherwise the turn passes and the state is at `PlayPass`'s next position |
| Mcts.PassTurn | internal/strategy/mcts.go:148 | the board and the players' values stay, and the turn passes among the alive players |
| Mcts.MctsStrategy.PassPlayed | internal/strategy/mcts.go:152-156 | a player with moves plays the drawn one, and the state is at `PlayPass`'s next position, one level deeper |
| Mcts.MctsStrategy.PlayDrawn | internal/strategy/mcts.go:153-154 | exactly one draw picks the move, which is played as `AfterMove` states, and the turn passes among the players still alive |
| Mcts.ApplyPlayed | internal/strategy/mcts.go:154 | `ApplyMove` gives a fresh state with the same board cells, the same roster, the players' values `AfterMove` gives and the turn passed among the survivors |
| Mcts.CopyState | internal/strategy/mcts.go:117-121 | the clone has the same players' values, current player, bot id and board moves, and its current player is found exactly when the original's is |
| Mcts.TabledMoves | internal/strategy/mcts.go:145 | the valid moves on a board with the same cells are the ones the table of the starting board lists |
| Mcts.MctsStrategy.PlayOutCounted | internal/strategy/mcts.go:126-157 | corrected: the outcome is exactly `Rollout`'s with a skipped turn counted towards the depth bound; the loop takes at most maxDepth - 1 draws, and the winner is the bot exactly when it is the sole survivor (or its id is -1) |
| Mcts.StalledRound | internal/strategy/mcts.go:128-150 | as written, when two or more players are alive and none has a valid move, one round of skipped turns hands the turn back to the player who had it and keeps the same alive players; nothing else may change, and the depth is not advanced |
| Mcts.SkipTurn | internal/strategy/mcts.go:131-150 | when no alive player has a valid move, one pass of the loop body passes the turn to the next alive player and changes nothing else |
| Mcts.MovesOfStalled | internal/strategy/mcts.go:139-145 | the current player exists and its valid moves are empty when no alive player has a valid move |
| Mcts.MctsStrategy.EvaluateMove | internal/strategy/mcts.go:214-228 | a move scores its base value plus twice the next draw, and takes exactly one draw |
| Mcts.MctsStrategy.SelectBestMoves | internal/strategy/mcts.go:167-211 | the answer is the noisy best moves, using ten draws per move when not all fit and none otherwise |
| Mcts.MctsStrategy.TopItems | internal/strategy/mcts.go:205-208 | the result is the first count ranked moves |
| Mcts.MctsStrategy.ScoreEach | internal/strategy/mcts.go:184-191 | each array slot ends with its move's mean of ten draws, and 10 draws per move are taken |
| Mcts.MctsStrategy.Uct | internal/strategy/mcts.go:231-236 | an unvisited node has the largest finite value |
| Mcts.UnvisitedFirst | internal/strategy/mcts.go:231-236 | an unvisited node scores no lower than any visited node whose exploration term stays finite |
| Mcts.MctsStrategy.DecideNeutrals | internal/strategy/mcts.go:239-243 | the search strategy places neutrals exactly as the heuristic does |

## Findings

| source | as written | input that shows it | evidently intended | confidence | as-written member | corrected member |
|---|---|---|---|---|---|---|
| internal/game/state.go:118 | `GameState.ApplyMove` calls `Board.ApplyMove`, which returns a new board, and drops the result. The move is recorded in the players' cell lists but never on the state's board. | any state whose current player is in the roster, with a grow onto an empty on-board cell: afterwards the cell is still empty, yet it is the last of the mover's cells | the new state's board shows the move's position holding the mover's id | high (not executed) | States.GrowMissingFromBoard | States.GrowOnBoard |
| internal/strategy/mcts.go:146-150 | A skipped turn calls `AdvancePlayer` and continues without advancing `depth`, and the playout's board never changes (see the row above). When no alive player has a valid move, every pass skips and the loop never ends. | `SimulateRandomPlayout` with any grow as the first move, on a 2x2 board holding player 1's base at (0,0), player 2's base at (1,1) and player 2's fortified cells at (0,1) and (1,0), both players alive: no cell is empty and no cell is attackable, so neither player ever has a valid move | the playout ends within the depth bound | medium (not executed); whether a search reaches such a state from `DecideMoves` is not established | Mcts.MctsStrategy.PlayOut, Mcts.RolloutStalls, Mcts.StalledRound | Mcts.MctsStrategy.PlayOutCounted, Mcts.RolloutCountedDraws |

The Monte Carlo playout (`Mcts.MctsStrategy.SimulateRandomPlayout`,
`Mcts.MctsStrategy.PlayOut`) applies moves with `States.GameState.ApplyMove`
as written, so a playout's board never changes, as in the program. Its
loop is the as-written one, bounded only by the `fuel` described under
"Left out": `Mcts.RolloutStalls` shows that when nobody can move it is
that bound, and nothing in the program, that ends the loop.
`Mcts.MctsStrategy.PlayOutCounted` is the corrected loop, and
`Mcts.RolloutCountedDraws` bounds the draws it takes.

## Left out

- Networking, the websocket client, message (de)serialisation other than the cell decoders, the configuration file and the command-line entry point: these are I/O around the core.
- `Name` of both strategies and `OnMoveMade`: they return constants or do nothing.
- `NewHeuristicStrategy`: the weights are read from the configuration file, which is not part of this model. The heuristic's operations take the weights (`Factors`) as a parameter instead, and `DefaultFactors` holds the defaults.
- `Board.FromData` and `NewGameState` require a square grid. The program's grid is a slice of slices, and its size is the number of rows.
- Floating-point numbers are modelled as reals: no rounding, and no overflow except where `Uct` returns the largest finite float.
- `Mcts.MctsStrategy.Uct`: `sqrt(log(parent visits) / visits)` is taken as a parameter `root`, because there is no square root or logarithm on reals.
- Mcts.MctsStrategy.Iteration: the search tree and its visit and win statistics are not kept, because the program discards them too. The best score the program discards is returned, so that it can be stated.
- `math/rand`: the generator is modelled as one stream of draws, as the library's `Float64` and `Intn` both read one source. `floats(k)` is the k-th draw as a float and `ints(k)` the k-th draw as an integer. `Intn(n)` takes exactly one draw, `ints(k) % n`; the library's `Int31n` instead rejects some draws and may read several. `Float64` takes exactly one draw in [0, 1); the library draws again when it would produce 1.0. The seeding from the clock is left out.
- The clock: the search time limit is the parameter `inTime`, which bounds the number of iterations.
- Mcts.MctsStrategy.PlayOut: the program's loop can spin without end when no alive player can move (see Findings). Only in that case is the model bounded, by `fuel` consecutive skips.
- Boards.Board.constructor: its size is a `nat`, so the panic the program's `NewBoard` raises on a negative size (`make` with a negative length, internal/game/board.go:21) is not modelled.
- `count >= 0` is required by the strategies, because the program's `make` with a negative capacity panics.
- Nil and empty slices are both the empty sequence.
- Machine integer width: a cell value is truncated to its low byte as the program does; other integers are unbounded.
