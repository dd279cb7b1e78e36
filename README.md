# Red-Blue Nim, route finding and Bayesian-network queries in Dafny

This project models the logic of three course assignments on classic AI
algorithms and proves properties of that model:

- **Red-Blue Nim** (`nim.dfy`, module `Nim`). This is the engine of
  `A2_Game_Playing_Problems/red_blue_nim.py`. The copy under `game_playing/`
  has the same code from `class GameState` to the end of `red_blue_nim`,
  51 lines earlier; the table cites the top-level copy. The model covers:
  - the `GameState` object, as a class whose `ExecuteMove` updates its
    fields in place;
  - the clamped move and the move generator with its fixed order, reversed
    for "misere";
  - the evaluation function;
  - `minmax` with alpha-beta pruning, as methods whose loops are proved equal
    to a recursive specification `Search`;
  - the turn loop of `red_blue_nim`, with its winner and score.

  The search is related to an unpruned reference `PlainSearch`. Pruning is
  fail-soft for every window with alpha < beta. With the full window that the turn loop uses,
  the pruned search returns the same value and the same move as the
  reference, and that move is the first best one in `valid_moves` order.
- **A second Nim engine** (`ayman.dfy`, module `Ayman`). This models
  `game_playing/ayman_game.py`, which handles positions differently:
  - positions are `(red, blue)` pairs;
  - `result` does not clamp;
  - `utility` is the signed final score;
  - `minmax` is exhaustive when its depth is `None` or 0 and pruned
    otherwise;
  - `computerMove` scans the moves in the version's order and keeps the
    first strictly best one.

  The pruned search is proved fail-soft against the exhaustive one for
  every window with alpha < beta, and equal to it from the full window.
- **Route finding** (`route.dfy`, module `Route`). This models
  `A1_Uninformed_and_Informed_Search/find_route.py`:
  - `parse_road_system` builds a symmetric adjacency map from lines;
  - one best-first search loop serves both uniform-cost search (no
    heuristic) and A* (a table of estimates);
  - the loop keeps an explicit frontier, an explored set and the three
    counters.

  A single loop invariant (`Inv`) gives the promises of `Reports`:
  - a returned path is a valid route whose cost is the sum of its legs;
  - each city is expanded at most once;
  - the generated counter counts every neighbour of every expanded city;
  - an exhausted frontier means that no route exists;
  - uniform-cost search over non-negative roads returns a cheapest route;
  - the origin-equals-destination and KeyError cases are as described.
- **Bayesian-network queries** (`bnet.dfy`, module `Bnet`). This models
  `A3_Probabilities_and_Bayesian_Networks/task2/bnet.py`:
  - the token parser `_parse_arguments`;
  - the enumeration in `calculate_specified_probability`, which sums a joint
    distribution over every completion of the specified variables among
    B, E, A, J, M, with the evidence overriding the query.

  The joint distribution is a parameter. The proofs show which worlds are
  summed: exactly the 2^k worlds that agree with the assignment, each once.

Where the two copies of `find_route.py` differ, the model follows
`A1_Uninformed_and_Informed_Search/find_route.py`. That copy increments
`nodes_generated` for every neighbour. The copy in the directory whose name
has a space increments it only for unexplored neighbours.

## Model

| member | source | states |
|---|---|---|
| Nim.Max | A2_Game_Playing_Problems/red_blue_nim.py:187 | `max(alpha, evaluation)` is an upper bound of both arguments and one of them |
| Nim.Min | A2_Game_Playing_Problems/red_blue_nim.py:201 | `min(beta, evaluation)` is a lower bound of both arguments and one of them |
| Nim.Apply | A2_Game_Playing_Problems/red_blue_nim.py:85-94 | a "red" or "blue" move lowers that pile by its count, floored at 0; the other pile and the version are unchanged; any other colour changes nothing |
| Nim.Evaluate | A2_Game_Playing_Problems/red_blue_nim.py:97-125 | standard: the score is −(r+b), −500 when a pile holds 1 or 2, −100 when the piles differ by 3 or more; any other version: −\|r−b\|; never positive for non-negative piles |
| Nim.GameState.constructor | A2_Game_Playing_Problems/red_blue_nim.py:65-75 | the new object holds the given counts and version |
| Nim.GameState.IsGameOver | A2_Game_Playing_Problems/red_blue_nim.py:77-83 | true exactly when a pile is 0 |
| Nim.GameState.ExecuteMove | A2_Game_Playing_Problems/red_blue_nim.py:85-94 | the object's new state is the clamped move applied to its old state |
| Nim.ValidMovesOf | A2_Game_Playing_Problems/red_blue_nim.py:128-152 | the list built by appending and reversing in place equals `ValidMoves` for the state and version |
| Nim.LegalInMoveOrder | A2_Game_Playing_Problems/red_blue_nim.py:138-146 | the legal candidates in order are the four guarded appends, in order |
| Nim.ValidMovesExact | A2_Game_Playing_Problems/red_blue_nim.py:128-152 | a move is offered exactly when it is one of the four candidates and its pile holds at least its count |
| Nim.ValidMovesOrder | A2_Game_Playing_Problems/red_blue_nim.py:147-150 | every version except "misere" gets the standard order; "misere" gets the same list back to front |
| Nim.LegalMoveShrinks | A2_Game_Playing_Problems/red_blue_nim.py:85-94 | a legal move lowers the marbles left by exactly its count and leads to a state that is over or still has a move |
| Nim.ValidMoveShrinks | A2_Game_Playing_Problems/red_blue_nim.py:173-183 | every move `minmax` tries is legal and lowers the marbles left, so the recursion ends whatever the depth |
| Nim.NonTerminalHasMoves | A2_Game_Playing_Problems/red_blue_nim.py:139-146 | on a state that is not over with non-negative piles, ("red",1) and ("blue",1) are both offered, so there are at least two moves |
| Nim.Minmax | A2_Game_Playing_Problems/red_blue_nim.py:155-205 | the method's value and move equal the recursive specification `Search`: (evaluate_state, None) when depth is 0 or the game is over, else the pruned loop |
| Nim.MaximizeOver | A2_Game_Playing_Problems/red_blue_nim.py:175-190 | the maximizing loop, with copies of the state, strict `>` and the break on beta <= alpha, equals `PruneLoop` from the first move |
| Nim.MinimizeOver | A2_Game_Playing_Problems/red_blue_nim.py:192-205 | the minimizing loop equals `PruneLoop` from the first move |
| Nim.PlainLoopBound | A2_Game_Playing_Problems/red_blue_nim.py:184-186 | the unpruned loop never ends worse than its running best |
| Nim.PlainLoopSaturated | A2_Game_Playing_Problems/red_blue_nim.py:184-186 | once the running best is the best possible value, no later child replaces it or its move |
| Nim.SearchFailSoft | A2_Game_Playing_Problems/red_blue_nim.py:155-205 | for any window alpha < beta the pruned value is exact inside the window and a bound on the unpruned value outside it |
| Nim.MaxLoopFailSoft | A2_Game_Playing_Problems/red_blue_nim.py:175-190 | the fail-soft bound holds for the maximizing loop from any move on, with alpha rising |
| Nim.MinLoopFailSoft | A2_Game_Playing_Problems/red_blue_nim.py:192-205 | the fail-soft bound holds for the minimizing loop from any move on, with beta falling |
| Nim.SearchMoveSound | A2_Game_Playing_Problems/red_blue_nim.py:175-205 | for any window, a non-leaf search returns no move exactly when no child beat the initial ∓inf; a returned move is one of `valid_moves`, and the returned value is that move's child value under the window the loop had reached |
| Nim.PruneLoopChild | A2_Game_Playing_Problems/red_blue_nim.py:178-189 | from any point of the loop, the result is the running best unchanged or some later move paired with its child's value, so `max_eval` and `best_move` always belong together |
| Nim.PruneLoopMove | A2_Game_Playing_Problems/red_blue_nim.py:184-186 | from any point of the loop, the kept move is None exactly when the kept value is still the initial one, and otherwise a listed move |
| Nim.FullWindowEqualsPlain | A2_Game_Playing_Problems/red_blue_nim.py:264 | with the window (−inf, +inf), the pruned search returns the same value and move as the unpruned reference |
| Nim.MaxLoopFullWindow | A2_Game_Playing_Problems/red_blue_nim.py:175-190 | with beta = +inf the maximizing loop never breaks early and equals the unpruned loop |
| Nim.MinLoopFullWindow | A2_Game_Playing_Problems/red_blue_nim.py:192-205 | with alpha = −inf the minimizing loop never breaks early and equals the unpruned loop |
| Nim.PlainSearchFinite | A2_Game_Playing_Problems/red_blue_nim.py:170-205 | on a state that is over or has a pile to take from, the value is finite, and a non-leaf search has a move |
| Nim.PlainLoopFinite | A2_Game_Playing_Problems/red_blue_nim.py:178-190 | the unpruned loop with at least one child ends with a finite value and a move |
| Nim.PlainLoopScan | A2_Game_Playing_Problems/red_blue_nim.py:184-186 | the unpruned loop either keeps its running best, when no later child beats it, or ends at a child that beats it and every earlier child and that no later child beats |
| Nim.PlainSearchFirstBest | A2_Game_Playing_Problems/red_blue_nim.py:184-186 | the chosen move is the first best in `valid_moves` order: its child has the returned value, every earlier child is strictly worse and none is better |
| Nim.Winner | A2_Game_Playing_Problems/red_blue_nim.py:280-283 | standard: the player who is not to move, that is the last mover, wins; any other version: the player to move wins |
| Nim.PlayedStep | A2_Game_Playing_Problems/red_blue_nim.py:262-277 | one more turn extends the game record: it replays to the moved state, passes the turn and records a human move |
| Nim.MoveProgress | A2_Game_Playing_Problems/red_blue_nim.py:262-277 | any of the four moves on a state that is not over lowers the loop measure; from non-negative piles it removes at least one marble |
| Nim.NoMovesBelowZero | A2_Game_Playing_Problems/red_blue_nim.py:139-146 | with both piles negative no move is offered |
| Nim.ComputerChoice | A2_Game_Playing_Problems/red_blue_nim.py:264 | the computer's full-window search returns no move exactly when depth is 0 or both piles are negative; otherwise its move is offered by `valid_moves` |
| Nim.RedBlueNim | A2_Game_Playing_Problems/red_blue_nim.py:247-285 | the final state replays the turns; turns alternate and each computer turn plays the `minmax` move; the game finishes exactly when a pile is 0, with the winner by version and the score 2r+3b; otherwise it reports why it could not go on; at most r+b turns from non-negative piles |
| Ayman.Parse | A2_Game_Playing_Problems/game_playing/ayman_game.py:35-43 | exactly the four move names are recognised, each as its own move |
| Ayman.MisereIsReversed | A2_Game_Playing_Problems/game_playing/ayman_game.py:5-6 | `misereMoves` is `standardMoves` reversed, element by element |
| Ayman.Actions | A2_Game_Playing_Problems/game_playing/ayman_game.py:19-30 | `actions` lists at most the four moves, each one takeable from its pile and none twice |
| Ayman.ActionsInOrder | A2_Game_Playing_Problems/game_playing/ayman_game.py:19-30 | `actions` is the takeable moves of the standard order, in that order, whatever the version |
| Ayman.ActionsExact | A2_Game_Playing_Problems/game_playing/ayman_game.py:19-30 | a move is listed exactly when its pile holds its amount |
| Ayman.Take | A2_Game_Playing_Problems/game_playing/ayman_game.py:33-42 | the named pile loses the move's amount, without clamping; the other pile is unchanged |
| Ayman.Result | A2_Game_Playing_Problems/game_playing/ayman_game.py:33-43 | a result exists exactly for the four move names, and is that move taken |
| Ayman.Utility | A2_Game_Playing_Problems/game_playing/ayman_game.py:46-57 | 0 off terminal positions and for other versions; standard: −(2r+3b) for "computer", +(2r+3b) otherwise; misère: the signs swapped |
| Ayman.UtilityZeroSum | A2_Game_Playing_Problems/game_playing/ayman_game.py:46-57 | the computer's utility is minus the human's, and is ±(2r+3b) or 0 |
| Ayman.TakeStep | A2_Game_Playing_Problems/game_playing/ayman_game.py:33-42 | a takeable move removes exactly its amount and lowers the marbles that remain |
| Ayman.Child | A2_Game_Playing_Problems/game_playing/ayman_game.py:134 | every child `minmax` searches has fewer marbles, so the search terminates at any depth |
| Ayman.LiveHasAction | A2_Game_Playing_Problems/game_playing/ayman_game.py:19-30 | a non-terminal position reached by play has an action |
| Ayman.NonTerminalHasTwoActions | A2_Game_Playing_Problems/game_playing/ayman_game.py:19-30 | a non-terminal position with non-negative piles offers "Red 1" and "Blue 1" |
| Ayman.TerminalTestSpec | A2_Game_Playing_Problems/game_playing/ayman_game.py:59-62 | the predicate `Ayman.TerminalTest` (`terminalTest`) holds exactly when a pile is empty; on non-negative piles, exactly when "Red 1" or "Blue 1" is missing from `actions` |
| Ayman.Minmax | A2_Game_Playing_Problems/game_playing/ayman_game.py:124-163 | the method's value equals `MinmaxValue`: utility on terminal positions, the exhaustive loop at depth None or 0, the pruned loop otherwise |
| Ayman.ExhaustiveMax | A2_Game_Playing_Problems/game_playing/ayman_game.py:131-137 | the unpruned maximizing loop equals `ExhaustiveLoop` |
| Ayman.ExhaustiveMin | A2_Game_Playing_Problems/game_playing/ayman_game.py:138-143 | the unpruned minimizing loop equals `ExhaustiveLoop` |
| Ayman.PrunedMax | A2_Game_Playing_Problems/game_playing/ayman_game.py:145-154 | the pruned maximizing loop, with alpha rising and the break on beta <= alpha, equals `PrunedLoop` |
| Ayman.PrunedMin | A2_Game_Playing_Problems/game_playing/ayman_game.py:155-163 | the pruned minimizing loop, with beta falling, equals `PrunedLoop` |
| Ayman.ExhaustiveLoopBound | A2_Game_Playing_Problems/game_playing/ayman_game.py:130-143 | the exhaustive loop never ends worse than its running value |
| Ayman.UnboundedIsExhaustive | A2_Game_Playing_Problems/game_playing/ayman_game.py:130-143 | at depth None or 0 the search is the exhaustive one for any window |
| Ayman.MinmaxFailSoft | A2_Game_Playing_Problems/game_playing/ayman_game.py:124-163 | for any window alpha < beta and any depth, the value is exact inside the window and a bound on the exhaustive value outside it |
| Ayman.MaxLoopFailSoft | A2_Game_Playing_Problems/game_playing/ayman_game.py:145-154 | the fail-soft bound holds for the pruned maximizing loop from any action on |
| Ayman.MaxCut | A2_Game_Playing_Problems/game_playing/ayman_game.py:150-153 | a maximizing child that reaches beta ends the loop with a lower bound on the exhaustive maximum |
| Ayman.MaxContinue | A2_Game_Playing_Problems/game_playing/ayman_game.py:150-153 | a maximizing child below beta keeps the loop's bound |
| Ayman.MinLoopFailSoft | A2_Game_Playing_Problems/game_playing/ayman_game.py:155-163 | the fail-soft bound holds for the pruned minimizing loop from any action on |
| Ayman.MinCut | A2_Game_Playing_Problems/game_playing/ayman_game.py:159-162 | a minimizing child at or below alpha ends the loop with an upper bound on the exhaustive minimum |
| Ayman.MinContinue | A2_Game_Playing_Problems/game_playing/ayman_game.py:159-162 | a minimizing child above alpha keeps the loop's bound |
| Ayman.FullWindowIsExhaustive | A2_Game_Playing_Problems/game_playing/ayman_game.py:117 | from the window (−inf, +inf) the search returns the exhaustive value at any depth |
| Ayman.ExhaustiveFinite | A2_Game_Playing_Problems/game_playing/ayman_game.py:125-143 | a position reached by play has a finite exhaustive value |
| Ayman.ExhaustiveLoopFinite | A2_Game_Playing_Problems/game_playing/ayman_game.py:130-143 | the exhaustive loop over at least one child ends finite |
| Ayman.OrderIndex | A2_Game_Playing_Problems/game_playing/ayman_game.py:111-112 | every move sits somewhere in the computer's move order |
| Ayman.ComputerOrderDistinct | A2_Game_Playing_Problems/game_playing/ayman_game.py:111-112 | both move orders list the four moves once each |
| Ayman.MoveSearch | A2_Game_Playing_Problems/game_playing/ayman_game.py:116-117 | the full-window search after a legal move gives that move's exhaustive value, which is finite |
| Ayman.SearchMove | A2_Game_Playing_Problems/game_playing/ayman_game.py:116-117 | the method returns that value |
| Ayman.ScanStep | A2_Game_Playing_Problems/game_playing/ayman_game.py:114-120 | one iteration of the scan keeps what is known about the kept move |
| Ayman.ScanDone | A2_Game_Playing_Problems/game_playing/ayman_game.py:104-121 | the finished scan gives `computerMove`'s contract |
| Ayman.ComputerMove | A2_Game_Playing_Problems/game_playing/ayman_game.py:104-121 | None exactly when no move is legal; otherwise a legal move that no legal move beats and that strictly beats every legal move earlier in the version's order |
| Bnet.SplitAtGiven | A3_Probabilities_and_Bayesian_Networks/task2/bnet.py:167-173 | with a "given", the parts before and after the first one rebuild the arguments; without one, everything goes to the first part and the second is empty |
| Bnet.EventsFromOk | A3_Probabilities_and_Bayesian_Networks/task2/bnet.py:175-176 | the comprehension succeeds exactly when every token has two characters |
| Bnet.EventsFromKeys | A3_Probabilities_and_Bayesian_Networks/task2/bnet.py:175-176 | the keys are exactly the first characters of the tokens |
| Bnet.EventsFromKeeps | A3_Probabilities_and_Bayesian_Networks/task2/bnet.py:175-176 | a key that no later token mentions keeps its value |
| Bnet.EventsFromLastWins | A3_Probabilities_and_Bayesian_Networks/task2/bnet.py:175-176 | each key is true exactly when the last token with that key has 't' second |
| Bnet.ParseArguments | A3_Probabilities_and_Bayesian_Networks/task2/bnet.py:158-177 | `_parse_arguments` fails exactly when a token of either part is too short; c1 and c2 are the events of the two parts; without "given", c2 is empty |
| Bnet.ProductShape | A3_Probabilities_and_Bayesian_Networks/task2/bnet.py:122 | `product([True, False], repeat=n)` yields 2^n tuples of length n |
| Bnet.ProductDistinct | A3_Probabilities_and_Bayesian_Networks/task2/bnet.py:122 | no tuple is yielded twice |
| Bnet.ProductComplete | A3_Probabilities_and_Bayesian_Networks/task2/bnet.py:122 | every boolean n-tuple is yielded |
| Bnet.MissingSpec | A3_Probabilities_and_Bayesian_Networks/task2/bnet.py:121 | the filter keeps exactly the variables the assignment lacks, each once |
| Bnet.UnspecifiedLists | A3_Probabilities_and_Bayesian_Networks/task2/bnet.py:121 | the unspecified variables of "BEAJM" are listed once each |
| Bnet.ZipSpec | A3_Probabilities_and_Bayesian_Networks/task2/bnet.py:125 | `dict(zip(vars, combo))` maps each variable to its value in the combination |
| Bnet.StateSpec | A3_Probabilities_and_Bayesian_Networks/task2/bnet.py:125-129 | after `state.update(c)` all five variables are present, the enumerated ones take the combination's values and the world agrees with `c` |
| Bnet.GetRead | A3_Probabilities_and_Bayesian_Networks/task2/bnet.py:128 | `state["B"]`, …, `state["M"]` read the state's values |
| Bnet.CompletionsSpec | A3_Probabilities_and_Bayesian_Networks/task2/bnet.py:121-129 | there are 2^k combinations, the worlds they give are pairwise distinct and each agrees with the assignment |
| Bnet.CompletionsCover | A3_Probabilities_and_Bayesian_Networks/task2/bnet.py:121-129 | every world that agrees with the assignment is enumerated |
| Bnet.WorldOfCombo | A3_Probabilities_and_Bayesian_Networks/task2/bnet.py:125-128 | the combination read off an agreeing world gives back that world |
| Bnet.CompletionCount | A3_Probabilities_and_Bayesian_Networks/task2/bnet.py:121-122 | the number of combinations is 2^k, where k counts the five variables the assignment leaves open |
| Bnet.EvidenceWins | A3_Probabilities_and_Bayesian_Networks/task2/bnet.py:132-139 | in `{**c1, **c2}` the evidence decides the variables it names and c1 decides the rest |
| Bnet.ExtraKeysIgnored | A3_Probabilities_and_Bayesian_Networks/task2/bnet.py:121-129 | keys outside B, E, A, J, M change neither the enumerated variables nor the sum |
| Bnet.SumCompletions | A3_Probabilities_and_Bayesian_Networks/task2/bnet.py:121-130 | one enumeration loop computes `Total`, the sum of the joint over the completions |
| Bnet.SumOverCombinations | A3_Probabilities_and_Bayesian_Networks/task2/bnet.py:122-129 | the loop over `product` adds the joint of every combination's world, in order |
| Bnet.SumWorldsStep | A3_Probabilities_and_Bayesian_Networks/task2/bnet.py:127-129 | one iteration adds the next combination's world to the running sum |
| Bnet.CalculateSpecifiedProbability | A3_Probabilities_and_Bayesian_Networks/task2/bnet.py:107-155 | no evidence: the sum over c1's completions; with evidence: the sum over `{**c1, **c2}`'s completions divided by the sum over c2's, or 0 when that sum is 0 |
| Route.ReadLines | A1_Uninformed_and_Informed_Search/find_route.py:32-34 | the lines read are the prefix before the first end marker |
| Route.AddRoadCities | A1_Uninformed_and_Informed_Search/find_route.py:38-41 | recording a road adds exactly its two cities |
| Route.AddRoadSpec | A1_Uninformed_and_Informed_Search/find_route.py:38-45 | the two cities are joined both ways at the distance, and every other pair is unchanged |
| Route.AddRoadNeighbours | A1_Uninformed_and_Informed_Search/find_route.py:44-45 | after one road, two cities are neighbours exactly when they were before or that road joins them |
| Route.RoadsSymmetric | A1_Uninformed_and_Informed_Search/find_route.py:30-47 | the graph is symmetric and every neighbour is a city of the graph |
| Route.RoadsCities | A1_Uninformed_and_Informed_Search/find_route.py:30-47 | a city is in the graph exactly when some road ends at it |
| Route.RoadsNeighbours | A1_Uninformed_and_Informed_Search/find_route.py:30-47 | two cities are neighbours exactly when some road joins them |
| Route.RoadsLastWins | A1_Uninformed_and_Informed_Search/find_route.py:44-45 | the distance recorded between two cities, in both directions, is that of the last road joining them |
| Route.ParseRoadSystem | A1_Uninformed_and_Informed_Search/find_route.py:21-47 | fails exactly when a line before the end marker is malformed; otherwise the result is the graph of the roads read, which is symmetric and closed |
| Route.RoadsStep | A1_Uninformed_and_Informed_Search/find_route.py:35-45 | reading one more line adds its road, if it is one |
| Route.ReadLinesPrefix | A1_Uninformed_and_Informed_Search/find_route.py:32-34 | a line before the first end marker is read |
| Route.ReadLinesEnd | A1_Uninformed_and_Informed_Search/find_route.py:32-34 | the loop stops at the first end marker or the end of the file, having read exactly the lines before it |
| Route.MinIndex | A1_Uninformed_and_Informed_Search/find_route.py:99 | `frontier.get()` takes a tuple whose key is least |
| Route.Remove | A1_Uninformed_and_Informed_Search/find_route.py:99 | the other tuples stay queued and nothing is added |
| Route.Reach | A1_Uninformed_and_Informed_Search/find_route.py:97-119 | when a route to an unexplored city exists, the frontier is not empty |
| Route.ReachBound | A1_Uninformed_and_Informed_Search/find_route.py:97-119 | with non-negative roads some queued tuple costs no more than any route to an unexplored city |
| Route.PoppedIsCheapest | A1_Uninformed_and_Informed_Search/find_route.py:99 | in uniform-cost search the tuple removed costs no more than any route to its own, unexplored, city |
| Route.InvStart | A1_Uninformed_and_Informed_Search/find_route.py:86-95 | the start tuple and zero counters satisfy the loop invariant |
| Route.InvDiscard | A1_Uninformed_and_Informed_Search/find_route.py:98-106 | removing a tuple for an explored city keeps the invariant |
| Route.InvExpand | A1_Uninformed_and_Informed_Search/find_route.py:106-116 | expanding the removed city keeps the invariant |
| Route.ExpandOptimal | A1_Uninformed_and_Informed_Search/find_route.py:106-107 | in uniform-cost search a city is explored at the cost of a cheapest route |
| Route.ExpandCounted | A1_Uninformed_and_Informed_Search/find_route.py:106-112 | the expanded list, the counters and the generated total stay consistent |
| Route.DegreesAppend | A1_Uninformed_and_Informed_Search/find_route.py:111-112 | an expansion adds the city's number of neighbours to the generated total |
| Route.DistinctAppend | A1_Uninformed_and_Informed_Search/find_route.py:106-107 | a city not explored before keeps the expanded list duplicate-free |
| Route.ExpandStarted | A1_Uninformed_and_Informed_Search/find_route.py:111 | after an expansion in a closed graph, every queued city is a city of the graph |
| Route.ExpandEntriesValid | A1_Uninformed_and_Informed_Search/find_route.py:113-116 | the new tuples carry valid routes, their costs and their keys |
| Route.ChildValid | A1_Uninformed_and_Informed_Search/find_route.py:114-116 | extending a route by one road gives a valid route whose cost is increased by that road's distance |
| Route.ExpandCovered | A1_Uninformed_and_Informed_Search/find_route.py:111-116 | every road out of the explored cities still has its far end queued at no more than the cost through the explored city |
| Route.DistinctWithin | A1_Uninformed_and_Informed_Search/find_route.py:106-108 | distinct expanded cities are at most all the cities |
| Route.Expand | A1_Uninformed_and_Informed_Search/find_route.py:111-116 | counts every neighbour; keeps the queued tuples, duplicates included, as a prefix and adds exactly one tuple per unexplored neighbour (the count is the number of unexplored neighbours) and no other |
| Route.Search | A1_Uninformed_and_Informed_Search/find_route.py:97-119 | the outcome meets `Reports`: a valid route whose cost is its legs' sum; expand-once with the counter bounds; no route when the frontier is exhausted; cheapest for uniform-cost search; the origin=destination and KeyError cases |
| Route.ExpandCity | A1_Uninformed_and_Informed_Search/find_route.py:106-116 | an expansion keeps the invariant and explores one more city |
| Route.Shrinks | A1_Uninformed_and_Informed_Search/find_route.py:107 | exploring a new city leaves fewer unexplored cities |
| Route.FoundPost | A1_Uninformed_and_Informed_Search/find_route.py:102-103 | reaching the destination reports a valid route, cheapest in uniform-cost search |
| Route.KeyErrorPost | A1_Uninformed_and_Informed_Search/find_route.py:111 | the KeyError names a city without an entry, never in a closed graph that holds the origin |
| Route.NotFoundPost | A1_Uninformed_and_Informed_Search/find_route.py:118-119 | an exhausted frontier means that no route exists |
| Route.UninformedSearch | A1_Uninformed_and_Informed_Search/find_route.py:71-119 | uniform-cost search: a found route is valid, costs the sum of its legs and, with non-negative roads, is cheapest; not found means no route exists |
| Route.InformedSearch | A1_Uninformed_and_Informed_Search/find_route.py:122-174 | A* ordered by cost plus heuristic, a missing estimate counting as infinite: a found route is valid and costs the sum of its legs; not found means no route exists |

## Left out

- Console I/O: every `print`, `sys.stdout.write`, `input()`, the coloured loggers, `ArgparseLogger`, `_parse_args`, `main`, `human_turn`'s prompt loop, `computer_turn` and `displayScore`.
- Nim.RedBlueNim: the human's moves come from a given sequence of the four moves that `human_turn` can return. The game stops with `HumanInputExhausted` when the sequence runs out.
- Nim.RedBlueNim: the computer's turn when `minmax` returns no move is reported as `ComputerWithoutMove`. This happens at depth 0 or with both piles negative, where the source raises TypeError at `move[0]` in `computer_turn` (A2_Game_Playing_Problems/red_blue_nim.py:243), before `execute_move`.
- The `float("-inf")`/`float("inf")` sentinels of both searches are the `Value` datatype, which holds integers and ±inf. Integers are unbounded, as in Python.
- `playGame` and `to_move` of ayman_game.py are not modelled. They are the interactive loop around `computerMove`, and it repeats the turn loop modelled for red_blue_nim.py.
- Ayman: moves are the `Action` datatype. `Name` and `Parse` translate to and from the four strings. `Result` still takes a string and returns no result for any other string.
- Route: road lengths, costs and estimates are exact reals, not floats, and `float("inf")` is `Cost.Inf`. `NotFound` carries the counters but no cost.
- Route.ParseRoadSystem: file reading, `split()` and `float()` are not modelled. Each line arrives already classified as the end marker, a road, or a malformed line; a malformed line is one whose `parts[2]` or `float()` would raise.
- `parse_heuristic` is not modelled: it is file reading. A* takes its table as a map.
- Route.MinIndex: equal keys are broken by position in the frontier, not by Python's tuple comparison. That comparison looks at the cost (A* only), then the city name, then the path. Every property of the search is proved from minimality of the key alone, so it holds for the source's tie-break too. Which of several equally cheap routes is returned is not modelled.
- Route.Expand: neighbours are visited in an arbitrary order rather than the dict's insertion order. This changes only the order of the frontier, which the proofs do not depend on.
- Route.InformedSearch: no optimality is claimed, because the source makes no admissibility demand on the heuristic.
- Bnet: `compute_probability` and the network's numbers are replaced by an arbitrary real-valued function `joint` of the five variables. Float rounding is not modelled.
- Bnet.Unspecified: the set `{k for k in "BEAJM" if k not in c}` has no fixed iteration order in Python. It is listed in "BEAJM" order, and the enumeration lemmas hold for every duplicate-free listing.
- `compute_a_posteriori.py` is not part of this model: it is a floating-point posterior update and a file write.
- `BayesianNetwork.__init__` and `compute_probability` are not modelled: they hold the numeric tables, which `joint` replaces.
