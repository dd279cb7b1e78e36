/** A second implementation of Red-Blue Nim: positions are (red, blue) pairs,
    moves are the strings "Red 2", "Blue 2", "Red 1", "Blue 1", `result` does
    not clamp, `utility` is the signed final score, and `minmax` searches
    exhaustively when its depth is None or 0 and with alpha-beta pruning
    otherwise. What it shares with the first engine comes from module `Nim`: the
    search values `Value`, `Le`, `Lt`, `Max`, `Min` and `FailSoft`, `Option`,
    and `Reverse` for the misère move order. */
module Ayman {
  import opened Nim

  /** The four moves. `actions` and `computerMove` pass them around as the
      strings "Red 2", "Blue 2", "Red 1", "Blue 1"; Name and Parse translate. */
  datatype Action = Red2 | Blue2 | Red1 | Blue1

  function Name(a: Action): string {
    match a
    case Red2 => "Red 2"
    case Blue2 => "Blue 2"
    case Red1 => "Red 1"
    case Blue1 => "Blue 1"
  }

  /** The move a string names, if any: exactly the four names are recognised. */
  function Parse(move: string): (r: Option<Action>)
    ensures r.Some? ==> Name(r.value) == move
    ensures forall a: Action :: move == Name(a) ==> r == Some(a)
  {
    if move == "Red 2" then Some(Red2)
    else if move == "Blue 2" then Some(Blue2)
    else if move == "Red 1" then Some(Red1)
    else if move == "Blue 1" then Some(Blue1)
    else None
  }

  function IsRed(a: Action): bool {
    a == Red2 || a == Red1
  }

  function Amount(a: Action): nat {
    if a == Red2 || a == Blue2 then 2 else 1
  }

  /** The move orders: misère is the standard order reversed. */
  const StandardMoves: seq<Action> := [Red2, Blue2, Red1, Blue1]
  const MisereMoves: seq<Action> := Reverse(StandardMoves)

  /** The reversal, move by move. */
  lemma MisereIsReversed()
    ensures |MisereMoves| == |StandardMoves|
    ensures forall k :: 0 <= k < |StandardMoves| ==> MisereMoves[k] == StandardMoves[|StandardMoves| - 1 - k]
    ensures MisereMoves == [Blue1, Red1, Blue2, Red2]
  {
    forall k | 0 <= k < |StandardMoves|
      ensures MisereMoves[k] == StandardMoves[|StandardMoves| - 1 - k]
    {
      ReverseAt(StandardMoves, k);
    }
  }

  /** The settings of a `nimGame`; none of them changes during a game. */
  datatype NimGame = NimGame(red: int, blue: int, version: string, player: string, depth: Option<int>)

  /** A game position: the (red, blue) tuple. */
  datatype Pos = Pos(red: int, blue: int)

  /** The marbles that can still be taken: the positive part of each pile. */
  function Marbles(p: Pos): nat {
    (if p.red > 0 then p.red else 0) + (if p.blue > 0 then p.blue else 0)
  }

  /** The pile a move names holds at least the amount it takes. */
  predicate CanTake(p: Pos, a: Action) {
    if IsRed(a) then p.red >= Amount(a) else p.blue >= Amount(a)
  }

  /** `actions`: the moves whose pile is large enough, in the standard order
      whatever the version. Every listed move can be taken and none is
      listed twice. */
  function Actions(p: Pos): (r: seq<Action>)
    ensures |r| <= |StandardMoves|
    ensures forall i :: 0 <= i < |r| ==> CanTake(p, r[i])
    ensures forall i, j :: 0 <= i < j < |r| ==> r[i] != r[j]
  {
    (if p.red >= 2 then [Red2] else []) +
    (if p.blue >= 2 then [Blue2] else []) +
    (if p.red >= 1 then [Red1] else []) +
    (if p.blue >= 1 then [Blue1] else [])
  }

  /** The reference: the moves of `cands` that can be taken, in the order given. */
  function TakeableIn(p: Pos, cands: seq<Action>): seq<Action> {
    if cands == [] then [] else (if CanTake(p, cands[0]) then [cands[0]] else []) + TakeableIn(p, cands[1..])
  }

  /** `actions` lists exactly the takeable moves, in standard order. */
  lemma ActionsInOrder(p: Pos)
    ensures Actions(p) == TakeableIn(p, StandardMoves)
    ensures forall a :: a in Actions(p) <==> CanTake(p, a)
  {
    var m3 := [Blue1];
    var m2 := [Red1, Blue1];
    var m1 := [Blue2, Red1, Blue1];
    assert m3[1..] == [] && m2[1..] == m3 && m1[1..] == m2 && StandardMoves[1..] == m1;
    assert TakeableIn(p, m3) == (if p.blue >= 1 then [Blue1] else []);
    assert TakeableIn(p, m2) == (if p.red >= 1 then [Red1] else []) + TakeableIn(p, m3);
    assert TakeableIn(p, m1) == (if p.blue >= 2 then [Blue2] else []) + TakeableIn(p, m2);
    ActionsExact(p);
  }

  /** An action is listed exactly when its pile holds its amount. */
  lemma ActionsExact(p: Pos)
    ensures forall a :: a in Actions(p) <==> CanTake(p, a)
  {
    forall a: Action
      ensures a in Actions(p) <==> CanTake(p, a)
    {
      match a
      case Red2 =>
      case Blue2 =>
      case Red1 =>
      case Blue1 =>
    }
  }

  /** Taking a move's amount from its pile, without clamping. */
  function Take(p: Pos, a: Action): (q: Pos)
    ensures IsRed(a) ==> q == Pos(p.red - Amount(a), p.blue)
    ensures !IsRed(a) ==> q == Pos(p.red, p.blue - Amount(a))
  {
    match a
    case Red2 => Pos(p.red - 2, p.blue)
    case Blue2 => Pos(p.red, p.blue - 2)
    case Red1 => Pos(p.red - 1, p.blue)
    case Blue1 => Pos(p.red, p.blue - 1)
  }

  /** `result`: the position after the move a string names; any other string
      has no result. */
  function Result(p: Pos, move: string): (r: Option<Pos>)
    ensures r.Some? <==> exists a: Action :: move == Name(a)
    ensures forall a: Action :: move == Name(a) ==> r == Some(Take(p, a))
  {
    match Parse(move)
    case None => None
    case Some(a) => Some(Take(p, a))
  }

  /** `terminalTest`. */
  predicate TerminalTest(p: Pos) {
    p.red == 0 || p.blue == 0
  }

  /** `terminalTest` holds when a pile is exactly empty. On piles that are not
      negative that is exactly when one of the single-marble moves is missing
      from `actions`, so a position that is not terminal always offers both. */
  lemma TerminalTestSpec(p: Pos)
    ensures TerminalTest(p) <==> p.red == 0 || p.blue == 0
    ensures p.red >= 0 && p.blue >= 0 ==> (TerminalTest(p) <==> !(Red1 in Actions(p) && Blue1 in Actions(p)))
  {
    ActionsExact(p);
  }

  /** The final score: 2 per red marble and 3 per blue marble. */
  function FinalScore(p: Pos): int {
    2 * p.red + 3 * p.blue
  }

  /** `utility`: 0 unless the position is terminal and the version is
      "standard" or "misere". In the standard version the final score counts
      against "computer" and for anyone else; in misère the other way round. */
  function Utility(game: NimGame, p: Pos, player: string): (u: int)
    ensures !TerminalTest(p) || (game.version != "standard" && game.version != "misere") ==> u == 0
    ensures TerminalTest(p) && game.version == "standard" ==>
              u == if player == "computer" then -FinalScore(p) else FinalScore(p)
    ensures TerminalTest(p) && game.version == "misere" ==>
              u == if player == "computer" then FinalScore(p) else -FinalScore(p)
  {
    if game.version == "standard" then
      if p.red == 0 || p.blue == 0 then
        if player == "computer" then -2 * p.red - 3 * p.blue else 2 * p.red + 3 * p.blue
      else 0
    else if game.version == "misere" && (p.red == 0 || p.blue == 0) then
      if player == "computer" then 2 * p.red + 3 * p.blue else -2 * p.red - 3 * p.blue
    else 0
  }

  /** `utility` is zero-sum between "computer" and "human", and only ever
      the final score, its negation or 0. */
  lemma UtilityZeroSum(game: NimGame, p: Pos)
    ensures Utility(game, p, "computer") == -Utility(game, p, "human")
    ensures Utility(game, p, "computer") in {FinalScore(p), -FinalScore(p), 0}
  {
  }

  /** A position that is terminal or still has a marble to take. */
  predicate Live(p: Pos) {
    TerminalTest(p) || p.red >= 1 || p.blue >= 1
  }

  /** A takeable move removes exactly its amount, lowers Marbles and leaves a
      live position. */
  lemma TakeStep(p: Pos, a: Action)
    requires CanTake(p, a)
    ensures Take(p, a).red + Take(p, a).blue == p.red + p.blue - Amount(a)
    ensures Marbles(Take(p, a)) < Marbles(p)
    ensures Live(Take(p, a))
  {
  }

  /** The position after the i-th action. */
  function Child(p: Pos, i: int): (c: Pos)
    requires 0 <= i < |Actions(p)|
    ensures Marbles(c) < Marbles(p) && Live(c)
  {
    ActionsInOrder(p);
    assert Actions(p)[i] in Actions(p);
    TakeStep(p, Actions(p)[i]);
    Take(p, Actions(p)[i])
  }

  /** A live position that is not terminal has an action. */
  lemma LiveHasAction(p: Pos)
    requires Live(p) && !TerminalTest(p)
    ensures |Actions(p)| > 0
  {
  }

  /** A non-terminal position with no negative pile has at least two actions:
      "Red 1" and "Blue 1". */
  lemma NonTerminalHasTwoActions(p: Pos)
    requires !TerminalTest(p) && p.red >= 0 && p.blue >= 0
    ensures Red1 in Actions(p) && Blue1 in Actions(p) && |Actions(p)| >= 2
  {
    ActionsInOrder(p);
  }

  function PlayerName(maxPlayer: bool): string {
    if maxPlayer then "computer" else "human"
  }

  // ---------------------------------------------------------------------
  // The searches, as functions
  // ---------------------------------------------------------------------

  /** The exhaustive minimax value: the utility of a terminal position for
      the player to move, otherwise the max (or min) over all actions, -inf
      (+inf) when there is none. */
  function Exhaustive(game: NimGame, p: Pos, maxPlayer: bool): Value
    decreases Marbles(p), 1
  {
    if TerminalTest(p) then Fin(Utility(game, p, PlayerName(maxPlayer)))
    else ExhaustiveLoop(game, p, maxPlayer, 0, Worst(maxPlayer))
  }

  function ExhaustiveLoop(game: NimGame, p: Pos, maxPlayer: bool, i: nat, acc: Value): Value
    requires i <= |Actions(p)|
    decreases Marbles(p), 0, |Actions(p)| - i
  {
    if i == |Actions(p)| then acc
    else
      var e := Exhaustive(game, Child(p, i), !maxPlayer);
      ExhaustiveLoop(game, p, maxPlayer, i + 1, if maxPlayer then Max(acc, e) else Min(acc, e))
  }

  /** `minmax(state, maxPlayer, alpha, beta, depth)`: terminal positions give
      their utility, depth None or 0 the exhaustive search, any other depth
      the alpha-beta loop with depth - 1. */
  function MinmaxValue(game: NimGame, p: Pos, maxPlayer: bool, alpha: Value, beta: Value, depth: Option<int>): Value
    decreases Marbles(p), 1
  {
    if TerminalTest(p) then Fin(Utility(game, p, PlayerName(maxPlayer)))
    else if depth.None? || depth.value == 0 then ExhaustiveLoop(game, p, maxPlayer, 0, Worst(maxPlayer))
    else PrunedLoop(game, p, maxPlayer, depth.value, 0, alpha, beta, Worst(maxPlayer))
  }

  /** The alpha-beta loop from the i-th action on; it stops right after the
      first child that makes beta <= alpha. */
  function PrunedLoop(game: NimGame, p: Pos, maxPlayer: bool, depth: int, i: nat,
                      alpha: Value, beta: Value, best: Value): Value
    requires i <= |Actions(p)|
    decreases Marbles(p), 0, |Actions(p)| - i
  {
    if i == |Actions(p)| then best
    else
      var e := MinmaxValue(game, Child(p, i), !maxPlayer, alpha, beta, Some(depth - 1));
      var best' := if maxPlayer then Max(best, e) else Min(best, e);
      var alpha' := if maxPlayer then Max(alpha, e) else alpha;
      var beta' := if maxPlayer then beta else Min(beta, e);
      if Le(beta', alpha') then best'
      else PrunedLoop(game, p, maxPlayer, depth, i + 1, alpha', beta', best')
  }

  // ---------------------------------------------------------------------
  // The searches, as methods
  // ---------------------------------------------------------------------

  /** `minmax`. */
  method Minmax(game: NimGame, state: Pos, maxPlayer: bool, alpha: Value, beta: Value, depth: Option<int>)
    returns (eval: Value)
    ensures eval == MinmaxValue(game, state, maxPlayer, alpha, beta, depth)
    decreases Marbles(state), 1
  {
    if TerminalTest(state) {
      return Fin(Utility(game, state, PlayerName(maxPlayer)));
    }
    if depth.None? || depth.value == 0 {
      if maxPlayer {
        eval := ExhaustiveMax(game, state, alpha, beta);
      } else {
        eval := ExhaustiveMin(game, state, alpha, beta);
      }
    } else if maxPlayer {
      eval := PrunedMax(game, state, alpha, beta, depth.value);
    } else {
      eval := PrunedMin(game, state, alpha, beta, depth.value);
    }
  }

  /** The exhaustive maximizing loop of `minmax` (depth None or 0); alpha and
      beta are passed along unused. */
  method ExhaustiveMax(game: NimGame, state: Pos, alpha: Value, beta: Value) returns (maxEval: Value)
    requires !TerminalTest(state)
    ensures maxEval == ExhaustiveLoop(game, state, true, 0, NegInf)
    decreases Marbles(state), 0
  {
    var moves := Actions(state);
    maxEval := NegInf;
    for i := 0 to |moves|
      invariant ExhaustiveLoop(game, state, true, i, maxEval) == ExhaustiveLoop(game, state, true, 0, NegInf)
    {
      var newState := Take(state, moves[i]);
      assert newState == Child(state, i);
      var eval := Minmax(game, newState, false, alpha, beta, None);
      maxEval := Max(maxEval, eval);
    }
  }

  /** The exhaustive minimizing loop of `minmax`. */
  method ExhaustiveMin(game: NimGame, state: Pos, alpha: Value, beta: Value) returns (minEval: Value)
    requires !TerminalTest(state)
    ensures minEval == ExhaustiveLoop(game, state, false, 0, PosInf)
    decreases Marbles(state), 0
  {
    var moves := Actions(state);
    minEval := PosInf;
    for i := 0 to |moves|
      invariant ExhaustiveLoop(game, state, false, i, minEval) == ExhaustiveLoop(game, state, false, 0, PosInf)
    {
      var newState := Take(state, moves[i]);
      assert newState == Child(state, i);
      var eval := Minmax(game, newState, true, alpha, beta, None);
      minEval := Min(minEval, eval);
    }
  }

  /** The pruned maximizing loop of `minmax`: alpha rises with every child and
      the loop breaks once beta <= alpha. */
  method PrunedMax(game: NimGame, state: Pos, alpha: Value, beta: Value, depth: int) returns (maxEval: Value)
    requires !TerminalTest(state)
    ensures maxEval == PrunedLoop(game, state, true, depth, 0, alpha, beta, NegInf)
    decreases Marbles(state), 0
  {
    var moves := Actions(state);
    var a := alpha;
    maxEval := NegInf;
    var i := 0;
    while i < |moves|
      invariant 0 <= i <= |moves|
      invariant Le(alpha, a)
      invariant PrunedLoop(game, state, true, depth, i, a, beta, maxEval)
             == PrunedLoop(game, state, true, depth, 0, alpha, beta, NegInf)
    {
      var newState := Take(state, moves[i]);
      assert newState == Child(state, i);
      var eval := Minmax(game, newState, false, a, beta, Some(depth - 1));
      maxEval := Max(maxEval, eval);
      a := Max(a, eval);
      if Le(beta, a) {
        break;
      }
      i := i + 1;
    }
  }

  /** The pruned minimizing loop of `minmax`: beta falls with every child. */
  method PrunedMin(game: NimGame, state: Pos, alpha: Value, beta: Value, depth: int) returns (minEval: Value)
    requires !TerminalTest(state)
    ensures minEval == PrunedLoop(game, state, false, depth, 0, alpha, beta, PosInf)
    decreases Marbles(state), 0
  {
    var moves := Actions(state);
    var b := beta;
    minEval := PosInf;
    var i := 0;
    while i < |moves|
      invariant 0 <= i <= |moves|
      invariant Le(b, beta)
      invariant PrunedLoop(game, state, false, depth, i, alpha, b, minEval)
             == PrunedLoop(game, state, false, depth, 0, alpha, beta, PosInf)
    {
      var newState := Take(state, moves[i]);
      assert newState == Child(state, i);
      var eval := Minmax(game, newState, true, alpha, b, Some(depth - 1));
      minEval := Min(minEval, eval);
      b := Min(b, eval);
      if Le(b, alpha) {
        break;
      }
      i := i + 1;
    }
  }

  // ---------------------------------------------------------------------
  // Properties of the search
  // ---------------------------------------------------------------------

  /** The exhaustive loop never ends below (above, when minimizing) its
      running value. */
  lemma {:induction false} ExhaustiveLoopBound(game: NimGame, p: Pos, maxPlayer: bool, i: nat, acc: Value)
    requires i <= |Actions(p)|
    ensures maxPlayer ==> Le(acc, ExhaustiveLoop(game, p, maxPlayer, i, acc))
    ensures !maxPlayer ==> Le(ExhaustiveLoop(game, p, maxPlayer, i, acc), acc)
    decreases |Actions(p)| - i
  {
    if i < |Actions(p)| {
      var e := Exhaustive(game, Child(p, i), !maxPlayer);
      ExhaustiveLoopBound(game, p, maxPlayer, i + 1, if maxPlayer then Max(acc, e) else Min(acc, e));
    }
  }

  /** With no bound on the depth the search is the exhaustive one, whatever
      the window. */
  lemma UnboundedIsExhaustive(game: NimGame, p: Pos, maxPlayer: bool, alpha: Value, beta: Value)
    ensures MinmaxValue(game, p, maxPlayer, alpha, beta, None) == Exhaustive(game, p, maxPlayer)
    ensures MinmaxValue(game, p, maxPlayer, alpha, beta, Some(0)) == Exhaustive(game, p, maxPlayer)
  {
  }

  /** Alpha-beta is fail-soft against the exhaustive search: exact inside the
      window (alpha, beta), a bound outside it. */
  lemma {:induction false} MinmaxFailSoft(game: NimGame, p: Pos, maxPlayer: bool, alpha: Value, beta: Value,
                                          depth: Option<int>)
    requires Lt(alpha, beta)
    ensures FailSoft(MinmaxValue(game, p, maxPlayer, alpha, beta, depth), Exhaustive(game, p, maxPlayer), alpha, beta)
    decreases Marbles(p), 1
  {
    if TerminalTest(p) || depth.None? || depth.value == 0 {
    } else if maxPlayer {
      MaxLoopFailSoft(game, p, depth.value, 0, alpha, beta, NegInf, NegInf);
    } else {
      MinLoopFailSoft(game, p, depth.value, 0, alpha, beta, PosInf, PosInf);
    }
  }

  /** The maximizing loop from action i on: `best` is the pruned maximum so
      far, `past` the exhaustive one, and alpha has risen to Max(alpha0, best)
      without reaching beta. */
  lemma {:induction false} MaxLoopFailSoft(game: NimGame, p: Pos, depth: int, i: nat, alpha0: Value, beta: Value,
                                           best: Value, past: Value)
    requires i <= |Actions(p)|
    requires Lt(Max(alpha0, best), beta)
    requires Le(past, best) && (Lt(alpha0, best) ==> past == best)
    ensures FailSoft(PrunedLoop(game, p, true, depth, i, Max(alpha0, best), beta, best),
                     ExhaustiveLoop(game, p, true, i, past), alpha0, beta)
    decreases Marbles(p), 0, |Actions(p)| - i
  {
    if i < |Actions(p)| {
      var child := Child(p, i);
      var a := Max(alpha0, best);
      MinmaxFailSoft(game, child, false, a, beta, Some(depth - 1));
      var e := MinmaxValue(game, child, false, a, beta, Some(depth - 1));
      var f := Exhaustive(game, child, false);
      assert ExhaustiveLoop(game, p, true, i, past) == ExhaustiveLoop(game, p, true, i + 1, Max(past, f));
      if Le(beta, Max(a, e)) {
        assert PrunedLoop(game, p, true, depth, i, a, beta, best) == Max(best, e);
        ExhaustiveLoopBound(game, p, true, i + 1, Max(past, f));
        MaxCut(alpha0, beta, best, past, e, f, ExhaustiveLoop(game, p, true, i + 1, Max(past, f)));
      } else {
        assert PrunedLoop(game, p, true, depth, i, a, beta, best)
            == PrunedLoop(game, p, true, depth, i + 1, Max(a, e), beta, Max(best, e));
        MaxContinue(alpha0, beta, best, past, e, f);
        MaxLoopFailSoft(game, p, depth, i + 1, alpha0, beta, Max(best, e), Max(past, f));
      }
    }
  }

  /** A maximizing child at or above beta: the loop's result is that child's
      value, a lower bound on the exhaustive maximum. */
  lemma MaxCut(alpha0: Value, beta: Value, best: Value, past: Value, e: Value, f: Value, rest: Value)
    requires Lt(Max(alpha0, best), beta) && Le(past, best)
    requires FailSoft(e, f, Max(alpha0, best), beta)
    requires Le(beta, Max(Max(alpha0, best), e))
    requires Le(Max(past, f), rest)
    ensures FailSoft(Max(best, e), rest, alpha0, beta)
  {
  }

  /** A maximizing child below beta keeps the loop's requirements. */
  lemma MaxContinue(alpha0: Value, beta: Value, best: Value, past: Value, e: Value, f: Value)
    requires Lt(Max(alpha0, best), beta) && Le(past, best) && (Lt(alpha0, best) ==> past == best)
    requires FailSoft(e, f, Max(alpha0, best), beta)
    requires !Le(beta, Max(Max(alpha0, best), e))
    ensures Max(alpha0, Max(best, e)) == Max(Max(alpha0, best), e)
    ensures Lt(Max(alpha0, Max(best, e)), beta)
    ensures Le(Max(past, f), Max(best, e)) && (Lt(alpha0, Max(best, e)) ==> Max(past, f) == Max(best, e))
  {
  }

  /** The minimizing loop, symmetric to MaxLoopFailSoft. */
  lemma {:induction false} MinLoopFailSoft(game: NimGame, p: Pos, depth: int, i: nat, alpha: Value, beta0: Value,
                                           best: Value, past: Value)
    requires i <= |Actions(p)|
    requires Lt(alpha, Min(beta0, best))
    requires Le(best, past) && (Lt(best, beta0) ==> past == best)
    ensures FailSoft(PrunedLoop(game, p, false, depth, i, alpha, Min(beta0, best), best),
                     ExhaustiveLoop(game, p, false, i, past), alpha, beta0)
    decreases Marbles(p), 0, |Actions(p)| - i
  {
    if i < |Actions(p)| {
      var child := Child(p, i);
      var b := Min(beta0, best);
      MinmaxFailSoft(game, child, true, alpha, b, Some(depth - 1));
      var e := MinmaxValue(game, child, true, alpha, b, Some(depth - 1));
      var f := Exhaustive(game, child, true);
      assert ExhaustiveLoop(game, p, false, i, past) == ExhaustiveLoop(game, p, false, i + 1, Min(past, f));
      if Le(Min(b, e), alpha) {
        assert PrunedLoop(game, p, false, depth, i, alpha, b, best) == Min(best, e);
        ExhaustiveLoopBound(game, p, false, i + 1, Min(past, f));
        MinCut(alpha, beta0, best, past, e, f, ExhaustiveLoop(game, p, false, i + 1, Min(past, f)));
      } else {
        assert PrunedLoop(game, p, false, depth, i, alpha, b, best)
            == PrunedLoop(game, p, false, depth, i + 1, alpha, Min(b, e), Min(best, e));
        MinContinue(alpha, beta0, best, past, e, f);
        MinLoopFailSoft(game, p, depth, i + 1, alpha, beta0, Min(best, e), Min(past, f));
      }
    }
  }

  lemma MinCut(alpha: Value, beta0: Value, best: Value, past: Value, e: Value, f: Value, rest: Value)
    requires Lt(alpha, Min(beta0, best)) && Le(best, past)
    requires FailSoft(e, f, alpha, Min(beta0, best))
    requires Le(Min(Min(beta0, best), e), alpha)
    requires Le(rest, Min(past, f))
    ensures FailSoft(Min(best, e), rest, alpha, beta0)
  {
  }

  lemma MinContinue(alpha: Value, beta0: Value, best: Value, past: Value, e: Value, f: Value)
    requires Lt(alpha, Min(beta0, best)) && Le(best, past) && (Lt(best, beta0) ==> past == best)
    requires FailSoft(e, f, alpha, Min(beta0, best))
    requires !Le(Min(Min(beta0, best), e), alpha)
    ensures Min(beta0, Min(best, e)) == Min(Min(beta0, best), e)
    ensures Lt(alpha, Min(beta0, Min(best, e)))
    ensures Le(Min(best, e), Min(past, f)) && (Lt(Min(best, e), beta0) ==> Min(past, f) == Min(best, e))
  {
  }

  /** From the window (-inf, +inf) the pruned search returns the exhaustive
      value, whatever the depth. */
  lemma FullWindowIsExhaustive(game: NimGame, p: Pos, maxPlayer: bool, depth: Option<int>)
    ensures MinmaxValue(game, p, maxPlayer, NegInf, PosInf, depth) == Exhaustive(game, p, maxPlayer)
  {
    MinmaxFailSoft(game, p, maxPlayer, NegInf, PosInf, depth);
  }

  /** A live position has a finite exhaustive value. */
  lemma {:induction false} ExhaustiveFinite(game: NimGame, p: Pos, maxPlayer: bool)
    requires Live(p)
    ensures Exhaustive(game, p, maxPlayer).Fin?
    decreases Marbles(p), 1
  {
    if !TerminalTest(p) {
      LiveHasAction(p);
      ExhaustiveLoopFinite(game, p, maxPlayer, 0, Worst(maxPlayer));
    }
  }

  lemma {:induction false} ExhaustiveLoopFinite(game: NimGame, p: Pos, maxPlayer: bool, i: nat, acc: Value)
    requires i <= |Actions(p)|
    requires (acc == Worst(maxPlayer) && i < |Actions(p)|) || acc.Fin?
    ensures ExhaustiveLoop(game, p, maxPlayer, i, acc).Fin?
    decreases Marbles(p), 0, |Actions(p)| - i
  {
    if i < |Actions(p)| {
      var e := Exhaustive(game, Child(p, i), !maxPlayer);
      ExhaustiveFinite(game, Child(p, i), !maxPlayer);
      ExhaustiveLoopFinite(game, p, maxPlayer, i + 1, if maxPlayer then Max(acc, e) else Min(acc, e));
    }
  }

  // ---------------------------------------------------------------------
  // The computer's move
  // ---------------------------------------------------------------------

  /** The order `computerMove` tries moves in: standard for "standard", the
      misère order for any other version. */
  function ComputerOrder(game: NimGame): seq<Action> {
    if game.version == "standard" then StandardMoves else MisereMoves
  }

  /** The exhaustive value, for the human to move, of the position after `a`. */
  function MoveValue(game: NimGame, p: Pos, a: Action): Value {
    Exhaustive(game, Take(p, a), false)
  }

  /** Where a move sits in the computer's move order. */
  function OrderIndex(game: NimGame, a: Action): (k: int)
    ensures 0 <= k < |ComputerOrder(game)| && ComputerOrder(game)[k] == a
  {
    MisereIsReversed();
    var j := match a case Red2 => 0 case Blue2 => 1 case Red1 => 2 case Blue1 => 3;
    if game.version == "standard" then j else 3 - j
  }

  /** Both move orders list the four moves once each. */
  lemma ComputerOrderDistinct(game: NimGame)
    ensures |ComputerOrder(game)| == 4
    ensures forall j, k :: 0 <= j < k < |ComputerOrder(game)| ==> ComputerOrder(game)[j] != ComputerOrder(game)[k]
  {
    MisereIsReversed();
  }

  /** The search `computerMove` runs on a legal move returns that move's
      exhaustive value, and the value is finite. */
  lemma MoveSearch(game: NimGame, p: Pos, a: Action)
    requires CanTake(p, a)
    ensures MinmaxValue(game, Take(p, a), false, NegInf, PosInf, game.depth) == MoveValue(game, p, a)
    ensures MoveValue(game, p, a).Fin?
  {
    TakeStep(p, a);
    FullWindowIsExhaustive(game, Take(p, a), false, game.depth);
    ExhaustiveFinite(game, Take(p, a), false);
  }

  /** One step of `computerMove`: the position after the move, searched with
      the window (-inf, +inf) and the game's depth, for the human to move. */
  method SearchMove(game: NimGame, state: Pos, move: Action) returns (eval: Value)
    requires CanTake(state, move)
    ensures eval == MoveValue(game, state, move) && eval.Fin?
  {
    MoveSearch(game, state, move);
    var newState := Take(state, move);
    eval := Minmax(game, newState, false, NegInf, PosInf, game.depth);
  }

  /** What `computerMove` knows after trying the first i moves of its order:
      no move found iff none of them is legal; otherwise the kept move sits at
      index `at`, every legal move tried is no better, and every legal move
      tried before it is strictly worse. */
  ghost predicate Scanned(game: NimGame, state: Pos, i: int, bestMove: Option<Action>, bestEval: Value, at: int)
    requires 0 <= i <= |ComputerOrder(game)|
  {
    var order := ComputerOrder(game);
    && (bestMove.None? <==> forall j :: 0 <= j < i ==> !CanTake(state, order[j]))
    && (bestMove.None? ==> bestEval == NegInf)
    && (bestMove.Some? ==>
          && 0 <= at < i && order[at] == bestMove.value && CanTake(state, bestMove.value)
          && bestEval == MoveValue(game, state, bestMove.value) && bestEval.Fin?
          && forall j :: 0 <= j < at && CanTake(state, order[j]) ==> Lt(MoveValue(game, state, order[j]), bestEval))
    && (forall j :: 0 <= j < i && CanTake(state, order[j]) ==> Le(MoveValue(game, state, order[j]), bestEval))
  }

  /** One iteration of `computerMove`'s loop keeps Scanned. */
  lemma ScanStep(game: NimGame, state: Pos, i: int, bestMove: Option<Action>, bestEval: Value, at: int)
    requires 0 <= i < |ComputerOrder(game)| && Scanned(game, state, i, bestMove, bestEval, at)
    ensures var move := ComputerOrder(game)[i];
            if CanTake(state, move) && Lt(bestEval, MoveValue(game, state, move))
            then Scanned(game, state, i + 1, Some(move), MoveValue(game, state, move), i)
            else Scanned(game, state, i + 1, bestMove, bestEval, at)
  {
    var move := ComputerOrder(game)[i];
    if CanTake(state, move) {
      MoveSearch(game, state, move);
    }
  }

  /** Scanned over the whole order gives `computerMove`'s contract. */
  lemma ScanDone(game: NimGame, state: Pos, bestMove: Option<Action>, bestEval: Value, at: int)
    requires Scanned(game, state, |ComputerOrder(game)|, bestMove, bestEval, at)
    ensures bestMove.None? <==> |Actions(state)| == 0
    ensures bestMove.Some? ==> bestMove.value in Actions(state)
    ensures bestMove.Some? ==>
              forall a :: a in Actions(state) ==> Le(MoveValue(game, state, a), MoveValue(game, state, bestMove.value))
    ensures bestMove.Some? ==>
              forall j, k :: 0 <= j < k < |ComputerOrder(game)| && ComputerOrder(game)[k] == bestMove.value &&
                             ComputerOrder(game)[j] in Actions(state)
                ==> Lt(MoveValue(game, state, ComputerOrder(game)[j]), MoveValue(game, state, bestMove.value))
  {
    ActionsInOrder(state);
    ComputerOrderDistinct(game);
    if |Actions(state)| > 0 {
      var k := OrderIndex(game, Actions(state)[0]);
      assert Actions(state)[0] in Actions(state);
    }
    forall a | a in Actions(state) && bestMove.Some?
      ensures Le(MoveValue(game, state, a), bestEval)
    {
      var k := OrderIndex(game, a);
    }
  }

  /** `computerMove`: each legal move, in the version's order, is searched
      with the window (-inf, +inf) (the root never narrows it) and the game's
      depth; a move replaces the best one only with a strictly greater value.
      It returns None exactly when no move is legal; otherwise a legal move
      that no legal move beats and that beats every legal move tried before it. */
  method ComputerMove(game: NimGame, state: Pos) returns (bestMove: Option<Action>)
    ensures bestMove.None? <==> |Actions(state)| == 0
    ensures bestMove.Some? ==> bestMove.value in Actions(state)
    ensures bestMove.Some? ==>
              forall a :: a in Actions(state) ==> Le(MoveValue(game, state, a), MoveValue(game, state, bestMove.value))
    ensures bestMove.Some? ==>
              forall j, k :: 0 <= j < k < |ComputerOrder(game)| && ComputerOrder(game)[k] == bestMove.value &&
                             ComputerOrder(game)[j] in Actions(state)
                ==> Lt(MoveValue(game, state, ComputerOrder(game)[j]), MoveValue(game, state, bestMove.value))
  {
    ActionsInOrder(state);
    bestMove := None;
    var bestEval := NegInf;
    var moves := Actions(state);
    var moveOrder := ComputerOrder(game);
    ghost var at := 0;
    for i := 0 to |moveOrder|
      invariant Scanned(game, state, i, bestMove, bestEval, at)
    {
      var move := moveOrder[i];
      ScanStep(game, state, i, bestMove, bestEval, at);
      if move in moves {
        var eval := SearchMove(game, state, move);
        if Lt(bestEval, eval) {
          bestEval := eval;
          bestMove := Some(move);
          at := i;
        }
      }
    }
    ScanDone(game, state, bestMove, bestEval, at);
  }
}
