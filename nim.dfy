/** Red-Blue Nim: two piles of marbles, a player removes one or two marbles
    of one colour per turn, and the game ends as soon as a pile is empty.
    This module models the engine of A2_Game_Playing_Problems/red_blue_nim.py
    (the copy under game_playing/ has the same code): the game state object,
    the clamped move, the move generator, the evaluation function, minimax
    with alpha-beta pruning, and the turn loop with its winner and score. */
module Nim {

  datatype Option<T> = None | Some(value: T)

  // ---------------------------------------------------------------------
  // Search values: the integers extended with the two float sentinels
  // float("-inf") and float("inf") that the search starts from.
  // ---------------------------------------------------------------------

  datatype Value = NegInf | Fin(n: int) | PosInf

  predicate Le(a: Value, b: Value) {
    match a
    case NegInf => true
    case Fin(x) => b.PosInf? || (b.Fin? && x <= b.n)
    case PosInf => b.PosInf?
  }

  predicate Lt(a: Value, b: Value) {
    !Le(b, a)
  }

  /** Python's max(a, b): the first argument unless the second is larger. */
  function Max(a: Value, b: Value): (m: Value)
    ensures Le(a, m) && Le(b, m) && (m == a || m == b)
  {
    if Lt(a, b) then b else a
  }

  /** Python's min(a, b): the first argument unless the second is smaller. */
  function Min(a: Value, b: Value): (m: Value)
    ensures Le(m, a) && Le(m, b) && (m == a || m == b)
  {
    if Lt(b, a) then b else a
  }

  // ---------------------------------------------------------------------
  // Game state and moves
  // ---------------------------------------------------------------------

  /** A move names a colour and a number of marbles, as the tuple (color, count). */
  datatype Move = Move(color: string, count: int)

  /** The fixed priority order in which moves are generated. */
  const MoveOrder: seq<Move> := [Move("red", 2), Move("blue", 2), Move("red", 1), Move("blue", 1)]

  /** The value held by a GameState object: both counts and the version string. */
  datatype State = State(red: int, blue: int, version: string)

  predicate GameOver(s: State) {
    s.red == 0 || s.blue == 0
  }

  /** The pile a move of the given colour takes from. */
  function Pile(s: State, color: string): int {
    if color == "red" then s.red else s.blue
  }

  /** The state after `execute_move`: the named pile loses `count` marbles,
      floored at zero; any colour other than "red" and "blue" changes nothing. */
  function Apply(s: State, m: Move): (t: State)
    ensures t.version == s.version
    ensures m.color != "red" ==> t.red == s.red
    ensures m.color != "blue" ==> t.blue == s.blue
    ensures m.color == "red" || m.color == "blue" ==>
      && (Pile(s, m.color) >= m.count ==> Pile(t, m.color) == Pile(s, m.color) - m.count)
      && (Pile(s, m.color) < m.count ==> Pile(t, m.color) == 0)
  {
    if m.color == "red" then s.(red := if s.red - m.count > 0 then s.red - m.count else 0)
    else if m.color == "blue" then s.(blue := if s.blue - m.count > 0 then s.blue - m.count else 0)
    else s
  }

  /** Marbles left, counting a negative pile as empty; every legal move lowers it. */
  function Size(s: State): nat {
    (if s.red > 0 then s.red else 0) + (if s.blue > 0 then s.blue else 0)
  }

  /** A candidate move is legal when its pile holds at least `count` marbles. */
  predicate Legal(s: State, m: Move) {
    Pile(s, m.color) >= m.count
  }

  /** The candidates of `cands` that are legal in `s`, in their order. */
  function LegalIn(s: State, cands: seq<Move>): seq<Move> {
    if cands == [] then []
    else (if Legal(s, cands[0]) then [cands[0]] else []) + LegalIn(s, cands[1..])
  }

  function Reverse<T>(xs: seq<T>): (r: seq<T>)
    ensures |r| == |xs|
  {
    if xs == [] then [] else Reverse(xs[1..]) + [xs[0]]
  }

  /** The list `valid_moves(state, version)` returns: the legal moves in
      MoveOrder, reversed when the version is "misere". */
  function ValidMoves(s: State, version: string): seq<Move> {
    if version == "misere" then Reverse(LegalIn(s, MoveOrder)) else LegalIn(s, MoveOrder)
  }

  /** The moves `minmax` tries in state `s`: those for the state's own version. */
  function Moves(s: State): seq<Move> {
    ValidMoves(s, s.version)
  }

  // ---------------------------------------------------------------------
  // Evaluation
  // ---------------------------------------------------------------------

  function Abs(x: int): int {
    if x < 0 then -x else x
  }

  /** A pile holds exactly one or two marbles. */
  predicate NearLoss(s: State) {
    s.red == 1 || s.red == 2 || s.blue == 1 || s.blue == 2
  }

  /** The piles differ by three or more. */
  predicate Imbalanced(s: State) {
    Abs(s.red - s.blue) >= 3
  }

  /** `evaluate_state`: in the "standard" version, minus the marbles left,
      minus 500 when a pile holds one or two marbles, minus 100 when the piles
      differ by three or more; in any other version, minus the difference. */
  function Evaluate(s: State): (score: int)
    ensures s.red >= 0 && s.blue >= 0 ==> score <= 0
    ensures s.version == "standard" ==>
      score + s.red + s.blue == (if NearLoss(s) then -500 else 0) + (if Imbalanced(s) then -100 else 0)
    ensures s.version != "standard" ==> score == -Abs(s.red - s.blue)
  {
    if s.version == "standard" then
      var reduction := -(s.red + s.blue);
      var nearLossPenalty := if NearLoss(s) then -500 else 0;
      var balance := if Imbalanced(s) then -100 else 0;
      reduction + nearLossPenalty + balance
    else
      -Abs(s.red - s.blue)
  }

  // ---------------------------------------------------------------------
  // The game state object
  // ---------------------------------------------------------------------

  class GameState {
    var red: int
    var blue: int
    var version: string

    constructor (red: int, blue: int, version: string)
      ensures Snapshot() == State(red, blue, version)
    {
      this.red := red;
      this.blue := blue;
      this.version := version;
    }

    function Snapshot(): State
      reads this
    {
      State(red, blue, version)
    }

    /** `is_game_over`: true iff a pile is empty. */
    predicate IsGameOver()
      reads this
      ensures IsGameOver() <==> (red == 0 || blue == 0)
    {
      GameOver(Snapshot())
    }

    /** `execute_move`, in place. */
    method ExecuteMove(move: Move)
      modifies this
      ensures Snapshot() == Apply(old(Snapshot()), move)
    {
      if move.color == "red" {
        red := if red - move.count > 0 then red - move.count else 0;
      } else if move.color == "blue" {
        blue := if blue - move.count > 0 then blue - move.count else 0;
      }
    }
  }

  /** `valid_moves(game_state, version)`: appends the legal moves in the fixed
      order, then reverses the list in place for "misere". */
  method ValidMovesOf(gameState: GameState, version: string) returns (moves: seq<Move>)
    ensures moves == ValidMoves(gameState.Snapshot(), version)
  {
    ghost var s := gameState.Snapshot();
    moves := [];
    if gameState.red >= 2 {
      moves := moves + [Move("red", 2)];
    }
    if gameState.blue >= 2 {
      moves := moves + [Move("blue", 2)];
    }
    if gameState.red >= 1 {
      moves := moves + [Move("red", 1)];
    }
    if gameState.blue >= 1 {
      moves := moves + [Move("blue", 1)];
    }
    LegalInMoveOrder(s);
    assert moves == LegalIn(s, MoveOrder);
    if version == "misere" {
      moves := Reverse(moves);
    }
  }

  /** LegalIn over the four candidates, unrolled. */
  lemma LegalInMoveOrder(s: State)
    ensures LegalIn(s, MoveOrder) ==
      (if s.red >= 2 then [Move("red", 2)] else [])
      + (if s.blue >= 2 then [Move("blue", 2)] else [])
      + (if s.red >= 1 then [Move("red", 1)] else [])
      + (if s.blue >= 1 then [Move("blue", 1)] else [])
  {
    var m3 := [Move("blue", 1)];
    var m2 := [Move("red", 1)] + m3;
    var m1 := [Move("blue", 2)] + m2;
    assert MoveOrder == [Move("red", 2)] + m1;
    assert m3[1..] == [];
    assert Legal(s, Move("blue", 1)) <==> s.blue >= 1;
    assert LegalIn(s, m3) == if s.blue >= 1 then [Move("blue", 1)] else [];
    assert m2[1..] == m3;
    assert Legal(s, Move("red", 1)) <==> s.red >= 1;
    assert LegalIn(s, m2) == (if s.red >= 1 then [Move("red", 1)] else []) + LegalIn(s, m3);
    assert m1[1..] == m2;
    assert Legal(s, Move("blue", 2)) <==> s.blue >= 2;
    assert LegalIn(s, m1) == (if s.blue >= 2 then [Move("blue", 2)] else []) + LegalIn(s, m2);
    assert MoveOrder[1..] == m1;
    assert Legal(s, Move("red", 2)) <==> s.red >= 2;
    assert LegalIn(s, MoveOrder) == (if s.red >= 2 then [Move("red", 2)] else []) + LegalIn(s, m1);
  }

  lemma {:induction false} ReverseMembers<T>(xs: seq<T>)
    ensures forall x :: x in Reverse(xs) <==> x in xs
  {
    if xs != [] {
      ReverseMembers(xs[1..]);
      assert xs == [xs[0]] + xs[1..];
    }
  }

  lemma {:induction false} ReverseAt<T>(xs: seq<T>, k: int)
    requires 0 <= k < |xs|
    ensures Reverse(xs)[k] == xs[|xs| - 1 - k]
  {
    if k < |xs| - 1 {
      ReverseAt(xs[1..], k);
    }
  }

  /** `valid_moves` offers exactly the legal moves among the four candidates. */
  lemma ValidMovesExact(s: State, version: string)
    ensures forall m :: m in ValidMoves(s, version) <==> m in MoveOrder && Legal(s, m)
  {
    LegalInMoveOrder(s);
    ReverseMembers(LegalIn(s, MoveOrder));
  }

  /** The moves are listed in MoveOrder for every version except "misere",
      which gets the same list back to front. */
  lemma ValidMovesOrder(s: State, version: string)
    ensures version != "misere" ==> ValidMoves(s, version) == ValidMoves(s, "standard")
    ensures version == "misere" ==> forall k :: 0 <= k < |ValidMoves(s, version)| ==>
      ValidMoves(s, version)[k] == ValidMoves(s, "standard")[|ValidMoves(s, version)| - 1 - k]
  {
    if version == "misere" {
      forall k | 0 <= k < |ValidMoves(s, version)|
        ensures ValidMoves(s, version)[k] == ValidMoves(s, "standard")[|ValidMoves(s, version)| - 1 - k]
      {
        ReverseAt(LegalIn(s, MoveOrder), k);
      }
    }
  }

  /** Every legal move lowers the marbles left by exactly its count, and the
      state it leads to either is over or still has a move. */
  lemma LegalMoveShrinks(s: State, m: Move)
    requires m in MoveOrder && Legal(s, m)
    ensures Size(Apply(s, m)) == Size(s) - m.count
    ensures s.red >= 0 && s.blue >= 0 ==> Apply(s, m).red + Apply(s, m).blue == s.red + s.blue - m.count
    ensures CanContinue(Apply(s, m))
  {
  }

  /** A state that is over or in which a move is possible; the successor of a
      legal move always is one. */
  predicate CanContinue(s: State) {
    GameOver(s) || s.red >= 1 || s.blue >= 1
  }

  lemma ValidMoveShrinks(s: State, i: int)
    requires 0 <= i < |Moves(s)|
    ensures Moves(s)[i] in MoveOrder && Legal(s, Moves(s)[i])
    ensures Size(Apply(s, Moves(s)[i])) < Size(s)
    ensures CanContinue(Apply(s, Moves(s)[i]))
  {
    ValidMovesExact(s, s.version);
    assert Moves(s)[i] in Moves(s);
    LegalMoveShrinks(s, Moves(s)[i]);
  }

  /** On a state that is not over and has no negative pile, both single-marble
      moves are offered, so the list has at least two moves. */
  lemma NonTerminalHasMoves(s: State, version: string)
    requires s.red >= 0 && s.blue >= 0 && !GameOver(s)
    ensures Move("red", 1) in ValidMoves(s, version) && Move("blue", 1) in ValidMoves(s, version)
    ensures |ValidMoves(s, version)| >= 2
  {
    ValidMovesExact(s, version);
    LegalInMoveOrder(s);
    assert Move("red", 1) in MoveOrder && Move("blue", 1) in MoveOrder;
  }

  // ---------------------------------------------------------------------
  // Minimax with alpha-beta pruning, as a function of the state
  // ---------------------------------------------------------------------

  /** What `minmax` returns: the backed-up value and the move that produced it. */
  datatype SearchResult = SearchResult(value: Value, move: Option<Move>)

  /** `e` improves on `best` for the side to move (strictly, as `>` and `<` in the source). */
  predicate Improves(maximizing: bool, e: Value, best: Value) {
    if maximizing then Lt(best, e) else Lt(e, best)
  }

  function Worst(maximizing: bool): Value {
    if maximizing then NegInf else PosInf
  }

  /** `minmax(state, depth, alpha, beta, maximizing)`. A leaf when depth is
      exactly 0 or the game is over; otherwise the loop over `valid_moves`. */
  function Search(s: State, depth: int, alpha: Value, beta: Value, maximizing: bool): SearchResult
    decreases Size(s), 1, 0
  {
    if depth == 0 || GameOver(s) then SearchResult(Fin(Evaluate(s)), None)
    else PruneLoop(s, depth, maximizing, 0, alpha, beta, Worst(maximizing), None)
  }

  /** The loop of `minmax` from the i-th move on, with the running window and
      the best value and move found so far; it stops right after the first
      child that makes beta <= alpha. */
  function PruneLoop(s: State, depth: int, maximizing: bool, i: nat, alpha: Value, beta: Value,
                     best: Value, bestMove: Option<Move>): SearchResult
    requires i <= |Moves(s)|
    decreases Size(s), 0, |Moves(s)| - i
  {
    if i == |Moves(s)| then SearchResult(best, bestMove)
    else
      ValidMoveShrinks(s, i);
      var move := Moves(s)[i];
      var e := Search(Apply(s, move), depth - 1, alpha, beta, !maximizing).value;
      var improves := Improves(maximizing, e, best);
      var best' := if improves then e else best;
      var bestMove' := if improves then Some(move) else bestMove;
      var alpha' := if maximizing then Max(alpha, e) else alpha;
      var beta' := if maximizing then beta else Min(beta, e);
      if Le(beta', alpha') then SearchResult(best', bestMove')
      else PruneLoop(s, depth, maximizing, i + 1, alpha', beta', best', bestMove')
  }

  /** The reference: the same search without alpha-beta pruning, trying every
      move in the same order and keeping the first best one. */
  function PlainSearch(s: State, depth: int, maximizing: bool): SearchResult
    decreases Size(s), 1, 0
  {
    if depth == 0 || GameOver(s) then SearchResult(Fin(Evaluate(s)), None)
    else PlainLoop(s, depth, maximizing, 0, Worst(maximizing), None)
  }

  function PlainLoop(s: State, depth: int, maximizing: bool, i: nat,
                     best: Value, bestMove: Option<Move>): SearchResult
    requires i <= |Moves(s)|
    decreases Size(s), 0, |Moves(s)| - i
  {
    if i == |Moves(s)| then SearchResult(best, bestMove)
    else
      ValidMoveShrinks(s, i);
      var e := PlainSearch(Apply(s, Moves(s)[i]), depth - 1, !maximizing).value;
      if Improves(maximizing, e, best) then PlainLoop(s, depth, maximizing, i + 1, e, Some(Moves(s)[i]))
      else PlainLoop(s, depth, maximizing, i + 1, best, bestMove)
  }

  /** `minmax`: a leaf when depth is exactly 0 or the game is over;
      otherwise the maximizing or the minimizing loop over `valid_moves`. */
  method Minmax(gameState: GameState, depth: int, alpha: Value, beta: Value, maximizingPlayer: bool)
    returns (eval: Value, bestMove: Option<Move>)
    ensures SearchResult(eval, bestMove) == Search(gameState.Snapshot(), depth, alpha, beta, maximizingPlayer)
    decreases Size(gameState.Snapshot()), 1
  {
    if depth == 0 || gameState.IsGameOver() {
      return Fin(Evaluate(gameState.Snapshot())), None;
    }
    var possibleMoves := ValidMovesOf(gameState, gameState.version);
    if maximizingPlayer {
      eval, bestMove := MaximizeOver(gameState, possibleMoves, depth, alpha, beta);
    } else {
      eval, bestMove := MinimizeOver(gameState, possibleMoves, depth, alpha, beta);
    }
  }

  /** The maximizing loop of `minmax`: each move is executed on a fresh copy
      of the state and searched with the current window; `max_eval` and
      `best_move` change only on a strictly greater value, alpha rises, and
      the loop breaks as soon as beta <= alpha. */
  method MaximizeOver(gameState: GameState, possibleMoves: seq<Move>, depth: int, alpha: Value, beta: Value)
    returns (maxEval: Value, bestMove: Option<Move>)
    requires possibleMoves == Moves(gameState.Snapshot())
    ensures SearchResult(maxEval, bestMove) == PruneLoop(gameState.Snapshot(), depth, true, 0, alpha, beta, NegInf, None)
    decreases Size(gameState.Snapshot()), 0
  {
    ghost var s := gameState.Snapshot();
    var a := alpha;
    maxEval, bestMove := NegInf, None;
    var i := 0;
    while i < |possibleMoves|
      invariant 0 <= i <= |possibleMoves|
      invariant Le(alpha, a)
      invariant PruneLoop(s, depth, true, i, a, beta, maxEval, bestMove)
             == PruneLoop(s, depth, true, 0, alpha, beta, NegInf, None)
    {
      var move := possibleMoves[i];
      var newState := new GameState(gameState.red, gameState.blue, gameState.version);
      newState.ExecuteMove(move);
      ValidMoveShrinks(s, i);
      var evaluation, _ := Minmax(newState, depth - 1, a, beta, false);
      if Lt(maxEval, evaluation) {
        maxEval := evaluation;
        bestMove := Some(move);
      }
      a := Max(a, evaluation);
      if Le(beta, a) {
        break;
      }
      i := i + 1;
    }
  }

  /** The minimizing loop of `minmax`, symmetric to MaximizeOver: beta falls
      and `min_eval` changes only on a strictly smaller value. */
  method MinimizeOver(gameState: GameState, possibleMoves: seq<Move>, depth: int, alpha: Value, beta: Value)
    returns (minEval: Value, bestMove: Option<Move>)
    requires possibleMoves == Moves(gameState.Snapshot())
    ensures SearchResult(minEval, bestMove) == PruneLoop(gameState.Snapshot(), depth, false, 0, alpha, beta, PosInf, None)
    decreases Size(gameState.Snapshot()), 0
  {
    ghost var s := gameState.Snapshot();
    var b := beta;
    minEval, bestMove := PosInf, None;
    var i := 0;
    while i < |possibleMoves|
      invariant 0 <= i <= |possibleMoves|
      invariant Le(b, beta)
      invariant PruneLoop(s, depth, false, i, alpha, b, minEval, bestMove)
             == PruneLoop(s, depth, false, 0, alpha, beta, PosInf, None)
    {
      var move := possibleMoves[i];
      var newState := new GameState(gameState.red, gameState.blue, gameState.version);
      newState.ExecuteMove(move);
      ValidMoveShrinks(s, i);
      var evaluation, _ := Minmax(newState, depth - 1, alpha, b, true);
      if Lt(evaluation, minEval) {
        minEval := evaluation;
        bestMove := Some(move);
      }
      b := Min(b, evaluation);
      if Le(b, alpha) {
        break;
      }
      i := i + 1;
    }
  }

  // ---------------------------------------------------------------------
  // Properties of the search
  // ---------------------------------------------------------------------

  /** The bound a fail-soft alpha-beta value `g` keeps with the true value `f`
      for the window (alpha, beta): exact inside the window, an upper bound at
      or below alpha, a lower bound at or above beta. */
  ghost predicate FailSoft(g: Value, f: Value, alpha: Value, beta: Value) {
    && (Le(g, alpha) ==> Le(f, g))
    && (Lt(alpha, g) && Lt(g, beta) ==> f == g)
    && (Le(beta, g) ==> Le(g, f))
  }

  /** The unpruned loop never ends below its starting value (above, when minimizing). */
  lemma {:induction false} PlainLoopBound(s: State, depth: int, maximizing: bool, i: nat,
                                          best: Value, bestMove: Option<Move>)
    requires i <= |Moves(s)|
    ensures !Improves(maximizing, best, PlainLoop(s, depth, maximizing, i, best, bestMove).value)
    decreases |Moves(s)| - i
  {
    if i < |Moves(s)| {
      ValidMoveShrinks(s, i);
      var e := PlainSearch(Apply(s, Moves(s)[i]), depth - 1, !maximizing).value;
      if Improves(maximizing, e, best) {
        PlainLoopBound(s, depth, maximizing, i + 1, e, Some(Moves(s)[i]));
      } else {
        PlainLoopBound(s, depth, maximizing, i + 1, best, bestMove);
      }
    }
  }

  /** Once the unpruned loop holds the best value there is (+inf when
      maximizing), nothing replaces it. */
  lemma {:induction false} PlainLoopSaturated(s: State, depth: int, maximizing: bool, i: nat,
                                              bestMove: Option<Move>)
    requires i <= |Moves(s)|
    ensures PlainLoop(s, depth, maximizing, i, Worst(!maximizing), bestMove)
         == SearchResult(Worst(!maximizing), bestMove)
    decreases |Moves(s)| - i
  {
    if i < |Moves(s)| {
      PlainLoopSaturated(s, depth, maximizing, i + 1, bestMove);
    }
  }

  /** Alpha-beta is fail-soft: for any window with alpha < beta, the pruned
      value relates to the unpruned value as FailSoft says. */
  lemma {:induction false} SearchFailSoft(s: State, depth: int, alpha: Value, beta: Value, maximizing: bool)
    requires Lt(alpha, beta)
    ensures FailSoft(Search(s, depth, alpha, beta, maximizing).value,
                     PlainSearch(s, depth, maximizing).value, alpha, beta)
    decreases Size(s), 1, 0
  {
    if depth == 0 || GameOver(s) {
    } else if maximizing {
      MaxLoopFailSoft(s, depth, 0, alpha, beta, NegInf, None, NegInf, None);
    } else {
      MinLoopFailSoft(s, depth, 0, alpha, beta, PosInf, None, PosInf, None);
    }
  }

  /** The maximizing loop, from move i on: `best` is the best pruned value so
      far, `past` the best unpruned value so far, and alpha has risen to
      Max(alpha0, best) without reaching beta. */
  lemma {:induction false} MaxLoopFailSoft(s: State, depth: int, i: nat, alpha0: Value, beta: Value,
                                           best: Value, bestMove: Option<Move>,
                                           past: Value, pastMove: Option<Move>)
    requires i <= |Moves(s)|
    requires Lt(Max(alpha0, best), beta)
    requires Le(past, best) && (Lt(alpha0, best) ==> past == best)
    ensures FailSoft(PruneLoop(s, depth, true, i, Max(alpha0, best), beta, best, bestMove).value,
                     PlainLoop(s, depth, true, i, past, pastMove).value, alpha0, beta)
    decreases Size(s), 0, |Moves(s)| - i
  {
    if i < |Moves(s)| {
      ValidMoveShrinks(s, i);
      var move := Moves(s)[i];
      var child := Apply(s, move);
      var a := Max(alpha0, best);
      SearchFailSoft(child, depth - 1, a, beta, false);
      var e := Search(child, depth - 1, a, beta, false).value;
      var f := PlainSearch(child, depth - 1, false).value;
      var best' := if Lt(best, e) then e else best;
      var bestMove' := if Lt(best, e) then Some(move) else bestMove;
      var past' := if Lt(past, f) then f else past;
      var pastMove' := if Lt(past, f) then Some(move) else pastMove;
      assert PlainLoop(s, depth, true, i, past, pastMove) == PlainLoop(s, depth, true, i + 1, past', pastMove');
      if Le(beta, Max(a, e)) {
        PlainLoopBound(s, depth, true, i + 1, past', pastMove');
      } else {
        assert Max(alpha0, best') == Max(a, e);
        MaxLoopFailSoft(s, depth, i + 1, alpha0, beta, best', bestMove', past', pastMove');
      }
    }
  }

  /** The minimizing loop, symmetric to MaxLoopFailSoft. */
  lemma {:induction false} MinLoopFailSoft(s: State, depth: int, i: nat, alpha: Value, beta0: Value,
                                           best: Value, bestMove: Option<Move>,
                                           past: Value, pastMove: Option<Move>)
    requires i <= |Moves(s)|
    requires Lt(alpha, Min(beta0, best))
    requires Le(best, past) && (Lt(best, beta0) ==> past == best)
    ensures FailSoft(PruneLoop(s, depth, false, i, alpha, Min(beta0, best), best, bestMove).value,
                     PlainLoop(s, depth, false, i, past, pastMove).value, alpha, beta0)
    decreases Size(s), 0, |Moves(s)| - i
  {
    if i < |Moves(s)| {
      ValidMoveShrinks(s, i);
      var move := Moves(s)[i];
      var child := Apply(s, move);
      var b := Min(beta0, best);
      SearchFailSoft(child, depth - 1, alpha, b, true);
      var e := Search(child, depth - 1, alpha, b, true).value;
      var f := PlainSearch(child, depth - 1, true).value;
      var best' := if Lt(e, best) then e else best;
      var bestMove' := if Lt(e, best) then Some(move) else bestMove;
      var past' := if Lt(f, past) then f else past;
      var pastMove' := if Lt(f, past) then Some(move) else pastMove;
      assert PlainLoop(s, depth, false, i, past, pastMove) == PlainLoop(s, depth, false, i + 1, past', pastMove');
      if Le(Min(b, e), alpha) {
        PlainLoopBound(s, depth, false, i + 1, past', pastMove');
      } else {
        assert Min(beta0, best') == Min(b, e);
        MinLoopFailSoft(s, depth, i + 1, alpha, beta0, best', bestMove', past', pastMove');
      }
    }
  }

  /** For any window, a non-leaf search returns no move exactly when no child
      improved on the initial -inf (+inf when minimizing), and a returned move
      is one of `valid_moves` whose child, searched with the window the loop
      had reached when it was tried, has exactly the returned value. */
  lemma SearchMoveSound(s: State, depth: int, alpha: Value, beta: Value, maximizing: bool)
    requires depth != 0 && !GameOver(s)
    ensures Search(s, depth, alpha, beta, maximizing).move.None?
        <==> Search(s, depth, alpha, beta, maximizing).value == Worst(maximizing)
    ensures Search(s, depth, alpha, beta, maximizing).move.Some? ==>
              Search(s, depth, alpha, beta, maximizing).move.value in Moves(s)
    ensures Search(s, depth, alpha, beta, maximizing).move.Some? ==>
              exists k, a, b :: 0 <= k < |Moves(s)| &&
                Search(s, depth, alpha, beta, maximizing) == SearchResult(WindowChildValue(s, depth, maximizing, k, a, b), Some(Moves(s)[k]))
  {
    PruneLoopMove(s, depth, maximizing, 0, alpha, beta, Worst(maximizing), None);
    var k, a, b := PruneLoopChild(s, depth, maximizing, 0, alpha, beta, Worst(maximizing), None);
  }

  /** The value of the j-th child searched with the window (a, b). */
  function WindowChildValue(s: State, depth: int, maximizing: bool, j: int, a: Value, b: Value): Value
    requires 0 <= j < |Moves(s)|
  {
    Search(Apply(s, Moves(s)[j]), depth - 1, a, b, !maximizing).value
  }

  /** From any point of the loop, the result is either the running best
      unchanged or the k-th move together with the value its child returned
      under the window (a, b) the loop had reached by then. */
  lemma {:induction false} PruneLoopChild(s: State, depth: int, maximizing: bool, i: nat, alpha: Value, beta: Value,
                                          best: Value, bestMove: Option<Move>)
      returns (k: nat, a: Value, b: Value)
    requires i <= |Moves(s)|
    ensures || PruneLoop(s, depth, maximizing, i, alpha, beta, best, bestMove) == SearchResult(best, bestMove)
            || (&& i <= k < |Moves(s)|
                && PruneLoop(s, depth, maximizing, i, alpha, beta, best, bestMove) ==
                     SearchResult(WindowChildValue(s, depth, maximizing, k, a, b), Some(Moves(s)[k])))
    decreases |Moves(s)| - i
  {
    k, a, b := i, alpha, beta;
    if i < |Moves(s)| {
      ValidMoveShrinks(s, i);
      var move := Moves(s)[i];
      var e := Search(Apply(s, move), depth - 1, alpha, beta, !maximizing).value;
      var improves := Improves(maximizing, e, best);
      var best' := if improves then e else best;
      var bestMove' := if improves then Some(move) else bestMove;
      var alpha' := if maximizing then Max(alpha, e) else alpha;
      var beta' := if maximizing then beta else Min(beta, e);
      if !Le(beta', alpha') {
        var k', a', b' := PruneLoopChild(s, depth, maximizing, i + 1, alpha', beta', best', bestMove');
        if PruneLoop(s, depth, maximizing, i + 1, alpha', beta', best', bestMove') != SearchResult(best', bestMove') {
          k, a, b := k', a', b';
        }
      }
    }
  }

  lemma {:induction false} PruneLoopMove(s: State, depth: int, maximizing: bool, i: nat, alpha: Value, beta: Value,
                                         best: Value, bestMove: Option<Move>)
    requires i <= |Moves(s)|
    requires bestMove.None? <==> best == Worst(maximizing)
    requires bestMove.Some? ==> bestMove.value in Moves(s)
    ensures PruneLoop(s, depth, maximizing, i, alpha, beta, best, bestMove).move.None?
        <==> PruneLoop(s, depth, maximizing, i, alpha, beta, best, bestMove).value == Worst(maximizing)
    ensures PruneLoop(s, depth, maximizing, i, alpha, beta, best, bestMove).move.Some? ==>
              PruneLoop(s, depth, maximizing, i, alpha, beta, best, bestMove).move.value in Moves(s)
    decreases |Moves(s)| - i
  {
    if i < |Moves(s)| {
      ValidMoveShrinks(s, i);
      var move := Moves(s)[i];
      var e := Search(Apply(s, move), depth - 1, alpha, beta, !maximizing).value;
      var improves := Improves(maximizing, e, best);
      var best' := if improves then e else best;
      var bestMove' := if improves then Some(move) else bestMove;
      var alpha' := if maximizing then Max(alpha, e) else alpha;
      var beta' := if maximizing then beta else Min(beta, e);
      if !Le(beta', alpha') {
        PruneLoopMove(s, depth, maximizing, i + 1, alpha', beta', best', bestMove');
      }
    }
  }

  /** With the full window (-inf, +inf), as the turn loop calls it, pruning
      changes nothing: the pruned search returns the same value AND the same
      move as the unpruned one. */
  lemma {:induction false} FullWindowEqualsPlain(s: State, depth: int, maximizing: bool)
    ensures Search(s, depth, NegInf, PosInf, maximizing) == PlainSearch(s, depth, maximizing)
  {
    if depth == 0 || GameOver(s) {
    } else if maximizing {
      MaxLoopFullWindow(s, depth, 0, NegInf, None);
    } else {
      MinLoopFullWindow(s, depth, 0, PosInf, None);
    }
  }

  /** The maximizing loop under the window (best, +inf): alpha always equals
      the best value so far and the loop is only cut by a +inf child, after
      which the unpruned loop changes nothing either. */
  lemma {:induction false} MaxLoopFullWindow(s: State, depth: int, i: nat, best: Value, bestMove: Option<Move>)
    requires i <= |Moves(s)|
    requires Lt(best, PosInf)
    ensures PruneLoop(s, depth, true, i, best, PosInf, best, bestMove) == PlainLoop(s, depth, true, i, best, bestMove)
    decreases |Moves(s)| - i
  {
    if i < |Moves(s)| {
      ValidMoveShrinks(s, i);
      var move := Moves(s)[i];
      var child := Apply(s, move);
      SearchFailSoft(child, depth - 1, best, PosInf, false);
      var e := Search(child, depth - 1, best, PosInf, false).value;
      var f := PlainSearch(child, depth - 1, false).value;
      if Le(e, best) {
        assert !Lt(best, f);
        MaxLoopFullWindow(s, depth, i + 1, best, bestMove);
      } else if e == PosInf {
        assert f == PosInf;
        PlainLoopSaturated(s, depth, true, i + 1, Some(move));
      } else {
        assert f == e;
        MaxLoopFullWindow(s, depth, i + 1, e, Some(move));
      }
    }
  }

  /** The minimizing loop under the window (-inf, best), symmetric to MaxLoopFullWindow. */
  lemma {:induction false} MinLoopFullWindow(s: State, depth: int, i: nat, best: Value, bestMove: Option<Move>)
    requires i <= |Moves(s)|
    requires Lt(NegInf, best)
    ensures PruneLoop(s, depth, false, i, NegInf, best, best, bestMove) == PlainLoop(s, depth, false, i, best, bestMove)
    decreases |Moves(s)| - i
  {
    if i < |Moves(s)| {
      ValidMoveShrinks(s, i);
      var move := Moves(s)[i];
      var child := Apply(s, move);
      SearchFailSoft(child, depth - 1, NegInf, best, true);
      var e := Search(child, depth - 1, NegInf, best, true).value;
      var f := PlainSearch(child, depth - 1, true).value;
      if Le(best, e) {
        assert !Lt(f, best);
        MinLoopFullWindow(s, depth, i + 1, best, bestMove);
      } else if e == NegInf {
        assert f == NegInf;
        PlainLoopSaturated(s, depth, false, i + 1, Some(move));
      } else {
        assert f == e;
        MinLoopFullWindow(s, depth, i + 1, e, Some(move));
      }
    }
  }

  /** A state that is over, or that has a pile to take from, always has a
      finite value, and a non-leaf one always has a best move. */
  lemma {:induction false} PlainSearchFinite(s: State, depth: int, maximizing: bool)
    requires CanContinue(s)
    ensures PlainSearch(s, depth, maximizing).value.Fin?
    ensures depth != 0 && !GameOver(s) ==> PlainSearch(s, depth, maximizing).move.Some?
    decreases Size(s), 1, 0
  {
    if depth != 0 && !GameOver(s) {
      var m := if s.red >= 1 then Move("red", 1) else Move("blue", 1);
      ValidMovesExact(s, s.version);
      assert m in MoveOrder;
      assert m in Moves(s);
      PlainLoopFinite(s, depth, maximizing, 0, Worst(maximizing), None);
    }
  }

  lemma {:induction false} PlainLoopFinite(s: State, depth: int, maximizing: bool, i: nat,
                                           best: Value, bestMove: Option<Move>)
    requires CanContinue(s) && i <= |Moves(s)|
    requires (best == Worst(maximizing) && i < |Moves(s)|) || (best.Fin? && bestMove.Some?)
    ensures PlainLoop(s, depth, maximizing, i, best, bestMove).value.Fin?
    ensures PlainLoop(s, depth, maximizing, i, best, bestMove).move.Some?
    decreases Size(s), 0, |Moves(s)| - i
  {
    if i < |Moves(s)| {
      ValidMoveShrinks(s, i);
      var child := Apply(s, Moves(s)[i]);
      PlainSearchFinite(child, depth - 1, !maximizing);
      var e := PlainSearch(child, depth - 1, !maximizing).value;
      if Improves(maximizing, e, best) {
        PlainLoopFinite(s, depth, maximizing, i + 1, e, Some(Moves(s)[i]));
      } else {
        PlainLoopFinite(s, depth, maximizing, i + 1, best, bestMove);
      }
    }
  }

  /** The unpruned value of the j-th child, searched one ply deeper by the other side. */
  function ChildValue(s: State, depth: int, maximizing: bool, j: int): Value
    requires 0 <= j < |Moves(s)|
  {
    PlainSearch(Apply(s, Moves(s)[j]), depth - 1, !maximizing).value
  }

  /** The unpruned loop from move i on either keeps `best` (no later child
      improves on it) or ends at child k: k improves on `best`, is strictly
      better than every child before it and no child after it is better. */
  lemma {:induction false} PlainLoopScan(s: State, depth: int, maximizing: bool, i: nat,
                                         best: Value, bestMove: Option<Move>) returns (k: int)
    requires i <= |Moves(s)|
    ensures k == -1 || i <= k < |Moves(s)|
    ensures k == -1 ==>
              && PlainLoop(s, depth, maximizing, i, best, bestMove) == SearchResult(best, bestMove)
              && forall j :: i <= j < |Moves(s)| ==> !Improves(maximizing, ChildValue(s, depth, maximizing, j), best)
    ensures i <= k < |Moves(s)| ==>
              && PlainLoop(s, depth, maximizing, i, best, bestMove)
                 == SearchResult(ChildValue(s, depth, maximizing, k), Some(Moves(s)[k]))
              && Improves(maximizing, ChildValue(s, depth, maximizing, k), best)
              && (forall j :: i <= j < k ==>
                    Improves(maximizing, ChildValue(s, depth, maximizing, k), ChildValue(s, depth, maximizing, j)))
              && (forall j :: k < j < |Moves(s)| ==>
                    !Improves(maximizing, ChildValue(s, depth, maximizing, j), ChildValue(s, depth, maximizing, k)))
    decreases |Moves(s)| - i
  {
    if i == |Moves(s)| {
      return -1;
    }
    ValidMoveShrinks(s, i);
    var e := ChildValue(s, depth, maximizing, i);
    if Improves(maximizing, e, best) {
      var k' := PlainLoopScan(s, depth, maximizing, i + 1, e, Some(Moves(s)[i]));
      if k' == -1 {
        k := i;
      } else {
        k := k';
        var v := ChildValue(s, depth, maximizing, k);
        ImprovesTrans(maximizing, v, e, best);
      }
    } else {
      k := PlainLoopScan(s, depth, maximizing, i + 1, best, bestMove);
      if k != -1 {
        var v := ChildValue(s, depth, maximizing, k);
        ImprovesOver(maximizing, v, best, e);
      }
    }
  }

  lemma ImprovesTrans(maximizing: bool, a: Value, b: Value, c: Value)
    requires Improves(maximizing, a, b) && Improves(maximizing, b, c)
    ensures Improves(maximizing, a, c)
  {
  }

  lemma ImprovesOver(maximizing: bool, a: Value, b: Value, c: Value)
    requires Improves(maximizing, a, b) && !Improves(maximizing, c, b)
    ensures Improves(maximizing, a, c)
  {
  }

  /** The unpruned search (and so, by FullWindowEqualsPlain, the full-window
      alpha-beta search) picks the FIRST best move in `valid_moves` order:
      its value is that child's value, every earlier child is strictly worse
      and no child is better. */
  lemma PlainSearchFirstBest(s: State, depth: int, maximizing: bool) returns (k: nat)
    requires CanContinue(s) && depth != 0 && !GameOver(s)
    ensures k < |Moves(s)|
    ensures PlainSearch(s, depth, maximizing) == SearchResult(ChildValue(s, depth, maximizing, k), Some(Moves(s)[k]))
    ensures forall j :: 0 <= j < k ==>
              Improves(maximizing, ChildValue(s, depth, maximizing, k), ChildValue(s, depth, maximizing, j))
    ensures forall j :: 0 <= j < |Moves(s)| ==>
              !Improves(maximizing, ChildValue(s, depth, maximizing, j), ChildValue(s, depth, maximizing, k))
  {
    PlainSearchFinite(s, depth, maximizing);
    ValidMoveShrinks(s, 0);
    PlainSearchFinite(Apply(s, Moves(s)[0]), depth - 1, !maximizing);
    assert Improves(maximizing, ChildValue(s, depth, maximizing, 0), Worst(maximizing));
    var k' := PlainLoopScan(s, depth, maximizing, 0, Worst(maximizing), None);
    k := k';
  }

  // ---------------------------------------------------------------------
  // The game: alternating turns until a pile is empty, then winner and score
  // ---------------------------------------------------------------------

  datatype Player = Computer | Human

  function Other(p: Player): Player {
    if p == Computer then Human else Computer
  }

  /** `current_player == "computer"` is the only test: any other name plays as the human. */
  function FirstMover(firstPlayer: string): Player {
    if firstPlayer == "computer" then Computer else Human
  }

  /** One turn taken: who moved and the move they made. */
  datatype Ply = Ply(player: Player, move: Move)

  /** How a game ends. `ComputerWithoutMove` is the computer's turn on which
      `minmax` returns no move, so that `computer_turn` raises TypeError
      at `move[0]` before `execute_move` is reached;
      `HumanInputExhausted` is the human's turn once the given selections run out. */
  datatype Outcome = Finished(winner: Player, score: int) | ComputerWithoutMove | HumanInputExhausted

  /** The winner, from the player whose turn it is when the game is over: in
      the standard version the player who just moved wins, in any other
      version the player to move wins. */
  function Winner(version: string, toMove: Player): (w: Player)
    ensures version == "standard" ==> w != toMove
    ensures version != "standard" ==> w == toMove
  {
    if version == "standard" then Other(toMove) else toMove
  }

  /** The final score: 2 per red marble and 3 per blue marble left. */
  function Score(s: State): int {
    2 * s.red + 3 * s.blue
  }

  function Init<T>(xs: seq<T>): seq<T>
    requires |xs| > 0
  {
    xs[..|xs| - 1]
  }

  function Last<T>(xs: seq<T>): T
    requires |xs| > 0
  {
    xs[|xs| - 1]
  }

  /** The state after playing `plies` from `s`. */
  function Replay(s: State, plies: seq<Ply>): State {
    if plies == [] then s else Apply(Replay(s, Init(plies)), Last(plies).move)
  }

  /** Whose turn it is after `plies`, when `first` moved first. */
  function ToMove(first: Player, plies: seq<Ply>): Player {
    if |plies| % 2 == 0 then first else Other(first)
  }

  /** The human's moves, in the order played. */
  function HumanMoves(plies: seq<Ply>): seq<Move> {
    if plies == [] then []
    else HumanMoves(Init(plies)) + (if Last(plies).player == Human then [Last(plies).move] else [])
  }

  /** A legal game record: every ply is played on a state that is not over,
      the players alternate starting with `first`, and each computer ply is
      the move `minmax(state, depth, -inf, +inf, True)` returns. */
  predicate Played(s: State, plies: seq<Ply>, depth: int, first: Player) {
    plies == [] ||
    (&& Played(s, Init(plies), depth, first)
     && !GameOver(Replay(s, Init(plies)))
     && Last(plies).player == ToMove(first, Init(plies))
     && (Last(plies).player == Computer ==>
           Search(Replay(s, Init(plies)), depth, NegInf, PosInf, true).move == Some(Last(plies).move)))
  }

  /** Appending one ply to a legal game record. */
  lemma PlayedStep(s: State, plies: seq<Ply>, depth: int, first: Player, ply: Ply)
    requires Played(s, plies, depth, first)
    requires !GameOver(Replay(s, plies)) && ply.player == ToMove(first, plies)
    requires ply.player == Computer ==> Search(Replay(s, plies), depth, NegInf, PosInf, true).move == Some(ply.move)
    ensures Played(s, plies + [ply], depth, first)
    ensures Replay(s, plies + [ply]) == Apply(Replay(s, plies), ply.move)
    ensures ToMove(first, plies + [ply]) == Other(ply.player)
    ensures HumanMoves(plies + [ply]) == HumanMoves(plies) + (if ply.player == Human then [ply.move] else [])
  {
    assert Init(plies + [ply]) == plies;
  }

  /** The turn loop's measure: it falls on every move of either player. */
  function TurnMeasure(s: State): nat {
    Size(s) + if GameOver(s) then 0 else 1
  }

  /** Any of the four moves on a state that is not over lowers TurnMeasure:
      either it takes from a positive pile or it clamps a negative pile to 0
      and ends the game. From non-negative piles it removes at least one marble. */
  lemma MoveProgress(s: State, m: Move)
    requires m in MoveOrder && !GameOver(s)
    ensures TurnMeasure(Apply(s, m)) < TurnMeasure(s)
    ensures s.red >= 0 && s.blue >= 0 ==>
              Apply(s, m).red >= 0 && Apply(s, m).blue >= 0 && Size(Apply(s, m)) < Size(s)
  {
  }

  /** With both piles negative the game is not over, yet no move is legal. */
  lemma {:induction false} NoMovesBelowZero(s: State)
    requires s.red < 0 && s.blue < 0
    ensures Moves(s) == []
  {
    LegalInMoveOrder(s);
    assert LegalIn(s, MoveOrder) == [];
  }

  /** On the computer's turn the full-window search returns no move exactly
      when depth is 0 or both piles are negative; otherwise its move is one of
      `valid_moves`, hence one of the four moves. */
  lemma ComputerChoice(s: State, depth: int)
    requires !GameOver(s)
    ensures Search(s, depth, NegInf, PosInf, true).move.None? <==> depth == 0 || (s.red < 0 && s.blue < 0)
    ensures Search(s, depth, NegInf, PosInf, true).move.Some? ==>
              && Search(s, depth, NegInf, PosInf, true).move.value in Moves(s)
              && Search(s, depth, NegInf, PosInf, true).move.value in MoveOrder
  {
    FullWindowEqualsPlain(s, depth, true);
    if depth == 0 {
    } else if s.red < 0 && s.blue < 0 {
      NoMovesBelowZero(s);
    } else {
      var k := PlainSearchFirstBest(s, depth, true);
      ValidMovesExact(s, s.version);
    }
  }

  /** `red_blue_nim`: the turn loop on a `GameState`. The computer plays the
      move of a full-window `minmax` as the maximizing player; the human plays
      the next of `humanMoves` (`human_turn` only ever returns one of the four
      moves). When the game is over the player to move decides the winner and
      the score is 2 * red + 3 * blue. */
  method RedBlueNim(redMarbles: int, blueMarbles: int, version: string, firstPlayer: string, depth: int,
                    humanMoves: seq<Move>)
    returns (outcome: Outcome, plies: seq<Ply>, final: State)
    requires forall m :: m in humanMoves ==> m in MoveOrder
    ensures final == Replay(State(redMarbles, blueMarbles, version), plies)
    ensures Played(State(redMarbles, blueMarbles, version), plies, depth, FirstMover(firstPlayer))
    ensures HumanMoves(plies) <= humanMoves
    ensures outcome.Finished? <==> GameOver(final)
    ensures outcome.Finished? ==>
              && outcome.winner == Winner(version, ToMove(FirstMover(firstPlayer), plies))
              && outcome.score == Score(final)
    ensures outcome.ComputerWithoutMove? ==>
              ToMove(FirstMover(firstPlayer), plies) == Computer && (depth == 0 || (final.red < 0 && final.blue < 0))
    ensures outcome.HumanInputExhausted? ==>
              ToMove(FirstMover(firstPlayer), plies) == Human && HumanMoves(plies) == humanMoves
    ensures redMarbles >= 0 && blueMarbles >= 0 ==> |plies| <= redMarbles + blueMarbles
  {
    var gameState := new GameState(redMarbles, blueMarbles, version);
    ghost var s0 := gameState.Snapshot();
    var currentPlayer := FirstMover(firstPlayer);
    plies := [];
    var h := 0;
    while !gameState.IsGameOver()
      invariant gameState.Snapshot() == Replay(s0, plies) && gameState.version == version
      invariant Played(s0, plies, depth, FirstMover(firstPlayer))
      invariant currentPlayer == ToMove(FirstMover(firstPlayer), plies)
      invariant 0 <= h <= |humanMoves| && HumanMoves(plies) == humanMoves[..h]
      invariant redMarbles >= 0 && blueMarbles >= 0 ==>
                  && gameState.red >= 0 && gameState.blue >= 0
                  && |plies| + Size(gameState.Snapshot()) <= redMarbles + blueMarbles
      decreases TurnMeasure(gameState.Snapshot())
    {
      ghost var s := gameState.Snapshot();
      var move: Move;
      if currentPlayer == Computer {
        var _, found := Minmax(gameState, depth, NegInf, PosInf, true);
        ComputerChoice(s, depth);
        if found.None? {
          return ComputerWithoutMove, plies, gameState.Snapshot();
        }
        move := found.value;
      } else {
        if h == |humanMoves| {
          return HumanInputExhausted, plies, gameState.Snapshot();
        }
        move := humanMoves[h];
        assert humanMoves[..h + 1] == humanMoves[..h] + [move];
        h := h + 1;
      }
      MoveProgress(s, move);
      gameState.ExecuteMove(move);
      var ply := Ply(currentPlayer, move);
      PlayedStep(s0, plies, depth, FirstMover(firstPlayer), ply);
      plies := plies + [ply];
      currentPlayer := Other(currentPlayer);
    }
    final := gameState.Snapshot();
    outcome := Finished(Winner(gameState.version, currentPlayer), Score(final));
  }
}
