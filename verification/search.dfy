/** The static evaluator and the minimax search. The computer plays O and
    maximises; the human plays X and minimises. */
module Search {
  import opened Boards

  /** The only values the evaluator produces. */
  predicate IsScore(s: int) {
    s == -10 || s == 0 || s == 10
  }

  /** evaluateBoard: +10 for an O line, -10 for an X line, 0 otherwise;
      O is tested first, so a board with both lines scores +10. */
  function Evaluate(b: Board): (score: int)
    ensures IsScore(score)
    ensures score == 10 <==> HasLine(b, O)
    ensures score == -10 <==> HasLine(b, X) && !HasLine(b, O)
    ensures score == 0 <==> !HasLine(b, O) && !HasLine(b, X)
  {
    if CheckWin(b, O) then 10
    else if CheckWin(b, X) then -10
    else 0
  }

  /** A position where someone holds a line or no square is open. */
  ghost predicate IsTerminal(b: Board) {
    HasLine(b, O) || HasLine(b, X) || Filled(b)
  }

  /** math.MinInt32 and math.MaxInt32, the initial best scores of the two
      search loops; both lie outside every score the evaluator produces. */
  const MinSentinel: int := -0x8000_0000
  const MaxSentinel: int := 0x7fff_ffff

  /** The mark the side to move writes: O when maximising, X when minimising. */
  function Mark(maximizing: bool): Cell {
    if maximizing then O else X
  }

  /** The comparison of a search loop: a strictly higher score when
      maximising, a strictly lower one when minimising. */
  predicate Improves(maximizing: bool, score: int, best: int) {
    if maximizing then score > best else score < best
  }

  /** The best score a search loop starts from. */
  function Sentinel(maximizing: bool): int {
    if maximizing then MinSentinel else MaxSentinel
  }

  /** minimax: the evaluator's score at a terminal position, otherwise the
      best score over the open squares for the side to move. */
  function Minimax(b: Board, depth: int, maximizing: bool): (value: int)
    ensures IsScore(value)
    ensures IsTerminal(b) ==> value == Evaluate(b)
    decreases Count(b, Empty), 1
  {
    var score := Evaluate(b);
    if score == 10 || score == -10 || IsBoardFull(b) then score
    else BestChildScore(b, depth, maximizing, AvailableMoves(b), Sentinel(maximizing))
  }

  /** The search value after the side to move plays the open square m. */
  function ChildScore(b: Board, depth: int, maximizing: bool, m: Move): (value: int)
    requires IsOpen(b, m)
    ensures IsScore(value)
    decreases Count(b, Empty), 0, 0
  {
    PlaceFillsOne(b, m, Mark(maximizing));
    Minimax(Place(b, m, Mark(maximizing)), depth + 1, !maximizing)
  }

  /** The search loop over moves: best is the score kept so far, replaced
      only by a strictly better child score. */
  function BestChildScore(b: Board, depth: int, maximizing: bool, moves: seq<Move>, best: int): (value: int)
    requires forall t | 0 <= t < |moves| :: IsOpen(b, moves[t])
    requires IsScore(best) || best == Sentinel(maximizing)
    ensures IsScore(value) || (|moves| == 0 && value == best)
    decreases Count(b, Empty), 0, |moves|
  {
    if |moves| == 0 then best
    else
      var score := ChildScore(b, depth, maximizing, moves[0]);
      BestChildScore(b, depth, maximizing, moves[1..], if Improves(maximizing, score, best) then score else best)
  }

  /** The search loop ends on a score that neither best nor any child
      score improves on, and that is best itself or one of the child scores. */
  lemma {:induction false} BestChildScoreIsExtremum(b: Board, depth: int, maximizing: bool, moves: seq<Move>, best: int)
    requires forall t | 0 <= t < |moves| :: IsOpen(b, moves[t])
    requires IsScore(best) || best == Sentinel(maximizing)
    ensures var value := BestChildScore(b, depth, maximizing, moves, best);
      && (value == best || exists t | 0 <= t < |moves| :: ChildScore(b, depth, maximizing, moves[t]) == value)
      && !Improves(maximizing, best, value)
      && forall t | 0 <= t < |moves| :: !Improves(maximizing, ChildScore(b, depth, maximizing, moves[t]), value)
    decreases |moves|
  {
    if |moves| > 0 {
      var rest := moves[1..];
      var score := ChildScore(b, depth, maximizing, moves[0]);
      var next := if Improves(maximizing, score, best) then score else best;
      var value := BestChildScore(b, depth, maximizing, moves, best);
      assert value == BestChildScore(b, depth, maximizing, rest, next);
      BestChildScoreIsExtremum(b, depth, maximizing, rest, next);
      ChildBoundShifts(b, depth, maximizing, moves, value);
      if value != next {
        var u :| 0 <= u < |rest| && ChildScore(b, depth, maximizing, rest[u]) == value;
        assert moves[u + 1] == rest[u];
      }
    }
  }

  /** A score that neither the first child's score nor any later child's
      score improves on is one that no child's score improves on. */
  lemma ChildBoundShifts(b: Board, depth: int, maximizing: bool, moves: seq<Move>, value: int)
    requires |moves| > 0 && forall t | 0 <= t < |moves| :: IsOpen(b, moves[t])
    requires !Improves(maximizing, ChildScore(b, depth, maximizing, moves[0]), value)
    requires forall t | 0 <= t < |moves[1..]| :: !Improves(maximizing, ChildScore(b, depth, maximizing, moves[1..][t]), value)
    ensures forall t | 0 <= t < |moves| :: !Improves(maximizing, ChildScore(b, depth, maximizing, moves[t]), value)
  {
    forall t | 0 < t < |moves|
      ensures !Improves(maximizing, ChildScore(b, depth, maximizing, moves[t]), value)
    {
      assert moves[t] == moves[1..][t - 1];
    }
  }

  /** The minimax equations on a position that is not over: there is an
      open square, and the value is the maximum (O to move) or the minimum
      (X to move) of the values of the positions one move later. */
  lemma MinimaxRecurrence(b: Board, depth: int, maximizing: bool)
    requires !IsTerminal(b)
    ensures |AvailableMoves(b)| > 0
    ensures var moves := AvailableMoves(b);
      var value := Minimax(b, depth, maximizing);
      && (exists t | 0 <= t < |moves| :: Minimax(Place(b, moves[t], Mark(maximizing)), depth + 1, !maximizing) == value)
      && (maximizing ==> forall t | 0 <= t < |moves| :: Minimax(Place(b, moves[t], O), depth + 1, false) <= value)
      && (!maximizing ==> forall t | 0 <= t < |moves| :: value <= Minimax(Place(b, moves[t], X), depth + 1, true))
  {
    var moves := AvailableMoves(b);
    assert !IsBoardFull(b) && Evaluate(b) == 0;
    assert forall t | 0 <= t < |moves| :: IsOpen(b, moves[t]);
    var value := BestChildScore(b, depth, maximizing, moves, Sentinel(maximizing));
    assert Minimax(b, depth, maximizing) == value;
    BestChildScoreIsExtremum(b, depth, maximizing, moves, Sentinel(maximizing));
    assert value != Sentinel(maximizing);
    forall t | 0 <= t < |moves|
      ensures ChildScore(b, depth, maximizing, moves[t]) == Minimax(Place(b, moves[t], Mark(maximizing)), depth + 1, !maximizing)
    {
    }
  }

  /** The depth argument is threaded through the recursion but never
      affects the value. */
  lemma {:induction false} MinimaxIgnoresDepth(b: Board, d1: int, d2: int, maximizing: bool)
    ensures Minimax(b, d1, maximizing) == Minimax(b, d2, maximizing)
    decreases Count(b, Empty), 1
  {
    var score := Evaluate(b);
    if !(score == 10 || score == -10 || IsBoardFull(b)) {
      BestChildScoreIgnoresDepth(b, d1, d2, maximizing, AvailableMoves(b), Sentinel(maximizing));
    }
  }

  lemma {:induction false} BestChildScoreIgnoresDepth(b: Board, d1: int, d2: int, maximizing: bool, moves: seq<Move>, best: int)
    requires forall t | 0 <= t < |moves| :: IsOpen(b, moves[t])
    requires IsScore(best) || best == Sentinel(maximizing)
    ensures BestChildScore(b, d1, maximizing, moves, best) == BestChildScore(b, d2, maximizing, moves, best)
    decreases Count(b, Empty), 0, |moves|
  {
    if |moves| > 0 {
      var m := moves[0];
      PlaceFillsOne(b, m, Mark(maximizing));
      MinimaxIgnoresDepth(Place(b, m, Mark(maximizing)), d1 + 1, d2 + 1, !maximizing);
      var score := ChildScore(b, d1, maximizing, m);
      assert score == ChildScore(b, d2, maximizing, m);
      var next := if Improves(maximizing, score, best) then score else best;
      BestChildScoreIgnoresDepth(b, d1, d2, maximizing, moves[1..], next);
      assert BestChildScore(b, d1, maximizing, moves, best) == BestChildScore(b, d1, maximizing, moves[1..], next);
      assert BestChildScore(b, d2, maximizing, moves, best) == BestChildScore(b, d2, maximizing, moves[1..], next);
    }
  }
}
