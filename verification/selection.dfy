/** findBestMove: the computer's choice of square. The random draw of
    rand.Intn is a parameter, pick, reduced modulo the number of moves. */
module Selection {
  import opened Boards
  import opened Search

  /** The score findBestMove gives the open square m: the search value
      after O plays m, with X to move and the depth counter at 0. */
  function RootScore(b: Board, m: Move): (score: int)
    requires IsOpen(b, m)
    ensures IsScore(score)
  {
    Minimax(Place(b, m, O), 0, false)
  }

  /** rand.Intn(len(moves)) used as an index: the draw pick lands on one of
      the moves. Like rand.Intn, it needs a non-empty list. */
  function RandomPick(moves: seq<Move>, pick: nat): (m: Move)
    requires |moves| > 0
    ensures m in moves
  {
    moves[pick % |moves|]
  }

  /** The selection loop: bestScore and bestMove are replaced only by a
      move whose score is strictly higher. */
  function SelectBest(b: Board, moves: seq<Move>, bestScore: int, bestMove: Move): (choice: Move)
    requires forall t | 0 <= t < |moves| :: IsOpen(b, moves[t])
    ensures choice == bestMove || choice in moves
    decreases |moves|
  {
    if |moves| == 0 then bestMove
    else
      var score := RootScore(b, moves[0]);
      if score > bestScore then SelectBest(b, moves[1..], score, moves[0])
      else SelectBest(b, moves[1..], bestScore, bestMove)
  }

  /** findBestMove. An empty board gets a random square; otherwise the
      first move of highest score; the random fallback when no move was
      kept; NoMove, the pair (-1, -1), when there is no move at all. */
  function FindBestMove(b: Board, pick: nat): (m: Move)
    ensures m == NoMove <==> Filled(b)
    ensures m != NoMove ==> IsOpen(b, m)
  {
    NoMovesMeansFilled(b);
    var moves := AvailableMoves(b);
    if |moves| == 9 then RandomPick(moves, pick)
    else
      var best := SelectBest(b, moves, MinSentinel, NoMove);
      if best.row == -1 then
        if |moves| > 0 then RandomPick(moves, pick) else NoMove
      else best
  }

  /** Place t of moves holds a move of highest score, and every move before
      it scores strictly less. */
  predicate IsFirstBest(b: Board, moves: seq<Move>, t: int)
    requires forall s | 0 <= s < |moves| :: IsOpen(b, moves[s])
  {
    && 0 <= t < |moves|
    && (forall s | 0 <= s < |moves| :: RootScore(b, moves[s]) <= RootScore(b, moves[t]))
    && (forall s | 0 <= s < t :: RootScore(b, moves[s]) < RootScore(b, moves[t]))
  }

  /** The selection loop either keeps its starting move, when no move beats
      the starting score, or ends on the first move of highest score, which
      beats the starting score. */
  lemma {:induction false} SelectBestKeepsFirstBest(b: Board, moves: seq<Move>, bestScore: int, bestMove: Move)
    requires forall t | 0 <= t < |moves| :: IsOpen(b, moves[t])
    ensures var choice := SelectBest(b, moves, bestScore, bestMove);
      || (choice == bestMove && forall s | 0 <= s < |moves| :: RootScore(b, moves[s]) <= bestScore)
      || (exists t | 0 <= t < |moves| :: choice == moves[t] && bestScore < RootScore(b, moves[t]) && IsFirstBest(b, moves, t))
    decreases |moves|
  {
    if |moves| > 0 {
      var rest := moves[1..];
      var score := RootScore(b, moves[0]);
      var choice := SelectBest(b, moves, bestScore, bestMove);
      var nextScore, nextMove := if score > bestScore then score else bestScore, if score > bestScore then moves[0] else bestMove;
      assert choice == SelectBest(b, rest, nextScore, nextMove);
      SelectBestKeepsFirstBest(b, rest, nextScore, nextMove);
      if choice == nextMove && forall s | 0 <= s < |rest| :: RootScore(b, rest[s]) <= nextScore {
        BoundShifts(b, moves, nextScore);
        if score > bestScore {
          assert IsFirstBest(b, moves, 0);
        }
      } else {
        var u :| 0 <= u < |rest| && choice == rest[u] && nextScore < RootScore(b, rest[u]) && IsFirstBest(b, rest, u);
        FirstBestShifts(b, moves, u);
      }
    }
  }

  /** A bound on moves[0] and on every score of moves[1..] bounds every
      score of moves. */
  lemma BoundShifts(b: Board, moves: seq<Move>, bound: int)
    requires |moves| > 0 && forall t | 0 <= t < |moves| :: IsOpen(b, moves[t])
    requires RootScore(b, moves[0]) <= bound
    requires forall s | 0 <= s < |moves[1..]| :: RootScore(b, moves[1..][s]) <= bound
    ensures forall s | 0 <= s < |moves| :: RootScore(b, moves[s]) <= bound
  {
    forall s | 0 < s < |moves|
      ensures RootScore(b, moves[s]) <= bound
    {
      assert moves[s] == moves[1..][s - 1];
    }
  }

  /** A first best move of moves[1..] that beats moves[0] is a first best
      move of moves, one place further on. */
  lemma FirstBestShifts(b: Board, moves: seq<Move>, u: int)
    requires |moves| > 0 && forall t | 0 <= t < |moves| :: IsOpen(b, moves[t])
    requires IsFirstBest(b, moves[1..], u)
    requires RootScore(b, moves[0]) < RootScore(b, moves[1..][u])
    ensures moves[u + 1] == moves[1..][u] && IsFirstBest(b, moves, u + 1)
  {
    var rest := moves[1..];
    forall s | 0 <= s < |moves|
      ensures RootScore(b, moves[s]) <= RootScore(b, moves[u + 1])
      ensures s < u + 1 ==> RootScore(b, moves[s]) < RootScore(b, moves[u + 1])
    {
      if s > 0 {
        assert moves[s] == rest[s - 1];
      }
    }
  }

  /** The random fallback of findBestMove is dead code: with at least one
      move, the first move's score (at least -10) beats math.MinInt32, so
      the loop always keeps a move. */
  lemma FallbackUnreachable(b: Board)
    requires |AvailableMoves(b)| > 0
    ensures SelectBest(b, AvailableMoves(b), MinSentinel, NoMove) in AvailableMoves(b)
    ensures SelectBest(b, AvailableMoves(b), MinSentinel, NoMove).row != -1
  {
    var moves := AvailableMoves(b);
    SelectBestKeepsFirstBest(b, moves, MinSentinel, NoMove);
    assert RootScore(b, moves[0]) > MinSentinel;
  }

  /** With one to eight moves findBestMove answers with the move the
      selection loop keeps, whatever the draw. */
  lemma FindBestMoveIsSelection(b: Board, pick: nat)
    requires 0 < |AvailableMoves(b)| < 9
    ensures FindBestMove(b, pick) == SelectBest(b, AvailableMoves(b), MinSentinel, NoMove)
  {
    FallbackUnreachable(b);
  }

  /** A first best place of the move list names an open square that no
      open square outscores, with every earlier open square scoring less. */
  lemma FirstBestOnBoard(b: Board, t: int)
    requires IsFirstBest(b, AvailableMoves(b), t)
    ensures var m := AvailableMoves(b)[t];
      && IsOpen(b, m)
      && (forall n | IsOpen(b, n) :: RootScore(b, n) <= RootScore(b, m))
      && (forall n | IsOpen(b, n) && Index(n) < Index(m) :: RootScore(b, n) < RootScore(b, m))
  {
    var moves := AvailableMoves(b);
    var m := moves[t];
    forall n | IsOpen(b, n)
      ensures RootScore(b, n) <= RootScore(b, m)
      ensures Index(n) < Index(m) ==> RootScore(b, n) < RootScore(b, m)
    {
      var s :| 0 <= s < |moves| && moves[s] == n;
      if Index(n) < Index(m) {
        RowMajorMonotone(moves, s, t);
      }
    }
  }

  /** On a board with one to eight open squares, findBestMove returns an open
      square whose score no open square beats, and every open square earlier
      in row-major order scores strictly less. The draw plays no part. */
  lemma FindBestMoveIsFirstBest(b: Board, pick: nat, other: nat)
    requires 0 < |AvailableMoves(b)| < 9
    ensures var m := FindBestMove(b, pick);
      && IsOpen(b, m)
      && (forall n | IsOpen(b, n) :: RootScore(b, n) <= RootScore(b, m))
      && (forall n | IsOpen(b, n) && Index(n) < Index(m) :: RootScore(b, n) < RootScore(b, m))
    ensures FindBestMove(b, pick) == FindBestMove(b, other)
  {
    var moves := AvailableMoves(b);
    FindBestMoveIsSelection(b, pick);
    FindBestMoveIsSelection(b, other);
    var m := SelectBest(b, moves, MinSentinel, NoMove);
    SelectBestKeepsFirstBest(b, moves, MinSentinel, NoMove);
    assert RootScore(b, moves[0]) > MinSentinel;
    var t :| 0 <= t < |moves| && m == moves[t] && IsFirstBest(b, moves, t);
    FirstBestOnBoard(b, t);
  }

  /** With nine moves findBestMove takes the random branch. */
  lemma OpeningDraw(b: Board, pick: nat)
    requires |AvailableMoves(b)| == 9
    ensures FindBestMove(b, pick) == AvailableMoves(b)[pick % 9]
  {
  }

  /** On an empty board the draw Index(n) selects the square n. */
  lemma OpeningDrawSelects(b: Board, n: Move)
    requires |AvailableMoves(b)| == 9 && OnBoard(n)
    ensures FindBestMove(b, Index(n)) == n
  {
    var i := Index(n);
    assert i % 9 == i;
    OpeningDraw(b, i);
    NineOpenSquares(b);
  }

  /** On an empty board findBestMove returns the square at the row-major
      position the draw selects, and every square is the answer to some
      draw. */
  lemma OpeningIsRandomPick(b: Board, pick: nat)
    requires |AvailableMoves(b)| == 9
    ensures OnBoard(FindBestMove(b, pick)) && Index(FindBestMove(b, pick)) == pick % 9
    ensures forall n | OnBoard(n) :: FindBestMove(b, Index(n)) == n
  {
    OpeningDraw(b, pick);
    NineOpenSquares(b);
    forall n | OnBoard(n)
      ensures FindBestMove(b, Index(n)) == n
    {
      OpeningDrawSelects(b, n);
    }
  }

  /** A board whose every square is empty is the board initializeBoard builds. */
  lemma AllEmptyIsInitial(b: Board)
    requires forall m | OnBoard(m) :: At(b, m) == Empty
    ensures b == InitialBoard()
  {
    forall i | 0 <= i < 3
      ensures b[i] == InitialBoard()[i]
    {
      assert b[i][0] == At(b, Move(i, 0)) && b[i][1] == At(b, Move(i, 1)) && b[i][2] == At(b, Move(i, 2));
    }
  }

  /** A board with nine open squares is the board initializeBoard builds. */
  lemma NineMovesOnlyInitially(b: Board)
    requires |AvailableMoves(b)| == 9
    ensures b == InitialBoard()
  {
    var moves := AvailableMoves(b);
    NineOpenSquares(b);
    forall m | OnBoard(m)
      ensures At(b, m) == Empty
    {
      assert IsOpen(b, moves[Index(m)]);
    }
    AllEmptyIsInitial(b);
  }

  /** The board initializeBoard builds has nine open squares. */
  lemma InitialBoardHasNineMoves()
    ensures |AvailableMoves(InitialBoard())| == 9
  {
    var b := InitialBoard();
    var cells := Cells(b);
    forall t | 0 <= t < 9
      ensures cells[t] == Empty
    {
      assert t == Index(Move(t / 3, t % 3));
    }
    assert X !in multiset(cells) && O !in multiset(cells);
    CellCounts(b);
  }

  /** Nine open squares, the test for the random opening, means exactly
      the board initializeBoard builds. */
  lemma NineMovesMeansInitialBoard(b: Board)
    ensures |AvailableMoves(b)| == 9 <==> b == InitialBoard()
  {
    if |AvailableMoves(b)| == 9 {
      NineMovesOnlyInitially(b);
    }
    InitialBoardHasNineMoves();
  }
}
