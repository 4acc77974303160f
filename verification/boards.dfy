/** The board model: squares, the 3×3 grid, the open-square scan, the
    fullness test and the eight winning lines. */
module Boards {

  /** What a square holds: the human plays X, the computer plays O. */
  datatype Cell = Empty | X | O

  /** The 3×3 grid, addressed as b[row][col] with row and col in 0..2. */
  type Board = b: seq<seq<Cell>> | |b| == 3 && forall i | 0 <= i < 3 :: |b[i]| == 3
    witness [[Empty, Empty, Empty], [Empty, Empty, Empty], [Empty, Empty, Empty]]

  /** Coordinates of a square. The selector answers NoMove when it has none. */
  datatype Move = Move(row: int, col: int)

  const NoMove: Move := Move(-1, -1)

  predicate OnBoard(m: Move) {
    0 <= m.row < 3 && 0 <= m.col < 3
  }

  function At(b: Board, m: Move): Cell
    requires OnBoard(m)
  {
    b[m.row][m.col]
  }

  /** m names a square of the board that nobody has played yet. */
  predicate IsOpen(b: Board, m: Move) {
    OnBoard(m) && At(b, m) == Empty
  }

  /** No square of the board is open. */
  ghost predicate Filled(b: Board) {
    forall m | OnBoard(m) :: At(b, m) != Empty
  }

  /** Row-major position of a square: 0 for the top-left, 8 for the bottom-right. */
  function Index(m: Move): int {
    3 * m.row + m.col
  }

  /** The squares are listed in strictly increasing row-major order. */
  predicate RowMajor(squares: seq<Move>) {
    forall s, t | 0 <= s < t < |squares| :: Index(squares[s]) < Index(squares[t])
  }

  /** In a row-major list, a square with a smaller position comes earlier. */
  lemma RowMajorMonotone(squares: seq<Move>, s: int, t: int)
    requires RowMajor(squares) && 0 <= s < |squares| && 0 <= t < |squares|
    requires Index(squares[s]) < Index(squares[t])
    ensures s < t
  {
  }

  predicate AllOnBoard(squares: seq<Move>) {
    forall t | 0 <= t < |squares| :: OnBoard(squares[t])
  }

  /** The nine squares in the order of a scan over rows, then columns. */
  const Squares: seq<Move> := [
    Move(0, 0), Move(0, 1), Move(0, 2),
    Move(1, 0), Move(1, 1), Move(1, 2),
    Move(2, 0), Move(2, 1), Move(2, 2)
  ]

  /** Place t of Squares holds the square at row-major position t. */
  lemma SquaresIndexed()
    ensures |Squares| == 9
    ensures forall t | 0 <= t < |Squares| :: OnBoard(Squares[t]) && Index(Squares[t]) == t
  {
  }

  /** The square at row-major position t is in place t of Squares. */
  lemma SquaresByIndex(m: Move)
    requires OnBoard(m)
    ensures 0 <= Index(m) < |Squares| && Squares[Index(m)] == m
  {
  }

  /** Squares lists every square of the board once, in row-major order. */
  lemma SquaresInScanOrder()
    ensures |Squares| == 9 && AllOnBoard(Squares) && RowMajor(Squares)
    ensures forall m | OnBoard(m) :: m in Squares
  {
    SquaresIndexed();
    forall m | OnBoard(m)
      ensures m in Squares
    {
      SquaresByIndex(m);
    }
  }

  /** The board with p written into square m; every other square is untouched. */
  function Place(b: Board, m: Move, p: Cell): (r: Board)
    requires OnBoard(m)
    ensures At(r, m) == p
    ensures forall n | OnBoard(n) && n != m :: At(r, n) == At(b, n)
  {
    b[m.row := b[m.row][m.col := p]]
  }

  /** The board at the start of a game. */
  function InitialBoard(): (b: Board)
    ensures forall m | OnBoard(m) :: At(b, m) == Empty
  {
    seq(3, i => seq(3, j => Empty))
  }

  /** The open squares among squares, in the order given. The measure
      also names b, which is the same in every call. */
  function OpenAmong(b: Board, squares: seq<Move>): (moves: seq<Move>)
    requires AllOnBoard(squares)
    ensures |moves| <= |squares|
    ensures forall m :: m in moves <==> m in squares && IsOpen(b, m)
    decreases b, |squares|
  {
    if |squares| == 0 then []
    else if At(b, squares[0]) == Empty then [squares[0]] + OpenAmong(b, squares[1..])
    else OpenAmong(b, squares[1..])
  }

  /** Picking out the open squares keeps their order. */
  lemma {:induction false} OpenAmongKeepsOrder(b: Board, squares: seq<Move>)
    requires AllOnBoard(squares) && RowMajor(squares)
    ensures RowMajor(OpenAmong(b, squares))
    decreases |squares|
  {
    if |squares| > 0 {
      var rest := squares[1..];
      OpenAmongKeepsOrder(b, rest);
      if At(b, squares[0]) == Empty {
        forall m | m in OpenAmong(b, rest)
          ensures Index(squares[0]) < Index(m)
        {
          var t :| 0 <= t < |rest| && rest[t] == m;
          assert squares[t + 1] == m;
        }
      }
    }
  }

  /** getAvailableMoves: every open square exactly once, in row-major order. */
  function AvailableMoves(b: Board): (moves: seq<Move>)
    ensures forall m :: m in moves <==> IsOpen(b, m)
    ensures forall t | 0 <= t < |moves| :: IsOpen(b, moves[t])
    ensures RowMajor(moves)
  {
    SquaresInScanOrder();
    OpenAmongKeepsOrder(b, Squares);
    OpenAmong(b, Squares)
  }

  /** The scan finds no open square just when every square is taken. */
  lemma NoMovesMeansFilled(b: Board)
    ensures |AvailableMoves(b)| == 0 <==> Filled(b)
  {
    var moves := AvailableMoves(b);
    if |moves| > 0 {
      assert IsOpen(b, moves[0]);
    } else {
      forall m | OnBoard(m)
        ensures At(b, m) != Empty
      {
        assert m !in moves;
      }
    }
  }

  /** isBoardFull: the scan finds no open square. */
  function IsBoardFull(b: Board): (full: bool)
    ensures full <==> Filled(b)
  {
    NoMovesMeansFilled(b);
    |AvailableMoves(b)| == 0
  }

  /** The contents of the nine squares in row-major order. */
  function Cells(b: Board): (cells: seq<Cell>)
    ensures |cells| == 9
    ensures forall m | OnBoard(m) :: cells[Index(m)] == At(b, m)
  {
    b[0] + b[1] + b[2]
  }

  /** The contents of the listed squares, in the order given. */
  function CellsAt(b: Board, squares: seq<Move>): (cells: seq<Cell>)
    requires AllOnBoard(squares)
    ensures |cells| == |squares|
    ensures forall t | 0 <= t < |squares| :: cells[t] == At(b, squares[t])
  {
    seq(|squares|, t requires 0 <= t < |squares| => At(b, squares[t]))
  }

  /** Number of squares of the board that hold c. */
  function Count(b: Board, c: Cell): (n: nat)
    ensures n <= 9
  {
    multiset(Cells(b))[c]
  }

  /** Reading the squares in scan order gives the board's cells. */
  lemma ScanReadsCells(b: Board)
    ensures AllOnBoard(Squares) && CellsAt(b, Squares) == Cells(b)
  {
    SquaresInScanOrder();
    forall m | OnBoard(m)
      ensures CellsAt(b, Squares)[Index(m)] == Cells(b)[Index(m)]
    {
      SquaresByIndex(m);
    }
    forall t | 0 <= t < 9
      ensures CellsAt(b, Squares)[t] == Cells(b)[t]
    {
      assert t == Index(Move(t / 3, t % 3));
    }
  }

  lemma {:induction false} OpenAmongCountsEmpty(b: Board, squares: seq<Move>)
    requires AllOnBoard(squares)
    ensures |OpenAmong(b, squares)| == multiset(CellsAt(b, squares))[Empty]
    decreases |squares|
  {
    if |squares| > 0 {
      OpenAmongCountsEmpty(b, squares[1..]);
      assert CellsAt(b, squares) == [At(b, squares[0])] + CellsAt(b, squares[1..]);
    }
  }

  /** Every cell is Empty, X or O. */
  lemma {:induction false} CellsPartition(cells: seq<Cell>)
    ensures multiset(cells)[Empty] + multiset(cells)[X] + multiset(cells)[O] == |cells|
    decreases |cells|
  {
    if |cells| > 0 {
      var last := |cells| - 1;
      CellsPartition(cells[..last]);
      assert cells == cells[..last] + [cells[last]];
      assert multiset(cells) == multiset(cells[..last]) + multiset{cells[last]};
      assert cells[last] == Empty || cells[last] == X || cells[last] == O;
    }
  }

  /** The open squares listed by the scan and the squares held by either
      player account for all nine squares. */
  lemma CellCounts(b: Board)
    ensures |AvailableMoves(b)| == Count(b, Empty)
    ensures |AvailableMoves(b)| + Count(b, X) + Count(b, O) == 9
  {
    ScanReadsCells(b);
    OpenAmongCountsEmpty(b, Squares);
    CellsPartition(Cells(b));
  }

  /** Writing p into square m changes place Index(m) of the cells to p. */
  lemma PlaceUpdatesCells(b: Board, m: Move, p: Cell)
    requires OnBoard(m)
    ensures Cells(Place(b, m, p)) == Cells(b)[Index(m) := p]
  {
    var cells := Cells(b)[Index(m) := p];
    forall n | OnBoard(n)
      ensures Cells(Place(b, m, p))[Index(n)] == cells[Index(n)]
    {
    }
    forall t | 0 <= t < 9
      ensures Cells(Place(b, m, p))[t] == cells[t]
    {
      assert t == Index(Move(t / 3, t % 3));
    }
  }

  /** Writing a mark into an open square fills exactly one square: one
      fewer open square, one more square held by that mark. */
  lemma PlaceFillsOne(b: Board, m: Move, p: Cell)
    requires IsOpen(b, m) && p != Empty
    ensures Count(Place(b, m, p), Empty) == Count(b, Empty) - 1
    ensures Count(Place(b, m, p), p) == Count(b, p) + 1
  {
    PlaceUpdatesCells(b, m, p);
    assert Cells(b)[Index(m)] == Empty;
  }

  lemma {:induction false} AllOpenAmong(b: Board, squares: seq<Move>)
    requires AllOnBoard(squares) && |OpenAmong(b, squares)| == |squares|
    ensures OpenAmong(b, squares) == squares
    decreases |squares|
  {
    if |squares| > 0 {
      AllOpenAmong(b, squares[1..]);
    }
  }

  /** When the scan finds nine open squares it lists all of Squares. */
  lemma ScanListsAll(b: Board)
    requires |AvailableMoves(b)| == 9
    ensures AvailableMoves(b) == Squares
  {
    SquaresInScanOrder();
    AllOpenAmong(b, Squares);
  }

  /** When the scan finds nine open squares it lists every square, the
      square at row-major position t in place t. */
  lemma NineOpenSquares(b: Board)
    requires |AvailableMoves(b)| == 9
    ensures forall m | OnBoard(m) :: AvailableMoves(b)[Index(m)] == m
    ensures forall t | 0 <= t < 9 :: OnBoard(AvailableMoves(b)[t]) && Index(AvailableMoves(b)[t]) == t
  {
    ScanListsAll(b);
    SquaresIndexed();
    forall m | OnBoard(m)
      ensures AvailableMoves(b)[Index(m)] == m
    {
      SquaresByIndex(m);
    }
  }

  /** Three squares in a row, column or diagonal. */
  datatype Line = Line(first: Move, middle: Move, last: Move)

  /** The eight winning lines: three rows, three columns, two diagonals. */
  const Lines: seq<Line> := [
    Line(Move(0, 0), Move(0, 1), Move(0, 2)),
    Line(Move(1, 0), Move(1, 1), Move(1, 2)),
    Line(Move(2, 0), Move(2, 1), Move(2, 2)),
    Line(Move(0, 0), Move(1, 0), Move(2, 0)),
    Line(Move(0, 1), Move(1, 1), Move(2, 1)),
    Line(Move(0, 2), Move(1, 2), Move(2, 2)),
    Line(Move(0, 0), Move(1, 1), Move(2, 2)),
    Line(Move(0, 2), Move(1, 1), Move(2, 0))
  ]

  /** p holds all three squares of line. */
  predicate Holds(b: Board, line: Line, p: Cell) {
    && OnBoard(line.first) && OnBoard(line.middle) && OnBoard(line.last)
    && At(b, line.first) == p && At(b, line.middle) == p && At(b, line.last) == p
  }

  /** p holds one of the eight lines. */
  predicate HasLine(b: Board, p: Cell) {
    exists k | 0 <= k < |Lines| :: Holds(b, Lines[k], p)
  }

  /** The tests checkWin makes, in its order: rows, then columns, then
      the two diagonals. */
  predicate LineScan(b: Board, p: Cell) {
    || (exists i | 0 <= i < 3 :: b[i][0] == p && b[i][1] == p && b[i][2] == p)
    || (exists j | 0 <= j < 3 :: b[0][j] == p && b[1][j] == p && b[2][j] == p)
    || (b[0][0] == p && b[1][1] == p && b[2][2] == p)
    || (b[0][2] == p && b[1][1] == p && b[2][0] == p)
  }

  /** Lines 0-2 are the rows and lines 3-5 the columns, in order. */
  lemma RowsAndColumns(b: Board, p: Cell, i: int)
    requires 0 <= i < 3
    ensures Holds(b, Lines[i], p) <==> b[i][0] == p && b[i][1] == p && b[i][2] == p
    ensures Holds(b, Lines[3 + i], p) <==> b[0][i] == p && b[1][i] == p && b[2][i] == p
  {
    assert i == 0 || i == 1 || i == 2;
  }

  /** A win that checkWin's tests report is one of the eight lines. */
  lemma LineScanFindsLine(b: Board, p: Cell)
    requires LineScan(b, p)
    ensures HasLine(b, p)
  {
    if exists i | 0 <= i < 3 :: b[i][0] == p && b[i][1] == p && b[i][2] == p {
      var i :| 0 <= i < 3 && b[i][0] == p && b[i][1] == p && b[i][2] == p;
      RowsAndColumns(b, p, i);
      assert Holds(b, Lines[i], p);
    } else if exists j | 0 <= j < 3 :: b[0][j] == p && b[1][j] == p && b[2][j] == p {
      var j :| 0 <= j < 3 && b[0][j] == p && b[1][j] == p && b[2][j] == p;
      RowsAndColumns(b, p, j);
      assert Holds(b, Lines[3 + j], p);
    } else if b[0][0] == p && b[1][1] == p && b[2][2] == p {
      assert Holds(b, Lines[6], p);
    } else {
      assert Holds(b, Lines[7], p);
    }
  }

  /** Each of the eight lines is one that checkWin tests. */
  lemma LineFoundByScan(b: Board, p: Cell, k: int)
    requires 0 <= k < |Lines| && Holds(b, Lines[k], p)
    ensures LineScan(b, p)
  {
    if k < 3 {
      RowsAndColumns(b, p, k);
      assert b[k][0] == p && b[k][1] == p && b[k][2] == p;
    } else if k < 6 {
      RowsAndColumns(b, p, k - 3);
      assert b[0][k - 3] == p && b[1][k - 3] == p && b[2][k - 3] == p;
    } else if k == 6 {
      assert b[0][0] == p && b[1][1] == p && b[2][2] == p;
    } else {
      assert b[0][2] == p && b[1][1] == p && b[2][0] == p;
    }
  }

  /** checkWin: it reports p as the winner exactly when p holds all three
      squares of at least one of the eight lines. */
  function CheckWin(b: Board, p: Cell): (won: bool)
    ensures won <==> HasLine(b, p)
  {
    if LineScan(b, p) then
      LineScanFindsLine(b, p);
      true
    else
      assert HasLine(b, p) ==> LineScan(b, p) by {
        if HasLine(b, p) {
          var k :| 0 <= k < |Lines| && Holds(b, Lines[k], p);
          LineFoundByScan(b, p, k);
        }
      }
      false
  }
}
