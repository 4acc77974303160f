/** The console's cell numbers: 1 to 9, left to right, top to bottom.
    The human enters a number; the computer's choice is announced as one. */
module CellNumbers {
  import opened Boards
  import opened Selection

  predicate IsCellNumber(n: int) {
    1 <= n <= 9
  }

  /** The square a cell number names: row (n-1)/3, column (n-1)%3. The
      operand is never negative, so Go's truncating division and Dafny's
      Euclidean division agree here. */
  function CellOf(n: int): (m: Move)
    requires IsCellNumber(n)
    ensures OnBoard(m)
  {
    Move((n - 1) / 3, (n - 1) % 3)
  }

  /** The number announced for a square, row*3 + col + 1: for a square of
      the board it is a cell number, and that number names the square. */
  function NumberOf(m: Move): (n: int)
    ensures OnBoard(m) ==> IsCellNumber(n) && CellOf(n) == m
  {
    m.row * 3 + m.col + 1
  }

  /** Announcing the square a number names gives the number back. */
  lemma NumberOfCellOf(n: int)
    requires IsCellNumber(n)
    ensures NumberOf(CellOf(n)) == n
  {
  }

  /** Cell numbers count the squares in the order of the move scan. */
  lemma CellNumbersFollowScan(m: Move)
    requires OnBoard(m)
    ensures NumberOf(m) == Index(m) + 1
  {
  }

  /** The verdict on a number the human entered. */
  datatype Entry = Accepted(move: Move) | OutOfRange | Taken

  /** The checks of getPlayerMove on a parsed number: outside 1..9 it is
      rejected, a taken square is rejected, otherwise its square is played. */
  function ReadMove(b: Board, n: int): (e: Entry)
    ensures e == OutOfRange <==> !IsCellNumber(n)
    ensures e == Taken <==> IsCellNumber(n) && !IsOpen(b, CellOf(n))
    ensures e.Accepted? ==> IsOpen(b, e.move) && NumberOf(e.move) == n
  {
    if n < 1 || n > 9 then OutOfRange
    else
      var row := (n - 1) / 3;
      var col := (n - 1) % 3;
      if b[row][col] != Empty then Taken
      else Accepted(Move(row, col))
  }

  /** Every open square can be played by entering its number, and only
      open squares are accepted. */
  lemma EveryOpenSquareIsEnterable(b: Board, m: Move)
    ensures ReadMove(b, NumberOf(m)) == Accepted(m) <==> IsOpen(b, m)
  {
  }

  /** The number announced for the computer's move is a cell number that
      names the chosen square, whenever the board has an open square. */
  lemma AnnouncedNumberNamesMove(b: Board, pick: nat)
    requires !Filled(b)
    ensures IsCellNumber(NumberOf(FindBestMove(b, pick)))
    ensures CellOf(NumberOf(FindBestMove(b, pick))) == FindBestMove(b, pick)
  {
  }
}
