# Tic-tac-toe minimax, modelled in Dafny

This project models the game logic of a console tic-tac-toe program written in Go (`main.go`). The human plays X and the computer plays O.

Each turn, the computer picks its square as follows:
- It scores every open square with a full-width minimax search, with no pruning. O maximises and X minimises.
- The static evaluator scores +10 for an O line, −10 for an X line, and 0 otherwise.
- It keeps the first square with the strictly highest score.
- On the empty board it plays a random square instead.
- The console addresses squares by the numbers 1 to 9.

The model is purely functional. The Go board is a `[3][3]string` array that is passed by value. Here it is an immutable 3×3 `seq<seq<Cell>>`, and `Cell = Empty | X | O`. The search's make-move/undo pairs become `Place` on a copy.

Modules:
- `Boards` (`boards.dfy`) holds the board, the open-square scan, the fullness test, square counts and the eight winning lines.
- `Search` (`search.dfy`) holds the evaluator and minimax.
- `Selection` (`selection.dfy`) holds findBestMove.
- `CellNumbers` (`cellnumbers.dfy`) converts between numbers 1..9 and squares, and holds the checks applied to an entered number.

Termination of the search follows from the number of empty squares. `Boards.PlaceFillsOne` shows that every move lowers it by one.

evaluateBoard tests O before X (main.go:92-97), so a board where both players hold a line scores +10. `Search.Evaluate` states this: −10 exactly when X holds a line and O does not.

## Model

| member | source | states |
|---|---|---|
| Boards.InitialBoard | main.go:27-35 | every square of the starting board is empty |
| Boards.Place | main.go:118-121 | writing a mark puts it in the chosen square and leaves the other eight squares as they were |
| Boards.AvailableMoves | main.go:48-58 | the list holds a square exactly when that square is on the board and empty; every listed square is open; the list is in strictly increasing row-major order, so no square appears twice |
| Boards.NoMovesMeansFilled | main.go:85-87 | the scan returns nothing exactly when no square of the board is empty |
| Boards.IsBoardFull | main.go:85-87 | isBoardFull is true exactly when every square is taken |
| Boards.CellCounts | main.go:48-58 | the number of listed moves equals the number of empty squares, and together with the X and O squares it makes nine |
| Boards.PlaceFillsOne | main.go:118-120 | playing an open square lowers the number of empty squares by one and raises that mark's count by one; this is the search's termination measure |
| Boards.NineOpenSquares | main.go:48-58 | when all nine squares are open, place Index(m) of the list holds square m |
| Boards.CheckWin | main.go:61-82 | checkWin, written as Go's row, column and diagonal tests, reports p exactly when p holds all three squares of one of the eight separately listed rows, columns and diagonals |
| Search.Evaluate | main.go:91-99 | the score is −10, 0 or 10; it is 10 exactly when O has a line, −10 exactly when X has a line and O has not, and 0 exactly when neither has |
| Search.Minimax | main.go:105-140 | the value is always −10, 0 or 10, so the MinInt32/MaxInt32 sentinels never escape; on a won or full board it is the evaluator's score |
| Search.ChildScore | main.go:118-120 | the value after the side to move plays an open square (make the move, search with the other side to move) is −10, 0 or 10 |
| Search.BestChildScore | main.go:115-138 | the search loop's result is a score, or is the starting sentinel only when there were no moves |
| Search.BestChildScoreIsExtremum | main.go:115-138 | the loop ends on the starting value or on one child's score, and neither the starting value nor any child's score improves on it |
| Search.MinimaxRecurrence | main.go:113-139 | on a position that is not over there is an open square; with O to move the value is the maximum of the children's values (attained by some child and bounding all of them), and with X to move it is the minimum |
| Search.MinimaxIgnoresDepth | main.go:105-140 | the depth argument never changes the value |
| Search.BestChildScoreIgnoresDepth | main.go:117-125 | the search loop's result does not depend on the depth it passes down |
| Selection.RootScore | main.go:158-159 | a candidate square's score is always −10, 0 or 10 |
| Selection.RandomPick | main.go:151 | a random draw lands on one of the listed moves |
| Selection.SelectBest | main.go:156-167 | the selection loop returns its starting move or one of the candidates |
| Selection.SelectBestKeepsFirstBest | main.go:156-167 | the loop keeps its starting move only when no candidate beats the starting score; otherwise it returns the candidate of highest score that comes before every other candidate of that score, and that candidate beats the starting score |
| Selection.FindBestMove | main.go:143-181 | the result is (-1,-1) exactly when the board is full; any other result is an open square |
| Selection.FallbackUnreachable | main.go:169-176 | when at least one move exists, the loop keeps a candidate, so the random fallback and its error sentinel are never reached |
| Selection.FindBestMoveIsSelection | main.go:169-180 | with one to eight open squares, the answer is the move kept by the selection loop, whatever the draw |
| Selection.FindBestMoveIsFirstBest | main.go:156-180 | with one to eight open squares, the answer is an open square that no open square outscores, every open square earlier in row-major order scores strictly less, and the random draw has no influence |
| Selection.OpeningIsRandomPick | main.go:149-153 | with nine open squares the answer is the square at row-major position draw mod 9, and every square is the answer to some draw |
| Selection.NineMovesMeansInitialBoard | main.go:149 | the nine-move test for the random opening holds exactly on the board initializeBoard builds |
| CellNumbers.CellOf | main.go:204-205 | a number from 1 to 9 names a square of the board |
| CellNumbers.NumberOfCellOf | main.go:204-205 | announcing the square that a number names gives back that number |
| CellNumbers.NumberOf | main.go:251 | every square's announced number is between 1 and 9, and that number names the square |
| CellNumbers.CellNumbersFollowScan | main.go:251 | a square's number is its row-major position plus one, so the numbering and the move scan agree |
| CellNumbers.ReadMove | main.go:198-212 | a number outside 1..9 is rejected; a number naming a taken square is rejected; otherwise the move is an open square whose number is the number entered |
| CellNumbers.EveryOpenSquareIsEnterable | main.go:198-212 | entering a square's number plays that square exactly when the square is open |
| CellNumbers.AnnouncedNumberNamesMove | main.go:245-251 | on a board with an open square, the computer's move is announced with a number from 1 to 9 that names that move |

## Left out

- Console I/O is not modelled: `printBoard`, the welcome text, and every message in `main`, `getPlayerMove` and the fallback branch of `findBestMove`.
- The read-and-reprompt loop of `getPlayerMove` and its `strconv.Atoi` parsing are left out. `CellNumbers.ReadMove` starts from an already parsed integer. A line that fails to parse gets the same reply in the code as an out-of-range number.
- `rand.Seed(time.Now().UnixNano())` and `rand.Intn(n)` are not modelled. The draw is a parameter `pick` reduced modulo the number of moves, so nothing is claimed about how uniform the draw is.
- The top-level game loop in `main` is left out: turn switching, the end-of-game checks and the early exit on the (-1,-1) sentinel. The checks it calls are modelled by `Boards.CheckWin` and `Boards.IsBoardFull`.
- The in-place make/undo on the board is modelled as `Boards.Place` on an immutable copy. Go passes the array by value, so the observable behaviour is the same.
- `math.MinInt32` and `math.MaxInt32` are kept as their values. No 32-bit arithmetic happens, because every score lies in −10..10.
- No game-tree facts such as "the empty board is worth 0" or "the computer never loses" are stated. The code does not claim them, and proving them would need the whole tree evaluated.
