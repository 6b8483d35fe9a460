# Knight's tour on a 5x5 board

A verified model of the board engine of the `knights_tour` program
(`knights-tour/main.c`).

A game holds three things: a 5x5 board of numbered squares, the knight's
square, and a move counter. `new_game` puts the knight on a starting square
and writes 1 there. `move_knight` moves the knight to a target square only if
all three of these hold:

- the target is on the board;
- the target has not been visited;
- the target is one knight's move away.

When it moves, it increments the counter and writes the counter on the target.
`game_won` scans the board for an unvisited square. The program's entry point
plays a fixed 24-move tour from the corner (0, 0) and checks the result of
every call.

The project has three modules.

- `Chessboard` (`chessboard.dfy`): the pure part.
  - Squares, the board bounds and knight moves.
  - The eight candidate squares, computed as the program computes them in
    unsigned 32-bit arithmetic.
  - Knight paths: the squares visited, in visit order. `VisitOrder` gives the
    number each square of a path carries.
  - The counting facts: a path visits at most 25 squares, and it covers the
    board exactly when it has 25.
- `KnightsTour` (`game.dfy`): the `Game` class.
  - The board is an `array2<int>` indexed `[column, row]`, updated in place,
    with fields for the knight's square and the move counter.
  - A ghost `path` records the squares visited, in order.
  - The invariant `Valid()` ties the board to that path: each square holds its
    place in the path, or 0 if the path never reached it.
  - `new_game`, `game_won` and `move_knight` are the constructor, `IsWon` and
    `MoveKnight`.
- `ScriptedTour` (`scripted_tour.dfy`): the entry point's scenario.
  - The 24 scripted targets, and `FinalBoard`, the board they leave behind.
  - A proof that they extend the corner into a complete tour.
  - `PlayMoves`, which plays any complete tour on a fresh game and records
    what every call returns, together with the final board.

## Model

| member | source | states |
|---|---|---|
| KnightsTour.Game.constructor | knights-tour/main.c:48-58 | For an in-bounds start, the new game satisfies the invariant. The start square holds 1, every other square holds 0, the counter is 1, and the knight is on the start. |
| KnightsTour.Game.IsWon | knights-tour/main.c:60-70 | The row-by-row scan returns true exactly when no square holds `Unvisited`. On a valid game, that is exactly when the counter is 25. |
| KnightsTour.Game.MoveKnight | knights-tour/main.c:72-110 | Returns true exactly when the target is in bounds, unvisited and a knight's move away; on false nothing changes. On true: the knight moves to the target, the counter goes up by 1, the target holds the new counter, every other square is unchanged, and the invariant is kept. |
| KnightsTour.Game.VisitNumbering | knights-tour/main.c:52-55 | On any valid game, the knight's square holds the counter and every square holds a value in 0..move. Each of 1..move sits on exactly one square, the one reached on that move, and the counter stays between 1 and 25. |
| KnightsTour.Game.CompleteIffAllVisited | knights-tour/main.c:60-70 | On a valid game, every square is visited exactly when the counter equals 25. |
| Chessboard.WrapU32 | knights-tour/main.c:85-92 | C `unsigned int` addition and subtraction: a value already in range is kept, and a value below zero wraps up by 2^32. |
| Chessboard.Step | knights-tour/main.c:85-92 | A candidate computed as `column + dc`, `row + dr` in unsigned arithmetic lies at 32-bit displacement exactly (dc, dr) from the knight, even where the sum wraps. |
| Chessboard.KnightCandidates | knights-tour/main.c:85-92 | The eight candidates `a`..`h`, in the source's order: the i-th lies at the i-th entry of the offset table (+2,-1), (+2,+1), (-2,-1), (-2,+1), (-1,+2), (+1,+2), (-1,-2), (+1,-2), in wrapped unsigned arithmetic. |
| Chessboard.KnightOffsetsAreKnightDisplacements | knights-tour/main.c:85-92 | The source's eight offsets are exactly the knight displacements: two columns and one row, or one column and two rows. |
| Chessboard.CandidatesAreKnightMoves | knights-tour/main.c:84-103 | For a knight and a target both on the board, the target equals one of the eight unsigned-wrapped candidates exactly when it is one of the eight knight displacements. |
| Chessboard.KnightMoveIffDistanceSqrt5 | knights-tour/main.c:85-92 | The eight displacements are exactly the squares at Euclidean distance sqrt 5. |
| Chessboard.VisitOrder | knights-tour/main.c:105-107 | The number written on a square after a walk: 0 exactly when the walk never reached it; otherwise the walk reached it on that move. |
| Chessboard.VisitOrderOfIndex | knights-tour/main.c:105-107 | On a walk without repeated squares, the square reached on move i + 1 carries i + 1. |
| Chessboard.ExtendPath | knights-tour/main.c:104-109 | A legal move extends a knight path to a knight path. The target gets the new length and every other square keeps its number. |
| Chessboard.KnightPathIffWalk | knights-tour/main.c:72-110 | A path built by successive accepted moves is the same thing as a sequence of distinct in-bounds squares, each a knight's move from the one before. |
| Chessboard.KnightPathPrefix | knights-tour/main.c:72-110 | Every non-empty prefix of a knight path is a knight path. |
| Chessboard.KnightPathStep | knights-tour/main.c:72-110 | Each square of a knight path is a legal move from the prefix before it. |
| Chessboard.PathLengthBound | knights-tour/main.c:105-107 | No knight path has more than 25 squares, so the counter never exceeds 25. |
| Chessboard.CoversBoardIffComplete | knights-tour/main.c:60-70 | A knight path covers every square of the board exactly when it has 25 squares. |
| Chessboard.CompletePathIsTerminal | knights-tour/main.c:72-110 | Once a knight path has 25 squares, no target can be added to it. |
| ScriptedTour.TourMatchesFinalBoard | knights-tour/main.c:113-163 | Every square of the scripted tour is on the board, and the expected final board `FinalBoard` holds i + 1 on square i of the tour. |
| ScriptedTour.GridIsVisitOrder | knights-tour/main.c:105-107 | A 5x5 grid that holds i + 1 on the i-th square of a complete knight path holds, on every square, the number that playing the path writes there. |
| ScriptedTour.FinalBoardIsVisitOrder | knights-tour/main.c:113-164 | `FinalBoard` is exactly the numbering that playing the scripted tour writes on the board. |
| ScriptedTour.FinalNumbering | knights-tour/main.c:105-107 | On a valid game whose counter has reached 25, every square holds a number in 1..25, and the square reached on move i + 1 holds i + 1, so each of 1..25 appears exactly once. |
| ScriptedTour.TourStepsAreKnightMoves | knights-tour/main.c:117-163 | Each scripted target is a knight's move from the square before it. |
| ScriptedTour.ScriptIsCompleteTour | knights-tour/main.c:113-164 | The corner followed by the 24 scripted targets is a knight path that covers all 25 squares. |
| ScriptedTour.PlayStep | knights-tour/main.c:117-164 | On a game that has followed a complete tour so far, the next move of the tour is accepted, the game follows one more square, and the game is won exactly when that square is the last. |
| ScriptedTour.PlayMoves | knights-tour/main.c:113-164 | Playing a complete tour move by move from its first square: every move is accepted, and the win check is true only after the last move, not on the fresh game nor after any earlier move. The game's final board numbers each square by the move that reached it: every square holds a value in 1..25 (none unvisited), and the i-th square of the tour holds i + 1. |
| ScriptedTour.PlayScript | knights-tour/main.c:113-164 | From (0, 0), the 24 scripted moves are all accepted. The win check is false on the new game and after each of the first 23 moves, and true after the 24th. The game's final board equals `FinalBoard` cell by cell. |

## Left out

- `print_game` (knights-tour/main.c:34-46) only formats output. It is not modelled.
- The entry point's `assert`s abort the process; that is not modelled. Its script is modelled as two constants and a loop that records every result, and `PlayScript` proves that every one of those asserts holds.
- KnightsTour.Game.constructor: the source's `assert`s on the start square (knights-tour/main.c:49-50) become a `requires`, since an out-of-bounds start aborts.
- The C `enum Square` is modelled as `int`, with 0 for `Unvisited`.
- KnightsTour.Game.MoveKnight: the `int` counter is unbounded in the model. Signed overflow cannot arise, because the invariant keeps it at most 25 (`VisitNumbering`).
- The board's visit history is a ghost `path` field. It exists only to state the invariant; the program keeps no such list.
