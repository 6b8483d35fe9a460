/** The fixed walk that the program's entry point plays: a complete tour of
    the 5x5 board from the corner (0, 0), checked move by move. */
module ScriptedTour {
  import opened Chessboard
  import opened KnightsTour

  const Start: Position := Position(0, 0)

  /** The 24 targets the entry point plays, in order. */
  const Script: seq<Position> := [
    Position(2, 1), Position(4, 0), Position(3, 2), Position(4, 4),
    Position(2, 3), Position(0, 4), Position(1, 2), Position(3, 1),
    Position(4, 3), Position(2, 4), Position(0, 3), Position(1, 1),
    Position(3, 0), Position(4, 2), Position(3, 4), Position(1, 3),
    Position(0, 1), Position(2, 0), Position(4, 1), Position(3, 3),
    Position(1, 4), Position(0, 2), Position(1, 0), Position(2, 2)]

  /** The board once the script has been played, indexed [column][row];
      `PlayScript` proves that the game's board ends up equal to it. */
  const FinalBoard: seq<seq<int>> := [
    [ 1, 18, 23, 12,  7],
    [24, 13,  8, 17, 22],
    [19,  2, 25,  6, 11],
    [14,  9,  4, 21, 16],
    [ 3, 20, 15, 10,  5]]

  lemma FinalBoardShape()
    ensures |FinalBoard| == NumberOfColumns
    ensures forall c :: 0 <= c < |FinalBoard| ==> |FinalBoard[c]| == NumberOfRows
  {
  }

  function Tour(): (t: seq<Position>)
    ensures |t| == NumberOfSquares
  {
    [Start] + Script
  }

  /** Every square of the tour is on the board, and the final board stamps
      the i-th square of the tour with i + 1. */
  lemma TourMatchesFinalBoard()
    ensures forall i :: 0 <= i < |Tour()| ==>
      InBounds(Tour()[i]) && FinalBoard[Tour()[i].column][Tour()[i].row] == i + 1
  {
  }

  lemma EarlyStepsAreKnightMoves()
    ensures forall i :: 0 < i <= 12 ==> IsKnightMove(Tour()[i - 1], Tour()[i])
  {
  }

  lemma LateStepsAreKnightMoves()
    ensures forall i :: 12 < i < 25 ==> IsKnightMove(Tour()[i - 1], Tour()[i])
  {
  }

  /** Each square of the tour is a knight's move from the one before. */
  lemma TourStepsAreKnightMoves()
    ensures forall i :: 0 < i < |Tour()| ==> IsKnightMove(Tour()[i - 1], Tour()[i])
  {
    EarlyStepsAreKnightMoves();
    LateStepsAreKnightMoves();
  }

  /** The start square followed by the script is a knight path through all
      25 squares of the board. */
  lemma ScriptIsCompleteTour()
    ensures IsKnightPath(Tour())
    ensures forall p :: InBounds(p) ==> p in Tour()
  {
    var t := Tour();
    TourMatchesFinalBoard();
    TourStepsAreKnightMoves();
    forall i, j | 0 <= i < j < |t| ensures t[i] != t[j] {
      assert FinalBoard[t[i].column][t[i].row] != FinalBoard[t[j].column][t[j].row];
    }
    WalkIsKnightPath(t);
    CompletePathCovers(t);
  }

  /** One scripted move on a game that has followed `tour` so far: the
      move is accepted, the game has followed one more square of `tour`,
      and it is won exactly when that square is the tour's last. */
  method PlayStep(game: Game, ghost tour: seq<Position>, target: Position, i: nat) returns (ok: bool, w: bool)
    requires IsKnightPath(tour) && |tour| == NumberOfSquares
    requires 1 <= i < |tour| && tour[i] == target
    requires game.Valid() && game.path == tour[..i]
    modifies game, game.board
    ensures game.Valid() && game.path == tour[..i + 1] && game.board == old(game.board)
    ensures ok && (w <==> i + 1 == |tour|)
  {
    KnightPathStep(tour, i);
    ok := game.MoveKnight(target);
    w := game.IsWon();
  }

  /** The bookkeeping of one step of the scenario: appending an accepted
      move and the matching win flag keeps the records as stated. */
  lemma Record(accepted: seq<bool>, won: seq<bool>, ok: bool, w: bool, i: nat, n: nat)
    requires |accepted| == i && forall k :: 0 <= k < i ==> accepted[k]
    requires |won| == i + 1 && forall k :: 0 <= k <= i ==> (won[k] <==> k == n)
    requires ok && (w <==> i + 1 == n)
    ensures forall k :: 0 <= k < i + 1 ==> (accepted + [ok])[k]
    ensures forall k :: 0 <= k <= i + 1 ==> ((won + [w])[k] <==> k == n)
  {
  }

  /** Plays `script` on a game started at `start`, as the entry point does,
      and records what each call returns: when the start and the script
      form a knight path through all 25 squares, every move is accepted and
      the game is won after the last move and at no earlier point, the fresh
      game included. The final board numbers each square by the move that
      reached it: 1..25, each exactly once, and no square left unvisited. */
  method PlayMoves(start: Position, script: seq<Position>)
    returns (accepted: seq<bool>, won: seq<bool>, board: array2<int>)
    requires IsKnightPath([start] + script) && |script| == NumberOfSquares - 1
    ensures |accepted| == |script| && forall i :: 0 <= i < |accepted| ==> accepted[i]
    ensures |won| == |script| + 1 && forall i :: 0 <= i < |won| ==> (won[i] <==> i == |script|)
    ensures board.Length0 == NumberOfColumns && board.Length1 == NumberOfRows
    ensures forall p :: InBounds(p) ==> board[p.column, p.row] == VisitOrder([start] + script, p)
    ensures forall p :: InBounds(p) ==> 1 <= board[p.column, p.row] <= NumberOfSquares
    ensures forall i :: 0 <= i < NumberOfSquares ==>
      InBounds(([start] + script)[i]) && board[([start] + script)[i].column, ([start] + script)[i].row] == i + 1
  {
    ghost var tour := [start] + script;
    KnightPathPrefix(tour, 1);
    assert tour[..1] == [start];
    var game := new Game(start);
    var w := game.IsWon();
    accepted, won := [], [w];
    for i := 0 to |script|
      invariant game.Valid() && game.path == tour[..i + 1] && fresh(game.board)
      invariant |accepted| == i && forall k :: 0 <= k < i ==> accepted[k]
      invariant |won| == i + 1 && forall k :: 0 <= k <= i ==> (won[k] <==> k == |script|)
    {
      var ok;
      ok, w := PlayStep(game, tour, script[i], i + 1);
      Record(accepted, won, ok, w, i, |script|);
      accepted, won := accepted + [ok], won + [w];
    }
    assert tour[..|script| + 1] == tour;
    FinalNumbering(game);
    board := game.board;
  }

  /** What a finished game's board holds: every square is numbered 1..25,
      and the square reached on move i + 1 holds i + 1. */
  lemma FinalNumbering(game: Game)
    requires game.Valid() && game.move == NumberOfSquares
    ensures forall p :: InBounds(p) ==> 1 <= game.At(p) <= NumberOfSquares
    ensures forall i :: 0 <= i < NumberOfSquares ==>
      InBounds(game.path[i]) && game.At(game.path[i]) == i + 1
  {
    game.VisitNumbering();
    game.CompleteIffAllVisited();
  }

  /** A grid that holds i + 1 on the i-th square of a complete knight path
      holds, on every square, the number that walking the path writes there. */
  lemma GridIsVisitOrder(path: seq<Position>, grid: seq<seq<int>>)
    requires IsKnightPath(path) && |path| == NumberOfSquares
    requires |grid| == NumberOfColumns && forall c :: 0 <= c < |grid| ==> |grid[c]| == NumberOfRows
    requires forall i :: 0 <= i < |path| ==> InBounds(path[i]) && grid[path[i].column][path[i].row] == i + 1
    ensures forall p :: InBounds(p) ==> grid[p.column][p.row] == VisitOrder(path, p)
  {
    CompletePathCovers(path);
    KnightPathIsWalk(path);
    forall p | InBounds(p) ensures grid[p.column][p.row] == VisitOrder(path, p) {
      var i :| 0 <= i < |path| && path[i] == p;
      VisitOrderOfIndex(path, i);
    }
  }

  /** An array and a grid that agree with the same numbering of the board
      agree on every cell. */
  lemma SameNumbering(board: array2<int>, grid: seq<seq<int>>, path: seq<Position>)
    requires board.Length0 == NumberOfColumns && board.Length1 == NumberOfRows
    requires |grid| == NumberOfColumns && forall c :: 0 <= c < |grid| ==> |grid[c]| == NumberOfRows
    requires forall p :: InBounds(p) ==> board[p.column, p.row] == VisitOrder(path, p)
    requires forall p :: InBounds(p) ==> grid[p.column][p.row] == VisitOrder(path, p)
    ensures forall c, r :: 0 <= c < NumberOfColumns && 0 <= r < NumberOfRows ==> board[c, r] == grid[c][r]
  {
    forall c, r | 0 <= c < NumberOfColumns && 0 <= r < NumberOfRows
      ensures board[c, r] == grid[c][r]
    {
      assert InBounds(Position(c, r));
    }
  }

  /** The constant final board is the numbering the scripted tour produces. */
  lemma FinalBoardIsVisitOrder()
    ensures forall p :: InBounds(p) ==> FinalBoard[p.column][p.row] == VisitOrder(Tour(), p)
  {
    ScriptIsCompleteTour();
    TourMatchesFinalBoard();
    FinalBoardShape();
    GridIsVisitOrder(Tour(), FinalBoard);
  }

  /** The entry point's scenario: from (0, 0), each of the 24 scripted moves
      is accepted, the game is won after the 24th and at no earlier point,
      and the final board is FinalBoard. */
  method PlayScript() returns (accepted: seq<bool>, won: seq<bool>, board: array2<int>)
    ensures |accepted| == 24 && forall i :: 0 <= i < |accepted| ==> accepted[i]
    ensures |won| == 25 && forall i :: 0 <= i < |won| ==> (won[i] <==> i == 24)
    ensures board.Length0 == NumberOfColumns && board.Length1 == NumberOfRows
    ensures forall c, r :: 0 <= c < NumberOfColumns && 0 <= r < NumberOfRows ==> board[c, r] == FinalBoard[c][r]
  {
    ScriptIsCompleteTour();
    accepted, won, board := PlayMoves(Start, Script);
    FinalBoardIsVisitOrder();
    FinalBoardShape();
    SameNumbering(board, FinalBoard, Tour());
  }
}
