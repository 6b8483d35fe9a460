/** The game of the knight's-tour program: a 5x5 board, updated in place,
    on which a knight is moved one legal square at a time. */
module KnightsTour {
  import opened Chessboard

  class Game {
    /** board[column, row] holds the move on which the knight reached the
        square, or Unvisited. */
    var board: array2<int>
    var knightPosition: Position
    /** The number of the current move; the knight's square holds it. */
    var move: int
    /** The squares visited so far, in the order the knight reached them. */
    ghost var path: seq<Position>

    ghost predicate Valid()
      reads this, board
    {
      board.Length0 == NumberOfColumns && board.Length1 == NumberOfRows &&
      IsKnightPath(path) &&
      move == |path| &&
      Last(path) == knightPosition &&
      forall p :: InBounds(p) ==> board[p.column, p.row] == VisitOrder(path, p)
    }

    /** The value on square `p`. */
    ghost function At(p: Position): (v: int)
      reads this, board
      requires board.Length0 == NumberOfColumns && board.Length1 == NumberOfRows
      requires InBounds(p)
    {
      board[p.column, p.row]
    }

    /** Every square of the board has been visited. */
    ghost predicate AllVisited()
      reads this, board
      requires board.Length0 == NumberOfColumns && board.Length1 == NumberOfRows
    {
      forall p :: InBounds(p) ==> At(p) != Unvisited
    }

    /** new_game: the start square holds 1, every other square is
        unvisited, the move counter is 1 and the knight is on the start. */
    constructor (startingPosition: Position)
      requires InBounds(startingPosition)
      ensures Valid() && fresh(board)
      ensures knightPosition == startingPosition && move == 1
      ensures At(startingPosition) == 1
      ensures forall p :: InBounds(p) && p != startingPosition ==> At(p) == Unvisited
      ensures path == [startingPosition]
    {
      board := new int[NumberOfColumns, NumberOfRows]((column, row) => Unvisited);
      knightPosition := startingPosition;
      move := 1;
      path := [startingPosition];
      new;
      board[startingPosition.column, startingPosition.row] := move;
    }

    /** What the game invariant means for the numbers on the board: the
        knight's square holds the move counter, every square holds a value
        in 0..move, each of 1..move sits on exactly one square (the square
        reached on that move), and the counter never exceeds 25. */
    lemma VisitNumbering()
      requires Valid()
      ensures At(knightPosition) == move
      ensures forall p :: InBounds(p) ==> Unvisited <= At(p) <= move
      ensures forall i :: 0 <= i < move ==> InBounds(path[i]) && At(path[i]) == i + 1
      ensures forall p, q :: InBounds(p) && InBounds(q) && At(p) == At(q) != Unvisited ==> p == q
      ensures 1 <= move <= NumberOfSquares
    {
      PathLengthBound(path);
      KnightPathIsWalk(path);
      forall i | 0 <= i < move ensures InBounds(path[i]) && At(path[i]) == i + 1 {
        VisitOrderOfIndex(path, i);
      }
      forall p, q | InBounds(p) && InBounds(q) && At(p) == At(q) != Unvisited
        ensures p == q
      {
        assert path[VisitOrder(path, p) - 1] == p;
      }
    }

    /** Every square is visited exactly when the counter has reached 25. */
    lemma CompleteIffAllVisited()
      requires Valid()
      ensures AllVisited() <==> move == NumberOfSquares
    {
      CoversBoardIffComplete(path);
    }

    /** game_won: scans the board row by row and reports whether no square
        is unvisited. */
    method IsWon() returns (won: bool)
      requires board.Length0 == NumberOfColumns && board.Length1 == NumberOfRows
      ensures won <==> AllVisited()
      ensures Valid() ==> (won <==> move == NumberOfSquares)
    {
      if Valid() {
        CompleteIffAllVisited();
      }
      for row := 0 to NumberOfRows
        invariant forall p :: InBounds(p) && p.row < row ==> At(p) != Unvisited
      {
        for column := 0 to NumberOfColumns
          invariant forall p :: InBounds(p) && p.row < row ==> At(p) != Unvisited
          invariant forall p :: InBounds(p) && p.row == row && p.column < column ==> At(p) != Unvisited
        {
          if board[column, row] == Unvisited {
            assert At(Position(column, row)) == Unvisited;
            return false;
          }
        }
      }
      return true;
    }

    /** move_knight: rejects a target off the board, a visited target, or a
        target that is not a knight move away, leaving the game untouched;
        otherwise moves the knight there, increments the counter and writes
        it on the target square, and changes nothing else. */
    method MoveKnight(newPosition: Position) returns (ok: bool)
      requires Valid()
      modifies this, board
      ensures Valid() && board == old(board)
      ensures ok <==> InBounds(newPosition)
                      && old(At(newPosition)) == Unvisited
                      && IsKnightMove(old(knightPosition), newPosition)
      ensures ok <==> CanExtend(old(path), newPosition)
      ensures !ok ==> unchanged(this) && unchanged(board)
      ensures ok ==> knightPosition == newPosition
      ensures ok ==> move == old(move) + 1 && At(newPosition) == move
      ensures ok ==> forall p :: InBounds(p) && p != newPosition ==> At(p) == old(At(p))
      ensures ok ==> path == old(path) + [newPosition]
    {
      // Bounds check
      if newPosition.column >= NumberOfColumns {
        return false;
      }
      if newPosition.row >= NumberOfRows {
        return false;
      }
      // Already visited check
      if board[newPosition.column, newPosition.row] != Unvisited {
        return false;
      }
      // Knight move check, on the candidates computed in unsigned arithmetic
      var validMove := newPosition in KnightCandidates(knightPosition);
      CandidatesAreKnightMoves(knightPosition, newPosition);
      if !validMove {
        return false;
      }
      ExtendPath(path, newPosition);
      knightPosition := newPosition;
      move := move + 1;
      board[newPosition.column, newPosition.row] := move;
      path := path + [newPosition];
      return true;
    }
  }
}
