/** The 5x5 board of the knight's-tour program: squares, knight moves, and
    paths of visited squares with the counting facts about them. */
module Chessboard {

  const NumberOfColumns: int := 5
  const NumberOfRows: int := 5
  const NumberOfSquares: int := 25
  /** The value of a square that the knight has not visited yet. */
  const Unvisited: int := 0

  /** The C `unsigned int` of the source. */
  type UInt32 = x: int | 0 <= x < 0x1_0000_0000

  /** A square, given by its column and its row (the C `KnightPosition`). */
  datatype Position = Position(column: UInt32, row: UInt32)

  predicate InBounds(p: Position)
  {
    p.column < NumberOfColumns && p.row < NumberOfRows
  }

  // ---------------------------------------------------------------------
  // Knight moves
  // ---------------------------------------------------------------------

  /** Unsigned 32-bit arithmetic: the result of a C `unsigned int` addition or subtraction. */
  function WrapU32(x: int): (r: UInt32)
    ensures 0 <= x < 0x1_0000_0000 ==> r == x
    ensures -0x1_0000_0000 <= x < 0 ==> r == x + 0x1_0000_0000
  {
    x % 0x1_0000_0000
  }

  /** An unsigned 32-bit value read back as a two's-complement signed one. */
  function Signed32(x: UInt32): (v: int)
    ensures -0x8000_0000 <= v < 0x8000_0000
    ensures WrapU32(v) == x
  {
    if x < 0x8000_0000 then x else x - 0x1_0000_0000
  }

  /** The displacement from `from` to `to` in 32-bit arithmetic, column first. */
  function Offset32(from: Position, to: Position): (d: (int, int))
  {
    (Signed32(WrapU32(to.column - from.column)), Signed32(WrapU32(to.row - from.row)))
  }

  /** The eight knight displacements (column, row), in the order the source
      tries them. */
  const KnightOffsets: seq<(int, int)> :=
    [(2, -1), (2, 1), (-2, -1), (-2, 1), (-1, 2), (1, 2), (-1, -2), (1, -2)]

  /** Stepping by a small amount in unsigned arithmetic and measuring the
      step back gives the amount, even when the step wraps around. */
  lemma WrapOffset(c: UInt32, d: int)
    requires -2 <= d <= 2
    ensures Signed32(WrapU32(WrapU32(c + d) - c)) == d
  {
    if c + d < 0 {
      assert WrapU32(c + d) == c + d + 0x1_0000_0000;
    } else if c + d >= 0x1_0000_0000 {
      assert WrapU32(c + d) == c + d - 0x1_0000_0000;
    }
  }

  /** The square `dc` columns and `dr` rows from `k`, computed in unsigned
      arithmetic as the source computes it. */
  function Step(k: Position, dc: int, dr: int): (p: Position)
    requires -2 <= dc <= 2 && -2 <= dr <= 2
    ensures Offset32(k, p) == (dc, dr)
  {
    WrapOffset(k.column, dc);
    WrapOffset(k.row, dr);
    Position(WrapU32(k.column + dc), WrapU32(k.row + dr))
  }

  /** The eight squares the source compares the target against, in its
      order: the i-th lies at the i-th knight displacement from the knight. */
  function KnightCandidates(k: Position): (cs: seq<Position>)
    ensures |cs| == |KnightOffsets|
    ensures forall i :: 0 <= i < |cs| ==> Offset32(k, cs[i]) == KnightOffsets[i]
  {
    [ Step(k, 2, -1), Step(k, 2, 1), Step(k, -2, -1), Step(k, -2, 1),
      Step(k, -1, 2), Step(k, 1, 2), Step(k, -1, -2), Step(k, 1, -2) ]
  }

  /** Two columns and one row, or one column and two rows, in any direction. */
  predicate IsKnightDisplacement(dc: int, dr: int)
  {
    ((dc == 2 || dc == -2) && (dr == 1 || dr == -1)) ||
    ((dc == 1 || dc == -1) && (dr == 2 || dr == -2))
  }

  /** `to` is one of the eight knight displacements from `from`, in
      mathematical integers. */
  predicate IsKnightMove(from: Position, to: Position)
  {
    IsKnightDisplacement(to.column - from.column, to.row - from.row)
  }

  /** The source's table of eight offsets lists every knight displacement. */
  lemma KnightOffsetsAreKnightDisplacements(dc: int, dr: int)
    ensures (dc, dr) in KnightOffsets <==> IsKnightDisplacement(dc, dr)
  {
    if IsKnightDisplacement(dc, dr) {
      var i := if dc == 2 && dr == -1 then 0
               else if dc == 2 && dr == 1 then 1
               else if dc == -2 && dr == -1 then 2
               else if dc == -2 && dr == 1 then 3
               else if dc == -1 && dr == 2 then 4
               else if dc == 1 && dr == 2 then 5
               else if dc == -1 && dr == -2 then 6
               else 7;
      assert KnightOffsets[i] == (dc, dr);
    }
  }

  /** An independent description of a knight move: the two squares are at
      Euclidean distance exactly the square root of five. */
  predicate AtDistanceSqrt5(from: Position, to: Position)
  {
    var dc, dr := to.column - from.column, to.row - from.row;
    dc * dc + dr * dr == 5
  }

  lemma SquareAtLeastNine(d: int)
    requires d >= 3 || d <= -3
    ensures d * d >= 9
  {
    if d >= 3 {
      assert d * d >= 3 * d;
    } else {
      assert d * d >= (-3) * d;
    }
  }

  /** The eight displacements are exactly the squares at distance sqrt 5. */
  lemma KnightMoveIffDistanceSqrt5(from: Position, to: Position)
    ensures IsKnightMove(from, to) <==> AtDistanceSqrt5(from, to)
  {
    var dc, dr := to.column - from.column, to.row - from.row;
    if dc * dc + dr * dr == 5 {
      if dc >= 3 || dc <= -3 { SquareAtLeastNine(dc); }
      if dr >= 3 || dr <= -3 { SquareAtLeastNine(dr); }
      assert -2 <= dc <= 2 && -2 <= dr <= 2;
    }
  }

  /** Between two squares of the board the 32-bit displacement is the
      ordinary one. */
  lemma OffsetOnBoard(from: Position, to: Position)
    requires InBounds(from) && InBounds(to)
    ensures Offset32(from, to) == (to.column - from.column, to.row - from.row)
  {
  }

  /** Squares at the same 32-bit displacement from one square are the same square. */
  lemma OffsetIsInjective(k: Position, a: Position, b: Position)
    requires Offset32(k, a) == Offset32(k, b)
    ensures a == b
  {
    assert WrapU32(a.column - k.column) == WrapU32(b.column - k.column);
    assert WrapU32(a.row - k.row) == WrapU32(b.row - k.row);
  }

  /** For a knight and a target that are both on the board, the source's
      unsigned candidates match the target exactly when the target is a
      knight move away: a candidate that wrapped below zero is at least
      2^32 - 2 and can never equal an in-bounds target. */
  lemma CandidatesAreKnightMoves(k: Position, t: Position)
    requires InBounds(k) && InBounds(t)
    ensures t in KnightCandidates(k) <==> IsKnightMove(k, t)
  {
    var cs := KnightCandidates(k);
    OffsetOnBoard(k, t);
    var d := Offset32(k, t);
    KnightOffsetsAreKnightDisplacements(d.0, d.1);
    if t in cs {
      var i :| 0 <= i < |cs| && cs[i] == t;
      assert d == KnightOffsets[i];
    }
    if IsKnightMove(k, t) {
      var i :| 0 <= i < |KnightOffsets| && KnightOffsets[i] == d;
      OffsetIsInjective(k, cs[i], t);
    }
  }

  // ---------------------------------------------------------------------
  // Paths: the squares visited, in order
  // ---------------------------------------------------------------------

  predicate Distinct(s: seq<Position>)
  {
    forall i, j :: 0 <= i < j < |s| ==> s[i] != s[j]
  }

  function Last(path: seq<Position>): (p: Position)
    requires |path| >= 1
  {
    path[|path| - 1]
  }

  function Init(path: seq<Position>): (prefix: seq<Position>)
    requires |path| >= 1
  {
    path[..|path| - 1]
  }

  /** The three checks of a move, in terms of the path walked so far: the
      target is on the board, not yet visited, and a knight move away. */
  predicate CanExtend(path: seq<Position>, t: Position)
    requires |path| >= 1
  {
    InBounds(t) && t !in path && IsKnightMove(Last(path), t)
  }

  /** A path a knight can walk: a square on the board, followed by squares
      each of which passes the three checks against the path before it. */
  ghost predicate IsKnightPath(path: seq<Position>)
    decreases |path|
  {
    if |path| <= 1 then |path| == 1 && InBounds(path[0])
    else IsKnightPath(Init(path)) && CanExtend(Init(path), Last(path))
  }

  /** The same paths described square by square: every square is on the
      board, no square occurs twice, and each step is a knight move. */
  ghost predicate IsKnightWalk(path: seq<Position>)
  {
    |path| >= 1 &&
    (forall i :: 0 <= i < |path| ==> InBounds(path[i])) &&
    Distinct(path) &&
    (forall i :: 0 < i < |path| ==> IsKnightMove(path[i - 1], path[i]))
  }

  /** A path whose last square passes the three checks against a walk
      before it is a walk. */
  lemma ExtendWalk(path: seq<Position>)
    requires |path| > 1 && IsKnightWalk(Init(path)) && CanExtend(Init(path), Last(path))
    ensures IsKnightWalk(path)
  {
    var walk := Init(path);
    assert forall i :: 0 <= i < |walk| ==> path[i] == walk[i];
    forall i, j | 0 <= i < j < |path| ensures path[i] != path[j] {
      if j < |walk| {
        assert walk[i] != walk[j];
      } else {
        assert walk[i] in walk;
      }
    }
    forall i | 0 < i < |path| ensures IsKnightMove(path[i - 1], path[i]) {
      if i < |walk| {
        assert IsKnightMove(walk[i - 1], walk[i]);
      }
    }
  }

  lemma {:induction false} KnightPathIsWalk(path: seq<Position>)
    requires IsKnightPath(path)
    ensures IsKnightWalk(path)
    decreases |path|
  {
    if |path| > 1 {
      KnightPathIsWalk(Init(path));
      ExtendWalk(path);
    }
  }

  lemma {:induction false} WalkIsKnightPath(path: seq<Position>)
    requires IsKnightWalk(path)
    ensures IsKnightPath(path)
    decreases |path|
  {
    if |path| > 1 {
      var init := Init(path);
      assert forall i :: 0 <= i < |init| ==> path[i] == init[i];
      assert IsKnightWalk(init);
      WalkIsKnightPath(init);
      forall i | 0 <= i < |init| ensures init[i] != Last(path) {
        assert path[i] != path[|path| - 1];
      }
    }
  }

  /** The two descriptions of a knight path agree. */
  lemma KnightPathIffWalk(path: seq<Position>)
    ensures IsKnightPath(path) <==> IsKnightWalk(path)
  {
    if IsKnightPath(path) {
      KnightPathIsWalk(path);
    }
    if IsKnightWalk(path) {
      WalkIsKnightPath(path);
    }
  }

  /** Every prefix of a knight path is a knight path. */
  lemma {:induction false} KnightPathPrefix(path: seq<Position>, n: nat)
    requires IsKnightPath(path) && 1 <= n <= |path|
    ensures IsKnightPath(path[..n])
    decreases |path|
  {
    if n < |path| {
      assert Init(path)[..n] == path[..n];
      KnightPathPrefix(Init(path), n);
    } else {
      assert path[..n] == path;
    }
  }

  lemma PrefixSplit(path: seq<Position>, n: nat)
    requires n < |path|
    ensures Init(path[..n + 1]) == path[..n] && Last(path[..n + 1]) == path[n]
    ensures path[..n + 1] == path[..n] + [path[n]]
  {
  }

  /** Each square of a knight path passes the three checks against the
      squares before it. */
  lemma KnightPathStep(path: seq<Position>, n: nat)
    requires IsKnightPath(path) && 1 <= n < |path|
    ensures CanExtend(path[..n], path[n])
    ensures path[..n + 1] == path[..n] + [path[n]]
  {
    KnightPathPrefix(path, n + 1);
    PrefixSplit(path, n);
    assert CanExtend(Init(path[..n + 1]), Last(path[..n + 1]));
  }

  /** The number written on square `p` after walking `path`: its 1-based
      place in the path, or Unvisited when the path does not reach it. */
  function VisitOrder(path: seq<Position>, p: Position): (k: nat)
    ensures k <= |path|
    ensures k == Unvisited <==> p !in path
    ensures k != Unvisited ==> path[k - 1] == p
  {
    if path == [] then Unvisited
    else if Last(path) == p then |path|
    else VisitOrder(Init(path), p)
  }

  /** On a path without repetitions the i-th square is stamped i + 1. */
  lemma VisitOrderOfIndex(path: seq<Position>, i: nat)
    requires Distinct(path) && i < |path|
    ensures VisitOrder(path, path[i]) == i + 1
  {
    var k := VisitOrder(path, path[i]);
    assert path[k - 1] == path[i];
  }

  /** Extending a path by a legal square keeps it a knight path, stamps the
      new square with the new length, and leaves every other stamp alone. */
  lemma ExtendPath(path: seq<Position>, t: Position)
    requires IsKnightPath(path) && CanExtend(path, t)
    ensures IsKnightPath(path + [t])
    ensures VisitOrder(path + [t], t) == |path| + 1
    ensures forall p :: p != t ==> VisitOrder(path + [t], p) == VisitOrder(path, p)
  {
    assert Init(path + [t]) == path;
  }

  // ---------------------------------------------------------------------
  // Counting: a path has at most 25 squares, and covers the board exactly
  // when it has 25
  // ---------------------------------------------------------------------

  /** The offset of a square in the source's `board[column][row]` array. */
  function Index(p: Position): (i: int)
  {
    p.column * NumberOfRows + p.row
  }

  function SquareAt(i: int): (p: Position)
    requires 0 <= i < NumberOfSquares
    ensures InBounds(p) && Index(p) == i
  {
    Position(i / NumberOfRows, i % NumberOfRows)
  }

  lemma IndexIsInjective(p: Position, q: Position)
    requires InBounds(p) && InBounds(q)
    ensures Index(p) == Index(q) <==> p == q
  {
  }

  function Range(n: nat): (r: set<int>)
    ensures forall i :: i in r <==> 0 <= i < n
  {
    if n == 0 then {} else Range(n - 1) + {n - 1}
  }

  function Indices(path: seq<Position>): (s: set<int>)
  {
    set p | p in path :: Index(p)
  }

  lemma IndexInIndices(path: seq<Position>, p: Position)
    requires InBounds(p) && Index(p) in Indices(path)
    requires forall i :: 0 <= i < |path| ==> InBounds(path[i])
    ensures p in path
  {
    var q :| q in path && Index(q) == Index(p);
    IndexIsInjective(p, q);
  }

  lemma {:induction false} RangeSize(n: nat)
    ensures |Range(n)| == n
  {
    if n > 0 {
      RangeSize(n - 1);
    }
  }

  lemma {:induction false} SubsetSize<T>(a: set<T>, b: set<T>)
    requires a <= b
    ensures |a| <= |b|
    ensures |a| == |b| ==> a == b
    decreases a
  {
    if a != {} {
      var x :| x in a;
      SubsetSize(a - {x}, b - {x});
    } else if |b| == 0 {
      assert b == {};
    }
  }

  lemma {:induction false} IndicesSize(path: seq<Position>)
    requires Distinct(path)
    requires forall i :: 0 <= i < |path| ==> InBounds(path[i])
    ensures |Indices(path)| == |path|
  {
    if path != [] {
      var init := path[..|path| - 1];
      var q := Last(path);
      assert path == init + [q];
      IndicesSize(init);
      assert Indices(path) == Indices(init) + {Index(q)};
      forall j | 0 <= j < |init| ensures Index(init[j]) != Index(q) {
        assert init[j] == path[j] != path[|path| - 1];
        IndexIsInjective(init[j], q);
      }
    }
  }

  lemma IndicesOnBoard(path: seq<Position>)
    requires forall i :: 0 <= i < |path| ==> InBounds(path[i])
    ensures Indices(path) <= Range(NumberOfSquares)
  {
  }

  lemma KnightPathIndices(path: seq<Position>)
    requires IsKnightPath(path)
    ensures |Indices(path)| == |path|
    ensures Indices(path) <= Range(NumberOfSquares)
    ensures |Range(NumberOfSquares)| == NumberOfSquares
  {
    KnightPathIsWalk(path);
    IndicesSize(path);
    IndicesOnBoard(path);
    RangeSize(NumberOfSquares);
  }

  /** The move counter can never exceed the number of squares. */
  lemma PathLengthBound(path: seq<Position>)
    requires IsKnightPath(path)
    ensures |path| <= NumberOfSquares
  {
    KnightPathIndices(path);
    SubsetSize(Indices(path), Range(NumberOfSquares));
  }

  lemma CoveringPathIsComplete(path: seq<Position>)
    requires IsKnightPath(path)
    requires forall p :: InBounds(p) ==> p in path
    ensures |path| == NumberOfSquares
  {
    KnightPathIndices(path);
    SubsetSize(Indices(path), Range(NumberOfSquares));
    forall i | i in Range(NumberOfSquares) ensures i in Indices(path) {
      var p := SquareAt(i);
      assert p in path;
    }
    SubsetSize(Range(NumberOfSquares), Indices(path));
  }

  lemma CompletePathCovers(path: seq<Position>)
    requires IsKnightPath(path) && |path| == NumberOfSquares
    ensures forall p :: InBounds(p) ==> p in path
  {
    KnightPathIsWalk(path);
    KnightPathIndices(path);
    SubsetSize(Indices(path), Range(NumberOfSquares));
    assert Indices(path) == Range(NumberOfSquares);
    forall p | InBounds(p) ensures p in path {
      IndexInIndices(path, p);
    }
  }

  /** A knight path reaches every square of the board exactly when it is 25 squares long. */
  lemma CoversBoardIffComplete(path: seq<Position>)
    requires IsKnightPath(path)
    ensures (forall p :: InBounds(p) ==> p in path) <==> |path| == NumberOfSquares
  {
    if forall p :: InBounds(p) ==> p in path {
      CoveringPathIsComplete(path);
    }
    if |path| == NumberOfSquares {
      CompletePathCovers(path);
    }
  }

  /** A complete tour is terminal: no square can be added to it. */
  lemma CompletePathIsTerminal(path: seq<Position>, t: Position)
    requires IsKnightPath(path) && |path| == NumberOfSquares
    ensures !CanExtend(path, t)
  {
    CoversBoardIffComplete(path);
  }
}
