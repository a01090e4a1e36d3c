/**
 * Move ordering (Search/MoveOrdering.cs): the heuristic sort of the move
 * list and the generator of capture moves used by quiescence search.
 */
module MoveOrdering {
  import opened Wrappers
  import opened Coordinates
  import opened Pieces
  import opened Positions
  import opened PossibleMoves
  import opened StableSort
  import opened SearchCommon
  import opened Board

  /**
   * The ordering key: 1000 for a capture, plus ten times the number of ranks
   * the move advances towards the far side (up for White, down for Black,
   * nothing for any other piece).
   */
  function MoveScore(m: Move): int
  {
    var capture := if m.capturedPiece.Some? then 1000 else 0;
    var rankDiff :=
      if m.movingPiece.chessPiece == ChessPiece.White then m.targetRank as int - m.movingPiece.rank as int
      else if m.movingPiece.chessPiece == ChessPiece.Black then m.movingPiece.rank as int - m.targetRank as int
      else 0;
    capture + rankDiff * 10
  }

  /**
   * `MoveOrdering.OrderMoves`: `OrderByDescending(MoveScore)`. The board and
   * the side to move are not used. The result is a permutation of the moves,
   * in non-increasing score, with equally scored moves in their input order.
   */
  function OrderMoves(moves: seq<Move>, board: Position, sideToMove: ChessColor): (ordered: seq<Move>)
    ensures multiset(ordered) == multiset(moves) && |ordered| == |moves|
    ensures Descending(ordered, MoveScore)
    ensures forall k :: WithKey(ordered, MoveScore, k) == WithKey(moves, MoveScore, k)
  {
    SortPermutes(moves, MoveScore);
    assert |SortDescending(moves, MoveScore)| == |multiset(SortDescending(moves, MoveScore))|;
    SortDescends(moves, MoveScore);
    forall k ensures WithKey(SortDescending(moves, MoveScore), MoveScore, k) == WithKey(moves, MoveScore, k) {
      SortStable(moves, MoveScore, k);
    }
    SortDescending(moves, MoveScore)
  }

  /** The ordering depends on the moves alone, not on the board or the side to move. */
  lemma OrderIgnoresBoard(moves: seq<Move>, p: Position, q: Position, s: ChessColor, t: ChessColor)
    ensures OrderMoves(moves, p, s) == OrderMoves(moves, q, t)
  {
  }

  /**
   * On a consistent board, a generated move of a listed piece scores 1010
   * when it captures (en passant included), 20 when it is a double push and
   * 10 when it is a single push.
   */
  lemma GeneratedMoveScore(p: Position, piece: BoardPiece, m: Move)
    requires Consistent(p) && Listed(p, piece) && m in GetPossibleMoves(p, piece)
    ensures m.capturedPiece.Some? ==> MoveScore(m) == 1010
    ensures m in DoubleMove(p, piece) ==> MoveScore(m) == 20
    ensures m in SingleMoves(p, piece) ==> MoveScore(m) == 10
    ensures m.capturedPiece.Some? <==> m in CapturingMove(p, piece) + EnPassent(p, piece)
  {
    ListedPawn(p, piece);
    SingleMovesRule(p, piece);
    DoubleMoveRule(p, piece);
    CapturingMoveRule(p, piece);
    EnPassentRule(p, piece);
    if m in CapturingMove(p, piece) {
      CellMeansPiece(p, m.targetRank, m.targetFile);
    } else if m in EnPassent(p, piece) {
      CellMeansPiece(p, piece.rank, m.targetFile);
    }
  }

  /**
   * Ordering the moves of a side on a consistent board puts every capture
   * before every quiet move, and every double push before every single push.
   */
  lemma CapturesFirst(p: Position, side: ChessColor, moves: seq<Move>, i: int, j: int)
    requires Consistent(p) && forall m <- moves :: m in SideMoves(p, side)
    requires 0 <= i < j < |moves|
    ensures var ordered := OrderMoves(moves, p, side);
      && (ordered[j].capturedPiece.Some? ==> ordered[i].capturedPiece.Some?)
      && (MoveScore(ordered[j]) == 20 ==> MoveScore(ordered[i]) != 10)
  {
    var ordered := OrderMoves(moves, p, side);
    assert ordered[i] in multiset(moves) && ordered[j] in multiset(moves);
    var a := SideMoveOrigin(p, side, ordered[i]);
    var b := SideMoveOrigin(p, side, ordered[j]);
    GeneratedMoveScore(p, a, ordered[i]);
    GeneratedMoveScore(p, b, ordered[j]);
    SingleMovesRule(p, a);
    DoubleMoveRule(p, a);
  }

  // ---------------------------------------------------------------------------
  // Capture moves

  /** The moves `GenerateCaptureMoves` returns: `CapturingMove` of each piece of the side, in list order. */
  function CaptureMoves(p: Position, side: ChessColor): seq<Move>
  {
    Collect(p, SidePieces(p, side), CapturingMove)
  }

  /** `MoveOrdering.GenerateCaptureMoves`. */
  method GenerateCaptureMoves(board: ChessBoard, sideToMove: ChessColor) returns (captureMoves: seq<Move>)
    requires board.Valid()
    ensures captureMoves == CaptureMoves(board.Model(), sideToMove)
  {
    var pieces := if sideToMove == ChessColor.White then board.whitePieces else board.blackPieces;
    captureMoves := [];
    for i := 0 to |pieces|
      invariant captureMoves == Collect(board.Model(), pieces[..i], CapturingMove)
    {
      assert pieces[..i + 1][..i] == pieces[..i];
      captureMoves := captureMoves + CapturingMove(board.Model(), pieces[i]);
    }
    assert pieces[..|pieces|] == pieces;
  }

  /**
   * On a consistent board the capture moves are exactly the diagonal
   * captures of the side's pieces: each is one of the side's moves, carries a
   * captured piece, is not en passant, and leaves a consistent child with one
   * piece fewer.
   */
  lemma CaptureMovesAreCaptures(p: Position, side: ChessColor, m: Move) returns (piece: BoardPiece)
    requires Consistent(p) && m in CaptureMoves(p, side)
    ensures Listed(p, piece) && m in CapturingMove(p, piece)
    ensures m in SideMoves(p, side) && m.capturedPiece.Some?
    ensures Consistent(Child(p, m)) && PieceCount(Child(p, m)) < PieceCount(p)
  {
    CollectMember(p, SidePieces(p, side), CapturingMove, m);
    var i :| 0 <= i < |SidePieces(p, side)| && m in CapturingMove(p, SidePieces(p, side)[i]);
    piece := SidePieces(p, side)[i];
    assert m in GetPossibleMoves(p, piece);
    CollectMember(p, SidePieces(p, side), GetPossibleMoves, m);
    GeneratedMoveScore(p, piece, m);
    ChildOf(p, piece, m);
    CaptureShrinks(p, piece, m);
  }
}
