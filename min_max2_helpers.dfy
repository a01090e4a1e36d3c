/**
 * The private helpers of MinMax2.cs: its move ordering, whose key is a tenth
 * of the live engine's, and its evaluation, which counts ranks and moves
 * instead of reading bitboards. Its capture generator is the same loop over
 * `CapturingMove` as `MoveOrdering.GenerateCaptureMoves`.
 */
module MinMax2Helpers {
  import opened Coordinates
  import opened Pieces
  import opened Positions
  import opened PossibleMoves
  import opened EndGame
  import opened Board
  import opened StableSort
  import opened SearchCommon
  import MoveOrdering

  /** The ordering key: 100 for a capture plus the ranks advanced (up for White, down for Black). */
  function Key(m: Move): int
  {
    var capture := if m.capturedPiece.Some? then 100 else 0;
    var rankDiff :=
      if m.movingPiece.chessPiece == ChessPiece.White then m.targetRank as int - m.movingPiece.rank as int
      else if m.movingPiece.chessPiece == ChessPiece.Black then m.movingPiece.rank as int - m.targetRank as int
      else 0;
    capture + rankDiff
  }

  /** `MinMax2.OrderMoves`: a stable sort by descending `Key`. */
  function OrderMoves(moves: seq<Move>): (ordered: seq<Move>)
    ensures multiset(ordered) == multiset(moves)
    ensures Descending(ordered, Key)
    ensures forall k :: WithKey(ordered, Key, k) == WithKey(moves, Key, k)
  {
    SortPermutes(moves, Key);
    SortDescends(moves, Key);
    forall k ensures WithKey(SortDescending(moves, Key), Key, k) == WithKey(moves, Key, k) {
      SortStable(moves, Key, k);
    }
    SortDescending(moves, Key)
  }

  /**
   * The live engine's key is exactly ten times this one, so both engines put
   * any list of moves in the same order.
   */
  lemma OrderMatchesLive(moves: seq<Move>, p: Position, side: ChessColor)
    ensures OrderMoves(moves) == MoveOrdering.OrderMoves(moves, p, side)
  {
    forall m ensures MoveOrdering.MoveScore(m) == 10 * Key(m) {
    }
    SortSameOrder(moves, Key, MoveOrdering.MoveScore);
  }

  // ---------------------------------------------------------------------------
  // Evaluation

  /** The sum of the ranks of `pieces`: White's advancement. */
  function RankSum(pieces: seq<BoardPiece>): int
  {
    if pieces == [] then 0 else RankSum(pieces[..|pieces| - 1]) + pieces[|pieces| - 1].rank as int
  }

  /** The sum of `9 - rank` over `pieces`: Black's advancement. */
  function DistanceSum(pieces: seq<BoardPiece>): int
  {
    if pieces == [] then 0 else DistanceSum(pieces[..|pieces| - 1]) + (9 - pieces[|pieces| - 1].rank as int)
  }

  /** The score `MinMax2.Evaluate` returns. */
  function Score(p: Position, rootColor: ChessColor): int
  {
    if IsGameOver(p) then
      (if GetWinner(p) == rootColor then 10000 else -10000)
    else
      var score := RankSum(p.whitePieces) - DistanceSum(p.blackPieces)
        + (|SideMoves(p, ChessColor.White)| - |SideMoves(p, ChessColor.Black)|);
      if rootColor == ChessColor.Black then -score else score
  }

  /** `MinMax2.Evaluate`. */
  method Evaluate(board: ChessBoard, rootColor: ChessColor) returns (result: int)
    requires board.Valid()
    ensures result == Score(board.Model(), rootColor)
  {
    if IsGameOver(board.Model()) {
      var winner := GetWinner(board.Model());
      return if winner == rootColor then 10000 else -10000;
    }
    var score := 0;
    for i := 0 to |board.whitePieces|
      invariant score == RankSum(board.whitePieces[..i])
    {
      assert board.whitePieces[..i + 1][..i] == board.whitePieces[..i];
      score := score + board.whitePieces[i].rank as int;
    }
    assert board.whitePieces[..|board.whitePieces|] == board.whitePieces;
    for i := 0 to |board.blackPieces|
      invariant score == RankSum(board.whitePieces) - DistanceSum(board.blackPieces[..i])
    {
      assert board.blackPieces[..i + 1][..i] == board.blackPieces[..i];
      score := score - (9 - board.blackPieces[i].rank as int);
    }
    assert board.blackPieces[..|board.blackPieces|] == board.blackPieces;
    var whiteMoves := GenerateMoves(board, ChessColor.White);
    var blackMoves := GenerateMoves(board, ChessColor.Black);
    score := score + (|whiteMoves| - |blackMoves|);
    if rootColor == ChessColor.Black {
      score := -score;
    }
    return score;
  }

  /** On the board every piece counts between 1 and 8 towards its side's sum. */
  lemma {:induction false} SumsBounded(pieces: seq<BoardPiece>)
    requires forall i :: 0 <= i < |pieces| ==> OnBoard(pieces[i])
    ensures |pieces| <= RankSum(pieces) <= 8 * |pieces|
    ensures |pieces| <= DistanceSum(pieces) <= 8 * |pieces|
  {
    if pieces != [] {
      SumsBounded(pieces[..|pieces| - 1]);
      assert OnBoard(pieces[|pieces| - 1]);
    }
  }

  /**
   * The score is zero-sum between the colours, a finished game scores
   * +-10000 for the root's win or loss, and on a consistent board each side's
   * pieces weigh between one and eight points apiece.
   */
  lemma ScoreFacts(p: Position)
    ensures Score(p, ChessColor.White) == -Score(p, ChessColor.Black)
    ensures IsGameOver(p) ==> Score(p, GetWinner(p)) == 10000 && Score(p, Opponent(GetWinner(p))) == -10000
    ensures Consistent(p) ==> |p.whitePieces| <= RankSum(p.whitePieces) <= 8 * |p.whitePieces|
    ensures Consistent(p) ==> |p.blackPieces| <= DistanceSum(p.blackPieces) <= 8 * |p.blackPieces|
  {
    if IsGameOver(p) {
      var winner := GetWinner(p);
      assert winner == ChessColor.White || winner == ChessColor.Black;
    }
    if Consistent(p) {
      SumsBounded(p.whitePieces);
      SumsBounded(p.blackPieces);
    }
  }
}
