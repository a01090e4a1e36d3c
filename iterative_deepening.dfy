/**
 * `IterativeDeepeningSearch.GetBestMove`: the live engine's depth loop. The
 * stopwatch is the `elapsed` oracle, read at the points the source reads it.
 */
module IterativeDeepeningSearch {
  import opened Wrappers
  import opened Pieces
  import opened Positions
  import opened TranspositionTables
  import opened Zobrist
  import opened SearchSpec
  import opened Deepening
  import opened Board
  import AlphaBetaSearch

  /**
   * Searches depth 1, 2, ... up to `maxDepth` until the stopwatch reaches
   * the limit, and returns the move of the last depth that finished in time
   * (`None` when none did).
   */
  method GetBestMove(board: ChessBoard, tt: TranspositionTable, keys: ZobristKeys, rootColor: ChessColor,
                     maxDepth: int, moveTimeLimitMilliseconds: int, elapsed: nat -> nat)
    returns (bestMove: Option<Move>)
    requires board.Valid() && Consistent(board.Model())
    modifies tt
    ensures var r := Deepen(LiveEngine, keys, board.Model(), rootColor, maxDepth,
                            Timed(elapsed, moveTimeLimitMilliseconds), 1, 0, None, old(tt.table));
      bestMove == r.best && tt.table == r.table
  {
    ghost var p := board.Model();
    ghost var clock := Timed(elapsed, moveTimeLimitMilliseconds);
    ghost var target := Deepen(LiveEngine, keys, p, rootColor, maxDepth, clock, 1, 0, None, tt.table);
    bestMove := None;
    var scoreGuess := 0;
    var depth: nat := 1;
    while depth <= maxDepth
      invariant depth >= 1
      invariant Deepen(LiveEngine, keys, p, rootColor, maxDepth, clock, depth, scoreGuess, bestMove, tt.table) == target
      decreases maxDepth - depth
    {
      if elapsed(ReadBefore(depth)) >= moveTimeLimitMilliseconds {
        break;
      }
      var alpha := WindowLow(scoreGuess);
      var beta := WindowHigh(scoreGuess);
      var score, currentBestMove := AlphaBetaSearch.AlphaBeta(board, tt, keys, depth, alpha, beta, rootColor, rootColor, 0);
      if elapsed(ReadAfter(depth)) >= moveTimeLimitMilliseconds {
        break;
      }
      if score <= alpha || score >= beta {
        score, currentBestMove := AlphaBetaSearch.AlphaBeta(board, tt, keys, depth, -1000000, 1000000, rootColor, rootColor, 0);
      }
      scoreGuess := score;
      bestMove := currentBestMove;
      depth := NextDepth(depth);
    }
  }
}
