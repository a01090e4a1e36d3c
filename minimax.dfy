/**
 * `Minimax` (MinMax.cs): the oldest variant of the search. It hashes every
 * node with the colour it optimises for rather than the side to move, tests
 * the horizon and the end of the game after the table probe and answers both
 * with the static evaluation, searches the moves in generation order with
 * no quiescence search, and starts its loops from `int.MinValue` and
 * `int.MaxValue`.
 *
 * The methods are proved to return what `SearchSpec` computes for
 * `MinimaxEngine`. The source has no ply; the `ghost ply` parameter only
 * follows the ply argument of the specification, which this engine never
 * reads.
 */
module Minimax {
  import opened Wrappers
  import opened Pieces
  import opened Positions
  import opened EndGame
  import opened Words
  import opened Zobrist
  import opened TranspositionTables
  import opened SearchCommon
  import opened SearchSpec
  import opened Board
  import MinimaxHelpers

  /** What `GetBestMove` ends with: a move, or the `InvalidOperationException` "No valid moves found". */
  datatype BestMove = Found(move: Move) | NoValidMoves

  /**
   * `Minimax.GetBestMove`: one search to `depth` with the widest window,
   * throwing when it yields no move. The evaluations it prints are left out.
   */
  method GetBestMove(board: ChessBoard, tt: TranspositionTable, keys: ZobristKeys, color: ChessColor, depth: nat)
    returns (result: BestMove)
    requires board.Valid() && Consistent(board.Model())
    modifies tt
    ensures var r := Node(MinimaxEngine, keys, board.Model(), depth, MinimaxHelpers.IntMinValue,
                          MinimaxHelpers.IntMaxValue, color, color, 0, old(tt.table));
      tt.table == r.table && result == (if r.bestMove.Some? then Found(r.bestMove.value) else NoValidMoves)
  {
    var bestMove, value := MinimaxWithAlphaBeta(board, tt, keys, color, color, depth,
                                                MinimaxHelpers.IntMinValue, MinimaxHelpers.IntMaxValue, 0);
    result := if bestMove.Some? then Found(bestMove.value) else NoValidMoves;
  }

  /**
   * `Minimax.MinimaxWithAlphaBeta`: hash the board with the colour
   * optimised for, probe the table (an exact entry answers, a bound narrows
   * the window and answers when it closes), then search on.
   */
  method MinimaxWithAlphaBeta(board: ChessBoard, tt: TranspositionTable, keys: ZobristKeys,
                              colorToOptimize: ChessColor, currentColor: ChessColor, depth: nat, alpha: int, beta: int,
                              ghost ply: int)
    returns (bestMove: Option<Move>, value: int)
    requires board.Valid() && Consistent(board.Model())
    modifies tt
    ensures SearchResult(value, bestMove, tt.table)
         == Node(MinimaxEngine, keys, board.Model(), depth, alpha, beta, colorToOptimize, currentColor, ply, old(tt.table))
    decreases depth, 6
  {
    ConsistentHashable(board.Model());
    var hash, hashError := board.ComputeZobristHash(keys, colorToOptimize);
    var probe := ProbeTable(tt, hash, depth, alpha, beta);
    NodeOfProbe(MinimaxEngine, keys, board.Model(), depth, alpha, beta, colorToOptimize, currentColor, ply, tt.table, hash, probe);
    if probe.Hit? {
      return probe.move, probe.value;
    }
    bestMove, value := Expand(board, tt, keys, colorToOptimize, currentColor, depth, probe.alpha, probe.beta, ply, hash);
  }

  /**
   * The rest of `MinimaxWithAlphaBeta` after the probe: the horizon and a
   * finished game are answered by the static evaluation with no move.
   */
  method Expand(board: ChessBoard, tt: TranspositionTable, keys: ZobristKeys,
                colorToOptimize: ChessColor, currentColor: ChessColor, depth: nat, alpha: int, beta: int,
                ghost ply: int, hash: ULong)
    returns (bestMove: Option<Move>, value: int)
    requires board.Valid() && Consistent(board.Model())
    modifies tt
    ensures SearchResult(value, bestMove, tt.table)
         == SearchSpec.Expand(MinimaxEngine, keys, board.Model(), depth, alpha, beta, colorToOptimize, currentColor,
                              ply, old(tt.table), hash)
    decreases depth, 5
  {
    if depth == 0 || IsGameOver(board.Model()) {
      value := MinimaxHelpers.EvaluateBoard(board, colorToOptimize);
      bestMove := None;
    } else {
      bestMove, value := ExpandMoves(board, tt, keys, colorToOptimize, currentColor, depth, alpha, beta, ply, hash);
    }
  }

  /** `Expand` above the horizon: a side without moves is evaluated statically, otherwise its moves are searched. */
  method ExpandMoves(board: ChessBoard, tt: TranspositionTable, keys: ZobristKeys,
                     colorToOptimize: ChessColor, currentColor: ChessColor, depth: nat, alpha: int, beta: int,
                     ghost ply: int, hash: ULong)
    returns (bestMove: Option<Move>, value: int)
    requires board.Valid() && Consistent(board.Model()) && depth >= 1 && !IsGameOver(board.Model())
    modifies tt
    ensures SearchResult(value, bestMove, tt.table)
         == SearchSpec.Expand(MinimaxEngine, keys, board.Model(), depth, alpha, beta, colorToOptimize, currentColor,
                              ply, old(tt.table), hash)
    decreases depth, 4
  {
    var possibleMoves := GenerateMoves(board, currentColor);
    if |possibleMoves| == 0 {
      ExpandWithoutMoves(MinimaxEngine, keys, board.Model(), depth, alpha, beta, colorToOptimize, currentColor, ply,
                         tt.table, hash);
      value := MinimaxHelpers.EvaluateBoard(board, colorToOptimize);
      bestMove := None;
    } else {
      bestMove, value := SearchMoves(board, tt, keys, colorToOptimize, currentColor, depth, alpha, beta, ply, hash,
                                     possibleMoves);
    }
  }

  /**
   * The move loop, then the store: the result is stored under `hash` with
   * the flag read against the original alpha and the beta the loop leaves.
   */
  method SearchMoves(board: ChessBoard, tt: TranspositionTable, keys: ZobristKeys,
                     colorToOptimize: ChessColor, currentColor: ChessColor, depth: nat, alpha: int, beta: int,
                     ghost ply: int, hash: ULong, possibleMoves: seq<Move>)
    returns (bestMove: Option<Move>, value: int)
    requires board.Valid() && Consistent(board.Model()) && depth >= 1 && !IsGameOver(board.Model())
    requires possibleMoves == SideMoves(board.Model(), currentColor) && possibleMoves != []
    modifies tt
    ensures SearchResult(value, bestMove, tt.table)
         == SearchSpec.Expand(MinimaxEngine, keys, board.Model(), depth, alpha, beta, colorToOptimize,
                              currentColor, ply, old(tt.table), hash)
    decreases depth, 3
  {
    ghost var p := board.Model();
    ghost var before := tt.table;
    ExpandWithMoves(MinimaxEngine, keys, p, depth, alpha, beta, colorToOptimize, currentColor, ply, before, hash);
    assert possibleMoves == Order(MinimaxEngine, possibleMoves, p, currentColor);
    var finalBeta;
    bestMove, value, finalBeta := MoveLoop(board, tt, keys, colorToOptimize, currentColor, depth, alpha, beta, ply,
                                           possibleMoves);
    ghost var table := tt.table;
    var flag := Classify(value, alpha, finalBeta);
    tt.Store(hash, depth, value, flag, bestMove);
    SearchMovesOfFold(MinimaxEngine, keys, p, depth, alpha, beta, colorToOptimize, currentColor, ply, before, hash,
                      value, bestMove, finalBeta, table);
  }

  /**
   * The loop over the moves: the maximising side keeps the first strictly
   * best score and raises alpha to it, the minimising side the first
   * strictly lowest and lowers beta to it; the loop stops once beta is at or
   * below alpha.
   */
  method MoveLoop(board: ChessBoard, tt: TranspositionTable, keys: ZobristKeys,
                  colorToOptimize: ChessColor, currentColor: ChessColor, depth: nat, alpha: int, beta: int,
                  ghost ply: int, possibleMoves: seq<Move>)
    returns (bestMove: Option<Move>, bestValue: int, finalBeta: int)
    requires board.Valid() && Consistent(board.Model()) && depth >= 1
    requires forall m :: m in possibleMoves ==> m in SideMoves(board.Model(), currentColor)
    modifies tt
    ensures var s := Fold(MinimaxEngine, keys, board.Model(), depth, colorToOptimize, currentColor, ply, possibleMoves,
                          LoopState(InitialValue(MinimaxEngine, currentColor == colorToOptimize), None, alpha, beta,
                                    old(tt.table)));
      bestValue == s.value && bestMove == s.best && finalBeta == s.beta && tt.table == s.table
    decreases depth, 1
  {
    ghost var p := board.Model();
    ghost var target := Fold(MinimaxEngine, keys, p, depth, colorToOptimize, currentColor, ply, possibleMoves,
                             LoopState(InitialValue(MinimaxEngine, currentColor == colorToOptimize), None, alpha, beta,
                                       tt.table));
    var isMaximizing := currentColor == colorToOptimize;
    bestMove := None;
    bestValue := if isMaximizing then MinimaxHelpers.IntMinValue else MinimaxHelpers.IntMaxValue;
    assert bestValue == InitialValue(MinimaxEngine, currentColor == colorToOptimize);
    var a := alpha;
    finalBeta := beta;
    var rest := possibleMoves;
    while rest != []
      invariant forall m :: m in rest ==> m in SideMoves(p, currentColor)
      invariant Fold(MinimaxEngine, keys, p, depth, colorToOptimize, currentColor, ply, rest,
                     LoopState(bestValue, bestMove, a, finalBeta, tt.table)) == target
      decreases |rest|
    {
      var move := rest[0];
      ghost var before := LoopState(bestValue, bestMove, a, finalBeta, tt.table);
      FoldUnfold(MinimaxEngine, keys, p, depth, colorToOptimize, currentColor, ply, rest, before);
      var value := ChildValue(board, tt, keys, colorToOptimize, currentColor, depth, a, finalBeta, ply, move);
      if isMaximizing {
        if value > bestValue {
          bestValue := value;
          bestMove := Some(move);
        }
        a := Max(a, bestValue);
      } else {
        if value < bestValue {
          bestValue := value;
          bestMove := Some(move);
        }
        finalBeta := Min(finalBeta, bestValue);
      }
      assert LoopState(bestValue, bestMove, a, finalBeta, tt.table)
          == Step(currentColor == colorToOptimize, before, value, move, tt.table);
      rest := rest[1..];
      if finalBeta <= a {
        break;
      }
    }
  }

  /** Plays `move` on a copy of the board and searches the child one ply deeper for the other colour. */
  method ChildValue(board: ChessBoard, tt: TranspositionTable, keys: ZobristKeys,
                    colorToOptimize: ChessColor, currentColor: ChessColor, depth: nat, alpha: int, beta: int,
                    ghost ply: int, move: Move)
    returns (value: int)
    requires board.Valid() && Consistent(board.Model()) && depth >= 1
    requires move in SideMoves(board.Model(), currentColor)
    modifies tt
    ensures Consistent(Child(board.Model(), move))
    ensures var r := Node(MinimaxEngine, keys, Child(board.Model(), move), ChildDepth(depth), alpha, beta,
                          colorToOptimize, Opponent(currentColor), ChildPly(ply), old(tt.table));
      value == r.value && tt.table == r.table
    decreases depth, 0
  {
    ghost var piece := SideMoveOrigin(board.Model(), currentColor, move);
    var boardClone := MakeChild(board, move, piece);
    var ignoredMove;
    ignoredMove, value := MinimaxWithAlphaBeta(boardClone, tt, keys, colorToOptimize, Opponent(currentColor),
                                               ChildDepth(depth), alpha, beta, ChildPly(ply));
  }
}
