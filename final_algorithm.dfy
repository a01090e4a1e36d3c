/**
 * `FinalAlgorithm`: an earlier variant of the live search. It has the same
 * table probe, move loops, store and quiescence search, but no game-over
 * test of its own (a finished game is only seen by `EvaluateBoard`, with no
 * ply correction), no ply counter, its own evaluation without the centre
 * term, and a capture generator that keeps en passant. `GetBestMove` runs
 * the depth loop of `Deepening` with no clock.
 *
 * The methods are proved to return what `SearchSpec` computes for
 * `FinalEngine`. The source's `AlphaBeta` has no ply; the `ghost ply`
 * parameter only follows the ply argument of the specification, which this
 * engine never reads.
 */
module FinalAlgorithm {
  import opened Deepening
  import opened Wrappers
  import opened Pieces
  import opened Positions
  import opened EndGame
  import opened Words
  import opened Zobrist
  import opened TranspositionTables
  import opened SearchCommon
  import opened SearchSpec
  import opened Board
  import FinalHelpers
  import MoveOrdering

  /** The starting value of the move loops. */
  const INF := 1000000

  /**
   * `FinalAlgorithm.GetBestMove`: searches every depth from 1 to `maxDepth`
   * with an aspiration window of plus or minus 50 around the previous score,
   * again with the full window when the score falls on or outside it, and
   * returns the move of the last depth (`None` when no depth is searched).
   */
  method GetBestMove(board: ChessBoard, tt: TranspositionTable, keys: ZobristKeys, rootColor: ChessColor, maxDepth: int)
    returns (bestMove: Option<Move>)
    requires board.Valid() && Consistent(board.Model())
    modifies tt
    ensures var r := Deepen(FinalEngine, keys, board.Model(), rootColor, maxDepth, Untimed, 1, 0, None, old(tt.table));
      bestMove == r.best && tt.table == r.table
  {
    ghost var p := board.Model();
    ghost var target := Deepen(FinalEngine, keys, p, rootColor, maxDepth, Untimed, 1, 0, None, tt.table);
    bestMove := None;
    var scoreGuess := 0;
    var depth: nat := 1;
    while depth <= maxDepth
      invariant depth >= 1
      invariant Deepen(FinalEngine, keys, p, rootColor, maxDepth, Untimed, depth, scoreGuess, bestMove, tt.table) == target
      decreases maxDepth - depth
    {
      var alpha := WindowLow(scoreGuess);
      var beta := WindowHigh(scoreGuess);
      var score, currentBestMove := AlphaBeta(board, tt, keys, depth, alpha, beta, rootColor, rootColor, 0);
      if score <= alpha || score >= beta {
        score, currentBestMove := AlphaBeta(board, tt, keys, depth, -INF, INF, rootColor, rootColor, 0);
      }
      scoreGuess := score;
      bestMove := currentBestMove;
      depth := NextDepth(depth);
    }
  }

  /**
   * `FinalAlgorithm.AlphaBeta`: hash the board, probe the table (an exact
   * entry answers, a bound narrows the window and answers when it closes),
   * then search on. `bestMove` is `None` where the source leaves it null.
   */
  method AlphaBeta(board: ChessBoard, tt: TranspositionTable, keys: ZobristKeys, depth: nat, alpha: int, beta: int,
                   rootColor: ChessColor, sideToMove: ChessColor, ghost ply: int) returns (value: int, bestMove: Option<Move>)
    requires board.Valid() && Consistent(board.Model())
    modifies tt
    ensures SearchResult(value, bestMove, tt.table)
         == Node(FinalEngine, keys, board.Model(), depth, alpha, beta, rootColor, sideToMove, ply, old(tt.table))
    decreases depth, 6
  {
    ConsistentHashable(board.Model());
    var hash, hashError := board.ComputeZobristHash(keys, sideToMove);
    var probe := ProbeTable(tt, hash, depth, alpha, beta);
    NodeOfProbe(FinalEngine, keys, board.Model(), depth, alpha, beta, rootColor, sideToMove, ply, tt.table, hash, probe);
    if probe.Hit? {
      return probe.value, probe.move;
    }
    value, bestMove := Expand(board, tt, keys, depth, probe.alpha, probe.beta, rootColor, sideToMove, ply, hash);
  }

  /**
   * The rest of `AlphaBeta` after the probe: the horizon hands over to
   * `Quiescence`; a side without moves is evaluated statically; otherwise
   * the ordered moves are searched.
   */
  method Expand(board: ChessBoard, tt: TranspositionTable, keys: ZobristKeys, depth: nat, alpha: int, beta: int,
                rootColor: ChessColor, sideToMove: ChessColor, ghost ply: int, hash: ULong) returns (value: int, bestMove: Option<Move>)
    requires board.Valid() && Consistent(board.Model())
    modifies tt
    ensures SearchResult(value, bestMove, tt.table)
         == SearchSpec.Expand(FinalEngine, keys, board.Model(), depth, alpha, beta, rootColor, sideToMove, ply, old(tt.table), hash)
    decreases depth, 5
  {
    bestMove := None;
    if depth == 0 {
      value := Quiescence(board, alpha, beta, rootColor, sideToMove);
      return;
    }
    value, bestMove := ExpandMoves(board, tt, keys, depth, alpha, beta, rootColor, sideToMove, ply, hash);
  }

  /** `Expand` above the horizon: a side without moves is evaluated statically, otherwise its moves are searched. */
  method ExpandMoves(board: ChessBoard, tt: TranspositionTable, keys: ZobristKeys, depth: nat, alpha: int, beta: int,
                     rootColor: ChessColor, sideToMove: ChessColor, ghost ply: int, hash: ULong)
    returns (value: int, bestMove: Option<Move>)
    requires board.Valid() && Consistent(board.Model()) && depth >= 1
    modifies tt
    ensures SearchResult(value, bestMove, tt.table)
         == SearchSpec.Expand(FinalEngine, keys, board.Model(), depth, alpha, beta, rootColor, sideToMove, ply, old(tt.table), hash)
    decreases depth, 4
  {
    var moves := GenerateMoves(board, sideToMove);
    if |moves| == 0 {
      ExpandWithoutMoves(FinalEngine, keys, board.Model(), depth, alpha, beta, rootColor, sideToMove, ply, tt.table, hash);
      value := FinalHelpers.EvaluateBoard(board, rootColor);
      bestMove := None;
    } else {
      value, bestMove := SearchMoves(board, tt, keys, depth, alpha, beta, rootColor, sideToMove, ply, hash, moves);
    }
  }

  /**
   * The move loops of `AlphaBeta`, then the store: the result is stored under
   * `hash` with the flag read against the original alpha and the beta the
   * loop leaves.
   */
  method SearchMoves(board: ChessBoard, tt: TranspositionTable, keys: ZobristKeys, depth: nat, alpha: int, beta: int,
                     rootColor: ChessColor, sideToMove: ChessColor, ghost ply: int, hash: ULong, moves: seq<Move>)
    returns (value: int, bestMove: Option<Move>)
    requires board.Valid() && Consistent(board.Model()) && depth >= 1
    requires moves == SideMoves(board.Model(), sideToMove) && moves != []
    modifies tt
    ensures SearchResult(value, bestMove, tt.table)
         == SearchSpec.Expand(FinalEngine, keys, board.Model(), depth, alpha, beta, rootColor, sideToMove, ply, old(tt.table), hash)
    decreases depth, 3
  {
    ghost var p := board.Model();
    ghost var before := tt.table;
    ExpandWithMoves(FinalEngine, keys, p, depth, alpha, beta, rootColor, sideToMove, ply, before, hash);
    var b;
    value, bestMove, b := SearchOrdered(board, tt, keys, depth, alpha, beta, rootColor, sideToMove, ply, moves);
    ghost var table := tt.table;
    var flag := Classify(value, alpha, b);
    tt.Store(hash, depth, value, flag, bestMove);
    SearchMovesOfFold(FinalEngine, keys, p, depth, alpha, beta, rootColor, sideToMove, ply, before, hash, value, bestMove, b, table);
  }

  /** Orders the moves and runs the loop of the side to move over them. */
  method SearchOrdered(board: ChessBoard, tt: TranspositionTable, keys: ZobristKeys, depth: nat, alpha: int, beta: int,
                       rootColor: ChessColor, sideToMove: ChessColor, ghost ply: int, moves: seq<Move>)
    returns (value: int, bestMove: Option<Move>, finalBeta: int)
    requires board.Valid() && Consistent(board.Model()) && depth >= 1
    requires moves == SideMoves(board.Model(), sideToMove) && moves != []
    modifies tt
    ensures var s := Fold(FinalEngine, keys, board.Model(), depth, rootColor, sideToMove, ply,
                          Order(FinalEngine, moves, board.Model(), sideToMove),
                          LoopState(InitialValue(FinalEngine, sideToMove == rootColor), None, alpha, beta, old(tt.table)));
      value == s.value && bestMove == s.best && finalBeta == s.beta && tt.table == s.table
    decreases depth, 2
  {
    var orderedMoves := MoveOrdering.OrderMoves(moves, board.Model(), sideToMove);
    assert orderedMoves == Order(FinalEngine, moves, board.Model(), sideToMove);
    if sideToMove == rootColor {
      value, bestMove, finalBeta := Maximize(board, tt, keys, depth, alpha, beta, rootColor, sideToMove, ply, moves, orderedMoves);
    } else {
      value, bestMove, finalBeta := Minimize(board, tt, keys, depth, alpha, beta, rootColor, sideToMove, ply, moves, orderedMoves);
    }
  }

  /**
   * The maximising loop: keep the first strictly best score and its move,
   * raise alpha to it, and stop once alpha reaches beta.
   */
  method Maximize(board: ChessBoard, tt: TranspositionTable, keys: ZobristKeys, depth: nat, alpha: int, beta: int,
                  rootColor: ChessColor, sideToMove: ChessColor, ghost ply: int, ghost moves: seq<Move>, orderedMoves: seq<Move>)
    returns (value: int, bestMove: Option<Move>, finalBeta: int)
    requires board.Valid() && Consistent(board.Model()) && depth >= 1 && sideToMove == rootColor
    requires orderedMoves == Order(FinalEngine, moves, board.Model(), sideToMove)
    requires forall m :: m in orderedMoves ==> m in SideMoves(board.Model(), sideToMove)
    modifies tt
    ensures var s := Fold(FinalEngine, keys, board.Model(), depth, rootColor, sideToMove, ply,
                          Order(FinalEngine, moves, board.Model(), sideToMove),
                          LoopState(InitialValue(FinalEngine, sideToMove == rootColor), None, alpha, beta, old(tt.table)));
      LoopState(value, bestMove, s.alpha, finalBeta, tt.table) == s
    decreases depth, 1
  {
    ghost var p := board.Model();
    ghost var target := Fold(FinalEngine, keys, p, depth, rootColor, sideToMove, ply, orderedMoves,
                             LoopState(InitialValue(FinalEngine, sideToMove == rootColor), None, alpha, beta, tt.table));
    var a := alpha;
    finalBeta := beta;
    value, bestMove := -INF, None;
    assert value == InitialValue(FinalEngine, sideToMove == rootColor);
    var rest := orderedMoves;
    while rest != []
      invariant forall m :: m in rest ==> m in SideMoves(p, sideToMove)
      invariant Fold(FinalEngine, keys, p, depth, rootColor, sideToMove, ply, rest,
                     LoopState(value, bestMove, a, finalBeta, tt.table)) == target
      decreases |rest|
    {
      var move := rest[0];
      ghost var before := LoopState(value, bestMove, a, finalBeta, tt.table);
      FoldUnfold(FinalEngine, keys, p, depth, rootColor, sideToMove, ply, rest, before);
      var score := ChildScore(board, tt, keys, depth, a, finalBeta, rootColor, sideToMove, ply, move);
      if score > value {
        value := score;
        bestMove := Some(move);
      }
      a := Max(a, value);
      assert LoopState(value, bestMove, a, finalBeta, tt.table) == Step(sideToMove == rootColor, before, score, move, tt.table);
      rest := rest[1..];
      if a >= finalBeta {
        assert LoopState(value, bestMove, a, finalBeta, tt.table) == target;
        break;
      }
    }
  }

  /**
   * The minimising loop: keep the first strictly lowest score and its move,
   * lower beta to it, and stop once alpha reaches beta.
   */
  method Minimize(board: ChessBoard, tt: TranspositionTable, keys: ZobristKeys, depth: nat, alpha: int, beta: int,
                  rootColor: ChessColor, sideToMove: ChessColor, ghost ply: int, ghost moves: seq<Move>, orderedMoves: seq<Move>)
    returns (value: int, bestMove: Option<Move>, finalBeta: int)
    requires board.Valid() && Consistent(board.Model()) && depth >= 1 && sideToMove != rootColor
    requires orderedMoves == Order(FinalEngine, moves, board.Model(), sideToMove)
    requires forall m :: m in orderedMoves ==> m in SideMoves(board.Model(), sideToMove)
    modifies tt
    ensures var s := Fold(FinalEngine, keys, board.Model(), depth, rootColor, sideToMove, ply,
                          Order(FinalEngine, moves, board.Model(), sideToMove),
                          LoopState(InitialValue(FinalEngine, sideToMove == rootColor), None, alpha, beta, old(tt.table)));
      LoopState(value, bestMove, s.alpha, finalBeta, tt.table) == s
    decreases depth, 1
  {
    ghost var p := board.Model();
    ghost var target := Fold(FinalEngine, keys, p, depth, rootColor, sideToMove, ply, orderedMoves,
                             LoopState(InitialValue(FinalEngine, sideToMove == rootColor), None, alpha, beta, tt.table));
    var a := alpha;
    finalBeta := beta;
    value, bestMove := INF, None;
    assert value == InitialValue(FinalEngine, sideToMove == rootColor);
    var rest := orderedMoves;
    while rest != []
      invariant forall m :: m in rest ==> m in SideMoves(p, sideToMove)
      invariant Fold(FinalEngine, keys, p, depth, rootColor, sideToMove, ply, rest,
                     LoopState(value, bestMove, a, finalBeta, tt.table)) == target
      decreases |rest|
    {
      var move := rest[0];
      ghost var before := LoopState(value, bestMove, a, finalBeta, tt.table);
      FoldUnfold(FinalEngine, keys, p, depth, rootColor, sideToMove, ply, rest, before);
      var score := ChildScore(board, tt, keys, depth, a, finalBeta, rootColor, sideToMove, ply, move);
      if score < value {
        value := score;
        bestMove := Some(move);
      }
      finalBeta := Min(finalBeta, value);
      assert LoopState(value, bestMove, a, finalBeta, tt.table) == Step(sideToMove == rootColor, before, score, move, tt.table);
      rest := rest[1..];
      if a >= finalBeta {
        assert LoopState(value, bestMove, a, finalBeta, tt.table) == target;
        break;
      }
    }
  }

  /** Plays `move` on a copy of the board and searches the child one ply deeper for the opponent. */
  method ChildScore(board: ChessBoard, tt: TranspositionTable, keys: ZobristKeys, depth: nat, alpha: int, beta: int,
                    rootColor: ChessColor, sideToMove: ChessColor, ghost ply: int, move: Move)
    returns (score: int)
    requires board.Valid() && Consistent(board.Model()) && depth >= 1
    requires move in SideMoves(board.Model(), sideToMove)
    modifies tt
    ensures Consistent(Child(board.Model(), move))
    ensures var r := Node(FinalEngine, keys, Child(board.Model(), move), ChildDepth(depth), alpha, beta,
                          rootColor, Opponent(sideToMove), ChildPly(ply), old(tt.table));
      score == r.value && tt.table == r.table
    decreases depth, 0
  {
    ghost var piece := SideMoveOrigin(board.Model(), sideToMove, move);
    var child := MakeChild(board, move, piece);
    var ignoredMove;
    score, ignoredMove := AlphaBeta(child, tt, keys, ChildDepth(depth), alpha, beta, rootColor, Opponent(sideToMove), ChildPly(ply));
  }

  /**
   * `FinalAlgorithm.Quiescence`: stand pat on the static evaluation, then
   * search the ordered captures with the narrowed window, returning the
   * bound that closes it.
   */
  method Quiescence(board: ChessBoard, alpha: int, beta: int, rootColor: ChessColor, sideToMove: ChessColor)
    returns (value: int)
    requires board.Valid() && Consistent(board.Model())
    ensures value == QValue(FinalEngine, board.Model(), alpha, beta, rootColor, sideToMove)
    decreases PieceCount(board.Model()), 2
  {
    var standPat := FinalHelpers.EvaluateBoard(board, rootColor);
    assert standPat == Eval(FinalEngine, board.Model(), rootColor);
    var a, b := alpha, beta;
    if sideToMove == rootColor {
      if standPat >= b {
        return b;
      }
      if a < standPat {
        a := standPat;
      }
      assert a == Max(alpha, standPat);
    } else {
      if standPat <= a {
        return a;
      }
      if b > standPat {
        b := standPat;
      }
      assert b == Min(beta, standPat);
    }
    value := SearchCaptures(board, a, b, rootColor, sideToMove);
  }

  /** Generates and orders the captures of the side to move, then runs the capture loop over them. */
  method SearchCaptures(board: ChessBoard, alpha: int, beta: int, rootColor: ChessColor, sideToMove: ChessColor)
    returns (value: int)
    requires board.Valid() && Consistent(board.Model())
    ensures forall m :: m in Order(FinalEngine, Captures(FinalEngine, board.Model(), sideToMove), board.Model(), sideToMove)
                     ==> m in Captures(FinalEngine, board.Model(), sideToMove)
    ensures value == QFold(FinalEngine, board.Model(), rootColor, sideToMove,
                           Order(FinalEngine, Captures(FinalEngine, board.Model(), sideToMove), board.Model(), sideToMove),
                           alpha, beta)
    decreases PieceCount(board.Model()), 1
  {
    var captureMoves := FinalHelpers.GenerateCaptureMoves(board, sideToMove);
    captureMoves := MoveOrdering.OrderMoves(captureMoves, board.Model(), sideToMove);
    assert forall m :: m in captureMoves ==> m in Captures(FinalEngine, board.Model(), sideToMove) by {
      forall m | m in captureMoves ensures m in Captures(FinalEngine, board.Model(), sideToMove) {
        assert m in multiset(captureMoves);
      }
    }
    value := CaptureLoop(board, alpha, beta, rootColor, sideToMove, captureMoves);
  }

  /** The capture loops of `Quiescence`: move the bound of the side to move, and return the other once the window closes. */
  method CaptureLoop(board: ChessBoard, alpha: int, beta: int, rootColor: ChessColor, sideToMove: ChessColor,
                     captureMoves: seq<Move>) returns (value: int)
    requires board.Valid() && Consistent(board.Model())
    requires forall m :: m in captureMoves ==> m in Captures(FinalEngine, board.Model(), sideToMove)
    ensures value == QFold(FinalEngine, board.Model(), rootColor, sideToMove, captureMoves, alpha, beta)
    decreases PieceCount(board.Model()), 0
  {
    ghost var p := board.Model();
    var a, b := alpha, beta;
    var rest := captureMoves;
    while rest != []
      invariant forall m :: m in rest ==> m in Captures(FinalEngine, p, sideToMove)
      invariant QFold(FinalEngine, p, rootColor, sideToMove, rest, a, b)
             == QFold(FinalEngine, p, rootColor, sideToMove, captureMoves, alpha, beta)
      decreases |rest|
    {
      var move := rest[0];
      CaptureChild(FinalEngine, p, sideToMove, move);
      ghost var piece := FinalHelpers.FinalCapturesAreCaptures(p, sideToMove, move);
      var child := MakeChild(board, move, piece);
      var score := Quiescence(child, a, b, rootColor, Opponent(sideToMove));
      rest := rest[1..];
      if sideToMove == rootColor {
        a := Max(a, score);
        if a >= b {
          return b;
        }
      } else {
        b := Min(b, score);
        if a >= b {
          return a;
        }
      }
    }
    value := if sideToMove == rootColor then a else b;
  }
}
