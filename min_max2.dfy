/**
 * `MinMax2`: an older variant of the search. A finished game scores plus or
 * minus 10000 before anything else, and the horizon goes straight to the
 * quiescence search, both ahead of the table probe; a side without moves
 * scores minus 10000 for the root and 10000 for the opponent; moves are
 * ordered by their own key; "infinity" is 100000. `GetBestMove` runs the
 * depth loop of `Deepening` with no clock and keeps the previous move when a
 * depth returns none.
 *
 * The methods are proved to return what `SearchSpec` computes for
 * `MinMax2Engine`. The source's `AlphaBeta` has no ply; the `ghost ply`
 * parameter only follows the ply argument of the specification, which this
 * engine never reads.
 */
module MinMax2 {
  import opened Deepening
  import opened Wrappers
  import opened Pieces
  import opened Positions
  import opened EndGame
  import opened Words
  import opened Zobrist
  import opened TranspositionTables
  import opened SearchCommon
  import opened SearchSpec
  import opened Board
  import MinMax2Helpers
  import MoveOrdering

  /** The starting value of the move loops. */
  const INF := 100000

  /**
   * `MinMax2.GetBestMove`: searches every depth from 1 to `maxDepth` with an
   * aspiration window of plus or minus 50 around the previous score, again
   * with the full window when the score falls on or outside it, and returns
   * the last move a depth returned (`None` when none did).
   */
  method GetBestMove(board: ChessBoard, tt: TranspositionTable, keys: ZobristKeys, rootColor: ChessColor, maxDepth: int)
    returns (bestMove: Option<Move>)
    requires board.Valid() && Consistent(board.Model())
    modifies tt
    ensures var r := Deepen(MinMax2Engine, keys, board.Model(), rootColor, maxDepth, Untimed, 1, 0, None, old(tt.table));
      bestMove == r.best && tt.table == r.table
  {
    ghost var p := board.Model();
    ghost var target := Deepen(MinMax2Engine, keys, p, rootColor, maxDepth, Untimed, 1, 0, None, tt.table);
    bestMove := None;
    var scoreGuess := 0;
    var depth: nat := 1;
    while depth <= maxDepth
      invariant depth >= 1
      invariant Deepen(MinMax2Engine, keys, p, rootColor, maxDepth, Untimed, depth, scoreGuess, bestMove, tt.table) == target
      decreases maxDepth - depth
    {
      var alpha := WindowLow(scoreGuess);
      var beta := WindowHigh(scoreGuess);
      var score, currentBestMove := AlphaBeta(board, tt, keys, depth, alpha, beta, rootColor, rootColor, 0);
      if score <= alpha || score >= beta {
        score, currentBestMove := AlphaBeta(board, tt, keys, depth, -INF, INF, rootColor, rootColor, 0);
      }
      scoreGuess := score;
      if currentBestMove.Some? {
        bestMove := currentBestMove;
      }
      depth := NextDepth(depth);
    }
  }

  /**
   * `MinMax2.AlphaBeta`: a finished game scores 10000 for a root win and
   * minus 10000 otherwise; the horizon hands over to `Quiescence`; otherwise
   * the table is probed and the moves searched. `bestMove` is `None` where
   * the source leaves it null.
   */
  method AlphaBeta(board: ChessBoard, tt: TranspositionTable, keys: ZobristKeys, depth: nat, alpha: int, beta: int,
                   rootColor: ChessColor, sideToMove: ChessColor, ghost ply: int) returns (value: int, bestMove: Option<Move>)
    requires board.Valid() && Consistent(board.Model())
    modifies tt
    ensures SearchResult(value, bestMove, tt.table)
         == Node(MinMax2Engine, keys, board.Model(), depth, alpha, beta, rootColor, sideToMove, ply, old(tt.table))
    decreases depth, 7
  {
    bestMove := None;
    if IsGameOver(board.Model()) {
      var winner := GetWinner(board.Model());
      value := if winner == rootColor then 10000 else -10000;
      return;
    }
    if depth == 0 {
      value := Quiescence(board, alpha, beta, rootColor, sideToMove);
      return;
    }
    value, bestMove := ProbeAndSearch(board, tt, keys, depth, alpha, beta, rootColor, sideToMove, ply);
  }

  /**
   * The rest of `AlphaBeta` in a running game above the horizon: hash the
   * board, probe the table (an exact entry answers, a bound narrows the
   * window and answers when it closes), then search the moves.
   */
  method ProbeAndSearch(board: ChessBoard, tt: TranspositionTable, keys: ZobristKeys, depth: nat, alpha: int, beta: int,
                   rootColor: ChessColor, sideToMove: ChessColor, ghost ply: int) returns (value: int, bestMove: Option<Move>)
    requires board.Valid() && Consistent(board.Model()) && depth >= 1 && !IsGameOver(board.Model())
    modifies tt
    ensures SearchResult(value, bestMove, tt.table)
         == Node(MinMax2Engine, keys, board.Model(), depth, alpha, beta, rootColor, sideToMove, ply, old(tt.table))
    decreases depth, 6
  {
    ConsistentHashable(board.Model());
    var hash, hashError := board.ComputeZobristHash(keys, sideToMove);
    var probe := ProbeTable(tt, hash, depth, alpha, beta);
    NodeOfProbe(MinMax2Engine, keys, board.Model(), depth, alpha, beta, rootColor, sideToMove, ply, tt.table, hash, probe);
    if probe.Hit? {
      return probe.value, probe.move;
    }
    value, bestMove := ExpandMoves(board, tt, keys, depth, probe.alpha, probe.beta, rootColor, sideToMove, ply, hash);
  }

  /**
   * The part of `AlphaBeta` after the probe: a side without moves scores
   * minus 10000 for the root and 10000 for the opponent, otherwise its moves
   * are searched.
   */
  method ExpandMoves(board: ChessBoard, tt: TranspositionTable, keys: ZobristKeys, depth: nat, alpha: int, beta: int,
                     rootColor: ChessColor, sideToMove: ChessColor, ghost ply: int, hash: ULong)
    returns (value: int, bestMove: Option<Move>)
    requires board.Valid() && Consistent(board.Model()) && depth >= 1
    modifies tt
    ensures SearchResult(value, bestMove, tt.table)
         == SearchSpec.Expand(MinMax2Engine, keys, board.Model(), depth, alpha, beta, rootColor, sideToMove, ply, old(tt.table), hash)
    decreases depth, 4
  {
    var moves := GenerateMoves(board, sideToMove);
    if |moves| == 0 {
      ExpandWithoutMoves(MinMax2Engine, keys, board.Model(), depth, alpha, beta, rootColor, sideToMove, ply, tt.table, hash);
      value := if sideToMove == rootColor then -10000 else 10000;
      bestMove := None;
    } else {
      value, bestMove := SearchMoves(board, tt, keys, depth, alpha, beta, rootColor, sideToMove, ply, hash, moves);
    }
  }

  /**
   * The move loops of `AlphaBeta`, then the store: the result is stored under
   * `hash` with the flag read against the original alpha and the beta the
   * loop leaves.
   */
  method SearchMoves(board: ChessBoard, tt: TranspositionTable, keys: ZobristKeys, depth: nat, alpha: int, beta: int,
                     rootColor: ChessColor, sideToMove: ChessColor, ghost ply: int, hash: ULong, moves: seq<Move>)
    returns (value: int, bestMove: Option<Move>)
    requires board.Valid() && Consistent(board.Model()) && depth >= 1
    requires moves == SideMoves(board.Model(), sideToMove) && moves != []
    modifies tt
    ensures SearchResult(value, bestMove, tt.table)
         == SearchSpec.Expand(MinMax2Engine, keys, board.Model(), depth, alpha, beta, rootColor, sideToMove, ply, old(tt.table), hash)
    decreases depth, 3
  {
    ghost var p := board.Model();
    ghost var before := tt.table;
    ExpandWithMoves(MinMax2Engine, keys, p, depth, alpha, beta, rootColor, sideToMove, ply, before, hash);
    var b;
    value, bestMove, b := SearchOrdered(board, tt, keys, depth, alpha, beta, rootColor, sideToMove, ply, moves);
    ghost var table := tt.table;
    var flag := Classify(value, alpha, b);
    tt.Store(hash, depth, value, flag, bestMove);
    SearchMovesOfFold(MinMax2Engine, keys, p, depth, alpha, beta, rootColor, sideToMove, ply, before, hash, value, bestMove, b, table);
  }

  /** Orders the moves and runs the loop of the side to move over them. */
  method SearchOrdered(board: ChessBoard, tt: TranspositionTable, keys: ZobristKeys, depth: nat, alpha: int, beta: int,
                       rootColor: ChessColor, sideToMove: ChessColor, ghost ply: int, moves: seq<Move>)
    returns (value: int, bestMove: Option<Move>, finalBeta: int)
    requires board.Valid() && Consistent(board.Model()) && depth >= 1
    requires moves == SideMoves(board.Model(), sideToMove) && moves != []
    modifies tt
    ensures var s := Fold(MinMax2Engine, keys, board.Model(), depth, rootColor, sideToMove, ply,
                          Order(MinMax2Engine, moves, board.Model(), sideToMove),
                          LoopState(InitialValue(MinMax2Engine, sideToMove == rootColor), None, alpha, beta, old(tt.table)));
      value == s.value && bestMove == s.best && finalBeta == s.beta && tt.table == s.table
    decreases depth, 2
  {
    var orderedMoves := MinMax2Helpers.OrderMoves(moves);
    assert orderedMoves == Order(MinMax2Engine, moves, board.Model(), sideToMove);
    if sideToMove == rootColor {
      value, bestMove, finalBeta := Maximize(board, tt, keys, depth, alpha, beta, rootColor, sideToMove, ply, moves, orderedMoves);
    } else {
      value, bestMove, finalBeta := Minimize(board, tt, keys, depth, alpha, beta, rootColor, sideToMove, ply, moves, orderedMoves);
    }
  }

  /**
   * The maximising loop: keep the first strictly best score and its move,
   * raise alpha to it, and stop once alpha reaches beta.
   */
  method Maximize(board: ChessBoard, tt: TranspositionTable, keys: ZobristKeys, depth: nat, alpha: int, beta: int,
                  rootColor: ChessColor, sideToMove: ChessColor, ghost ply: int, ghost moves: seq<Move>, orderedMoves: seq<Move>)
    returns (value: int, bestMove: Option<Move>, finalBeta: int)
    requires board.Valid() && Consistent(board.Model()) && depth >= 1 && sideToMove == rootColor
    requires orderedMoves == Order(MinMax2Engine, moves, board.Model(), sideToMove)
    requires forall m :: m in orderedMoves ==> m in SideMoves(board.Model(), sideToMove)
    modifies tt
    ensures var s := Fold(MinMax2Engine, keys, board.Model(), depth, rootColor, sideToMove, ply,
                          Order(MinMax2Engine, moves, board.Model(), sideToMove),
                          LoopState(InitialValue(MinMax2Engine, sideToMove == rootColor), None, alpha, beta, old(tt.table)));
      LoopState(value, bestMove, s.alpha, finalBeta, tt.table) == s
    decreases depth, 1
  {
    ghost var p := board.Model();
    ghost var target := Fold(MinMax2Engine, keys, p, depth, rootColor, sideToMove, ply, orderedMoves,
                             LoopState(InitialValue(MinMax2Engine, sideToMove == rootColor), None, alpha, beta, tt.table));
    var a := alpha;
    finalBeta := beta;
    value, bestMove := -INF, None;
    assert value == InitialValue(MinMax2Engine, sideToMove == rootColor);
    var rest := orderedMoves;
    while rest != []
      invariant forall m :: m in rest ==> m in SideMoves(p, sideToMove)
      invariant Fold(MinMax2Engine, keys, p, depth, rootColor, sideToMove, ply, rest,
                     LoopState(value, bestMove, a, finalBeta, tt.table)) == target
      decreases |rest|
    {
      var move := rest[0];
      ghost var before := LoopState(value, bestMove, a, finalBeta, tt.table);
      FoldUnfold(MinMax2Engine, keys, p, depth, rootColor, sideToMove, ply, rest, before);
      var score := ChildScore(board, tt, keys, depth, a, finalBeta, rootColor, sideToMove, ply, move);
      if score > value {
        value := score;
        bestMove := Some(move);
      }
      a := Max(a, value);
      assert LoopState(value, bestMove, a, finalBeta, tt.table) == Step(sideToMove == rootColor, before, score, move, tt.table);
      rest := rest[1..];
      if a >= finalBeta {
        assert LoopState(value, bestMove, a, finalBeta, tt.table) == target;
        break;
      }
    }
  }

  /**
   * The minimising loop: keep the first strictly lowest score and its move,
   * lower beta to it, and stop once alpha reaches beta.
   */
  method Minimize(board: ChessBoard, tt: TranspositionTable, keys: ZobristKeys, depth: nat, alpha: int, beta: int,
                  rootColor: ChessColor, sideToMove: ChessColor, ghost ply: int, ghost moves: seq<Move>, orderedMoves: seq<Move>)
    returns (value: int, bestMove: Option<Move>, finalBeta: int)
    requires board.Valid() && Consistent(board.Model()) && depth >= 1 && sideToMove != rootColor
    requires orderedMoves == Order(MinMax2Engine, moves, board.Model(), sideToMove)
    requires forall m :: m in orderedMoves ==> m in SideMoves(board.Model(), sideToMove)
    modifies tt
    ensures var s := Fold(MinMax2Engine, keys, board.Model(), depth, rootColor, sideToMove, ply,
                          Order(MinMax2Engine, moves, board.Model(), sideToMove),
                          LoopState(InitialValue(MinMax2Engine, sideToMove == rootColor), None, alpha, beta, old(tt.table)));
      LoopState(value, bestMove, s.alpha, finalBeta, tt.table) == s
    decreases depth, 1
  {
    ghost var p := board.Model();
    ghost var target := Fold(MinMax2Engine, keys, p, depth, rootColor, sideToMove, ply, orderedMoves,
                             LoopState(InitialValue(MinMax2Engine, sideToMove == rootColor), None, alpha, beta, tt.table));
    var a := alpha;
    finalBeta := beta;
    value, bestMove := INF, None;
    assert value == InitialValue(MinMax2Engine, sideToMove == rootColor);
    var rest := orderedMoves;
    while rest != []
      invariant forall m :: m in rest ==> m in SideMoves(p, sideToMove)
      invariant Fold(MinMax2Engine, keys, p, depth, rootColor, sideToMove, ply, rest,
                     LoopState(value, bestMove, a, finalBeta, tt.table)) == target
      decreases |rest|
    {
      var move := rest[0];
      ghost var before := LoopState(value, bestMove, a, finalBeta, tt.table);
      FoldUnfold(MinMax2Engine, keys, p, depth, rootColor, sideToMove, ply, rest, before);
      var score := ChildScore(board, tt, keys, depth, a, finalBeta, rootColor, sideToMove, ply, move);
      if score < value {
        value := score;
        bestMove := Some(move);
      }
      finalBeta := Min(finalBeta, value);
      assert LoopState(value, bestMove, a, finalBeta, tt.table) == Step(sideToMove == rootColor, before, score, move, tt.table);
      rest := rest[1..];
      if a >= finalBeta {
        assert LoopState(value, bestMove, a, finalBeta, tt.table) == target;
        break;
      }
    }
  }

  /** Plays `move` on a copy of the board and searches the child one ply deeper for the opponent. */
  method ChildScore(board: ChessBoard, tt: TranspositionTable, keys: ZobristKeys, depth: nat, alpha: int, beta: int,
                    rootColor: ChessColor, sideToMove: ChessColor, ghost ply: int, move: Move)
    returns (score: int)
    requires board.Valid() && Consistent(board.Model()) && depth >= 1
    requires move in SideMoves(board.Model(), sideToMove)
    modifies tt
    ensures Consistent(Child(board.Model(), move))
    ensures var r := Node(MinMax2Engine, keys, Child(board.Model(), move), ChildDepth(depth), alpha, beta,
                          rootColor, Opponent(sideToMove), ChildPly(ply), old(tt.table));
      score == r.value && tt.table == r.table
    decreases depth, 0
  {
    ghost var piece := SideMoveOrigin(board.Model(), sideToMove, move);
    var child := MakeChild(board, move, piece);
    var ignoredMove;
    score, ignoredMove := AlphaBeta(child, tt, keys, ChildDepth(depth), alpha, beta, rootColor, Opponent(sideToMove), ChildPly(ply));
  }

  /**
   * `MinMax2.Quiescence`: stand pat on the static evaluation, then
   * search the ordered captures with the narrowed window, returning the
   * bound that closes it.
   */
  method Quiescence(board: ChessBoard, alpha: int, beta: int, rootColor: ChessColor, sideToMove: ChessColor)
    returns (value: int)
    requires board.Valid() && Consistent(board.Model())
    ensures value == QValue(MinMax2Engine, board.Model(), alpha, beta, rootColor, sideToMove)
    decreases PieceCount(board.Model()), 2
  {
    var standPat := MinMax2Helpers.Evaluate(board, rootColor);
    assert standPat == Eval(MinMax2Engine, board.Model(), rootColor);
    var a, b := alpha, beta;
    if sideToMove == rootColor {
      if standPat >= b {
        return b;
      }
      if a < standPat {
        a := standPat;
      }
      assert a == Max(alpha, standPat);
    } else {
      if standPat <= a {
        return a;
      }
      if b > standPat {
        b := standPat;
      }
      assert b == Min(beta, standPat);
    }
    value := SearchCaptures(board, a, b, rootColor, sideToMove);
  }

  /** Generates and orders the captures of the side to move, then runs the capture loop over them. */
  method SearchCaptures(board: ChessBoard, alpha: int, beta: int, rootColor: ChessColor, sideToMove: ChessColor)
    returns (value: int)
    requires board.Valid() && Consistent(board.Model())
    ensures forall m :: m in Order(MinMax2Engine, Captures(MinMax2Engine, board.Model(), sideToMove), board.Model(), sideToMove)
                     ==> m in Captures(MinMax2Engine, board.Model(), sideToMove)
    ensures value == QFold(MinMax2Engine, board.Model(), rootColor, sideToMove,
                           Order(MinMax2Engine, Captures(MinMax2Engine, board.Model(), sideToMove), board.Model(), sideToMove),
                           alpha, beta)
    decreases PieceCount(board.Model()), 1
  {
    var captureMoves := MoveOrdering.GenerateCaptureMoves(board, sideToMove);
    captureMoves := MinMax2Helpers.OrderMoves(captureMoves);
    assert forall m :: m in captureMoves ==> m in Captures(MinMax2Engine, board.Model(), sideToMove) by {
      forall m | m in captureMoves ensures m in Captures(MinMax2Engine, board.Model(), sideToMove) {
        assert m in multiset(captureMoves);
      }
    }
    value := CaptureLoop(board, alpha, beta, rootColor, sideToMove, captureMoves);
  }

  /** The capture loops of `Quiescence`: move the bound of the side to move, and return the other once the window closes. */
  method CaptureLoop(board: ChessBoard, alpha: int, beta: int, rootColor: ChessColor, sideToMove: ChessColor,
                     captureMoves: seq<Move>) returns (value: int)
    requires board.Valid() && Consistent(board.Model())
    requires forall m :: m in captureMoves ==> m in Captures(MinMax2Engine, board.Model(), sideToMove)
    ensures value == QFold(MinMax2Engine, board.Model(), rootColor, sideToMove, captureMoves, alpha, beta)
    decreases PieceCount(board.Model()), 0
  {
    ghost var p := board.Model();
    var a, b := alpha, beta;
    var rest := captureMoves;
    while rest != []
      invariant forall m :: m in rest ==> m in Captures(MinMax2Engine, p, sideToMove)
      invariant QFold(MinMax2Engine, p, rootColor, sideToMove, rest, a, b)
             == QFold(MinMax2Engine, p, rootColor, sideToMove, captureMoves, alpha, beta)
      decreases |rest|
    {
      var move := rest[0];
      CaptureChild(MinMax2Engine, p, sideToMove, move);
      ghost var piece := MoveOrdering.CaptureMovesAreCaptures(p, sideToMove, move);
      var child := MakeChild(board, move, piece);
      var score := Quiescence(child, a, b, rootColor, Opponent(sideToMove));
      rest := rest[1..];
      if sideToMove == rootColor {
        a := Max(a, score);
        if a >= b {
          return b;
        }
      } else {
        b := Min(b, score);
        if a >= b {
          return a;
        }
      }
    }
    value := if sideToMove == rootColor then a else b;
  }
}
