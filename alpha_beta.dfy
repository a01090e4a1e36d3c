/**
 * `AlphaBetaSearch`: the live engine's fail-hard alpha-beta search with a
 * transposition table and a quiescence search at the horizon.
 *
 * The static table of the source is the `TranspositionTable` object the
 * methods receive and modify; the Zobrist keys are an input. Every method is
 * proved to return what the search functions of `SearchSpec` compute for the
 * live engine, and to leave the table as they leave it, so the properties
 * proved there (the probe, the stored flags, the quiescence window) hold of
 * the methods. `AlphaBeta` is one method in the source; here the part after
 * the table probe (`Expand`) and the move loops (`SearchMoves`) are methods
 * of their own, following the functions that specify them.
 */
module AlphaBetaSearch {
  import opened Wrappers
  import opened Pieces
  import opened Positions
  import opened EndGame
  import opened Words
  import opened Zobrist
  import opened TranspositionTables
  import opened SearchCommon
  import opened SearchSpec
  import opened Board
  import Evaluation
  import MoveOrdering

  /** "Infinity" for terminal positions. */
  const INF := 1000000

  /**
   * `AlphaBetaSearch.AlphaBeta`: hash the board, probe the table (an exact
   * entry answers, a bound narrows the window and answers when it closes),
   * then search on. `bestMove` is `None` where the source leaves it null.
   */
  method AlphaBeta(board: ChessBoard, tt: TranspositionTable, keys: ZobristKeys, depth: nat, alpha: int, beta: int,
                   rootColor: ChessColor, sideToMove: ChessColor, ply: int) returns (value: int, bestMove: Option<Move>)
    requires board.Valid() && Consistent(board.Model())
    modifies tt
    ensures SearchResult(value, bestMove, tt.table)
         == Node(LiveEngine, keys, board.Model(), depth, alpha, beta, rootColor, sideToMove, ply, old(tt.table))
    decreases depth, 6
  {
    ConsistentHashable(board.Model());
    var hash, hashError := board.ComputeZobristHash(keys, sideToMove);
    var probe := ProbeTable(tt, hash, depth, alpha, beta);
    NodeOfProbe(LiveEngine, keys, board.Model(), depth, alpha, beta, rootColor, sideToMove, ply, tt.table, hash, probe);
    if probe.Hit? {
      return probe.value, probe.move;
    }
    value, bestMove := Expand(board, tt, keys, depth, probe.alpha, probe.beta, rootColor, sideToMove, ply, hash);
  }

  /**
   * The rest of `AlphaBeta` after the probe: a finished game scores just
   * inside plus or minus `INF`, nearer wins scoring higher; the horizon hands
   * over to `Quiescence`; a side without moves is evaluated statically;
   * otherwise the ordered moves are searched.
   */
  method Expand(board: ChessBoard, tt: TranspositionTable, keys: ZobristKeys, depth: nat, alpha: int, beta: int,
                rootColor: ChessColor, sideToMove: ChessColor, ply: int, hash: ULong) returns (value: int, bestMove: Option<Move>)
    requires board.Valid() && Consistent(board.Model())
    modifies tt
    ensures SearchResult(value, bestMove, tt.table)
         == SearchSpec.Expand(LiveEngine, keys, board.Model(), depth, alpha, beta, rootColor, sideToMove, ply, old(tt.table), hash)
    decreases depth, 5
  {
    bestMove := None;
    if IsGameOver(board.Model()) {
      var winner := GetWinner(board.Model());
      value := if winner == rootColor then INF - ply else -INF + ply;
      return;
    }
    if depth == 0 {
      value := Quiescence(board, alpha, beta, rootColor, sideToMove, ply);
      return;
    }
    value, bestMove := ExpandMoves(board, tt, keys, depth, alpha, beta, rootColor, sideToMove, ply, hash);
  }

  /** `Expand` above the horizon: a side without moves is evaluated statically, otherwise its moves are searched. */
  method ExpandMoves(board: ChessBoard, tt: TranspositionTable, keys: ZobristKeys, depth: nat, alpha: int, beta: int,
                     rootColor: ChessColor, sideToMove: ChessColor, ply: int, hash: ULong)
    returns (value: int, bestMove: Option<Move>)
    requires board.Valid() && Consistent(board.Model()) && depth >= 1 && !IsGameOver(board.Model())
    modifies tt
    ensures SearchResult(value, bestMove, tt.table)
         == SearchSpec.Expand(LiveEngine, keys, board.Model(), depth, alpha, beta, rootColor, sideToMove, ply, old(tt.table), hash)
    decreases depth, 4
  {
    var moves := GenerateMoves(board, sideToMove);
    if |moves| == 0 {
      ExpandWithoutMoves(LiveEngine, keys, board.Model(), depth, alpha, beta, rootColor, sideToMove, ply, tt.table, hash);
      value := Evaluation.EvaluateBoard(board, rootColor);
      bestMove := None;
    } else {
      value, bestMove := SearchMoves(board, tt, keys, depth, alpha, beta, rootColor, sideToMove, ply, hash, moves);
    }
  }

  /**
   * The move loops of `AlphaBeta`, then the store: the result is stored under
   * `hash` with the flag read against the original alpha and the beta the
   * loop leaves.
   */
  method SearchMoves(board: ChessBoard, tt: TranspositionTable, keys: ZobristKeys, depth: nat, alpha: int, beta: int,
                     rootColor: ChessColor, sideToMove: ChessColor, ply: int, hash: ULong, moves: seq<Move>)
    returns (value: int, bestMove: Option<Move>)
    requires board.Valid() && Consistent(board.Model()) && depth >= 1 && !IsGameOver(board.Model())
    requires moves == SideMoves(board.Model(), sideToMove) && moves != []
    modifies tt
    ensures SearchResult(value, bestMove, tt.table)
         == SearchSpec.Expand(LiveEngine, keys, board.Model(), depth, alpha, beta, rootColor, sideToMove, ply, old(tt.table), hash)
    decreases depth, 3
  {
    ghost var p := board.Model();
    ghost var before := tt.table;
    ExpandWithMoves(LiveEngine, keys, p, depth, alpha, beta, rootColor, sideToMove, ply, before, hash);
    var b;
    value, bestMove, b := SearchOrdered(board, tt, keys, depth, alpha, beta, rootColor, sideToMove, ply, moves);
    ghost var table := tt.table;
    var flag := Classify(value, alpha, b);
    tt.Store(hash, depth, value, flag, bestMove);
    SearchMovesOfFold(LiveEngine, keys, p, depth, alpha, beta, rootColor, sideToMove, ply, before, hash, value, bestMove, b, table);
  }

  /** Orders the moves and runs the loop of the side to move over them. */
  method SearchOrdered(board: ChessBoard, tt: TranspositionTable, keys: ZobristKeys, depth: nat, alpha: int, beta: int,
                       rootColor: ChessColor, sideToMove: ChessColor, ply: int, moves: seq<Move>)
    returns (value: int, bestMove: Option<Move>, finalBeta: int)
    requires board.Valid() && Consistent(board.Model()) && depth >= 1
    requires moves == SideMoves(board.Model(), sideToMove) && moves != []
    modifies tt
    ensures var s := Fold(LiveEngine, keys, board.Model(), depth, rootColor, sideToMove, ply,
                          Order(LiveEngine, moves, board.Model(), sideToMove),
                          LoopState(InitialValue(LiveEngine, sideToMove == rootColor), None, alpha, beta, old(tt.table)));
      value == s.value && bestMove == s.best && finalBeta == s.beta && tt.table == s.table
    decreases depth, 2
  {
    var orderedMoves := MoveOrdering.OrderMoves(moves, board.Model(), sideToMove);
    assert orderedMoves == Order(LiveEngine, moves, board.Model(), sideToMove);
    if sideToMove == rootColor {
      value, bestMove, finalBeta := Maximize(board, tt, keys, depth, alpha, beta, rootColor, sideToMove, ply, moves, orderedMoves);
    } else {
      value, bestMove, finalBeta := Minimize(board, tt, keys, depth, alpha, beta, rootColor, sideToMove, ply, moves, orderedMoves);
    }
  }

  /**
   * The maximising loop: keep the first strictly best score and its move,
   * raise alpha to it, and stop once alpha reaches beta.
   */
  method Maximize(board: ChessBoard, tt: TranspositionTable, keys: ZobristKeys, depth: nat, alpha: int, beta: int,
                  rootColor: ChessColor, sideToMove: ChessColor, ply: int, ghost moves: seq<Move>, orderedMoves: seq<Move>)
    returns (value: int, bestMove: Option<Move>, finalBeta: int)
    requires board.Valid() && Consistent(board.Model()) && depth >= 1 && sideToMove == rootColor
    requires orderedMoves == Order(LiveEngine, moves, board.Model(), sideToMove)
    requires forall m :: m in orderedMoves ==> m in SideMoves(board.Model(), sideToMove)
    modifies tt
    ensures var s := Fold(LiveEngine, keys, board.Model(), depth, rootColor, sideToMove, ply,
                          Order(LiveEngine, moves, board.Model(), sideToMove),
                          LoopState(InitialValue(LiveEngine, sideToMove == rootColor), None, alpha, beta, old(tt.table)));
      LoopState(value, bestMove, s.alpha, finalBeta, tt.table) == s
    decreases depth, 1
  {
    ghost var p := board.Model();
    ghost var target := Fold(LiveEngine, keys, p, depth, rootColor, sideToMove, ply, orderedMoves,
                             LoopState(InitialValue(LiveEngine, sideToMove == rootColor), None, alpha, beta, tt.table));
    var a := alpha;
    finalBeta := beta;
    value, bestMove := -INF, None;
    assert value == InitialValue(LiveEngine, sideToMove == rootColor);
    var rest := orderedMoves;
    while rest != []
      invariant forall m :: m in rest ==> m in SideMoves(p, sideToMove)
      invariant Fold(LiveEngine, keys, p, depth, rootColor, sideToMove, ply, rest,
                     LoopState(value, bestMove, a, finalBeta, tt.table)) == target
      decreases |rest|
    {
      var move := rest[0];
      ghost var before := LoopState(value, bestMove, a, finalBeta, tt.table);
      FoldUnfold(LiveEngine, keys, p, depth, rootColor, sideToMove, ply, rest, before);
      var score := ChildScore(board, tt, keys, depth, a, finalBeta, rootColor, sideToMove, ply, move);
      if score > value {
        value := score;
        bestMove := Some(move);
      }
      a := Max(a, value);
      assert LoopState(value, bestMove, a, finalBeta, tt.table) == Step(sideToMove == rootColor, before, score, move, tt.table);
      rest := rest[1..];
      if a >= finalBeta {
        assert LoopState(value, bestMove, a, finalBeta, tt.table) == target;
        break;
      }
    }
  }

  /**
   * The minimising loop: keep the first strictly lowest score and its move,
   * lower beta to it, and stop once alpha reaches beta.
   */
  method Minimize(board: ChessBoard, tt: TranspositionTable, keys: ZobristKeys, depth: nat, alpha: int, beta: int,
                  rootColor: ChessColor, sideToMove: ChessColor, ply: int, ghost moves: seq<Move>, orderedMoves: seq<Move>)
    returns (value: int, bestMove: Option<Move>, finalBeta: int)
    requires board.Valid() && Consistent(board.Model()) && depth >= 1 && sideToMove != rootColor
    requires orderedMoves == Order(LiveEngine, moves, board.Model(), sideToMove)
    requires forall m :: m in orderedMoves ==> m in SideMoves(board.Model(), sideToMove)
    modifies tt
    ensures var s := Fold(LiveEngine, keys, board.Model(), depth, rootColor, sideToMove, ply,
                          Order(LiveEngine, moves, board.Model(), sideToMove),
                          LoopState(InitialValue(LiveEngine, sideToMove == rootColor), None, alpha, beta, old(tt.table)));
      LoopState(value, bestMove, s.alpha, finalBeta, tt.table) == s
    decreases depth, 1
  {
    ghost var p := board.Model();
    ghost var target := Fold(LiveEngine, keys, p, depth, rootColor, sideToMove, ply, orderedMoves,
                             LoopState(InitialValue(LiveEngine, sideToMove == rootColor), None, alpha, beta, tt.table));
    var a := alpha;
    finalBeta := beta;
    value, bestMove := INF, None;
    assert value == InitialValue(LiveEngine, sideToMove == rootColor);
    var rest := orderedMoves;
    while rest != []
      invariant forall m :: m in rest ==> m in SideMoves(p, sideToMove)
      invariant Fold(LiveEngine, keys, p, depth, rootColor, sideToMove, ply, rest,
                     LoopState(value, bestMove, a, finalBeta, tt.table)) == target
      decreases |rest|
    {
      var move := rest[0];
      ghost var before := LoopState(value, bestMove, a, finalBeta, tt.table);
      FoldUnfold(LiveEngine, keys, p, depth, rootColor, sideToMove, ply, rest, before);
      var score := ChildScore(board, tt, keys, depth, a, finalBeta, rootColor, sideToMove, ply, move);
      if score < value {
        value := score;
        bestMove := Some(move);
      }
      finalBeta := Min(finalBeta, value);
      assert LoopState(value, bestMove, a, finalBeta, tt.table) == Step(sideToMove == rootColor, before, score, move, tt.table);
      rest := rest[1..];
      if a >= finalBeta {
        assert LoopState(value, bestMove, a, finalBeta, tt.table) == target;
        break;
      }
    }
  }

  /** Plays `move` on a copy of the board and searches the child one ply deeper for the opponent. */
  method ChildScore(board: ChessBoard, tt: TranspositionTable, keys: ZobristKeys, depth: nat, alpha: int, beta: int,
                    rootColor: ChessColor, sideToMove: ChessColor, ply: int, move: Move)
    returns (score: int)
    requires board.Valid() && Consistent(board.Model()) && depth >= 1
    requires move in SideMoves(board.Model(), sideToMove)
    modifies tt
    ensures Consistent(Child(board.Model(), move))
    ensures var r := Node(LiveEngine, keys, Child(board.Model(), move), ChildDepth(depth), alpha, beta,
                          rootColor, Opponent(sideToMove), ChildPly(ply), old(tt.table));
      score == r.value && tt.table == r.table
    decreases depth, 0
  {
    ghost var piece := SideMoveOrigin(board.Model(), sideToMove, move);
    var child := MakeChild(board, move, piece);
    var ignoredMove;
    score, ignoredMove := AlphaBeta(child, tt, keys, ChildDepth(depth), alpha, beta, rootColor, Opponent(sideToMove), ChildPly(ply));
  }

  /**
   * `AlphaBetaSearch.Quiescence`: stand pat on the static evaluation, then
   * search the ordered captures with the narrowed window, returning the
   * bound that closes it.
   */
  method Quiescence(board: ChessBoard, alpha: int, beta: int, rootColor: ChessColor, sideToMove: ChessColor, ply: int)
    returns (value: int)
    requires board.Valid() && Consistent(board.Model())
    ensures value == QValue(LiveEngine, board.Model(), alpha, beta, rootColor, sideToMove)
    decreases PieceCount(board.Model()), 2
  {
    var standPat := Evaluation.EvaluateBoard(board, rootColor);
    assert standPat == Eval(LiveEngine, board.Model(), rootColor);
    var a, b := alpha, beta;
    if sideToMove == rootColor {
      if standPat >= b {
        return b;
      }
      if a < standPat {
        a := standPat;
      }
      assert a == Max(alpha, standPat);
    } else {
      if standPat <= a {
        return a;
      }
      if b > standPat {
        b := standPat;
      }
      assert b == Min(beta, standPat);
    }
    value := SearchCaptures(board, a, b, rootColor, sideToMove, ply);
  }

  /** Generates and orders the captures of the side to move, then runs the capture loop over them. */
  method SearchCaptures(board: ChessBoard, alpha: int, beta: int, rootColor: ChessColor, sideToMove: ChessColor, ply: int)
    returns (value: int)
    requires board.Valid() && Consistent(board.Model())
    ensures forall m :: m in Order(LiveEngine, Captures(LiveEngine, board.Model(), sideToMove), board.Model(), sideToMove)
                     ==> m in Captures(LiveEngine, board.Model(), sideToMove)
    ensures value == QFold(LiveEngine, board.Model(), rootColor, sideToMove,
                           Order(LiveEngine, Captures(LiveEngine, board.Model(), sideToMove), board.Model(), sideToMove),
                           alpha, beta)
    decreases PieceCount(board.Model()), 1
  {
    var captureMoves := MoveOrdering.GenerateCaptureMoves(board, sideToMove);
    captureMoves := MoveOrdering.OrderMoves(captureMoves, board.Model(), sideToMove);
    assert forall m :: m in captureMoves ==> m in Captures(LiveEngine, board.Model(), sideToMove) by {
      forall m | m in captureMoves ensures m in Captures(LiveEngine, board.Model(), sideToMove) {
        assert m in multiset(captureMoves);
      }
    }
    value := CaptureLoop(board, alpha, beta, rootColor, sideToMove, ply, captureMoves);
  }

  /** The capture loops of `Quiescence`: move the bound of the side to move, and return the other once the window closes. */
  method CaptureLoop(board: ChessBoard, alpha: int, beta: int, rootColor: ChessColor, sideToMove: ChessColor, ply: int,
                     captureMoves: seq<Move>) returns (value: int)
    requires board.Valid() && Consistent(board.Model())
    requires forall m :: m in captureMoves ==> m in Captures(LiveEngine, board.Model(), sideToMove)
    ensures value == QFold(LiveEngine, board.Model(), rootColor, sideToMove, captureMoves, alpha, beta)
    decreases PieceCount(board.Model()), 0
  {
    ghost var p := board.Model();
    var a, b := alpha, beta;
    var rest := captureMoves;
    while rest != []
      invariant forall m :: m in rest ==> m in Captures(LiveEngine, p, sideToMove)
      invariant QFold(LiveEngine, p, rootColor, sideToMove, rest, a, b)
             == QFold(LiveEngine, p, rootColor, sideToMove, captureMoves, alpha, beta)
      decreases |rest|
    {
      var move := rest[0];
      CaptureChild(LiveEngine, p, sideToMove, move);
      ghost var piece := MoveOrdering.CaptureMovesAreCaptures(p, sideToMove, move);
      var child := MakeChild(board, move, piece);
      var score := Quiescence(child, a, b, rootColor, Opponent(sideToMove), ply + 1);
      rest := rest[1..];
      if sideToMove == rootColor {
        a := Max(a, score);
        if a >= b {
          return b;
        }
      } else {
        b := Min(b, score);
        if a >= b {
          return a;
        }
      }
    }
    value := if sideToMove == rootColor then a else b;
  }
}
