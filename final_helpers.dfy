/**
 * The private helpers of FinalAlgorithm.cs that its search calls:
 * `EvaluateBoard`, which is `Evaluation.EvaluateBoard` without the centre
 * term, and `GenerateCaptureMoves`, which keeps every generated move that
 * captures, en passant included. Its bit-scan helpers
 * (`EvaluatePassedPawnBonus`, `EvaluateAdvancement`, `GetPawnBitboards`) are
 * copies of the ones in Evaluation.cs, so the methods of those modules are
 * used here.
 */
module FinalHelpers {
  import opened Wrappers
  import opened Coordinates
  import opened Pieces
  import opened Positions
  import opened Bits
  import opened BitboardHelper
  import opened BoardWords
  import opened PassedPawns
  import opened EndGame
  import opened Board
  import opened Evaluation
  import opened PossibleMoves
  import opened SearchCommon
  import opened MoveOrdering

  /** The score from White's side: material, advancement, mobility and passed pawns. */
  ghost function FinalStatic(whitePawns: bv64, blackPawns: bv64): int
  {
    Material(whitePawns, blackPawns)
    + Advancement(whitePawns, true) - Advancement(blackPawns, false)
    + Mobility(whitePawns, blackPawns)
    + (PassedBonus(whitePawns, blackPawns, true) - PassedBonus(blackPawns, whitePawns, false))
  }

  /** The score `FinalAlgorithm.EvaluateBoard` returns. */
  ghost function FinalScore(p: Position, rootColor: ChessColor): int
  {
    if IsGameOver(p) then
      (if GetWinner(p) == rootColor then INF - 1 else -INF + 1)
    else
      var pb := BoardBits(p);
      var score := FinalStatic(pb.whitePawns, pb.blackPawns);
      if rootColor == ChessColor.White then score else -score
  }

  /** `FinalAlgorithm.EvaluateBoard`. */
  method EvaluateBoard(board: ChessBoard, rootColor: ChessColor) returns (score: int)
    requires board.Valid()
    ensures score == FinalScore(board.Model(), rootColor)
  {
    if IsGameOver(board.Model()) {
      var winner := GetWinner(board.Model());
      return if winner == rootColor then INF - 1 else -INF + 1;
    }
    var pb := GetPawnBitboards(board);
    var white, black := pb.whitePawns, pb.blackPawns;
    var whitePawnCount: int := PopCount(white);
    var blackPawnCount: int := PopCount(black);
    var materialScore := (whitePawnCount - blackPawnCount) * 100;
    var whiteAdvancement := EvaluateAdvancement(white, true);
    var blackAdvancement := EvaluateAdvancement(black, false);
    var occupied := white | black;
    var empty := !occupied;
    var whiteMobility: int := PopCount(WhiteSinglePush(white, empty)) + PopCount(WhiteCaptures(white, black));
    var blackMobility: int := PopCount(BlackSinglePush(black, empty)) + PopCount(BlackCaptures(black, white));
    var mobilityScore := (whiteMobility - blackMobility) * 10;
    MobilityOf(white, black, occupied, whiteMobility, blackMobility);
    var passedBonusWhite := EvaluatePassedPawnBonus(white, black, true);
    var passedBonusBlack := EvaluatePassedPawnBonus(black, white, false);
    var s := materialScore + whiteAdvancement - blackAdvancement + mobilityScore + (passedBonusWhite - passedBonusBlack);
    FinalStaticOf(white, black, materialScore, whiteAdvancement, blackAdvancement, mobilityScore, passedBonusWhite, passedBonusBlack);
    NonTerminalFinalScore(board.Model(), rootColor, s);
    score := if rootColor == ChessColor.White then s else -s;
  }

  lemma FinalStaticOf(white: bv64, black: bv64, material: int, whiteAdvancement: int, blackAdvancement: int,
                      mobility: int, passedWhite: int, passedBlack: int)
    requires material == Material(white, black)
    requires whiteAdvancement == Advancement(white, true) && blackAdvancement == Advancement(black, false)
    requires mobility == Mobility(white, black)
    requires passedWhite == PassedBonus(white, black, true) && passedBlack == PassedBonus(black, white, false)
    ensures FinalStatic(white, black) == material + whiteAdvancement - blackAdvancement + mobility + (passedWhite - passedBlack)
  {
  }

  lemma NonTerminalFinalScore(p: Position, rootColor: ChessColor, s: int)
    requires !IsGameOver(p) && s == FinalStatic(BoardBits(p).whitePawns, BoardBits(p).blackPawns)
    ensures FinalScore(p, rootColor) == if rootColor == ChessColor.White then s else -s
  {
  }

  /**
   * The only difference from `Evaluation.EvaluateBoard`: on a position still
   * in play the centre-control term is missing, seen from the root colour.
   */
  lemma FinalScoreLacksCentre(p: Position, rootColor: ChessColor)
    ensures var centre := EvaluateCenterControl(BoardBits(p));
      FinalScore(p, rootColor) == Score(p, rootColor) - (if IsGameOver(p) then 0 else if rootColor == ChessColor.White then centre else -centre)
  {
  }

  /**
   * A position still in play scores strictly between the loss and win
   * scores, and the score is zero-sum between White and Black.
   */
  lemma FinalScoreBounds(p: Position, rootColor: ChessColor)
    ensures !IsGameOver(p) ==> -INF + 1 < FinalScore(p, rootColor) < INF - 1
    ensures FinalScore(p, ChessColor.White) == -FinalScore(p, ChessColor.Black)
  {
    var pb := BoardBits(p);
    StaticScoreBounds(pb.whitePawns, pb.blackPawns);
    CenterControlBounds(pb);
    FinalScoreLacksCentre(p, rootColor);
    ScoreZeroSum(p);
    if IsGameOver(p) {
      var winner := GetWinner(p);
      assert winner == ChessColor.White || winner == ChessColor.Black;
    }
  }

  // ---------------------------------------------------------------------------
  // Capture moves

  /** `moves.Where(m => m.CapturedPiece != null)`. */
  function WithCapture(moves: seq<Move>): (r: seq<Move>)
  {
    if moves == [] then []
    else (if moves[0].capturedPiece.Some? then [moves[0]] else []) + WithCapture(moves[1..])
  }

  /** The filter keeps exactly the moves with a captured piece. */
  lemma {:induction false} WithCaptureMember(moves: seq<Move>, m: Move)
    ensures m in WithCapture(moves) <==> m in moves && m.capturedPiece.Some?
  {
    if moves != [] {
      WithCaptureMember(moves[1..], m);
      assert moves == [moves[0]] + moves[1..];
    }
  }

  /** The capture moves of one piece. */
  function PieceCaptures(p: Position, piece: BoardPiece): seq<Move>
  {
    WithCapture(GetPossibleMoves(p, piece))
  }

  /** The moves `FinalAlgorithm.GenerateCaptureMoves` returns. */
  function FinalCaptures(p: Position, side: ChessColor): seq<Move>
  {
    Collect(p, SidePieces(p, side), PieceCaptures)
  }

  /** `FinalAlgorithm.GenerateCaptureMoves`. */
  method GenerateCaptureMoves(board: ChessBoard, sideToMove: ChessColor) returns (captureMoves: seq<Move>)
    requires board.Valid()
    ensures captureMoves == FinalCaptures(board.Model(), sideToMove)
  {
    var pieces := if sideToMove == ChessColor.White then board.whitePieces else board.blackPieces;
    captureMoves := [];
    for i := 0 to |pieces|
      invariant captureMoves == Collect(board.Model(), pieces[..i], PieceCaptures)
    {
      assert pieces[..i + 1][..i] == pieces[..i];
      var moves := WithCapture(GetPossibleMoves(board.Model(), pieces[i]));
      captureMoves := captureMoves + moves;
    }
    assert pieces[..|pieces|] == pieces;
  }

  /**
   * On a consistent board the capture moves of this variant are exactly the
   * side's moves that carry a captured piece, which are its diagonal captures
   * and its en passant moves; each leaves a consistent child with fewer
   * pieces.
   */
  lemma FinalCapturesAreCaptures(p: Position, side: ChessColor, m: Move) returns (piece: BoardPiece)
    requires Consistent(p) && m in FinalCaptures(p, side)
    ensures Listed(p, piece) && m in CapturingMove(p, piece) + EnPassent(p, piece)
    ensures m in SideMoves(p, side) && m.capturedPiece.Some?
    ensures Consistent(Child(p, m)) && PieceCount(Child(p, m)) < PieceCount(p)
  {
    CollectMember(p, SidePieces(p, side), PieceCaptures, m);
    var i :| 0 <= i < |SidePieces(p, side)| && m in PieceCaptures(p, SidePieces(p, side)[i]);
    piece := SidePieces(p, side)[i];
    WithCaptureMember(GetPossibleMoves(p, piece), m);
    CollectMember(p, SidePieces(p, side), GetPossibleMoves, m);
    GeneratedMoveScore(p, piece, m);
    ChildOf(p, piece, m);
    CaptureShrinks(p, piece, m);
  }

  /** Conversely, every move of the side with a captured piece is one of them. */
  lemma FinalCapturesComplete(p: Position, side: ChessColor, m: Move)
    requires m in SideMoves(p, side) && m.capturedPiece.Some?
    ensures m in FinalCaptures(p, side)
  {
    CollectMember(p, SidePieces(p, side), GetPossibleMoves, m);
    var i :| 0 <= i < |SidePieces(p, side)| && m in GetPossibleMoves(p, SidePieces(p, side)[i]);
    WithCaptureMember(GetPossibleMoves(p, SidePieces(p, side)[i]), m);
    CollectMember(p, SidePieces(p, side), PieceCaptures, m);
  }
}
