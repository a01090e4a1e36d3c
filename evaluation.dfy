/**
 * The static evaluation (Evaluation.cs): material, advancement, mobility,
 * centre control and passed pawns, combined from White's side and turned
 * towards the side the search plays for; a finished game scores just inside
 * plus or minus `INF`.
 *
 * Each loop of the source is a method proved to compute a function on the
 * pawn words; the properties are proved about those functions.
 */
module Evaluation {
  import opened Coordinates
  import opened Pieces
  import opened Positions
  import opened Bits
  import opened BitboardHelper
  import opened BoardWords
  import opened PassedPawns
  import opened EndGame
  import opened Board

  /** The "infinity" of terminal scores. */
  const INF: int := 1000000

  // ---------------------------------------------------------------------------
  // Advancement

  /** The advancement bonus of a pawn on square `index`: ten per row above row 0 for White, below row 7 for Black. */
  function AdvanceOf(isWhite: bool, index: int): int
  {
    var rank := index / 8;
    if isWhite then rank * 10 else (7 - rank) * 10
  }

  /** The bonus of a square, as a function of its one-bit word. */
  function AdvanceWeights(isWhite: bool): bv64 -> int
  {
    s => AdvanceOf(isWhite, Index(s) as int)
  }

  /** The advancement bonus of a set of pawns: the sum over its squares. */
  function Advancement(pawns: bv64, isWhite: bool): int
  {
    SumBits(pawns, AdvanceWeights(isWhite))
  }

  /** One turn of the advancement loop. */
  lemma AdvanceStep(pawns: bv64, rest: bv64, isWhite: bool, index: int)
    requires pawns != 0 && rest == pawns & (pawns - 1) && index == TrailingZeroCount(pawns)
    ensures rest < pawns && 0 <= index < 64
    ensures Advancement(pawns, isWhite) == AdvanceOf(isWhite, index) + Advancement(rest, isWhite)
  {
    SumBitsPop(pawns, rest, AdvanceWeights(isWhite));
  }

  /** `Evaluation.EvaluateAdvancement`: visit the pawns from the lowest square up and add each one's bonus. */
  method EvaluateAdvancement(pawnBitboard: bv64, isWhite: bool) returns (bonus: int)
    ensures bonus == Advancement(pawnBitboard, isWhite)
  {
    bonus := 0;
    var pawns := pawnBitboard;
    while pawns != 0
      invariant bonus + Advancement(pawns, isWhite) == Advancement(pawnBitboard, isWhite)
      decreases pawns
    {
      var index := TrailingZeroCount(pawns);
      var rest := pawns & (pawns - 1);
      AdvanceStep(pawns, rest, isWhite, index);
      pawns := rest;
      var rank := index / 8;
      bonus := bonus + if isWhite then rank * 10 else (7 - rank) * 10;
    }
  }

  /** Each pawn adds between 0 and 70. */
  lemma AdvancementBounds(pawns: bv64, isWhite: bool)
    ensures 0 <= Advancement(pawns, isWhite) <= 70 * PopCount(pawns)
  {
    SumBounds(pawns, AdvanceWeights(isWhite), 0, 70);
  }

  /** Rows a piece has advanced from its side's first rank: `rank - 1` for White, `8 - rank` for Black. */
  function RowsAdvanced(piece: BoardPiece, isWhite: bool): int
  {
    if isWhite then piece.rank as int - 1 else 8 - piece.rank as int
  }

  /** Ten per row advanced, summed over a list of pieces. */
  function AdvanceSum(pieces: seq<BoardPiece>, isWhite: bool): int
  {
    if pieces == [] then 0 else AdvanceSum(pieces[..|pieces| - 1], isWhite) + 10 * RowsAdvanced(pieces[|pieces| - 1], isWhite)
  }

  /** On the board, the weight of a piece's bit is ten per row it has advanced. */
  lemma SlotWeight(piece: BoardPiece, isWhite: bool)
    requires OnBoard(piece)
    ensures AdvanceWeights(isWhite)(Square(Slot(piece))) == 10 * RowsAdvanced(piece, isWhite)
  {
    SquareIndex(Slot(piece));
    BitIndexOnBoard(piece, piece);
    IndexOfValue(BitIndex(piece));
  }

  lemma {:induction false} SlotsSum(pieces: seq<BoardPiece>, isWhite: bool)
    requires forall i :: 0 <= i < |pieces| ==> OnBoard(pieces[i])
    ensures ListSum(Slots(pieces), AdvanceWeights(isWhite)) == AdvanceSum(pieces, isWhite)
  {
    if pieces != [] {
      var n := |pieces| - 1;
      SlotsSum(pieces[..n], isWhite);
      SlotsStep(pieces, n);
      assert pieces[..n + 1] == pieces;
      ListSumAppend(Slots(pieces[..n]), Slot(pieces[n]), AdvanceWeights(isWhite));
      SlotWeight(pieces[n], isWhite);
    }
  }

  /**
   * On a list of pieces on distinct squares of the board, the bonus of the
   * list's word is ten per row each piece has advanced.
   */
  lemma AdvancementOfPieces(pieces: seq<BoardPiece>, c: ChessPiece, isWhite: bool)
    requires ListOf(pieces, c)
    ensures Advancement(PawnBits(pieces), isWhite) == AdvanceSum(pieces, isWhite)
  {
    SlotsDistinct(pieces, c);
    WordOfSum(Slots(pieces), AdvanceWeights(isWhite));
    SlotsSum(pieces, isWhite);
  }

  // ---------------------------------------------------------------------------
  // Centre control

  /** The squares d4, e4, d5 and e5: bits 27, 28, 35 and 36. */
  const CenterMask: bv64 := 0x0000_0018_1800_0000

  /** The mask is the source's `(1UL << 27) | (1UL << 28) | (1UL << 35) | (1UL << 36)`. */
  lemma CenterMaskSquares()
    ensures CenterMask == Square(27) | Square(28) | Square(35) | Square(36)
  {
  }

  /** The squares White's pawns attack: up-left from files B to H, up-right from files A to G. */
  function WhitePotential(whitePawns: bv64): bv64
  {
    ((whitePawns & !FileA) << 7) | ((whitePawns & !FileH) << 9)
  }

  /** The squares Black's pawns attack: down-left from files B to H, down-right from files A to G. */
  function BlackPotential(blackPawns: bv64): bv64
  {
    ((blackPawns & !FileA) >> 9) | ((blackPawns & !FileH) >> 7)
  }

  /** How many centre squares a word holds. */
  function CenterCount(x: bv64): nat
  {
    PopCount(x & CenterMask)
  }

  /** `Evaluation.EvaluateCenterControl`: 25 per centre square held, 10 per centre square attacked, White minus Black. */
  function EvaluateCenterControl(pb: PawnBitboards): int
  {
    var whiteOccupiedBonus := CenterCount(pb.whitePawns) * 25;
    var whitePotentialBonus := CenterCount(WhitePotential(pb.whitePawns)) * 10;
    var blackOccupiedBonus := CenterCount(pb.blackPawns) * 25;
    var blackPotentialBonus := CenterCount(BlackPotential(pb.blackPawns)) * 10;
    (whiteOccupiedBonus + whitePotentialBonus) - (blackOccupiedBonus + blackPotentialBonus)
  }

  /** There are four centre squares. */
  lemma CenterMaskCount()
    ensures PopCount(CenterMask) == 4
  {
    var ks: seq<bv6> := [27, 28, 35, 36];
    WordOfAppend([], 27);
    WordOfAppend([27], 28);
    WordOfAppend([27, 28], 35);
    WordOfAppend([27, 28, 35], 36);
    assert [27, 28, 35] + [36] == ks;
    CenterMaskSquares();
    WordOfCount(ks);
  }

  /** A word holds at most the four centre squares. */
  lemma CenterCountBound(x: bv64)
    ensures CenterCount(x) <= 4
  {
    var part := x & CenterMask;
    CenterMaskCount();
    PopCountSubset(part, CenterMask);
  }

  /** Each side earns at most 4 * 25 + 4 * 10, so the score lies between -140 and 140. */
  lemma CenterControlBounds(pb: PawnBitboards)
    ensures -140 <= EvaluateCenterControl(pb) <= 140
  {
    CenterCountBound(pb.whitePawns);
    CenterCountBound(WhitePotential(pb.whitePawns));
    CenterCountBound(pb.blackPawns);
    CenterCountBound(BlackPotential(pb.blackPawns));
  }

  lemma MeetTwice(x: bv64, t: bv64)
    ensures (x & t) & t == x & t
  {
  }

  /**
   * Square `t` is attacked by White exactly when a white pawn stands
   * diagonally below it on a neighbouring file.
   */
  lemma WhitePotentialSquare(whitePawns: bv64, t: bv64)
    requires IsSquare(t)
    ensures WhitePotential(whitePawns) & t != 0
      <==> (t & FileH == 0 && whitePawns & (t >> 7) != 0) || (t & FileA == 0 && whitePawns & (t >> 9) != 0)
  {
    WhiteCapturesSquare(whitePawns, t, t);
    MeetTwice(WhitePotential(whitePawns), t);
  }

  /**
   * Square `t` is attacked by Black exactly when a black pawn stands
   * diagonally above it on a neighbouring file.
   */
  lemma BlackPotentialSquare(blackPawns: bv64, t: bv64)
    requires IsSquare(t)
    ensures BlackPotential(blackPawns) & t != 0
      <==> (t & FileH == 0 && blackPawns & (t << 9) != 0) || (t & FileA == 0 && blackPawns & (t << 7) != 0)
  {
    BlackCapturesSquare(blackPawns, t, t);
    MeetTwice(BlackPotential(blackPawns), t);
  }

  // ---------------------------------------------------------------------------
  // Material and mobility

  /** A hundred per pawn, White minus Black. */
  function Material(whitePawns: bv64, blackPawns: bv64): int
  {
    (PopCount(whitePawns) as int - PopCount(blackPawns)) * 100
  }

  /** On a consistent board the material is a hundred per listed white piece minus a hundred per listed black piece. */
  lemma MaterialOfBoard(p: Position)
    requires Consistent(p)
    ensures Material(BoardBits(p).whitePawns, BoardBits(p).blackPawns) == 100 * (|p.whitePieces| - |p.blackPieces|)
  {
    PawnBitsCount(p.whitePieces, ChessPiece.White);
    PawnBitsCount(p.blackPieces, ChessPiece.Black);
  }

  /** The moves a side's pawns have: single pushes onto empty squares and captures of the other side's pawns. */
  function MoveCount(pushes: bv64, captures: bv64): nat
  {
    PopCount(pushes) + PopCount(captures)
  }

  /** Ten per pawn move, White minus Black. */
  function Mobility(whitePawns: bv64, blackPawns: bv64): int
  {
    var empty := !(whitePawns | blackPawns);
    var whiteMobility := MoveCount(WhiteSinglePush(whitePawns, empty), WhiteCaptures(whitePawns, blackPawns));
    var blackMobility := MoveCount(BlackSinglePush(blackPawns, empty), BlackCaptures(blackPawns, whitePawns));
    (whiteMobility as int - blackMobility) * 10
  }

  lemma MoveCountBound(pushes: bv64, captures: bv64)
    ensures MoveCount(pushes, captures) <= 128
  {
    PopCountAtMost64(pushes);
    PopCountAtMost64(captures);
  }

  // ---------------------------------------------------------------------------
  // The score

  /** The score of a position from White's side: the sum of the five terms. */
  ghost function StaticScore(whitePawns: bv64, blackPawns: bv64): int
  {
    EvaluateCenterControl(PawnBitboards(whitePawns, blackPawns))
    + Material(whitePawns, blackPawns)
    + Advancement(whitePawns, true) - Advancement(blackPawns, false)
    + Mobility(whitePawns, blackPawns)
    + (PassedBonus(whitePawns, blackPawns, true) - PassedBonus(blackPawns, whitePawns, false))
  }

  /**
   * The score `EvaluateBoard` returns: just inside plus or minus `INF` when
   * the game is over, as the winner is the root colour or not; otherwise the
   * static score, negated unless the root colour is White.
   */
  ghost function Score(p: Position, rootColor: ChessColor): int
  {
    if IsGameOver(p) then
      (if GetWinner(p) == rootColor then INF - 1 else -INF + 1)
    else
      var pb := BoardBits(p);
      var score := StaticScore(pb.whitePawns, pb.blackPawns);
      if rootColor == ChessColor.White then score else -score
  }

  /** `Evaluation.EvaluateBoard`. */
  method EvaluateBoard(board: ChessBoard, rootColor: ChessColor) returns (score: int)
    requires board.Valid()
    ensures score == Score(board.Model(), rootColor)
  {
    if IsGameOver(board.Model()) {
      var winner := GetWinner(board.Model());
      return if winner == rootColor then INF - 1 else -INF + 1;
    }

    var pb := GetPawnBitboards(board);
    var white, black := pb.whitePawns, pb.blackPawns;

    var whitePawnCount: int := PopCount(white);
    var blackPawnCount: int := PopCount(black);
    var materialScore := (whitePawnCount - blackPawnCount) * 100;

    var whiteAdvancement := EvaluateAdvancement(white, true);
    var blackAdvancement := EvaluateAdvancement(black, false);

    var occupied := white | black;
    var empty := !occupied;
    var whiteMobility: int := PopCount(WhiteSinglePush(white, empty)) + PopCount(WhiteCaptures(white, black));
    var blackMobility: int := PopCount(BlackSinglePush(black, empty)) + PopCount(BlackCaptures(black, white));
    var mobilityScore := (whiteMobility - blackMobility) * 10;
    MobilityOf(white, black, occupied, whiteMobility, blackMobility);

    var passedBonusWhite := EvaluatePassedPawnBonus(white, black, true);
    var passedBonusBlack := EvaluatePassedPawnBonus(black, white, false);

    var centerControlScore := EvaluateCenterControl(pb);

    var s := centerControlScore + materialScore + whiteAdvancement - blackAdvancement + mobilityScore + (passedBonusWhite - passedBonusBlack);
    StaticScoreOf(white, black, centerControlScore, materialScore, whiteAdvancement, blackAdvancement, mobilityScore, passedBonusWhite, passedBonusBlack);
    NonTerminalScore(board.Model(), rootColor, s);
    score := if rootColor == ChessColor.White then s else -s;
  }

  lemma MobilityOf(white: bv64, black: bv64, occupied: bv64, whiteMobility: int, blackMobility: int)
    requires occupied == white | black
    requires whiteMobility == PopCount(WhiteSinglePush(white, !occupied)) + PopCount(WhiteCaptures(white, black))
    requires blackMobility == PopCount(BlackSinglePush(black, !occupied)) + PopCount(BlackCaptures(black, white))
    ensures Mobility(white, black) == (whiteMobility - blackMobility) * 10
  {
  }

  lemma StaticScoreOf(white: bv64, black: bv64, center: int, material: int, whiteAdvancement: int, blackAdvancement: int,
                      mobility: int, passedWhite: int, passedBlack: int)
    requires center == EvaluateCenterControl(PawnBitboards(white, black)) && material == Material(white, black)
    requires whiteAdvancement == Advancement(white, true) && blackAdvancement == Advancement(black, false)
    requires mobility == Mobility(white, black)
    requires passedWhite == PassedBonus(white, black, true) && passedBlack == PassedBonus(black, white, false)
    ensures StaticScore(white, black) == center + material + whiteAdvancement - blackAdvancement + mobility + (passedWhite - passedBlack)
  {
  }

  lemma NonTerminalScore(p: Position, rootColor: ChessColor, s: int)
    requires !IsGameOver(p) && s == StaticScore(BoardBits(p).whitePawns, BoardBits(p).blackPawns)
    ensures Score(p, rootColor) == if rootColor == ChessColor.White then s else -s
  {
  }

  /** Whatever the pawns, the static score stays between -53900 and 53900. */
  lemma StaticScoreBounds(whitePawns: bv64, blackPawns: bv64)
    ensures -53900 <= StaticScore(whitePawns, blackPawns) <= 53900
  {
    CenterControlBounds(PawnBitboards(whitePawns, blackPawns));
    PopCountAtMost64(whitePawns);
    PopCountAtMost64(blackPawns);
    AdvancementBounds(whitePawns, true);
    AdvancementBounds(blackPawns, false);
    var empty := !(whitePawns | blackPawns);
    MoveCountBound(WhiteSinglePush(whitePawns, empty), WhiteCaptures(whitePawns, blackPawns));
    MoveCountBound(BlackSinglePush(blackPawns, empty), BlackCaptures(blackPawns, whitePawns));
    PassedBonusBounds(whitePawns, blackPawns, true);
    PassedBonusBounds(blackPawns, whitePawns, false);
  }

  /**
   * A position still in play always scores strictly between the loss and
   * the win scores, so a finished game outranks every other position.
   */
  lemma TerminalScoresDominate(p: Position, rootColor: ChessColor)
    ensures !IsGameOver(p) ==> -INF + 1 < Score(p, rootColor) < INF - 1
    ensures IsGameOver(p) ==> Score(p, rootColor) == INF - 1 || Score(p, rootColor) == -INF + 1
  {
    var pb := BoardBits(p);
    StaticScoreBounds(pb.whitePawns, pb.blackPawns);
  }

  /**
   * The evaluation is zero-sum: White's score is minus Black's, and a root
   * colour other than White is scored as Black.
   */
  lemma ScoreZeroSum(p: Position)
    ensures Score(p, ChessColor.White) == -Score(p, ChessColor.Black)
    ensures !IsGameOver(p) ==> Score(p, ChessColor.NoColor) == Score(p, ChessColor.Black)
  {
    if IsGameOver(p) {
      var winner := GetWinner(p);
      assert winner == ChessColor.White || winner == ChessColor.Black;
    }
  }

  /** A finished game scores `INF - 1` for its winner and `-INF + 1` for every other colour. */
  lemma ScoreOfFinishedGame(p: Position, rootColor: ChessColor)
    requires IsGameOver(p)
    ensures Score(p, rootColor) == INF - 1 <==> rootColor == GetWinner(p)
    ensures GetWinner(p) != ChessColor.NoColor
  {
  }
}
