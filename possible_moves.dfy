/**
 * The pawn move generators (PossibleMoves.cs) and the two members of
 * ChessBoard.cs built on them, `GetPossibleMoves` and `HasPossibleMove`.
 *
 * Each C# generator is an iterator that yields at most one move per diagonal
 * offset; here it is the sequence of the moves it yields, in order. The
 * generators read the board through the integer indexer, which answers
 * `Invalid` off the board, and through `GetPieceAt`.
 *
 * En passant is looser than the chess rule: it does not ask whether the last
 * move was a double push, nor whether the square behind the captured pawn is
 * empty. `EnPassentIgnoresHistory` and `EnPassentCounts` show what follows.
 */
module PossibleMoves {
  import opened Wrappers
  import opened Coordinates
  import opened Pieces
  import opened Positions
  import opened PositionFacts

  /** The generators only move White and Black pieces. */
  predicate IsPawn(piece: BoardPiece)
  {
    piece.chessPiece == ChessPiece.White || piece.chessPiece == ChessPiece.Black
  }

  /** The direction of play: up the ranks for White, down for Black. */
  function Direction(c: ChessPiece): int
  {
    if c == ChessPiece.White then 1 else -1
  }

  /** The rank number `n` steps ahead of the piece in its direction of play. */
  function Ahead(piece: BoardPiece, n: int): int
  {
    piece.rank as int + n * Direction(piece.chessPiece)
  }

  /** The rank a pawn may double-push from. */
  function StartRank(c: ChessPiece): ChessRank
  {
    if c == ChessPiece.White then Two else Seven
  }

  /** The rank a pawn may capture en passant from. */
  function EnPassantRank(c: ChessPiece): ChessRank
  {
    if c == ChessPiece.White then Five else Four
  }

  /** The piece is in the list of its side. */
  predicate Listed(p: Position, piece: BoardPiece)
  {
    piece in p.whitePieces || piece in p.blackPieces
  }

  // ---------------------------------------------------------------------------
  // The generators

  /** `PossibleMoves.SingleMoves`: one rank forward onto an empty cell. */
  function SingleMoves(p: Position, piece: BoardPiece): seq<Move>
  {
    if !IsPawn(piece) then []
    else
      var nextRankIndex := RankToIndex(piece.rank) + Direction(piece.chessPiece);
      if nextRankIndex < 0 || nextRankIndex >= 8 then []
      else if Get(p, nextRankIndex, FileToIndex(piece.file)) == ChessPiece.Empty then
        [Move(piece, None, RankFromIndex(nextRankIndex), piece.file)]
      else []
  }

  /** `PossibleMoves.DoubleMove`: two ranks forward from the start rank, over and onto empty cells. */
  function DoubleMove(p: Position, piece: BoardPiece): seq<Move>
  {
    if !IsPawn(piece) then []
    else
      var direction := 2 * Direction(piece.chessPiece);
      if (piece.chessPiece == ChessPiece.White && piece.rank != Two)
         || (piece.chessPiece == ChessPiece.Black && piece.rank != Seven) then []
      else
        var currentRankIndex := RankToIndex(piece.rank);
        var targetRankIndex := currentRankIndex + direction;
        var intermediateRankIndex := currentRankIndex + direction / 2;
        if targetRankIndex < 0 || targetRankIndex >= 8 || intermediateRankIndex < 0 || intermediateRankIndex >= 8 then []
        else if Get(p, intermediateRankIndex, FileToIndex(piece.file)) == ChessPiece.Empty
             && Get(p, targetRankIndex, FileToIndex(piece.file)) == ChessPiece.Empty then
          [Move(piece, None, RankFromIndex(targetRankIndex), piece.file)]
        else []
  }

  /** One pass of the `foreach` in `CapturingMove`: the forward diagonal at `offset` files, if it holds an opponent. */
  function CaptureAt(p: Position, piece: BoardPiece, offset: int): seq<Move>
  {
    var targetFileIndex := FileToIndex(piece.file) + offset;
    var targetRankIndex := RankToIndex(piece.rank) + Direction(piece.chessPiece);
    if 0 <= targetRankIndex < 8 && 0 <= targetFileIndex < 8
       && Get(p, targetRankIndex, targetFileIndex) == OpponentPiece(piece.chessPiece) then
      [Move(piece, GetPieceAt(p, RankFromIndex(targetRankIndex), targetFileIndex as ChessFile),
            RankFromIndex(targetRankIndex), targetFileIndex as ChessFile)]
    else []
  }

  /** `PossibleMoves.CapturingMove`: diagonal offset -1, then +1. */
  function CapturingMove(p: Position, piece: BoardPiece): seq<Move>
  {
    if !IsPawn(piece) then [] else CaptureAt(p, piece, -1) + CaptureAt(p, piece, 1)
  }

  /** One pass of the `foreach` in `EnPassent`: the neighbour at `offset` files is an opponent that the last move landed on. */
  function EnPassantAt(p: Position, piece: BoardPiece, offset: int): seq<Move>
    requires p.lastMove.Some?
  {
    var currentRankIndex := RankToIndex(piece.rank);
    var targetFileIndex := FileToIndex(piece.file) + offset;
    if 0 <= targetFileIndex < 8
       && Get(p, currentRankIndex, targetFileIndex) == OpponentPiece(piece.chessPiece)
       && p.lastMove.value.targetRank == piece.rank
       && p.lastMove.value.targetFile == targetFileIndex as ChessFile then
      var newRankIndex := Wrap16(currentRankIndex + Direction(piece.chessPiece));
      [Move(piece, GetPieceAt(p, piece.rank, targetFileIndex as ChessFile),
            RankFromIndex(newRankIndex), targetFileIndex as ChessFile)]
    else []
  }

  /** `PossibleMoves.EnPassent` (the source's spelling). */
  function EnPassent(p: Position, piece: BoardPiece): seq<Move>
  {
    if p.lastMove.None? || !IsPawn(piece) then []
    else if piece.rank != EnPassantRank(piece.chessPiece) then []
    else EnPassantAt(p, piece, -1) + EnPassantAt(p, piece, 1)
  }

  /** `ChessBoard.GetPossibleMoves`: single, double, capturing and en passant moves, in that order. */
  function GetPossibleMoves(p: Position, piece: BoardPiece): seq<Move>
  {
    SingleMoves(p, piece) + DoubleMove(p, piece) + CapturingMove(p, piece) + EnPassent(p, piece)
  }

  /** `ChessBoard.HasPossibleMove`: some generator yields a move. */
  function HasPossibleMove(p: Position, piece: BoardPiece): (r: bool)
    ensures r <==> GetPossibleMoves(p, piece) != []
    ensures r <==> exists m :: m in GetPossibleMoves(p, piece)
  {
    assert GetPossibleMoves(p, piece) != [] ==> GetPossibleMoves(p, piece)[0] in GetPossibleMoves(p, piece);
    SingleMoves(p, piece) != [] || DoubleMove(p, piece) != [] || CapturingMove(p, piece) != [] || EnPassent(p, piece) != []
  }

  // ---------------------------------------------------------------------------
  // What each generator yields

  /** A piece that is neither White nor Black gets no move from any generator. */
  lemma NonPawnHasNoMoves(p: Position, piece: BoardPiece)
    requires !IsPawn(piece)
    ensures SingleMoves(p, piece) == [] && DoubleMove(p, piece) == []
    ensures CapturingMove(p, piece) == [] && EnPassent(p, piece) == []
    ensures GetPossibleMoves(p, piece) == [] && !HasPossibleMove(p, piece)
  {
  }

  /**
   * A single push is at most one quiet move, one rank ahead on the same
   * file, onto an empty board cell; a pawn on the board whose next cell is
   * empty gets it.
   */
  lemma SingleMovesRule(p: Position, piece: BoardPiece)
    ensures |SingleMoves(p, piece)| <= 1
    ensures forall m <- SingleMoves(p, piece) ::
      && m.movingPiece == piece && m.capturedPiece.None?
      && IsDeclaredRank(m.targetRank) && m.targetRank as int == Ahead(piece, 1)
      && IsDeclaredFile(m.targetFile) && m.targetFile == piece.file
      && GetSquare(p, m.targetRank, m.targetFile) == ChessPiece.Empty
    ensures IsPawn(piece) && OnBoard(piece) && 1 <= Ahead(piece, 1) <= 8
            && GetSquare(p, Ahead(piece, 1) as ChessRank, piece.file) == ChessPiece.Empty
            ==> |SingleMoves(p, piece)| == 1
  {
  }

  /**
   * A double push is at most one quiet move, from rank 2 to rank 4 for White
   * or from rank 7 to rank 5 for Black, on the same file, with the cell passed
   * over and the target both empty; a pawn on its start rank with both cells
   * empty gets it.
   */
  lemma DoubleMoveRule(p: Position, piece: BoardPiece)
    ensures |DoubleMove(p, piece)| <= 1
    ensures forall m <- DoubleMove(p, piece) ::
      && m.movingPiece == piece && m.capturedPiece.None?
      && IsPawn(piece) && piece.rank == StartRank(piece.chessPiece)
      && m.targetRank as int == Ahead(piece, 2)
      && (piece.chessPiece == ChessPiece.White ==> m.targetRank == Four)
      && (piece.chessPiece == ChessPiece.Black ==> m.targetRank == Five)
      && IsDeclaredFile(m.targetFile) && m.targetFile == piece.file
      && GetSquare(p, Ahead(piece, 1) as ChessRank, piece.file) == ChessPiece.Empty
      && GetSquare(p, m.targetRank, m.targetFile) == ChessPiece.Empty
    ensures IsPawn(piece) && piece.rank == StartRank(piece.chessPiece) && IsDeclaredFile(piece.file)
            && GetSquare(p, Ahead(piece, 1) as ChessRank, piece.file) == ChessPiece.Empty
            && GetSquare(p, Ahead(piece, 2) as ChessRank, piece.file) == ChessPiece.Empty
            ==> |DoubleMove(p, piece)| == 1
  {
  }

  /**
   * Captures are at most two, each one rank ahead on a neighbouring file
   * holding an opponent, and carry the piece `GetPieceAt` finds there; the
   * left diagonal comes first.
   */
  lemma CapturingMoveRule(p: Position, piece: BoardPiece)
    ensures |CapturingMove(p, piece)| <= 2
    ensures forall m <- CapturingMove(p, piece) ::
      && m.movingPiece == piece && IsPawn(piece)
      && IsDeclaredRank(m.targetRank) && m.targetRank as int == Ahead(piece, 1)
      && IsDeclaredFile(m.targetFile)
      && (m.targetFile as int == piece.file as int - 1 || m.targetFile as int == piece.file as int + 1)
      && GetSquare(p, m.targetRank, m.targetFile) == OpponentPiece(piece.chessPiece)
      && m.capturedPiece == GetPieceAt(p, m.targetRank, m.targetFile)
    ensures |CapturingMove(p, piece)| == 2 ==>
      CapturingMove(p, piece)[0].targetFile < CapturingMove(p, piece)[1].targetFile
  {
  }

  /** A pawn on the board whose forward diagonal at `offset` holds an opponent gets that capture. */
  lemma CaptureFound(p: Position, piece: BoardPiece, offset: int)
    requires offset == -1 || offset == 1
    requires IsPawn(piece) && OnBoard(piece) && 1 <= Ahead(piece, 1) <= 8
    requires 0 <= piece.file as int + offset < 8
    requires GetSquare(p, Ahead(piece, 1) as ChessRank, (piece.file as int + offset) as ChessFile) == OpponentPiece(piece.chessPiece)
    ensures exists m <- CapturingMove(p, piece) :: m.targetFile as int == piece.file as int + offset
  {
    var m := CaptureAt(p, piece, offset)[0];
    assert m in CapturingMove(p, piece);
  }

  /**
   * En passant yields at most two moves, and each is exactly what the code
   * checks: there is a last move; the pawn stands on rank 5 (White) or 4
   * (Black); the cell beside it on a neighbouring file holds an opponent; and
   * the last move landed on that cell. The move goes one rank ahead on that
   * file and carries the piece `GetPieceAt` finds beside the pawn.
   */
  lemma EnPassentRule(p: Position, piece: BoardPiece)
    ensures |EnPassent(p, piece)| <= 2
    ensures forall m <- EnPassent(p, piece) ::
      && m.movingPiece == piece && IsPawn(piece) && p.lastMove.Some?
      && piece.rank == EnPassantRank(piece.chessPiece)
      && IsDeclaredFile(m.targetFile)
      && (m.targetFile as int == piece.file as int - 1 || m.targetFile as int == piece.file as int + 1)
      && GetSquare(p, piece.rank, m.targetFile) == OpponentPiece(piece.chessPiece)
      && p.lastMove.value.targetRank == piece.rank && p.lastMove.value.targetFile == m.targetFile
      && IsDeclaredRank(m.targetRank) && m.targetRank as int == Ahead(piece, 1)
      && m.capturedPiece == GetPieceAt(p, piece.rank, m.targetFile)
  {
  }

  /** Conversely, every neighbour that meets those conditions gives an en passant move. */
  lemma EnPassantFound(p: Position, piece: BoardPiece, offset: int)
    requires offset == -1 || offset == 1
    requires IsPawn(piece) && p.lastMove.Some? && piece.rank == EnPassantRank(piece.chessPiece)
    requires 0 <= piece.file as int + offset < 8
    requires GetSquare(p, piece.rank, (piece.file as int + offset) as ChessFile) == OpponentPiece(piece.chessPiece)
    requires p.lastMove.value.targetRank == piece.rank && p.lastMove.value.targetFile as int == piece.file as int + offset
    ensures exists m <- EnPassent(p, piece) :: m.targetFile as int == piece.file as int + offset
  {
    var m := EnPassantAt(p, piece, offset)[0];
    assert m in EnPassent(p, piece);
  }

  /**
   * Only the square the last move landed on matters to en passant: any last
   * move with that target, a single push or a capture as well as a double
   * push, gives the same moves.
   */
  lemma EnPassentIgnoresHistory(p: Position, piece: BoardPiece, last: Move)
    requires p.lastMove.Some?
    requires last.targetRank == p.lastMove.value.targetRank && last.targetFile == p.lastMove.value.targetFile
    ensures EnPassent(p.(lastMove := Some(last)), piece) == EnPassent(p, piece)
  {
    var q := p.(lastMove := Some(last));
    assert forall r, f :: GetPieceAt(q, r, f) == GetPieceAt(p, r, f);
  }

  // ---------------------------------------------------------------------------
  // Generated moves on a consistent board

  /** A listed piece of a consistent board stands on the board, in the list of its colour. */
  lemma ListedPawn(p: Position, piece: BoardPiece)
    requires Consistent(p) && Listed(p, piece)
    ensures IsPawn(piece) && OnBoard(piece)
    ensures piece.chessPiece == ChessPiece.White ==> piece in p.whitePieces
    ensures piece.chessPiece == ChessPiece.Black ==> piece in p.blackPieces
    ensures GetPieceAt(p, piece.rank, piece.file) == Some(piece)
  {
    ListedFound(p, piece);
  }

  /** On a consistent board, an empty board cell has no piece, and a cell showing a colour has a piece of that colour. */
  lemma CellMeansPiece(p: Position, rank: ChessRank, file: ChessFile)
    requires Consistent(p) && IsDeclaredRank(rank) && IsDeclaredFile(file)
    ensures GetSquare(p, rank, file) == ChessPiece.Empty <==> GetPieceAt(p, rank, file).None?
    ensures GetPieceAt(p, rank, file).Some? ==>
      && GetPieceAt(p, rank, file).value.chessPiece == GetSquare(p, rank, file)
      && At(GetPieceAt(p, rank, file).value, rank, file)
  {
    CellOfSquare(p, rank, file);
    GetPieceAtFound(p, rank, file);
  }

  /** Every move generated for a listed piece of a consistent board is playable, so `ExecuteMove` keeps the board consistent. */
  lemma GeneratedMovesPlayable(p: Position, piece: BoardPiece)
    requires Consistent(p) && Listed(p, piece)
    ensures forall m <- GetPossibleMoves(p, piece) ::
      && Playable(p, m)
      && ExecuteMove(p, m).Done?
      && Consistent(ExecuteMove(p, m).board)
  {
    ListedPawn(p, piece);
    SingleMovesRule(p, piece);
    DoubleMoveRule(p, piece);
    CapturingMoveRule(p, piece);
    EnPassentRule(p, piece);
    forall m <- GetPossibleMoves(p, piece)
      ensures Playable(p, m) && ExecuteMove(p, m).Done? && Consistent(ExecuteMove(p, m).board)
    {
      if m in CapturingMove(p, piece) {
        CellMeansPiece(p, m.targetRank, m.targetFile);
      } else if m in EnPassent(p, piece) {
        CellMeansPiece(p, piece.rank, m.targetFile);
      }
      ExecuteMoveKeeps(p, m);
    }
  }

  /**
   * Pushes and captures count as the source intends: the mover's side keeps
   * its number of pieces, and the opponent loses one exactly when the move is
   * a capture.
   */
  lemma PushOrCaptureCounts(p: Position, piece: BoardPiece, m: Move)
    requires Consistent(p) && Listed(p, piece)
    requires m in SingleMoves(p, piece) + DoubleMove(p, piece) + CapturingMove(p, piece)
    ensures ExecuteMove(p, m).Done?
    ensures var q := ExecuteMove(p, m).board; var captured := if m in CapturingMove(p, piece) then 1 else 0;
      if piece.chessPiece == ChessPiece.White then
        |q.whitePieces| == |p.whitePieces| && |q.blackPieces| == |p.blackPieces| - captured
      else
        |q.blackPieces| == |p.blackPieces| && |q.whitePieces| == |p.whitePieces| - captured
  {
    GeneratedMovesPlayable(p, piece);
    assert m in GetPossibleMoves(p, piece);
    SingleMovesRule(p, piece);
    DoubleMoveRule(p, piece);
    CapturingMoveRule(p, piece);
    CellMeansPiece(p, m.targetRank, m.targetFile);
    if m in CapturingMove(p, piece) {
      assert m.capturedPiece.Some?;
    } else {
      assert m.capturedPiece.None?;
    }
    ExecuteMoveCounts(p, m);
  }

  /**
   * En passant on a consistent board always removes the pawn beside the
   * mover, and, because the target is never checked, also whatever stands on
   * the target: an opponent there is lost as well (two pieces in one move),
   * and a piece of the mover's own side there is lost from its side.
   */
  lemma EnPassentCounts(p: Position, piece: BoardPiece, m: Move)
    requires Consistent(p) && Listed(p, piece) && m in EnPassent(p, piece)
    ensures ExecuteMove(p, m).Done?
    ensures var q := ExecuteMove(p, m).board;
      var onTarget := GetSquare(p, m.targetRank, m.targetFile);
      var own := if onTarget == piece.chessPiece then 1 else 0;
      var other := if onTarget == OpponentPiece(piece.chessPiece) then 1 else 0;
      if piece.chessPiece == ChessPiece.White then
        |q.whitePieces| == |p.whitePieces| - own && |q.blackPieces| == |p.blackPieces| - 1 - other
      else
        |q.blackPieces| == |p.blackPieces| - own && |q.whitePieces| == |p.whitePieces| - 1 - other
  {
    ListedPawn(p, piece);
    EnPassentRule(p, piece);
    var tr, tf := m.targetRank, m.targetFile;
    CellMeansPiece(p, piece.rank, tf);
    CellMeansPiece(p, tr, tf);
    ExecuteMoveKeeps(p, m);
    // The captured pawn's square is cleared.
    CaptureClearedKeeps(p, m);
    CaptureClearedCounts(p, m);
    var p1 := CaptureCleared(p, m).board;
    assert GetPieceAt(p1, tr, tf) == GetPieceAt(p, tr, tf);
    // The mover goes to the target and replaces whatever stood there.
    MovePieceOntoCounts(p1, piece, tr, tf);
    var p2 := MovePiece(p1, piece, tr, tf).board;
    assert ExecuteMove(p, m).board == p2.(lastMove := Some(m));
  }
}
