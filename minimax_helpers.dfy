/**
 * The evaluation of MinMax.cs (`Minimax.EvaluateBoard`) and its two pawn
 * tests, `IsPassedPawn` and `IsPawnBlocked`. Unlike the other evaluations it
 * reads the piece lists square by square instead of bitboards: each pawn is
 * worth a base value, a bonus for advancing, a bonus when passed, a penalty
 * when blocked and a bonus when its path to promotion is empty and short.
 */
module MinimaxHelpers {
  import opened Coordinates
  import opened Pieces
  import opened Positions
  import opened EndGame
  import opened Board

  /** C#'s `int.MaxValue` and `int.MinValue`. */
  const IntMaxValue: int := 2147483647
  const IntMinValue: int := -2147483648

  /** The rank step towards promotion: up for White, down for any other colour. */
  function Step(color: ChessColor): int
  {
    if color == ChessColor.White then 1 else -1
  }

  /** The pieces that stop a pawn of `color` from being passed. */
  function Enemies(p: Position, color: ChessColor): seq<BoardPiece>
  {
    if color == ChessColor.White then p.blackPieces
    else if color == ChessColor.Black then p.whitePieces
    else []
  }

  /** The piece `GetPieceAt` finds on the square belongs to the opponent's list. */
  predicate EnemyAt(p: Position, rank: ChessRank, file: ChessFile, color: ChessColor)
  {
    var piece := GetPieceAt(p, rank, file);
    piece.Some? &&
      ((color == ChessColor.White && piece.value in p.blackPieces) ||
       (color == ChessColor.Black && piece.value in p.whitePieces))
  }

  /**
   * The inner loop of `IsPassedPawn` from `rankOffset` on: no enemy on `file`
   * in the squares ahead, stopping at the edge of the board or after seven
   * ranks.
   */
  function FileClear(p: Position, pawn: BoardPiece, file: ChessFile, color: ChessColor, rankOffset: int): bool
    requires rankOffset >= 1
    decreases 8 - rankOffset
  {
    if rankOffset > 7 then true
    else
      var checkRank := Wrap16(pawn.rank as int + rankOffset * Step(color)) as ChessRank;
      if checkRank < One || checkRank > Eight then true
      else if EnemyAt(p, checkRank, file, color) then false
      else FileClear(p, pawn, file, color, rankOffset + 1)
  }

  /** One file of `IsPassedPawn`: skipped when off the board, else clear ahead. */
  function FileOk(p: Position, pawn: BoardPiece, color: ChessColor, fileOffset: int): bool
  {
    var checkFile := Wrap16(pawn.file as int + fileOffset) as ChessFile;
    checkFile < A || checkFile > H || FileClear(p, pawn, checkFile, color, 1)
  }

  /** What `IsPassedPawn` answers. */
  predicate Passed(p: Position, pawn: BoardPiece, color: ChessColor)
  {
    FileOk(p, pawn, color, -1) && FileOk(p, pawn, color, 0) && FileOk(p, pawn, color, 1)
  }

  /**
   * `Minimax.IsPassedPawn`. The inner loop, which returns false from inside
   * when it meets an enemy piece, is `ScanFile`.
   */
  method IsPassedPawn(pawn: BoardPiece, board: ChessBoard, color: ChessColor) returns (passed: bool)
    requires board.Valid()
    ensures passed == Passed(board.Model(), pawn, color)
  {
    ghost var p := board.Model();
    var direction := if color == ChessColor.White then 1 else -1;
    var offsets := [-1, 0, 1];
    for i := 0 to 3
      invariant i >= 1 ==> FileOk(p, pawn, color, -1)
      invariant i >= 2 ==> FileOk(p, pawn, color, 0)
      invariant i >= 3 ==> FileOk(p, pawn, color, 1)
    {
      var fileOffset := offsets[i];
      assert fileOffset == i - 1;
      var ok := CheckFile(pawn, board, color, direction, fileOffset);
      if !ok {
        return false;
      }
    }
    return true;
  }

  /** One pass of the outer loop of `IsPassedPawn`: a file off the board is skipped, any other is scanned. */
  method CheckFile(pawn: BoardPiece, board: ChessBoard, color: ChessColor, direction: int, fileOffset: int)
    returns (ok: bool)
    requires board.Valid() && direction == Step(color)
    ensures ok == FileOk(board.Model(), pawn, color, fileOffset)
  {
    var checkFile := Wrap16(pawn.file as int + fileOffset) as ChessFile;
    if checkFile < A || checkFile > H {
      return true;
    }
    ok := ScanFile(pawn, board, checkFile, color, direction);
  }

  /** The inner loop of `IsPassedPawn`: false as soon as an enemy piece stands ahead on `checkFile`. */
  method ScanFile(pawn: BoardPiece, board: ChessBoard, checkFile: ChessFile, color: ChessColor, direction: int)
    returns (clear: bool)
    requires board.Valid() && direction == Step(color)
    ensures clear == FileClear(board.Model(), pawn, checkFile, color, 1)
  {
    var rankOffset := 1;
    while rankOffset <= 7
      invariant 1 <= rankOffset <= 8
      invariant FileClear(board.Model(), pawn, checkFile, color, 1) == FileClear(board.Model(), pawn, checkFile, color, rankOffset)
    {
      var checkRank := Wrap16(pawn.rank as int + rankOffset * direction) as ChessRank;
      if checkRank < One || checkRank > Eight {
        break;
      }
      var piece := GetPieceAt(board.Model(), checkRank, checkFile);
      if piece.Some? &&
         ((color == ChessColor.White && piece.value in board.blackPieces) ||
          (color == ChessColor.Black && piece.value in board.whitePieces)) {
        return false;
      }
      rankOffset := rankOffset + 1;
    }
    return true;
  }

  /** `Minimax.IsPawnBlocked`: some piece stands on the next square towards promotion. */
  predicate IsPawnBlocked(pawn: BoardPiece, p: Position, color: ChessColor)
  {
    GetPieceAt(p, Wrap16(pawn.rank as int + Step(color)) as ChessRank, pawn.file).Some?
  }

  /** A pawn is blocked exactly when a piece of either list stands on the next square towards promotion. */
  lemma IsPawnBlockedMeans(pawn: BoardPiece, p: Position, color: ChessColor)
    ensures var next := Wrap16(pawn.rank as int + Step(color)) as ChessRank;
      IsPawnBlocked(pawn, p, color) <==>
      exists q :: (q in p.whitePieces || q in p.blackPieces) && At(q, next, pawn.file)
  {
    var next := Wrap16(pawn.rank as int + Step(color)) as ChessRank;
    if exists q :: (q in p.whitePieces || q in p.blackPieces) && At(q, next, pawn.file) {
      var q :| (q in p.whitePieces || q in p.blackPieces) && At(q, next, pawn.file);
      if q in p.whitePieces {
        var k :| 0 <= k < |p.whitePieces| && p.whitePieces[k] == q;
      } else {
        var k :| 0 <= k < |p.blackPieces| && p.blackPieces[k] == q;
      }
    }
  }

  /** The path loop of a White pawn from rank `r` up: no piece on `file` up to rank 8. */
  function WhitePathClear(p: Position, file: ChessFile, r: int): bool
    requires r >= 1
    decreases 9 - r
  {
    if r > 8 then true
    else if GetPieceAt(p, r as ChessRank, file).Some? then false
    else WhitePathClear(p, file, r + 1)
  }

  /** The path loop of a Black pawn from rank `r` down: no piece on `file` down to rank 1. */
  function BlackPathClear(p: Position, file: ChessFile, r: int): bool
    requires r < 0x1_0000
    decreases r
  {
    if r < 1 then true
    else if GetPieceAt(p, r as ChessRank, file).Some? then false
    else BlackPathClear(p, file, r - 1)
  }

  /** What one White pawn adds to White's score. */
  function WhiteValue(p: Position, w: BoardPiece): int
  {
    var movesToPromotion := 8 - w.rank as int;
    10 + w.rank as int * 2
    + (if Passed(p, w, ChessColor.White) then 15 else 0)
    - (if IsPawnBlocked(w, p, ChessColor.White) then 5 else 0)
    + (if WhitePathClear(p, w.file, w.rank as int + 1) && movesToPromotion <= 3 then (4 - movesToPromotion) * 30 else 0)
  }

  /** What one Black pawn adds to Black's score. */
  function BlackValue(p: Position, b: BoardPiece): int
  {
    var movesToPromotion := b.rank as int - 1;
    10 + (8 - b.rank as int) * 2
    + (if Passed(p, b, ChessColor.Black) then 15 else 0)
    - (if IsPawnBlocked(b, p, ChessColor.Black) then 5 else 0)
    + (if BlackPathClear(p, b.file, b.rank as int - 1) && movesToPromotion <= 3 then (4 - movesToPromotion) * 30 else 0)
  }

  function WhiteTotal(p: Position, pieces: seq<BoardPiece>): int
  {
    if pieces == [] then 0 else WhiteTotal(p, pieces[..|pieces| - 1]) + WhiteValue(p, pieces[|pieces| - 1])
  }

  function BlackTotal(p: Position, pieces: seq<BoardPiece>): int
  {
    if pieces == [] then 0 else BlackTotal(p, pieces[..|pieces| - 1]) + BlackValue(p, pieces[|pieces| - 1])
  }

  /**
   * The score `Minimax.EvaluateBoard` returns for `color`. The draw branch
   * (a finished game without a winner) is kept, though `GetWinner` names a
   * colour whenever the game is over.
   */
  function Score(p: Position, color: ChessColor): int
  {
    if IsGameOver(p) then
      var winner := GetWinner(p);
      if winner == ChessColor.NoColor then 0
      else if winner == color then IntMaxValue - 1
      else IntMinValue + 1
    else
      var whiteScore := WhiteTotal(p, p.whitePieces);
      var blackScore := BlackTotal(p, p.blackPieces);
      if color == ChessColor.White then whiteScore - blackScore else blackScore - whiteScore
  }

  /** `Minimax.EvaluateBoard`. */
  method EvaluateBoard(board: ChessBoard, color: ChessColor) returns (result: int)
    requires board.Valid()
    ensures result == Score(board.Model(), color)
  {
    if IsGameOver(board.Model()) {
      var winner := GetWinner(board.Model());
      if winner == ChessColor.NoColor {
        return 0;
      }
      return if winner == color then IntMaxValue - 1 else IntMinValue + 1;
    }
    var whiteScore := 0;
    var blackScore := 0;
    for i := 0 to |board.whitePieces|
      invariant whiteScore == WhiteTotal(board.Model(), board.whitePieces[..i])
    {
      assert board.whitePieces[..i + 1][..i] == board.whitePieces[..i];
      var w := board.whitePieces[i];
      var value := WhitePawnScore(w, board);
      whiteScore := whiteScore + value;
    }
    assert board.whitePieces[..|board.whitePieces|] == board.whitePieces;
    for i := 0 to |board.blackPieces|
      invariant blackScore == BlackTotal(board.Model(), board.blackPieces[..i])
    {
      assert board.blackPieces[..i + 1][..i] == board.blackPieces[..i];
      var b := board.blackPieces[i];
      var value := BlackPawnScore(b, board);
      blackScore := blackScore + value;
    }
    assert board.blackPieces[..|board.blackPieces|] == board.blackPieces;
    return if color == ChessColor.White then whiteScore - blackScore else blackScore - whiteScore;
  }

  /** The body of the White loop of `EvaluateBoard`. */
  method WhitePawnScore(w: BoardPiece, board: ChessBoard) returns (value: int)
    requires board.Valid()
    ensures value == WhiteValue(board.Model(), w)
  {
    value := 10;
    value := value + w.rank as int * 2;
    var passed := IsPassedPawn(w, board, ChessColor.White);
    if passed {
      value := value + 15;
    }
    if IsPawnBlocked(w, board.Model(), ChessColor.White) {
      value := value - 5;
    }
    var movesToPromotion := 8 - w.rank as int;
    var clearPath := true;
    var r := w.rank as int + 1;
    while r <= 8
      invariant r >= 1
      invariant WhitePathClear(board.Model(), w.file, w.rank as int + 1) == WhitePathClear(board.Model(), w.file, r)
      decreases 9 - r
    {
      if GetPieceAt(board.Model(), r as ChessRank, w.file).Some? {
        clearPath := false;
        break;
      }
      r := r + 1;
    }
    assert clearPath == WhitePathClear(board.Model(), w.file, w.rank as int + 1);
    if clearPath && movesToPromotion <= 3 {
      value := value + (4 - movesToPromotion) * 30;
    }
  }

  /** The body of the Black loop of `EvaluateBoard`. */
  method BlackPawnScore(b: BoardPiece, board: ChessBoard) returns (value: int)
    requires board.Valid()
    ensures value == BlackValue(board.Model(), b)
  {
    value := 10;
    value := value + (8 - b.rank as int) * 2;
    var passed := IsPassedPawn(b, board, ChessColor.Black);
    if passed {
      value := value + 15;
    }
    if IsPawnBlocked(b, board.Model(), ChessColor.Black) {
      value := value - 5;
    }
    var movesToPromotion := b.rank as int - 1;
    var clearPath := true;
    var r := b.rank as int - 1;
    while r >= 1
      invariant r < 0x1_0000
      invariant BlackPathClear(board.Model(), b.file, b.rank as int - 1) == BlackPathClear(board.Model(), b.file, r)
      decreases r
    {
      if GetPieceAt(board.Model(), r as ChessRank, b.file).Some? {
        clearPath := false;
        break;
      }
      r := r - 1;
    }
    assert clearPath == BlackPathClear(board.Model(), b.file, b.rank as int - 1);
    if clearPath && movesToPromotion <= 3 {
      value := value + (4 - movesToPromotion) * 30;
    }
  }

  // ---------------------------------------------------------------------------
  // What the tests mean

  /** An enemy piece of `color` that a passed pawn must not have ahead of it on its own or a neighbouring file. */
  predicate EnemyAhead(pawn: BoardPiece, q: BoardPiece, color: ChessColor)
  {
    -1 <= q.file as int - pawn.file as int <= 1 &&
    (if color == ChessColor.White then q.rank > pawn.rank else q.rank < pawn.rank)
  }

  /** When the piece lists are well formed, `EnemyAt` holds exactly when one of the opponent's pieces stands on the square. */
  lemma EnemyAtMeans(p: Position, rank: ChessRank, file: ChessFile, color: ChessColor)
    requires ListsOk(p) && color != ChessColor.NoColor
    ensures EnemyAt(p, rank, file, color) <==> exists q :: q in Enemies(p, color) && At(q, rank, file)
  {
    var w := FindAt(p.whitePieces, rank, file);
    if w.Some? {
      var k :| 0 <= k < |p.whitePieces| && p.whitePieces[k] == w.value;
      if color == ChessColor.White {
        assert w.value !in p.blackPieces;
      } else {
        assert Enemies(p, color)[k] in Enemies(p, color);
      }
    } else {
      var b := FindAt(p.blackPieces, rank, file);
      if b.Some? {
        var k :| 0 <= k < |p.blackPieces| && p.blackPieces[k] == b.value;
        if color == ChessColor.White {
          assert Enemies(p, color)[k] in Enemies(p, color);
        } else {
          assert b.value !in p.whitePieces;
        }
      }
    }
  }

  /** The squares the inner loop still has to look at from `rankOffset` on, as a condition on a piece. */
  predicate Reaches(pawn: BoardPiece, q: BoardPiece, color: ChessColor, rankOffset: int)
  {
    if color == ChessColor.White then q.rank as int >= pawn.rank as int + rankOffset
    else q.rank as int <= pawn.rank as int - rankOffset
  }

  /** The rank the inner loop of `IsPassedPawn` looks at `rankOffset` squares ahead of a pawn on the board. */
  function Ahead(pawn: BoardPiece, color: ChessColor, rankOffset: int): int
  {
    if color == ChessColor.White then pawn.rank as int + rankOffset else pawn.rank as int - rankOffset
  }

  /** One step of the inner loop: on the board it tests the square and goes on, off the board it stops. */
  lemma FileClearUnfold(p: Position, pawn: BoardPiece, file: ChessFile, color: ChessColor, rankOffset: int)
    requires OnBoard(pawn) && 1 <= rankOffset <= 7
    ensures 1 <= Ahead(pawn, color, rankOffset) <= 8 ==>
      FileClear(p, pawn, file, color, rankOffset) ==
        (!EnemyAt(p, Ahead(pawn, color, rankOffset) as ChessRank, file, color) && FileClear(p, pawn, file, color, rankOffset + 1))
    ensures !(1 <= Ahead(pawn, color, rankOffset) <= 8) ==> FileClear(p, pawn, file, color, rankOffset)
  {
    var target := Ahead(pawn, color, rankOffset);
    assert pawn.rank as int + rankOffset * Step(color) == target;
    if target < 0 {
      assert Wrap16(target) == target + 0x1_0000;
    } else {
      assert Wrap16(target) == target;
    }
  }

  /** The pieces ahead from `rankOffset` on are those on the next square and those ahead from `rankOffset + 1` on. */
  lemma ReachesStep(enemies: seq<BoardPiece>, pawn: BoardPiece, file: ChessFile, color: ChessColor, rankOffset: int)
    requires 1 <= Ahead(pawn, color, rankOffset) <= 8
    ensures (forall q :: q in enemies && q.file == file ==> !Reaches(pawn, q, color, rankOffset)) <==>
      (!exists q :: q in enemies && At(q, Ahead(pawn, color, rankOffset) as ChessRank, file)) &&
      (forall q :: q in enemies && q.file == file ==> !Reaches(pawn, q, color, rankOffset + 1))
  {
  }

  /** No piece on the board lies beyond the edge the loop stopped at. */
  lemma ReachesNone(enemies: seq<BoardPiece>, pawn: BoardPiece, color: ChessColor, rankOffset: int)
    requires forall q :: q in enemies ==> OnBoard(q)
    requires OnBoard(pawn) && 1 <= rankOffset && !(rankOffset <= 7 && 1 <= Ahead(pawn, color, rankOffset) <= 8)
    ensures forall q :: q in enemies ==> !Reaches(pawn, q, color, rankOffset)
  {
  }

  /** The inner loop of `IsPassedPawn` finds no enemy on `file` exactly when none stands that far ahead. */
  lemma {:induction false} FileClearMeans(p: Position, pawn: BoardPiece, file: ChessFile, color: ChessColor, rankOffset: int)
    requires ListsOk(p) && OnBoard(pawn) && color != ChessColor.NoColor && 1 <= rankOffset <= 8
    ensures FileClear(p, pawn, file, color, rankOffset) <==>
      forall q :: q in Enemies(p, color) && q.file == file ==> !Reaches(pawn, q, color, rankOffset)
    decreases 8 - rankOffset
  {
    var enemies := Enemies(p, color);
    var target := Ahead(pawn, color, rankOffset);
    if rankOffset <= 7 {
      FileClearUnfold(p, pawn, file, color, rankOffset);
    }
    if rankOffset <= 7 && 1 <= target <= 8 {
      EnemyAtMeans(p, target as ChessRank, file, color);
      FileClearMeans(p, pawn, file, color, rankOffset + 1);
      ReachesStep(enemies, pawn, file, color, rankOffset);
    } else {
      assert forall q :: q in enemies ==> OnBoard(q);
      ReachesNone(enemies, pawn, color, rankOffset);
    }
  }

  /**
   * When the piece lists are well formed (as on every consistent board), a
   * pawn on the board is passed exactly when no opposing piece stands ahead
   * of it on its own file or a neighbouring one.
   */
  lemma PassedMeans(p: Position, pawn: BoardPiece, color: ChessColor)
    requires ListsOk(p) && OnBoard(pawn) && color != ChessColor.NoColor
    ensures Passed(p, pawn, color) <==>
      forall q :: q in Enemies(p, color) ==> !EnemyAhead(pawn, q, color)
  {
    var enemies := Enemies(p, color);
    assert forall q :: q in enemies ==> OnBoard(q);
    FileOkMeans(p, pawn, color, -1);
    FileOkMeans(p, pawn, color, 0);
    FileOkMeans(p, pawn, color, 1);
    AheadSplits(enemies, pawn, color);
  }

  /** One file of `IsPassedPawn`: clear exactly when no enemy on it stands ahead. */
  lemma FileOkMeans(p: Position, pawn: BoardPiece, color: ChessColor, offset: int)
    requires ListsOk(p) && OnBoard(pawn) && color != ChessColor.NoColor && -1 <= offset <= 1
    ensures FileOk(p, pawn, color, offset) <==>
      forall q :: q in Enemies(p, color) && q.file as int == pawn.file as int + offset ==> !Reaches(pawn, q, color, 1)
  {
    if 0 <= pawn.file as int + offset <= 7 {
      FileOnBoard(p, pawn, color, offset);
      FileClearMeans(p, pawn, (pawn.file as int + offset) as ChessFile, color, 1);
      SameFile(p, pawn, color, offset);
    } else {
      FileOffBoard(p, pawn, color, offset);
      assert forall q :: q in Enemies(p, color) ==> OnBoard(q);
    }
  }

  /** A file on the board is looked at: the test is the inner loop on it. */
  lemma FileOnBoard(p: Position, pawn: BoardPiece, color: ChessColor, offset: int)
    requires 0 <= pawn.file as int + offset <= 7
    ensures FileOk(p, pawn, color, offset) == FileClear(p, pawn, (pawn.file as int + offset) as ChessFile, color, 1)
  {
    assert Wrap16(pawn.file as int + offset) == pawn.file as int + offset;
  }

  /** Comparing files as `ChessFile` values or as integers picks the same pieces. */
  lemma SameFile(p: Position, pawn: BoardPiece, color: ChessColor, offset: int)
    requires 0 <= pawn.file as int + offset <= 7
    ensures (forall q :: q in Enemies(p, color) && q.file == (pawn.file as int + offset) as ChessFile ==> !Reaches(pawn, q, color, 1))
        <==> (forall q :: q in Enemies(p, color) && q.file as int == pawn.file as int + offset ==> !Reaches(pawn, q, color, 1))
  {
  }

  /** A file beside the edge of the board is skipped, and no piece stands on it. */
  lemma FileOffBoard(p: Position, pawn: BoardPiece, color: ChessColor, offset: int)
    requires OnBoard(pawn) && -1 <= offset <= 1
    requires !(0 <= pawn.file as int + offset <= 7)
    ensures FileOk(p, pawn, color, offset)
  {
    if pawn.file as int + offset < 0 {
      assert Wrap16(-1) == 0xFFFF;
    } else {
      assert Wrap16(8) == 8;
    }
  }

  /** An enemy ahead stands on one of the three files. */
  lemma AheadSplits(enemies: seq<BoardPiece>, pawn: BoardPiece, color: ChessColor)
    ensures (forall q :: q in enemies ==> !EnemyAhead(pawn, q, color)) <==>
      (forall q :: q in enemies && q.file as int == pawn.file as int - 1 ==> !Reaches(pawn, q, color, 1)) &&
      (forall q :: q in enemies && q.file as int == pawn.file as int + 0 ==> !Reaches(pawn, q, color, 1)) &&
      (forall q :: q in enemies && q.file as int == pawn.file as int + 1 ==> !Reaches(pawn, q, color, 1))
  {
  }

  /** The White path loop finds the file empty from rank `r` to rank 8. */
  lemma {:induction false} WhitePathClearMeans(p: Position, file: ChessFile, r: int)
    requires r >= 1
    ensures WhitePathClear(p, file, r) <==>
      forall rank: ChessRank :: r <= rank as int <= 8 ==> GetPieceAt(p, rank, file).None?
    decreases 9 - r
  {
    if r <= 8 {
      WhitePathClearMeans(p, file, r + 1);
    }
  }

  /** The Black path loop finds the file empty from rank `r` down to rank 1. */
  lemma {:induction false} BlackPathClearMeans(p: Position, file: ChessFile, r: int)
    requires r < 0x1_0000
    ensures BlackPathClear(p, file, r) <==>
      forall rank: ChessRank :: 1 <= rank as int <= r ==> GetPieceAt(p, rank, file).None?
    decreases r
  {
    if r >= 1 {
      BlackPathClearMeans(p, file, r - 1);
    }
  }

  /**
   * A pawn on the board is worth 7 to 161 points to White, or 5 to 159 to
   * Black: a White pawn on rank r and a Black pawn on rank 9 - r differ by
   * two in base value.
   */
  lemma PawnValueBounds(p: Position, x: BoardPiece)
    requires OnBoard(x)
    ensures 7 <= WhiteValue(p, x) <= 161
    ensures 5 <= BlackValue(p, x) <= 159
  {
  }

  /**
   * The score is zero-sum while the game goes on; a finished game scores
   * `int.MaxValue - 1` for the winner and `int.MinValue + 1` for the loser,
   * which are not each other's negation, and never takes the draw branch.
   */
  lemma ScoreFacts(p: Position)
    ensures !IsGameOver(p) ==> Score(p, ChessColor.White) == -Score(p, ChessColor.Black)
    ensures IsGameOver(p) ==>
      && GetWinner(p) != ChessColor.NoColor
      && Score(p, GetWinner(p)) == 2147483646
      && Score(p, if GetWinner(p) == ChessColor.White then ChessColor.Black else ChessColor.White) == -2147483647
  {
  }
}
