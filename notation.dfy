/**
 * Move notation (NotationHelper.cs): a move printed as origin file, origin
 * rank, target file, target rank ("e2e4"), and the parser that resolves such
 * text against the moves the board allows.
 */
module NotationHelper {
  import opened Wrappers
  import opened Coordinates
  import opened Pieces
  import opened Positions
  import opened PositionFacts
  import opened PossibleMoves

  /** `NotationHelper.ConvertFile`: the lower-case letter of a declared file, "?" otherwise. */
  function ConvertFile(file: ChessFile): string
  {
    if file <= H then [FileLetter(file)] else "?"
  }

  /** `NotationHelper.ToNotation`: the two squares, each as file then the rank's number. */
  function ToNotation(m: Move): string
  {
    ConvertFile(m.movingPiece.file) + Decimal(m.movingPiece.rank as nat)
      + ConvertFile(m.targetFile) + Decimal(m.targetRank as nat)
  }

  /** `NotationHelper.TryConvertFile` applied to the lower-cased character. */
  function TryConvertFile(c: char): Option<ChessFile>
  {
    var lower := LowerChar(c);
    if 'a' <= lower <= 'h' then Some((lower as int - 'a' as int) as ChessFile) else None
  }

  /** `NotationHelper.TryConvertRank`: `int.TryParse` of one character, then the range 1 .. 8. */
  function TryConvertRank(c: char): Option<ChessRank>
  {
    if '0' <= c <= '9' then
      var rankInt := c as int - '0' as int;
      if rankInt < 1 || rankInt > 8 then None else Some(rankInt as ChessRank)
    else None
  }

  /** `char.IsWhiteSpace`: the Unicode white-space characters. */
  predicate IsWhiteSpace(c: char)
  {
    || ('\U{9}' <= c <= '\U{D}') || c == '\U{20}' || c == '\U{85}' || c == '\U{A0}' || c == '\U{1680}'
    || ('\U{2000}' <= c <= '\U{200A}') || c == '\U{2028}' || c == '\U{2029}' || c == '\U{202F}'
    || c == '\U{205F}' || c == '\U{3000}'
  }

  /** `string.IsNullOrWhiteSpace`. */
  predicate IsNullOrWhiteSpace(s: Option<string>)
  {
    s.None? || forall i :: 0 <= i < |s.value| ==> IsWhiteSpace(s.value[i])
  }

  /** `FirstOrDefault(m => m.TargetRank == rank && m.TargetFile == file)`. */
  function FirstWithTarget(moves: seq<Move>, rank: ChessRank, file: ChessFile): (r: Option<Move>)
    ensures r.Some? ==> r.value in moves && r.value.targetRank == rank && r.value.targetFile == file
    ensures r.None? <==> forall m <- moves :: !(m.targetRank == rank && m.targetFile == file)
  {
    if moves == [] then None
    else if moves[0].targetRank == rank && moves[0].targetFile == file then Some(moves[0])
    else FirstWithTarget(moves[1..], rank, file)
  }

  /** `NotationHelper.FromNotation`; a null string is `None`. */
  function FromNotation(notation: Option<string>, p: Position, color: ChessColor): Option<Move>
  {
    if IsNullOrWhiteSpace(notation) || |notation.value| < 4 then None
    else
      var s := notation.value;
      var sourceFile, targetFile := TryConvertFile(s[0]), TryConvertFile(s[2]);
      if sourceFile.None? || targetFile.None? then None
      else
        var sourceRank, targetRank := TryConvertRank(s[1]), TryConvertRank(s[3]);
        if sourceRank.None? || targetRank.None? then None
        else
          var pieceAtSource := GetPieceAt(p, sourceRank.value, sourceFile.value);
          if pieceAtSource.None? then None
          else
            var colorMismatch :=
              || (color == ChessColor.White && pieceAtSource.value.chessPiece != ChessPiece.White)
              || (color == ChessColor.Black && pieceAtSource.value.chessPiece != ChessPiece.Black);
            if colorMismatch then None
            else FirstWithTarget(GetPossibleMoves(p, pieceAtSource.value), targetRank.value, targetFile.value)
  }

  // ---------------------------------------------------------------------------
  // Properties

  /** The digit of a declared rank, the square printed as letter and digit. */
  function SquareText(rank: ChessRank, file: ChessFile): string
    requires IsDeclaredRank(rank) && IsDeclaredFile(file)
  {
    [FileLetter(file), DigitChar(rank as nat)]
  }

  /** On declared squares, `ToNotation` is four characters: the origin's letter and digit, then the target's. */
  lemma ToNotationOnBoard(m: Move)
    requires IsDeclaredFile(m.movingPiece.file) && IsDeclaredRank(m.movingPiece.rank)
    requires IsDeclaredFile(m.targetFile) && IsDeclaredRank(m.targetRank)
    ensures ToNotation(m) == SquareText(m.movingPiece.rank, m.movingPiece.file) + SquareText(m.targetRank, m.targetFile)
    ensures |ToNotation(m)| == 4
  {
    DecimalOneDigit(m.movingPiece.rank as nat);
    DecimalOneDigit(m.targetRank as nat);
  }

  /** `Move.MoveCommand` and `ToNotation` print a move on declared squares alike. */
  lemma MoveCommandIsNotation(m: Move)
    requires IsDeclaredFile(m.movingPiece.file) && IsDeclaredRank(m.movingPiece.rank)
    requires IsDeclaredFile(m.targetFile) && IsDeclaredRank(m.targetRank)
    ensures MoveCommand(m) == ToNotation(m)
  {
    MoveCommandOnBoard(m);
    ToNotationOnBoard(m);
  }

  /** A file is read back from its letter, upper or lower case, and every other character is refused. */
  lemma FileLetterParses(c: char, f: ChessFile)
    requires IsDeclaredFile(f)
    ensures TryConvertFile(c) == Some(f) <==> c == FileLetter(f) || c == (FileLetter(f) as int - 32) as char
    ensures TryConvertFile(c).Some? <==> ('a' <= c <= 'h' || 'A' <= c <= 'H')
  {
  }

  /** A rank is read back from its digit, and only the digits 1 .. 8 are accepted. */
  lemma RankDigitParses(c: char, r: ChessRank)
    requires IsDeclaredRank(r)
    ensures TryConvertRank(c) == Some(r) <==> c == DigitChar(r as nat)
    ensures TryConvertRank(c).Some? <==> '1' <= c <= '8'
  {
  }

  /** Null text, blank text and text shorter than four characters give no move. */
  lemma FromNotationRejectsShort(notation: Option<string>, p: Position, color: ChessColor)
    requires notation.None? || |notation.value| < 4 || IsNullOrWhiteSpace(notation)
    ensures FromNotation(notation, p, color) == None
  {
  }

  /** Characters after the fourth are ignored. */
  lemma FromNotationIgnoresTail(s: string, p: Position, color: ChessColor)
    requires |s| >= 4
    ensures FromNotation(Some(s), p, color) == FromNotation(Some(s[..4]), p, color)
  {
    if IsNullOrWhiteSpace(Some(s)) || IsNullOrWhiteSpace(Some(s[..4])) {
      assert IsWhiteSpace(s[0]);
      assert TryConvertFile(s[0]).None?;
    }
  }

  /**
   * What `FromNotation` returns is a move the board generates for the piece
   * on the named origin square, which has the caller's colour, and it goes
   * to the named target square.
   */
  lemma FromNotationSound(s: string, p: Position, color: ChessColor)
    requires FromNotation(Some(s), p, color).Some?
    ensures |s| >= 4
    ensures var m := FromNotation(Some(s), p, color).value;
      && TryConvertFile(s[0]).Some? && TryConvertRank(s[1]).Some?
      && GetPieceAt(p, TryConvertRank(s[1]).value, TryConvertFile(s[0]).value) == Some(m.movingPiece)
      && m in GetPossibleMoves(p, m.movingPiece)
      && (color == ChessColor.White ==> m.movingPiece.chessPiece == ChessPiece.White)
      && (color == ChessColor.Black ==> m.movingPiece.chessPiece == ChessPiece.Black)
      && Some(m.targetFile) == TryConvertFile(s[2]) && Some(m.targetRank) == TryConvertRank(s[3])
  {
    var x := GetPieceAt(p, TryConvertRank(s[1]).value, TryConvertFile(s[0]).value).value;
    SingleMovesRule(p, x);
    DoubleMoveRule(p, x);
    CapturingMoveRule(p, x);
    EnPassentRule(p, x);
  }

  /** Parsing the text of a move between declared squares reads back its two squares. */
  lemma ReadBack(m: Move)
    requires IsDeclaredFile(m.movingPiece.file) && IsDeclaredRank(m.movingPiece.rank)
    requires IsDeclaredFile(m.targetFile) && IsDeclaredRank(m.targetRank)
    ensures var s := ToNotation(m);
      && |s| == 4 && !IsNullOrWhiteSpace(Some(s))
      && TryConvertFile(s[0]) == Some(m.movingPiece.file) && TryConvertRank(s[1]) == Some(m.movingPiece.rank)
      && TryConvertFile(s[2]) == Some(m.targetFile) && TryConvertRank(s[3]) == Some(m.targetRank)
  {
    ToNotationOnBoard(m);
    var s := ToNotation(m);
    FileLetterParses(s[0], m.movingPiece.file);
    RankDigitParses(s[1], m.movingPiece.rank);
    FileLetterParses(s[2], m.targetFile);
    RankDigitParses(s[3], m.targetRank);
    assert !IsWhiteSpace(s[0]);
  }

  /**
   * Round trip: printing a move generated for a listed piece of a consistent
   * board and parsing it back, for the piece's side or for no side, gives a
   * move of the same piece between the same squares (the first generated one
   * with that target).
   */
  lemma NotationRoundTrip(p: Position, piece: BoardPiece, m: Move, color: ChessColor)
    requires Consistent(p) && Listed(p, piece) && m in GetPossibleMoves(p, piece)
    requires color == ChessColor.White ==> piece.chessPiece == ChessPiece.White
    requires color == ChessColor.Black ==> piece.chessPiece == ChessPiece.Black
    ensures var r := FromNotation(Some(ToNotation(m)), p, color);
      && r.Some? && r.value in GetPossibleMoves(p, piece)
      && r.value.movingPiece == m.movingPiece
      && r.value.targetRank == m.targetRank && r.value.targetFile == m.targetFile
  {
    ListedPawn(p, piece);
    assert m.movingPiece == piece && IsDeclaredFile(m.targetFile) && IsDeclaredRank(m.targetRank) by {
      SingleMovesRule(p, piece);
      DoubleMoveRule(p, piece);
      CapturingMoveRule(p, piece);
      EnPassentRule(p, piece);
    }
    ReadBack(m);
    var moves := GetPossibleMoves(p, piece);
    assert FromNotation(Some(ToNotation(m)), p, color) == FirstWithTarget(moves, m.targetRank, m.targetFile);
    var r := FirstWithTarget(moves, m.targetRank, m.targetFile);
    assert r.Some?;
    assert r.value.movingPiece == piece by {
      SingleMovesRule(p, piece);
      DoubleMoveRule(p, piece);
      CapturingMoveRule(p, piece);
      EnPassentRule(p, piece);
    }
  }
}
