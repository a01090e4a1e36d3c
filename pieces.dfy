/**
 * Colours, square contents, pieces and moves (ChessColor.cs, ChessPiece.cs,
 * BoardPiece.cs, Move.cs).
 */
module Pieces {
  import opened Wrappers
  import opened Coordinates

  /** `ChessColor`; the source's third member `None` is called `NoColor` here. */
  datatype ChessColor = White | Black | NoColor

  /** `ChessPiece`: the content of a grid cell. */
  datatype ChessPiece = Empty | White | Black | Invalid

  /** The numeric value of each `ChessPiece` member. */
  function PieceValue(p: ChessPiece): (v: nat)
    ensures v < 4
  {
    match p
    case Empty => 0
    case White => 1
    case Black => 2
    case Invalid => 3
  }

  /** The colour of the other side's pieces, as the move generators choose it: Black for White, White otherwise. */
  function OpponentPiece(c: ChessPiece): ChessPiece
  {
    if c == ChessPiece.White then ChessPiece.Black else ChessPiece.White
  }

  /**
   * `BoardPiece`. The C# class has settable properties, but no code changes a
   * piece after creating it and `Equals` compares the three fields, so it is a value.
   */
  datatype BoardPiece = BoardPiece(rank: ChessRank, file: ChessFile, chessPiece: ChessPiece)

  /** The argument of `Equals(object? obj)`: null, a `BoardPiece`, or any other object. */
  datatype Object = Null | Piece(piece: BoardPiece) | OtherObject

  /** `BoardPiece.Equals`. */
  function Equals(self: BoardPiece, obj: Object): bool
  {
    match obj
    case Piece(other) => other.rank == self.rank && other.file == self.file && other.chessPiece == self.chessPiece
    case _ => false
  }

  /** `Equals` is value equality on pieces and false for null and for other objects. */
  lemma EqualsIsValueEquality(self: BoardPiece, obj: Object)
    ensures Equals(self, obj) <==> obj.Piece? && obj.piece == self
  {
  }

  /** `Equals` is reflexive, symmetric and transitive on pieces. */
  lemma EqualsIsEquivalence(x: BoardPiece, y: BoardPiece, z: BoardPiece)
    ensures Equals(x, Piece(x))
    ensures Equals(x, Piece(y)) ==> Equals(y, Piece(x))
    ensures Equals(x, Piece(y)) && Equals(y, Piece(z)) ==> Equals(x, Piece(z))
  {
  }

  /**
   * `BoardPiece.GetHashCode`: `HashCode.Combine(Rank, File, ChessPiece)`. The
   * combiner is seeded per process, so it is a parameter here.
   */
  function GetHashCode(self: BoardPiece, combine: (ChessRank, ChessFile, ChessPiece) -> int): int
  {
    combine(self.rank, self.file, self.chessPiece)
  }

  /** Equal pieces have equal hash codes, whatever the combiner. */
  lemma EqualPiecesHashAlike(x: BoardPiece, y: BoardPiece, combine: (ChessRank, ChessFile, ChessPiece) -> int)
    requires Equals(x, Piece(y))
    ensures GetHashCode(x, combine) == GetHashCode(y, combine)
  {
  }

  /** `Move`: the moving piece is required; the captured piece may be null. */
  datatype Move = Move(movingPiece: BoardPiece, capturedPiece: Option<BoardPiece>, targetRank: ChessRank, targetFile: ChessFile)

  // ---------------------------------------------------------------------------
  // Text of moves

  /** The decimal digits of a natural number, as `int.ToString` prints it. */
  function Decimal(n: nat): (s: string)
    ensures |s| >= 1
    ensures forall k :: 0 <= k < |s| ==> '0' <= s[k] <= '9'
  {
    if n < 10 then [DigitChar(n)] else Decimal(n / 10) + [DigitChar(n % 10)]
  }

  function DigitChar(d: nat): (c: char)
    requires d < 10
    ensures '0' <= c <= '9'
  {
    ('0' as int + d) as char
  }

  /** A one-digit number prints as its single digit. */
  lemma DecimalOneDigit(n: nat)
    requires n < 10
    ensures Decimal(n) == [DigitChar(n)]
  {
  }

  /** `Enum.ToString` of a file: the member name, or the number for an undeclared value. */
  function FileName(f: ChessFile): string
  {
    if f <= 7 then ["A", "B", "C", "D", "E", "F", "G", "H"][f] else Decimal(f as nat)
  }

  /** `ToLower` on the characters that occur in move text (letters and digits). */
  function LowerChar(c: char): char
  {
    if 'A' <= c <= 'Z' then (c as int + 32) as char else c
  }

  function ToLower(s: string): (r: string)
    ensures |r| == |s|
    ensures forall k :: 0 <= k < |s| ==> r[k] == LowerChar(s[k])
  {
    if s == [] then [] else [LowerChar(s[0])] + ToLower(s[1..])
  }

  /** `Move.TargetCommand`: the target file's name then the target rank's number, in lower case. */
  function TargetCommand(m: Move): string
  {
    ToLower(FileName(m.targetFile) + Decimal(m.targetRank as nat))
  }

  /** `Move.MoveCommand`: the origin file and rank, then the target command, in lower case. */
  function MoveCommand(m: Move): string
  {
    ToLower(FileName(m.movingPiece.file) + Decimal(m.movingPiece.rank as nat) + TargetCommand(m))
  }

  /** The lower-case letter of a declared file. */
  function FileLetter(f: ChessFile): char
    requires f <= 7
  {
    ('a' as int + f as int) as char
  }

  /** On a declared square, the target command is the file letter and the rank digit. */
  lemma TargetCommandOnBoard(m: Move)
    requires IsDeclaredFile(m.targetFile) && IsDeclaredRank(m.targetRank)
    ensures TargetCommand(m) == [FileLetter(m.targetFile), DigitChar(m.targetRank as nat)]
  {
    DecimalOneDigit(m.targetRank as nat);
  }

  /** On declared squares, the move command is four characters: origin file, origin rank, target file, target rank. */
  lemma MoveCommandOnBoard(m: Move)
    requires IsDeclaredFile(m.movingPiece.file) && IsDeclaredRank(m.movingPiece.rank)
    requires IsDeclaredFile(m.targetFile) && IsDeclaredRank(m.targetRank)
    ensures MoveCommand(m) == [FileLetter(m.movingPiece.file), DigitChar(m.movingPiece.rank as nat),
                               FileLetter(m.targetFile), DigitChar(m.targetRank as nat)]
  {
    TargetCommandOnBoard(m);
    DecimalOneDigit(m.movingPiece.rank as nat);
    var t := TargetCommand(m);
    assert t == ToLower(t);
  }
}
