/**
 * The state of a `ChessBoard` as a value (ChessBoard.cs, BoardManipulation.cs,
 * BoardInitializer.cs), and one function per operation that changes it.
 *
 * Every mutator of the C# class is written here as a function from the old
 * state to an `Outcome`: either the new state, or the exception it throws
 * together with the state at the moment of the throw (earlier writes are not
 * rolled back). The `ChessBoard` class in module Board is proved to compute
 * exactly these functions; the search code works on these values directly.
 */
module Positions {
  import opened Wrappers
  import opened Coordinates
  import opened Pieces

  /** An 8 x 8 grid of cells, indexed `[rankIndex][fileIndex]`. */
  type Grid = g: seq<seq<ChessPiece>> | |g| == 8 && forall r :: 0 <= r < 8 ==> |g[r]| == 8
    witness seq(8, _ => seq(8, _ => ChessPiece.Empty))

  /** A grid whose every cell is `Empty`, as `new ChessPiece[8, 8]` is. */
  function EmptyGrid(): Grid
  {
    seq(8, _ => seq(8, _ => ChessPiece.Empty))
  }

  /** The fields of a `ChessBoard`: the grid, the two piece lists and the last move. */
  datatype Position = Position(grid: Grid, whitePieces: seq<BoardPiece>, blackPieces: seq<BoardPiece>, lastMove: Option<Move>)

  /** `new ChessBoard()`: an empty grid, empty lists and no last move. */
  function NewBoard(): Position
  {
    Position(EmptyGrid(), [], [], None)
  }

  /** The exceptions the board code throws. */
  datatype Exception =
    | ArgumentOutOfRange(paramName: string)
    | InvalidOperation(message: string)
    | IndexOutOfRange

  /** The result of a mutator: the new state and a value, or the exception and the state when it was thrown. */
  datatype Outcome<T> = Done(board: Position, value: T) | Threw(board: Position, error: Exception)

  // ---------------------------------------------------------------------------
  // Grid indexers

  /** Indexer get `this[int rank, int file]`: the cell, or `Invalid` off the board. */
  function Get(p: Position, rank: int, file: int): ChessPiece
  {
    if 0 <= rank < 8 && 0 <= file < 8 then p.grid[rank][file] else ChessPiece.Invalid
  }

  /** Indexer set `this[int rank, int file]`: writes the cell, or throws for the rank first, then for the file. */
  function Set(p: Position, rank: int, file: int, value: ChessPiece): Outcome<()>
  {
    if 0 <= rank < 8 && 0 <= file < 8 then
      Done(p.(grid := p.grid[rank := p.grid[rank][file := value]]), ())
    else if rank < 0 || rank >= 8 then
      Threw(p, ArgumentOutOfRange("rank"))
    else
      Threw(p, ArgumentOutOfRange("file"))
  }

  /** Indexer `this[ChessRank rank, ChessFile file]` (get): the integer indexer at the converted indices. */
  function GetSquare(p: Position, rank: ChessRank, file: ChessFile): ChessPiece
  {
    Get(p, RankToIndex(rank), FileToIndex(file))
  }

  /** Indexer `this[ChessRank rank, ChessFile file]` (set). */
  function SetSquare(p: Position, rank: ChessRank, file: ChessFile, value: ChessPiece): Outcome<()>
  {
    Set(p, RankToIndex(rank), FileToIndex(file), value)
  }

  // ---------------------------------------------------------------------------
  // Piece lists

  predicate At(x: BoardPiece, rank: ChessRank, file: ChessFile)
  {
    x.rank == rank && x.file == file
  }

  /** The first piece of `s` standing on the square, if any. */
  function FindAt(s: seq<BoardPiece>, rank: ChessRank, file: ChessFile): (r: Option<BoardPiece>)
    ensures r.Some? ==> r.value in s && At(r.value, rank, file)
    ensures r.None? <==> forall i :: 0 <= i < |s| ==> !At(s[i], rank, file)
  {
    if s == [] then None
    else if At(s[0], rank, file) then Some(s[0])
    else FindAt(s[1..], rank, file)
  }

  /**
   * `GetPieceAt`: the white piece on the square if there is one, else the
   * black one, else null. (`SingleOrDefault` would throw on two pieces of one
   * list on the square; the lists never hold two, see `Consistent`.)
   */
  function GetPieceAt(p: Position, rank: ChessRank, file: ChessFile): Option<BoardPiece>
  {
    var w := FindAt(p.whitePieces, rank, file);
    if w.Some? then w else FindAt(p.blackPieces, rank, file)
  }

  /** `List.Remove`: deletes the first element equal to `x`, if any. */
  function RemoveFirst(s: seq<BoardPiece>, x: BoardPiece): (r: seq<BoardPiece>)
    ensures x in s ==> |r| == |s| - 1 && multiset(r) == multiset(s) - multiset{x}
    ensures x !in s ==> r == s
  {
    if s == [] then []
    else if s[0] == x then
      assert s == [s[0]] + s[1..];
      s[1..]
    else
      assert s == [s[0]] + s[1..];
      [s[0]] + RemoveFirst(s[1..], x)
  }

  // ---------------------------------------------------------------------------
  // Private helpers of ChessBoard

  /** `ChessBoard.RemovePiece`: drop the piece from its colour's list, then empty its cell. */
  function RemovePiece(p: Position, piece: BoardPiece): Outcome<()>
  {
    var p1 :=
      if piece.chessPiece == ChessPiece.White then p.(whitePieces := RemoveFirst(p.whitePieces, piece))
      else p.(blackPieces := RemoveFirst(p.blackPieces, piece));
    SetSquare(p1, piece.rank, piece.file, ChessPiece.Empty)
  }

  /** The list update of `AddPiece`: White pieces go to the white list, every other piece to the black list. */
  function Append(p: Position, piece: BoardPiece): Position
  {
    if piece.chessPiece == ChessPiece.White then p.(whitePieces := p.whitePieces + [piece])
    else p.(blackPieces := p.blackPieces + [piece])
  }

  /** `ChessBoard.AddPiece`: unless `unsafeInit`, remove the occupant; append the piece; set its cell. */
  function AddPiece(p: Position, piece: BoardPiece, unsafeInit: bool): Outcome<()>
  {
    var occupant := GetPieceAt(p, piece.rank, piece.file);
    var cleared := if !unsafeInit && occupant.Some? then RemovePiece(p, occupant.value) else Done(p, ());
    match cleared
    case Threw(_, _) => cleared
    case Done(p1, _) => SetSquare(Append(p1, piece), piece.rank, piece.file, piece.chessPiece)
  }

  /** `ChessBoard.InitPiece`: unless `unsafeInit`, remove the occupant; add a non-Empty piece; set the cell. */
  function InitPiece(p: Position, rank: ChessRank, file: ChessFile, piece: ChessPiece, unsafeInit: bool): Outcome<()>
  {
    var existing := GetPieceAt(p, rank, file);
    var cleared := if !unsafeInit && existing.Some? then RemovePiece(p, existing.value) else Done(p, ());
    match cleared
    case Threw(_, _) => cleared
    case Done(p1, _) =>
      var added := if piece != ChessPiece.Empty then AddPiece(p1, BoardPiece(rank, file, piece), unsafeInit) else Done(p1, ());
      match added
      case Threw(_, _) => added
      case Done(p2, _) => SetSquare(p2, rank, file, piece)
  }

  // ---------------------------------------------------------------------------
  // BoardManipulation

  /** `BoardManipulation.RemovePiece`: remove whatever piece occupies the argument's square. */
  function RemoveOccupant(p: Position, piece: BoardPiece): Outcome<()>
  {
    var occupant := GetPieceAt(p, piece.rank, piece.file);
    if occupant.Some? then RemovePiece(p, occupant.value) else Done(p, ())
  }

  /** `BoardManipulation.MovePiece`: throw if the origin is empty; clear it; add the piece at the target. */
  function MovePiece(p: Position, piece: BoardPiece, targetRank: ChessRank, targetFile: ChessFile): Outcome<BoardPiece>
  {
    if GetPieceAt(p, piece.rank, piece.file).None? then
      Threw(p, InvalidOperation("The specified piece does not exist on the board."))
    else
      var newPiece := BoardPiece(targetRank, targetFile, piece.chessPiece);
      match RemoveOccupant(p, piece)
      case Threw(p1, e) => Threw(p1, e)
      case Done(p1, _) =>
        match AddPiece(p1, newPiece, false)
        case Threw(p2, e) => Threw(p2, e)
        case Done(p2, _) => Done(p2, newPiece)
  }

  /**
   * `ChessBoard.ExecuteMove`: clear the captured piece's square if there is
   * one, move the mover, record the move. The game-over test at the end
   * discards its result and changes nothing.
   */
  function ExecuteMove(p: Position, m: Move): Outcome<()>
  {
    var cleared := if m.capturedPiece.Some? then RemoveOccupant(p, m.capturedPiece.value) else Done(p, ());
    match cleared
    case Threw(_, _) => cleared
    case Done(p1, _) =>
      match MovePiece(p1, m.movingPiece, m.targetRank, m.targetFile)
      case Threw(p2, e) => Threw(p2, e)
      case Done(p2, _) => Done(p2.(lastMove := Some(m)), ())
  }

  // ---------------------------------------------------------------------------
  // Clone

  /** One `foreach` of `Clone`: `InitPiece(rank, file, piece, true)` for each listed piece, in order. */
  function CloneInto(copy: Position, pieces: seq<BoardPiece>): Outcome<()>
    decreases |pieces|
  {
    if pieces == [] then Done(copy, ())
    else
      match InitPiece(copy, pieces[0].rank, pieces[0].file, pieces[0].chessPiece, true)
      case Threw(c, e) => Threw(c, e)
      case Done(c, _) => CloneInto(c, pieces[1..])
  }

  /** `ChessBoard.Clone`: a new board that receives the black pieces, then the white ones. */
  function Clone(p: Position): Outcome<()>
  {
    match CloneInto(NewBoard(), p.blackPieces)
    case Threw(c, e) => Threw(c, e)
    case Done(c, _) => CloneInto(c, p.whitePieces)
  }

  // ---------------------------------------------------------------------------
  // BoardInitializer

  /** `char.ToLower(part[0]) == 'w'` selects White; every other character Black. */
  function TokenPiece(c: char): ChessPiece
  {
    if c == 'w' || c == 'W' then ChessPiece.White else ChessPiece.Black
  }

  /** `(ChessFile)(part[1] - 'a')`, unchecked. */
  function TokenFile(c: char): ChessFile
  {
    Wrap16(c as int - 'a' as int) as ChessFile
  }

  /** `(ChessRank)(part[2] - '1' + 1)`, unchecked. */
  function TokenRank(c: char): ChessRank
  {
    Wrap16(c as int - '1' as int + 1) as ChessRank
  }

  /** `BoardInitializer.Setup`: skip tokens not of length 3, `InitPiece` the others; an exception ends the loop. */
  function Setup(p: Position, parts: seq<string>): Outcome<()>
    decreases |parts|
  {
    if parts == [] then Done(p, ())
    else if |parts[0]| != 3 then Setup(p, parts[1..])
    else
      var t := parts[0];
      match InitPiece(p, TokenRank(t[2]), TokenFile(t[1]), TokenPiece(t[0]), false)
      case Threw(q, e) => Threw(q, e)
      case Done(q, _) => Setup(q, parts[1..])
  }

  /** The 64 squares in the order `ClearBoard` visits them: ranks One..Eight, and within each rank files A..H. */
  function AllSquares(): (s: seq<(ChessRank, ChessFile)>)
    ensures |s| == 64
  {
    seq(64, k requires 0 <= k < 64 => (RankFromIndex(k / 8), (k % 8) as ChessFile))
  }

  /** `InitPiece(rank, file, Empty)` on each square of the list, in order. */
  function ClearSquares(p: Position, squares: seq<(ChessRank, ChessFile)>): Outcome<()>
    decreases |squares|
  {
    if squares == [] then Done(p, ())
    else
      match InitPiece(p, squares[0].0, squares[0].1, ChessPiece.Empty, false)
      case Threw(q, e) => Threw(q, e)
      case Done(q, _) => ClearSquares(q, squares[1..])
  }

  /** `BoardInitializer.ClearBoard`. */
  function ClearBoard(p: Position): Outcome<()>
  {
    ClearSquares(p, AllSquares())
  }

  // ---------------------------------------------------------------------------
  // The invariant

  predicate OnBoard(x: BoardPiece)
  {
    IsDeclaredRank(x.rank) && IsDeclaredFile(x.file)
  }

  /** Every piece of the list has colour `c` and stands on the board, and no two share a square. */
  predicate ListOf(s: seq<BoardPiece>, c: ChessPiece)
  {
    && (forall i :: 0 <= i < |s| ==> s[i].chessPiece == c && OnBoard(s[i]))
    && (forall i, j :: 0 <= i < j < |s| ==> !At(s[i], s[j].rank, s[j].file))
  }

  /** What a cell must hold: the colour of the piece that `GetPieceAt` finds there, or `Empty`. */
  function Expected(p: Position, r: nat, f: nat): ChessPiece
    requires r < 8 && f < 8
  {
    match GetPieceAt(p, RankFromIndex(r), f as ChessFile)
    case None => ChessPiece.Empty
    case Some(x) => x.chessPiece
  }

  /** The lists hold White and Black pieces respectively, on distinct squares of the board. */
  predicate ListsOk(p: Position)
  {
    && ListOf(p.whitePieces, ChessPiece.White)
    && ListOf(p.blackPieces, ChessPiece.Black)
    && (forall i, j :: 0 <= i < |p.whitePieces| && 0 <= j < |p.blackPieces| ==>
          !At(p.whitePieces[i], p.blackPieces[j].rank, p.blackPieces[j].file))
  }

  /** Each cell shows the piece the lists place there. */
  predicate GridAgrees(p: Position)
  {
    forall r, f :: 0 <= r < 8 && 0 <= f < 8 ==> p.grid[r][f] == Expected(p, r, f)
  }

  /** The invariant of the board: the grid and the two lists agree. */
  predicate Consistent(p: Position)
  {
    ListsOk(p) && GridAgrees(p)
  }

  /** The number of pieces on the board. */
  function PieceCount(p: Position): nat
  {
    |p.whitePieces| + |p.blackPieces|
  }
}
