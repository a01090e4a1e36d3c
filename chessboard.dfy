/**
 * The mutable board (ChessBoard.cs, BoardManipulation.cs, BoardInitializer.cs).
 *
 * `ChessBoard` keeps the source's fields: a fixed 8 x 8 array and the two
 * piece lists and last move, which its methods reassign. Every method that
 * changes the board is proved to compute the function of the same name in
 * module Positions, where the effect on the pieces and the grid/list
 * agreement are proved. An exception is an `error` out-parameter; the method
 * returns at once, leaving the state the source leaves at the throw.
 */
module Board {
  import opened Wrappers
  import opened Coordinates
  import opened Pieces
  import opened Positions
  import opened Zobrist
  import opened Words

  class ChessBoard {
    const grid: array2<ChessPiece>
    var whitePieces: seq<BoardPiece>
    var blackPieces: seq<BoardPiece>
    var lastMove: Option<Move>

    /** The grid is 8 x 8 (it never changes: the field is read-only). */
    predicate Valid()
    {
      grid.Length0 == 8 && grid.Length1 == 8
    }

    /** The cells of the array, row by row. */
    function Cells(): Grid
      reads grid
      requires Valid()
    {
      seq(8, r requires 0 <= r < 8 reads grid => seq(8, f requires 0 <= f < 8 reads grid => grid[r, f]))
    }

    /** The board as a value. */
    function Model(): Position
      reads this, grid
      requires Valid()
    {
      Position(Cells(), whitePieces, blackPieces, lastMove)
    }

    /** The outcome a method reports: the board now, and the exception it threw if any. */
    function Result(error: Option<Exception>): Outcome<()>
      reads this, grid
      requires Valid()
    {
      if error.None? then Done(Model(), ()) else Threw(Model(), error.value)
    }

    /** `new ChessBoard()`. */
    constructor ()
      ensures Valid() && fresh(grid)
      ensures Model() == NewBoard()
    {
      grid := new ChessPiece[8, 8]((_, _) => ChessPiece.Empty);
      whitePieces, blackPieces, lastMove := [], [], None;
      new;
      assert Cells() == EmptyGrid() by {
        forall r | 0 <= r < 8 ensures Cells()[r] == EmptyGrid()[r] {
        }
      }
    }

    /** Indexer set `this[int rank, int file]`. */
    method Set(rank: int, file: int, value: ChessPiece) returns (error: Option<Exception>)
      requires Valid()
      modifies grid
      ensures Valid()
      ensures Result(error) == Positions.Set(old(Model()), rank, file, value)
    {
      if 0 <= rank < 8 && 0 <= file < 8 {
        ghost var before := Cells();
        grid[rank, file] := value;
        error := None;
        assert Cells() == before[rank := before[rank][file := value]] by {
          forall r | 0 <= r < 8 ensures Cells()[r] == before[rank := before[rank][file := value]][r] {
          }
        }
      } else if rank < 0 || rank >= 8 {
        error := Some(ArgumentOutOfRange("rank"));
      } else {
        error := Some(ArgumentOutOfRange("file"));
      }
    }

    /** Indexer set `this[ChessRank rank, ChessFile file]`. */
    method SetSquare(rank: ChessRank, file: ChessFile, value: ChessPiece) returns (error: Option<Exception>)
      requires Valid()
      modifies grid
      ensures Valid()
      ensures Result(error) == Positions.SetSquare(old(Model()), rank, file, value)
    {
      error := Set(RankToIndex(rank), FileToIndex(file), value);
    }

    /** `ChessBoard.RemovePiece`. */
    method RemovePiece(piece: BoardPiece) returns (error: Option<Exception>)
      requires Valid()
      modifies this, grid
      ensures Valid()
      ensures Result(error) == Positions.RemovePiece(old(Model()), piece)
    {
      if piece.chessPiece == ChessPiece.White {
        whitePieces := RemoveFirst(whitePieces, piece);
      } else {
        blackPieces := RemoveFirst(blackPieces, piece);
      }
      error := SetSquare(piece.rank, piece.file, ChessPiece.Empty);
    }

    /** `ChessBoard.AddPiece`. */
    method AddPiece(piece: BoardPiece, unsafeInit: bool) returns (error: Option<Exception>)
      requires Valid()
      modifies this, grid
      ensures Valid()
      ensures Result(error) == Positions.AddPiece(old(Model()), piece, unsafeInit)
    {
      if !unsafeInit {
        var occupant := GetPieceAt(Model(), piece.rank, piece.file);
        if occupant.Some? {
          error := RemovePiece(occupant.value);
          if error.Some? {
            return;
          }
        }
      }
      if piece.chessPiece == ChessPiece.White {
        whitePieces := whitePieces + [piece];
      } else {
        blackPieces := blackPieces + [piece];
      }
      error := SetSquare(piece.rank, piece.file, piece.chessPiece);
    }

    /** `ChessBoard.InitPiece`. */
    method InitPiece(rank: ChessRank, file: ChessFile, piece: ChessPiece, unsafeInit: bool) returns (error: Option<Exception>)
      requires Valid()
      modifies this, grid
      ensures Valid()
      ensures Result(error) == Positions.InitPiece(old(Model()), rank, file, piece, unsafeInit)
    {
      if !unsafeInit {
        var existing := GetPieceAt(Model(), rank, file);
        if existing.Some? {
          error := RemovePiece(existing.value);
          if error.Some? {
            return;
          }
        }
      }
      if piece != ChessPiece.Empty {
        error := AddPiece(BoardPiece(rank, file, piece), unsafeInit);
        if error.Some? {
          return;
        }
      }
      error := SetSquare(rank, file, piece);
    }

    /** `ChessBoard.ExecuteMove`; the closing game-over test discards its result, so it is left out. */
    method ExecuteMove(m: Move) returns (error: Option<Exception>)
      requires Valid()
      modifies this, grid
      ensures Valid()
      ensures Result(error) == Positions.ExecuteMove(old(Model()), m)
    {
      if m.capturedPiece.Some? {
        error := BoardManipulation.RemovePiece(this, m.capturedPiece.value);
        if error.Some? {
          return;
        }
      }
      var _, e := BoardManipulation.MovePiece(this, m.movingPiece, m.targetRank, m.targetFile);
      error := e;
      if error.Some? {
        return;
      }
      lastMove := Some(m);
    }

    /**
     * `ChessBoard.ComputeZobristHash`: XOR the key of every non-Empty piece of
     * the black list and then the white list, then the side-to-move value.
     */
    method ComputeZobristHash(keys: ZobristKeys, sideToMove: ChessColor) returns (hash: ULong, error: Option<Exception>)
      requires Valid()
      ensures error.None? <==> Hashable(Model())
      ensures error.Some? ==> error.value == IndexOutOfRange
      ensures error.None? ==> hash == ZobristHash(keys, Model(), sideToMove)
    {
      var pieces := blackPieces + whitePieces;
      assert pieces == HashedPieces(Model());
      hash := 0;
      error := None;
      for i := 0 to |pieces|
        invariant AllKeyed(pieces[..i])
        invariant hash == XorKeys(keys, pieces[..i])
      {
        var piece := pieces[i];
        assert pieces[..i + 1] == pieces[..i] + [piece];
        if piece.chessPiece == ChessPiece.Empty {
          XorKeysSkip(keys, pieces[..i], piece);
          continue;
        }
        var rankIndex, fileIndex, pieceIndex := RankToIndex(piece.rank), FileToIndex(piece.file), PieceValue(piece.chessPiece);
        if rankIndex >= 8 || fileIndex >= 8 || pieceIndex >= 3 {
          error := Some(IndexOutOfRange);
          return;
        }
        assert Keyed(piece) && PieceKey(keys, piece) == keys.table(rankIndex, fileIndex, pieceIndex);
        XorKeysAppend(keys, pieces[..i], piece);
        hash := XorWord(hash, keys.table(rankIndex, fileIndex, pieceIndex));
      }
      assert pieces[..|pieces|] == pieces;
      hash := XorWord(hash, if sideToMove == ChessColor.White then keys.whiteToMove else keys.blackToMove);
    }

    /** `ChessBoard.Clone`: a fresh board receiving the black pieces, then the white ones, with `unsafeInit`. */
    method Clone() returns (copy: ChessBoard, error: Option<Exception>)
      requires Valid()
      ensures fresh(copy) && fresh(copy.grid) && copy.Valid()
      ensures copy.Result(error) == Positions.Clone(Model())
    {
      copy := new ChessBoard();
      error := copy.InitPieces(blackPieces);
      if error.Some? {
        return;
      }
      error := copy.InitPieces(whitePieces);
    }

    /** One `foreach` of `Clone`, run on the copy: `InitPiece(rank, file, piece, true)` for each piece in turn. */
    method InitPieces(pieces: seq<BoardPiece>) returns (error: Option<Exception>)
      requires Valid()
      modifies this, grid
      ensures Valid()
      ensures Result(error) == CloneInto(old(Model()), pieces)
    {
      error := None;
      var i := 0;
      while i < |pieces|
        invariant 0 <= i <= |pieces| && Valid() && error.None?
        invariant CloneInto(Model(), pieces[i..]) == CloneInto(old(Model()), pieces)
      {
        var x := pieces[i];
        assert pieces[i..][1..] == pieces[i + 1..];
        error := InitPiece(x.rank, x.file, x.chessPiece, true);
        if error.Some? {
          return;
        }
        i := i + 1;
      }
    }
  }

  /** `BoardManipulation`: static helpers that move and remove pieces. */
  class BoardManipulation {
    /** `BoardManipulation.MovePiece`. */
    static method MovePiece(board: ChessBoard, piece: BoardPiece, targetRank: ChessRank, targetFile: ChessFile)
      returns (newPiece: BoardPiece, error: Option<Exception>)
      requires board.Valid()
      modifies board, board.grid
      ensures board.Valid()
      ensures (if error.None? then Done(board.Model(), newPiece) else Threw(board.Model(), error.value))
           == Positions.MovePiece(old(board.Model()), piece, targetRank, targetFile)
    {
      newPiece := BoardPiece(targetRank, targetFile, piece.chessPiece);
      if GetPieceAt(board.Model(), piece.rank, piece.file).None? {
        error := Some(InvalidOperation("The specified piece does not exist on the board."));
        return;
      }
      error := RemovePiece(board, piece);
      if error.Some? {
        return;
      }
      error := board.AddPiece(newPiece, false);
    }

    /** `BoardManipulation.RemovePiece`: removes the occupant of the argument's square. */
    static method RemovePiece(board: ChessBoard, piece: BoardPiece) returns (error: Option<Exception>)
      requires board.Valid()
      modifies board, board.grid
      ensures board.Valid()
      ensures board.Result(error) == RemoveOccupant(old(board.Model()), piece)
    {
      var occupant := GetPieceAt(board.Model(), piece.rank, piece.file);
      error := None;
      if occupant.Some? {
        error := board.RemovePiece(occupant.value);
      }
    }
  }

  /** `BoardInitializer`: set-up from tokens and clearing. */
  class BoardInitializer {
    /** `BoardInitializer.Setup`: each token of length 3 is parsed and placed with `InitPiece`; others are skipped. */
    static method Setup(board: ChessBoard, setupParts: seq<string>) returns (error: Option<Exception>)
      requires board.Valid()
      modifies board, board.grid
      ensures board.Valid()
      ensures board.Result(error) == Positions.Setup(old(board.Model()), setupParts)
    {
      error := None;
      var i := 0;
      while i < |setupParts|
        invariant 0 <= i <= |setupParts| && board.Valid() && error.None?
        invariant Positions.Setup(board.Model(), setupParts[i..]) == Positions.Setup(old(board.Model()), setupParts)
      {
        var part := setupParts[i];
        assert setupParts[i..][1..] == setupParts[i + 1..];
        if |part| == 3 {
          var piece := TokenPiece(part[0]);
          var file := TokenFile(part[1]);
          var rank := TokenRank(part[2]);
          error := board.InitPiece(rank, file, piece, false);
          if error.Some? {
            return;
          }
        }
        i := i + 1;
      }
    }

    /** `BoardInitializer.ClearBoard`: `InitPiece(rank, file, Empty)` for every declared rank, and within it every declared file. */
    static method ClearBoard(board: ChessBoard) returns (error: Option<Exception>)
      requires board.Valid()
      modifies board, board.grid
      ensures board.Valid()
      ensures board.Result(error) == Positions.ClearBoard(old(board.Model()))
    {
      error := None;
      var ranks, files := DeclaredRanks(), DeclaredFiles();
      var ri := 0;
      while ri < 8
        invariant 0 <= ri <= 8 && board.Valid() && error.None?
        invariant ClearSquares(board.Model(), AllSquares()[ri * 8..]) == Positions.ClearBoard(old(board.Model()))
      {
        error := ClearRank(board, ranks, files, ri);
        if error.Some? {
          return;
        }
        ri := ri + 1;
      }
    }

    /** The inner loop of `ClearBoard`: the eight files of the `ri`-th declared rank, up to the first exception. */
    static method ClearRank(board: ChessBoard, ranks: seq<ChessRank>, files: seq<ChessFile>, ri: int)
      returns (error: Option<Exception>)
      requires board.Valid() && 0 <= ri < 8 && ranks == DeclaredRanks() && files == DeclaredFiles()
      modifies board, board.grid
      ensures board.Valid()
      ensures ClearSquares(old(board.Model()), AllSquares()[ri * 8..])
           == if error.None? then ClearSquares(board.Model(), AllSquares()[ri * 8 + 8..]) else board.Result(error)
    {
      error := None;
      var fi := 0;
      while fi < 8
        invariant 0 <= fi <= 8 && board.Valid() && error.None?
        invariant ClearSquares(board.Model(), AllSquares()[ri * 8 + fi..])
               == ClearSquares(old(board.Model()), AllSquares()[ri * 8..])
      {
        var k := ri * 8 + fi;
        SquareOrder(ri, fi);
        assert AllSquares()[k..][1..] == AllSquares()[k + 1..];
        error := board.InitPiece(ranks[ri], files[fi], ChessPiece.Empty, false);
        if error.Some? {
          return;
        }
        fi := fi + 1;
      }
    }
  }

  /** The square at position `8 * ri + fi` of `AllSquares` is the `ri`-th declared rank and the `fi`-th declared file. */
  lemma SquareOrder(ri: int, fi: int)
    requires 0 <= ri < 8 && 0 <= fi < 8
    ensures AllSquares()[ri * 8 + fi] == (DeclaredRanks()[ri], DeclaredFiles()[fi])
  {
    var k := ri * 8 + fi;
    assert k / 8 == ri && k % 8 == fi;
  }
}
