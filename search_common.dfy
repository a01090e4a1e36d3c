/**
 * What the search code of every engine variant shares: `Opponent`, the
 * moves of one side (the `foreach ... AddRange(board.GetPossibleMoves(piece))`
 * loop), the child position (`board.Clone()` followed by
 * `child.ExecuteMove(move)`), and the flag a finished node stores in the
 * transposition table.
 */
module SearchCommon {
  import opened Wrappers
  import opened Coordinates
  import opened Pieces
  import opened Positions
  import opened PositionFacts
  import opened PossibleMoves
  import opened EndGame
  import opened TranspositionTables
  import opened Board

  /** `Opponent`: Black for White, White for every other colour. */
  function Opponent(color: ChessColor): (r: ChessColor)
    ensures r != color && r != ChessColor.NoColor
    ensures color == ChessColor.White <==> r == ChessColor.Black
  {
    if color == ChessColor.White then ChessColor.Black else ChessColor.White
  }

  /** On the two playing colours, `Opponent` swaps them and undoes itself. */
  lemma OpponentInvolution(color: ChessColor)
    requires color != ChessColor.NoColor
    ensures Opponent(Opponent(color)) == color
  {
  }

  /** The pieces the search moves for `side`: the white list for White, the black list otherwise. */
  function SidePieces(p: Position, side: ChessColor): seq<BoardPiece>
  {
    if side == ChessColor.White then p.whitePieces else p.blackPieces
  }

  /** The moves `gen` yields for each piece of `pieces`, piece after piece (a loop of `AddRange`). */
  function Collect(p: Position, pieces: seq<BoardPiece>, gen: (Position, BoardPiece) -> seq<Move>): seq<Move>
  {
    if pieces == [] then [] else Collect(p, pieces[..|pieces| - 1], gen) + gen(p, pieces[|pieces| - 1])
  }

  /** A move is collected exactly when it is yielded for one of the pieces. */
  lemma {:induction false} CollectMember(p: Position, pieces: seq<BoardPiece>, gen: (Position, BoardPiece) -> seq<Move>, m: Move)
    ensures m in Collect(p, pieces, gen) <==> exists i :: 0 <= i < |pieces| && m in gen(p, pieces[i])
  {
    if pieces != [] {
      var n := |pieces|;
      CollectMember(p, pieces[..n - 1], gen, m);
      if m in Collect(p, pieces, gen) && m !in gen(p, pieces[n - 1]) {
        var i :| 0 <= i < n - 1 && m in gen(p, pieces[..n - 1][i]);
        assert pieces[..n - 1][i] == pieces[i];
      }
      if exists i :: 0 <= i < n && m in gen(p, pieces[i]) {
        var i :| 0 <= i < n && m in gen(p, pieces[i]);
        if i < n - 1 {
          assert pieces[..n - 1][i] == pieces[i];
        }
      }
    }
  }

  /** Nothing is collected exactly when no piece yields a move. */
  lemma {:induction false} CollectEmpty(p: Position, pieces: seq<BoardPiece>, gen: (Position, BoardPiece) -> seq<Move>)
    ensures Collect(p, pieces, gen) == [] <==> forall i :: 0 <= i < |pieces| ==> gen(p, pieces[i]) == []
  {
    if pieces != [] {
      var n := |pieces|;
      CollectEmpty(p, pieces[..n - 1], gen);
      assert forall i :: 0 <= i < n - 1 ==> pieces[..n - 1][i] == pieces[i];
    }
  }

  /** The move list of `AlphaBeta`: every possible move of every piece of the side, in list order. */
  function SideMoves(p: Position, side: ChessColor): seq<Move>
  {
    Collect(p, SidePieces(p, side), GetPossibleMoves)
  }

  /** The move-generation loop of the searches. */
  method GenerateMoves(board: ChessBoard, sideToMove: ChessColor) returns (moves: seq<Move>)
    requires board.Valid()
    ensures moves == SideMoves(board.Model(), sideToMove)
  {
    var pieces := if sideToMove == ChessColor.White then board.whitePieces else board.blackPieces;
    moves := [];
    for i := 0 to |pieces|
      invariant moves == Collect(board.Model(), pieces[..i], GetPossibleMoves)
    {
      assert pieces[..i + 1][..i] == pieces[..i];
      moves := moves + GetPossibleMoves(board.Model(), pieces[i]);
    }
    assert pieces[..|pieces|] == pieces;
  }

  /**
   * A side with no move means the game is over: the end-game test checks
   * both colours for a move whichever side is to play. So the `moves.Count
   * == 0` branch of a search that tests for the end of the game first is
   * never taken.
   */
  lemma NoSideMovesEndsGame(p: Position, side: ChessColor)
    requires SideMoves(p, side) == []
    ensures IsGameOver(p)
  {
    var pieces := SidePieces(p, side);
    CollectEmpty(p, pieces, GetPossibleMoves);
    assert !AnyCanMove(p, pieces);
    if side == ChessColor.White {
      assert Holds(p, WhiteCannotMove);
    } else {
      assert Holds(p, BlackCannotMove);
    }
  }

  /** A move the side has is a generated move of one of its listed pieces. */
  lemma SideMoveOrigin(p: Position, side: ChessColor, m: Move) returns (piece: BoardPiece)
    requires m in SideMoves(p, side)
    ensures Listed(p, piece) && m in GetPossibleMoves(p, piece)
  {
    CollectMember(p, SidePieces(p, side), GetPossibleMoves, m);
    var i :| 0 <= i < |SidePieces(p, side)| && m in GetPossibleMoves(p, SidePieces(p, side)[i]);
    piece := SidePieces(p, side)[i];
  }

  // ---------------------------------------------------------------------------
  // The child position

  /** `board.Clone()` and then `child.ExecuteMove(move)`. */
  function Child(p: Position, m: Move): Position
  {
    ExecuteMove(Clone(p).board, m).board
  }

  /** An `Outcome` with the last move of its board replaced. */
  function WithLast<T>(o: Outcome<T>, last: Option<Move>): Outcome<T>
  {
    match o
    case Done(b, v) => Done(b.(lastMove := last), v)
    case Threw(b, e) => Threw(b.(lastMove := last), e)
  }

  lemma SetSquareLast(p: Position, r: ChessRank, f: ChessFile, v: ChessPiece, last: Option<Move>)
    ensures SetSquare(p.(lastMove := last), r, f, v) == WithLast(SetSquare(p, r, f, v), last)
  {
  }

  lemma RemovePieceLast(p: Position, x: BoardPiece, last: Option<Move>)
    ensures RemovePiece(p.(lastMove := last), x) == WithLast(RemovePiece(p, x), last)
  {
    var p1 :=
      if x.chessPiece == ChessPiece.White then p.(whitePieces := RemoveFirst(p.whitePieces, x))
      else p.(blackPieces := RemoveFirst(p.blackPieces, x));
    SetSquareLast(p1, x.rank, x.file, ChessPiece.Empty, last);
    assert p1.(lastMove := last) == (if x.chessPiece == ChessPiece.White then p.(lastMove := last).(whitePieces := RemoveFirst(p.whitePieces, x))
      else p.(lastMove := last).(blackPieces := RemoveFirst(p.blackPieces, x)));
  }

  lemma RemoveOccupantLast(p: Position, x: BoardPiece, last: Option<Move>)
    ensures RemoveOccupant(p.(lastMove := last), x) == WithLast(RemoveOccupant(p, x), last)
  {
    assert GetPieceAt(p.(lastMove := last), x.rank, x.file) == GetPieceAt(p, x.rank, x.file);
    var o := GetPieceAt(p, x.rank, x.file);
    if o.Some? {
      RemovePieceLast(p, o.value, last);
    }
  }

  lemma AddPieceLast(p: Position, x: BoardPiece, last: Option<Move>)
    ensures AddPiece(p.(lastMove := last), x, false) == WithLast(AddPiece(p, x, false), last)
  {
    var q := p.(lastMove := last);
    assert GetPieceAt(q, x.rank, x.file) == GetPieceAt(p, x.rank, x.file);
    var o := GetPieceAt(p, x.rank, x.file);
    var c := if o.Some? then RemovePiece(p, o.value) else Done(p, ());
    if o.Some? {
      RemovePieceLast(p, o.value, last);
    }
    if c.Done? {
      assert Append(c.board.(lastMove := last), x) == Append(c.board, x).(lastMove := last);
      SetSquareLast(Append(c.board, x), x.rank, x.file, x.chessPiece, last);
    }
  }

  /** `ExecuteMove` never reads the last move: a move that succeeds gives the same board whatever the last move was. */
  lemma ExecuteMoveIgnoresLastMove(p: Position, m: Move, last: Option<Move>)
    requires ExecuteMove(p, m).Done?
    ensures ExecuteMove(p.(lastMove := last), m) == ExecuteMove(p, m)
  {
    var p1 := p;
    if m.capturedPiece.Some? {
      RemoveOccupantLast(p, m.capturedPiece.value, last);
      p1 := RemoveOccupant(p, m.capturedPiece.value).board;
    }
    var q1 := p1.(lastMove := last);
    assert GetPieceAt(q1, m.movingPiece.rank, m.movingPiece.file) == GetPieceAt(p1, m.movingPiece.rank, m.movingPiece.file);
    RemoveOccupantLast(p1, m.movingPiece, last);
    var p2 := RemoveOccupant(p1, m.movingPiece).board;
    AddPieceLast(p2, BoardPiece(m.targetRank, m.targetFile, m.movingPiece.chessPiece), last);
  }

  /**
   * The child of a consistent board by one of its generated moves: the clone
   * and the move both succeed, the child is consistent, records the move as
   * its last move, and is the board `ExecuteMove` gives on the parent itself.
   */
  lemma ChildOf(p: Position, piece: BoardPiece, m: Move)
    requires Consistent(p) && Listed(p, piece) && m in GetPossibleMoves(p, piece)
    ensures Clone(p).Done? && ExecuteMove(Clone(p).board, m).Done?
    ensures Child(p, m) == ExecuteMove(p, m).board
    ensures Consistent(Child(p, m)) && Child(p, m).lastMove == Some(m)
  {
    GeneratedMovesPlayable(p, piece);
    CloneCopies(p);
    ExecuteMoveKeeps(p, m);
    ExecuteMoveIgnoresLastMove(p, m, None);
  }

  /** The child by any move of the side is consistent. */
  lemma SideChild(p: Position, side: ChessColor, m: Move)
    requires Consistent(p) && m in SideMoves(p, side)
    ensures Consistent(Child(p, m)) && Child(p, m).lastMove == Some(m)
  {
    var piece := SideMoveOrigin(p, side, m);
    ChildOf(p, piece, m);
  }

  /**
   * A generated move with a captured piece leaves fewer pieces on the board:
   * a diagonal capture removes one, en passant at least one. This bounds the
   * quiescence searches, which only follow such moves.
   */
  lemma CaptureShrinks(p: Position, piece: BoardPiece, m: Move)
    requires Consistent(p) && Listed(p, piece) && m in GetPossibleMoves(p, piece) && m.capturedPiece.Some?
    ensures PieceCount(Child(p, m)) < PieceCount(p)
  {
    ChildOf(p, piece, m);
    SingleMovesRule(p, piece);
    DoubleMoveRule(p, piece);
    if m in EnPassent(p, piece) {
      EnPassentCounts(p, piece, m);
    } else {
      assert m in CapturingMove(p, piece);
      PushOrCaptureCounts(p, piece, m);
      ListedPawn(p, piece);
    }
  }

  /** The child position the search methods build: a clone of the board with the move executed on it. */
  method MakeChild(board: ChessBoard, m: Move, ghost piece: BoardPiece) returns (child: ChessBoard)
    requires board.Valid() && Consistent(board.Model())
    requires Listed(board.Model(), piece) && m in GetPossibleMoves(board.Model(), piece)
    ensures fresh(child) && fresh(child.grid) && child.Valid()
    ensures child.Model() == Child(board.Model(), m) && Consistent(child.Model())
  {
    ChildOf(board.Model(), piece, m);
    var error;
    child, error := board.Clone();
    error := child.ExecuteMove(m);
  }

  // ---------------------------------------------------------------------------
  // The stored flag

  /** The flag a finished node stores: an upper bound when it failed low, a lower bound when it failed high, otherwise exact. */
  function Classify(value: int, originalAlpha: int, beta: int): (flag: TTFlag)
    ensures flag == UpperBound <==> value <= originalAlpha
    ensures flag == LowerBound <==> originalAlpha < value && beta <= value
    ensures flag == Exact <==> originalAlpha < value < beta
  {
    if value <= originalAlpha then UpperBound
    else if value >= beta then LowerBound
    else Exact
  }
}
