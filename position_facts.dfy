/**
 * Proofs that the board mutators of module Positions keep the grid and the
 * piece lists in agreement, and what each of them does to the pieces.
 */
module PositionFacts {
  import opened Wrappers
  import opened Coordinates
  import opened Pieces
  import opened Positions

  // ---------------------------------------------------------------------------
  // Lists

  /** In a list without two pieces on one square, `FindAt` finds the piece that stands there. */
  lemma {:induction false} FindAtDistinct(s: seq<BoardPiece>, c: ChessPiece, i: int)
    requires ListOf(s, c) && 0 <= i < |s|
    ensures FindAt(s, s[i].rank, s[i].file) == Some(s[i])
  {
    if i > 0 {
      assert !At(s[0], s[i].rank, s[i].file);
      assert ListOf(s[1..], c) by {
        forall a, b | 0 <= a < b < |s| - 1 ensures !At(s[1..][a], s[1..][b].rank, s[1..][b].file) {
          assert s[1..][a] == s[a + 1] && s[1..][b] == s[b + 1];
        }
      }
      assert s[1..][i - 1] == s[i];
      FindAtDistinct(s[1..], c, i - 1);
    }
  }

  /** Appending a piece changes what `FindAt` finds only on a square where nothing was found. */
  lemma {:induction false} FindAtAppend(s: seq<BoardPiece>, x: BoardPiece, rank: ChessRank, file: ChessFile)
    ensures FindAt(s + [x], rank, file) ==
      if FindAt(s, rank, file).Some? then FindAt(s, rank, file)
      else if At(x, rank, file) then Some(x) else None
  {
    if s != [] {
      assert (s + [x])[0] == s[0];
      assert (s + [x])[1..] == s[1..] + [x];
      FindAtAppend(s[1..], x, rank, file);
    }
  }

  /** `RemoveFirst` cuts the first occurrence out of the list. */
  lemma {:induction false} RemoveFirstSplit(s: seq<BoardPiece>, x: BoardPiece) returns (k: int)
    requires x in s
    ensures 0 <= k < |s| && s[k] == x && x !in s[..k]
    ensures RemoveFirst(s, x) == s[..k] + s[k + 1..]
  {
    if s[0] == x {
      k := 0;
    } else {
      assert x in s[1..];
      var k' := RemoveFirstSplit(s[1..], x);
      k := k' + 1;
      assert RemoveFirst(s, x) == [s[0]] + RemoveFirst(s[1..], x);
      assert s[..k] == [s[0]] + s[1..][..k'];
      assert s[k + 1..] == s[1..][k' + 1..];
    }
  }

  /** The elements of a list with index `k` cut out. */
  lemma DropIndex(s: seq<BoardPiece>, k: int)
    requires 0 <= k < |s|
    ensures |s[..k] + s[k + 1..]| == |s| - 1
    ensures forall i :: 0 <= i < |s| - 1 ==> (s[..k] + s[k + 1..])[i] == if i < k then s[i] else s[i + 1]
  {
  }

  /** Cutting an element out of a list keeps it a list of distinct squares of one colour. */
  lemma ListOfDrop(s: seq<BoardPiece>, c: ChessPiece, k: int)
    requires ListOf(s, c) && 0 <= k < |s|
    ensures ListOf(s[..k] + s[k + 1..], c)
  {
    var t := s[..k] + s[k + 1..];
    DropIndex(s, k);
    forall a, b | 0 <= a < b < |t| ensures !At(t[a], t[b].rank, t[b].file) {
      var a' := if a < k then a else a + 1;
      var b' := if b < k then b else b + 1;
      assert t[a] == s[a'] && t[b] == s[b'] && a' < b';
    }
  }

  /** Every element of `RemoveFirst(s, x)` is an element of `s`, and the result keeps `ListOf`. */
  lemma RemoveFirstSubset(s: seq<BoardPiece>, c: ChessPiece, x: BoardPiece)
    requires ListOf(s, c)
    ensures ListOf(RemoveFirst(s, x), c)
    ensures forall y :: y in RemoveFirst(s, x) ==> y in s
  {
    if x in s {
      var k := RemoveFirstSplit(s, x);
      ListOfDrop(s, c, k);
      DropIndex(s, k);
    }
  }

  /** After `RemoveFirst(s, x)`, nothing is found on `x`'s square and every other square is unchanged. */
  lemma FindAtRemove(s: seq<BoardPiece>, c: ChessPiece, x: BoardPiece, rank: ChessRank, file: ChessFile)
    requires ListOf(s, c) && x in s
    ensures FindAt(RemoveFirst(s, x), rank, file) == if At(x, rank, file) then None else FindAt(s, rank, file)
  {
    var k := RemoveFirstSplit(s, x);
    if At(x, rank, file) {
      FindAtDropHere(s, c, k);
    } else {
      FindAtDropElsewhere(s, c, k, rank, file);
    }
  }

  lemma FindAtDropHere(s: seq<BoardPiece>, c: ChessPiece, k: int)
    requires ListOf(s, c) && 0 <= k < |s|
    ensures FindAt(s[..k] + s[k + 1..], s[k].rank, s[k].file) == None
  {
    var t := s[..k] + s[k + 1..];
    DropIndex(s, k);
    forall i | 0 <= i < |t| ensures !At(t[i], s[k].rank, s[k].file) {
      var i' := if i < k then i else i + 1;
      assert t[i] == s[i'] && i' != k;
    }
  }

  lemma FindAtDropElsewhere(s: seq<BoardPiece>, c: ChessPiece, k: int, rank: ChessRank, file: ChessFile)
    requires ListOf(s, c) && 0 <= k < |s| && !At(s[k], rank, file)
    ensures FindAt(s[..k] + s[k + 1..], rank, file) == FindAt(s, rank, file)
  {
    var t := s[..k] + s[k + 1..];
    DropIndex(s, k);
    if FindAt(s, rank, file).Some? {
      var i :| 0 <= i < |s| && s[i] == FindAt(s, rank, file).value;
      FindAtDropKept(s, c, k, i);
    } else {
      forall i | 0 <= i < |t| ensures !At(t[i], rank, file) {
        var i' := if i < k then i else i + 1;
        assert t[i] == s[i'];
      }
    }
  }

  lemma FindAtDropKept(s: seq<BoardPiece>, c: ChessPiece, k: int, i: int)
    requires ListOf(s, c) && 0 <= k < |s| && 0 <= i < |s| && i != k
    ensures FindAt(s[..k] + s[k + 1..], s[i].rank, s[i].file) == Some(s[i])
  {
    var t := s[..k] + s[k + 1..];
    DropIndex(s, k);
    var j := if i < k then i else i - 1;
    assert t[j] == s[i];
    ListOfDrop(s, c, k);
    FindAtDistinct(t, c, j);
  }

  // ---------------------------------------------------------------------------
  // GetPieceAt

  /** With consistent lists, `GetPieceAt` finds each listed piece on its own square. */
  lemma GetPieceAtListed(p: Position)
    requires ListsOk(p)
    ensures forall i :: 0 <= i < |p.whitePieces| ==>
      GetPieceAt(p, p.whitePieces[i].rank, p.whitePieces[i].file) == Some(p.whitePieces[i])
    ensures forall j :: 0 <= j < |p.blackPieces| ==>
      GetPieceAt(p, p.blackPieces[j].rank, p.blackPieces[j].file) == Some(p.blackPieces[j])
  {
    forall i | 0 <= i < |p.whitePieces|
      ensures GetPieceAt(p, p.whitePieces[i].rank, p.whitePieces[i].file) == Some(p.whitePieces[i])
    {
      FindAtDistinct(p.whitePieces, ChessPiece.White, i);
    }
    forall j | 0 <= j < |p.blackPieces|
      ensures GetPieceAt(p, p.blackPieces[j].rank, p.blackPieces[j].file) == Some(p.blackPieces[j])
    {
      FindAtDistinct(p.blackPieces, ChessPiece.Black, j);
    }
  }

  /** What `GetPieceAt` finds is a listed piece of the list of its colour, standing on the board on the square asked for. */
  lemma GetPieceAtFound(p: Position, rank: ChessRank, file: ChessFile)
    requires ListsOk(p)
    ensures match GetPieceAt(p, rank, file)
      case None => true
      case Some(x) =>
        && At(x, rank, file) && OnBoard(x)
        && ((x in p.whitePieces && x.chessPiece == ChessPiece.White) || (x in p.blackPieces && x.chessPiece == ChessPiece.Black))
  {
  }

  // ---------------------------------------------------------------------------
  // The grid

  /**
   * A grid write on a board square keeps the grid in agreement when the lists
   * change what `GetPieceAt` finds on that square only, and the value written
   * is what is found there now.
   */
  lemma GridFrame(p: Position, q: Position, rank: ChessRank, file: ChessFile)
    requires GridAgrees(p)
    requires IsDeclaredRank(rank) && IsDeclaredFile(file)
    requires forall r, f :: !(r == rank && f == file) ==> GetPieceAt(q, r, f) == GetPieceAt(p, r, f)
    requires q.grid == p.grid[RankToIndex(rank) := p.grid[RankToIndex(rank)][FileToIndex(file) :=
      match GetPieceAt(q, rank, file) case None => ChessPiece.Empty case Some(x) => x.chessPiece]]
    ensures GridAgrees(q)
  {
    forall r, f | 0 <= r < 8 && 0 <= f < 8 ensures q.grid[r][f] == Expected(q, r, f) {
      if r == RankToIndex(rank) && f == FileToIndex(file) {
        RankRoundTrip(rank);
      } else {
        IndexRoundTrip(r);
        assert GetPieceAt(q, RankFromIndex(r), f as ChessFile) == GetPieceAt(p, RankFromIndex(r), f as ChessFile);
      }
    }
  }

  /** Two consistent boards with the same lists have the same grid. */
  lemma GridDeterminedByLists(p: Position, q: Position)
    requires Consistent(p) && Consistent(q)
    requires p.whitePieces == q.whitePieces && p.blackPieces == q.blackPieces
    ensures p.grid == q.grid
  {
    forall r | 0 <= r < 8 ensures p.grid[r] == q.grid[r] {
      forall f | 0 <= f < 8 ensures p.grid[r][f] == q.grid[r][f] {
        assert Expected(p, r, f) == Expected(q, r, f);
      }
    }
  }

  // ---------------------------------------------------------------------------
  // ChessBoard.RemovePiece

  /** The lists after `ChessBoard.RemovePiece`. */
  function Removed(p: Position, x: BoardPiece): Position
  {
    if x.chessPiece == ChessPiece.White then p.(whitePieces := RemoveFirst(p.whitePieces, x))
    else p.(blackPieces := RemoveFirst(p.blackPieces, x))
  }

  /** Taking a listed piece out of its list keeps the lists consistent and vacates exactly its square. */
  lemma RemovedLists(p: Position, x: BoardPiece)
    requires ListsOk(p) && (x in p.whitePieces || x in p.blackPieces)
    ensures ListsOk(Removed(p, x))
    ensures GetPieceAt(Removed(p, x), x.rank, x.file) == None
    ensures forall r, f :: !(r == x.rank && f == x.file) ==> GetPieceAt(Removed(p, x), r, f) == GetPieceAt(p, r, f)
  {
    if x.chessPiece == ChessPiece.White {
      RemovedWhite(p, x);
    } else {
      RemovedBlack(p, x);
    }
  }

  /** `RemovedLists` for a white piece. */
  lemma RemovedWhite(p: Position, x: BoardPiece)
    requires ListsOk(p) && (x in p.whitePieces || x in p.blackPieces) && x.chessPiece == ChessPiece.White
    ensures ListsOk(Removed(p, x))
    ensures forall r, f :: GetPieceAt(Removed(p, x), r, f) == if At(x, r, f) then None else GetPieceAt(p, r, f)
  {
    var q := Removed(p, x);
    assert x in p.whitePieces;
    RemoveFirstSubset(p.whitePieces, ChessPiece.White, x);
    forall i, j | 0 <= i < |q.whitePieces| && 0 <= j < |q.blackPieces|
      ensures !At(q.whitePieces[i], q.blackPieces[j].rank, q.blackPieces[j].file)
    {
      assert q.whitePieces[i] in p.whitePieces;
      var i' :| 0 <= i' < |p.whitePieces| && p.whitePieces[i'] == q.whitePieces[i];
    }
    forall r, f ensures GetPieceAt(q, r, f) == if At(x, r, f) then None else GetPieceAt(p, r, f) {
      FindAtRemove(p.whitePieces, ChessPiece.White, x, r, f);
      if At(x, r, f) {
        var k :| 0 <= k < |p.whitePieces| && p.whitePieces[k] == x;
        assert forall j :: 0 <= j < |p.blackPieces| ==> !At(p.whitePieces[k], p.blackPieces[j].rank, p.blackPieces[j].file);
      }
    }
  }

  /** `RemovedLists` for a black piece. */
  lemma RemovedBlack(p: Position, x: BoardPiece)
    requires ListsOk(p) && (x in p.whitePieces || x in p.blackPieces) && x.chessPiece != ChessPiece.White
    ensures ListsOk(Removed(p, x))
    ensures forall r, f :: GetPieceAt(Removed(p, x), r, f) == if At(x, r, f) then None else GetPieceAt(p, r, f)
  {
    var q := Removed(p, x);
    assert x in p.blackPieces;
    RemoveFirstSubset(p.blackPieces, ChessPiece.Black, x);
    forall i, j | 0 <= i < |q.whitePieces| && 0 <= j < |q.blackPieces|
      ensures !At(q.whitePieces[i], q.blackPieces[j].rank, q.blackPieces[j].file)
    {
      assert q.blackPieces[j] in p.blackPieces;
      var j' :| 0 <= j' < |p.blackPieces| && p.blackPieces[j'] == q.blackPieces[j];
    }
    forall r, f ensures GetPieceAt(q, r, f) == if At(x, r, f) then None else GetPieceAt(p, r, f) {
      FindAtRemove(p.blackPieces, ChessPiece.Black, x, r, f);
      if At(x, r, f) {
        var k :| 0 <= k < |p.blackPieces| && p.blackPieces[k] == x;
        assert forall i :: 0 <= i < |p.whitePieces| ==> !At(p.whitePieces[i], p.blackPieces[k].rank, p.blackPieces[k].file);
      }
    }
  }

  /**
   * `ChessBoard.RemovePiece` of a listed piece cannot throw, takes the piece
   * out of its colour's list, empties its square and nothing else, and keeps
   * the board consistent.
   */
  lemma RemovePieceKeeps(p: Position, x: BoardPiece)
    requires Consistent(p) && (x in p.whitePieces || x in p.blackPieces)
    ensures RemovePiece(p, x).Done?
    ensures var q := RemovePiece(p, x).board;
      && Consistent(q)
      && q.whitePieces == Removed(p, x).whitePieces && q.blackPieces == Removed(p, x).blackPieces
      && q.lastMove == p.lastMove
      && GetPieceAt(q, x.rank, x.file) == None
      && forall r, f :: !(r == x.rank && f == x.file) ==> GetPieceAt(q, r, f) == GetPieceAt(p, r, f)
  {
    RemovedLists(p, x);
    var q := RemovePiece(p, x).board;
    assert q == Removed(p, x).(grid := q.grid);
    GridFrame(p, q, x.rank, x.file);
  }

  // ---------------------------------------------------------------------------
  // AddPiece and InitPiece

  /** The lists once the occupant of a square, if any, has been removed. */
  function Vacate(p: Position, rank: ChessRank, file: ChessFile): Position
  {
    match GetPieceAt(p, rank, file)
    case None => p
    case Some(o) => Removed(p, o)
  }

  /** Appending a White or Black piece on a free board square keeps the lists consistent and places it on that square only. */
  lemma AppendFree(p: Position, x: BoardPiece)
    requires ListsOk(p) && OnBoard(x) && (x.chessPiece == ChessPiece.White || x.chessPiece == ChessPiece.Black)
    requires GetPieceAt(p, x.rank, x.file) == None
    ensures ListsOk(Append(p, x))
    ensures GetPieceAt(Append(p, x), x.rank, x.file) == Some(x)
    ensures forall r, f :: !(r == x.rank && f == x.file) ==> GetPieceAt(Append(p, x), r, f) == GetPieceAt(p, r, f)
  {
    var q := Append(p, x);
    forall r, f ensures GetPieceAt(q, r, f) == if At(x, r, f) then Some(x) else GetPieceAt(p, r, f) {
      FindAtAppend(p.whitePieces, x, r, f);
      FindAtAppend(p.blackPieces, x, r, f);
    }
    AppendListsOk(p, x);
  }

  /** Appending a piece on a free square keeps the lists well formed. */
  lemma AppendListsOk(p: Position, x: BoardPiece)
    requires ListsOk(p) && OnBoard(x) && (x.chessPiece == ChessPiece.White || x.chessPiece == ChessPiece.Black)
    requires GetPieceAt(p, x.rank, x.file) == None
    ensures ListsOk(Append(p, x))
  {
    var q := Append(p, x);
    if x.chessPiece == ChessPiece.White {
      assert forall i :: 0 <= i < |p.whitePieces| ==> q.whitePieces[i] == p.whitePieces[i];
    } else {
      assert forall j :: 0 <= j < |p.blackPieces| ==> q.blackPieces[j] == p.blackPieces[j];
    }
  }

  /** Writing to a board cell the value it already holds changes nothing. */
  lemma SetSquareSame(p: Position, rank: ChessRank, file: ChessFile)
    requires IsDeclaredRank(rank) && IsDeclaredFile(file)
    ensures SetSquare(p, rank, file, GetSquare(p, rank, file)) == Done(p, ())
  {
    var r, f := RankToIndex(rank), FileToIndex(file);
    assert p.grid[r][f := p.grid[r][f]] == p.grid[r];
    assert p.grid[r := p.grid[r]] == p.grid;
  }

  /** On a consistent board a board cell holds the colour of the piece found there, or Empty. */
  lemma CellOfSquare(p: Position, rank: ChessRank, file: ChessFile)
    requires Consistent(p) && IsDeclaredRank(rank) && IsDeclaredFile(file)
    ensures GetSquare(p, rank, file) == match GetPieceAt(p, rank, file) case None => ChessPiece.Empty case Some(x) => x.chessPiece
  {
    RankRoundTrip(rank);
  }

  /**
   * `AddPiece` in safe mode of a White or Black piece on a board square cannot
   * throw: it removes the occupant, appends the piece to its colour's list, and
   * keeps the board consistent; only that square changes.
   */
  lemma AddPieceKeeps(p: Position, x: BoardPiece)
    requires Consistent(p) && OnBoard(x) && (x.chessPiece == ChessPiece.White || x.chessPiece == ChessPiece.Black)
    ensures AddPiece(p, x, false).Done?
    ensures var q := AddPiece(p, x, false).board;
      && Consistent(q)
      && q.whitePieces == Append(Vacate(p, x.rank, x.file), x).whitePieces
      && q.blackPieces == Append(Vacate(p, x.rank, x.file), x).blackPieces
      && q.lastMove == p.lastMove
      && GetPieceAt(q, x.rank, x.file) == Some(x)
      && forall r, f :: !(r == x.rank && f == x.file) ==> GetPieceAt(q, r, f) == GetPieceAt(p, r, f)
  {
    ClearSquareKeeps(p, x.rank, x.file);
    var p1 := Cleared(p, x.rank, x.file).board;
    AppendFree(p1, x);
    var q := AddPiece(p, x, false).board;
    assert q == Append(p1, x).(grid := q.grid);
    GridFrame(p1, q, x.rank, x.file);
  }

  /** The first step of a safe `AddPiece` or `InitPiece`: remove the occupant of the square, if any. */
  function Cleared(p: Position, rank: ChessRank, file: ChessFile): Outcome<()>
  {
    var occupant := GetPieceAt(p, rank, file);
    if occupant.Some? then RemovePiece(p, occupant.value) else Done(p, ())
  }

  /** Clearing a board square of a consistent board cannot throw, vacates that square only, and keeps the board consistent. */
  lemma ClearSquareKeeps(p: Position, rank: ChessRank, file: ChessFile)
    requires Consistent(p) && IsDeclaredRank(rank) && IsDeclaredFile(file)
    ensures Cleared(p, rank, file).Done?
    ensures var q := Cleared(p, rank, file).board;
      && Consistent(q)
      && q.whitePieces == Vacate(p, rank, file).whitePieces && q.blackPieces == Vacate(p, rank, file).blackPieces
      && q.lastMove == p.lastMove
      && GetPieceAt(q, rank, file) == None
      && forall r, f :: !(r == rank && f == file) ==> GetPieceAt(q, r, f) == GetPieceAt(p, r, f)
  {
    match GetPieceAt(p, rank, file) {
      case None =>
      case Some(o) =>
        GetPieceAtFound(p, rank, file);
        RemovePieceKeeps(p, o);
    }
  }

  /**
   * `InitPiece` in safe mode with a White, Black or Empty piece on a board
   * square cannot throw: afterwards exactly that square holds the new piece (or
   * nothing, for Empty), any earlier occupant is gone from its list, and the
   * board stays consistent.
   */
  lemma InitPieceKeeps(p: Position, rank: ChessRank, file: ChessFile, piece: ChessPiece)
    requires Consistent(p) && IsDeclaredRank(rank) && IsDeclaredFile(file) && piece != ChessPiece.Invalid
    ensures InitPiece(p, rank, file, piece, false).Done?
    ensures var q := InitPiece(p, rank, file, piece, false).board;
      && Consistent(q)
      && q.lastMove == p.lastMove
      && (piece == ChessPiece.Empty ==>
            q.whitePieces == Vacate(p, rank, file).whitePieces && q.blackPieces == Vacate(p, rank, file).blackPieces)
      && (piece != ChessPiece.Empty ==>
            q.whitePieces == Append(Vacate(p, rank, file), BoardPiece(rank, file, piece)).whitePieces
            && q.blackPieces == Append(Vacate(p, rank, file), BoardPiece(rank, file, piece)).blackPieces)
      && GetPieceAt(q, rank, file) == (if piece == ChessPiece.Empty then None else Some(BoardPiece(rank, file, piece)))
      && forall r, f :: !(r == rank && f == file) ==> GetPieceAt(q, r, f) == GetPieceAt(p, r, f)
  {
    ClearSquareKeeps(p, rank, file);
    var p1 := Cleared(p, rank, file).board;
    var p2 := p1;
    if piece != ChessPiece.Empty {
      var x := BoardPiece(rank, file, piece);
      AddPieceKeeps(p1, x);
      p2 := AddPiece(p1, x, false).board;
    }
    CellOfSquare(p2, rank, file);
    SetSquareSame(p2, rank, file);
  }

  // ---------------------------------------------------------------------------
  // BoardManipulation

  /** `BoardManipulation.RemovePiece` on a board square empties that square, whatever colour the argument claims, and keeps the board consistent. */
  lemma RemoveOccupantKeeps(p: Position, piece: BoardPiece)
    requires Consistent(p)
    ensures RemoveOccupant(p, piece).Done?
    ensures var q := RemoveOccupant(p, piece).board;
      && Consistent(q)
      && q.whitePieces == Vacate(p, piece.rank, piece.file).whitePieces
      && q.blackPieces == Vacate(p, piece.rank, piece.file).blackPieces
      && q.lastMove == p.lastMove
      && GetPieceAt(q, piece.rank, piece.file) == None
      && forall r, f :: !(r == piece.rank && f == piece.file) ==> GetPieceAt(q, r, f) == GetPieceAt(p, r, f)
  {
    match GetPieceAt(p, piece.rank, piece.file) {
      case None =>
      case Some(o) =>
        GetPieceAtFound(p, piece.rank, piece.file);
        RemovePieceKeeps(p, o);
    }
  }

  /** On a consistent board, the safe `AddPiece` can throw only `ArgumentOutOfRangeException`, from the grid write. */
  lemma AddPieceErrors(p: Position, x: BoardPiece)
    requires Consistent(p)
    ensures AddPiece(p, x, false).Threw? ==> AddPiece(p, x, false).error.ArgumentOutOfRange?
  {
    match GetPieceAt(p, x.rank, x.file) {
      case None =>
      case Some(o) =>
        GetPieceAtFound(p, x.rank, x.file);
        RemovePieceKeeps(p, o);
    }
  }

  /**
   * `MovePiece` throws `InvalidOperationException`, changing nothing, exactly
   * when no piece stands on the mover's square; any other exception it throws
   * comes from the grid write at an off-board target.
   */
  lemma MovePieceThrows(p: Position, piece: BoardPiece, targetRank: ChessRank, targetFile: ChessFile)
    requires Consistent(p)
    ensures GetPieceAt(p, piece.rank, piece.file).None? ==>
      MovePiece(p, piece, targetRank, targetFile) == Threw(p, InvalidOperation("The specified piece does not exist on the board."))
    ensures GetPieceAt(p, piece.rank, piece.file).Some? && MovePiece(p, piece, targetRank, targetFile).Threw? ==>
      MovePiece(p, piece, targetRank, targetFile).error.ArgumentOutOfRange?
  {
    if GetPieceAt(p, piece.rank, piece.file).Some? {
      RemoveOccupantKeeps(p, piece);
      AddPieceErrors(RemoveOccupant(p, piece).board, BoardPiece(targetRank, targetFile, piece.chessPiece));
    }
  }

  /**
   * `MovePiece` of a White or Black piece whose square is occupied, to a board
   * square: the origin is emptied, the target holds a new piece of the same
   * colour (any earlier occupant removed), the new piece is returned, and the
   * board stays consistent; no other square changes.
   */
  lemma MovePieceKeeps(p: Position, piece: BoardPiece, targetRank: ChessRank, targetFile: ChessFile)
    requires Consistent(p) && GetPieceAt(p, piece.rank, piece.file).Some?
    requires piece.chessPiece == ChessPiece.White || piece.chessPiece == ChessPiece.Black
    requires IsDeclaredRank(targetRank) && IsDeclaredFile(targetFile)
    ensures MovePiece(p, piece, targetRank, targetFile).Done?
    ensures var o := MovePiece(p, piece, targetRank, targetFile); var q := o.board;
      && o.value == BoardPiece(targetRank, targetFile, piece.chessPiece)
      && Consistent(q)
      && q.lastMove == p.lastMove
      && GetPieceAt(q, targetRank, targetFile) == Some(o.value)
      && (!(piece.rank == targetRank && piece.file == targetFile) ==> GetPieceAt(q, piece.rank, piece.file) == None)
      && forall r, f :: !(r == piece.rank && f == piece.file) && !(r == targetRank && f == targetFile) ==>
           GetPieceAt(q, r, f) == GetPieceAt(p, r, f)
  {
    RemoveOccupantKeeps(p, piece);
    var p1 := RemoveOccupant(p, piece).board;
    AddPieceKeeps(p1, BoardPiece(targetRank, targetFile, piece.chessPiece));
  }

  /** A move whose mover is listed under its colour, whose target is a board square and whose captured piece is not the mover's square. */
  predicate Playable(p: Position, m: Move)
  {
    && ((m.movingPiece.chessPiece == ChessPiece.White && m.movingPiece in p.whitePieces)
        || (m.movingPiece.chessPiece == ChessPiece.Black && m.movingPiece in p.blackPieces))
    && IsDeclaredRank(m.targetRank) && IsDeclaredFile(m.targetFile)
    && (m.capturedPiece.Some? ==> !At(m.capturedPiece.value, m.movingPiece.rank, m.movingPiece.file))
  }

  /** A listed piece is what `GetPieceAt` finds on its square. */
  lemma ListedFound(p: Position, x: BoardPiece)
    requires ListsOk(p) && (x in p.whitePieces || x in p.blackPieces)
    ensures GetPieceAt(p, x.rank, x.file) == Some(x)
  {
    GetPieceAtListed(p);
    if x in p.whitePieces {
      var i :| 0 <= i < |p.whitePieces| && p.whitePieces[i] == x;
    } else {
      var j :| 0 <= j < |p.blackPieces| && p.blackPieces[j] == x;
    }
  }

  /** The last move plays no part in the invariant. */
  lemma ConsistentIgnoresLastMove(p: Position, last: Option<Move>)
    requires Consistent(p)
    ensures Consistent(p.(lastMove := last))
  {
    var q := p.(lastMove := last);
    forall r, f | 0 <= r < 8 && 0 <= f < 8 ensures q.grid[r][f] == Expected(q, r, f) {
      assert Expected(q, r, f) == Expected(p, r, f);
    }
  }

  /**
   * `ExecuteMove` of a playable move cannot throw and keeps the board
   * consistent: the captured piece's square and the origin are empty, the
   * target holds the mover's colour, `LastMove` is the move, and no other
   * square changes.
   */
  /** The first step of `ExecuteMove`: the captured piece's square cleared, if there is one. */
  function CaptureCleared(p: Position, m: Move): Outcome<()>
  {
    if m.capturedPiece.Some? then RemoveOccupant(p, m.capturedPiece.value) else Done(p, ())
  }

  /**
   * Clearing the captured piece's square of a playable move cannot throw,
   * keeps the board consistent and the mover where it was, and changes no
   * other square.
   */
  lemma CaptureClearedKeeps(p: Position, m: Move)
    requires Consistent(p) && Playable(p, m)
    ensures CaptureCleared(p, m).Done?
    ensures var q := CaptureCleared(p, m).board;
      && Consistent(q)
      && q.lastMove == p.lastMove
      && GetPieceAt(q, m.movingPiece.rank, m.movingPiece.file) == Some(m.movingPiece)
      && (m.capturedPiece.Some? ==> GetPieceAt(q, m.capturedPiece.value.rank, m.capturedPiece.value.file) == None)
      && forall r, f :: !(m.capturedPiece.Some? && At(m.capturedPiece.value, r, f)) ==>
           GetPieceAt(q, r, f) == GetPieceAt(p, r, f)
  {
    ListedFound(p, m.movingPiece);
    if m.capturedPiece.Some? {
      RemoveOccupantKeeps(p, m.capturedPiece.value);
    }
  }

  lemma ExecuteMoveKeeps(p: Position, m: Move)
    requires Consistent(p) && Playable(p, m)
    ensures ExecuteMove(p, m).Done?
    ensures var q := ExecuteMove(p, m).board;
      && Consistent(q)
      && q.lastMove == Some(m)
      && GetPieceAt(q, m.targetRank, m.targetFile) == Some(BoardPiece(m.targetRank, m.targetFile, m.movingPiece.chessPiece))
      && (!At(m.movingPiece, m.targetRank, m.targetFile) ==> GetPieceAt(q, m.movingPiece.rank, m.movingPiece.file) == None)
      && (m.capturedPiece.Some? && !At(m.capturedPiece.value, m.targetRank, m.targetFile) ==>
            GetPieceAt(q, m.capturedPiece.value.rank, m.capturedPiece.value.file) == None)
      && forall r, f ::
           && !At(m.movingPiece, r, f) && !(r == m.targetRank && f == m.targetFile)
           && !(m.capturedPiece.Some? && At(m.capturedPiece.value, r, f)) ==>
           GetPieceAt(q, r, f) == GetPieceAt(p, r, f)
  {
    var mover := m.movingPiece;
    CaptureClearedKeeps(p, m);
    var p1 := CaptureCleared(p, m).board;
    MovePieceKeeps(p1, mover, m.targetRank, m.targetFile);
    var p2 := MovePiece(p1, mover, m.targetRank, m.targetFile).board;
    ConsistentIgnoresLastMove(p2, Some(m));
    var q := ExecuteMove(p, m).board;
    assert q == p2.(lastMove := Some(m));
    forall r, f | !At(mover, r, f) && !(r == m.targetRank && f == m.targetFile)
                  && !(m.capturedPiece.Some? && At(m.capturedPiece.value, r, f))
      ensures GetPieceAt(q, r, f) == GetPieceAt(p, r, f)
    {
      assert GetPieceAt(q, r, f) == GetPieceAt(p2, r, f) == GetPieceAt(p1, r, f);
    }
  }

  /** Vacating an occupied square shortens the occupant's list by one; vacating a free square changes nothing. */
  lemma VacateCounts(p: Position, rank: ChessRank, file: ChessFile)
    requires ListsOk(p)
    ensures var v := Vacate(p, rank, file); match GetPieceAt(p, rank, file)
      case None => v == p
      case Some(o) =>
        && (o.chessPiece == ChessPiece.White ==> |v.whitePieces| == |p.whitePieces| - 1 && v.blackPieces == p.blackPieces)
        && (o.chessPiece == ChessPiece.Black ==> |v.blackPieces| == |p.blackPieces| - 1 && v.whitePieces == p.whitePieces)
  {
    GetPieceAtFound(p, rank, file);
  }

  /**
   * Clearing the captured piece's square of a move whose captured piece is
   * an opponent piece on the board shortens the opponent's list by one and
   * leaves the mover's list as it was.
   */
  lemma CaptureClearedCounts(p: Position, m: Move)
    requires Consistent(p) && Playable(p, m)
    requires m.capturedPiece.Some? ==>
      && GetPieceAt(p, m.capturedPiece.value.rank, m.capturedPiece.value.file) == m.capturedPiece
      && m.capturedPiece.value.chessPiece == OpponentPiece(m.movingPiece.chessPiece)
    ensures CaptureCleared(p, m).Done?
    ensures var q := CaptureCleared(p, m).board; var captured := if m.capturedPiece.Some? then 1 else 0;
      if m.movingPiece.chessPiece == ChessPiece.White then
        |q.whitePieces| == |p.whitePieces| && |q.blackPieces| == |p.blackPieces| - captured
      else
        |q.blackPieces| == |p.blackPieces| && |q.whitePieces| == |p.whitePieces| - captured
  {
    if m.capturedPiece.Some? {
      var cap := m.capturedPiece.value;
      RemoveOccupantKeeps(p, cap);
      VacateCounts(p, cap.rank, cap.file);
    }
  }

  /** Moving a piece onto a free square keeps the length of both lists. */
  lemma MovePieceCounts(p: Position, piece: BoardPiece, targetRank: ChessRank, targetFile: ChessFile)
    requires Consistent(p) && GetPieceAt(p, piece.rank, piece.file) == Some(piece)
    requires piece.chessPiece == ChessPiece.White || piece.chessPiece == ChessPiece.Black
    requires IsDeclaredRank(targetRank) && IsDeclaredFile(targetFile)
    requires GetPieceAt(p, targetRank, targetFile) == None
    ensures MovePiece(p, piece, targetRank, targetFile).Done?
    ensures var q := MovePiece(p, piece, targetRank, targetFile).board;
      |q.whitePieces| == |p.whitePieces| && |q.blackPieces| == |p.blackPieces|
  {
    RemoveOccupantKeeps(p, piece);
    VacateCounts(p, piece.rank, piece.file);
    var p1 := RemoveOccupant(p, piece).board;
    var x := BoardPiece(targetRank, targetFile, piece.chessPiece);
    AddPieceKeeps(p1, x);
    VacateCounts(p1, targetRank, targetFile);
  }

  /**
   * Moving a piece onto another square takes whatever stood there off the
   * board: a piece of the mover's colour shortens the mover's list, a piece
   * of the other colour the other list.
   */
  lemma MovePieceOntoCounts(p: Position, piece: BoardPiece, targetRank: ChessRank, targetFile: ChessFile)
    requires Consistent(p) && GetPieceAt(p, piece.rank, piece.file) == Some(piece)
    requires piece.chessPiece == ChessPiece.White || piece.chessPiece == ChessPiece.Black
    requires IsDeclaredRank(targetRank) && IsDeclaredFile(targetFile) && !At(piece, targetRank, targetFile)
    ensures MovePiece(p, piece, targetRank, targetFile).Done?
    ensures var q := MovePiece(p, piece, targetRank, targetFile).board;
      var o := GetPieceAt(p, targetRank, targetFile);
      var own := if o.Some? && o.value.chessPiece == piece.chessPiece then 1 else 0;
      var other := if o.Some? && o.value.chessPiece != piece.chessPiece then 1 else 0;
      if piece.chessPiece == ChessPiece.White then
        |q.whitePieces| == |p.whitePieces| - own && |q.blackPieces| == |p.blackPieces| - other
      else
        |q.blackPieces| == |p.blackPieces| - own && |q.whitePieces| == |p.whitePieces| - other
  {
    RemoveOccupantKeeps(p, piece);
    VacateCounts(p, piece.rank, piece.file);
    var p1 := RemoveOccupant(p, piece).board;
    assert GetPieceAt(p1, targetRank, targetFile) == GetPieceAt(p, targetRank, targetFile);
    var x := BoardPiece(targetRank, targetFile, piece.chessPiece);
    AddPieceKeeps(p1, x);
    VacateCounts(p1, targetRank, targetFile);
  }

  /**
   * Piece counts after `ExecuteMove` of a playable move whose captured piece,
   * if any, is an opponent piece on the board, and whose target is free or holds
   * that captured piece: the mover's side keeps its count, and the opponent's
   * count drops by one exactly when the move has a captured piece.
   */
  lemma ExecuteMoveCounts(p: Position, m: Move)
    requires Consistent(p) && Playable(p, m)
    requires m.capturedPiece.Some? ==>
      && GetPieceAt(p, m.capturedPiece.value.rank, m.capturedPiece.value.file) == m.capturedPiece
      && m.capturedPiece.value.chessPiece == OpponentPiece(m.movingPiece.chessPiece)
    requires GetPieceAt(p, m.targetRank, m.targetFile) == None
          || (m.capturedPiece.Some? && At(m.capturedPiece.value, m.targetRank, m.targetFile))
    ensures ExecuteMove(p, m).Done?
    ensures var q := ExecuteMove(p, m).board; var captured := if m.capturedPiece.Some? then 1 else 0;
      if m.movingPiece.chessPiece == ChessPiece.White then
        |q.whitePieces| == |p.whitePieces| && |q.blackPieces| == |p.blackPieces| - captured
      else
        |q.blackPieces| == |p.blackPieces| && |q.whitePieces| == |p.whitePieces| - captured
  {
    ExecuteMoveKeeps(p, m);
    var mover := m.movingPiece;
    CaptureClearedKeeps(p, m);
    CaptureClearedCounts(p, m);
    var p1 := CaptureCleared(p, m).board;
    assert GetPieceAt(p1, m.targetRank, m.targetFile) == None;
    MovePieceCounts(p1, mover, m.targetRank, m.targetFile);
    var p2 := MovePiece(p1, mover, m.targetRank, m.targetFile).board;
    assert ExecuteMove(p, m).board == p2.(lastMove := Some(m));
  }

  // ---------------------------------------------------------------------------
  // Clone

  /** The empty board is consistent and has no piece anywhere. */
  lemma NewBoardEmpty()
    ensures Consistent(NewBoard())
    ensures forall r, f :: GetPieceAt(NewBoard(), r, f) == None
  {
  }

  /** On a free square the unsafe `InitPiece` of a White or Black piece does what the safe one does. */
  lemma InitPieceUnsafeOnFree(c: Position, x: BoardPiece)
    requires GetPieceAt(c, x.rank, x.file) == None && x.chessPiece != ChessPiece.Empty
    ensures InitPiece(c, x.rank, x.file, x.chessPiece, true) == InitPiece(c, x.rank, x.file, x.chessPiece, false)
  {
  }

  /** One iteration of a `Clone` loop, on a free square. */
  lemma CloneStep(c: Position, x: BoardPiece)
    requires Consistent(c) && OnBoard(x) && (x.chessPiece == ChessPiece.White || x.chessPiece == ChessPiece.Black)
    requires GetPieceAt(c, x.rank, x.file) == None
    ensures InitPiece(c, x.rank, x.file, x.chessPiece, true).Done?
    ensures var q := InitPiece(c, x.rank, x.file, x.chessPiece, true).board;
      && Consistent(q) && q.lastMove == c.lastMove
      && q.whitePieces == Append(c, x).whitePieces && q.blackPieces == Append(c, x).blackPieces
      && forall r, f :: !(r == x.rank && f == x.file) ==> GetPieceAt(q, r, f) == GetPieceAt(c, r, f)
  {
    InitPieceUnsafeOnFree(c, x);
    InitPieceKeeps(c, x.rank, x.file, x.chessPiece);
  }

  /**
   * One loop of `Clone`: copying a list of one colour onto free squares of a
   * consistent board appends it to that colour's list and keeps the board
   * consistent.
   */
  lemma {:induction false} CloneIntoKeeps(c: Position, s: seq<BoardPiece>, col: ChessPiece)
    requires Consistent(c) && ListOf(s, col) && (col == ChessPiece.White || col == ChessPiece.Black)
    requires forall i :: 0 <= i < |s| ==> GetPieceAt(c, s[i].rank, s[i].file) == None
    ensures CloneInto(c, s).Done?
    ensures var q := CloneInto(c, s).board;
      && Consistent(q) && q.lastMove == c.lastMove
      && q.whitePieces == (if col == ChessPiece.White then c.whitePieces + s else c.whitePieces)
      && q.blackPieces == (if col == ChessPiece.White then c.blackPieces else c.blackPieces + s)
    decreases |s|
  {
    if s != [] {
      var x := s[0];
      var tail := s[1..];
      CloneStep(c, x);
      var c1 := InitPiece(c, x.rank, x.file, x.chessPiece, true).board;
      CloneIntoUnfold(c, s);
      assert ListOf(tail, col) by { TailListOf(s, col); }
      assert forall i :: 0 <= i < |tail| ==> GetPieceAt(c1, tail[i].rank, tail[i].file) == None by {
        forall i | 0 <= i < |tail| ensures GetPieceAt(c1, tail[i].rank, tail[i].file) == None {
          assert tail[i] == s[i + 1];
          assert !At(s[0], s[i + 1].rank, s[i + 1].file);
        }
      }
      CloneIntoKeeps(c1, tail, col);
      AppendThenConcat(c.whitePieces, c.blackPieces, c1, x, tail, CloneInto(c1, tail).board, col);
      assert [x] + tail == s;
    }
  }

  /** Appending `x` and then `tail` to a colour's list appends `[x] + tail`. */
  lemma AppendThenConcat(w: seq<BoardPiece>, b: seq<BoardPiece>, c1: Position, x: BoardPiece, tail: seq<BoardPiece>, q: Position, col: ChessPiece)
    requires x.chessPiece == col
    requires c1.whitePieces == (if col == ChessPiece.White then w + [x] else w)
    requires c1.blackPieces == (if col == ChessPiece.White then b else b + [x])
    requires q.whitePieces == (if col == ChessPiece.White then c1.whitePieces + tail else c1.whitePieces)
    requires q.blackPieces == (if col == ChessPiece.White then c1.blackPieces else c1.blackPieces + tail)
    ensures q.whitePieces == (if col == ChessPiece.White then w + ([x] + tail) else w)
    ensures q.blackPieces == (if col == ChessPiece.White then b else b + ([x] + tail))
  {
  }

  lemma CloneIntoUnfold(c: Position, s: seq<BoardPiece>)
    requires s != [] && InitPiece(c, s[0].rank, s[0].file, s[0].chessPiece, true).Done?
    ensures CloneInto(c, s) == CloneInto(InitPiece(c, s[0].rank, s[0].file, s[0].chessPiece, true).board, s[1..])
  {
  }

  /** The tail of a list of distinct squares is one. */
  lemma TailListOf(s: seq<BoardPiece>, col: ChessPiece)
    requires ListOf(s, col) && s != []
    ensures ListOf(s[1..], col)
  {
    forall a, b | 0 <= a < b < |s| - 1 ensures !At(s[1..][a], s[1..][b].rank, s[1..][b].file) {
      assert s[1..][a] == s[a + 1] && s[1..][b] == s[b + 1];
    }
  }

  /** `Clone` of a consistent board reproduces its pieces, in list order, and its grid, with no last move. */
  lemma CloneCopies(p: Position)
    requires Consistent(p)
    ensures Clone(p).Done? && Clone(p).board == p.(lastMove := None)
  {
    var c1 := CloneInto(NewBoard(), p.blackPieces).board;
    assert CloneInto(NewBoard(), p.blackPieces).Done? && Consistent(c1) && c1.lastMove == None
        && c1.whitePieces == [] && c1.blackPieces == p.blackPieces by {
      NewBoardEmpty();
      CloneIntoKeeps(NewBoard(), p.blackPieces, ChessPiece.Black);
    }
    assert forall i :: 0 <= i < |p.whitePieces| ==> GetPieceAt(c1, p.whitePieces[i].rank, p.whitePieces[i].file) == None by {
      forall i | 0 <= i < |p.whitePieces| ensures GetPieceAt(c1, p.whitePieces[i].rank, p.whitePieces[i].file) == None {
        assert forall j :: 0 <= j < |p.blackPieces| ==> !At(p.whitePieces[i], p.blackPieces[j].rank, p.blackPieces[j].file);
      }
    }
    var c2 := CloneInto(c1, p.whitePieces).board;
    assert CloneInto(c1, p.whitePieces).Done? && Consistent(c2) && c2.lastMove == None
        && c2.whitePieces == p.whitePieces && c2.blackPieces == p.blackPieces by {
      CloneIntoKeeps(c1, p.whitePieces, ChessPiece.White);
    }
    assert c2.grid == p.grid by {
      GridDeterminedByLists(c2, p);
    }
  }

  // ---------------------------------------------------------------------------
  // Setup

  /** A token `[wWb..][a-h][1-8]` names a board square: its file and rank are the letter's and digit's positions. */
  lemma TokenSquare(t: string)
    requires |t| == 3 && 'a' <= t[1] <= 'h' && '1' <= t[2] <= '8'
    ensures TokenFile(t[1]) as int == t[1] as int - 'a' as int && IsDeclaredFile(TokenFile(t[1]))
    ensures TokenRank(t[2]) as int == t[2] as int - '0' as int && IsDeclaredRank(TokenRank(t[2]))
  {
  }

  /** A token whose length is not 3 is skipped. */
  lemma SetupSkips(p: Position, t: string, rest: seq<string>)
    requires |t| != 3
    ensures Setup(p, [t] + rest) == Setup(p, rest)
  {
    assert ([t] + rest)[1..] == rest;
  }

  /**
   * A token on a board square places its piece there, replacing any earlier
   * occupant, leaves every other square as it was, and setup goes on with the
   * remaining tokens.
   */
  lemma SetupPlaces(p: Position, t: string, rest: seq<string>)
    requires Consistent(p) && |t| == 3 && IsDeclaredRank(TokenRank(t[2])) && IsDeclaredFile(TokenFile(t[1]))
    ensures var rank, file := TokenRank(t[2]), TokenFile(t[1]);
      var o := InitPiece(p, rank, file, TokenPiece(t[0]), false);
      && o.Done? && Consistent(o.board)
      && Setup(p, [t] + rest) == Setup(o.board, rest)
      && GetPieceAt(o.board, rank, file) == Some(BoardPiece(rank, file, TokenPiece(t[0])))
      && forall r, f :: !(r == rank && f == file) ==> GetPieceAt(o.board, r, f) == GetPieceAt(p, r, f)
  {
    InitPieceKeeps(p, TokenRank(t[2]), TokenFile(t[1]), TokenPiece(t[0]));
    assert ([t] + rest)[0] == t && ([t] + rest)[1..] == rest;
  }

  /**
   * A token off the board ends setup with `ArgumentOutOfRangeException` (for
   * the rank if the rank is off the board, else for the file), after the piece
   * has been appended to its list; the grid is unchanged.
   */
  lemma SetupOffBoard(p: Position, t: string, rest: seq<string>)
    requires Consistent(p) && |t| == 3 && !(IsDeclaredRank(TokenRank(t[2])) && IsDeclaredFile(TokenFile(t[1])))
    ensures var x := BoardPiece(TokenRank(t[2]), TokenFile(t[1]), TokenPiece(t[0]));
      Setup(p, [t] + rest) == Threw(Append(p, x), ArgumentOutOfRange(if IsDeclaredRank(x.rank) then "file" else "rank"))
  {
    var x := BoardPiece(TokenRank(t[2]), TokenFile(t[1]), TokenPiece(t[0]));
    GetPieceAtFound(p, x.rank, x.file);
    assert GetPieceAt(p, x.rank, x.file) == None;
    assert ([t] + rest)[0] == t;
  }

  /** Setup from a consistent board with every token of length 3 on a board square cannot throw and keeps the board consistent. */
  lemma {:induction false} SetupKeeps(p: Position, parts: seq<string>)
    requires Consistent(p)
    requires forall i :: 0 <= i < |parts| && |parts[i]| == 3 ==>
      IsDeclaredRank(TokenRank(parts[i][2])) && IsDeclaredFile(TokenFile(parts[i][1]))
    ensures Setup(p, parts).Done? && Consistent(Setup(p, parts).board)
    decreases |parts|
  {
    if parts != [] {
      assert parts == [parts[0]] + parts[1..];
      if |parts[0]| != 3 {
        SetupSkips(p, parts[0], parts[1..]);
        SetupKeeps(p, parts[1..]);
      } else {
        SetupPlaces(p, parts[0], parts[1..]);
        SetupKeeps(InitPiece(p, TokenRank(parts[0][2]), TokenFile(parts[0][1]), TokenPiece(parts[0][0]), false).board, parts[1..]);
      }
    }
  }

  // ---------------------------------------------------------------------------
  // ClearBoard

  /** `AllSquares` lists every board square. */
  lemma AllSquaresCover(r: ChessRank, f: ChessFile)
    requires IsDeclaredRank(r) && IsDeclaredFile(f)
    ensures (r, f) in AllSquares()
  {
    var k := (r as int - 1) * 8 + f as int;
    assert AllSquares()[k] == (r, f);
  }

  /**
   * Clearing a list of board squares leaves a consistent board with nothing on
   * those squares, the same pieces on every other square, and the last move.
   */
  lemma {:induction false} ClearSquaresKeeps(p: Position, squares: seq<(ChessRank, ChessFile)>)
    requires Consistent(p)
    requires forall i :: 0 <= i < |squares| ==> IsDeclaredRank(squares[i].0) && IsDeclaredFile(squares[i].1)
    ensures ClearSquares(p, squares).Done?
    ensures var q := ClearSquares(p, squares).board;
      && Consistent(q) && q.lastMove == p.lastMove
      && (forall i :: 0 <= i < |squares| ==> GetPieceAt(q, squares[i].0, squares[i].1) == None)
      && (forall r, f :: (r, f) !in squares ==> GetPieceAt(q, r, f) == GetPieceAt(p, r, f))
    decreases |squares|
  {
    if squares != [] {
      var sq := squares[0];
      InitPieceKeeps(p, sq.0, sq.1, ChessPiece.Empty);
      var p1 := InitPiece(p, sq.0, sq.1, ChessPiece.Empty, false).board;
      ClearSquaresKeeps(p1, squares[1..]);
      var q := ClearSquares(p, squares).board;
      assert q == ClearSquares(p1, squares[1..]).board;
      forall i | 0 <= i < |squares| ensures GetPieceAt(q, squares[i].0, squares[i].1) == None {
        if i > 0 {
          assert squares[1..][i - 1] == squares[i];
        } else if sq in squares[1..] {
          var j :| 0 <= j < |squares| - 1 && squares[1..][j] == sq;
        }
      }
      forall r, f | (r, f) !in squares ensures GetPieceAt(q, r, f) == GetPieceAt(p, r, f) {
        assert (r, f) !in squares[1..];
      }
    }
  }

  /** `ClearBoard` of a consistent board leaves every cell Empty and both lists empty; only the last move survives. */
  lemma ClearBoardEmpties(p: Position)
    requires Consistent(p)
    ensures ClearBoard(p).Done? && ClearBoard(p).board == NewBoard().(lastMove := p.lastMove)
  {
    ClearedSquaresFree(p);
    var q := ClearBoard(p).board;
    NothingFoundNothingListed(q);
    assert q.grid == EmptyGrid() by {
      NewBoardEmpty();
      ConsistentIgnoresLastMove(NewBoard(), p.lastMove);
      GridDeterminedByLists(q, NewBoard().(lastMove := p.lastMove));
    }
  }

  /** After `ClearBoard` of a consistent board, the board is consistent and no square holds a piece. */
  lemma ClearedSquaresFree(p: Position)
    requires Consistent(p)
    ensures ClearBoard(p).Done?
    ensures var q := ClearBoard(p).board;
      && Consistent(q) && q.lastMove == p.lastMove
      && forall i :: 0 <= i < |AllSquares()| ==> GetPieceAt(q, AllSquares()[i].0, AllSquares()[i].1) == None
  {
    var squares := AllSquares();
    forall i | 0 <= i < |squares| ensures IsDeclaredRank(squares[i].0) && IsDeclaredFile(squares[i].1) {
    }
    ClearSquaresKeeps(p, squares);
  }

  /** A consistent board on which no square holds a piece has empty lists. */
  lemma NothingFoundNothingListed(q: Position)
    requires Consistent(q)
    requires forall i :: 0 <= i < |AllSquares()| ==> GetPieceAt(q, AllSquares()[i].0, AllSquares()[i].1) == None
    ensures q.whitePieces == [] && q.blackPieces == []
  {
    if |q.whitePieces| > 0 {
      var x := q.whitePieces[0];
      AllSquaresCover(x.rank, x.file);
      ListedFound(q, x);
      assert false;
    }
    if |q.blackPieces| > 0 {
      var x := q.blackPieces[0];
      AllSquaresCover(x.rank, x.file);
      ListedFound(q, x);
      assert false;
    }
  }
}
