/**
 * The game-over test (EndGame.cs). Six conditions are tried in a fixed
 * order; the first that holds ends the game and chooses the message. The
 * winner (`EndGame.GetWinner`, which the search code calls) is the side the
 * chosen message names.
 */
module EndGame {
  import opened Wrappers
  import opened Coordinates
  import opened Pieces
  import opened Positions
  import opened PossibleMoves

  /** The conditions that end the game, in the order they are tried. */
  datatype Reason =
    | NoBlackPieces
    | NoWhitePieces
    | WhiteReachedLastRank
    | BlackReachedLastRank
    | BlackCannotMove
    | WhiteCannotMove

  /** The reasons in the order `IsGameOver` tries them. */
  function Reasons(): seq<Reason>
  {
    [NoBlackPieces, NoWhitePieces, WhiteReachedLastRank, BlackReachedLastRank, BlackCannotMove, WhiteCannotMove]
  }

  /** The message each reason reports. */
  function Message(r: Reason): string
  {
    match r
    case NoBlackPieces => "Game Over! White wins - No black pawns left."
    case NoWhitePieces => "Game Over! Black wins - No white pawns left."
    case WhiteReachedLastRank => "Game Over! White wins - White pawn reached the last rank."
    case BlackReachedLastRank => "Game Over! Black wins - Black pawn reached the last rank."
    case BlackCannotMove => "Game Over! White wins - Black has no valid moves left."
    case WhiteCannotMove => "Game Over! Black wins - White has no valid moves left."
  }

  /** The side a reason makes the winner. */
  function WinnerOf(r: Reason): ChessColor
  {
    match r
    case NoBlackPieces | WhiteReachedLastRank | BlackCannotMove => ChessColor.White
    case NoWhitePieces | BlackReachedLastRank | WhiteCannotMove => ChessColor.Black
  }

  /** Some piece of the list stands on the rank (`Any(piece => piece.Rank == rank)`). */
  predicate AnyOnRank(pieces: seq<BoardPiece>, rank: ChessRank)
  {
    exists i :: 0 <= i < |pieces| && pieces[i].rank == rank
  }

  /** Some piece of the list has a possible move (`Any(piece => board.GetPossibleMoves(piece).Any())`). */
  predicate AnyCanMove(p: Position, pieces: seq<BoardPiece>)
  {
    exists i :: 0 <= i < |pieces| && GetPossibleMoves(p, pieces[i]) != []
  }

  /** Whether the condition of a reason holds on the board, each checked on its own. */
  predicate Holds(p: Position, r: Reason)
  {
    match r
    case NoBlackPieces => |p.blackPieces| == 0
    case NoWhitePieces => |p.whitePieces| == 0
    case WhiteReachedLastRank => AnyOnRank(p.whitePieces, Eight)
    case BlackReachedLastRank => AnyOnRank(p.blackPieces, One)
    case BlackCannotMove => !AnyCanMove(p, p.blackPieces)
    case WhiteCannotMove => !AnyCanMove(p, p.whitePieces)
  }

  /** The chain of `if`s of `IsGameOver(board, out message)`: the reason it stops at, if any. */
  function Check(p: Position): Option<Reason>
  {
    if |p.blackPieces| == 0 then Some(NoBlackPieces)
    else if |p.whitePieces| == 0 then Some(NoWhitePieces)
    else if AnyOnRank(p.whitePieces, Eight) then Some(WhiteReachedLastRank)
    else if AnyOnRank(p.blackPieces, One) then Some(BlackReachedLastRank)
    else if !AnyCanMove(p, p.blackPieces) then Some(BlackCannotMove)
    else if !AnyCanMove(p, p.whitePieces) then Some(WhiteCannotMove)
    else None
  }

  /** Where each reason stands in the order of the checks. */
  function Priority(r: Reason): (k: nat)
    ensures k < |Reasons()| && Reasons()[k] == r
  {
    match r
    case NoBlackPieces => 0
    case NoWhitePieces => 1
    case WhiteReachedLastRank => 2
    case BlackReachedLastRank => 3
    case BlackCannotMove => 4
    case WhiteCannotMove => 5
  }

  /** The chain stops at a reason that holds, and it runs through exactly when no reason holds. */
  lemma CheckSound(p: Position)
    ensures Check(p).Some? ==> Holds(p, Check(p).value)
    ensures Check(p).None? <==> forall r :: !Holds(p, r)
  {
    if Check(p).None? {
      forall r ensures !Holds(p, r) {
        match r
        case NoBlackPieces =>
        case NoWhitePieces =>
        case WhiteReachedLastRank =>
        case BlackReachedLastRank =>
        case BlackCannotMove =>
        case WhiteCannotMove =>
      }
    } else {
      assert Holds(p, Check(p).value);
    }
  }

  /** `EndGame.IsGameOver(board, out message)`: whether the game is over, and the message (null when it is not). */
  function IsGameOverMessage(p: Position): (result: (bool, Option<string>))
    ensures result.0 <==> result.1.Some?
    ensures result.0 <==> exists r :: Holds(p, r)
  {
    CheckSound(p);
    match Check(p)
    case None => (false, None)
    case Some(r) => (true, Some(Message(r)))
  }

  /** `EndGame.IsGameOver(board)`: the two-argument overload with the message discarded. */
  function IsGameOver(p: Position): (over: bool)
    ensures over <==> exists r :: Holds(p, r)
  {
    IsGameOverMessage(p).0
  }

  /** `EndGame.GetWinner`: the side named by the message of the game-over test; `None` while the game goes on. */
  function GetWinner(p: Position): (winner: ChessColor)
    ensures winner == ChessColor.NoColor <==> !IsGameOver(p)
  {
    match Check(p)
    case None => ChessColor.NoColor
    case Some(r) => WinnerOf(r)
  }

  /**
   * The first condition that holds decides: when the `k`-th reason holds and
   * none before it does, the game is over with the `k`-th message, and the
   * winner is the side that reason favours.
   */
  lemma FirstHitDecides(p: Position, k: int)
    requires 0 <= k < |Reasons()| && Holds(p, Reasons()[k])
    requires forall j :: 0 <= j < k ==> !Holds(p, Reasons()[j])
    ensures IsGameOverMessage(p) == (true, Some(Message(Reasons()[k])))
    ensures GetWinner(p) == WinnerOf(Reasons()[k])
  {
    FirstHitChecked(p, k);
  }

  /** The chain of `if`s stops at the first reason that holds. */
  lemma FirstHitChecked(p: Position, k: int)
    requires 0 <= k < |Reasons()| && Holds(p, Reasons()[k])
    requires forall j :: 0 <= j < k ==> !Holds(p, Reasons()[j])
    ensures Check(p) == Some(Reasons()[k])
  {
    if k >= 1 { assert !Holds(p, Reasons()[0]); }
    if k >= 2 { assert !Holds(p, Reasons()[1]); }
    if k >= 3 { assert !Holds(p, Reasons()[2]); }
    if k >= 4 { assert !Holds(p, Reasons()[3]); }
    if k >= 5 { assert !Holds(p, Reasons()[4]); }
  }

  /** Conversely, the message names a reason that holds, and no earlier reason holds. */
  lemma MessageIsFirstHit(p: Position)
    requires IsGameOver(p)
    ensures exists k :: && 0 <= k < |Reasons()| && Holds(p, Reasons()[k])
                        && IsGameOverMessage(p).1 == Some(Message(Reasons()[k]))
                        && (forall j :: 0 <= j < k ==> !Holds(p, Reasons()[j]))
  {
    CheckSound(p);
    var k := Priority(Check(p).value);
    CheckStopsFirst(p);
    assert Holds(p, Reasons()[k]) && IsGameOverMessage(p).1 == Some(Message(Reasons()[k]));
  }

  /** No reason tried before the one the chain stops at holds. */
  lemma CheckStopsFirst(p: Position)
    requires Check(p).Some?
    ensures forall j :: 0 <= j < Priority(Check(p).value) ==> !Holds(p, Reasons()[j])
  {
  }

  /** The messages differ, so the message tells which condition ended the game. */
  lemma MessagesDistinct(r1: Reason, r2: Reason)
    requires Message(r1) == Message(r2)
    ensures r1 == r2
  {
  }

  /** With black pieces left on a consistent board, Black has no valid move exactly when no black piece has a possible move. */
  lemma BlackStuck(p: Position)
    ensures !AnyCanMove(p, p.blackPieces) <==> forall x <- p.blackPieces :: !HasPossibleMove(p, x)
  {
    if AnyCanMove(p, p.blackPieces) {
      var i :| 0 <= i < |p.blackPieces| && GetPossibleMoves(p, p.blackPieces[i]) != [];
      assert p.blackPieces[i] in p.blackPieces && HasPossibleMove(p, p.blackPieces[i]);
    }
    if exists x <- p.blackPieces :: HasPossibleMove(p, x) {
      var x :| x in p.blackPieces && HasPossibleMove(p, x);
      var i :| 0 <= i < |p.blackPieces| && p.blackPieces[i] == x;
      assert GetPossibleMoves(p, p.blackPieces[i]) != [];
    }
  }

  /** A board on which no piece can move is over, whatever else holds on it. */
  lemma NoMovesEndsGame(p: Position)
    requires forall x <- p.whitePieces + p.blackPieces :: GetPossibleMoves(p, x) == []
    ensures IsGameOver(p)
  {
    if |p.blackPieces| > 0 {
      assert p.blackPieces[0] in p.whitePieces + p.blackPieces;
      assert forall i :: 0 <= i < |p.blackPieces| ==> p.blackPieces[i] in p.whitePieces + p.blackPieces;
      assert Holds(p, BlackCannotMove);
    } else {
      assert Holds(p, NoBlackPieces);
    }
  }
}
