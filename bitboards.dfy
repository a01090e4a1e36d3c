/**
 * Pawn bitboards (BitBoards.cs): one 64-bit word per colour, bit `k` for
 * square `k` (a1 = 0, h1 = 7, a8 = 56), and the shift-and-mask functions
 * that give the squares a set of pawns can push to or capture on. Shifts
 * are C#'s on `ulong`: `<<` drops the bits pushed past bit 63, `>>` the
 * bits pushed below bit 0.
 *
 * A square is handled as its one-bit word `t`; "the square one rank up" is
 * `t << 8`, "one rank down" is `t >> 8`, and the diagonal neighbours are
 * shifts by 7 and 9.
 */
module BitboardHelper {
  import opened Bits

  /** `PawnBitboards`: the white and the black pawns as two words. */
  datatype PawnBitboards = PawnBitboards(whitePawns: bv64, blackPawns: bv64)

  const FileA: bv64 := 0x0101_0101_0101_0101
  const FileH: bv64 := 0x8080_8080_8080_8080
  const Rank2: bv64 := 0x0000_0000_0000_FF00
  const Rank7: bv64 := 0x00FF_0000_0000_0000

  /** The first, fourth, fifth and last ranks, used to state the properties. */
  const Rank1: bv64 := 0x0000_0000_0000_00FF
  const Rank4: bv64 := 0x0000_0000_FF00_0000
  const Rank5: bv64 := 0x0000_00FF_0000_0000
  const Rank8: bv64 := 0xFF00_0000_0000_0000

  /** `BitboardHelper.WhiteSinglePush`: each pawn one rank up, onto an empty square. */
  function WhiteSinglePush(whitePawns: bv64, emptySquares: bv64): bv64
  {
    (whitePawns << 8) & emptySquares
  }

  /** `BitboardHelper.BlackSinglePush`: each pawn one rank down, onto an empty square. */
  function BlackSinglePush(blackPawns: bv64, emptySquares: bv64): bv64
  {
    (blackPawns >> 8) & emptySquares
  }

  /**
   * `BitboardHelper.WhiteDoublePush` as written: the two-step squares and the
   * intermediate squares of the rank-2 pawns, each masked with the empty
   * squares and then intersected with each other. (The unused `oneStep` of
   * the source is dropped; it has no effect.)
   */
  function WhiteDoublePush(whitePawns: bv64, emptySquares: bv64): bv64
  {
    var pawnsOnRank2 := whitePawns & Rank2;
    var twoSteps := pawnsOnRank2 << 16;
    var intermediate := pawnsOnRank2 << 8;
    (twoSteps & emptySquares) & (intermediate & emptySquares)
  }

  /** `BitboardHelper.BlackDoublePush` as written, mirrored. */
  function BlackDoublePush(blackPawns: bv64, emptySquares: bv64): bv64
  {
    var pawnsOnRank7 := blackPawns & Rank7;
    var twoSteps := pawnsOnRank7 >> 16;
    var intermediate := pawnsOnRank7 >> 8;
    (twoSteps & emptySquares) & (intermediate & emptySquares)
  }

  /**
   * The double push the comments describe: a rank-2 pawn lands two ranks up
   * when both the square it passes and the square it lands on are empty.
   * The empty intermediate squares are moved up one more rank before they
   * are intersected with the landing squares.
   */
  function WhiteDoublePushIntended(whitePawns: bv64, emptySquares: bv64): bv64
  {
    var pawnsOnRank2 := whitePawns & Rank2;
    (pawnsOnRank2 << 16) & emptySquares & (((pawnsOnRank2 << 8) & emptySquares) << 8)
  }

  /** The intended black double push, mirrored. */
  function BlackDoublePushIntended(blackPawns: bv64, emptySquares: bv64): bv64
  {
    var pawnsOnRank7 := blackPawns & Rank7;
    (pawnsOnRank7 >> 16) & emptySquares & (((pawnsOnRank7 >> 8) & emptySquares) >> 8)
  }

  /** `BitboardHelper.WhiteCaptures`: the up-left (not from file A) and up-right (not from file H) squares holding an enemy piece. */
  function WhiteCaptures(whitePawns: bv64, enemyPieces: bv64): bv64
  {
    var leftCaptures := (whitePawns & !FileA) << 7;
    var rightCaptures := (whitePawns & !FileH) << 9;
    (leftCaptures | rightCaptures) & enemyPieces
  }

  /** `BitboardHelper.BlackCaptures`: the down-left (not from file A) and down-right (not from file H) squares holding an enemy piece. */
  function BlackCaptures(blackPawns: bv64, enemyPieces: bv64): bv64
  {
    var leftCaptures := (blackPawns & !FileA) >> 9;
    var rightCaptures := (blackPawns & !FileH) >> 7;
    (leftCaptures | rightCaptures) & enemyPieces
  }

  // ---------------------------------------------------------------------------
  // The masks

  lemma MasksByBits(i: bv6)
    ensures FileA & Square(i) != 0 <==> i & 7 == 0
    ensures FileH & Square(i) != 0 <==> i & 7 == 7
    ensures Rank2 & Square(i) != 0 <==> i >> 3 == 1
    ensures Rank7 & Square(i) != 0 <==> i >> 3 == 6
  {
  }

  /**
   * `FileA` holds the squares 0, 8, ..., 56, `FileH` the squares 7, 15, ..., 63,
   * `Rank2` the squares 8 .. 15 and `Rank7` the squares 48 .. 55.
   */
  lemma Masks(i: bv6)
    ensures FileA & Square(i) != 0 <==> i as int % 8 == 0
    ensures FileH & Square(i) != 0 <==> i as int % 8 == 7
    ensures Rank2 & Square(i) != 0 <==> i as int / 8 == 1
    ensures Rank7 & Square(i) != 0 <==> i as int / 8 == 6
  {
    MasksByBits(i);
    IndexParts(i);
  }

  // ---------------------------------------------------------------------------
  // Single pushes

  /** Pushes land only on empty squares. */
  lemma SinglePushInEmpty(pawns: bv64, emptySquares: bv64)
    ensures WhiteSinglePush(pawns, emptySquares) & !emptySquares == 0
    ensures BlackSinglePush(pawns, emptySquares) & !emptySquares == 0
  {
  }

  lemma ShiftedUpMeet(w: bv64, s: bv64, e: bv64)
    requires (w & s == 0 || w & s == s) && s & Rank8 == 0 && s != 0
    ensures ((w << 8) & e) & (s << 8) != 0 <==> w & s != 0 && e & (s << 8) != 0
  {
  }

  lemma ShiftedDownMeet(b: bv64, s: bv64, e: bv64)
    requires (b & s == 0 || b & s == s) && s & Rank1 == 0 && s != 0
    ensures ((b >> 8) & e) & (s >> 8) != 0 <==> b & s != 0 && e & (s >> 8) != 0
  {
  }

  /** The square above `s` is a white push exactly when a white pawn stands on `s` and the square above is empty. */
  lemma WhiteSinglePushSquare(whitePawns: bv64, emptySquares: bv64, s: bv64)
    requires IsSquare(s) && s & Rank8 == 0
    ensures WhiteSinglePush(whitePawns, emptySquares) & (s << 8) != 0
      <==> whitePawns & s != 0 && emptySquares & (s << 8) != 0
  {
    MeetSquare(whitePawns, s);
    ShiftedUpMeet(whitePawns, s, emptySquares);
  }

  /** The square below `s` is a black push exactly when a black pawn stands on `s` and the square below is empty. */
  lemma BlackSinglePushSquare(blackPawns: bv64, emptySquares: bv64, s: bv64)
    requires IsSquare(s) && s & Rank1 == 0
    ensures BlackSinglePush(blackPawns, emptySquares) & (s >> 8) != 0
      <==> blackPawns & s != 0 && emptySquares & (s >> 8) != 0
  {
    MeetSquare(blackPawns, s);
    ShiftedDownMeet(blackPawns, s, emptySquares);
  }

  /** Pawns on the far rank push nowhere: their bits leave the word; and no push lands on the near rank. */
  lemma FarRankNoPush(pawns: bv64, emptySquares: bv64)
    ensures WhiteSinglePush(pawns & Rank8, emptySquares) == 0
    ensures BlackSinglePush(pawns & Rank1, emptySquares) == 0
    ensures WhiteSinglePush(pawns, emptySquares) & Rank1 == 0
    ensures BlackSinglePush(pawns, emptySquares) & Rank8 == 0
  {
  }

  // ---------------------------------------------------------------------------
  // Double pushes

  /**
   * As written, the double pushes are always empty: the two-step squares of
   * rank-2 pawns lie on rank 4 and the intermediate squares on rank 3, and
   * the code intersects the two.
   */
  lemma DoublePushAsWrittenIsEmpty(pawns: bv64, emptySquares: bv64)
    ensures WhiteDoublePush(pawns, emptySquares) == 0
    ensures BlackDoublePush(pawns, emptySquares) == 0
  {
  }

  /** The witness: a lone pawn on e2 (bit 12) or e7 (bit 52) of an otherwise empty board, which should reach e4 (bit 28) or e5 (bit 36). */
  lemma DoublePushWitness()
    ensures WhiteDoublePush(0x1000, !0x1000) == 0
    ensures WhiteDoublePushIntended(0x1000, !0x1000) == 0x1000_0000
    ensures BlackDoublePush(0x0010_0000_0000_0000, !0x0010_0000_0000_0000) == 0
    ensures BlackDoublePushIntended(0x0010_0000_0000_0000, !0x0010_0000_0000_0000) == 0x0010_0000_0000
  {
  }

  /** The intended double pushes land on empty squares of rank 4 (White) or rank 5 (Black), and only rank-2 (rank-7) pawns make them. */
  lemma DoublePushTargets(pawns: bv64, emptySquares: bv64)
    ensures WhiteDoublePushIntended(pawns, emptySquares) & !(emptySquares & Rank4) == 0
    ensures BlackDoublePushIntended(pawns, emptySquares) & !(emptySquares & Rank5) == 0
    ensures WhiteDoublePushIntended(pawns & !Rank2, emptySquares) == 0
    ensures BlackDoublePushIntended(pawns & !Rank7, emptySquares) == 0
  {
  }

  /** A white pawn on rank 2 may land two ranks up exactly when it is there and both squares ahead are empty. */
  lemma WhiteDoublePushSquare(whitePawns: bv64, emptySquares: bv64, s: bv64)
    requires IsSquare(s) && s & Rank2 != 0
    ensures WhiteDoublePushIntended(whitePawns, emptySquares) & (s << 16) != 0
      <==> whitePawns & s != 0 && emptySquares & (s << 8) != 0 && emptySquares & (s << 16) != 0
  {
  }

  /** A black pawn on rank 7 may land two ranks down exactly when it is there and both squares ahead are empty. */
  lemma BlackDoublePushSquare(blackPawns: bv64, emptySquares: bv64, s: bv64)
    requires IsSquare(s) && s & Rank7 != 0
    ensures BlackDoublePushIntended(blackPawns, emptySquares) & (s >> 16) != 0
      <==> blackPawns & s != 0 && emptySquares & (s >> 8) != 0 && emptySquares & (s >> 16) != 0
  {
  }

  // ---------------------------------------------------------------------------
  // Captures

  /** Captures land only on enemy pieces. */
  lemma CapturesOnEnemy(pawns: bv64, enemyPieces: bv64)
    ensures WhiteCaptures(pawns, enemyPieces) & !enemyPieces == 0
    ensures BlackCaptures(pawns, enemyPieces) & !enemyPieces == 0
  {
  }

  /** Captures do not wrap around the edge: a file-A pawn never reaches file H, nor a file-H pawn file A. */
  lemma CapturesDoNotWrap(pawns: bv64, enemyPieces: bv64)
    ensures WhiteCaptures(pawns & FileA, enemyPieces) & FileH == 0
    ensures WhiteCaptures(pawns & FileH, enemyPieces) & FileA == 0
    ensures BlackCaptures(pawns & FileA, enemyPieces) & FileH == 0
    ensures BlackCaptures(pawns & FileH, enemyPieces) & FileA == 0
  {
  }

  lemma WhiteDiagonals(w: bv64, t: bv64)
    requires IsSquare(t)
    ensures ((w & !FileA) << 7) & t != 0 <==> t & FileH == 0 && w & (t >> 7) != 0
    ensures ((w & !FileH) << 9) & t != 0 <==> t & FileA == 0 && w & (t >> 9) != 0
  {
  }

  lemma BlackDiagonals(b: bv64, t: bv64)
    requires IsSquare(t)
    ensures ((b & !FileA) >> 9) & t != 0 <==> t & FileH == 0 && b & (t << 9) != 0
    ensures ((b & !FileH) >> 7) & t != 0 <==> t & FileA == 0 && b & (t << 7) != 0
  {
  }

  lemma MeetOfSquare(l: bv64, r: bv64, e: bv64, t: bv64)
    requires t != 0
    requires l & t == 0 || l & t == t
    requires r & t == 0 || r & t == t
    requires e & t == 0 || e & t == t
    ensures ((l | r) & e) & t != 0 <==> (l & t != 0 || r & t != 0) && e & t != 0
  {
  }

  /**
   * Square `t` is a white capture exactly when an enemy piece stands on it
   * and a white pawn stands diagonally below it on a neighbouring file.
   */
  lemma WhiteCapturesSquare(whitePawns: bv64, enemyPieces: bv64, t: bv64)
    requires IsSquare(t)
    ensures WhiteCaptures(whitePawns, enemyPieces) & t != 0
      <==> && enemyPieces & t != 0
           && ((t & FileH == 0 && whitePawns & (t >> 7) != 0) || (t & FileA == 0 && whitePawns & (t >> 9) != 0))
  {
    var l, r := (whitePawns & !FileA) << 7, (whitePawns & !FileH) << 9;
    WhiteDiagonals(whitePawns, t);
    MeetSquare(l, t);
    MeetSquare(r, t);
    MeetSquare(enemyPieces, t);
    MeetOfSquare(l, r, enemyPieces, t);
  }

  /**
   * Square `t` is a black capture exactly when an enemy piece stands on it
   * and a black pawn stands diagonally above it on a neighbouring file.
   */
  lemma BlackCapturesSquare(blackPawns: bv64, enemyPieces: bv64, t: bv64)
    requires IsSquare(t)
    ensures BlackCaptures(blackPawns, enemyPieces) & t != 0
      <==> && enemyPieces & t != 0
           && ((t & FileH == 0 && blackPawns & (t << 9) != 0) || (t & FileA == 0 && blackPawns & (t << 7) != 0))
  {
    var l, r := (blackPawns & !FileA) >> 9, (blackPawns & !FileH) >> 7;
    BlackDiagonals(blackPawns, t);
    MeetSquare(l, t);
    MeetSquare(r, t);
    MeetSquare(enemyPieces, t);
    MeetOfSquare(l, r, enemyPieces, t);
  }
}
