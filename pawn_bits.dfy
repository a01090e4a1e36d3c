/**
 * The pawn bitboards of a board (`Evaluation.GetPawnBitboards`): each listed
 * piece sets bit `(rank - 1) * 8 + file` of its colour's word. C# takes the
 * count of `1UL << bitIndex` modulo 64 (the low six bits of the count, also
 * for a negative one), which is written out here as the conversion to `bv6`;
 * on a consistent board every index already lies in 0 .. 63.
 */
module BoardWords {
  import opened Coordinates
  import opened Pieces
  import opened Positions
  import opened Bits
  import opened BitboardHelper
  import opened Board

  /** `bitIndex` of the source: `(rank - 1) * 8 + file`. */
  function BitIndex(piece: BoardPiece): int
  {
    (piece.rank as int - 1) * 8 + piece.file as int
  }

  /** The bit `1UL << bitIndex` sets: the shift count taken modulo 64. */
  function Slot(piece: BoardPiece): bv6
  {
    IndexOf(BitIndex(piece) % 64)
  }

  /** The bits the pieces of a list set, in list order. */
  function Slots(pieces: seq<BoardPiece>): seq<bv6>
  {
    if pieces == [] then [] else Slots(pieces[..|pieces| - 1]) + [Slot(pieces[|pieces| - 1])]
  }

  /** Entry `i` of `Slots(pieces)` is the bit of piece `i`. */
  lemma {:induction false} SlotsAt(pieces: seq<BoardPiece>)
    ensures |Slots(pieces)| == |pieces|
    ensures forall i :: 0 <= i < |pieces| ==> Slots(pieces)[i] == Slot(pieces[i])
  {
    if pieces != [] {
      var n := |pieces| - 1;
      SlotsAt(pieces[..n]);
    }
  }

  /** The word with the bits of all pieces of the list. */
  function PawnBits(pieces: seq<BoardPiece>): bv64
  {
    WordOf(Slots(pieces))
  }

  /** The bitboards of a board. */
  function BoardBits(p: Position): PawnBitboards
  {
    PawnBitboards(PawnBits(p.whitePieces), PawnBits(p.blackPieces))
  }

  /** Bit `k` is set exactly when some piece of the list sets it. */
  lemma PawnBitsHas(pieces: seq<BoardPiece>, k: bv6)
    ensures Has(PawnBits(pieces), k) <==> exists i :: 0 <= i < |pieces| && Slot(pieces[i]) == k
  {
    var ks := Slots(pieces);
    WordOfHas(ks, k);
    SlotsAt(pieces);
    if k in ks {
      var i :| 0 <= i < |ks| && ks[i] == k;
      assert Slot(pieces[i]) == k;
    }
  }

  /** On the board, the bit is the square's own index, and different squares have different bits. */
  lemma SlotOnBoard(x: BoardPiece, y: BoardPiece)
    requires OnBoard(x) && OnBoard(y)
    ensures Slot(x) == Slot(y) <==> At(x, y.rank, y.file)
  {
    BitIndexOnBoard(x, y);
    SameIndex(Slot(x), Slot(y), BitIndex(x), BitIndex(y));
  }

  /** On the board the index lies in 0 .. 63, and two pieces share it exactly when they share a square. */
  lemma BitIndexOnBoard(x: BoardPiece, y: BoardPiece)
    requires OnBoard(x) && OnBoard(y)
    ensures 0 <= BitIndex(x) < 64 && 0 <= BitIndex(y) < 64
    ensures BitIndex(x) % 64 == BitIndex(x) && BitIndex(y) % 64 == BitIndex(y)
    ensures BitIndex(x) == BitIndex(y) <==> At(x, y.rank, y.file)
  {
  }

  lemma SameIndex(a: bv6, b: bv6, m: int, n: int)
    requires 0 <= m < 64 && 0 <= n < 64 && a == IndexOf(m) && b == IndexOf(n)
    ensures a == b <==> m == n
  {
    IndexOfInjective(m, n);
  }

  /** Pieces on distinct squares of the board set distinct bits. */
  lemma SlotsDistinct(pieces: seq<BoardPiece>, c: ChessPiece)
    requires ListOf(pieces, c)
    ensures Distinct(Slots(pieces))
  {
    var ks := Slots(pieces);
    SlotsAt(pieces);
    forall i, j | 0 <= i < j < |ks|
      ensures ks[i] != ks[j]
    {
      SlotOnBoard(pieces[i], pieces[j]);
    }
  }

  lemma WordCount(x: bv64, ks: seq<bv6>)
    requires x == WordOf(ks) && Distinct(ks)
    ensures PopCount(x) == |ks|
  {
    WordOfCount(ks);
  }

  /** On a list of pieces on distinct squares of the board, the count of set bits is the length of the list. */
  lemma PawnBitsCount(pieces: seq<BoardPiece>, c: ChessPiece)
    requires ListOf(pieces, c)
    ensures PopCount(PawnBits(pieces)) == |pieces|
  {
    SlotsAt(pieces);
    SlotsDistinct(pieces, c);
    WordCount(PawnBits(pieces), Slots(pieces));
  }

  /** The bits of a list one piece longer. */
  lemma SlotsStep(pieces: seq<BoardPiece>, i: int)
    requires 0 <= i < |pieces|
    ensures Slots(pieces[..i + 1]) == Slots(pieces[..i]) + [Slot(pieces[i])]
  {
    assert pieces[..i + 1][..i] == pieces[..i];
  }

  /** Setting the bit of the next piece gives the word of the longer list. */
  lemma PawnBitsStep(word: bv64, pieces: seq<BoardPiece>, i: int, bit: bv64)
    requires 0 <= i < |pieces| && word == PawnBits(pieces[..i]) && bit == Square(Slot(pieces[i]))
    ensures word | bit == PawnBits(pieces[..i + 1])
  {
    SlotsStep(pieces, i);
    WordOfAppend(Slots(pieces[..i]), Slot(pieces[i]));
  }

  /**
   * One `foreach` loop of `Evaluation.GetPawnBitboards`: starting from the
   * empty word, each piece of the list sets its bit `1UL << bitIndex`.
   */
  method ListBits(pieces: seq<BoardPiece>) returns (word: bv64)
    ensures word == PawnBits(pieces)
  {
    word := 0;
    var i := 0;
    while i < |pieces|
      invariant 0 <= i <= |pieces|
      invariant word == PawnBits(pieces[..i])
    {
      var bit := Square(Slot(pieces[i]));
      PawnBitsStep(word, pieces, i, bit);
      word := word | bit;
      i := i + 1;
    }
    assert pieces[..i] == pieces;
  }

  /** `Evaluation.GetPawnBitboards`: the two words, one bit per listed piece. */
  method GetPawnBitboards(board: ChessBoard) returns (pb: PawnBitboards)
    requires board.Valid()
    ensures pb == BoardBits(board.Model())
  {
    var white := ListBits(board.whitePieces);
    var black := ListBits(board.blackPieces);
    pb := PawnBitboards(white, black);
  }
}
