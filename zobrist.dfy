/**
 * Zobrist hashing of a board (Zobrist.cs and `ChessBoard.ComputeZobristHash`).
 *
 * The source fills an 8 x 8 x 3 table and two side-to-move values from a
 * seeded `System.Random`; that generator is not modelled, so the values are an
 * input, `ZobristKeys`. The hash is the XOR of the table entries of the listed
 * non-Empty pieces, black list first, XOR the side-to-move value. An index
 * outside the table (an undeclared rank or file, or an `Invalid` piece) throws
 * `IndexOutOfRangeException`.
 */
module Zobrist {
  import opened Coordinates
  import opened Pieces
  import opened Positions
  import opened Words

  /** `Zobrist.Table`, `Zobrist.WhiteToMove` and `Zobrist.BlackToMove`; `table` is consulted only at indices below 8, 8 and 3. */
  datatype ZobristKeys = ZobristKeys(table: (int, int, int) -> ULong, whiteToMove: ULong, blackToMove: ULong)

  /** The piece is skipped (Empty) or its rank, file and piece indices fall inside the table. */
  predicate Keyed(piece: BoardPiece)
  {
    piece.chessPiece == ChessPiece.Empty
    || (RankToIndex(piece.rank) < 8 && FileToIndex(piece.file) < 8 && PieceValue(piece.chessPiece) < 3)
  }

  /** What one piece contributes to the hash: nothing when Empty, else `Table[rankIndex, fileIndex, pieceIndex]`. */
  function PieceKey(keys: ZobristKeys, piece: BoardPiece): ULong
    requires Keyed(piece)
  {
    if piece.chessPiece == ChessPiece.Empty then 0
    else keys.table(RankToIndex(piece.rank), FileToIndex(piece.file), PieceValue(piece.chessPiece))
  }

  /** A piece the table can index is an Empty one or a White or Black piece on a declared square. */
  lemma KeyedIff(piece: BoardPiece)
    ensures Keyed(piece) <==>
      piece.chessPiece == ChessPiece.Empty
      || (IsDeclaredRank(piece.rank) && IsDeclaredFile(piece.file) && piece.chessPiece != ChessPiece.Invalid)
  {
  }

  /** Every piece of `s` is `Keyed`. */
  predicate AllKeyed(s: seq<BoardPiece>)
  {
    forall i | 0 <= i < |s| :: Keyed(s[i])
  }

  /** The XOR of the keys of `s`, folded from the left as the loop does. */
  function XorKeys(keys: ZobristKeys, s: seq<BoardPiece>): ULong
    requires AllKeyed(s)
  {
    if s == [] then 0 else XorWord(XorKeys(keys, s[..|s| - 1]), PieceKey(keys, s[|s| - 1]))
  }

  /** The pieces the hash visits: `BlackPieces.Concat(WhitePieces)`. */
  function HashedPieces(p: Position): seq<BoardPiece>
  {
    p.blackPieces + p.whitePieces
  }

  /** Every visited piece can be looked up, so the hash does not throw. */
  predicate Hashable(p: Position)
  {
    AllKeyed(HashedPieces(p))
  }

  /** The side-to-move value: `WhiteToMove` for White, `BlackToMove` for any other colour. */
  function SideKey(keys: ZobristKeys, sideToMove: ChessColor): ULong
  {
    if sideToMove == ChessColor.White then keys.whiteToMove else keys.blackToMove
  }

  /** `ComputeZobristHash(sideToMove)` when it does not throw. */
  function ZobristHash(keys: ZobristKeys, p: Position, sideToMove: ChessColor): ULong
    requires Hashable(p)
  {
    XorWord(XorKeys(keys, HashedPieces(p)), SideKey(keys, sideToMove))
  }

  /** XOR-ing in an Empty piece changes nothing. */
  lemma XorKeysSkip(keys: ZobristKeys, s: seq<BoardPiece>, piece: BoardPiece)
    requires AllKeyed(s)
    requires piece.chessPiece == ChessPiece.Empty
    ensures forall i | 0 <= i < |s + [piece]| :: Keyed((s + [piece])[i])
    ensures XorKeys(keys, s + [piece]) == XorKeys(keys, s)
  {
    assert (s + [piece])[..|s|] == s;
    XorZero(XorKeys(keys, s));
  }

  /** One more keyed piece XORs its key into the fold. */
  lemma XorKeysAppend(keys: ZobristKeys, s: seq<BoardPiece>, piece: BoardPiece)
    requires AllKeyed(s) && Keyed(piece)
    ensures AllKeyed(s + [piece])
    ensures XorKeys(keys, s + [piece]) == XorWord(XorKeys(keys, s), PieceKey(keys, piece))
  {
    assert (s + [piece])[..|s|] == s;
  }

  /** Taking the piece at `j` out of the fold removes exactly its key. */
  lemma {:induction false} XorKeysRemove(keys: ZobristKeys, t: seq<BoardPiece>, j: int)
    requires AllKeyed(t)
    requires 0 <= j < |t|
    ensures AllKeyed(Without(t, j))
    ensures XorKeys(keys, t) == XorWord(XorKeys(keys, Without(t, j)), PieceKey(keys, t[j]))
    decreases |t|
  {
    var n := |t|;
    if j == n - 1 {
      assert Without(t, j) == t[..n - 1];
    } else {
      var front := t[..n - 1];
      var rest := Without(front, j);
      XorKeysRemove(keys, front, j);
      assert Without(t, j) == rest + [t[n - 1]];
      assert (rest + [t[n - 1]])[..|rest|] == rest;
      XorRotate(XorKeys(keys, t), XorKeys(keys, front), XorKeys(keys, Without(t, j)),
                XorKeys(keys, rest), PieceKey(keys, t[j]), PieceKey(keys, t[n - 1]));
    }
  }

  /** The XOR step of `XorKeysRemove`: the key taken out last can be taken out first. */
  lemma XorRotate(whole: ULong, front: ULong, without: ULong, rest: ULong, key: ULong, last: ULong)
    requires whole == XorWord(front, last) && front == XorWord(rest, key) && without == XorWord(rest, last)
    ensures whole == XorWord(without, key)
  {
    XorSwap(rest, key, last);
  }

  /** The hash fold does not depend on the order of the pieces. */
  lemma {:induction false} XorKeysOrderFree(keys: ZobristKeys, s: seq<BoardPiece>, t: seq<BoardPiece>)
    requires AllKeyed(s)
    requires multiset(s) == multiset(t)
    ensures AllKeyed(t)
    ensures XorKeys(keys, s) == XorKeys(keys, t)
    decreases |s|
  {
    forall i | 0 <= i < |t| ensures Keyed(t[i]) {
      assert t[i] in multiset(s);
    }
    if s != [] {
      var n := |s|;
      var j := MatchLast(s, t);
      XorKeysRemove(keys, t, j);
      XorKeysOrderFree(keys, s[..n - 1], Without(t, j));
    }
  }

  /** The sequence with the element at `j` taken out. */
  function Without(t: seq<BoardPiece>, j: int): (r: seq<BoardPiece>)
    requires 0 <= j < |t|
    ensures |r| == |t| - 1
  {
    t[..j] + t[j + 1..]
  }

  /** A position of `t` holding the last element of its permutation `s`; the rest of both are still permutations of each other. */
  lemma MatchLast(s: seq<BoardPiece>, t: seq<BoardPiece>) returns (j: int)
    requires s != [] && multiset(s) == multiset(t)
    ensures 0 <= j < |t| && t[j] == s[|s| - 1]
    ensures multiset(s[..|s| - 1]) == multiset(Without(t, j))
  {
    var n := |s|;
    var x := s[n - 1];
    assert s == s[..n - 1] + [x];
    assert x in multiset(t);
    j :| 0 <= j < |t| && t[j] == x;
    assert t == t[..j] + [x] + t[j + 1..];
    assert multiset(s) == multiset(s[..n - 1]) + multiset{x};
    assert multiset(t) == multiset(Without(t, j)) + multiset{x};
    assert multiset(s[..n - 1]) == multiset(s) - multiset{x};
  }

  /** Two boards listing the same pieces, in any order and split in any way between the lists, hash alike. */
  lemma ZobristOrderFree(keys: ZobristKeys, p: Position, q: Position, sideToMove: ChessColor)
    requires Hashable(p)
    requires multiset(HashedPieces(p)) == multiset(HashedPieces(q))
    ensures Hashable(q)
    ensures ZobristHash(keys, p, sideToMove) == ZobristHash(keys, q, sideToMove)
  {
    XorKeysOrderFree(keys, HashedPieces(p), HashedPieces(q));
  }

  /** The White-to-move and Black-to-move hashes of one board differ by exactly `WhiteToMove ^ BlackToMove`. */
  lemma SideToMoveDiffers(keys: ZobristKeys, p: Position)
    requires Hashable(p)
    ensures XorWord(ZobristHash(keys, p, ChessColor.White), ZobristHash(keys, p, ChessColor.Black))
         == XorWord(keys.whiteToMove, keys.blackToMove)
  {
    XorCancel(XorKeys(keys, HashedPieces(p)), keys.whiteToMove, keys.blackToMove);
  }

  /** A board whose grid and lists agree never throws: its listed pieces are White or Black on declared squares. */
  lemma ConsistentHashable(p: Position)
    requires Consistent(p)
    ensures Hashable(p)
  {
  }
}
