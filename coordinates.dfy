/**
 * Ranks and files of the board (ChessRank.cs, ChessFile.cs).
 *
 * Both are C# enums backed by `ushort`, so a value of either type may be any
 * 16-bit number, not only a declared member: the setup parser and the move
 * generator cast integers into them unchecked. The newtypes below therefore
 * range over 0 .. 65535, and the declared members are constants.
 */
module Coordinates {

  /** The values of an unsigned 16-bit integer. */
  type UShort = x: int | 0 <= x < 0x1_0000

  newtype ChessRank = x: int | 0 <= x < 0x1_0000
  newtype ChessFile = x: int | 0 <= x < 0x1_0000

  const One: ChessRank := 1
  const Two: ChessRank := 2
  const Three: ChessRank := 3
  const Four: ChessRank := 4
  const Five: ChessRank := 5
  const Six: ChessRank := 6
  const Seven: ChessRank := 7
  const Eight: ChessRank := 8

  const A: ChessFile := 0
  const B: ChessFile := 1
  const C: ChessFile := 2
  const D: ChessFile := 3
  const E: ChessFile := 4
  const F: ChessFile := 5
  const G: ChessFile := 6
  const H: ChessFile := 7

  /** The declared members, in declaration order. */
  function DeclaredRanks(): seq<ChessRank> { [One, Two, Three, Four, Five, Six, Seven, Eight] }
  function DeclaredFiles(): seq<ChessFile> { [A, B, C, D, E, F, G, H] }

  predicate IsDeclaredRank(r: ChessRank) { One <= r <= Eight }
  predicate IsDeclaredFile(f: ChessFile) { f <= H }

  /** An unchecked conversion of an int to a ushort-backed type keeps the low 16 bits. */
  function Wrap16(x: int): UShort { x % 0x1_0000 }

  /** `ChessRank.ToIndex`: `(ushort)(rank - 1)`. */
  function RankToIndex(rank: ChessRank): (i: UShort)
    ensures IsDeclaredRank(rank) <==> i < 8
    ensures IsDeclaredRank(rank) ==> i == rank as int - 1
  {
    Wrap16(rank as int - 1)
  }

  /** `ushort.FromIndex`: `(ChessRank)(index + 1)`. */
  function RankFromIndex(index: UShort): (r: ChessRank)
    ensures index < 8 <==> IsDeclaredRank(r)
    ensures index < 8 ==> r as int == index + 1
  {
    Wrap16(index + 1) as ChessRank
  }

  /** `ChessFile.ToIndex`: `(ushort)file`. */
  function FileToIndex(file: ChessFile): (i: UShort)
    ensures IsDeclaredFile(file) <==> i < 8
  {
    file as int
  }

  /** Declared ranks carry the values 1 .. 8 in order, and they are exactly the ranks in that range. */
  lemma DeclaredRankValues()
    ensures forall k :: 0 <= k < 8 ==> DeclaredRanks()[k] as int == k + 1
    ensures forall r: ChessRank :: r in DeclaredRanks() <==> IsDeclaredRank(r)
  {
  }

  /** Declared files carry the values 0 .. 7 in order, and they are exactly the files in that range. */
  lemma DeclaredFileValues()
    ensures forall k :: 0 <= k < 8 ==> DeclaredFiles()[k] as int == k
    ensures forall f: ChessFile :: f in DeclaredFiles() <==> IsDeclaredFile(f)
  {
  }

  /** `FromIndex` undoes `ToIndex`, for every 16-bit rank value and not only the declared ones. */
  lemma RankRoundTrip(r: ChessRank)
    ensures RankFromIndex(RankToIndex(r)) == r
  {
  }

  /** `ToIndex` undoes `FromIndex` for every index. */
  lemma IndexRoundTrip(i: UShort)
    ensures RankToIndex(RankFromIndex(i)) == i
  {
  }

  /** `ToIndex` is strictly increasing on the declared ranks. */
  lemma RankToIndexMonotonic(r1: ChessRank, r2: ChessRank)
    requires IsDeclaredRank(r1) && IsDeclaredRank(r2) && r1 < r2
    ensures RankToIndex(r1) < RankToIndex(r2)
  {
  }

  /** Casting a file's index back to `ChessFile` gives the file, so `ToIndex` is injective. */
  lemma FileIndexRoundTrip(f1: ChessFile, f2: ChessFile)
    ensures FileToIndex(f1) as ChessFile == f1
    ensures FileToIndex(f1) == FileToIndex(f2) ==> f1 == f2
  {
  }
}
