/**
 * The passed-pawn bonus of `Evaluation.EvaluatePassedPawnBonus`. Ranks and
 * files here are the 0-based row and column of a square index (`idx / 8`
 * and `idx % 8`). For every pawn the code builds the mask of the squares
 * ahead of it on its own and the two neighbouring files (its cone); a pawn
 * with no enemy pawn in the cone is passed and earns a bonus, larger when
 * nothing at all stands on its own file ahead of it.
 *
 * The mask loops and the path loops of the source are the methods
 * `ConeMaskOf` and `ClearPathAhead` here. Each loop is specified by a
 * function that continues the loop from a given state (`RowFill`,
 * `WhiteFill`, `BlackFill`), and the meaning of the mask is proved about
 * those functions.
 */
module PassedPawns {
  import opened Bits

  // ---------------------------------------------------------------------------
  // The cone

  /**
   * The inner mask loop continued from file `f`: set the square of row `r`
   * on every file `f .. last` that lies on the board.
   */
  function RowFill(mask: bv64, r: int, f: int, last: int): bv64
    requires 0 <= r < 8
    decreases last + 1 - f
  {
    if f > last then mask
    else RowFill(Put(mask, r, f), r, f + 1, last)
  }

  /** One step of the inner loop: set the square on row `r` and file `f`, unless the file is off the board. */
  function Put(mask: bv64, r: int, f: int): bv64
    requires 0 <= r < 8
  {
    if f < 0 || f >= 8 then mask else mask | Square(IndexOf(r * 8 + f))
  }

  /** A white pawn's mask loop continued from row `r`: fill rows `r .. 7`. */
  function WhiteFill(mask: bv64, file: int, r: int): bv64
    requires 0 <= r <= 8
    decreases 8 - r
  {
    if r == 8 then mask else WhiteFill(RowFill(mask, r, file - 1, file + 1), file, r + 1)
  }

  /** A black pawn's mask loop continued from row `r`: fill rows `r` down to 0. */
  function BlackFill(mask: bv64, file: int, r: int): bv64
    requires -1 <= r < 8
    decreases r + 1
  {
    if r == -1 then mask else BlackFill(RowFill(mask, r, file - 1, file + 1), file, r - 1)
  }

  /** The mask the loops build for a pawn on row `rank` and file `file`. */
  function ConeMask(isWhite: bool, rank: int, file: int): bv64
    requires 0 <= rank < 8
  {
    if isWhite then WhiteFill(0, file, rank + 1) else BlackFill(0, file, rank - 1)
  }

  /** Row `r` lies ahead of a pawn on row `rank`: above it for White, below it for Black. */
  predicate Ahead(isWhite: bool, rank: int, r: int)
  {
    if isWhite then rank < r else r < rank
  }

  /** Square `k` is in the cone: ahead of the pawn, at most one file away. */
  predicate InCone(isWhite: bool, rank: int, file: int, k: bv6)
  {
    Ahead(isWhite, rank, k as int / 8) && file - 1 <= k as int % 8 <= file + 1
  }

  /** The index `r * 8 + f` is the square on row `r` and file `f`. */
  lemma IndexOfSquareAt(k: bv6, r: int, f: int)
    requires 0 <= r < 8 && 0 <= f < 8
    ensures k == IndexOf(r * 8 + f) <==> k as int / 8 == r && k as int % 8 == f
  {
    IndexOfValue(r * 8 + f);
    SixBitEq(k, IndexOf(r * 8 + f));
  }

  /** The row loop adds exactly the squares of row `r` on files `f .. last`. */
  lemma {:induction false} RowFillHas(mask: bv64, r: int, f: int, last: int, k: bv6)
    requires 0 <= r < 8
    ensures Has(RowFill(mask, r, f, last), k) <==> Has(mask, k) || (k as int / 8 == r && f <= k as int % 8 <= last)
    decreases last + 1 - f
  {
    if f <= last {
      RowFillHas(Put(mask, r, f), r, f + 1, last, k);
      PutHas(mask, r, f, k);
    }
  }

  /** A step adds the square on row `r` and file `f` when that file is on the board, and nothing else. */
  lemma PutHas(mask: bv64, r: int, f: int, k: bv6)
    requires 0 <= r < 8
    ensures Has(Put(mask, r, f), k) <==> Has(mask, k) || (k as int / 8 == r && k as int % 8 == f)
  {
    if 0 <= f < 8 {
      AddSquareAt(Put(mask, r, f), mask, IndexOf(r * 8 + f), r, f, k);
    }
  }

  /** Setting the square on row `r` and file `f` adds exactly that square. */
  lemma AddSquareAt(added: bv64, mask: bv64, j: bv6, r: int, f: int, k: bv6)
    requires 0 <= r < 8 && 0 <= f < 8 && j == IndexOf(r * 8 + f) && added == mask | Square(j)
    ensures Has(added, k) <==> Has(mask, k) || (k as int / 8 == r && k as int % 8 == f)
  {
    HasStep(added, mask, j, k);
    IndexOfSquareAt(k, r, f);
  }

  /** The white loop adds exactly the squares of rows `r .. 7` near the pawn's file. */
  lemma {:induction false} WhiteFillHas(mask: bv64, file: int, r: int, k: bv6)
    requires 0 <= r <= 8
    ensures Has(WhiteFill(mask, file, r), k) <==> Has(mask, k) || (r <= k as int / 8 && file - 1 <= k as int % 8 <= file + 1)
    decreases 8 - r
  {
    if r < 8 {
      WhiteFillHas(RowFill(mask, r, file - 1, file + 1), file, r + 1, k);
      RowFillHas(mask, r, file - 1, file + 1, k);
    }
  }

  /** The black loop adds exactly the squares of rows `r` down to 0 near the pawn's file. */
  lemma {:induction false} BlackFillHas(mask: bv64, file: int, r: int, k: bv6)
    requires -1 <= r < 8
    ensures Has(BlackFill(mask, file, r), k) <==> Has(mask, k) || (k as int / 8 <= r && file - 1 <= k as int % 8 <= file + 1)
    decreases r + 1
  {
    if r >= 0 {
      BlackFillHas(RowFill(mask, r, file - 1, file + 1), file, r - 1, k);
      RowFillHas(mask, r, file - 1, file + 1, k);
    }
  }

  /** The mask holds exactly the squares of the cone. */
  lemma ConeMaskHas(isWhite: bool, rank: int, file: int, k: bv6)
    requires 0 <= rank < 8
    ensures Has(ConeMask(isWhite, rank, file), k) <==> InCone(isWhite, rank, file, k)
  {
    HasZero(k);
    if isWhite {
      WhiteFillHas(0, file, rank + 1, k);
    } else {
      BlackFillHas(0, file, rank - 1, k);
    }
  }

  lemma ConeMaskHasAll(isWhite: bool, rank: int, file: int)
    requires 0 <= rank < 8
    ensures forall k :: Has(ConeMask(isWhite, rank, file), k) <==> InCone(isWhite, rank, file, k)
  {
    forall k {
      ConeMaskHas(isWhite, rank, file, k);
    }
  }

  /** No enemy pawn stands in the cone: the pawn is passed. */
  ghost predicate Passed(enemy: bv64, isWhite: bool, rank: int, file: int)
  {
    forall k :: Has(enemy, k) ==> !InCone(isWhite, rank, file, k)
  }

  /** The test `(enemyPawns & mask) == 0` holds exactly when the pawn is passed. */
  lemma ConeFree(enemy: bv64, mask: bv64, isWhite: bool, rank: int, file: int)
    requires 0 <= rank < 8 && mask == ConeMask(isWhite, rank, file)
    ensures enemy & mask == 0 <==> Passed(enemy, isWhite, rank, file)
  {
    ConeMaskHasAll(isWhite, rank, file);
    MissesCone(enemy, mask, isWhite, rank, file);
  }

  lemma MissesCone(enemy: bv64, mask: bv64, isWhite: bool, rank: int, file: int)
    requires forall k :: Has(mask, k) <==> InCone(isWhite, rank, file, k)
    ensures enemy & mask == 0 <==> Passed(enemy, isWhite, rank, file)
  {
    if enemy & mask == 0 {
      forall k | Has(enemy, k)
        ensures !InCone(isWhite, rank, file, k)
      {
        DisjointMiss(enemy, mask, k);
      }
    } else {
      var k := CommonIndex(enemy, mask);
    }
  }

  /** Setting the square of an on-board file is the step the row loop takes. */
  lemma RowFillStep(mask: bv64, next: bv64, r: int, f: int, last: int, bitIndex: int, bit: bv64)
    requires 0 <= r < 8 && 0 <= f < 8 && f <= last && bitIndex == r * 8 + f
    requires bit == Square(IndexOf(bitIndex)) && next == mask | bit
    ensures RowFill(mask, r, f, last) == RowFill(next, r, f + 1, last)
  {
  }

  /** A file off the board is skipped. */
  lemma RowFillSkip(mask: bv64, r: int, f: int, last: int)
    requires 0 <= r < 8 && (f < 0 || f >= 8) && f <= last
    ensures RowFill(mask, r, f, last) == RowFill(mask, r, f + 1, last)
  {
  }

  /**
   * The inner mask loop: for every file from `file - 1` to `file + 1`,
   * skipping files off the board, set the square `1UL << (r * 8 + f)`.
   */
  method FillRow(mask0: bv64, r: int, file: int) returns (mask: bv64)
    requires 0 <= r < 8
    ensures mask == RowFill(mask0, r, file - 1, file + 1)
  {
    mask := mask0;
    for f := file - 1 to file + 2
      invariant RowFill(mask, r, f, file + 1) == RowFill(mask0, r, file - 1, file + 1)
    {
      if f < 0 || f >= 8 {
        RowFillSkip(mask, r, f, file + 1);
        continue;
      }
      var bitIndex := r * 8 + f;
      var bit := Square(IndexOf(bitIndex));
      RowFillStep(mask, mask | bit, r, f, file + 1, bitIndex, bit);
      mask := mask | bit;
    }
  }

  /**
   * The outer mask loops: every row ahead of the pawn, nearest first, gets
   * its squares on the pawn's file and the two files beside it.
   */
  method ConeMaskOf(isWhite: bool, rank: int, file: int) returns (mask: bv64)
    requires 0 <= rank < 8
    ensures mask == ConeMask(isWhite, rank, file)
  {
    mask := 0;
    if isWhite {
      for r := rank + 1 to 8
        invariant WhiteFill(mask, file, r) == ConeMask(isWhite, rank, file)
      {
        mask := FillRow(mask, r, file);
      }
    } else {
      for r := rank downto 0
        invariant BlackFill(mask, file, r - 1) == ConeMask(isWhite, rank, file)
      {
        mask := FillRow(mask, r, file);
      }
    }
  }

  // ---------------------------------------------------------------------------
  // The pawn's own file

  /** The square on row `r` of file `file`. */
  function FileSquare(r: int, file: int): bv6
    requires 0 <= r < 8 && 0 <= file < 8
  {
    IndexOf(r * 8 + file)
  }

  /** Nothing, of either colour, stands on the pawn's file ahead of it. */
  ghost predicate PathClear(occupied: bv64, isWhite: bool, rank: int, file: int)
  {
    forall k :: Has(occupied, k) && k as int % 8 == file ==> !Ahead(isWhite, rank, k as int / 8)
  }

  /** Every row ahead is free on the pawn's file, so the path is clear. */
  lemma RowsClear(occupied: bv64, isWhite: bool, rank: int, file: int)
    requires 0 <= file < 8
    requires forall r :: 0 <= r < 8 && Ahead(isWhite, rank, r) ==> !Has(occupied, FileSquare(r, file))
    ensures PathClear(occupied, isWhite, rank, file)
  {
    forall k | Has(occupied, k) && k as int % 8 == file
      ensures !Ahead(isWhite, rank, k as int / 8)
    {
      var r := k as int / 8;
      IndexOfSquareAt(k, r, file);
    }
  }

  /** A piece on the pawn's file ahead of it blocks the path. */
  lemma PathBlocked(occupied: bv64, isWhite: bool, rank: int, file: int, r: int)
    requires 0 <= r < 8 && 0 <= file < 8 && Ahead(isWhite, rank, r) && Has(occupied, FileSquare(r, file))
    ensures !PathClear(occupied, isWhite, rank, file)
  {
    IndexOfSquareAt(FileSquare(r, file), r, file);
  }

  /** The test `(occupied & (1UL << bitIndex)) != 0` of the path loops. */
  lemma HitIsHas(occupied: bv64, r: int, file: int, bitIndex: int, bit: bv64, hit: bool)
    requires 0 <= r < 8 && 0 <= file < 8 && bitIndex == r * 8 + file
    requires bit == Square(IndexOf(bitIndex)) && hit == (occupied & bit != 0)
    ensures hit == Has(occupied, FileSquare(r, file))
  {
  }

  /**
   * The path loops: walk the pawn's file ahead of it, nearest square first,
   * and stop at the first occupied square.
   */
  method ClearPathAhead(occupied: bv64, isWhite: bool, rank: int, file: int) returns (clearPath: bool)
    requires 0 <= rank < 8 && 0 <= file < 8
    ensures clearPath == PathClear(occupied, isWhite, rank, file)
  {
    clearPath := true;
    if isWhite {
      for r := rank + 1 to 8
        invariant forall r' :: rank < r' < r ==> !Has(occupied, FileSquare(r', file))
      {
        var bitIndex := r * 8 + file;
        var bit := Square(IndexOf(bitIndex));
        var hit := occupied & bit != 0;
        HitIsHas(occupied, r, file, bitIndex, bit, hit);
        if hit {
          PathBlocked(occupied, isWhite, rank, file, r);
          clearPath := false;
          break;
        }
      }
    } else {
      for r := rank downto 0
        invariant forall r' :: r <= r' < rank ==> !Has(occupied, FileSquare(r', file))
      {
        var bitIndex := r * 8 + file;
        var bit := Square(IndexOf(bitIndex));
        var hit := occupied & bit != 0;
        HitIsHas(occupied, r, file, bitIndex, bit, hit);
        if hit {
          PathBlocked(occupied, isWhite, rank, file, r);
          clearPath := false;
          break;
        }
      }
    }
    if clearPath {
      RowsClear(occupied, isWhite, rank, file);
    }
  }

  // ---------------------------------------------------------------------------
  // The bonus

  /** Rows still to go before promotion: `isWhite ? (7 - rank) : rank`. */
  function Distance(isWhite: bool, rank: int): int
  {
    if isWhite then 7 - rank else rank
  }

  /** `pawnBonus`: 300 with a clear path and 150 without, plus 50 per row already advanced. */
  function PawnBonus(clearPath: bool, distance: int): int
  {
    (if clearPath then 300 else 150) + (7 - distance) * 50
  }

  /**
   * What the pawn on square `idx` contributes: nothing unless it is passed,
   * and then the bonus for its path (blocked by a piece of either colour)
   * and its distance to promotion.
   */
  ghost function PassedWeight(own: bv64, enemy: bv64, isWhite: bool, idx: int): int
    requires 0 <= idx < 64
  {
    var rank := idx / 8;
    var file := idx % 8;
    if Passed(enemy, isWhite, rank, file) then
      PawnBonus(PathClear(own | enemy, isWhite, rank, file), Distance(isWhite, rank))
    else 0
  }

  /** The weight of a square, as a function of its one-bit word. */
  ghost function PassedWeights(own: bv64, enemy: bv64, isWhite: bool): bv64 -> int
  {
    s => PassedWeight(own, enemy, isWhite, Index(s) as int)
  }

  /** The passed-pawn bonus: the sum of the weights of the own pawns. */
  ghost function PassedBonus(own: bv64, enemy: bv64, isWhite: bool): int
  {
    SumBits(own, PassedWeights(own, enemy, isWhite))
  }

  /** One turn of the pawn loop: the lowest pawn's weight, and the rest of the word. */
  lemma PassedStep(pawns: bv64, rest: bv64, own: bv64, enemy: bv64, isWhite: bool, idx: int)
    requires pawns != 0 && rest == pawns & (pawns - 1) && idx == TrailingZeroCount(pawns)
    ensures rest < pawns && 0 <= idx < 64
    ensures SumBits(pawns, PassedWeights(own, enemy, isWhite))
         == PassedWeight(own, enemy, isWhite, idx) + SumBits(rest, PassedWeights(own, enemy, isWhite))
  {
    SumBitsPop(pawns, rest, PassedWeights(own, enemy, isWhite));
  }

  /**
   * `Evaluation.EvaluatePassedPawnBonus`: visit the own pawns from the
   * lowest square up, and add the bonus of every passed one.
   */
  method EvaluatePassedPawnBonus(ownPawns: bv64, enemyPawns: bv64, isWhite: bool) returns (bonus: int)
    ensures bonus == PassedBonus(ownPawns, enemyPawns, isWhite)
  {
    bonus := 0;
    var pawns := ownPawns;
    var occupied := ownPawns | enemyPawns;
    while pawns != 0
      invariant bonus + SumBits(pawns, PassedWeights(ownPawns, enemyPawns, isWhite)) == PassedBonus(ownPawns, enemyPawns, isWhite)
      decreases pawns
    {
      var idx := TrailingZeroCount(pawns);
      var rest := pawns & (pawns - 1);
      PassedStep(pawns, rest, ownPawns, enemyPawns, isWhite, idx);
      pawns := rest;
      var rank := idx / 8;
      var file := idx % 8;
      var mask := ConeMaskOf(isWhite, rank, file);
      var free := enemyPawns & mask == 0;
      ConeFree(enemyPawns, mask, isWhite, rank, file);
      if free {
        var clearPath := ClearPathAhead(occupied, isWhite, rank, file);
        var distance := if isWhite then 7 - rank else rank;
        var pawnBonus := (if clearPath then 300 else 150) + ((7 - distance) * 50);
        bonus := bonus + pawnBonus;
      }
    }
  }

  /**
   * A pawn earns nothing unless it is passed, and a passed pawn earns 150 to
   * 500 with its path blocked and 300 to 650 with it clear.
   */
  lemma PassedWeightBounds(own: bv64, enemy: bv64, isWhite: bool, idx: int)
    requires 0 <= idx < 64
    ensures PassedWeight(own, enemy, isWhite, idx) != 0 <==> Passed(enemy, isWhite, idx / 8, idx % 8)
    ensures 0 <= PassedWeight(own, enemy, isWhite, idx) <= 650
    ensures Passed(enemy, isWhite, idx / 8, idx % 8) ==>
      if PathClear(own | enemy, isWhite, idx / 8, idx % 8) then 300 <= PassedWeight(own, enemy, isWhite, idx)
      else 150 <= PassedWeight(own, enemy, isWhite, idx) <= 500
  {
  }

  /** The bonus lies between 0 and 650 per own pawn. */
  lemma PassedBonusBounds(own: bv64, enemy: bv64, isWhite: bool)
    ensures 0 <= PassedBonus(own, enemy, isWhite) <= 650 * PopCount(own)
  {
    var w := PassedWeights(own, enemy, isWhite);
    forall s | IsSquare(s)
      ensures 0 <= w(s) <= 650
    {
      PassedWeightBounds(own, enemy, isWhite, Index(s) as int);
    }
    SumBounds(own, w, 0, 650);
  }

  /** Without enemy pawns every own pawn is passed and earns at least 150. */
  lemma NoEnemyAllPassed(own: bv64, isWhite: bool)
    ensures PassedBonus(own, 0, isWhite) >= 150 * PopCount(own)
  {
    var w := PassedWeights(own, 0, isWhite);
    forall s | IsSquare(s)
      ensures 150 <= w(s) <= 650
    {
      var idx := Index(s) as int;
      forall k
        ensures !Has(0, k)
      {
        HasZero(k);
      }
      PassedWeightBounds(own, 0, isWhite, idx);
    }
    SumBounds(own, w, 150, 650);
  }
}
