/**
 * Reading a 64-bit word (the C# `ulong` of a bitboard) as a set of squares.
 * Bit `i` stands for square `i`: a1 is 0, h1 is 7, a8 is 56 and h8 is 63.
 * A square index is a `bv6` (0 .. 63), and a square is handled as its
 * one-bit word, so that "square `s` is in `x`" is `x & s != 0`. Sums over
 * the set squares are taken lowest square first, the order in which
 * `BitOperations.TrailingZeroCount` and `x & (x - 1)` visit them.
 */
module Bits {
  /** `s` has exactly one bit set: it is the word of one square. */
  predicate IsSquare(s: bv64)
  {
    s != 0 && s & (s - 1) == 0
  }

  /** `1UL << i`: the word of square `i`. */
  function Square(i: bv6): bv64
  {
    1 << i
  }

  /** The index of the square of a one-bit word, read off bit by bit. */
  function Index(s: bv64): bv6
  {
    (if s & 0xFFFF_FFFF_0000_0000 != 0 then 32 else 0) | (if s & 0xFFFF_0000_FFFF_0000 != 0 then 16 else 0)
    | (if s & 0xFF00_FF00_FF00_FF00 != 0 then 8 else 0) | (if s & 0xF0F0_F0F0_F0F0_F0F0 != 0 then 4 else 0)
    | (if s & 0xCCCC_CCCC_CCCC_CCCC != 0 then 2 else 0) | (if s & 0xAAAA_AAAA_AAAA_AAAA != 0 then 1 else 0)
  }

  /** `Square(i)` has one bit, and `Index` reads `i` back from it. */
  lemma SquareIndex(i: bv6)
    ensures IsSquare(Square(i)) && Index(Square(i)) == i
  {
  }

  /** Every one-bit word is the square of its index. */
  lemma IndexSquare(s: bv64)
    requires IsSquare(s)
    ensures Square(Index(s)) == s
  {
  }

  /** Two one-bit words that meet are equal. */
  lemma SquaresMeet(a: bv64, b: bv64)
    requires IsSquare(a) && IsSquare(b)
    ensures a & b != 0 ==> a == b
  {
  }

  /** Two squares meet exactly when their indices agree. */
  lemma SquaresMeetIff(i: bv6, j: bv6)
    ensures Square(i) & Square(j) != 0 <==> i == j
  {
  }

  /** The index `n` as six bits, counted up one at a time. */
  function IndexOf(n: int): bv6
    requires 0 <= n < 64
  {
    if n == 0 then 0 else IndexOf(n - 1) + 1
  }

  lemma SixBitStep(i: bv6)
    requires i < 63
    ensures (i + 1) as int == i as int + 1
  {
  }

  /** `IndexOf` keeps the value. */
  lemma {:induction false} IndexOfValue(n: int)
    requires 0 <= n < 64
    ensures IndexOf(n) as int == n
  {
    if n > 0 {
      IndexOfValue(n - 1);
      SixBitStep(IndexOf(n - 1));
    }
  }

  lemma SixBitEq(a: bv6, b: bv6)
    ensures a == b <==> a as int == b as int
  {
  }

  /** Different indices give different bits. */
  lemma IndexOfInjective(a: int, b: int)
    requires 0 <= a < 64 && 0 <= b < 64
    ensures IndexOf(a) == IndexOf(b) <==> a == b
  {
    IndexOfValue(a);
    IndexOfValue(b);
    SixBitEq(IndexOf(a), IndexOf(b));
  }

  /** The file (`i % 8`) and rank (`i / 8`) of a square index, read off its bits. */
  lemma IndexParts(i: bv6)
    ensures (i & 7) as int == (i as int) % 8 && (i >> 3) as int == (i as int) / 8
  {
  }

  /** The lowest set bit of `x`, as a word (`x & ~(x - 1)`, the same word as `x & -x`). */
  function Lowest(x: bv64): bv64
  {
    x & !(x - 1)
  }

  lemma LowestIsSquare(x: bv64)
    requires x != 0
    ensures IsSquare(Lowest(x))
  {
  }

  /** `x & (x - 1)` is `x` without its lowest square, which is in `x`. */
  lemma LowestSplit(x: bv64)
    requires x != 0
    ensures IsSquare(Lowest(x))
    ensures (x & (x - 1)) & Lowest(x) == 0
    ensures (x & (x - 1)) | Lowest(x) == x
  {
    LowestIsSquare(x);
  }

  lemma ClearLowestSmaller(x: bv64)
    requires x != 0
    ensures x & (x - 1) < x
  {
  }

  lemma LowestOfSquare(s: bv64)
    requires IsSquare(s)
    ensures Lowest(s) == s && s & (s - 1) == 0
  {
  }

  /**
   * `BitOperations.TrailingZeroCount`: the index of the lowest set bit, 64
   * for the zero word.
   */
  function TrailingZeroCount(x: bv64): (t: int)
    ensures 0 <= t <= 64
    ensures t == 64 <==> x == 0
  {
    if x == 0 then 64 else Index(Lowest(x)) as int
  }

  /** The trailing-zero count names the lowest square. */
  lemma TrailingZeroCountIsLowest(x: bv64)
    requires x != 0
    ensures TrailingZeroCount(x) == Index(Lowest(x)) as int
    ensures Square(Index(Lowest(x))) == Lowest(x)
  {
    LowestIsSquare(x);
    IndexSquare(Lowest(x));
  }

  /** The sum of `w(s)` over the squares `s` of `x`, taken lowest first. */
  function SumBits(x: bv64, w: bv64 -> int): int
    decreases x
  {
    if x == 0 then 0
    else
      ClearLowestSmaller(x);
      w(Lowest(x)) + SumBits(x & (x - 1), w)
  }

  /** `BitOperations.PopCount`: the number of set bits. */
  /**
   * One step of a loop over the set bits: the lowest bit is at index
   * `TrailingZeroCount(x)`, clearing it leaves a smaller word, and the sum
   * is the weight of that bit plus the sum over the rest.
   */
  lemma SumBitsPop(x: bv64, next: bv64, w: bv64 -> int)
    requires x != 0 && next == x & (x - 1)
    ensures next < x
    ensures TrailingZeroCount(x) == Index(Lowest(x)) as int
    ensures SumBits(x, w) == w(Lowest(x)) + SumBits(next, w)
  {
    ClearLowestSmaller(x);
    TrailingZeroCountIsLowest(x);
  }

  function PopCount(x: bv64): nat
    decreases x
  {
    if x == 0 then 0
    else
      ClearLowestSmaller(x);
      1 + PopCount(x & (x - 1))
  }

  // ---------------------------------------------------------------------------
  // The same sum taken square by square, index 0 first. It serves to prove
  // that sums over disjoint words add up.

  /** The weight square `i` contributes to a sum over `x`. */
  function Term(x: bv64, w: bv64 -> int, i: bv6): int
  {
    if x & Square(i) != 0 then w(Square(i)) else 0
  }

  /** The sum of `Term(x, w, i)` over the indices `i < n`. */
  function SumBelow(x: bv64, w: bv64 -> int, n: bv7): int
    requires n <= 64
  {
    if n == 0 then 0 else SumBelow(x, w, n - 1) + Term(x, w, (n - 1) as bv6)
  }

  lemma MeetUnion(x: bv64, y: bv64, b: bv64)
    ensures (x | y) & b == (x & b) | (y & b)
  {
  }

  lemma NonZeroUnion(u: bv64, v: bv64)
    ensures u | v != 0 <==> u != 0 || v != 0
  {
  }

  /** `x | s` meets `b` exactly when `x` or `s` does. */
  lemma UnionMeets(x: bv64, s: bv64, b: bv64)
    ensures (x | s) & b != 0 <==> x & b != 0 || s & b != 0
  {
    MeetUnion(x, s, b);
    NonZeroUnion(x & b, s & b);
  }

  lemma MeetSquare(x: bv64, b: bv64)
    requires IsSquare(b)
    ensures x & b == 0 || x & b == b
  {
  }

  lemma MeetBoth(x: bv64, y: bv64, b: bv64)
    requires x & y == 0 && b != 0 && (x & b == 0 || x & b == b) && (y & b == 0 || y & b == b)
    ensures !(x & b != 0 && y & b != 0)
  {
  }

  lemma TermDisjoint(x: bv64, y: bv64, w: bv64 -> int, i: bv6)
    requires x & y == 0
    ensures Term(x | y, w, i) == Term(x, w, i) + Term(y, w, i)
  {
    var s := Square(i);
    SquareIndex(i);
    UnionMeets(x, y, s);
    MeetSquare(x, s);
    MeetSquare(y, s);
    MeetBoth(x, y, s);
  }

  lemma {:induction false} SumBelowDisjoint(x: bv64, y: bv64, w: bv64 -> int, n: bv7)
    requires x & y == 0 && n <= 64
    ensures SumBelow(x | y, w, n) == SumBelow(x, w, n) + SumBelow(y, w, n)
  {
    if n > 0 {
      SumBelowDisjoint(x, y, w, n - 1);
      TermDisjoint(x, y, w, (n - 1) as bv6);
    }
  }

  lemma TermSquare(i: bv6, w: bv64 -> int, j: bv6)
    ensures Term(Square(i), w, j) == if i == j then w(Square(i)) else 0
  {
    SquaresMeetIff(i, j);
  }

  lemma {:induction false} SumBelowSquare(i: bv6, w: bv64 -> int, n: bv7)
    requires n <= 64
    ensures SumBelow(Square(i), w, n) == if (i as bv7) < n then w(Square(i)) else 0
  {
    if n > 0 {
      SumBelowSquare(i, w, n - 1);
      TermSquare(i, w, (n - 1) as bv6);
    }
  }

  lemma {:induction false} SumBelowZero(w: bv64 -> int, n: bv7)
    requires n <= 64
    ensures SumBelow(0, w, n) == 0
  {
    if n > 0 {
      SumBelowZero(w, n - 1);
    }
  }

  lemma SumBelowSplit(x: bv64, u: bv64, s: bv64, w: bv64 -> int)
    requires IsSquare(s) && u & s == 0 && u | s == x
    ensures SumBelow(x, w, 64) == w(s) + SumBelow(u, w, 64)
  {
    IndexSquare(s);
    SumBelowDisjoint(u, s, w, 64);
    SumBelowSquare(Index(s), w, 64);
  }

  lemma SumBelowPop(x: bv64, w: bv64 -> int)
    requires x != 0
    ensures SumBelow(x, w, 64) == w(Lowest(x)) + SumBelow(x & (x - 1), w, 64)
  {
    LowestSplit(x);
    SumBelowSplit(x, x & (x - 1), Lowest(x), w);
  }

  /** Taking the squares lowest first or index by index gives the same sum. */
  lemma {:induction false} SumBitsBySquare(x: bv64, w: bv64 -> int)
    ensures SumBits(x, w) == SumBelow(x, w, 64)
    decreases x
  {
    if x == 0 {
      SumBelowZero(w, 64);
    } else {
      ClearLowestSmaller(x);
      SumBitsBySquare(x & (x - 1), w);
      SumBelowPop(x, w);
    }
  }

  /** Sums over disjoint words add up. */
  lemma SumDisjoint(x: bv64, y: bv64, w: bv64 -> int)
    requires x & y == 0
    ensures SumBits(x | y, w) == SumBits(x, w) + SumBits(y, w)
  {
    SumBitsBySquare(x, w);
    SumBitsBySquare(y, w);
    SumBitsBySquare(x | y, w);
    SumBelowDisjoint(x, y, w, 64);
  }

  /** The sum over one square is its weight. */
  lemma SumSquare(s: bv64, w: bv64 -> int)
    requires IsSquare(s)
    ensures SumBits(s, w) == w(s)
  {
    LowestOfSquare(s);
  }

  /** The weight that counts squares. */
  function UnitWeight(s: bv64): int
  {
    1
  }

  /** `PopCount` is the sum of weight one. */
  lemma {:induction false} PopCountIsSum(x: bv64)
    ensures PopCount(x) == SumBits(x, UnitWeight)
    decreases x
  {
    if x != 0 {
      ClearLowestSmaller(x);
      PopCountIsSum(x & (x - 1));
    }
  }

  /** With every weight between `lo` and `hi`, the sum lies between `lo` and `hi` times the number of squares. */
  lemma {:induction false} SumBounds(x: bv64, w: bv64 -> int, lo: int, hi: int)
    requires forall s :: IsSquare(s) ==> lo <= w(s) <= hi
    ensures lo * PopCount(x) <= SumBits(x, w) <= hi * PopCount(x)
    decreases x
  {
    if x != 0 {
      ClearLowestSmaller(x);
      LowestIsSquare(x);
      SumBounds(x & (x - 1), w, lo, hi);
      var n := PopCount(x & (x - 1));
      assert lo * (n + 1) == lo * n + lo && hi * (n + 1) == hi * n + hi;
    }
  }

  /** A word has at most 64 set bits. */
  lemma PopCountAtMost64(x: bv64)
    ensures PopCount(x) <= 64
  {
    PopCountIsSum(x);
    SumBitsBySquare(x, UnitWeight);
    SumBelowUnit(x, 64);
  }

  lemma {:induction false} SumBelowUnit(x: bv64, n: bv7)
    requires n <= 64
    ensures SumBelow(x, UnitWeight, n) <= n as int
  {
    if n != 0 {
      SumBelowUnit(x, n - 1);
    }
  }

  lemma SplitBySubset(x: bv64, m: bv64)
    requires x & !m == 0
    ensures x & (m & !x) == 0 && x | (m & !x) == m
  {
  }

  /** A word inside `m` has no more squares than `m`. */
  lemma PopCountSubset(x: bv64, m: bv64)
    requires x & !m == 0
    ensures PopCount(x) <= PopCount(m)
  {
    PopCountIsSum(x);
    PopCountIsSum(m & !x);
    PopCountIsSum(m);
    SplitBySubset(x, m);
    SumDisjoint(x, m & !x, UnitWeight);
  }

  /** Adding a square not yet in `x` adds one to the count. */
  lemma PopCountAddSquare(x: bv64, s: bv64)
    requires IsSquare(s) && x & s == 0
    ensures PopCount(x | s) == PopCount(x) + 1
  {
    PopCountIsSum(x);
    PopCountIsSum(s);
    PopCountIsSum(x | s);
    SumDisjoint(x, s, UnitWeight);
    SumSquare(s, UnitWeight);
  }

  // ---------------------------------------------------------------------------
  // The word of a list of square indices

  /** The word with the squares of the indices `ks`, set one after the other. */
  function WordOf(ks: seq<bv6>): bv64
  {
    if ks == [] then 0 else WordOf(ks[..|ks| - 1]) | Square(ks[|ks| - 1])
  }

  /** Square `k` is in `WordOf(ks)` exactly when `k` is one of the indices. */
  lemma {:induction false} WordOfHas(ks: seq<bv6>, k: bv6)
    ensures Has(WordOf(ks), k) <==> k in ks
  {
    if ks != [] {
      var n := |ks| - 1;
      WordOfHas(ks[..n], k);
      LastMember(ks, k);
      WordOfLast(ks);
      HasStep(WordOf(ks), WordOf(ks[..n]), ks[n], k);
    }
  }

  lemma WordOfLast(ks: seq<bv6>)
    requires ks != []
    ensures WordOf(ks) == WordOf(ks[..|ks| - 1]) | Square(ks[|ks| - 1])
  {
  }

  /** `k` is in a non-empty list exactly when it is in the front or is the last entry. */
  lemma LastMember(ks: seq<bv6>, k: bv6)
    requires ks != []
    ensures k in ks <==> k in ks[..|ks| - 1] || k == ks[|ks| - 1]
  {
    assert ks == ks[..|ks| - 1] + [ks[|ks| - 1]];
  }

  /** Adding square `j` to `y` adds exactly square `j`. */
  lemma HasStep(x: bv64, y: bv64, j: bv6, k: bv6)
    requires x == y | Square(j)
    ensures Has(x, k) <==> Has(y, k) || j == k
  {
    HasUnion(y, Square(j), k);
    HasSquareIff(j, k);
  }

  /** Appending an index sets its square. */
  lemma WordOfAppend(ks: seq<bv6>, k: bv6)
    ensures WordOf(ks + [k]) == WordOf(ks) | Square(k)
  {
    assert (ks + [k])[..|ks|] == ks;
  }

  /** `mask` is the word of the indices `ks`. */
  predicate IsMask(mask: bv64, ks: seq<bv6>)
  {
    mask == WordOf(ks)
  }

  /** Setting the square of one more index extends the mask. */
  lemma IsMaskAppend(mask: bv64, bit: bv64, ks: seq<bv6>, k: bv6)
    requires IsMask(mask, ks) && bit == Square(k)
    ensures IsMask(mask | bit, ks + [k])
  {
    WordOfAppend(ks, k);
  }

  /** The sum of `w` over the squares of the indices `ks`, in list order. */
  function ListSum(ks: seq<bv6>, w: bv64 -> int): int
  {
    if ks == [] then 0 else ListSum(ks[..|ks| - 1], w) + w(Square(ks[|ks| - 1]))
  }

  /** The sum of a list one entry longer. */
  lemma ListSumAppend(ks: seq<bv6>, k: bv6, w: bv64 -> int)
    ensures ListSum(ks + [k], w) == ListSum(ks, w) + w(Square(k))
  {
    assert (ks + [k])[..|ks|] == ks;
  }

  /** Adding a square not in the word adds its weight to the sum. */
  lemma SumAdd(x: bv64, y: bv64, k: bv6, w: bv64 -> int)
    requires x == y | Square(k) && !Has(y, k)
    ensures SumBits(x, w) == SumBits(y, w) + w(Square(k))
  {
    SquareIndex(k);
    SumDisjoint(y, Square(k), w);
    SumSquare(Square(k), w);
  }

  /** Distinct indices: the sum over the word is the sum over the list. */
  lemma {:induction false} WordOfSum(ks: seq<bv6>, w: bv64 -> int)
    requires Distinct(ks)
    ensures SumBits(WordOf(ks), w) == ListSum(ks, w)
  {
    if ks != [] {
      var n := |ks| - 1;
      var front := ks[..n];
      DistinctFront(ks);
      WordOfSum(front, w);
      WordOfHas(front, ks[n]);
      WordOfLast(ks);
      SumAdd(WordOf(ks), WordOf(front), ks[n], w);
    }
  }

  /** Adding a square not in the word adds one to the count. */
  lemma PopCountAdd(x: bv64, y: bv64, k: bv6)
    requires x == y | Square(k) && !Has(y, k)
    ensures PopCount(x) == PopCount(y) + 1
  {
    SquareIndex(k);
    PopCountAddSquare(y, Square(k));
  }

  /** The indices of `ks` are pairwise different. */
  predicate Distinct(ks: seq<bv6>)
  {
    forall i, j :: 0 <= i < j < |ks| ==> ks[i] != ks[j]
  }

  lemma DistinctFront(ks: seq<bv6>)
    requires Distinct(ks) && ks != []
    ensures Distinct(ks[..|ks| - 1]) && ks[|ks| - 1] !in ks[..|ks| - 1]
  {
  }

  /** Distinct indices: the word has as many squares as there are indices. */
  lemma WordOfCount(ks: seq<bv6>)
    requires Distinct(ks)
    ensures PopCount(WordOf(ks)) == |ks|
  {
    WordOfSum(ks, UnitWeight);
    PopCountIsSum(WordOf(ks));
    ListSumOne(ks);
  }

  lemma {:induction false} ListSumOne(ks: seq<bv6>)
    ensures ListSum(ks, UnitWeight) == |ks|
  {
    if ks != [] {
      ListSumOne(ks[..|ks| - 1]);
    }
  }

  lemma MeetInBoth(x: bv64, y: bv64, s: bv64)
    requires (x & y) & s == s && s != 0
    ensures x & s != 0 && y & s != 0
  {
  }

  lemma CommonSquare(x: bv64, y: bv64) returns (s: bv64)
    requires x & y != 0
    ensures IsSquare(s) && x & s != 0 && y & s != 0
  {
    s := Lowest(x & y);
    LowestSplit(x & y);
    MeetInBoth(x, y, s);
  }

  /** The index of a one-bit word. */
  lemma IndexOfSquare(s: bv64) returns (k: bv6)
    requires IsSquare(s)
    ensures Square(k) == s
  {
    k := Index(s);
    IndexSquare(s);
  }

  /** Square `k` is in `x`. */
  predicate Has(x: bv64, k: bv6)
  {
    x & Square(k) != 0
  }

  lemma HasSquare(x: bv64, s: bv64, k: bv6)
    requires x & s != 0 && Square(k) == s
    ensures Has(x, k)
  {
  }

  /** Words that meet share a square. */
  lemma CommonIndex(x: bv64, y: bv64) returns (k: bv6)
    requires x & y != 0
    ensures Has(x, k) && Has(y, k)
  {
    var s := CommonSquare(x, y);
    k := IndexOfSquare(s);
    HasSquare(x, s, k);
    HasSquare(y, s, k);
  }

  /** A square in two disjoint words is impossible. */
  lemma DisjointMiss(x: bv64, y: bv64, k: bv6)
    requires x & y == 0
    ensures !(Has(x, k) && Has(y, k))
  {
    SquareIndex(k);
    MeetSquare(x, Square(k));
    MeetSquare(y, Square(k));
    MeetBoth(x, y, Square(k));
  }

  /** Two words are disjoint exactly when no square is in both. */
  lemma DisjointIff(x: bv64, y: bv64)
    ensures x & y == 0 <==> forall k :: Has(x, k) ==> !Has(y, k)
  {
    if x & y == 0 {
      forall k | Has(x, k)
        ensures !Has(y, k)
      {
        DisjointMiss(x, y, k);
      }
    } else {
      var k := CommonIndex(x, y);
    }
  }

  lemma HasZero(k: bv6)
    ensures !Has(0, k)
  {
  }

  /** A union has the squares of both parts. */
  lemma HasUnion(x: bv64, y: bv64, k: bv6)
    ensures Has(x | y, k) <==> Has(x, k) || Has(y, k)
  {
    var s := Square(k);
    UnionMeets(x, y, s);
    HasIs(x | y, s, k);
    HasIs(x, s, k);
    HasIs(y, s, k);
  }

  lemma HasIs(x: bv64, s: bv64, k: bv6)
    requires Square(k) == s
    ensures Has(x, k) <==> x & s != 0
  {
  }

  /** The word of square `j` has square `k` exactly when they are the same. */
  lemma HasSquareIff(j: bv6, k: bv6)
    ensures Has(Square(j), k) <==> j == k
  {
    SquaresMeetIff(j, k);
    HasIs(Square(j), Square(k), k);
  }
}
