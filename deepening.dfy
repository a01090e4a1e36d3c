/**
 * Iterative deepening with an aspiration window, as the `GetBestMove` of
 * IterativeDeepeningSearch.cs, FinalAlgorithm.cs and MinMax2.cs run it: the
 * depths 1, 2, ... up to the maximum, each searched first in a window of
 * plus or minus 50 around the previous score and, when the score falls on
 * or outside that window, once more with the full window.
 *
 * The live engine also watches a stopwatch. Its readings are an input: a
 * `Timed` clock gives the milliseconds the stopwatch shows at its k-th
 * reading. The live loop reads it twice per depth, before the search
 * (`ReadBefore`) and after the first search (`ReadAfter`).
 */
module Deepening {
  import opened Wrappers
  import opened Pieces
  import opened Positions
  import opened PossibleMoves
  import opened TranspositionTables
  import opened Words
  import opened Zobrist
  import opened SearchSpec

  /** The stopwatch: none (FinalAlgorithm, MinMax2), or its readings and the time limit. */
  datatype Clock = Untimed | Timed(elapsed: nat -> nat, limit: int)

  /** The state the depth loop carries: the best move so far, the score guess and the table. */
  datatype Deepened = Deepened(best: Option<Move>, guess: int, table: map<ULong, TTEntry>)

  /** The half-width of the aspiration window. */
  const AspirationWindow := 50

  function WindowLow(guess: int): int { guess - AspirationWindow }
  function WindowHigh(guess: int): int { guess + AspirationWindow }

  /** The bound of the full window of the re-search: `INF` of the engine. */
  function FullWindow(e: Engine): int
  {
    if e == MinMax2Engine then 100000 else 1000000
  }

  function NextDepth(depth: nat): nat { depth + 1 }

  /** The index of the stopwatch reading taken before the search at `depth`. */
  function ReadBefore(depth: nat): nat
    requires depth >= 1
  {
    2 * (depth - 1)
  }

  /** The index of the stopwatch reading taken after the first search at `depth`. */
  function ReadAfter(depth: nat): nat
    requires depth >= 1
  {
    2 * depth - 1
  }

  /** Whether the reading `k` of the clock has reached the limit; never for no clock. */
  predicate TimeUp(clock: Clock, k: nat)
  {
    clock.Timed? && clock.elapsed(k) >= clock.limit
  }

  /** The move kept after a depth: MinMax2 ignores a null move, the others take whatever the search gave. */
  function Keep(e: Engine, previous: Option<Move>, current: Option<Move>): (r: Option<Move>)
    ensures e != MinMax2Engine ==> r == current
    ensures e == MinMax2Engine ==> r == (if current.Some? then current else previous)
  {
    if e == MinMax2Engine && current.None? then previous else current
  }

  /** The search of one depth: the aspiration window, then the full window when the score falls on or outside it. */
  ghost function SearchDepth(e: Engine, keys: ZobristKeys, p: Position, root: ChessColor, depth: nat, guess: int,
                             first: SearchResult): (r: SearchResult)
    requires Consistent(p)
    ensures first.table.Keys <= r.table.Keys
  {
    if first.value <= WindowLow(guess) || first.value >= WindowHigh(guess) then
      Node(e, keys, p, depth, -FullWindow(e), FullWindow(e), root, root, 0, first.table)
    else first
  }

  /**
   * The depth loop from `depth` on, with the best move, the score guess and
   * the table it has reached. A depth whose second stopwatch reading is late
   * keeps the table its search filled but not its score or move.
   */
  ghost function Deepen(e: Engine, keys: ZobristKeys, p: Position, root: ChessColor, maxDepth: int, clock: Clock,
                        depth: nat, guess: int, best: Option<Move>, tt: map<ULong, TTEntry>): (r: Deepened)
    requires Consistent(p) && depth >= 1
    ensures tt.Keys <= r.table.Keys
    ensures e == MinMax2Engine && best.Some? ==> r.best.Some?
    decreases if depth <= maxDepth then maxDepth - depth + 1 else 0
  {
    if depth > maxDepth || TimeUp(clock, ReadBefore(depth)) then Deepened(best, guess, tt)
    else
      var first := Node(e, keys, p, depth, WindowLow(guess), WindowHigh(guess), root, root, 0, tt);
      if TimeUp(clock, ReadAfter(depth)) then Deepened(best, guess, first.table)
      else
        var r := SearchDepth(e, keys, p, root, depth, guess, first);
        Deepen(e, keys, p, root, maxDepth, clock, NextDepth(depth), r.value, Keep(e, best, r.bestMove), r.table)
  }
}
