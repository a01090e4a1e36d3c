/**
 * Properties of the depth loop of `Deepening`: when it searches nothing,
 * what a late depth leaves behind, that a deadline ends the loop for good,
 * and when the aspiration window is abandoned for the full window.
 */
module DeepeningProperties {
  import opened Wrappers
  import opened Pieces
  import opened Positions
  import opened TranspositionTables
  import opened Words
  import opened Zobrist
  import opened SearchSpec
  import opened Deepening

  /** With a maximum depth below 1 no depth is searched: no move, guess 0, the table untouched. */
  lemma NoDepthNoMove(e: Engine, keys: ZobristKeys, p: Position, root: ChessColor, maxDepth: int, clock: Clock,
                      tt: map<ULong, TTEntry>)
    requires Consistent(p) && maxDepth < 1
    ensures Deepen(e, keys, p, root, maxDepth, clock, 1, 0, None, tt) == Deepened(None, 0, tt)
  {
  }

  /** With a time limit of zero or less the first reading is already late: no move, and the table untouched. */
  lemma NoTimeNoMove(e: Engine, keys: ZobristKeys, p: Position, root: ChessColor, maxDepth: int,
                     elapsed: nat -> nat, limit: int, tt: map<ULong, TTEntry>)
    requires Consistent(p) && limit <= 0
    ensures Deepen(e, keys, p, root, maxDepth, Timed(elapsed, limit), 1, 0, None, tt) == Deepened(None, 0, tt)
  {
  }

  /**
   * A depth whose search finishes after the deadline is discarded: the loop
   * ends with the best move and the guess of the depths before it, and only
   * the table keeps what that search stored.
   */
  lemma LateDepthDiscarded(e: Engine, keys: ZobristKeys, p: Position, root: ChessColor, maxDepth: int, clock: Clock,
                           depth: nat, guess: int, best: Option<Move>, tt: map<ULong, TTEntry>)
    requires Consistent(p) && 1 <= depth <= maxDepth
    requires !TimeUp(clock, ReadBefore(depth)) && TimeUp(clock, ReadAfter(depth))
    ensures var r := Deepen(e, keys, p, root, maxDepth, clock, depth, guess, best, tt);
      r.best == best && r.guess == guess
      && r.table == Node(e, keys, p, depth, WindowLow(guess), WindowHigh(guess), root, root, 0, tt).table
  {
  }

  /**
   * Once the stopwatch reads late before depth `d`, no depth from `d` on is
   * searched: the loop ends as if the maximum depth were `d - 1`, whatever it
   * would have found at the later depths.
   */
  lemma {:induction false} DeadlineEndsLoop(e: Engine, keys: ZobristKeys, p: Position, root: ChessColor,
                                            maxDepth: int, clock: Clock, depth: nat, guess: int, best: Option<Move>,
                                            tt: map<ULong, TTEntry>, d: nat)
    requires Consistent(p) && 1 <= depth <= d <= maxDepth
    requires TimeUp(clock, ReadBefore(d))
    ensures Deepen(e, keys, p, root, maxDepth, clock, depth, guess, best, tt)
         == Deepen(e, keys, p, root, d - 1, clock, depth, guess, best, tt)
    decreases d - depth
  {
    if depth < d {
      var first := Node(e, keys, p, depth, WindowLow(guess), WindowHigh(guess), root, root, 0, tt);
      var r := SearchDepth(e, keys, p, root, depth, guess, first);
      DeadlineEndsLoop(e, keys, p, root, maxDepth, clock, NextDepth(depth), r.value, Keep(e, best, r.bestMove), r.table, d);
    }
  }

  /**
   * A score strictly inside the aspiration window is taken as it is: the
   * next depth starts from it, its move and its table, with no re-search.
   */
  lemma InsideWindowKept(e: Engine, keys: ZobristKeys, p: Position, root: ChessColor, maxDepth: int, clock: Clock,
                         depth: nat, guess: int, best: Option<Move>, tt: map<ULong, TTEntry>)
    requires Consistent(p) && 1 <= depth <= maxDepth
    requires !TimeUp(clock, ReadBefore(depth)) && !TimeUp(clock, ReadAfter(depth))
    requires var first := Node(e, keys, p, depth, WindowLow(guess), WindowHigh(guess), root, root, 0, tt);
      WindowLow(guess) < first.value < WindowHigh(guess)
    ensures var first := Node(e, keys, p, depth, WindowLow(guess), WindowHigh(guess), root, root, 0, tt);
      Deepen(e, keys, p, root, maxDepth, clock, depth, guess, best, tt)
      == Deepen(e, keys, p, root, maxDepth, clock, NextDepth(depth), first.value, Keep(e, best, first.bestMove), first.table)
  {
  }

  /**
   * A score on or outside the aspiration window is searched again at the
   * same depth with the full window, on the table the first search left,
   * and the next depth starts from the second score.
   */
  lemma OutsideWindowReSearched(e: Engine, keys: ZobristKeys, p: Position, root: ChessColor, maxDepth: int,
                                clock: Clock, depth: nat, guess: int, best: Option<Move>, tt: map<ULong, TTEntry>)
    requires Consistent(p) && 1 <= depth <= maxDepth
    requires !TimeUp(clock, ReadBefore(depth)) && !TimeUp(clock, ReadAfter(depth))
    requires var first := Node(e, keys, p, depth, WindowLow(guess), WindowHigh(guess), root, root, 0, tt);
      first.value <= WindowLow(guess) || WindowHigh(guess) <= first.value
    ensures var first := Node(e, keys, p, depth, WindowLow(guess), WindowHigh(guess), root, root, 0, tt);
      var second := Node(e, keys, p, depth, -FullWindow(e), FullWindow(e), root, root, 0, first.table);
      Deepen(e, keys, p, root, maxDepth, clock, depth, guess, best, tt)
      == Deepen(e, keys, p, root, maxDepth, clock, NextDepth(depth), second.value, Keep(e, best, second.bestMove), second.table)
  {
  }
}
