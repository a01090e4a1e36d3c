/**
 * What the four alpha-beta searches of the repository compute, as functions.
 *
 * AlphaBetaSearch.cs (the live engine), FinalAlgorithm.cs, MinMax2.cs and
 * MinMax.cs all run the same fail-hard alpha-beta search with a
 * transposition table; they differ in the order of the early exits, the
 * evaluation, the move ordering, the capture generator of the quiescence
 * search and a few constants. `Engine` names the variant and the functions
 * below branch on it exactly where the sources differ:
 *
 *   - `Node` is one call of `AlphaBeta` (or `MinimaxWithAlphaBeta`): the
 *     early exits, the table probe, then `Expand`;
 *   - `Expand` is the rest of the call: the terminal and horizon tests, move
 *     generation, the loop over the ordered moves (`Fold`, one `Step` per
 *     move) and the final `Store`;
 *   - `QValue` and `QFold` are `Quiescence` and its capture loop.
 *
 * The transposition table is threaded through as a map: each call receives
 * the table as it stands and returns it as it leaves it, so the order in
 * which sibling searches see each other's entries is the source's.
 */
module SearchSpec {
  import opened Wrappers
  import opened Pieces
  import opened Positions
  import opened PossibleMoves
  import opened EndGame
  import opened Words
  import opened Zobrist
  import opened TranspositionTables
  import opened StableSort
  import opened SearchCommon
  import Evaluation
  import MoveOrdering
  import FinalHelpers
  import MinMax2Helpers
  import MinimaxHelpers

  /** Which of the four searches. */
  datatype Engine = LiveEngine | FinalEngine | MinMax2Engine | MinimaxEngine

  /** What one call returns: the score, the best move (null in C# when none), and the table afterwards. */
  datatype SearchResult = SearchResult(value: int, bestMove: Option<Move>, table: map<ULong, TTEntry>)

  /** The variables of the move loop: best value and move so far, the window, and the table. */
  datatype LoopState = LoopState(value: int, best: Option<Move>, alpha: int, beta: int, table: map<ULong, TTEntry>)

  /** The outcome of the table probe: an answer, or the (possibly narrowed) window to search with. */
  datatype ProbeOutcome = Hit(value: int, move: Option<Move>) | Window(alpha: int, beta: int)

  function Max(a: int, b: int): int { if a >= b then a else b }
  function Min(a: int, b: int): int { if a <= b then a else b }

  // ---------------------------------------------------------------------------
  // Where the engines differ

  /** The static evaluation each engine calls. */
  ghost function Eval(e: Engine, p: Position, root: ChessColor): int
  {
    match e
    case LiveEngine => Evaluation.Score(p, root)
    case FinalEngine => FinalHelpers.FinalScore(p, root)
    case MinMax2Engine => MinMax2Helpers.Score(p, root)
    case MinimaxEngine => MinimaxHelpers.Score(p, root)
  }

  /** The move ordering: the shared heuristic, MinMax2's own key, or none. */
  function Order(e: Engine, moves: seq<Move>, p: Position, side: ChessColor): (ordered: seq<Move>)
    ensures multiset(ordered) == multiset(moves)
    ensures forall m :: m in ordered <==> m in moves
  {
    var r := match e
      case LiveEngine => MoveOrdering.OrderMoves(moves, p, side)
      case FinalEngine => MoveOrdering.OrderMoves(moves, p, side)
      case MinMax2Engine => MinMax2Helpers.OrderMoves(moves)
      case MinimaxEngine => moves;
    SameMembers(r, moves);
    r
  }

  /** Two sequences with the same elements, counted with multiplicity, have the same members. */
  lemma SameMembers(a: seq<Move>, b: seq<Move>)
    requires multiset(a) == multiset(b)
    ensures forall m :: m in a <==> m in b
  {
    forall m
      ensures m in a <==> m in b
    {
      assert m in a <==> m in multiset(a);
      assert m in b <==> m in multiset(b);
    }
  }

  /** The moves the quiescence search follows (MinMax.cs has no quiescence search). */
  function Captures(e: Engine, p: Position, side: ChessColor): seq<Move>
  {
    match e
    case LiveEngine => MoveOrdering.CaptureMoves(p, side)
    case FinalEngine => FinalHelpers.FinalCaptures(p, side)
    case MinMax2Engine => MoveOrdering.CaptureMoves(p, side)
    case MinimaxEngine => []
  }

  /** The starting value of the move loop for the maximising or the minimising side. */
  function InitialValue(e: Engine, maximizing: bool): int
  {
    match e
    case MinimaxEngine => if maximizing then MinimaxHelpers.IntMinValue else MinimaxHelpers.IntMaxValue
    case MinMax2Engine => if maximizing then -100000 else 100000
    case _ => if maximizing then -Evaluation.INF else Evaluation.INF
  }

  /** The colour the position is hashed with: MinMax.cs uses the root colour, the others the side to move. */
  function HashSide(e: Engine, root: ChessColor, side: ChessColor): ChessColor
  {
    if e == MinimaxEngine then root else side
  }

  /** The value returned when the side to move has no move. */
  ghost function NoMoveValue(e: Engine, p: Position, root: ChessColor, side: ChessColor): int
  {
    if e == MinMax2Engine then (if side == root then -10000 else 10000) else Eval(e, p, root)
  }

  // ---------------------------------------------------------------------------
  // The search

  /**
   * The table probe: an exact entry answers; a bound narrows the window and
   * answers when the window closes; no entry leaves the window as it is.
   */
  function Probe(entry: Option<TTEntry>, alpha: int, beta: int): (r: ProbeOutcome)
    ensures entry.None? ==> r == Window(alpha, beta)
    ensures r.Hit? ==> entry.Some? && r == Hit(entry.value.evaluation, entry.value.bestMove)
    ensures r.Window? ==> r.alpha <= r.beta ==> alpha <= r.alpha && r.beta <= beta
  {
    match entry
    case None => Window(alpha, beta)
    case Some(t) =>
      if t.flag == Exact then Hit(t.evaluation, t.bestMove)
      else
        var a := if t.flag == LowerBound then Max(alpha, t.evaluation) else alpha;
        var b := if t.flag == UpperBound then Min(beta, t.evaluation) else beta;
        if a >= b then Hit(t.evaluation, t.bestMove) else Window(a, b)
  }

  /**
   * The probe block at the head of every engine's `AlphaBeta`, on the live
   * table: look the hash up at the depth, answer from an exact entry, narrow
   * the window by a bound and answer when it closes.
   */
  method ProbeTable(tt: TranspositionTable, hash: ULong, depth: nat, alpha: int, beta: int) returns (outcome: ProbeOutcome)
    ensures outcome == Probe(Lookup(tt.table, hash, depth), alpha, beta)
  {
    var found, ttEntry := tt.TryGet(hash, depth);
    var a, b := alpha, beta;
    if found {
      var t := ttEntry.value;
      if t.flag == Exact {
        return Hit(t.evaluation, t.bestMove);
      } else if t.flag == LowerBound {
        a := Max(a, t.evaluation);
      } else if t.flag == UpperBound {
        b := Min(b, t.evaluation);
      }
      if a >= b {
        return Hit(t.evaluation, t.bestMove);
      }
    }
    outcome := Window(a, b);
  }

  /** One call of the engine's `AlphaBeta` on `p` with `depth` plies to go. */
  ghost function Node(e: Engine, keys: ZobristKeys, p: Position, depth: nat, alpha: int, beta: int,
                      root: ChessColor, side: ChessColor, ply: int, tt: map<ULong, TTEntry>): (r: SearchResult)
    requires Consistent(p)
    ensures tt.Keys <= r.table.Keys
    decreases depth, 4, 0, 0, 0
  {
    if e == MinMax2Engine && IsGameOver(p) then
      SearchResult(if GetWinner(p) == root then 10000 else -10000, None, tt)
    else if e == MinMax2Engine && depth == 0 then
      SearchResult(QValue(e, p, alpha, beta, root, side), None, tt)
    else
      ConsistentHashable(p);
      var hash := ZobristHash(keys, p, HashSide(e, root, side));
      match Probe(Lookup(tt, hash, depth), alpha, beta)
      case Hit(value, move) => SearchResult(value, move, tt)
      case Window(a, b) => Expand(e, keys, p, depth, a, b, root, side, ply, tt, hash)
  }

  /** `Node` read off the outcome of its table probe, once the board has been hashed. */
  lemma NodeOfProbe(e: Engine, keys: ZobristKeys, p: Position, depth: nat, alpha: int, beta: int,
                    root: ChessColor, side: ChessColor, ply: int, tt: map<ULong, TTEntry>, hash: ULong,
                    outcome: ProbeOutcome)
    requires Consistent(p) && Hashable(p)
    requires e == MinMax2Engine ==> !IsGameOver(p) && depth >= 1
    requires hash == ZobristHash(keys, p, HashSide(e, root, side))
    requires outcome == Probe(Lookup(tt, hash, depth), alpha, beta)
    ensures outcome.Hit? ==> Node(e, keys, p, depth, alpha, beta, root, side, ply, tt) == SearchResult(outcome.value, outcome.move, tt)
    ensures outcome.Window? ==> Node(e, keys, p, depth, alpha, beta, root, side, ply, tt)
                                == Expand(e, keys, p, depth, outcome.alpha, outcome.beta, root, side, ply, tt, hash)
  {
  }

  /** The part of `AlphaBeta` after the table probe, with the window the probe left. */
  ghost function Expand(e: Engine, keys: ZobristKeys, p: Position, depth: nat, alpha: int, beta: int,
                        root: ChessColor, side: ChessColor, ply: int, tt: map<ULong, TTEntry>, hash: ULong): (r: SearchResult)
    requires Consistent(p)
    ensures tt.Keys <= r.table.Keys
    ensures r.bestMove.Some? ==> r.bestMove.value in SideMoves(p, side)
    decreases depth, 3, 0, 0, 0
  {
    if e == LiveEngine && IsGameOver(p) then
      SearchResult(if GetWinner(p) == root then Evaluation.INF - ply else -Evaluation.INF + ply, None, tt)
    else if e == MinimaxEngine && (depth == 0 || IsGameOver(p)) then
      SearchResult(Eval(e, p, root), None, tt)
    else if depth == 0 then
      SearchResult(QValue(e, p, alpha, beta, root, side), None, tt)
    else
      var moves := SideMoves(p, side);
      if moves == [] then SearchResult(NoMoveValue(e, p, root, side), None, tt)
      else
        SearchMoves(e, keys, p, depth, alpha, beta, root, side, ply, tt, hash)
  }

  /**
   * The move loop of a node with moves to search: order the moves, fold over
   * them from the engine's initial value and the caller's window, and store
   * the outcome under `hash`. The stored entry records the depth, the value
   * and the best move, and its flag is an upper bound exactly when the value
   * did not rise above alpha; at a maximising node it is exact exactly when
   * the value lies strictly inside the window, and at a minimising node it is
   * never exact, since there beta has already been lowered to the value.
   */
  ghost function SearchMoves(e: Engine, keys: ZobristKeys, p: Position, depth: nat, alpha: int, beta: int,
                             root: ChessColor, side: ChessColor, ply: int, tt: map<ULong, TTEntry>, hash: ULong): (r: SearchResult)
    requires Consistent(p) && depth >= 1 && SideMoves(p, side) != []
    ensures tt.Keys <= r.table.Keys
    ensures r.bestMove.Some? ==> r.bestMove.value in SideMoves(p, side)
    ensures hash in r.table && r.table[hash] == TTEntry(depth, r.value, r.table[hash].flag, r.bestMove)
    ensures r.table[hash].flag == UpperBound <==> r.value <= alpha
    ensures side == root ==> (r.table[hash].flag == Exact <==> alpha < r.value < beta)
    ensures side != root ==> r.table[hash].flag != Exact
    decreases depth, 2, 0, 0, 0
  {
    var moves := SideMoves(p, side);
    var ordered := Order(e, moves, p, side);
    assert forall m :: m in ordered ==> m in moves by {
      forall m | m in ordered ensures m in moves {
        assert m in multiset(ordered);
      }
    }
    assert |ordered| == |multiset(ordered)| == |multiset(moves)| == |moves|;
    var s := Fold(e, keys, p, depth, root, side, ply, ordered,
                  LoopState(InitialValue(e, side == root), None, alpha, beta, tt));
    SearchResult(s.value, s.best, s.table[hash := TTEntry(depth, s.value, Classify(s.value, alpha, s.beta), s.best)])
  }

  /** `SearchMoves` read off the outcome of its move loop. */
  lemma SearchMovesOfFold(e: Engine, keys: ZobristKeys, p: Position, depth: nat, alpha: int, beta: int,
                          root: ChessColor, side: ChessColor, ply: int, tt: map<ULong, TTEntry>, hash: ULong,
                          value: int, best: Option<Move>, finalBeta: int, table: map<ULong, TTEntry>)
    requires Consistent(p) && depth >= 1 && SideMoves(p, side) != []
    requires forall m :: m in Order(e, SideMoves(p, side), p, side) ==> m in SideMoves(p, side)
    requires var s := Fold(e, keys, p, depth, root, side, ply, Order(e, SideMoves(p, side), p, side),
                           LoopState(InitialValue(e, side == root), None, alpha, beta, tt));
      value == s.value && best == s.best && finalBeta == s.beta && table == s.table
    ensures SearchMoves(e, keys, p, depth, alpha, beta, root, side, ply, tt, hash)
         == SearchResult(value, best, table[hash := TTEntry(depth, value, Classify(value, alpha, finalBeta), best)])
  {
  }

  /** `Expand` above the horizon, for a side without moves: the engine's no-move value, the table untouched. */
  lemma ExpandWithoutMoves(e: Engine, keys: ZobristKeys, p: Position, depth: nat, alpha: int, beta: int,
                           root: ChessColor, side: ChessColor, ply: int, tt: map<ULong, TTEntry>, hash: ULong)
    requires Consistent(p) && depth >= 1 && SideMoves(p, side) == []
    requires (e == LiveEngine || e == MinimaxEngine) ==> !IsGameOver(p)
    ensures Expand(e, keys, p, depth, alpha, beta, root, side, ply, tt, hash)
         == SearchResult(NoMoveValue(e, p, root, side), None, tt)
  {
  }

  /** `Expand` above the horizon, for a side with moves: the move loop and the store. */
  lemma ExpandWithMoves(e: Engine, keys: ZobristKeys, p: Position, depth: nat, alpha: int, beta: int,
                        root: ChessColor, side: ChessColor, ply: int, tt: map<ULong, TTEntry>, hash: ULong)
    requires Consistent(p) && depth >= 1 && SideMoves(p, side) != []
    requires (e == LiveEngine || e == MinimaxEngine) ==> !IsGameOver(p)
    ensures Expand(e, keys, p, depth, alpha, beta, root, side, ply, tt, hash)
         == SearchMoves(e, keys, p, depth, alpha, beta, root, side, ply, tt, hash)
  {
  }

  /**
   * The loop body: keep the score when it beats the best so far (strictly),
   * then raise alpha (maximising side) or lower beta (minimising side) to the
   * best value.
   */
  function Step(maximizing: bool, s: LoopState, score: int, m: Move, table: map<ULong, TTEntry>): (r: LoopState)
    ensures r.table == table
    ensures maximizing ==> r.value == Max(s.value, score) && r.alpha == Max(s.alpha, r.value) && r.beta == s.beta
    ensures !maximizing ==> r.value == Min(s.value, score) && r.beta == Min(s.beta, r.value) && r.alpha == s.alpha
    ensures r.best == (if (maximizing && score > s.value) || (!maximizing && score < s.value) then Some(m) else s.best)
  {
    if maximizing then
      var better := score > s.value;
      var value := if better then score else s.value;
      LoopState(value, if better then Some(m) else s.best, Max(s.alpha, value), s.beta, table)
    else
      var better := score < s.value;
      var value := if better then score else s.value;
      LoopState(value, if better then Some(m) else s.best, s.alpha, Min(s.beta, value), table)
  }

  /** The remaining depth of a child node: one ply less. */
  function ChildDepth(depth: nat): nat
    requires depth >= 1
  {
    depth - 1
  }

  /** The ply of a child node: one more. */
  function ChildPly(ply: int): int
  {
    ply + 1
  }

  /** The move loop over the moves still to search, stopping once alpha reaches beta. */
  ghost function Fold(e: Engine, keys: ZobristKeys, p: Position, depth: nat, root: ChessColor, side: ChessColor,
                      ply: int, moves: seq<Move>, s: LoopState): (r: LoopState)
    requires Consistent(p) && depth >= 1
    requires forall m :: m in moves ==> m in SideMoves(p, side)
    ensures s.table.Keys <= r.table.Keys
    ensures side == root ==> r.beta == s.beta
    ensures side != root && (moves != [] || s.beta <= s.value) ==> r.beta <= r.value
    ensures r.best == s.best || (r.best.Some? && r.best.value in moves)
    decreases depth, 1, 0, 0, |moves|
  {
    if moves == [] then s
    else
      var m := moves[0];
      SideChild(p, side, m);
      var r := Node(e, keys, Child(p, m), ChildDepth(depth), s.alpha, s.beta, root, Opponent(side), ChildPly(ply), s.table);
      var next := Step(side == root, s, r.value, m, r.table);
      if next.alpha >= next.beta then next
      else Fold(e, keys, p, depth, root, side, ply, moves[1..], next)
  }

  /** One turn of the move loop: search the first child, take the step, and stop or go on. */
  lemma FoldUnfold(e: Engine, keys: ZobristKeys, p: Position, depth: nat, root: ChessColor, side: ChessColor,
                   ply: int, moves: seq<Move>, s: LoopState)
    requires Consistent(p) && depth >= 1 && moves != []
    requires forall m :: m in moves ==> m in SideMoves(p, side)
    ensures Consistent(Child(p, moves[0]))
    ensures var r := Node(e, keys, Child(p, moves[0]), ChildDepth(depth), s.alpha, s.beta, root, Opponent(side), ChildPly(ply), s.table);
      var next := Step(side == root, s, r.value, moves[0], r.table);
      Fold(e, keys, p, depth, root, side, ply, moves, s)
        == if next.alpha >= next.beta then next else Fold(e, keys, p, depth, root, side, ply, moves[1..], next)
  {
    SideChild(p, side, moves[0]);
  }

  /** The child of a capture the quiescence search follows is consistent and has fewer pieces. */
  lemma CaptureChild(e: Engine, p: Position, side: ChessColor, m: Move)
    requires Consistent(p) && m in Captures(e, p, side)
    ensures Consistent(Child(p, m)) && PieceCount(Child(p, m)) < PieceCount(p)
  {
    match e
    case LiveEngine =>
      var _ := MoveOrdering.CaptureMovesAreCaptures(p, side, m);
    case MinMax2Engine =>
      var _ := MoveOrdering.CaptureMovesAreCaptures(p, side, m);
    case FinalEngine =>
      var _ := FinalHelpers.FinalCapturesAreCaptures(p, side, m);
  }

  /**
   * `Quiescence`: stand pat on the static evaluation, then follow the
   * ordered captures. Fail-hard: with a non-empty window the answer lies in
   * it.
   */
  ghost function QValue(e: Engine, p: Position, alpha: int, beta: int, root: ChessColor, side: ChessColor): (v: int)
    requires Consistent(p)
    ensures alpha <= beta ==> alpha <= v <= beta
    decreases 0, 0, PieceCount(p), 1, 0
  {
    var standPat := Eval(e, p, root);
    var captures := Order(e, Captures(e, p, side), p, side);
    assert forall m :: m in captures ==> m in Captures(e, p, side) by {
      forall m | m in captures ensures m in Captures(e, p, side) {
        assert m in multiset(captures);
      }
    }
    if side == root then
      if standPat >= beta then beta
      else QFold(e, p, root, side, captures, Max(alpha, standPat), beta)
    else
      if standPat <= alpha then alpha
      else QFold(e, p, root, side, captures, alpha, Min(beta, standPat))
  }

  /** The capture loop of `Quiescence` over the captures still to search. */
  ghost function QFold(e: Engine, p: Position, root: ChessColor, side: ChessColor, moves: seq<Move>,
                       alpha: int, beta: int): (v: int)
    requires Consistent(p)
    requires forall m :: m in moves ==> m in Captures(e, p, side)
    ensures alpha <= beta ==> alpha <= v <= beta
    decreases 0, 0, PieceCount(p), 0, |moves|
  {
    if moves == [] then (if side == root then alpha else beta)
    else
      var m := moves[0];
      CaptureChild(e, p, side, m);
      var score := QValue(e, Child(p, m), alpha, beta, root, Opponent(side));
      if side == root then
        var a := Max(alpha, score);
        if a >= beta then beta else QFold(e, p, root, side, moves[1..], a, beta)
      else
        var b := Min(beta, score);
        if alpha >= b then alpha else QFold(e, p, root, side, moves[1..], alpha, b)
  }
}
