/**
 * Properties of the searches of `SearchSpec`, for all four engines unless
 * stated otherwise: what the table probe answers, what the early exits
 * return, what entry a searched node leaves in the table, that the table only
 * grows, that the best move is one of the side's moves, and that quiescence
 * search is fail-hard.
 */
module SearchProperties {
  import opened Wrappers
  import opened Pieces
  import opened Positions
  import opened PossibleMoves
  import opened EndGame
  import opened Words
  import opened Zobrist
  import opened TranspositionTables
  import opened SearchCommon
  import opened SearchSpec
  import Evaluation
  import FinalHelpers

  /** The hash a node of engine `e` probes and stores under. */
  function NodeHash(e: Engine, keys: ZobristKeys, p: Position, root: ChessColor, side: ChessColor): ULong
    requires Consistent(p)
  {
    ConsistentHashable(p);
    ZobristHash(keys, p, HashSide(e, root, side))
  }

  /** The engine probes the table before anything else happens (MinMax2 first tests for the end and the horizon). */
  predicate Probes(e: Engine, p: Position, depth: nat)
  {
    e != MinMax2Engine || (!IsGameOver(p) && depth > 0)
  }

  // ---------------------------------------------------------------------------
  // The table probe

  /**
   * An exact entry at sufficient depth answers the node outright, with the
   * stored value and move, and leaves the table as it was.
   */
  lemma ExactEntryAnswers(e: Engine, keys: ZobristKeys, p: Position, depth: nat, alpha: int, beta: int,
                          root: ChessColor, side: ChessColor, ply: int, tt: map<ULong, TTEntry>)
    requires Consistent(p) && Probes(e, p, depth)
    requires var h := NodeHash(e, keys, p, root, side); h in tt && tt[h].depth >= depth && tt[h].flag == Exact
    ensures var t := tt[NodeHash(e, keys, p, root, side)];
      Node(e, keys, p, depth, alpha, beta, root, side, ply, tt) == SearchResult(t.evaluation, t.bestMove, tt)
  {
  }

  /**
   * A bound at sufficient depth that already lies outside the window answers
   * the node: a lower bound at or above beta, or an upper bound at or below
   * alpha.
   */
  lemma BoundEntryCutsOff(e: Engine, keys: ZobristKeys, p: Position, depth: nat, alpha: int, beta: int,
                          root: ChessColor, side: ChessColor, ply: int, tt: map<ULong, TTEntry>)
    requires Consistent(p) && Probes(e, p, depth)
    requires var h := NodeHash(e, keys, p, root, side); h in tt && tt[h].depth >= depth
    requires var t := tt[NodeHash(e, keys, p, root, side)];
      (t.flag == LowerBound && t.evaluation >= beta) || (t.flag == UpperBound && t.evaluation <= alpha)
    ensures var t := tt[NodeHash(e, keys, p, root, side)];
      Node(e, keys, p, depth, alpha, beta, root, side, ply, tt) == SearchResult(t.evaluation, t.bestMove, tt)
  {
    var h := NodeHash(e, keys, p, root, side);
    var t := tt[h];
    assert Lookup(tt, h, depth) == Some(t);
    assert Probe(Some(t), alpha, beta) == Hit(t.evaluation, t.bestMove);
  }

  /** A bound strictly inside the window narrows it to the stored value, and the node is searched with that window. */
  lemma BoundEntryNarrows(e: Engine, keys: ZobristKeys, p: Position, depth: nat, alpha: int, beta: int,
                          root: ChessColor, side: ChessColor, ply: int, tt: map<ULong, TTEntry>)
    requires Consistent(p) && Probes(e, p, depth)
    requires var h := NodeHash(e, keys, p, root, side); h in tt && tt[h].depth >= depth
    requires var t := tt[NodeHash(e, keys, p, root, side)]; t.flag != Exact && alpha < t.evaluation < beta
    ensures var h := NodeHash(e, keys, p, root, side); var t := tt[h];
      Node(e, keys, p, depth, alpha, beta, root, side, ply, tt)
        == if t.flag == LowerBound then Expand(e, keys, p, depth, t.evaluation, beta, root, side, ply, tt, h)
           else Expand(e, keys, p, depth, alpha, t.evaluation, root, side, ply, tt, h)
  {
    var h := NodeHash(e, keys, p, root, side);
    var t := tt[h];
    assert Lookup(tt, h, depth) == Some(t);
    assert Probe(Some(t), alpha, beta)
      == if t.flag == LowerBound then Window(t.evaluation, beta) else Window(alpha, t.evaluation);
  }

  /** With nothing usable in the table, the node is searched with the window it was given. */
  lemma MissSearches(e: Engine, keys: ZobristKeys, p: Position, depth: nat, alpha: int, beta: int,
                     root: ChessColor, side: ChessColor, ply: int, tt: map<ULong, TTEntry>)
    requires Consistent(p) && Probes(e, p, depth)
    requires Lookup(tt, NodeHash(e, keys, p, root, side), depth).None?
    ensures Node(e, keys, p, depth, alpha, beta, root, side, ply, tt)
      == Expand(e, keys, p, depth, alpha, beta, root, side, ply, tt, NodeHash(e, keys, p, root, side))
  {
  }

  // ---------------------------------------------------------------------------
  // Early exits

  /**
   * A finished game, searched without a table answer: the live engine
   * scores a win for the root as `INF - ply` and a loss as `-INF + ply`, so a
   * nearer win scores higher; MinMax2 scores +-10000 before even probing the
   * table; MinMax.cs evaluates. None of them touches the table.
   */
  lemma FinishedGame(e: Engine, keys: ZobristKeys, p: Position, depth: nat, alpha: int, beta: int,
                     root: ChessColor, side: ChessColor, ply: int, tt: map<ULong, TTEntry>, hash: ULong)
    requires Consistent(p) && IsGameOver(p)
    ensures e == LiveEngine ==>
      Expand(e, keys, p, depth, alpha, beta, root, side, ply, tt, hash)
        == SearchResult(if GetWinner(p) == root then Evaluation.INF - ply else -Evaluation.INF + ply, None, tt)
    ensures e == MinMax2Engine ==>
      Node(e, keys, p, depth, alpha, beta, root, side, ply, tt)
        == SearchResult(if GetWinner(p) == root then 10000 else -10000, None, tt)
    ensures e == MinimaxEngine ==>
      Expand(e, keys, p, depth, alpha, beta, root, side, ply, tt, hash) == SearchResult(Eval(e, p, root), None, tt)
  {
  }

  /**
   * At the horizon the engines with a quiescence search hand over to it
   * (MinMax2 before probing the table), and MinMax.cs evaluates; the table
   * is left alone.
   */
  lemma Horizon(e: Engine, keys: ZobristKeys, p: Position, alpha: int, beta: int,
                root: ChessColor, side: ChessColor, ply: int, tt: map<ULong, TTEntry>, hash: ULong)
    requires Consistent(p) && !IsGameOver(p)
    ensures e == LiveEngine || e == FinalEngine ==>
      Expand(e, keys, p, 0, alpha, beta, root, side, ply, tt, hash) == SearchResult(QValue(e, p, alpha, beta, root, side), None, tt)
    ensures e == MinMax2Engine ==>
      Node(e, keys, p, 0, alpha, beta, root, side, ply, tt) == SearchResult(QValue(e, p, alpha, beta, root, side), None, tt)
    ensures e == MinimaxEngine ==>
      Expand(e, keys, p, 0, alpha, beta, root, side, ply, tt, hash) == SearchResult(Eval(e, p, root), None, tt)
  {
  }

  /**
   * A side without moves has lost or drawn the game, so the engines that
   * test for the end first never reach their "no moves" branch: MinMax2's
   * -10000/10000 by side to move is dead code, its node scores the finished
   * game instead.
   */
  lemma MinMax2NoMoveBranchDead(keys: ZobristKeys, p: Position, depth: nat, alpha: int, beta: int,
                                root: ChessColor, side: ChessColor, ply: int, tt: map<ULong, TTEntry>)
    requires Consistent(p) && SideMoves(p, side) == []
    ensures Node(MinMax2Engine, keys, p, depth, alpha, beta, root, side, ply, tt)
      == SearchResult(if GetWinner(p) == root then 10000 else -10000, None, tt)
  {
    NoSideMovesEndsGame(p, side);
  }

  /**
   * FinalAlgorithm.cs does not test for the end of the game, and reaches its
   * "no moves" branch; the evaluation it returns there is the win or loss
   * score, `INF - 1` or `-INF + 1`.
   */
  lemma FinalNoMovesIsTerminal(keys: ZobristKeys, p: Position, depth: nat, alpha: int, beta: int,
                               root: ChessColor, side: ChessColor, ply: int, tt: map<ULong, TTEntry>, hash: ULong)
    requires Consistent(p) && depth >= 1 && SideMoves(p, side) == []
    ensures Expand(FinalEngine, keys, p, depth, alpha, beta, root, side, ply, tt, hash)
      == SearchResult(if GetWinner(p) == root then Evaluation.INF - 1 else -Evaluation.INF + 1, None, tt)
  {
    NoSideMovesEndsGame(p, side);
  }

  /**
   * MinMax.cs hashes every node with the root colour, so a maximising and a
   * minimising node on the same position share one table entry: an exact
   * entry stored by either answers both.
   */
  lemma MinimaxSidesShareEntries(keys: ZobristKeys, p: Position, depth: nat, alpha: int, beta: int,
                                 root: ChessColor, ply: int, tt: map<ULong, TTEntry>)
    requires Consistent(p)
    requires var h := NodeHash(MinimaxEngine, keys, p, root, root); h in tt && tt[h].depth >= depth && tt[h].flag == Exact
    ensures forall side: ChessColor :: NodeHash(MinimaxEngine, keys, p, root, side) == NodeHash(MinimaxEngine, keys, p, root, root)
    ensures var t := tt[NodeHash(MinimaxEngine, keys, p, root, root)];
      && Node(MinimaxEngine, keys, p, depth, alpha, beta, root, ChessColor.White, ply, tt) == SearchResult(t.evaluation, t.bestMove, tt)
      && Node(MinimaxEngine, keys, p, depth, alpha, beta, root, ChessColor.Black, ply, tt) == SearchResult(t.evaluation, t.bestMove, tt)
  {
    ExactEntryAnswers(MinimaxEngine, keys, p, depth, alpha, beta, root, ChessColor.White, ply, tt);
    ExactEntryAnswers(MinimaxEngine, keys, p, depth, alpha, beta, root, ChessColor.Black, ply, tt);
  }

  // ---------------------------------------------------------------------------
  // The move loop and the stored entry

  /**
   * A node past the probe that is not finished and has moves to play runs the
   * move loop, so the facts `SearchMoves` states about the stored entry hold
   * for it.
   */
  lemma ExpandSearches(e: Engine, keys: ZobristKeys, p: Position, depth: nat, alpha: int, beta: int,
                       root: ChessColor, side: ChessColor, ply: int, tt: map<ULong, TTEntry>, hash: ULong)
    requires Consistent(p) && depth >= 1 && SideMoves(p, side) != []
    requires e == LiveEngine || e == MinimaxEngine ==> !IsGameOver(p)
    ensures Expand(e, keys, p, depth, alpha, beta, root, side, ply, tt, hash)
         == SearchMoves(e, keys, p, depth, alpha, beta, root, side, ply, tt, hash)
  {
  }

  // ---------------------------------------------------------------------------
  // Quiescence

  /**
   * Quiescence stands pat: the maximising side returns beta at once when the
   * static evaluation reaches beta, the minimising side alpha when it falls
   * to alpha; and a position with no capture to follow scores its static
   * evaluation clamped to the window.
   */
  lemma QuiescenceStandPat(e: Engine, p: Position, alpha: int, beta: int, root: ChessColor, side: ChessColor)
    requires Consistent(p)
    ensures side == root && Eval(e, p, root) >= beta ==> QValue(e, p, alpha, beta, root, side) == beta
    ensures side != root && Eval(e, p, root) <= alpha ==> QValue(e, p, alpha, beta, root, side) == alpha
    ensures Captures(e, p, side) == [] && alpha <= beta ==>
      QValue(e, p, alpha, beta, root, side) == Max(alpha, Min(beta, Eval(e, p, root)))
  {
    if Captures(e, p, side) == [] {
      assert Order(e, Captures(e, p, side), p, side) == [] by {
        assert |multiset(Order(e, Captures(e, p, side), p, side))| == 0;
      }
    }
  }
}
