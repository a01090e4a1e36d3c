/**
 * The transposition table (TranspositionTable.cs).
 *
 * The source keeps one static dictionary from board hashes to entries. Here
 * the dictionary is the `table` field of a `TranspositionTable` object that
 * the search methods receive and modify; `TryGet` and `Store` are its
 * methods. `Lookup` is the depth-gated read that `TryGet` performs, and the
 * lemmas below say what a `Store` does to later reads.
 */
module TranspositionTables {
  import opened Wrappers
  import opened Pieces
  import opened Words

  /** `TTFlag`: what the stored evaluation is. */
  datatype TTFlag = Exact | LowerBound | UpperBound

  /**
   * `TTEntry`. The C# class has setters, but no code changes an entry after
   * building it, so it is a value.
   */
  datatype TTEntry = TTEntry(depth: int, evaluation: int, flag: TTFlag, bestMove: Option<Move>)

  /** The entry `TryGet(hash, depth)` hands out: one stored for the hash at `depth` or deeper. */
  function Lookup(table: map<ULong, TTEntry>, hash: ULong, depth: int): (r: Option<TTEntry>)
    ensures r.Some? <==> hash in table && table[hash].depth >= depth
    ensures r.Some? ==> r.value == table[hash]
  {
    if hash in table && table[hash].depth >= depth then Some(table[hash]) else None
  }

  class TranspositionTable {
    var table: map<ULong, TTEntry>

    /** An empty table, as the static initialiser builds it. */
    constructor ()
      ensures table == map[]
    {
      table := map[];
    }

    /** `TranspositionTable.TryGet`: true, with the entry, iff one is stored for `hash` at `depth` or deeper. */
    method TryGet(hash: ULong, depth: int) returns (found: bool, entry: Option<TTEntry>)
      ensures found <==> hash in table && table[hash].depth >= depth
      ensures found ==> entry == Some(table[hash])
      ensures !found ==> entry == None
      ensures entry == Lookup(table, hash, depth)
    {
      if hash in table {
        var e := table[hash];
        if e.depth >= depth {
          return true, Some(e);
        }
      }
      return false, None;
    }

    /** `TranspositionTable.Store`: the new entry replaces whatever was stored for `hash`. */
    method Store(hash: ULong, depth: int, evaluation: int, flag: TTFlag, bestMove: Option<Move>)
      modifies this
      ensures table == old(table)[hash := TTEntry(depth, evaluation, flag, bestMove)]
    {
      table := table[hash := TTEntry(depth, evaluation, flag, bestMove)];
    }
  }

  /** After storing at depth `d`, a read of that hash at any depth up to `d` yields exactly the stored entry, and a deeper read yields nothing. */
  lemma StoreThenLookup(table: map<ULong, TTEntry>, hash: ULong, e: TTEntry, depth: int)
    ensures depth <= e.depth ==> Lookup(table[hash := e], hash, depth) == Some(e)
    ensures depth > e.depth ==> Lookup(table[hash := e], hash, depth) == None
  {
  }

  /** Storing for one hash leaves every read of another hash as it was. */
  lemma StoreKeepsOthers(table: map<ULong, TTEntry>, hash: ULong, e: TTEntry, other: ULong, depth: int)
    requires other != hash
    ensures Lookup(table[hash := e], other, depth) == Lookup(table, other, depth)
  {
  }

  /** The last write wins, even when it is shallower than the entry it replaces. */
  lemma LastStoreWins(table: map<ULong, TTEntry>, hash: ULong, first: TTEntry, second: TTEntry)
    ensures table[hash := first][hash := second] == table[hash := second]
    ensures first.depth > second.depth ==> Lookup(table[hash := first][hash := second], hash, first.depth) == None
  {
  }

  /** A read at a shallower depth succeeds whenever a deeper one does, and finds the same entry. */
  lemma LookupMonotone(table: map<ULong, TTEntry>, hash: ULong, shallow: int, deep: int)
    requires shallow <= deep
    ensures Lookup(table, hash, deep).Some? ==> Lookup(table, hash, shallow) == Lookup(table, hash, deep)
  {
  }
}
