# ChessBot pawn engine in Dafny

A model of the core of ChessBot, a C# engine for a pawns-only variant of
chess. Each side has only pawns. A side wins when the other side has no pawn
left, when one of its pawns reaches the last rank, or when the other side
cannot move.

The model covers these parts:

- **The board.** `ChessBoard` is an 8 x 8 grid plus a white and a black list
  of pieces and the last move. It is a Dafny class (`Board.ChessBoard`) whose
  methods are proved to compute pure functions on a value `Position`
  (module `Positions`). The `PositionFacts` lemmas prove which operations
  keep the grid and the lists in agreement (`Consistent`) and what each one
  changes. A C# exception is an `Outcome` that carries the state at the
  throw; the one exception left out is `GetPieceAt`'s throw on two pieces of
  one list on a square (see Left out).
- **Move generation** (`PossibleMoves`: single and double pushes, captures,
  en passant) and the end-of-game test (`EndGame`).
- **Text helpers.** The move text (`Pieces.MoveCommand`) and the
  algebraic-notation helpers (`NotationHelper`).
- **Bitboards.** The 64-bit masks (`BitboardHelper`, `BoardWords`, `PassedPawns`, over
  `bits.dfy`) and the bitboard evaluation (`Evaluation`).
- **Hashing and the table.** The Zobrist hash (`Zobrist`, over `Words`, which
  models `ulong` XOR) and the transposition table (`TranspositionTables`).
- **Move ordering.** Ordering by a stable sort (`MoveOrdering`,
  `StableSort`).
- **The four searches.** The live alpha-beta search with quiescence
  (`AlphaBetaSearch`), `FinalAlgorithm`, `MinMax2` and the older `Minimax`
  of MinMax.cs. Each engine's methods are proved to return exactly what one
  shared recursive specification computes (`SearchSpec.Node` with an
  `Engine` tag), including the transposition table the search leaves
  behind. `SearchProperties` proves what that specification promises.
- **Iterative deepening** with the aspiration window (`Deepening`,
  `IterativeDeepeningSearch`, `DeepeningProperties`).

The source paths below are relative to the repository root.

## Model

| member | source | states |
|---|---|---|
| Coordinates.RankToIndex | ChessBot.Core/Board/ChessRank.cs:35-38 | `(ushort)(rank - 1)`: a declared rank maps to rank - 1, and only declared ranks map below 8 (the rest wrap to 16 bits) |
| Coordinates.RankFromIndex | ChessBot.Core/Board/ChessRank.cs:45-48 | `(ChessRank)(index + 1)`: the result is a declared rank exactly when the index is below 8, and then it is index + 1 |
| Coordinates.FileToIndex | ChessBot.Core/Board/ChessFile.cs:35-38 | a file is declared exactly when its index is below 8 |
| Coordinates.DeclaredRankValues | ChessBot.Core/Board/ChessRank.cs:13-23 | the declared ranks are 1..8 in declaration order, and they are exactly the ranks in that range |
| Coordinates.DeclaredFileValues | ChessBot.Core/Board/ChessFile.cs:13-23 | the declared files are 0..7 in declaration order, and they are exactly the files in that range |
| Coordinates.RankRoundTrip | ChessBot.Core/Board/ChessRank.cs:35-48 | `FromIndex(ToIndex(r)) == r` for every 16-bit rank value |
| Coordinates.IndexRoundTrip | ChessBot.Core/Board/ChessRank.cs:35-48 | `ToIndex(FromIndex(i)) == i` for every index |
| Coordinates.RankToIndexMonotonic | ChessBot.Core/Board/ChessRank.cs:35-38 | `ToIndex` is strictly increasing on the declared ranks |
| Coordinates.FileIndexRoundTrip | ChessBot.Core/Board/ChessFile.cs:35-38 | casting a file's index back gives the file, so `ToIndex` is injective |
| Pieces.PieceValue | ChessBot.Core/Board/ChessPiece.cs:13-34 | every `ChessPiece` value is below 4 (Empty 0, White 1, Black 2, Invalid 3) |
| Pieces.EqualsIsValueEquality | ChessBot.Core/Board/BoardPiece.cs:35-39 | `Equals` holds exactly for a `BoardPiece` with the same rank, file and piece, and is false for null and other objects |
| Pieces.EqualsIsEquivalence | ChessBot.Core/Board/BoardPiece.cs:35-39 | `Equals` is reflexive, symmetric and transitive |
| Pieces.Equals | ChessBot.Core/Board/BoardPiece.cs:35-39 | `BoardPiece.Equals`; characterised by `EqualsIsValueEquality` and `EqualsIsEquivalence` |
| Pieces.EqualPiecesHashAlike | ChessBot.Core/Board/BoardPiece.cs:35-48 | equal pieces have equal hash codes, whatever `HashCode.Combine` computes |
| Pieces.GetHashCode | ChessBot.Core/Board/BoardPiece.cs:45-48 | `BoardPiece.GetHashCode` over a given `HashCode.Combine`; characterised by `EqualPiecesHashAlike` |
| Pieces.Decimal | ChessBot.Core/Board/Move.cs:28 | `(ushort)rank` prints as a non-empty string of decimal digits |
| Pieces.ToLower | ChessBot.Core/Board/Move.cs:28 | `ToLower` keeps the length and lowers each character |
| Pieces.TargetCommandOnBoard | ChessBot.Core/Board/Move.cs:28 | on a declared square the target command is the file letter and then the rank digit |
| Pieces.MoveCommandOnBoard | ChessBot.Core/Board/Move.cs:33 | on declared squares the move command is four characters: origin file and rank, then target file and rank |
| Pieces.MoveCommand | ChessBot.Core/Board/Move.cs:33 | `Move.MoveCommand`; characterised by `MoveCommandOnBoard` and `NotationHelper.MoveCommandIsNotation` |
| Positions.FindAt | ChessBot.Core/Board/ChessBoard.cs:165-166 | the search of one list finds a piece of the list on the square, and finds none exactly when no piece of the list stands there |
| Positions.GetPieceAt | ChessBot.Core/Board/ChessBoard.cs:163-167 | the white piece on the square, else the black one, else none; characterised by `PositionFacts.GetPieceAtFound` and `PositionFacts.GetPieceAtListed` (the throw on two pieces of one list is under Left out) |
| Positions.RemoveFirst | ChessBot.Core/Board/ChessBoard.cs:296-300 | `List.Remove` takes one occurrence of a present element out of the multiset and leaves a list without it unchanged |
| Positions.AllSquares | ChessBot.Core/Board/BoardInitializer.cs:44-49 | `ClearBoard` visits 64 squares |
| Board.ChessBoard.constructor | ChessBot.Core/Board/ChessBoard.cs:48-51 | a new board has an all-Empty 8 x 8 grid, empty lists and no last move |
| Board.ChessBoard.Set | ChessBot.Core/Board/ChessBoard.cs:90-107 | the integer indexer writes a cell on the board; off the board it throws `ArgumentOutOfRangeException` naming the rank first, then the file |
| Board.ChessBoard.SetSquare | ChessBot.Core/Board/ChessBoard.cs:122-125 | the rank/file indexer writes through the converted indices |
| Board.ChessBoard.RemovePiece | ChessBot.Core/Board/ChessBoard.cs:292-303 | drops the first equal piece from its colour's list, then empties the cell |
| Board.ChessBoard.AddPiece | ChessBot.Core/Board/ChessBoard.cs:267-286 | unless `unsafeInit`, removes the occupant; appends White to the white list and anything else to the black list; sets the cell |
| Board.ChessBoard.InitPiece | ChessBot.Core/Board/ChessBoard.cs:312-330 | unless `unsafeInit`, removes the occupant; adds a non-Empty piece; sets the cell |
| Board.ChessBoard.ExecuteMove | ChessBot.Core/Board/ChessBoard.cs:205-217 | removes the occupant of the captured piece's square, moves the mover, records the move; an exception stops it where the source stops |
| Board.ChessBoard.ComputeZobristHash | ChessBot.Core/Board/ChessBoard.cs:183-199 | XORs the key of every non-Empty piece of the black list and then the white list, then the side-to-move key; throws `IndexOutOfRangeException` exactly when some piece is off the table |
| Board.ChessBoard.Clone | ChessBot.Core/Board/ChessBoard.cs:57-69 | a fresh board that receives the black pieces and then the white ones through the unsafe `InitPiece` |
| Board.ChessBoard.InitPieces | ChessBot.Core/Board/ChessBoard.cs:60-67 | one `foreach` of `Clone`: the unsafe `InitPiece` of each piece in turn, up to the first exception |
| Board.BoardManipulation.MovePiece | ChessBot.Core/Board/BoardManipulation.cs:24-41 | throws `InvalidOperationException` when nothing stands on the origin; else clears the origin and adds the new piece at the target, returning it |
| Board.BoardManipulation.RemovePiece | ChessBot.Core/Board/BoardManipulation.cs:48-55 | removes whatever piece occupies the argument's square |
| Board.BoardInitializer.Setup | ChessBot.Core/Board/BoardInitializer.cs:23-36 | skips tokens whose length is not 3 and places the others with `InitPiece`, reading the colour, file and rank unchecked |
| Board.BoardInitializer.ClearBoard | ChessBot.Core/Board/BoardInitializer.cs:42-51 | `InitPiece(rank, file, Empty)` on every declared rank and, within it, every declared file |
| Board.BoardInitializer.ClearRank | ChessBot.Core/Board/BoardInitializer.cs:46-49 | the inner loop of `ClearBoard` over the eight files of one rank |
| Board.SquareOrder | ChessBot.Core/Board/BoardInitializer.cs:44-49 | the k-th square `ClearBoard` visits is the (k / 8)-th declared rank and the (k % 8)-th declared file |
| PositionFacts.FindAtDistinct | ChessBot.Core/Board/ChessBoard.cs:163-167 | in a list with one piece per square, the search for a piece's square finds that piece |
| PositionFacts.FindAtAppend | ChessBot.Core/Board/ChessBoard.cs:277-284 | appending a piece changes what the search finds only on a square where nothing was found |
| PositionFacts.RemoveFirstSplit | ChessBot.Core/Board/ChessBoard.cs:294-301 | `List.Remove` cuts out the first occurrence of the element |
| PositionFacts.RemoveFirstSubset | ChessBot.Core/Board/ChessBoard.cs:294-301 | `List.Remove` keeps a list of distinct squares of one colour, and adds nothing |
| PositionFacts.FindAtRemove | ChessBot.Core/Board/ChessBoard.cs:294-301 | after `List.Remove` nothing is found on the removed piece's square, and every other square is unchanged |
| PositionFacts.GetPieceAtListed | ChessBot.Core/Board/ChessBoard.cs:163-167 | with consistent lists, `GetPieceAt` finds each listed piece on its own square |
| PositionFacts.GetPieceAtFound | ChessBot.Core/Board/ChessBoard.cs:163-167 | what `GetPieceAt` finds is a piece of the list of its colour, on the board, on the square asked for |
| PositionFacts.GridDeterminedByLists | ChessBot.Core/Board/ChessBoard.cs:13-30 | two consistent boards with the same lists have the same grid |
| PositionFacts.RemovedLists | ChessBot.Core/Board/ChessBoard.cs:292-301 | taking a listed piece out of its list keeps the lists consistent and vacates exactly its square |
| PositionFacts.RemovedWhite | ChessBot.Core/Board/ChessBoard.cs:294-297 | `RemovedLists` for a white piece |
| PositionFacts.RemovedBlack | ChessBot.Core/Board/ChessBoard.cs:298-301 | `RemovedLists` for a black piece |
| PositionFacts.RemovePieceKeeps | ChessBot.Core/Board/ChessBoard.cs:292-303 | `RemovePiece` of a listed piece cannot throw, keeps the board consistent, empties its square and nothing else |
| PositionFacts.AppendFree | ChessBot.Core/Board/ChessBoard.cs:277-284 | appending a White or Black piece on a free square keeps the lists consistent and places it on that square only |
| PositionFacts.AppendListsOk | ChessBot.Core/Board/ChessBoard.cs:277-284 | appending a piece on a free square keeps the lists well formed |
| PositionFacts.SetSquareSame | ChessBot.Core/Board/ChessBoard.cs:116-126 | writing a cell with the value it holds changes nothing |
| PositionFacts.CellOfSquare | ChessBot.Core/Board/ChessBoard.cs:116-121 | on a consistent board a cell holds the colour of the piece found there, or Empty |
| PositionFacts.AddPieceKeeps | ChessBot.Core/Board/ChessBoard.cs:267-286 | the safe `AddPiece` of a White or Black piece on the board cannot throw: it replaces the occupant, appends the piece, keeps the board consistent and changes only that square |
| PositionFacts.ClearSquareKeeps | ChessBot.Core/Board/ChessBoard.cs:269-276 | removing the occupant of a square cannot throw, keeps the board consistent and vacates that square only |
| PositionFacts.InitPieceKeeps | ChessBot.Core/Board/ChessBoard.cs:312-330 | the safe `InitPiece` on a board square cannot throw, keeps the board consistent, and leaves exactly the given piece (or nothing, for Empty) on that square |
| PositionFacts.RemoveOccupantKeeps | ChessBot.Core/Board/BoardManipulation.cs:48-55 | `BoardManipulation.RemovePiece` empties the argument's square whatever colour the argument claims, and keeps the board consistent |
| PositionFacts.AddPieceErrors | ChessBot.Core/Board/ChessBoard.cs:267-286 | on a consistent board the safe `AddPiece` can throw only `ArgumentOutOfRangeException`, from the grid write |
| PositionFacts.MovePieceThrows | ChessBot.Core/Board/BoardManipulation.cs:24-41 | `MovePiece` throws `InvalidOperationException` exactly when the origin is empty, and otherwise only `ArgumentOutOfRangeException` |
| PositionFacts.MovePieceKeeps | ChessBot.Core/Board/BoardManipulation.cs:24-41 | moving a piece onto a board square cannot throw, keeps the board consistent, fills the target, empties the origin and changes nothing else |
| PositionFacts.ListedFound | ChessBot.Core/Board/ChessBoard.cs:163-167 | a listed piece is what `GetPieceAt` finds on its square |
| PositionFacts.ConsistentIgnoresLastMove | ChessBot.Core/Board/ChessBoard.cs:212 | recording the last move keeps the board consistent |
| PositionFacts.CaptureClearedKeeps | ChessBot.Core/Board/ChessBoard.cs:207-210 | clearing the captured piece's square cannot throw, keeps the mover in place and changes no other square |
| PositionFacts.ExecuteMoveKeeps | ChessBot.Core/Board/ChessBoard.cs:205-217 | `ExecuteMove` of a playable move cannot throw and keeps the board consistent: captured square and origin empty, the target holds the mover's colour, the move is recorded, no other square changes |
| PositionFacts.VacateCounts | ChessBot.Core/Board/BoardManipulation.cs:48-55 | vacating an occupied square shortens the occupant's list by one, and vacating a free square changes nothing |
| PositionFacts.CaptureClearedCounts | ChessBot.Core/Board/ChessBoard.cs:207-210 | clearing an opponent's captured piece shortens the opponent's list by one and leaves the mover's list alone |
| PositionFacts.MovePieceCounts | ChessBot.Core/Board/BoardManipulation.cs:24-41 | moving onto a free square keeps the length of both lists |
| PositionFacts.MovePieceOntoCounts | ChessBot.Core/Board/BoardManipulation.cs:24-41 | moving onto an occupied square removes the occupant from its own colour's list |
| PositionFacts.ExecuteMoveCounts | ChessBot.Core/Board/ChessBoard.cs:205-217 | after a move the mover's side keeps its count, and the opponent loses one piece exactly when the move captures |
| PositionFacts.NewBoardEmpty | ChessBot.Core/Board/ChessBoard.cs:48-51 | the new board is consistent and holds no piece |
| PositionFacts.InitPieceUnsafeOnFree | ChessBot.Core/Board/ChessBoard.cs:312-330 | on a free square the unsafe `InitPiece` of a piece does what the safe one does |
| PositionFacts.CloneStep | ChessBot.Core/Board/ChessBoard.cs:60-67 | one step of a `Clone` loop on a free square cannot throw, appends the piece and keeps the copy consistent |
| PositionFacts.CloneIntoKeeps | ChessBot.Core/Board/ChessBoard.cs:60-67 | one `Clone` loop over a list of distinct free squares appends the whole list and keeps the copy consistent |
| PositionFacts.CloneCopies | ChessBot.Core/Board/ChessBoard.cs:57-69 | `Clone` of a consistent board reproduces its lists in order and its grid, with no last move |
| PositionFacts.TokenSquare | ChessBot.Core/Board/BoardInitializer.cs:30-32 | a token `[colour][a-h][1-8]` names the board square of the letter and the digit |
| PositionFacts.SetupSkips | ChessBot.Core/Board/BoardInitializer.cs:27-28 | a token whose length is not 3 is skipped |
| PositionFacts.SetupPlaces | ChessBot.Core/Board/BoardInitializer.cs:30-34 | a token on a board square places its piece through the safe `InitPiece`, and the set-up goes on |
| PositionFacts.SetupOffBoard | ChessBot.Core/Board/BoardInitializer.cs:30-34 | a token off the board ends the set-up with `ArgumentOutOfRangeException`, naming the rank first, then the file, with the piece already appended to a list |
| PositionFacts.SetupKeeps | ChessBot.Core/Board/BoardInitializer.cs:23-36 | set-up with every three-character token on a board square cannot throw and keeps the board consistent |
| PositionFacts.AllSquaresCover | ChessBot.Core/Board/BoardInitializer.cs:44-49 | `ClearBoard` visits every board square |
| PositionFacts.ClearSquaresKeeps | ChessBot.Core/Board/BoardInitializer.cs:44-49 | clearing a list of board squares keeps the board consistent, leaves them empty and the other squares as they were |
| PositionFacts.ClearBoardEmpties | ChessBot.Core/Board/BoardInitializer.cs:42-51 | `ClearBoard` of a consistent board gives the new board, keeping only the last move |
| PositionFacts.ClearedSquaresFree | ChessBot.Core/Board/BoardInitializer.cs:42-51 | after `ClearBoard` no square holds a piece |
| PositionFacts.NothingFoundNothingListed | ChessBot.Core/Board/ChessBoard.cs:163-167 | a consistent board on which no square holds a piece has empty lists |
| PossibleMoves.HasPossibleMove | ChessBot.Core/Board/ChessBoard.cs:133-139 | true exactly when some generator yields a move for the piece |
| PossibleMoves.NonPawnHasNoMoves | ChessBot.Core/Board/PossibleMoves.cs:14-17 | a piece that is neither White nor Black gets no move from any of the four generators |
| PossibleMoves.GetPossibleMoves | ChessBot.Core/Board/ChessBoard.cs:146-154 | single pushes, then double pushes, captures and en passant moves, in that order; characterised by the four rules below and `HasPossibleMove` |
| PossibleMoves.SingleMovesRule | ChessBot.Core/Board/PossibleMoves.cs:12-40 | at most one single push, to the declared rank one step ahead on the same file, onto an Empty cell, capturing nothing; and a pawn on the board with that cell Empty gets it |
| PossibleMoves.SingleMoves | ChessBot.Core/Board/PossibleMoves.cs:12-40 | definition; characterised by `SingleMovesRule` |
| PossibleMoves.DoubleMoveRule | ChessBot.Core/Board/PossibleMoves.cs:49-89 | at most one double push, only from rank Two (White, to Four) or Seven (Black, to Five), with the passed and the target cell Empty; and such a pawn gets it |
| PossibleMoves.DoubleMove | ChessBot.Core/Board/PossibleMoves.cs:49-89 | definition; characterised by `DoubleMoveRule` |
| PossibleMoves.CapturingMoveRule | ChessBot.Core/Board/PossibleMoves.cs:98-134 | at most two captures, one rank ahead on a neighbouring file whose cell holds the opponent, capturing the piece found there; the left one comes first |
| PossibleMoves.CapturingMove | ChessBot.Core/Board/PossibleMoves.cs:98-134 | definition; characterised by `CapturingMoveRule` and `CaptureFound` |
| PossibleMoves.CaptureFound | ChessBot.Core/Board/PossibleMoves.cs:111-132 | conversely, a forward diagonal on the board that holds an opponent gives a capture |
| PossibleMoves.EnPassentRule | ChessBot.Core/Board/PossibleMoves.cs:143-184 | at most two en passant moves, only from rank Five (White) or Four (Black), beside an opponent on which the last move landed, to the square ahead of the pawn on that file, capturing the neighbour |
| PossibleMoves.EnPassent | ChessBot.Core/Board/PossibleMoves.cs:143-184 | definition; characterised by `EnPassentRule` and `EnPassantFound` |
| PossibleMoves.EnPassantFound | ChessBot.Core/Board/PossibleMoves.cs:164-182 | conversely, a neighbour that meets those conditions gives an en passant move |
| PossibleMoves.EnPassentIgnoresHistory | ChessBot.Core/Board/PossibleMoves.cs:145-171 | en passant reads only the target square of the last move |
| PossibleMoves.ListedPawn | ChessBot.Core/Board/ChessBoard.cs:146-155 | a listed piece of a consistent board is a pawn on the board, in its colour's list, found on its square |
| PossibleMoves.CellMeansPiece | ChessBot.Core/Board/ChessBoard.cs:82-89 | on a consistent board an Empty cell has no piece, and a coloured cell has a piece of that colour on it |
| PossibleMoves.GeneratedMovesPlayable | ChessBot.Core/Board/ChessBoard.cs:146-155 | every generated move of a listed piece can be executed without an exception and keeps the board consistent |
| PossibleMoves.PushOrCaptureCounts | ChessBot.Core/Board/PossibleMoves.cs:12-134 | after a push the counts are kept; after a capture the opponent has one piece fewer |
| PossibleMoves.EnPassentCounts | ChessBot.Core/Board/PossibleMoves.cs:143-184 | after en passant the opponent loses the captured neighbour, and also whatever stood on the target square, which `ExecuteMove` removes too |
| EndGame.Priority | ChessBot.Core/Board/EndGame.cs:11-40 | each reason has its place in the order of the tests |
| EndGame.CheckSound | ChessBot.Core/Board/EndGame.cs:9-43 | the chain stops only at a reason that holds, and runs through exactly when none holds |
| EndGame.Check | ChessBot.Core/Board/EndGame.cs:11-42 | the chain of tests as the first reason that holds; characterised by `CheckSound` and `CheckStopsFirst` |
| EndGame.IsGameOverMessage | ChessBot.Core/Board/EndGame.cs:9-43 | the game is over exactly when a message is given, exactly when some end condition holds |
| EndGame.IsGameOver | ChessBot.Core/Board/EndGame.cs:5-8 | the one-argument overload is true exactly when some end condition holds |
| EndGame.GetWinner | ChessBot.Core/Algorithms/Evaluation/Evaluation.cs:50-53 | no winner exactly while the game goes on |
| EndGame.FirstHitDecides | ChessBot.Core/Board/EndGame.cs:11-40 | when the k-th condition is the first that holds, the game is over with the k-th message and that reason's winner |
| EndGame.FirstHitChecked | ChessBot.Core/Board/EndGame.cs:11-40 | the chain of tests stops at the first condition that holds |
| EndGame.MessageIsFirstHit | ChessBot.Core/Board/EndGame.cs:11-40 | conversely, a finished game's message names a condition that holds, and no earlier one holds |
| EndGame.CheckStopsFirst | ChessBot.Core/Board/EndGame.cs:11-40 | no condition tried before the one the chain stops at holds |
| EndGame.MessagesDistinct | ChessBot.Core/Board/EndGame.cs:13-38 | the six messages are different, so the message names the reason |
| EndGame.BlackStuck | ChessBot.Core/Board/EndGame.cs:31-35 | Black cannot move exactly when no black piece has a possible move |
| EndGame.NoMovesEndsGame | ChessBot.Core/Board/EndGame.cs:31-40 | a board on which no piece can move is over |
| NotationHelper.FirstWithTarget | ChessBot.Core/Utils/NotationHelper.cs:57-58 | `FirstOrDefault` finds a listed move with that target, and finds none exactly when no move has it |
| NotationHelper.ConvertFile | ChessBot.Core/Utils/NotationHelper.cs:107-121 | the lower-case letter of a file; characterised by `FileLetterParses` |
| NotationHelper.ToNotation | ChessBot.Core/Utils/NotationHelper.cs:15-19 | definition; characterised by `ToNotationOnBoard`, `ReadBack` and `NotationRoundTrip` |
| NotationHelper.TryConvertFile | ChessBot.Core/Utils/NotationHelper.cs:69-85 | definition; characterised by `FileLetterParses` |
| NotationHelper.TryConvertRank | ChessBot.Core/Utils/NotationHelper.cs:93-100 | definition; characterised by `RankDigitParses` |
| NotationHelper.FromNotation | ChessBot.Core/Utils/NotationHelper.cs:28-61 | definition; characterised by `FromNotationRejectsShort`, `FromNotationIgnoresTail`, `FromNotationSound` and `NotationRoundTrip` |
| NotationHelper.ToNotationOnBoard | ChessBot.Core/Utils/NotationHelper.cs:15-19 | on declared squares the notation is four characters: origin letter and digit, then target letter and digit |
| NotationHelper.MoveCommandIsNotation | ChessBot.Core/Utils/NotationHelper.cs:15-19 | `ToNotation` and `Move.MoveCommand` print a move on declared squares alike |
| NotationHelper.FileLetterParses | ChessBot.Core/Utils/NotationHelper.cs:69-85 | a file letter is read back in either case, and only a-h and A-H are accepted |
| NotationHelper.RankDigitParses | ChessBot.Core/Utils/NotationHelper.cs:93-100 | a rank is read back from its digit, and only the digits 1-8 are accepted |
| NotationHelper.FromNotationRejectsShort | ChessBot.Core/Utils/NotationHelper.cs:30-31 | null, blank and shorter-than-four text gives no move |
| NotationHelper.FromNotationIgnoresTail | ChessBot.Core/Utils/NotationHelper.cs:33-36 | characters after the fourth are not read |
| NotationHelper.FromNotationSound | ChessBot.Core/Utils/NotationHelper.cs:28-61 | a parsed move belongs to the piece on the named origin, has the caller's colour, is one of its possible moves and goes to the named target |
| NotationHelper.ReadBack | ChessBot.Core/Utils/NotationHelper.cs:15-19 | the four characters of a move's notation parse back to its two squares |
| NotationHelper.NotationRoundTrip | ChessBot.Core/Utils/NotationHelper.cs:15-61 | parsing the notation of a possible move of a listed piece of the caller's colour gives a possible move of that piece with the same origin and target |
| BitboardHelper.Masks | ChessBot.Core/Utils/BitBoards.cs:31-34 | FileA, FileH, Rank2 and Rank7 hold exactly the squares of file a, file h, rank 2 and rank 7 |
| BitboardHelper.SinglePushInEmpty | ChessBot.Core/Utils/BitBoards.cs:42-46 | single pushes land only on empty squares |
| BitboardHelper.WhiteSinglePush | ChessBot.Core/Utils/BitBoards.cs:42-46 | definition; characterised by `WhiteSinglePushSquare` |
| BitboardHelper.BlackSinglePush | ChessBot.Core/Utils/BitBoards.cs:82-86 | definition; characterised by `BlackSinglePushSquare` |
| BitboardHelper.WhiteSinglePushSquare | ChessBot.Core/Utils/BitBoards.cs:42-46 | the square above `s` is a white push exactly when a white pawn is on `s` and the square above is empty |
| BitboardHelper.BlackSinglePushSquare | ChessBot.Core/Utils/BitBoards.cs:82-86 | the square below `s` is a black push exactly when a black pawn is on `s` and the square below is empty |
| BitboardHelper.FarRankNoPush | ChessBot.Core/Utils/BitBoards.cs:42-86 | pawns on the far rank push nowhere, since their bits leave the word; no push lands on the near rank |
| BitboardHelper.WhiteDoublePush | ChessBot.Core/Utils/BitBoards.cs:54-61 | as written; characterised by `DoublePushAsWrittenIsEmpty` (see Findings) |
| BitboardHelper.BlackDoublePush | ChessBot.Core/Utils/BitBoards.cs:94-101 | as written; characterised by `DoublePushAsWrittenIsEmpty` (see Findings) |
| BitboardHelper.WhiteDoublePushIntended | ChessBot.Core/Utils/BitBoards.cs:54-61 | the corrected white double push; characterised by `WhiteDoublePushSquare` and `DoublePushTargets` |
| BitboardHelper.BlackDoublePushIntended | ChessBot.Core/Utils/BitBoards.cs:94-101 | the corrected black double push; characterised by `BlackDoublePushSquare` and `DoublePushTargets` |
| BitboardHelper.DoublePushAsWrittenIsEmpty | ChessBot.Core/Utils/BitBoards.cs:54-61 | as written, both double pushes are 0 for every input |
| BitboardHelper.DoublePushWitness | ChessBot.Core/Utils/BitBoards.cs:54-61 | a lone pawn on e2 gets nothing as written and e4 as intended; the same holds for e7 and e5 |
| BitboardHelper.DoublePushTargets | ChessBot.Core/Utils/BitBoards.cs:54-61 | the intended double pushes land on empty squares of rank 4 (White) or 5 (Black), and only from rank 2 (rank 7) |
| BitboardHelper.WhiteDoublePushSquare | ChessBot.Core/Utils/BitBoards.cs:54-61 | the intended white double push reaches two above a rank-2 square exactly when a pawn is there and both squares ahead are empty |
| BitboardHelper.BlackDoublePushSquare | ChessBot.Core/Utils/BitBoards.cs:94-101 | the same for Black, from rank 7 downwards |
| BitboardHelper.CapturesOnEnemy | ChessBot.Core/Utils/BitBoards.cs:69-114 | captures land only on enemy pieces |
| BitboardHelper.CapturesDoNotWrap | ChessBot.Core/Utils/BitBoards.cs:69-114 | the file masks stop a capture wrapping from file a to file h or back |
| BitboardHelper.WhiteCaptures | ChessBot.Core/Utils/BitBoards.cs:69-74 | definition; characterised by `WhiteCapturesSquare` |
| BitboardHelper.BlackCaptures | ChessBot.Core/Utils/BitBoards.cs:109-114 | definition; characterised by `BlackCapturesSquare` |
| BitboardHelper.WhiteCapturesSquare | ChessBot.Core/Utils/BitBoards.cs:69-74 | a square is a white capture exactly when it holds an enemy and a white pawn stands diagonally below it on a neighbouring file |
| BitboardHelper.BlackCapturesSquare | ChessBot.Core/Utils/BitBoards.cs:109-114 | a square is a black capture exactly when it holds an enemy and a black pawn stands diagonally above it on a neighbouring file |
| Bits.TrailingZeroCount | ChessBot.Core/Algorithms/Evaluation/Evaluation.cs:142 | `BitOperations.TrailingZeroCount` is 64 exactly for 0, else below 64 |
| Bits.TrailingZeroCountIsLowest | ChessBot.Core/Algorithms/Evaluation/Evaluation.cs:142-144 | it names the lowest set square, the one `pawns &= pawns - 1` removes |
| Bits.SumBitsBySquare | ChessBot.Core/Algorithms/Evaluation/Evaluation.cs:226-233 | visiting the squares lowest first adds up the same as visiting them by index |
| Bits.SumDisjoint | ChessBot.Core/Algorithms/Evaluation/Evaluation.cs:226-233 | sums over disjoint words add up |
| Bits.SumBounds | ChessBot.Core/Algorithms/Evaluation/Evaluation.cs:226-233 | with each weight in lo..hi, the sum lies between lo and hi times the popcount |
| Bits.PopCountIsSum | ChessBot.Core/Algorithms/Evaluation/Evaluation.cs:60-61 | `BitOperations.PopCount` counts the set squares |
| Bits.WordOfCount | ChessBot.Core/Algorithms/Evaluation/Evaluation.cs:248-262 | setting distinct squares one after the other gives a word with that many squares |
| Bits.WordOfHas | ChessBot.Core/Algorithms/Evaluation/Evaluation.cs:248-262 | the word holds exactly the squares that were set |
| BoardWords.PawnBitsHas | ChessBot.Core/Algorithms/Evaluation/Evaluation.cs:248-262 | a bit is set exactly when some listed piece sets it (its index taken modulo 64, as `1UL << n` does) |
| BoardWords.BitIndexOnBoard | ChessBot.Core/Algorithms/Evaluation/Evaluation.cs:250-252 | on the board the index `(rank - 1) * 8 + file` is in 0..63, and two pieces share it exactly when they share a square |
| BoardWords.SlotsDistinct | ChessBot.Core/Algorithms/Evaluation/Evaluation.cs:248-262 | pieces of a well-formed list set distinct bits |
| BoardWords.PawnBitsCount | ChessBot.Core/Algorithms/Evaluation/Evaluation.cs:60-61 | the popcount of a well-formed list's word is the list's length |
| BoardWords.ListBits | ChessBot.Core/Algorithms/Evaluation/Evaluation.cs:248-254 | one `foreach` of `GetPawnBitboards` sets the bit of each listed piece |
| BoardWords.GetPawnBitboards | ChessBot.Core/Algorithms/Evaluation/Evaluation.cs:243-264 | the white and the black word of the board |
| PassedPawns.RowFillHas | ChessBot.Core/Algorithms/Evaluation/Evaluation.cs:154-159 | the inner loop adds exactly the squares of the row on the files it visits that are on the board |
| PassedPawns.WhiteFillHas | ChessBot.Core/Algorithms/Evaluation/Evaluation.cs:152-160 | the white mask loop adds exactly the squares of the rows above, at most one file from the pawn |
| PassedPawns.BlackFillHas | ChessBot.Core/Algorithms/Evaluation/Evaluation.cs:164-172 | the black mask loop adds exactly the squares of the rows below, at most one file from the pawn |
| PassedPawns.ConeMaskHas | ChessBot.Core/Algorithms/Evaluation/Evaluation.cs:149-173 | the mask holds exactly the squares ahead of the pawn, at most one file away |
| PassedPawns.ConeFree | ChessBot.Core/Algorithms/Evaluation/Evaluation.cs:176 | `(enemyPawns & mask) == 0` holds exactly when no enemy pawn stands ahead on the pawn's or a neighbouring file |
| PassedPawns.FillRow | ChessBot.Core/Algorithms/Evaluation/Evaluation.cs:154-159 | the inner `for` loop computes the row fill |
| PassedPawns.ConeMaskOf | ChessBot.Core/Algorithms/Evaluation/Evaluation.cs:149-173 | the nested loops compute the cone mask |
| PassedPawns.RowsClear | ChessBot.Core/Algorithms/Evaluation/Evaluation.cs:178-203 | every free row ahead on the pawn's file makes the path clear |
| PassedPawns.PathBlocked | ChessBot.Core/Algorithms/Evaluation/Evaluation.cs:178-203 | an occupied square ahead on the pawn's file blocks the path |
| PassedPawns.ClearPathAhead | ChessBot.Core/Algorithms/Evaluation/Evaluation.cs:178-203 | the path loops answer whether the file ahead of the pawn is free of both colours |
| PassedPawns.EvaluatePassedPawnBonus | ChessBot.Core/Algorithms/Evaluation/Evaluation.cs:133-212 | the bonus is the sum of each own pawn's weight: 0 when not passed, else 300 (clear path) or 150, plus 50 per row advanced |
| PassedPawns.PassedWeightBounds | ChessBot.Core/Algorithms/Evaluation/Evaluation.cs:176-208 | a pawn earns something exactly when passed, at most 650, at least 300 with a clear path and 150 to 500 without |
| PassedPawns.PassedBonusBounds | ChessBot.Core/Algorithms/Evaluation/Evaluation.cs:133-212 | the bonus lies between 0 and 650 per own pawn |
| PassedPawns.NoEnemyAllPassed | ChessBot.Core/Algorithms/Evaluation/Evaluation.cs:133-212 | with no enemy pawns every own pawn earns at least 150 |
| Evaluation.EvaluateAdvancement | ChessBot.Core/Algorithms/Evaluation/Evaluation.cs:222-235 | the loop returns the sum of ten per row advanced over the pawns |
| Evaluation.AdvancementBounds | ChessBot.Core/Algorithms/Evaluation/Evaluation.cs:222-235 | each pawn adds between 0 and 70 |
| Evaluation.AdvancementOfPieces | ChessBot.Core/Algorithms/Evaluation/Evaluation.cs:222-264 | on a well-formed list, the advancement of its word is ten per row each listed piece has advanced from its side's first rank |
| Evaluation.CenterMaskSquares | ChessBot.Core/Algorithms/Evaluation/Evaluation.cs:104 | the centre mask is the four squares 27, 28, 35 and 36 |
| Evaluation.CenterMaskCount | ChessBot.Core/Algorithms/Evaluation/Evaluation.cs:104 | the centre has four squares |
| Evaluation.EvaluateCenterControl | ChessBot.Core/Algorithms/Evaluation/Evaluation.cs:101-120 | definition; characterised by `CenterMaskSquares`, `WhitePotentialSquare`, `BlackPotentialSquare` and `CenterControlBounds` |
| Evaluation.CenterControlBounds | ChessBot.Core/Algorithms/Evaluation/Evaluation.cs:101-120 | the centre score lies between -140 and 140 |
| Evaluation.WhitePotentialSquare | ChessBot.Core/Algorithms/Evaluation/Evaluation.cs:110 | a square is attacked by White exactly when a white pawn stands diagonally below it on a neighbouring file |
| Evaluation.BlackPotentialSquare | ChessBot.Core/Algorithms/Evaluation/Evaluation.cs:115 | a square is attacked by Black exactly when a black pawn stands diagonally above it on a neighbouring file |
| Evaluation.MaterialOfBoard | ChessBot.Core/Algorithms/Evaluation/Evaluation.cs:60-62 | on a consistent board the material is 100 times the difference of the list lengths |
| Evaluation.MoveCountBound | ChessBot.Core/Algorithms/Evaluation/Evaluation.cs:72-75 | a side has at most 128 counted moves |
| Evaluation.EvaluateBoard | ChessBot.Core/Algorithms/Evaluation/Evaluation.cs:47-90 | the score of the board for the root colour: ±(INF - 1) when the game is over, else the five terms from White's side, negated for any other colour |
| Evaluation.StaticScoreBounds | ChessBot.Core/Algorithms/Evaluation/Evaluation.cs:56-86 | the static score lies between -53900 and 53900 |
| Evaluation.TerminalScoresDominate | ChessBot.Core/Algorithms/Evaluation/Evaluation.cs:47-90 | a running game scores strictly between the two terminal scores, and a finished one scores one of them |
| Evaluation.ScoreZeroSum | ChessBot.Core/Algorithms/Evaluation/Evaluation.cs:47-90 | White's score is minus Black's; a running game scores for no colour as for Black |
| Evaluation.ScoreOfFinishedGame | ChessBot.Core/Algorithms/Evaluation/Evaluation.cs:50-54 | a finished game has a winner, and scores INF - 1 exactly for it |
| Evaluation.MobilityOf | ChessBot.Core/Algorithms/Evaluation/Evaluation.cs:69-76 | the mobility term is ten times the difference of the two sides' single pushes into empty squares plus captures |
| Evaluation.StaticScoreOf | ChessBot.Core/Algorithms/Evaluation/Evaluation.cs:56-86 | the static score is the sum of centre control, material, the advancement difference, mobility and the passed-pawn difference |
| Evaluation.Score | ChessBot.Core/Algorithms/Evaluation/Evaluation.cs:47-90 | the score `EvaluateBoard` computes; characterised by `ScoreOfFinishedGame`, `NonTerminalScore`, `ScoreZeroSum` and `TerminalScoresDominate` |
| Evaluation.NonTerminalScore | ChessBot.Core/Algorithms/Evaluation/Evaluation.cs:86-89 | outside a finished game the score is the static score for White and its negation for any other colour |
| Words.XorWord | ChessBot.Core/Board/ChessBoard.cs:194 | `^` on two `ulong`s stays a `ulong` and is the bitwise exclusive or |
| Words.XorZero | ChessBot.Core/Board/ChessBoard.cs:185 | XOR with 0, the starting hash, changes nothing |
| Words.XorSelf | ChessBot.Core/Board/ChessBoard.cs:194 | a word XORed with itself is 0 |
| Words.XorComm | ChessBot.Core/Board/ChessBoard.cs:194 | XOR is commutative |
| Words.XorAssoc | ChessBot.Core/Board/ChessBoard.cs:194 | XOR is associative |
| Words.XorCancel | ChessBot.Core/Board/ChessBoard.cs:194 | a word common to both sides cancels |
| Words.XorBound | ChessBot.Core/Board/ChessBoard.cs:194 | the XOR of two words below 2^k is below 2^k |
| Zobrist.KeyedIff | ChessBot.Core/Board/ChessBoard.cs:188-194 | the table index of a piece is in range exactly when it is Empty (skipped) or White or Black on a declared square |
| Zobrist.XorKeysSkip | ChessBot.Core/Board/ChessBoard.cs:188-189 | an Empty piece adds nothing to the hash |
| Zobrist.XorKeysAppend | ChessBot.Core/Board/ChessBoard.cs:186-195 | each further piece XORs its table key into the hash |
| Zobrist.XorKeysRemove | ChessBot.Core/Board/ChessBoard.cs:186-195 | taking any one piece out of the fold removes exactly its key |
| Zobrist.XorKeysOrderFree | ChessBot.Core/Board/ChessBoard.cs:186-195 | the fold over the pieces does not depend on their order |
| Zobrist.ZobristOrderFree | ChessBot.Core/Board/ChessBoard.cs:183-199 | boards listing the same pieces, in any order and split in any way between the lists, hash alike |
| Zobrist.SideToMoveDiffers | ChessBot.Core/Board/ChessBoard.cs:197 | the White-to-move and Black-to-move hashes of a board differ by exactly `WhiteToMove ^ BlackToMove` |
| Zobrist.ConsistentHashable | ChessBot.Core/Board/ChessBoard.cs:183-199 | the hash of a consistent board never throws |
| TranspositionTables.Lookup | ChessBot.Core/Algorithms/TranspositionTable.cs:85-96 | an entry is handed out exactly when one is stored for the hash at the depth asked or deeper, and it is the stored entry |
| TranspositionTables.TranspositionTable.constructor | ChessBot.Core/Algorithms/TranspositionTable.cs:70 | the table starts empty |
| TranspositionTables.TranspositionTable.TryGet | ChessBot.Core/Algorithms/TranspositionTable.cs:85-96 | true with the stored entry exactly when one is stored at that depth or deeper; otherwise false with no entry |
| TranspositionTables.TranspositionTable.Store | ChessBot.Core/Algorithms/TranspositionTable.cs:108-118 | the new entry replaces whatever was stored for the hash, and no other entry changes |
| TranspositionTables.StoreThenLookup | ChessBot.Core/Algorithms/TranspositionTable.cs:85-118 | after a store at depth d, a read of that hash at depth d or less gives the stored entry, and a deeper read gives none |
| TranspositionTables.StoreKeepsOthers | ChessBot.Core/Algorithms/TranspositionTable.cs:85-118 | a store leaves every read of another hash as it was |
| TranspositionTables.LastStoreWins | ChessBot.Core/Algorithms/TranspositionTable.cs:108-118 | the last write wins, even over a deeper entry, which is then lost to deep reads |
| TranspositionTables.LookupMonotone | ChessBot.Core/Algorithms/TranspositionTable.cs:85-96 | a read that succeeds at some depth also succeeds at any shallower depth, with the same entry |
| MoveOrdering.OrderMoves | ChessBot.Core/Algorithms/Search/MoveOrdering.cs:45-67 | the result is a permutation of the moves, sorted by descending score (1000 for a capture plus ten times the ranks advanced), and moves of equal score keep their input order |
| MoveOrdering.OrderIgnoresBoard | ChessBot.Core/Algorithms/Search/MoveOrdering.cs:45-67 | the order depends on the moves alone, not on the board or the side to move passed in |
| MoveOrdering.GeneratedMoveScore | ChessBot.Core/Algorithms/Search/MoveOrdering.cs:47-66 | a generated capture scores 1010, a double push 20 and a single push 10, and a generated move carries a captured piece exactly when it is a capture or an en passant capture |
| MoveOrdering.CapturesFirst | ChessBot.Core/Algorithms/Search/MoveOrdering.cs:45-67 | after ordering the generated moves no quiet move comes before a capture, and no single push before a double push |
| MoveOrdering.GenerateCaptureMoves | ChessBot.Core/Algorithms/Search/MoveOrdering.cs:82-94 | the captures of every piece of the side to move, piece after piece in list order, as `CapturingMove` yields them |
| MoveOrdering.CaptureMovesAreCaptures | ChessBot.Core/Algorithms/Search/MoveOrdering.cs:82-94 | each such move is a capturing move of a listed piece of the side, is one of its possible moves, and leaves a consistent board with fewer pieces |
| StableSort.SortPermutes | ChessBot.Core/Algorithms/Search/MoveOrdering.cs:47-66 | `OrderByDescending` returns a permutation of its input |
| StableSort.SortDescends | ChessBot.Core/Algorithms/Search/MoveOrdering.cs:47-66 | the keys of the result never increase |
| StableSort.SortStable | ChessBot.Core/Algorithms/Search/MoveOrdering.cs:47-66 | for every key the elements with that key keep their input order (the sort is stable) |
| StableSort.SortSameOrder | ChessBot.Core/Algorithms/Search/MoveOrdering.cs:47-66 | two keys that compare the elements alike give the same sorted sequence |
| SearchCommon.Opponent | ChessBot.Core/Algorithms/Search/AlphaBetaSearch.cs:243-246 | the opponent is never the colour itself nor the empty colour, and it is Black exactly for White |
| SearchCommon.OpponentInvolution | ChessBot.Core/Algorithms/Search/AlphaBetaSearch.cs:243-246 | on White and Black, taking the opponent twice gives the colour back |
| SearchCommon.CollectMember | ChessBot.Core/Algorithms/Search/AlphaBetaSearch.cs:101-106 | a move is in the collected list exactly when one of the pieces yields it |
| SearchCommon.CollectEmpty | ChessBot.Core/Algorithms/Search/AlphaBetaSearch.cs:101-111 | the collected list is empty exactly when no piece yields a move |
| SearchCommon.GenerateMoves | ChessBot.Core/Algorithms/Search/AlphaBetaSearch.cs:101-106 | the loop returns every possible move of every piece of the side, in list order |
| SearchCommon.NoSideMovesEndsGame | ChessBot.Core/Algorithms/Search/AlphaBetaSearch.cs:107-111 | a side with no move at all is in a finished game, so the no-move branch is only reached once the game is over |
| SearchCommon.SideMoveOrigin | ChessBot.Core/Algorithms/Search/AlphaBetaSearch.cs:101-106 | every move of the side is a possible move of one of its listed pieces |
| SearchCommon.ExecuteMoveIgnoresLastMove | ChessBot.Core/Algorithms/Search/AlphaBetaSearch.cs:127-128 | a move that succeeds gives the same board whatever the last move recorded on it was |
| SearchCommon.ChildOf | ChessBot.Core/Algorithms/Search/AlphaBetaSearch.cs:127-128 | cloning and then executing a generated move succeeds, gives a consistent board, and records the move as the last move |
| SearchCommon.SideChild | ChessBot.Core/Algorithms/Search/AlphaBetaSearch.cs:127-128 | the child by any move of the side is consistent and records that move |
| SearchCommon.CaptureShrinks | ChessBot.Core/Algorithms/Search/AlphaBetaSearch.cs:204-210 | a capture leaves fewer pieces on the board, which is why the quiescence search ends |
| SearchCommon.MakeChild | ChessBot.Core/Algorithms/Search/AlphaBetaSearch.cs:127-128 | the child is a new board, distinct from the parent, whose position is the parent's with the move played |
| SearchCommon.Classify | ChessBot.Core/Algorithms/Search/AlphaBetaSearch.cs:145-146 | the stored flag is UpperBound exactly when the value is at most the original alpha, LowerBound exactly when it lies above it and at or above beta, and Exact exactly when it lies strictly inside the window |
| SearchSpec.Order | ChessBot.Core/Algorithms/Search/AlphaBetaSearch.cs:114 | whatever the engine, ordering keeps the moves with their multiplicities |
| SearchSpec.Node | ChessBot.Core/Algorithms/Search/AlphaBetaSearch.cs:49-176 | one node of any of the four searches only adds entries to the table, never removes one |
| SearchSpec.Probe | ChessBot.Core/Algorithms/Search/AlphaBetaSearch.cs:59-82 | with no entry the window is unchanged; a hit answers with the stored value and move; a window left by the probe lies inside the given one |
| SearchSpec.ProbeTable | ChessBot.Core/Algorithms/Search/AlphaBetaSearch.cs:56-82 | the probe of the table object gives the probe outcome of the entry `TryGet` finds for the hash and depth |
| SearchSpec.NodeOfProbe | ChessBot.Core/Algorithms/Search/AlphaBetaSearch.cs:56-82 | a node whose probe answers returns the stored value and move and leaves the table alone; otherwise it searches with the window the probe left |
| SearchSpec.Expand | ChessBot.Core/Algorithms/Search/AlphaBetaSearch.cs:84-176 | after the probe a node only adds table entries, and any best move it returns is a move of the side to move |
| SearchSpec.SearchMoves | ChessBot.Core/Algorithms/Search/AlphaBetaSearch.cs:113-175 | the node stores its value and best move under its hash at its depth, with UpperBound exactly when the value is at most alpha; the root side stores Exact exactly for a value inside the window; the other side never stores Exact, because it stores after narrowing beta to its value |
| SearchSpec.SearchMovesOfFold | ChessBot.Core/Algorithms/Search/AlphaBetaSearch.cs:113-175 | the search of the moves is the move loop followed by one store of the flag classified against the original alpha and the final beta |
| SearchSpec.ExpandWithoutMoves | ChessBot.Core/Algorithms/Search/AlphaBetaSearch.cs:107-111 | with no move the node returns the engine's static value with no move and does not store anything |
| SearchSpec.ExpandWithMoves | ChessBot.Core/Algorithms/Search/AlphaBetaSearch.cs:113-175 | with moves and depth left, a node of a game still going on searches its moves |
| SearchSpec.Step | ChessBot.Core/Algorithms/Search/AlphaBetaSearch.cs:130-141 | one turn of the loop: the maximiser takes the larger score and raises alpha to it, the minimiser takes the smaller and lowers beta to it, and the best move changes only on a strict improvement |
| SearchSpec.Fold | ChessBot.Core/Algorithms/Search/AlphaBetaSearch.cs:120-175 | the loop only adds table entries; the maximiser's beta is unchanged; the minimiser ends with beta at most its value once it has seen a move; the best move is the initial one or one of the moves |
| SearchSpec.FoldUnfold | ChessBot.Core/Algorithms/Search/AlphaBetaSearch.cs:124-142 | one turn of the loop searches the first child one ply deeper with the current window for the opponent, takes the step, and stops once alpha reaches beta |
| SearchSpec.CaptureChild | ChessBot.Core/Algorithms/Search/AlphaBetaSearch.cs:204-210 | every capture the quiescence search follows leaves a consistent board with fewer pieces |
| SearchSpec.QValue | ChessBot.Core/Algorithms/Search/AlphaBetaSearch.cs:190-236 | with a well-formed window the quiescence value lies inside it (fail-hard) |
| SearchSpec.QFold | ChessBot.Core/Algorithms/Search/AlphaBetaSearch.cs:206-215 | the capture loop also returns a value inside a well-formed window |
| SearchProperties.ExactEntryAnswers | ChessBot.Core/Algorithms/Search/AlphaBetaSearch.cs:59-66 | an Exact entry at least as deep as the node answers it: stored value and move, table unchanged |
| SearchProperties.BoundEntryCutsOff | ChessBot.Core/Algorithms/Search/AlphaBetaSearch.cs:68-81 | a lower bound at or above beta, or an upper bound at or below alpha, answers the node with the stored value |
| SearchProperties.BoundEntryNarrows | ChessBot.Core/Algorithms/Search/AlphaBetaSearch.cs:68-76 | a bound strictly inside the window narrows alpha (lower bound) or beta (upper bound) to the stored value before the node is searched |
| SearchProperties.MissSearches | ChessBot.Core/Algorithms/Search/AlphaBetaSearch.cs:56-59 | with no usable entry the node is searched with the window it was given, under the hash of its board |
| SearchProperties.FinishedGame | ChessBot.Core/Algorithms/Search/AlphaBetaSearch.cs:84-92 | a finished game is worth INF minus the ply to the winner's side and its negation to the other side in the live search, 10000 or -10000 in MinMax2, and the static score in MinMax.cs; nothing is stored |
| SearchProperties.Horizon | ChessBot.Core/Algorithms/Search/AlphaBetaSearch.cs:94-98 | at depth zero the live, final and MinMax2 searches return the quiescence value, and MinMax.cs the static score, without storing |
| SearchProperties.MinMax2NoMoveBranchDead | ChessBot.Core/Algorithms/MinMax2.cs:41-45 | in MinMax2 a side without moves is already caught by the game-over test, so the no-move branch is never reached |
| SearchProperties.FinalNoMovesIsTerminal | ChessBot.Core/Algorithms/FinalAlgorithm.cs:70-77 | in FinalAlgorithm a side without moves gets the finished-game score INF - 1 or -INF + 1 |
| SearchProperties.MinimaxSidesShareEntries | ChessBot.Core/Algorithms/MinMax.cs:32-45 | MinMax.cs hashes with the colour it optimises, so an Exact entry answers the node for White to move and for Black to move alike |
| SearchProperties.ExpandSearches | ChessBot.Core/Algorithms/Search/AlphaBetaSearch.cs:113-175 | above the horizon a node of a game still going on, with moves, searches them |
| SearchProperties.QuiescenceStandPat | ChessBot.Core/Algorithms/Search/AlphaBetaSearch.cs:193-222 | stand pat: the maximiser returns beta once the static score reaches it, the minimiser returns alpha once the static score falls to it, and with no captures the value is the static score clamped to the window |
| AlphaBetaSearch.AlphaBeta | ChessBot.Core/Algorithms/Search/AlphaBetaSearch.cs:49-176 | returns the value and best move of the search specification for the live engine and leaves the table it leaves |
| AlphaBetaSearch.Expand | ChessBot.Core/Algorithms/Search/AlphaBetaSearch.cs:84-176 | the part after the probe computes the specification's value, move and table |
| AlphaBetaSearch.ExpandMoves | ChessBot.Core/Algorithms/Search/AlphaBetaSearch.cs:94-176 | the horizon, move generation and no-move branches compute the specification's result |
| AlphaBetaSearch.SearchMoves | ChessBot.Core/Algorithms/Search/AlphaBetaSearch.cs:113-175 | ordering, the loop and the store compute the specification's result |
| AlphaBetaSearch.SearchOrdered | ChessBot.Core/Algorithms/Search/AlphaBetaSearch.cs:114-175 | orders the moves and runs the loop of the side to move, ending in the specification's loop state |
| AlphaBetaSearch.Maximize | ChessBot.Core/Algorithms/Search/AlphaBetaSearch.cs:120-143 | the maximiser's loop ends in the specification's loop state |
| AlphaBetaSearch.Minimize | ChessBot.Core/Algorithms/Search/AlphaBetaSearch.cs:152-170 | the minimiser's loop ends in the specification's loop state |
| AlphaBetaSearch.ChildScore | ChessBot.Core/Algorithms/Search/AlphaBetaSearch.cs:127-130 | plays the move on a clone and returns the child's value one ply deeper for the opponent, with the table the child search leaves |
| AlphaBetaSearch.Quiescence | ChessBot.Core/Algorithms/Search/AlphaBetaSearch.cs:190-236 | returns the specification's quiescence value, which lies inside a well-formed window |
| AlphaBetaSearch.SearchCaptures | ChessBot.Core/Algorithms/Search/AlphaBetaSearch.cs:204-205 | generates and orders the captures and returns the specification's capture-loop value |
| AlphaBetaSearch.CaptureLoop | ChessBot.Core/Algorithms/Search/AlphaBetaSearch.cs:206-234 | the capture loops move the bound of the side to move and return the other bound once the window closes |
| FinalAlgorithm.GetBestMove | ChessBot.Core/Algorithms/FinalAlgorithm.cs:14-35 | returns the move, and leaves the table, of iterative deepening with the aspiration window and no clock over FinalAlgorithm's search, which keeps whatever move the last depth gave |
| FinalAlgorithm.AlphaBeta | ChessBot.Core/Algorithms/FinalAlgorithm.cs:37-129 | returns the value and best move of the search specification for FinalAlgorithm (probe, horizon, moves, with no game-over test) and leaves its table |
| FinalAlgorithm.Expand | ChessBot.Core/Algorithms/FinalAlgorithm.cs:63-128 | the part after the probe computes the specification's result |
| FinalAlgorithm.ExpandMoves | ChessBot.Core/Algorithms/FinalAlgorithm.cs:68-128 | move generation, the no-move branch and the move search compute the specification's result |
| FinalAlgorithm.SearchMoves | ChessBot.Core/Algorithms/FinalAlgorithm.cs:79-128 | ordering, the loop and the store compute the specification's result |
| FinalAlgorithm.SearchOrdered | ChessBot.Core/Algorithms/FinalAlgorithm.cs:79-128 | orders the moves and runs the loop of the side to move, ending in the specification's loop state |
| FinalAlgorithm.Maximize | ChessBot.Core/Algorithms/FinalAlgorithm.cs:83-100 | the maximiser's loop ends in the specification's loop state |
| FinalAlgorithm.Minimize | ChessBot.Core/Algorithms/FinalAlgorithm.cs:106-123 | the minimiser's loop ends in the specification's loop state |
| FinalAlgorithm.ChildScore | ChessBot.Core/Algorithms/FinalAlgorithm.cs:88-90 | plays the move on a clone and returns the child's value for the opponent, with the table the child search leaves |
| FinalAlgorithm.Quiescence | ChessBot.Core/Algorithms/FinalAlgorithm.cs:131-172 | returns the specification's quiescence value over FinalAlgorithm's evaluation and captures |
| FinalAlgorithm.SearchCaptures | ChessBot.Core/Algorithms/FinalAlgorithm.cs:140-141 | generates and orders the captures and returns the capture-loop value |
| FinalAlgorithm.CaptureLoop | ChessBot.Core/Algorithms/FinalAlgorithm.cs:142-170 | the capture loops return the specification's capture-loop value |
| FinalHelpers.EvaluateBoard | ChessBot.Core/Algorithms/FinalAlgorithm.cs:212-237 | returns FinalAlgorithm's score of the board for the root colour |
| FinalHelpers.FinalScore | ChessBot.Core/Algorithms/FinalAlgorithm.cs:212-237 | the score `EvaluateBoard` computes; characterised by `FinalScoreLacksCentre`, `NonTerminalFinalScore` and `FinalScoreBounds` |
| FinalHelpers.FinalStaticOf | ChessBot.Core/Algorithms/FinalAlgorithm.cs:221-235 | the static score is material plus White's advancement minus Black's plus mobility plus the difference of the passed-pawn bonuses |
| FinalHelpers.NonTerminalFinalScore | ChessBot.Core/Algorithms/FinalAlgorithm.cs:221-236 | outside a finished game the score is the static score for White and its negation for Black |
| FinalHelpers.FinalScoreLacksCentre | ChessBot.Core/Algorithms/FinalAlgorithm.cs:212-237 | the score is the shared evaluation's score without its centre-control term |
| FinalHelpers.FinalScoreBounds | ChessBot.Core/Algorithms/FinalAlgorithm.cs:212-237 | outside a finished game the score lies strictly between -INF + 1 and INF - 1, so a finished game always scores beyond it, and the two colours' scores are opposite |
| FinalHelpers.WithCaptureMember | ChessBot.Core/Algorithms/FinalAlgorithm.cs:180 | the filter keeps exactly the moves that capture a piece |
| FinalHelpers.GenerateCaptureMoves | ChessBot.Core/Algorithms/FinalAlgorithm.cs:174-184 | the possible moves of each piece of the side that capture a piece, piece after piece |
| FinalHelpers.FinalCapturesAreCaptures | ChessBot.Core/Algorithms/FinalAlgorithm.cs:174-184 | each is a capture or en passant capture of a listed piece of the side and leaves a consistent board with fewer pieces |
| FinalHelpers.FinalCapturesComplete | ChessBot.Core/Algorithms/FinalAlgorithm.cs:174-184 | every move of the side that captures a piece is among them |
| MinMax2.GetBestMove | ChessBot.Core/Algorithms/MinMax2.cs:12-35 | returns the move, and leaves the table, of iterative deepening with no clock over MinMax2's search, which keeps the previous move when a depth gives none |
| MinMax2.AlphaBeta | ChessBot.Core/Algorithms/MinMax2.cs:37-133 | the game-over test and the horizon come first; the value, move and table are those of the specification for MinMax2 |
| MinMax2.ProbeAndSearch | ChessBot.Core/Algorithms/MinMax2.cs:52-133 | the probe and the rest of the node compute the specification's result |
| MinMax2.ExpandMoves | ChessBot.Core/Algorithms/MinMax2.cs:75-133 | move generation, the no-move branch and the move search compute the specification's result |
| MinMax2.SearchMoves | ChessBot.Core/Algorithms/MinMax2.cs:86-132 | ordering, the loop and the store compute the specification's result |
| MinMax2.SearchOrdered | ChessBot.Core/Algorithms/MinMax2.cs:86-132 | orders the moves and runs the loop of the side to move, ending in the specification's loop state |
| MinMax2.Maximize | ChessBot.Core/Algorithms/MinMax2.cs:89-105 | the maximiser's loop ends in the specification's loop state |
| MinMax2.Minimize | ChessBot.Core/Algorithms/MinMax2.cs:111-127 | the minimiser's loop ends in the specification's loop state |
| MinMax2.ChildScore | ChessBot.Core/Algorithms/MinMax2.cs:94-96 | plays the move on a clone and returns the child's value for the opponent, with the table the child search leaves |
| MinMax2.Quiescence | ChessBot.Core/Algorithms/MinMax2.cs:135-177 | returns the specification's quiescence value over MinMax2's evaluation and captures |
| MinMax2.SearchCaptures | ChessBot.Core/Algorithms/MinMax2.cs:144-145 | generates and orders the captures and returns the capture-loop value |
| MinMax2.CaptureLoop | ChessBot.Core/Algorithms/MinMax2.cs:146-176 | the capture loops return the specification's capture-loop value |
| MinMax2Helpers.OrderMoves | ChessBot.Core/Algorithms/MinMax2.cs:192-217 | a permutation sorted by descending key (100 for a capture plus the ranks advanced), stable on equal keys |
| MinMax2Helpers.Key | ChessBot.Core/Algorithms/MinMax2.cs:194-211 | the ordering key of a move; characterised by `OrderMatchesLive` |
| MinMax2Helpers.OrderMatchesLive | ChessBot.Core/Algorithms/MinMax2.cs:192-217 | on any moves this order is the same as the shared move ordering's, although the weights differ |
| MinMax2Helpers.Evaluate | ChessBot.Core/Algorithms/MinMax2.cs:224-247 | returns MinMax2's score of the board for the root colour |
| MinMax2Helpers.Score | ChessBot.Core/Algorithms/MinMax2.cs:224-247 | the score `Evaluate` computes; characterised by `ScoreFacts` and `SumsBounded` |
| MinMax2Helpers.SumsBounded | ChessBot.Core/Algorithms/MinMax2.cs:235-242 | every piece on the board adds between 1 and 8 to its side's sum |
| MinMax2Helpers.ScoreFacts | ChessBot.Core/Algorithms/MinMax2.cs:224-247 | the two colours' scores are opposite; a finished game is worth 10000 to the winner and -10000 to the loser; each side's sum lies between its piece count and eight times it |
| Minimax.GetBestMove | ChessBot.Core/Algorithms/MinMax.cs:7-22 | searches from the colour to optimise with the whole int range as window, and returns the move found or the "No valid moves found" error when the search gives none |
| Minimax.MinimaxWithAlphaBeta | ChessBot.Core/Algorithms/MinMax.cs:24-116 | returns the best move and value of the search specification for MinMax.cs, which hashes with the optimised colour and does not order moves, and leaves its table |
| Minimax.Expand | ChessBot.Core/Algorithms/MinMax.cs:46-115 | the part after the probe computes the specification's result |
| Minimax.ExpandMoves | ChessBot.Core/Algorithms/MinMax.cs:52-115 | move generation, the no-move branch and the move search compute the specification's result |
| Minimax.SearchMoves | ChessBot.Core/Algorithms/MinMax.cs:62-115 | the loop over the unordered moves and the store compute the specification's result |
| Minimax.MoveLoop | ChessBot.Core/Algorithms/MinMax.cs:68-104 | the loop ends in the specification's loop state |
| Minimax.ChildValue | ChessBot.Core/Algorithms/MinMax.cs:70-81 | plays the move on a clone and returns the child's value for the other colour, with the table the child search leaves |
| MinimaxHelpers.IsPassedPawn | ChessBot.Core/Algorithms/MinMax.cs:216-242 | answers the passed-pawn test |
| MinimaxHelpers.CheckFile | ChessBot.Core/Algorithms/MinMax.cs:221-224 | a file off the board is skipped, any other is scanned |
| MinimaxHelpers.ScanFile | ChessBot.Core/Algorithms/MinMax.cs:226-239 | the inner loop answers whether no enemy stands ahead on the file |
| MinimaxHelpers.EnemyAtMeans | ChessBot.Core/Algorithms/MinMax.cs:231-235 | on well-formed lists the square holds an enemy exactly when one of the opponent's pieces stands on it |
| MinimaxHelpers.FileClearMeans | ChessBot.Core/Algorithms/MinMax.cs:226-239 | the inner loop finds no enemy exactly when no opponent piece on the file stands that far ahead |
| MinimaxHelpers.FileOkMeans | ChessBot.Core/Algorithms/MinMax.cs:221-239 | one file is clear exactly when no opponent piece on it stands ahead of the pawn |
| MinimaxHelpers.PassedMeans | ChessBot.Core/Algorithms/MinMax.cs:216-242 | a pawn is passed exactly when no opponent piece stands ahead of it on its own file or a neighbouring one |
| MinimaxHelpers.FileOnBoard | ChessBot.Core/Algorithms/MinMax.cs:223-226 | a file on the board is scanned |
| MinimaxHelpers.FileOffBoard | ChessBot.Core/Algorithms/MinMax.cs:224 | a file beside the edge of the board is skipped and counts as clear |
| MinimaxHelpers.AheadSplits | ChessBot.Core/Algorithms/MinMax.cs:221 | an enemy ahead stands on one of the three files looked at |
| MinimaxHelpers.IsPawnBlocked | ChessBot.Core/Algorithms/MinMax.cs:244-249 | definition; characterised by `IsPawnBlockedMeans` |
| MinimaxHelpers.IsPawnBlockedMeans | ChessBot.Core/Algorithms/MinMax.cs:244-249 | a pawn is blocked exactly when a piece of either colour stands on the next square towards promotion |
| MinimaxHelpers.EvaluateBoard | ChessBot.Core/Algorithms/MinMax.cs:119-214 | returns MinMax.cs's score of the board for the colour |
| MinimaxHelpers.Score | ChessBot.Core/Algorithms/MinMax.cs:119-214 | the score `EvaluateBoard` computes; characterised by `ScoreFacts`, `WhitePawnScore`, `BlackPawnScore` and `PawnValueBounds` |
| MinimaxHelpers.WhitePawnScore | ChessBot.Core/Algorithms/MinMax.cs:141-179 | the White loop body adds the base value, the advancement, the passed and blocked terms and the promotion bonus |
| MinimaxHelpers.BlackPawnScore | ChessBot.Core/Algorithms/MinMax.cs:182-208 | the Black loop body adds the same terms measured towards rank 1 |
| MinimaxHelpers.WhitePathClearMeans | ChessBot.Core/Algorithms/MinMax.cs:161-170 | the White path loop finds the file empty exactly when no square from the start rank to rank 8 holds a piece |
| MinimaxHelpers.BlackPathClearMeans | ChessBot.Core/Algorithms/MinMax.cs:195-203 | the Black path loop finds the file empty exactly when no square from the start rank down to rank 1 holds a piece |
| MinimaxHelpers.PawnValueBounds | ChessBot.Core/Algorithms/MinMax.cs:141-208 | a White pawn on the board is worth between 7 and 161, a Black one between 5 and 159 |
| MinimaxHelpers.ScoreFacts | ChessBot.Core/Algorithms/MinMax.cs:119-214 | outside a finished game the two colours' scores are opposite; a finished game has a winner, worth int.MaxValue - 1 to it and int.MinValue + 1 to the other colour |
| Deepening.Keep | ChessBot.Core/Algorithms/MinMax2.cs:31-32 | after each depth MinMax2 keeps the previous move when the search gave none; the other deepening loops take the search's move as it is |
| Deepening.SearchDepth | ChessBot.Core/Algorithms/Search/IterativeDeepeningSearch.cs:63-77 | one depth searches with the aspiration window and again with the full window when the score falls on or outside it; the table only gains entries |
| Deepening.Deepen | ChessBot.Core/Algorithms/Search/IterativeDeepeningSearch.cs:44-84 | the deepening loop only adds table entries, and once MinMax2 has a move it keeps one |
| DeepeningProperties.NoDepthNoMove | ChessBot.Core/Algorithms/Search/IterativeDeepeningSearch.cs:56 | with a maximum depth below 1 nothing is searched: no move, and the table is untouched |
| DeepeningProperties.NoTimeNoMove | ChessBot.Core/Algorithms/Search/IterativeDeepeningSearch.cs:59-60 | with a time limit of zero or less the first clock reading stops the loop: no move, and the table is untouched |
| DeepeningProperties.LateDepthDiscarded | ChessBot.Core/Algorithms/Search/IterativeDeepeningSearch.cs:67-71 | when time runs out during a depth, that depth's result is discarded but the entries its search stored stay in the table |
| DeepeningProperties.DeadlineEndsLoop | ChessBot.Core/Algorithms/Search/IterativeDeepeningSearch.cs:56-60 | once the reading before depth d is late, the loop gives what it would with d - 1 as the maximum depth |
| DeepeningProperties.InsideWindowKept | ChessBot.Core/Algorithms/Search/IterativeDeepeningSearch.cs:63-80 | a score strictly inside the aspiration window becomes the next guess and its move is kept, with no second search |
| DeepeningProperties.OutsideWindowReSearched | ChessBot.Core/Algorithms/Search/IterativeDeepeningSearch.cs:74-80 | a score on or outside the window is searched again with the full window, and that second result is kept |
| IterativeDeepeningSearch.GetBestMove | ChessBot.Core/Algorithms/Search/IterativeDeepeningSearch.cs:44-84 | returns the move, and leaves the table, of the timed deepening loop over the live search, given the stopwatch readings |

## Design notes

What the proofs show about the code as written:

- A minimising node never stores an `Exact` entry. It lowers beta to its own value before the store, so its value is never strictly below the final beta (`SearchSpec.SearchMoves`).
- In MinMax2 the no-move branch (MinMax2.cs:81-84) cannot be reached. A side without moves has already ended the game, and the game-over test comes first (`SearchProperties.MinMax2NoMoveBranchDead`).
- FinalAlgorithm has no game-over test of its own. A finished game there is scored by the no-move branch, or by the quiescence search at the horizon (`SearchProperties.FinalNoMovesIsTerminal`).
- The live search and MinMax.cs probe the table before their game-over test, so a stored entry can answer for a finished position (`SearchProperties.ExactEntryAnswers`).
- MinMax.cs hashes every node with the colour it optimises, so White-to-move and Black-to-move nodes of the same board share one entry (`SearchProperties.MinimaxSidesShareEntries`).

## Left out

- Console output is not modelled: `ChessBoard.PrintBoard`, and the two evaluations `Minimax.GetBestMove` computes only to print them (MinMax.cs:18-20).
- The Zobrist key table is an input (`Zobrist.ZobristKeys`). Its filling by `System.Random(123456)` in the static constructor of Zobrist.cs is a foreign generator and is not modelled, so no property depends on particular key values.
- The stopwatch of `IterativeDeepeningSearch.GetBestMove` is an input: `elapsed(k)` is the k-th reading in milliseconds.
- The static transposition table is a `TranspositionTables.TranspositionTable` object passed to the searches. The Zobrist keys are passed the same way.
- FinalAlgorithm, MinMax2 and MinMax.cs have no ply counter. Their methods carry a ghost `ply` only so that one specification serves all four searches, and none of their values depends on it.
- Integers are unbounded, so 32-bit overflow is not modelled. The `int.MinValue`/`int.MaxValue` sentinels of MinMax.cs are written out as the constants `MinimaxHelpers.IntMinValue` and `MinimaxHelpers.IntMaxValue`.
- AlphaBetaSearch.AlphaBeta, FinalAlgorithm.AlphaBeta, MinMax2.AlphaBeta, Minimax.MinimaxWithAlphaBeta, and the deepening loops over them: these require a consistent board, whose grid and piece lists agree. The C# does not check this. On such a board every generated move executes without an exception, and a capture removes a piece, which is what bounds the quiescence search. On other boards the C# can throw or fail to terminate, and the model does not follow it there.
- Depths are `nat`. The C# callers never pass a negative depth: the loops start at 1, each ply subtracts one, and the search stops at 0.
- Several C# methods are split into helper methods with their own contracts. Examples are the probe (`SearchSpec.ProbeTable`), each engine's move loops, `BoardInitializer.ClearRank`, `ChessBoard.InitPieces` and `MinimaxHelpers.CheckFile`. The split does not change what is computed.
- `EndGame.GetWinner`: Evaluation.cs and the four searches call it, but EndGame.cs does not define it. The model supplies it as the colour named by the first game-over reason that holds, and `NoColor` while the game goes on; its contract can only be as faithful as that assumed rule.
- `Positions.FindAt`, `Positions.GetPieceAt`: `SingleOrDefault` (ChessBoard.cs:165-166) throws when two pieces of one list stand on the square; the model returns the first of them instead and does not model that throw. Boards the program builds never hold two: `ListsOk` (one piece per square in each list, part of `Consistent`) holds on a new board (`PositionFacts.NewBoardEmpty`) and is kept by `PositionFacts.SetupKeeps`, `PositionFacts.ExecuteMoveKeeps` and `PositionFacts.CloneIntoKeeps`.
- MinMax.cs:126 compares the winner with `ChessColor.none`, a member the enumeration does not declare (it declares `None`). The model reads it as the declared `None` (`ChessColor.NoColor`) and keeps the draw branch, which scores 0, in `MinimaxHelpers.Score` and `MinimaxHelpers.EvaluateBoard`. Under the `GetWinner` above a finished game always has a winner, so `MinimaxHelpers.ScoreFacts` proves the branch is never taken.
- `ChessBoard.ExecuteMove` ends with a game-over test whose result is discarded (ChessBoard.cs:213-216). The model leaves it out because it changes nothing.
- Game.cs, TcpGameClient.cs and Program.cs (console and network I/O and the turn loop), the agents under Agents/ (forwarders, random choice and human input), and the dead stub Board.cs are not part of the model.
- The lazy enumeration of the C# iterators (`yield return`, LINQ) is modelled by the sequences they produce. Only their order and contents matter to the callers.

## Findings

| source | as written | input that shows it | evidently intended | confidence | as-written member | corrected member |
|---|---|---|---|---|---|---|
| ChessBot.Core/Utils/BitBoards.cs:54-61 | `WhiteDoublePush` (and the mirrored `BlackDoublePush`) returns the landing squares two ranks ahead intersected with the intermediate squares one rank ahead. Those lie on different ranks, so the result is always 0. | A lone white pawn on e2 (`whitePawns = 0x1000`, `emptySquares = ~0x1000`) gets 0 where e4 (`0x1000_0000`) is expected; likewise a black pawn on e7 gets 0 instead of e5. | The landing squares two ranks ahead that are empty, where the square in between is also empty. | high, not executed | BitboardHelper.DoublePushAsWrittenIsEmpty | BitboardHelper.WhiteDoublePushSquare |
