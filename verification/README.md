# Quoridor rules engine, modelled in Dafny

This project models the rules engine of a Quoridor implementation. Two to four players each
own a pawn and a pool of fences. A turn either moves the pawn (a step, a straight jump over an
adjacent pawn, or a diagonal jump when the straight jump is blocked) or places a fence. A
player wins by reaching the opposite side of the board.

The model covers:

- **the rules** (`Board.validPawnMoves`, `isValidPawnMove`, `isValidFencePlacing`,
  `isFencePlacingBlocking`, `validFencePlacings`, `startPosition`, `endPositions`);
- **the three incrementally maintained tables**: the locally valid fence placings, the real
  pawn moves and the pawn-blind moves. This covers their initialisation and the fixed
  neighbourhoods refreshed after every pawn move and fence placement;
- **the committing mutators** (`Pawn.place`/`move`, `Fence.place`, `IPlayer.movePawn`,
  `IPlayer.placeFence`, `IPlayer.hasWon`);
- **the probe** `getFencePlacingImpactOnPaths`. It appends a fence, searches, then pops the
  fence and refreshes again;
- **the game driver** (`Game.__init__`, `Game.start`), with the hardcoded initial real-move
  table as written and with the corrected one (see Findings);
- **the algorithms built on the rules**:
  - the divide-and-conquer fence search and its pruned variant;
  - the merge sort;
  - the greedy move and the greedy fence placement;
  - the greedy coin change;
  - Bellman-Ford and Floyd-Warshall over the stored pawn-blind table.

The board is a value: `Board(cols, rows, fences, occupied)`. The fences are kept in placement
order, and `occupied` is the set of cells whose pawn `hasPawn` finds. The mutable part of a game
is one immutable `State`. Every operation that mutates the board in the source returns the new
state here. A probe that the source undoes in place also returns the state it leaves behind, so
the searches thread that state from one probe to the next.

The breadth-first search of `Path.py` is not part of this model. It is modelled by what it
computes over a stored move table: the least number of table moves from the start cell to a
goal cell, or None. This value is proved to be the length of a shortest walk.

The central invariant, `GameState.Inv`, says that all three stored tables equal a full
recomputation on the current board. Every mutator preserves it. The round setup establishes it
with the corrected initial table (see Findings). Under `Inv`, each query reads its answer from
the tables, and that answer is proved equal to what the rules say about the board.

A probe of a placing whose 2x2 block lies on the board gives the state back unchanged. This
holds for every locally valid placing at an on-board cell, which are the only placings the
searches probe. For any other placing, the pawn-blind table gains entries at off-board cells.
Those entries never change a distance from an on-board start.

A pawn move refreshes only the real-move table (src/interface/Board.py:697-700).
`Caches.PawnMoveKeepsBlind` proves that the pawn-blind table never needs that refresh.

## Model

| member | source | states |
|---|---|---|
| Grid.ManhattanMulti | src/interface/Board.py:688-695 | The distance to a list of cells equals the Manhattan distance to one of them and is at most the distance to each of them. |
| Grid.CellListMembers | src/interface/Board.py:74-76 | The column-major enumeration visits exactly the in-bounds cells. |
| Grid.CellListDistinct | src/interface/Board.py:74-76 | The column-major enumeration visits each cell once. |
| Fence.ToStringReadsBack | src/interface/Fence.py:92-94 | The rendering of a fence can be read back: its first letter gives the orientation, and its tail is the coordinate's text after the fixed infix. |
| Board.FenceQueriesAreEdges | src/interface/Board.py:374-390 | Each of the four fence queries answers exactly whether the cell edge on that side is covered by some fence. The right and bottom queries are the neighbour's left and top. |
| Board.AppendFenceQueries | src/interface/Board.py:374-387 | Appending a fence turns on the left or top query exactly at the cells it covers, and changes no query outside its 2x2 block. |
| Board.GoalIsOppositeSide | src/interface/Board.py:327-357 | Each start square lies on the player's own side. The end positions are exactly the cells of the opposite side, each listed once, and there is at least one. |
| Players.HasWon | src/player/IPlayer.py:30-34 | The scan answers true exactly when the pawn stands on one of the player's end positions. |
| Seqs.RemoveIfExist | src/interface/Board.py:685-686 | Removing an absent item changes nothing. Removing a present item takes out exactly one copy of it. |
| Seqs.RemoveIfExistSplits | src/interface/Board.py:685-686 | The copy removed is the first occurrence, and the other items keep their order. |
| Seqs.RemoveFromFilter | src/interface/Board.py:685-686 | On a list without duplicates, removing an item from a filtered list equals filtering that item out as well. |
| Moves.CanLeaveIsOpen | src/interface/Board.py:392-402 | From an on-board cell, the edge-and-fence guard passes exactly when the step stays on the board and crosses no fence edge. |
| Moves.DirMovesExact | src/interface/Board.py:408-419 | In one direction, the real moves are the plain step onto a free neighbour, the straight jump over an occupied neighbour, or the sideways jumps when the straight jump is impossible, and nothing else. |
| Moves.SidewaysJumpExact | src/interface/Board.py:415-419 | Where the straight jump is impossible, the sideways moves are exactly the diagonal-jump rule. |
| Moves.DirMovesBlindExact | src/interface/Board.py:408-411 | In pawn-blind mode, a direction yields only the plain step, exactly when that step is open. |
| Moves.InValidPawnMoves | src/interface/Board.py:404-456 | The move list is the union of the four directions' contributions. |
| Moves.BlindMovesExact | src/interface/Board.py:404-456 | The pawn-blind moves are exactly the plain steps to on-board neighbours across an uncovered edge. |
| Moves.RealMovesExact | src/interface/Board.py:404-456 | The real moves are exactly the steps, straight jumps and diagonal jumps the rule allows. |
| Moves.RealMoveTargets | src/interface/Board.py:404-456 | Every real move ends on a free on-board cell other than the start. It ends one step away with nothing jumped, or two steps away over an occupied neighbour. |
| Moves.ClosedDirectionContributesNothing | src/interface/Board.py:404-456 | A direction closed by the edge or a fence contributes no move in either mode. |
| Moves.OccupiedNeighbourJumps | src/interface/Board.py:412-419 | Behind an occupied neighbour, the move is either the straight jump alone or only sideways jumps, never both, and at most two moves. |
| Moves.IsValidPawnMoveMeansLegal | src/interface/Board.py:458-466 | On a recomputed move list, `isValidPawnMove` answers true exactly when some legal move ends on the target. |
| Moves.PawnLocality | src/interface/Board.py:404-456 | A cell's moves read pawn occupancy only at distance 1 and 2 from the cell. |
| Moves.FenceLocality | src/interface/Board.py:404-456 | A cell's real moves read fences only on the sides of the cell and of its four neighbours. |
| Moves.BlindFenceLocality | src/interface/Board.py:404-456 | A cell's pawn-blind moves read fences only on the cell's four sides. |
| Moves.BlindIgnoresPawns | src/interface/Board.py:404-411 | Pawn-blind moves do not depend on where the pawns are. |
| Moves.FreeNeighboursRealIsBlind | src/interface/Board.py:404-456 | When no neighbour holds a pawn, the real moves equal the pawn-blind moves. |
| Reach.ReachIsWalks | src/interface/Board.py:538-545 | The cells reachable within k moves are exactly the ends of table walks of at most k moves. |
| Reach.ReachSaturates | src/interface/Board.py:538-545 | On a table whose moves stay on the board, the reach stops growing after cols * rows moves. |
| Reach.DistFrom | src/interface/Board.py:538-545 | The answer is the first step count whose reach meets the goals, and None when no step count in the range reaches them. |
| Reach.ShortestDistIsShortestWalk | src/interface/Board.py:538-545 | The search's distance is the length of a shortest walk into the goals, and None exactly when no such walk exists. |
| Reach.ShortestDistAgree | src/interface/Board.py:538-545 | Two tables that agree on every on-board cell give the same distance from an on-board start, so off-board entries never matter. |
| FenceRules.ConflictsSymmetric | src/interface/Board.py:702-707 | The conflict relation between placings is symmetric. |
| FenceRules.LocallyValidIsConflictFree | src/interface/Board.py:503-529 | The edge, overlap and crossing tests reject exactly the edge slots and the placings that conflict with a fence already down. |
| FenceRules.ConflictIsClash | src/interface/Board.py:503-529 | Two placings conflict exactly when they share a covered edge or cross at their midpoints. |
| FenceRules.InteriorSlot | src/interface/Board.py:507-518 | For an on-board anchor, the edge test passes exactly when both covered edges lie between on-board cells. |
| FenceRules.LocallyValidGeometric | src/interface/Board.py:503-529 | A placing is locally valid exactly when both its edges are interior and it clashes with no fence on the board. |
| FenceRules.AppendFenceValidity | src/interface/Board.py:503-529 | Placing a fence invalidates exactly the placings that conflict with it. |
| FenceRules.ValidAmongMembers | src/interface/Board.py:77-80 | The filtered list holds exactly the listed slots that are locally valid and not excluded. |
| FenceRules.AllSlotsDistinct | src/interface/Board.py:74-80 | The enumeration of every cell and both orientations lists each slot once. |
| FenceRules.EmptyBoardValid | src/interface/Board.py:507-529 | With no fences, local validity is exactly the edge test. |
| FenceRules.InitialPlacingsAreLocallyValid | src/interface/Board.py:77-80 | The initial fence list holds exactly the locally valid placings of the empty board, in slot order. |
| FenceRules.ValidAmongIgnoresPawns | src/interface/Board.py:503-529 | Local validity does not depend on the pawns. |
| FenceRules.RemoveConflicts | src/interface/Board.py:702-707 | The four removals take exactly the conflicts of the placing out of a list of valid slots and keep the order. |
| FenceRules.ValidAmongAfterAppend | src/interface/Board.py:702-707 | After a fence is appended, the valid slots are the old ones minus the fence's conflicts. |
| FenceRules.FenceListUpdate | src/interface/Board.py:702-707 | If the stored list equals the locally valid placings before a fence goes down, the four removals keep it equal afterwards. |
| Caches.RingMembers | src/interface/Board.py:709-716 | The real-move refresh after a fence covers the 4x4 box around the fence minus its four corners. |
| Caches.BlindBlockIsBlock | src/interface/Board.py:718-724 | The pawn-blind refresh after a fence covers exactly the cells whose own sides the fence touches. |
| Caches.RingCoversBlockNeighbours | src/interface/Board.py:709-716 | The ring contains every cell within one step of the fence's block. |
| Caches.AppendDiffersOnlyAt | src/interface/Board.py:374-390 | Appending or popping a fence changes the fence queries only on the fence's block. |
| Caches.PawnRefreshSound | src/interface/Board.py:688-695 | After a pawn moves, refreshing the real moves of the on-board cells within distance 2 of both ends repairs every entry the move can invalidate. |
| Caches.FarFromPawnMove | src/interface/Board.py:688-695 | A cell more than two steps from both ends of a pawn move keeps its real moves. |
| Caches.PawnMoveKeepsBlind | src/interface/Board.py:697-700 | A pawn move never invalidates a pawn-blind entry, so skipping that refresh is sound. |
| Caches.FenceRingSound | src/interface/Board.py:709-716 | After a fence is placed or popped, refreshing the ring repairs every real-move entry it can invalidate. |
| Caches.FenceBlockSound | src/interface/Board.py:718-724 | After a fence is placed or popped, refreshing the 2x2 block repairs every pawn-blind entry it can invalidate. |
| Caches.InitBlindIsFenceFree | src/interface/Board.py:82-110 | The initial pawn-blind entry of a cell equals its pawn-blind moves on a board without fences. |
| Caches.InitBlindIsRealWhenFree | src/interface/Board.py:82-110 | With no fences and no pawn next to the cell, the plain steps are also the real moves. |
| Caches.InitLeftFourPawns | src/interface/Board.py:82-90 | The hardcoded left-hand moves are the real left moves when pawns stand on the four start squares. |
| Caches.InitRightFourPawns | src/interface/Board.py:91-99 | The hardcoded right-hand moves are the real right moves when pawns stand on the four start squares. |
| Caches.InitTopFourPawns | src/interface/Board.py:100-108 | The hardcoded upward moves are the real upward moves when pawns stand on the four start squares. |
| Caches.InitBottomFourPawns | src/interface/Board.py:109-117 | The hardcoded downward moves are the real downward moves when pawns stand on the four start squares. |
| Caches.InitRealFourPawns | src/interface/Board.py:72-118 | On a board of at least 3x3 with no fences and a pawn on each of the four start squares, both initial move tables equal recomputation. |
| Caches.InitFixedConsistent | src/interface/Board.py:72-118 | The corrected initial tables equal recomputation on the empty board, including the fence list. |
| GameState.GetPawnAt | src/interface/Board.py:368-372 | A found pawn is the first entry of the pawn list that stands on the cell: every earlier entry stands elsewhere. No pawn is found only when no listed pawn stands there. |
| GameState.GetPawnAtMatchesHasPawn | src/interface/Board.py:362-372 | `getPawnAt` finds a pawn exactly where `hasPawn` answers true. |
| GameState.MovePawn | src/interface/Pawn.py:97-99 | A move raises exactly when the pawn's current coordinate is missing or outside the indices a Python list of `cols` columns of `rows` squares accepts; otherwise it is a placement on the target. |
| GameState.PawnPlace | src/interface/Pawn.py:90-95 | Placing a pawn moves only that player's pawn, appends the player to the pawn list, and leaves the fences, the fence list and the pawn-blind table unchanged. |
| GameState.FencePlace | src/interface/Fence.py:82-87 | Placing a fence appends it once to the board and changes no player or pawn. |
| GameState.PlaceFence | src/player/IPlayer.py:22-25 | The call fails exactly when the pool is empty. Otherwise it pops the player's last fence, lowers the remaining count by one, and places that fence at the slot. |
| GameState.PawnPlaceOccupancy | src/interface/Pawn.py:90-95 | A placement changes occupancy only at the pawn's old and new squares. |
| GameState.PawnPlacePreservesInv | src/interface/Pawn.py:90-95 | Wherever the pawn goes, all three stored tables still equal recomputation afterwards. |
| GameState.FencePlacePreservesInv | src/interface/Fence.py:82-87 | For any placing, all three stored tables still equal recomputation afterwards. |
| GameState.PlaceFencePreservesInv | src/player/IPlayer.py:22-25 | A successful `placeFence` keeps all three tables equal to recomputation. |
| GameState.StoredPawnMoveIsLegal | src/interface/Board.py:458-466 | With consistent tables, the stored `isValidPawnMove` answers by the movement rule itself. |
| Veto.FullTableWellFormed | src/interface/Board.py:682-683 | Every recomputed pawn-blind move from an on-board cell ends on the board. |
| Veto.BlindLinks | src/interface/Board.py:404-456 | The recomputed pawn-blind table links u to v exactly when u is on the board and v is one open step away. |
| Veto.ConsistentDist | src/interface/Board.py:538-545 | A stored pawn-blind table that equals recomputation gives the same distances as the full recomputation. |
| Veto.ProbeTableConsistent | src/interface/Board.py:531-536 | After the probe fence is appended and its block refreshed, the pawn-blind table equals recomputation on the board with that fence. |
| Veto.RestoredKeepsInv | src/interface/Board.py:553-554 | Popping the probe fence and refreshing again leaves the fences and the board as they were and all tables consistent. |
| Veto.RestoredIsIdentity | src/interface/Board.py:553-554 | When the fence's block lies on the board, the probe leaves the state exactly as it found it. |
| Veto.ProbeDist | src/interface/Board.py:538-551 | A player's search on the probe table finds a path exactly when an open walk leads to their goals on the board with the fence. |
| Veto.IsValidFencePlacingExact | src/interface/Board.py:503-556 | A placing is accepted exactly when it passes the local tests and every player still has an open walk to a goal with the fence added. Afterwards the fences and the board are as before and the tables are consistent. |
| Veto.IsValidFencePlacingRestores | src/interface/Board.py:531-556 | For an on-board anchor, the check leaves the state exactly as it found it. |
| Veto.LocallyValidBlockOnBoard | src/interface/Board.py:507-518 | A locally valid placing at an on-board cell has its whole block on the board. |
| Veto.IsFencePlacingBlockingExact | src/interface/Board.py:662-677 | The answer is true exactly when some player would have no open walk to a goal with the fence added. The fences come back unchanged and the tables consistent. |
| Veto.ValidIsLocalAndNotBlocking | src/interface/Board.py:503-556 | `isValidFencePlacing` equals passing the local tests and not being blocking. |
| Veto.ValidFencePlacingsOfExact | src/interface/Board.py:491-501 | Over any slot list, the loop keeps exactly the accepted slots in order, and the board stays as it was. |
| Veto.ValidFencePlacingsExact | src/interface/Board.py:491-501 | `validFencePlacings` lists, in slot order, exactly the placings the full check accepts, and leaves the fences unchanged with consistent tables. |
| Veto.DictGet | src/interface/Board.py:780 | A lookup finds a value exactly when the dict holds the key. |
| Veto.DictPutGet | src/interface/Board.py:768 | Writing a key sets it, leaves every other key's value alone, and adds only that key. |
| Veto.LengthsBeforeSome | src/interface/Board.py:762-768 | The first loop produces a dict exactly when every player's search finds a path. |
| Veto.LengthsBeforeKeys | src/interface/Board.py:762-768 | The first loop's dict has one key per player name. |
| Veto.LengthsBeforeValues | src/interface/Board.py:762-768 | With distinct names, each player's entry in the first loop's dict is their path length. |
| Veto.DeltasSuccess | src/interface/Board.py:773-780 | The second loop completes exactly when every search with the fence finds a path. |
| Veto.DeltasFailure | src/interface/Board.py:774-779 | When the second loop raises, it names the first player whose search with the fence fails. |
| Veto.DeltasKeys | src/interface/Board.py:773-780 | The second loop's dict has one key per player name. |
| Veto.DeltasValues | src/interface/Board.py:773-780 | With distinct names, each entry is the path length with the fence minus the length without it. |
| Veto.ImpactOfExact | src/interface/Board.py:759-782 | The outcome is None exactly when some search before the fence fails. The exception names the first player stranded by the fence. A dict means every search succeeded, and it has one key per player name. |
| Veto.ImpactOfValues | src/interface/Board.py:773-780 | With distinct names, a player's entry is their search after the fence minus their search before. |
| Veto.BoardDistMeaning | src/interface/Board.py:764 | A full search finds a distance exactly when an open walk leads into the goals. |
| Veto.StoredDist | src/interface/Board.py:764 | A player's search on a consistent stored table equals the full search on the board. |
| Veto.DistsOnBoards | src/interface/Board.py:764-775 | The searches before and during the probe are the full searches on the board without and with the fence. |
| Veto.ImpactExact | src/interface/Board.py:759-782 | In board terms, the query answers None exactly when some player is already cut off. The exception names the first player the fence would strand. A dict means every player has a path before and after. The probe leaves the fences as they were and the tables consistent. |
| Veto.SearchesAt | src/interface/Board.py:764-775 | Player i's search before and during the probe is the full search on the respective board. |
| Veto.ImpactAt | src/interface/Board.py:780 | With distinct names, the entry of player i is their search with the fence minus their search without it. |
| Scoring.CalculateScore | src/algorithm/DivideAndConquer.py:78-93 | The score is minus infinity exactly for a None impact. |
| Scoring.DeltasSum | src/algorithm/DivideAndConquer.py:87-93 | The signed sum of the second loop's dict is the reference sum: the others' change in path length minus the player's own. |
| Scoring.ScoreOfImpact | src/algorithm/DivideAndConquer.py:78-93 | With distinct names, the score of a returned dict equals the reference sum over the players. |
| Scoring.SearchesAreDists | src/interface/Board.py:764-775 | The searches of the query are the players' distances on the board without and with the fence. |
| Scoring.ScoreMeaning | src/algorithm/DivideAndConquer.py:78-93 | With distinct names, a placing's score is the sum over the other players of their path length with the fence minus without it, minus the same change for the scoring player. |
| Scoring.ImpactStable | src/interface/Board.py:759-782 | A probe on a state the game has not changed gives the same answer and leaves such a state behind. |
| DivConq.Probe | src/algorithm/DivideAndConquer.py:49-57 | A base-case probe never changes the players. |
| DivConq.CombineLastMax | src/algorithm/DivideAndConquer.py:71-75 | Joining the answers of two adjacent ranges, keeping the left only on a strictly greater score, gives the last candidate of greatest score of the joined range. |
| DivConq.SearchIsLastMax | src/algorithm/DivideAndConquer.py:26-75 | On a non-empty range, the recursion returns the greatest score, carried by the last candidate that has it. |
| DivConq.FindOptimalIsSearch | src/algorithm/DivideAndConquer.py:26-75 | With a probe that is faithful to known answers, the state-threading search returns what the search over those answers returns. |
| DivConq.FindOptimalLastMax | src/algorithm/DivideAndConquer.py:42-75 | With a faithful probe, an empty list gives (None, minus infinity), and otherwise the answer is the last candidate of greatest score. |
| DivConq.ProbeStable | src/algorithm/DivideAndConquer.py:49-57 | On a state the game has not changed, a probe answers as on the game itself. |
| DivConq.ProbeForFaithful | src/algorithm/DivideAndConquer.py:49-57 | On a consistent game, the search's probe answers each candidate as probing it alone on the game would. |
| DivConq.FindOptimalFencePlacingCorrect | src/algorithm/DivideAndConquer.py:26-75 | On a consistent game, an empty list gives (None, minus infinity). Otherwise the answer is the last candidate of greatest score, each scored as on the game itself. The game comes back unchanged. |
| DivConq.ProbeMeaning | src/algorithm/DivideAndConquer.py:49-57 | A probe returns no placing exactly when every player reaches a goal now and some player would not with the fence, and then scores minus infinity. Otherwise it returns the candidate, scored minus infinity exactly when some player is already cut off. |
| DivConq.PruneStride | src/algorithm/DivideAndConquer.py:109-113 | The sampling step is at least 1. |
| DivConq.SampleIsKept | src/algorithm/DivideAndConquer.py:113-121 | With a faithful probe, the sampling loop keeps what the reference keeps from the known answers. |
| DivConq.KeptMembers | src/algorithm/DivideAndConquer.py:113-121 | The sampling keeps exactly the placings at i, i + step, ... whose probe scored above zero, each with that score. |
| DivConq.KeptProbe | src/algorithm/DivideAndConquer.py:113-121 | A kept candidate's own probe names it with its sampled score. |
| DivConq.TopProbes | src/algorithm/DivideAndConquer.py:124-125 | Each searched candidate probes to the fence and score it was sorted with. |
| DivConq.BestOfTop | src/algorithm/DivideAndConquer.py:124-131 | The last maximum among the first entries of a list sorted from high to low score carries the highest score of the whole list. |
| DivConq.SampledOnAnchor | src/algorithm/DivideAndConquer.py:113-121 | On a consistent game, the sampling keeps what the probes on that game answer and leaves the game unchanged. |
| DivConq.BestOfKept | src/algorithm/DivideAndConquer.py:124-131 | The last maximum among the first sorted candidates has the highest score among all candidates. |
| DivConq.SearchBestOfKept | src/algorithm/DivideAndConquer.py:124-131 | With a faithful probe, the search over the first sorted candidates returns a candidate of highest score. |
| DivConq.TopSearchBest | src/algorithm/DivideAndConquer.py:124-131 | Run from a state left by the sampling, the search over the first candidates returns a best kept candidate. |
| DivConq.FindOptimalFenceWithPruningCorrect | src/algorithm/DivideAndConquer.py:96-133 | A short list gets the plain search. Otherwise there are two cases. With no candidate kept, the answer is None with minus infinity. With some kept, the answer is a kept candidate whose score is the highest. The game comes back unchanged. |
| MergeSort.MergePermutes | src/algorithm/DivideAndConquer.py:177-192 | Merging keeps every item exactly once. |
| MergeSort.MergeSorted | src/algorithm/DivideAndConquer.py:177-192 | Merging two sorted lists gives a sorted list. |
| MergeSort.MergeStable | src/algorithm/DivideAndConquer.py:177-192 | Among equal keys, merging places the left items before the right ones, each in order. |
| MergeSort.SortPermutes | src/algorithm/DivideAndConquer.py:145-174 | The sort returns a permutation of its input. |
| MergeSort.SortSorted | src/algorithm/DivideAndConquer.py:145-174 | The sort returns its items in non-decreasing key order. |
| MergeSort.SortStable | src/algorithm/DivideAndConquer.py:145-174 | The sort keeps items with equal keys in their input order. |
| MergeSort.SortCorrect | src/algorithm/DivideAndConquer.py:145-192 | The sort returns a permutation of its input, in key order, stable among equal keys. |
| MergeSort.StableSortUnique | src/algorithm/DivideAndConquer.py:124 | A stable sort has only one possible result. Any other stable sort, such as the built-in descending sort, therefore agrees with this one on the negated key. |
| Greedy.FirstStepFrom | src/algorithm/GreedyStrategy.py:87-90 | The result is the first listed move, from the given index on, into a cell at the given distance. None means no listed move enters such a cell. |
| Greedy.DistZero | src/algorithm/GreedyStrategy.py:70-76 | The distance is zero exactly when the start is a goal. |
| Greedy.StepCloser | src/algorithm/GreedyStrategy.py:70-90 | From a cell at distance d + 1, some listed move enters a cell at distance d. |
| Greedy.DistThroughMove | src/algorithm/GreedyStrategy.py:70-90 | A cell is at most one move further from the goals than any cell it can move to. |
| Greedy.FirstMoveCorrect | src/algorithm/GreedyStrategy.py:87-90 | The first move is None exactly without a path or on a goal. Otherwise it is the first listed move into a cell one move closer. |
| Greedy.RealFullTableWellFormed | src/interface/Board.py:679-680 | Every recomputed real move from an on-board cell ends on the board. |
| Greedy.FirstMoveAgree | src/algorithm/GreedyStrategy.py:70-85 | Tables that agree on the board give the same distance and the same first move from an on-board start. |
| Greedy.StoredFirstMove | src/algorithm/GreedyStrategy.py:70-85 | A consistent stored table gives the same distance and the same first move as the recomputed one. |
| Greedy.GreedyMoveCorrect | src/algorithm/GreedyStrategy.py:48-92 | The move is None exactly when the pawn is on a goal or no path exists in either mode. Otherwise it is the first move the rules list into a cell one move closer, in real mode when a real path exists and in pawn-blind mode otherwise. |
| Greedy.GreedyScore | src/algorithm/GreedyStrategy.py:114-131 | Scoring a placing never changes the players. |
| Greedy.BestStep | src/algorithm/GreedyStrategy.py:125-128 | The strict `>` keeps, after each placing, the first placing of greatest score so far. |
| Greedy.GreedyFromFirstBest | src/algorithm/GreedyStrategy.py:110-133 | With a faithful scorer, the loop returns None exactly when no placing gets a score, and otherwise the placing with the first greatest score. |
| Greedy.GreedyScoreStable | src/algorithm/GreedyStrategy.py:113-131 | On a state the game has not changed, a placing scores as on the game itself. |
| Greedy.ScorerForFaithful | src/algorithm/GreedyStrategy.py:113-131 | On a consistent game, the loop's scorer answers each placing as scoring it alone on the game would. |
| Greedy.GreedyFencePlacingCorrect | src/algorithm/GreedyStrategy.py:95-133 | On a consistent game, the result is None exactly when no stored placing gets a score. Otherwise it is the first stored placing of greatest score, scored on the game itself. The game comes back unchanged. |
| Greedy.GreedyScoreMeaning | src/algorithm/GreedyStrategy.py:114-131 | A placing gets a score exactly when every player reaches a goal without and with the fence, and that score is the one the divide-and-conquer probe gives it. |
| Greedy.GreedyScoreSum | src/algorithm/GreedyStrategy.py:118-123 | With distinct names, a greedy score is the others' change in path length minus the player's own. |
| Coins.Descending | src/algorithm/GreedyStrategy.py:233 | The sorted coins are a permutation of the given coins, in non-increasing order. |
| Coins.TakeWhileFits | src/algorithm/GreedyStrategy.py:236-238 | The inner loop keeps the change plus what is left equal to the amount, and appends only copies of the coin. Each copy fits in what was still to be changed when it was taken. The list stays non-increasing, and what is left ends below the coin. |
| Coins.Pass | src/algorithm/GreedyStrategy.py:234-238 | The change taken plus what is left equals the amount. It uses only given coins and never increases. Each coin taken is the largest given coin that fits in what is still to be changed at that point. What is left is below every coin, and is not negative for a non-negative amount. |
| Coins.CoinChange | src/algorithm/GreedyStrategy.py:228-239 | A result sums to the amount, uses only given coins and never increases. Each coin in it is the largest given coin that fits in what is still to be changed at that point. The result is None exactly when the greedy pass leaves a remainder. With a unit coin, every non-negative amount is changed. |
| Coins.GreedyChangeUnique | src/algorithm/GreedyStrategy.py:234-238 | Over positive coins, two lists that make the greedy choice at every position and have the same sum are the same list. The contract of `CoinChange` therefore determines its result. |
| Coins.GreedyExample | src/algorithm/GreedyStrategy.py:234-238 | For the amount 4 and coins [3, 2, 1], the greedy change [3, 1] makes the greedy choice, and [2, 2] does not, although it also sums to 4. |
| DynProg.InitDist | src/algorithm/DynamicProgramming.py:111-117 | The initial table has an entry for every cell and for the start. |
| DynProg.InitDistFacts | src/algorithm/DynamicProgramming.py:111-117 | The initial table is sound and complete for walks of zero moves. |
| DynProg.RelaxMovesLowers | src/algorithm/DynamicProgramming.py:126-128 | The moves loop never raises an entry and leaves each listed target at most one more than the cell's entry. |
| DynProg.RelaxCellsLowers | src/algorithm/DynamicProgramming.py:121-128 | A pass over the cells never raises an entry and leaves each listed target at most one more than its cell's entry before the pass. |
| DynProg.RoundLowers | src/algorithm/DynamicProgramming.py:121-128 | One pass never raises an entry, bounds every listed target by its cell's entry plus one, and keeps finite entries as lengths of walks. |
| DynProg.RoundComplete | src/algorithm/DynamicProgramming.py:121-128 | Each pass extends by one move the walks whose lengths the table bounds. |
| DynProg.BellmanFordSound | src/algorithm/DynamicProgramming.py:119-128 | After its passes, every finite entry is the length of some walk from the start. |
| DynProg.BellmanFordComplete | src/algorithm/DynamicProgramming.py:119-128 | After cols * rows - 1 passes, every cell reachable within that many moves has an entry at most its walk length. |
| DynProg.BellmanFordExact | src/algorithm/DynamicProgramming.py:90-130 | From an on-board start, the result has an entry for every cell and no other, 0 at the start, and at each cell the least number of table moves from the start, or infinity when there is none. |
| DynProg.FwInitAt | src/algorithm/DynamicProgramming.py:158-164 | The initial pair table is 0 on the diagonal and infinity elsewhere. |
| DynProg.EdgesExact | src/algorithm/DynamicProgramming.py:158-170 | After the direct edges, a pair's entry is 1 for a listed move, else 0 on the diagonal, else infinity. |
| DynProg.StepK | src/algorithm/DynamicProgramming.py:173-177 | One intermediate cell never raises an entry and bounds every pair by its distance through that cell before the pass. |
| DynProg.ForKFacts | src/algorithm/DynamicProgramming.py:173-177 | After the intermediate cells up to k, entries are lengths of walks and bound every walk whose interior uses only those cells. |
| DynProg.FloydWarshallExact | src/algorithm/DynamicProgramming.py:133-179 | On a table without moves from a cell to itself, every pair of cells has an entry, equal to the least number of table moves between them or infinity. |
| DynProg.FloydWarshallMatchesBellmanFord | src/algorithm/DynamicProgramming.py:90-179 | The all-pairs table and the single-source table agree on every pair of on-board cells. |
| DynProg.ConsistentTableFits | src/algorithm/DynamicProgramming.py:124-168 | A consistent stored pawn-blind table has an entry for every cell, so neither loop's table lookup raises KeyError. Its moves stay on the board, so the `dist[move.toCoord]` read in `bellmanFord` never raises KeyError. It has no move from a cell to itself, so the direct edges of `floydWarshall` never overwrite a diagonal 0. |
| DynProg.StoredDistances | src/algorithm/DynamicProgramming.py:90-179 | On the stored pawn-blind table kept consistent with the board, both helpers give the breadth-first distance between any two cells. |
| Game.PlayerCount | src/Game.py:39 | The player count is even, at most 4 and at most the number offered, and is the largest such number. |
| Game.NewGame | src/Game.py:34-52 | The game seats the first player-count players on an empty board. Each gets a name and a colour, keeping any given one, and a fresh unplaced pawn. Their fences and scores are unchanged. |
| Game.NewGameSeats | src/Game.py:44-50 | Seated players start on their own side, and their goals are the whole opposite side. Unnamed players get distinct default names. |
| Game.RoundSetupShape | src/Game.py:63-70 | After the setup, the board has no fences and every pawn is on its start square. The pawn list holds the players in order. Each player holds their leftover fences plus `totalFenceCount / playerCount` new ones, and nothing else of theirs changes. |
| Game.RoundSetupInv | src/Game.py:60-70 | With the empty board's real-move table, the setup leaves all three tables equal to recomputation. |
| Game.RoundSetupAsWrittenFourPlayers | src/interface/Board.py:84-117 | With four players on a board of at least 3x3, the hardcoded initial table is right by the end of the setup. |
| Game.OneFourLacksStep | src/interface/Board.py:84-90 | On a 9x9 board, the hardcoded real moves of (1, 4) have no plain step onto (0, 4). |
| Game.AsWrittenSetupStaleForTwoPlayers | src/interface/Board.py:84-117 | With two players, the as-written setup leaves (1, 4) without its legal step onto the empty (0, 4), so the tables disagree with recomputation. |
| Game.TurnFacts | src/Game.py:74-87 | A turn ends the round exactly on Quit or on a pawn move onto one of the mover's end positions. The mover scores a point exactly in the second case, nobody else's score changes, and the turn fails exactly on a fence from an empty pool or on a move of a pawn that stands where the grid has no square (the IndexError of `getSquareAt`). |
| Game.AddPointKeepsInv | src/Game.py:81 | Adding a point changes no square, so the tables stay consistent. |
| Game.MoveTurnKeepsInv | src/Game.py:76-81 | A pawn-move turn that does not raise keeps the tables consistent, whatever the target. |
| Game.FenceTurnKeepsInv | src/Game.py:82-83 | A successful fence turn keeps the tables consistent. |
| Game.TurnPreservesInv | src/Game.py:74-87 | Every successful turn keeps the tables consistent. |
| Game.PlayUnfold | src/Game.py:73-87 | A round is one pass of the loop body followed by the rest of the round from the next player. |
| Game.PlayFinished | src/Game.py:73-87 | A finished round stopped on a Quit or a winning pawn move, with no earlier Quit. The next index is the start advanced once per action, modulo the player count. The total score grew by one exactly on a win. |
| Game.PlayPending | src/Game.py:73-87 | When the actions run out, none of them was a Quit and nobody scored. |
| Game.PlayCrashed | src/Game.py:73-87 | A round raises only on a fence placing from an empty pool or on a pawn move whose old square the grid lacks. |
| Game.PlayPreservesInv | src/Game.py:73-87 | A round that finishes or runs out of actions leaves the tables consistent. |
| Game.StartFacts | src/Game.py:54-89 | `start` fails with the ZeroDivisionError of the fence allotment exactly when a round is due and nobody is seated. Each completed round adds at most one point in total. After at least one round, the tables equal recomputation with the corrected initial table; with the hardcoded table as written, this is promised only for four players starting on the four start squares of a board of at least 3x3. |
| Game.RoundFacts | src/Game.py:59-87 | A finished round keeps the seat count, the board's size and every start square, adds at most one point in total, and leaves the tables consistent when its setup made them so. |
| Game.PlaySameSeats | src/Game.py:73-87 | No turn changes the board's size or a player's start square. |
| Game.SetupSameSeats | src/Game.py:60-70 | Neither setup changes the board's size, the seat count or a start square. |
| Game.BestPlayer | src/Game.py:92-96 | With nobody seated the ranking fails, as `self.players[0]` raises IndexError. Otherwise it returns a player of maximal score that is the first with that score. |

## Left out

- `Path.BreadthFirstSearch` is not part of this model. A search is modelled by the distance it
  computes over the stored table.
- Grid.ManhattanMulti: `Path.ManhattanDistanceMulti`, which the pawn-move refresh calls, is read
  as the least Manhattan distance from the coordinate to the listed cells. `Path.py` is not part
  of this model, and `Caches.PawnRefreshSound` and `GameState.PawnPlacePreservesInv` rest on this
  reading.
- Greedy.FirstMove: assumes the returned path starts with the first listed move into a cell one
  move closer to a goal. Which shortest path the search returns depends on `Path.py`, which is
  not part of this model.
- Greedy.FirstMove: answers None when the start is already a goal. This assumes that
  `Path.firstMove` has no move to give on a path of zero moves, and `Path.py` is not part of
  this model.
- Seqs.RemoveIfExist: a placing is compared by value, on its coordinate and direction.
  `removeIfExistStoredValidFencePlacing` relies on `in` and `list.remove` matching a freshly
  built `FencePlacing`, so the source's `FencePlacing` must compare by value too; that class is
  not part of this model. The same holds for `FenceRules.RemoveConflicts` and
  `FenceRules.FenceListUpdate`.
- `GridCoordinates` and `Square.py` are not part of this model. A coordinate is an integer pair,
  and `Fence.__str__` takes the coordinate's text as a parameter.
- Drawing is left out because it has no effect on the rules. This covers pygame windows, mouse
  lookups, the `display*`/`hide*` helpers, console output, `print`, the `TRACE` counters, the
  `DEBUG` messages and `time.sleep`.
- The players' `play()` methods are left out, because they are the players' free choice. A
  round is driven by a given sequence of actions.
- Game.RoundSetupShape: requires a seated player. With nobody seated (fewer than two players
  offered, as `main.py` does when no `-p` is given), `int(self.totalFenceCount/playerCount)`
  raises ZeroDivisionError before any pawn is placed. `Game.Start` returns that as `NoPlayers`.
- Game.RoundSetupInv: requires a seated player, for the same ZeroDivisionError.
- Game.StartFacts: with the hardcoded initial table, the tables are promised consistent only for
  four players on the four start squares; with two players they are not
  (`Game.AsWrittenSetupStaleForTwoPlayers`).
- Game.NewGame: `cols`, `rows` and `totalFenceCount` are `nat`. `main.py` accepts any integer
  for them; a negative value is not modelled.
- The human-player exception at `Game.__init__` is left out, because it concerns the interface.
- `random.randrange` for the first player becomes a parameter of each round.
- `Game.end` is left out, because it only closes the window.
- The helpers outside the engine are left out. This covers `fractionalKnapsack`,
  `compareWithOptimal` and `explainGreedyProperties` (floating point and printing), and
  `explainExistingDP`, `shortestPathMemoized` and `optimizeStorageUpdates` (printing, and a cache
  around `Path.py`).
- `bellmanFord`'s `goals` argument is never read, so it is not a parameter.
- DivConq.ProbeFor: on a state with a pawn that was never placed, the probe answers
  (None, minus infinity) where the source would fail inside the search. The searches never meet
  such a state, because no probe changes the players.
- Greedy.ScorerFor: on a state with a pawn that was never placed, it answers None, for the same
  reason as `ProbeFor`.
- DivConq.FindOptimalFenceWithPruning: requires `maxCandidates > 0` unless the stored list is
  empty. With 0 and a non-empty list, the source divides by zero.
- DivConq.FindOptimalFenceWithPruning: `maxCandidates` is a `nat`, so a negative
  `max_candidates` is not modelled. The source would accept one: `max(1, ...)` makes the step 1,
  every placing is sampled, and `candidates[:m]` drops the last |m| candidates. Both callers pass
  the default 20.
- DivConq.FindOptimalFenceWithPruning: models `candidates.sort(key=score, reverse=True)` as the
  stable ascending merge sort on the negated score. `MergeSort.StableSortUnique` shows that any
  stable sort gives the same list.
- MergeSort.Sort: keys are integers (`T -> int`). The source's `key_func` may return any
  comparable value and defaults to the identity, but every use in the engine sorts by an integer
  score.
- DynProg.FloydWarshall: requires every stored move to stay on the board. For an off-board move
  the source would only add a `dist` key that no later step reads. The stored pawn-blind table
  always meets this requirement (`DynProg.ConsistentTableFits`).
- Coins.CoinChange: requires positive coins. With a coin that is zero or negative and fits, the
  source never leaves its inner loop.
- Scoring.ScoreMeaning: states the score only for distinct player names. With a repeated name,
  the dict keeps one entry for that name, in the position of its first insertion.
- Greedy.GreedyScoreSum: states the score only for distinct player names, for the same reason.
- Veto.IsValidFencePlacingExact: the searches' lemmas assume every pawn stands on the board.
  The game places every pawn on its start square before any search, and every legal pawn move
  ends on the board (`Moves.RealMoveTargets`). `Game.start` does not check a move, so a player
  that moves its pawn to an off-board coordinate leaves the game outside these lemmas; `Inv` is
  still kept (`Game.MoveTurnKeepsInv`). That player's next move raises IndexError once the
  coordinate is off the grid's Python indices (`Game.TurnFacts`).
- GameState.MovePawn: `INTERFACE` is taken as off. With it on, `place` already looks the new
  square up to draw the pawn, so a move onto a coordinate without a square raises at once.
- Caches.InitRealFourPawns: stated for boards of at least 3x3. On smaller boards the hardcoded
  jumps land off the board.
- Python integers are unbounded and so are the model's, so there is no wrap-around to model.
  `float('inf')` is an explicit infinite element.

## Findings

| source | as written | input that shows it | evidently intended | confidence | as-written member | corrected member |
|---|---|---|---|---|---|---|
| src/interface/Board.py:84-117 | The initial real-move table hardcodes the jumps forced by pawns on all four start squares. The setup then refreshes only the cells near the pawns actually placed. | Two players on the default 9x9 board. After the setup, cell (1, 4) still lists the two diagonal jumps round an empty (0, 4) and lacks the plain step onto it. | Every real-move entry equals the moves recomputed on the board, whatever the number of players. | not executed | Game.AsWrittenSetupStaleForTwoPlayers | Game.RoundSetupInv |
