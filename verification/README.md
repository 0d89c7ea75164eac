# Repertoire patcher: a Dafny model

The program finds the chess positions that a player is most likely to face but
that their opening repertoire does not cover. It works in two stages:

1. It reads the repertoire: one or more chapters, each a move tree.
   It builds an index from each position to the one move the repertoire plays there.
2. It runs a best-first search over likely games. The next node is always the
   most probable one on the frontier.
   - If the index has a move for the node's position, that move is played.
   - The position after it is expanded using a move-frequency oracle (the
     Lichess masters explorer). Each child gets the parent's probability times
     its move's share of the games.
   - If the index has no move, the node is reported as a gap.
   - The search stops when enough gaps are found or the frontier is empty.

This project models that core in Dafny. Positions and moves are type
parameters `P` and `M`. Playing a move is a function parameter
`apply: (P, M) -> P`. The oracle is a function parameter
`explorer: P -> ExplorerResponse<M>`, which returns the game-count record the
source reads from the HTTP response. Probabilities are `real`.

Modules:

- `Results`: `Option` and `Result`.
- `Repertoire`: the chapter move tree `GameNode`. The index walk `Walk` and
  `Build` follow the source's explicit stack, popping from the end.
  `ForestVisitOrder` is a recursive reference for which nodes the walk
  visits and in which order. The play-time lookup is `PlayRepertoireMove`.
- `Explorer`: the count record, the share arithmetic `Share` and `Candidates`,
  and the lemmas about sums of shares.
- `Frontier`: `PositionNode`, the linear-scan selection `ScanMax`,
  `MostProbableIndex` and `PopMostProbable`, and the expansion `ExpandWith` and
  `Expand`, with probability-mass lemmas.
- `Search`: one loop iteration `Step`, the loop `Run`, the initial frontier,
  and the entry point `MostCommonUnknownPositions`, with invariant lemmas.
  - `Run` iterates a step function passed to it, and the entry point passes `Step`.
  - The source loop is unbounded, because the oracle can keep growing the
    frontier. `Run` therefore takes a `fuel` bound and returns `OutOfFuel`
    when it is used up.
  - Invariants are proved per step (`StepSound`, `StepConservesMass`,
    `StepKeepsBestFirst`) and carried through any number of steps (`RunSound`,
    `RunConservesMass`, `RunSorted`).

Error cases and edge behaviour, as the code has them:

- A response that lists moves but records no games makes the code divide by
  zero (repertoire_patcher.py:86). The model returns `NoGamesRecorded` in that
  case. A response with no listed moves never reaches the division, and the
  model returns an empty list of children for it.
- The selection scan starts at a threshold of 0 and compares with a strict
  `>` (repertoire_patcher.py:113-118). It therefore finds nothing both on an
  empty frontier and on a non-empty frontier whose probabilities are all 0.
  In both cases the `assert` at repertoire_patcher.py:120 fails before the
  exception at :123 is reached. The model has one error value for this,
  `NoPositiveProbability`.
- Building the index rejects every visited node with more than one
  variation (repertoire_patcher.py:41-42), whatever moves the variations
  start with. The model's `MultipleMoves` names the first such node in
  visit order.
- When two lines or chapters reach the same position, the later write to the
  index replaces the earlier one (repertoire_patcher.py:47).
  `IndexOfLastWrite` states this.

## Model

| member | source | states |
|---|---|---|
| Repertoire.WalkMatchesVisitOrder | repertoire_patcher.py:34-49 | The stack walk fails exactly when a visited node has more than one continuation, and it names the first such node in visit order. Otherwise the index is the result of writing, in visit order, position ↦ first continuation's move for each visited node with exactly one continuation. The walk resumes at that move's own continuations. |
| Repertoire.BuildMatchesVisitOrder | repertoire_patcher.py:20-49 | All chapters go into one index in file order. Each chapter's walk starts at its root for White and at the root's continuations for Black. The build fails exactly when some visited node branches, naming the first. Otherwise the index is the visited entries written in order. |
| Repertoire.IndexOfKeys | repertoire_patcher.py:44-47 | A position is a key of the index exactly when it was already a key or some visited node at that position has exactly one continuation. Nodes without continuations add nothing. |
| Repertoire.IndexOfLastWrite | repertoire_patcher.py:47 | A position's move is the one from the last visited node at that position that has exactly one continuation. A later visited node there with no continuation writes nothing. So a later single-continuation duplicate overwrites an earlier entry. |
| Repertoire.IndexOfUntouched | repertoire_patcher.py:47 | A key that no visited node writes keeps the move it had before the walk. This carries entries from earlier chapters through later ones. |
| Repertoire.BuildContents | repertoire_patcher.py:19-49 | After a successful build, the keys are exactly the positions of visited nodes with a single continuation. Each key maps to the move prescribed by the last such node. |
| Repertoire.PlayRepertoireMove | repertoire_patcher.py:127-138 | On a hit (the position is a key) the result is true and the board advanced by the indexed move. On a miss the result is false and the board is unchanged. |
| Repertoire.LookupAfterBuild | repertoire_patcher.py:132-138 | Against a built index, a lookup hits exactly at positions where a visited node has one continuation. On a hit the board advances by the move of the last such node. On a miss the board is unchanged. |
| Explorer.Share | repertoire_patcher.py:84-86 | A move's share of a position with games is non-negative. Scaled back by the position's total it gives the move's games. It is at most 1 exactly when the move has no more games than the position. |
| Explorer.Candidates | repertoire_patcher.py:79-90 | There is one candidate per listed move, in response order, carrying that move's share. The result fails exactly when the position total is 0 and some move is listed. |
| Explorer.SharesSum | repertoire_patcher.py:79-88 | The shares add up to (games of the listed moves) / (games of the position). |
| Explorer.ConsistentIsSubStochastic | repertoire_patcher.py:79-88 | When the listed moves account for no more games than the position, every share is non-negative and the shares add up to at most 1. |
| Frontier.ScanMax | repertoire_patcher.py:112-118 | The scan keeps, as its invariant, the first index of greatest positive probability seen so far. Its result is no index exactly when no node is positive. Otherwise it is the first index of greatest probability over the whole frontier. |
| Frontier.MostProbableIndex | repertoire_patcher.py:111-123 | Starting from threshold 0, the scan finds no index exactly when no probability is positive, which includes the empty frontier. Otherwise its index has a positive probability that is at least every other one and greater than every earlier one (first maximum on ties). |
| Frontier.PopMostProbable | repertoire_patcher.py:111-125 | Selection fails with NoPositiveProbability exactly when no node is positive. Otherwise it returns the node at the first maximal index and the frontier with exactly that index removed: length one less, order kept, and the same multiset once the node is added back. |
| Frontier.SumProbRemoveAt | repertoire_patcher.py:125 | Removing the selected node removes exactly its probability from the frontier's total. |
| Frontier.ExpandWith | repertoire_patcher.py:101-107 | There is one child per candidate, in candidate order. Each child's position is the parent's position after the candidate's move. Each child's probability is the parent's probability times the candidate's share. |
| Frontier.ExpandWithMass | repertoire_patcher.py:101-107 | The children's probabilities add up to the parent's probability times the sum of the shares. |
| Frontier.ExpandWithBounded | repertoire_patcher.py:101-107 | For a non-negative parent and shares that are non-negative and sum to at most 1, each child is non-negative and at most as probable as the parent. The children together are also at most as probable as the parent. |
| Frontier.Expand | repertoire_patcher.py:92-109 | Expansion fails with NoGamesRecorded exactly when the oracle reports no games but lists moves. Otherwise it yields one child per listed move, in response order. The child is reached by that move, and its probability is the parent's probability times the move's share of the position's games (an absolute probability). |
| Frontier.ExpandNonNegative | repertoire_patcher.py:96-109 | Expanding a non-negative node against a consistent response gives only non-negative children. |
| Frontier.ExpandChildBounded | repertoire_patcher.py:96-109 | Against a consistent response, no child of an expansion is more probable than its parent. |
| Frontier.ExpandConserves | repertoire_patcher.py:96-109 | Against a consistent response, expansion never creates probability: the children together are at most as probable as their parent. |
| Search.StepSelects | repertoire_patcher.py:150-159 | An iteration on a non-empty frontier fails with NoPositiveProbability exactly when no node is positive. Otherwise it selects the first most probable node. A covered node is replaced by the continuations after the repertoire move. An uncovered node is appended to the results. |
| Search.StepSound | repertoire_patcher.py:150-164 | An iteration keeps the loop invariant: every result is uncovered and positive, and there are fewer than count results (for count ≥ 1). Results only grow. The iteration stops with results unchanged exactly when the frontier is empty, and otherwise only when the count is reached. |
| Search.StepConservesMass | repertoire_patcher.py:150-159 | Against a consistent oracle, an iteration keeps all probabilities non-negative and never increases the combined mass of the frontier and the results. |
| Search.ExpandKeepsBestFirst | repertoire_patcher.py:151-157 | Replacing the first most probable node by children that are no more probable than it keeps the search best-first. |
| Search.ReportKeepsBestFirst | repertoire_patcher.py:151-159 | Reporting the first most probable node keeps the search best-first. The node is no more probable than any earlier result and at least as probable as everything left on the frontier. |
| Search.StepKeepsBestFirst | repertoire_patcher.py:150-162 | Against a consistent oracle, an iteration keeps the search best-first. The results stay in non-increasing probability order, and nothing left on the frontier is more probable than any result. |
| Search.RunSound | repertoire_patcher.py:150-164 | For any step that keeps the invariant, the loop's results are all uncovered and positive and only grow. There are exactly count of them after an early return. For count ≥ 1 they never exceed count, and there are fewer than count when the frontier runs empty. |
| Search.RunConservesMass | repertoire_patcher.py:150-164 | For any mass-conserving step, the reported nodes carry at most the mass of the starting state. |
| Search.RunSorted | repertoire_patcher.py:150-164 | For any step that keeps the search best-first, the loop reports nodes in non-increasing order of probability. |
| Search.InitialFrontierNonNegative | repertoire_patcher.py:143-146 | Against a consistent response, the first frontier (White and Black alike) has no negative probability. |
| Search.InitialFrontierBounded | repertoire_patcher.py:143-146 | Against a consistent response, the first frontier's probabilities (White and Black alike) add up to at most 1. |
| Search.MostCommonUnknownPositionsSound | repertoire_patcher.py:140-164 | The whole search fails at build time exactly when the index cannot be built. A finished search reports only positions without a repertoire move, each with positive probability. It reports never more than count (for count ≥ 1), and exactly count unless the frontier ran empty. |
| Search.MostCommonUnknownPositionsBounded | repertoire_patcher.py:140-164 | Against a consistent oracle, each probability a finished search reports is at most 1, and together they add up to at most 1. |
| Search.MostCommonUnknownPositionsSorted | repertoire_patcher.py:140-164 | Against a consistent oracle, a finished search reports the gaps in non-increasing order of probability, most likely first. |

## Left out

- Reading the opening file (`chess.pgn.read_game`) is not modelled. The chapters are given as `GameNode` trees, and each node carries its position (`node.board()`). A chapter root's `move` field is never read.
- Chess rules (`board.fen()`, `push`, `push_uci`, `copy`) are not modelled. A position is an abstract value with equality and is also its own index key. Playing a move is the parameter `apply`. Moves in the oracle's UCI form and in the index are the same abstract type `M`.
- The HTTP request and JSON decoding in `call_api` are not modelled. The oracle is the parameter `explorer`, which returns the count record the code reads.
- The rate limiter `delay_call` and the module-level `api_caller` are not modelled. They only sleep for wall-clock time and have no effect on results.
- The `__main__` block and the PGN export of results are not modelled. They only format output.
- Floating-point rounding is not modelled. Probabilities and shares are exact reals.
- The error message text is not modelled. Errors carry only the offending position, not the move stack the message prints.
- Transposition merging and multiple variations per position are not modelled. Both exist only as TODO comments, and the model keeps the code's behaviour: separate frontier entries, and an error on branching.
- Search.RunSound: the source loop has no step bound. The model's `Run` takes `fuel` and may stop with `OutOfFuel`. For that outcome the lemmas state only that the invariant still holds, and nothing about termination.
- Explorer.ConsistentIsSubStochastic: the oracle's moves are assumed to account for no more games than the position (`Consistent`). The code never checks this. Without it, the mass lemmas do not apply.
