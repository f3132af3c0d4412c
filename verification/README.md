# Pacman move-choosing agents, modelled in Dafny

This project models the five Pacman agents of `pacmanAgents.py`. Each agent
answers one `getAction(state)` call with a single move:

- `RandomAgent` picks any legal move.
- `OneStepLookAheadAgent` picks a legal move whose successor has the least
  admissible heuristic, drawing at random among ties.
- `BFSAgent` and `DFSAgent` run a frontier search from the root's legal moves.
  BFS treats the frontier as a queue and DFS as a stack. When the engine
  refuses a successor, they answer the root action of the cheapest explored
  node.
- `AStarAgent` sorts its frontier by `totalCost` before every expansion. It
  answers the current node's root action as soon as a successor is absent or
  winning.

The agents see the game engine only through five operations. These are fields
of `Adapter.Game<S, M>`, a record of pure functions over an abstract state
type `S` and move type `M`:

- `legalActions` (`getLegalPacmanActions`);
- `successor` (`generatePacmanSuccessor`, which may return None);
- `isWin`;
- `isLose`;
- `heuristic` (`admissibleHeuristic`, treated as an opaque integer function).

Layout:

- `wrappers.dfy`: `Option`.
- `adapter.dfy`: the engine interface, and the predicate `RootExpandable`: every
  root move has a successor.
- `search_node.dfy`: the node record `{state, depth, totalCost, rootAction}`. It
  also holds seeding, child creation, the inner expansion loop over one node's
  moves, and the node invariant `Valid`.
- `cost_order.dfy`: a stable sort by `totalCost`, modelling Python's `sorted`.
  It also holds `FirstMin`, the index of the earliest cheapest node.
- `simple_agents.dfy`: the random and one-step-lookahead agents.
- `blind_search.dfy`: BFS and DFS, as one loop parameterised by the insertion
  policy (`Fifo` appends, `Lifo` inserts at the front).
- `astar_search.dfy`: A*.
- `scenarios.dfy`: small concrete games that fix the agents' answers on
  particular inputs.

The search loops are pure step functions (`BlindStep`, `AStarStep`) run by a
fuel-bounded loop. The result is an `Outcome`:

- `Found(move)`;
- `Exhausted`: the frontier ran empty, where the Python method falls off its
  end and returns None;
- `OutOfFuel`: the model's own cut-off.

Two consequences of the code are worth spelling out:

- The lookahead agent scores each candidate by the heuristic of that
  candidate's own successor. The comprehension on `pacmanAgents.py:44`
  rebinds `state` to each successor, and the comment on line 43 ("evaluate
  the successor states") says the same. So with successor heuristics 2 and
  5 the two moves do not tie (`Scenarios.LookAheadPrefersBetterSuccessor`).
- BFS and DFS can answer different root moves on the same game. When the
  engine refuses a successor, the answer is the root action of the cheapest
  explored node, which need not lie on the branch where the refusal
  happened. `Scenarios.ChainCheapRight` gives a game where BFS answers
  `Right` and DFS answers `Left`.

## Model

| member | source | states |
|---|---|---|
| SimpleAgents.RandomAgent | pacmanAgents.py:26-30 | on a non-empty legal-move list, the move returned is one of the legal moves (the drawn index lies in 0..len-1) |
| SimpleAgents.Scores | pacmanAgents.py:42-44 | one score per legal move, in order, each the heuristic of that move's successor, not of the current state |
| SimpleAgents.MinOf | pacmanAgents.py:46 | the best score is one of the scores and no score is smaller |
| SimpleAgents.BestActions | pacmanAgents.py:48 | a move is in the tie set exactly when it is a legal move whose successor scores the best score |
| SimpleAgents.BestActionsNonEmpty | pacmanAgents.py:46-48 | the tie set built from the least score is never empty, so `random.choice` always has a move to draw |
| SimpleAgents.OneStepLookAheadAgent | pacmanAgents.py:38-50 | the move returned is legal and its successor's heuristic is no greater than that of any legal move's successor |
| SearchNode.Seed | pacmanAgents.py:64-73 | the initial frontier has one node per root move, in move order; node i holds move i's successor, depth 1, cost heuristic + 1 and root action move i |
| SearchNode.Kids | pacmanAgents.py:80-93 | every kept child is one level deeper than its parent, costs its depth plus its heuristic, inherits the parent's root action, is not losing and is the successor of one of the moves; every non-losing successor yields a child |
| SearchNode.ExpandSpec | pacmanAgents.py:80-93 | `Expand`, the move-by-move loop, stops exactly when some move has a halting successor (absent, or also winning for A*); otherwise it adds exactly the kept children, behind the frontier in move order for a queue or in front in reverse order for a stack |
| SearchNode.PlaceSameNodes | pacmanAgents.py:134-137 | appending the children and inserting each at the front yield frontiers holding the same nodes: the old ones plus the children |
| SearchNode.SeedValid | pacmanAgents.py:64-73 | every node of `RootFrontier` (built by `Seed`) has depth 1, costs its depth plus its heuristic and has a legal root move as its root action; the seeding is the same in BFS (lines 64-73), DFS (lines 108-117) and A* (lines 151-160) |
| SearchNode.ExpandValid | pacmanAgents.py:80-93 | expanding a valid node keeps every frontier node valid: cost = depth + heuristic, root action a legal root move, nodes below the first level never losing; the expansion is the same in BFS (lines 80-93), DFS (lines 124-137) and A* (lines 167-179) |
| CostOrder.FirstMin | pacmanAgents.py:83-84 | the index picked is a node of least cost and every earlier node costs strictly more |
| CostOrder.SortMultiset | pacmanAgents.py:162 | `Sort` (the model of `sorted` on lines 83 and 162) keeps exactly the same nodes |
| CostOrder.SortSorted | pacmanAgents.py:162 | the output of `Sort` is ordered by ascending totalCost |
| CostOrder.SortStable | pacmanAgents.py:162 | `Sort` is stable: for every cost, the nodes of that cost appear in the same order as before sorting (Python's sort is stable) |
| CostOrder.SortHead | pacmanAgents.py:83-84 | the head of the sorted list, what `pop(0)` takes, is the earliest node of least cost |
| CostOrder.SortTail | pacmanAgents.py:162-163 | after the head is popped, the remainder holds the original nodes minus that one node |
| BlindSearch.BlindStepSpec | pacmanAgents.py:74-93 | for `BlindStep`, one loop iteration: an empty frontier ends the call with no move; otherwise the front node is dequeued and appended to explored; the call ends exactly when a move of that node has no successor, answering the root action of the earliest cheapest explored node; otherwise the frontier becomes the rest plus the kept children placed by the policy |
| BlindSearch.BlindPoliciesAgree | pacmanAgents.py:118-137 | from the same search state, one BFS iteration and one DFS iteration stop together with the same answer, or continue with the same explored list and frontiers holding the same nodes (whole runs may diverge, see `Scenarios.ChainCheapRight`) |
| BlindSearch.BlindStepValid | pacmanAgents.py:119-128 | one iteration keeps all frontier and explored nodes valid, and an answer is a legal root move |
| BlindSearch.RunBlindLegal | pacmanAgents.py:74-93 | whatever move `RunBlind`, the fuel-bounded `while` loop, returns is a legal move of the root |
| BlindSearch.BlindStepAnswer | pacmanAgents.py:82-84 | an iteration that returns a move returns the root action of the earliest cheapest node of the explored list it has just extended, whose last node has a move without successor |
| BlindSearch.BlindIterateValid | pacmanAgents.py:74-93 | every search state `BlindIterate` reaches after k iterations from a valid state is valid, and its explored list extends the starting one |
| BlindSearch.RunBlindStops | pacmanAgents.py:74-93 | a run of `RunBlind` that ends within its fuel ends at one of its own iterations: for some k below the fuel, the step from the state reached after k iterations gives the run's outcome |
| BlindSearch.RunBlindAnswer | pacmanAgents.py:74-84 | a move returned by the loop comes from its own iteration k: the state reached there has a non-empty frontier, and the move is the root action of the earliest cheapest node of that state's explored list plus its front node, all valid, the front node having a move without successor |
| BlindSearch.BlindAgent | pacmanAgents.py:60-76 | a returned move is a legal root move; with no root moves the frontier is empty and no move is returned |
| BlindSearch.BlindAgentAnswer | pacmanAgents.py:58-93 | a move returned by BFS or DFS comes from the loop's own iteration k started from the seeded frontier: it is the root action of the earliest cheapest node of the explored list there, whose last node has a move without successor |
| BlindSearch.BFSAgent | pacmanAgents.py:58-93 | a move returned by the queue-based search is a legal root move |
| BlindSearch.DFSAgent | pacmanAgents.py:102-137 | a move returned by the stack-based search is a legal root move |
| AStarSearch.AStarStepSpec | pacmanAgents.py:161-172 | for `AStarStep`, one loop iteration: an empty frontier ends the call with no move; otherwise the node expanded is the earliest of least cost, and the call ends exactly when one of its moves has an absent or winning successor, answering that node's own root action rather than the child's |
| AStarSearch.AStarStepGrows | pacmanAgents.py:173-179 | when an `AStarStep` iteration continues, the frontier becomes the sorted rest followed by the kept children in move order, that is the old frontier minus the expanded node plus its children |
| AStarSearch.AStarStepValid | pacmanAgents.py:165-179 | one iteration keeps all frontier nodes valid, and an answer is a legal root move |
| AStarSearch.RunAStarLegal | pacmanAgents.py:161-179 | whatever move `RunAStar`, the fuel-bounded `while` loop, returns is a legal move of the root |
| AStarSearch.AStarIterateValid | pacmanAgents.py:161-179 | every frontier `AStarIterate` reaches after k iterations from a valid frontier is valid |
| AStarSearch.RunAStarStops | pacmanAgents.py:161-179 | a run of `RunAStar` that ends within its fuel ends at one of its own iterations: for some k below the fuel, the step from the frontier reached after k iterations gives the run's outcome |
| AStarSearch.RunAStarAnswer | pacmanAgents.py:161-170 | a move returned by the loop comes from its own iteration k: it is the root action of the earliest cheapest node of the valid frontier reached there, a node with a move whose successor is absent or winning |
| AStarSearch.AStarAgent | pacmanAgents.py:145-179 | a returned move is a legal root move; with no root moves no move is returned |
| AStarSearch.AStarAgentAnswer | pacmanAgents.py:145-179 | a move returned by A* comes from the loop's own iteration k started from the seeded frontier: it is the root action of the earliest cheapest node of the frontier there, a node with a move whose successor is absent or winning |
| Scenarios.LookAheadPrefersBetterSuccessor | pacmanAgents.py:42-48 | with successor heuristics 2 (Up) and 5 (Down) the scores are [2, 5] and the only best move is Up |
| Scenarios.ChainRuns | pacmanAgents.py:74-137 | on a two-branch chain, BFS answers from the sort of the first-level nodes and the Left child, and DFS from the sort of the Left node and its child |
| Scenarios.ChainFlatHeuristic | pacmanAgents.py:83-84 | with a flat heuristic both BFS and DFS answer Left |
| Scenarios.ChainCheapRight | pacmanAgents.py:127-128 | with a cheap Right branch BFS answers Right and DFS answers Left |
| Scenarios.ChainBfsStopState | pacmanAgents.py:74-84 | on the chain game, the state BFS reaches after two iterations has explored the two first-level nodes, holds the Left node's child at the front, and its next step stops, so the answer is drawn from exactly those three nodes |
| Scenarios.TrapRuns | pacmanAgents.py:161-179 | A* drops a losing successor; it answers Left when the Left branch reaches a win, and exhausts its frontier when that branch loses too |

## Left out

- Game engine internals (`pacman.Directions`, `game.Agent` and the state methods): the five engine operations are fields of `Game`, supplied by the caller.
- The formula of `admissibleHeuristic` (from the `heuristics` module) is not part of this model. It is an arbitrary integer function; a float result is not modelled.
- Randomness: `random.randint` and `random.choice` become a nondeterministic choice of an index. The model states which moves can come back, not their distribution.
- Unbounded loops: the real loops end on an empty frontier (lines 74, 118 and 161), on a refused successor, or, in A*, on a winning successor (line 169). Only the refusal is guaranteed to come, because the engine refuses successors once its call budget is spent. The model runs the loops with a `fuel` bound, and `OutOfFuel` answers what happens past it.
- Root successors: seeding and the lookahead agent pass every root successor to `admissibleHeuristic`, which would fault on None. The agents therefore require `RootExpandable` rather than modelling the fault.
- Empty move lists: `RandomAgent` and `OneStepLookAheadAgent` require at least one legal move, because `randint(0, -1)` and `min([])` raise on an empty list.
- The loop-carried `depth` variable is not modelled. It changes only when the dequeued node has legal moves, and only then are children built, so every child is exactly one level deeper than its parent.
- The `explored` list of `AStarAgent` is never read, so it is not modelled.
- `registerInitialState` (empty bodies) is not modelled.
- Python's `min(scored)` compares (score, move) pairs. Only the score component is used, so the model takes the least score.
- Successor history: `successor` is a fixed function of state and move, while the engine's refusals depend on how many successors it has already generated, so the same query may answer a state early and None later. That history is not modelled. The per-iteration lemmas (`BlindStepSpec`, `AStarStepSpec`, `AStarStepGrows`) still describe one iteration, because an iteration queries each move of one node exactly once; the model reads the engine's answers for that iteration as the function's values.
- BlindSearch.BlindAgent: its own contract states only legality and the empty-root case. Which root action is answered on a stop is stated by `BlindAgentAnswer` and `RunBlindAnswer`, on the explored list of the iteration at which the run stops (`BlindIterate`).
- BlindSearch.BFSAgent: its own contract states only that an answer is a legal root move. The per-iteration behaviour is stated by `BlindStepSpec`, and the answer on a stop by `BlindAgentAnswer`.
- BlindSearch.DFSAgent: its own contract states only that an answer is a legal root move. The per-iteration behaviour is stated by `BlindStepSpec`, and the answer on a stop by `BlindAgentAnswer`.
- AStarSearch.AStarAgent: its own contract states only legality and the empty-root case. The per-iteration behaviour is stated by `AStarStepSpec` and `AStarStepGrows`, and the answer on a stop by `AStarAgentAnswer`.
