# A* search on a square grid

A Dafny model of the A* demonstration in `Algorithms/a_star.cpp`. The program
searches an N x N character grid. Walls are `'@'`. The search goes from a
start cell to a goal cell with 4-directional unit moves, and the heuristic is
the Manhattan distance to the goal. It keeps:

- a frontier: an ordered set of nodes, compared by (priority, heuristic, row,
  column);
- a visited table: a map from the key `r * N + c` to the node that finalised
  that cell.

Each iteration pops the least node. If its cell is already finalised, the node
is dropped. Otherwise the node is entered into the table. On the goal, the
search stops. Otherwise every in-bounds, wall-free, unvisited neighbour is
pushed, one step more expensive and linked back to the popped cell. The cursor
`cur` then moves onto the popped cell. Once the goal is found, the program
follows back-links from the cursor until the start node's `-1` link and marks
each cell on the way.

The model is split into modules that follow the program's parts:

- `Grid` (`grid.dfy`): cells, bounds, Manhattan distance, the cell key, the
  four moves and wall placement.
- `Nodes` (`nodes.dfy`): the search node, its constructor and its comparison.
- `Frontier` (`frontier.dfy`): the ordered set, as a strictly increasing
  sequence.
- `Expansion` (`expansion.dfy`): one iteration of the loop and the neighbour
  loop.
- `Paths` (`paths.dfy`): paths on the grid, back-links and the walk-back loop.
- `Invariants` (`invariants.dfy`): the loop invariant and its preservation.
- `AStar` (`astar.dfy`): the whole loop, termination, the end-to-end run and
  the optimality and reachability theorems.

The grid side is a parameter `n`; the program fixes it at `FSIZE = 30`. The
session also records `order`, the finalised nodes in the order they were
finalised. The program draws one frame per finalised node, except for the
goal: the loop breaks at lines 143-146, before the drawing at lines 162-167.
So the frames are `order`, minus its last entry when the goal is found. The
frames are a prefix of `order`, so what the model proves about `order`
(non-decreasing priority, each cell once) holds of the frames too.

Three points where the code does less than its comments or its callers
suggest. The model follows the code in each:

- The header comment (lines 1-7) promises to mark the shortest path from
  start to end, and the comment at line 173 to mark the shortest path. The walk-back at lines 174-180 does not
  start at the goal. It starts at the cursor `cur`, which is the last
  finalised cell other than the goal. The model proves that when the goal is
  found away from the start, the cursor is exactly the goal's recorded
  predecessor (`AStar.CurIsGoalParent`). So the marked cells are a shortest
  path minus the goal cell, which keeps its `'x'` marker. This follows from
  the consistent heuristic together with the tie-break on the heuristic. It
  is not a defect.
- The generator loop at lines 114-119 rejects a start equal to the goal and
  a start or goal on a wall. The search itself never checks either. The
  model only requires what the search relies on: in-bounds start and goal
  and a square field. When start and goal coincide, the first pop finalises
  the goal and the walk-back marks the start alone (`AStar.Run`).
- Nothing in the program checks that a path from start to goal exists. The
  model covers an exhausted frontier and proves the goal unreachable in that
  case (`AStar.Exhausted`).

## Model

| member | source | states |
|---|---|---|
| Grid.Dist | Algorithms/a_star.cpp:64-67 | the Manhattan distance is never negative and is zero exactly when the two cells coincide |
| Grid.DistSymmetric | Algorithms/a_star.cpp:64-67 | the distance does not depend on the order of its two cells |
| Grid.DistTriangle | Algorithms/a_star.cpp:64-67 | the distance obeys the triangle inequality, so the heuristic is admissible |
| Grid.InBoundsIffKeyed | Algorithms/a_star.cpp:59-62 | `isValid` holds exactly for the cells of the N x N grid, each with row and column in [0, N) |
| Grid.HashRange | Algorithms/a_star.cpp:69-72 | the key of an in-bounds cell lies in [0, N*N) |
| Grid.HashInjective | Algorithms/a_star.cpp:69-72 | two in-bounds cells have the same key exactly when they are the same cell |
| Grid.UnhashHash | Algorithms/a_star.cpp:69-72 | an in-bounds cell is recovered from its key by division and remainder by N |
| Grid.MoveChangesDistByOne | Algorithms/a_star.cpp:25-26 | each of the four moves changes the distance to any fixed cell by exactly one, so the heuristic is consistent |
| Grid.MoveIffDistOne | Algorithms/a_star.cpp:25-26 | two cells are one of the four moves apart exactly when their distance is one |
| Grid.PlaceWall | Algorithms/a_star.cpp:74-79 | after the nested loops, exactly the cells of the rectangle hold `'@'`, every other cell is unchanged, and the field stays N x N; an empty rectangle changes nothing |
| Grid.InBounds | Algorithms/a_star.cpp:59-62 | the bounds check `isValid`; its contract is carried by `Grid.InBoundsIffKeyed`, and `Grid.HashRange` and `Grid.HashInjective` use it as their premise |
| Grid.Hash | Algorithms/a_star.cpp:69-72 | the key `r * N + c`; its contract is carried by `Grid.HashRange`, `Grid.HashInjective` and `Grid.UnhashHash` |
| Grid.Blocked | Algorithms/a_star.cpp:152 | the wall test: an in-bounds cell holding `'@'`; `Grid.PlaceWall` states which cells satisfy it after a wall is placed, and `Expansion.ExpandAddsSuccessors` that no pushed node satisfies it |
| Nodes.Less | Algorithms/a_star.cpp:47-56 | the comparison `operator<`; its contract is carried by `Nodes.LessIsLexicographic`, `Nodes.LessStrictOrder` and `Nodes.EquivIffSameKey` |
| Expansion.StartNode | Algorithms/a_star.cpp:125 | the start node: the start cell with its own heuristic, cost 0 and no back-link; `Invariants.InitInv` shows it is a well-formed node of the invariant |
| Expansion.Init | Algorithms/a_star.cpp:123-127 | the frontier holding only the start node, an empty table and `found` false; `Invariants.InitInv` states it satisfies the loop invariant |
| Expansion.Pushable | Algorithms/a_star.cpp:150-153 | the skip test of the neighbour loop: a move is pushed exactly when it lands in bounds, off the walls and outside the table; `Expansion.Expand` and `Expansion.Step` state that exactly these moves are pushed |
| Expansion.Successor | Algorithms/a_star.cpp:154-158 | the pushed node: cost one more, heuristic of its own cell, back-link to the popped cell; `Expansion.ExpandAddsSuccessors` and `Expansion.SuccessorPriority` state its properties |
| Nodes.NewNode | Algorithms/a_star.cpp:30-35 | the constructor keeps cell, estimate and cost, derives priority = heuristic + dist, and sets the back-link to (-1, -1) |
| Nodes.NewNodeKeyInjective | Algorithms/a_star.cpp:30-35 | two constructed nodes compare equivalent exactly when their cell, estimate and cost agree |
| Nodes.LessIsLexicographic | Algorithms/a_star.cpp:47-56 | the comparison is the lexicographic order of (priority, heuristic, row, column) |
| Nodes.LessStrictOrder | Algorithms/a_star.cpp:47-56 | the comparison is irreflexive and transitive; with `Nodes.EquivIffSameKey`, which makes equivalence key equality and so transitive, it is the strict weak order an ordered set requires |
| Nodes.EquivIffSameKey | Algorithms/a_star.cpp:47-56 | neither of two nodes is less than the other exactly when all four compared fields agree |
| Nodes.EquivSameCost | Algorithms/a_star.cpp:47-56 | well-formed equivalent nodes share cell, cost and estimate, and differ at most in their back-link |
| Nodes.LexIrreflexive | Algorithms/a_star.cpp:47-56 | no key sequence is lexicographically less than itself |
| Nodes.LexTransitive | Algorithms/a_star.cpp:47-56 | the lexicographic order is transitive |
| Nodes.LexTrichotomy | Algorithms/a_star.cpp:47-56 | two keys of equal length are equal or ordered one way |
| Frontier.Insert | Algorithms/a_star.cpp:159 | inserting into the ordered set keeps it strictly ordered; a node equivalent to one present leaves the set unchanged; otherwise the contents gain exactly the new node |
| Frontier.InsertMembers | Algorithms/a_star.cpp:159 | insertion keeps every element and adds nothing but the inserted node |
| Frontier.PopMin | Algorithms/a_star.cpp:133-135 | taking the first element yields a member that orders strictly before every remaining node; the remainder is the rest of the set, still ordered |
| Frontier.HeadIsLeast | Algorithms/a_star.cpp:133-135 | the first element is not greater than any element and has the least priority |
| Expansion.Expand | Algorithms/a_star.cpp:148-160 | the neighbour loop keeps every frontier node; it adds only successors for moves that are in bounds, wall-free and unvisited; each such successor ends up in the set or has an equivalent there |
| Expansion.ExpandAddsSuccessors | Algorithms/a_star.cpp:148-160 | every node the neighbour loop adds is a 4-neighbour of the popped cell: in bounds, not `'@'`, unvisited, with dist + 1, its own heuristic and a back-link to the popped cell |
| Expansion.Step | Algorithms/a_star.cpp:131-166 | one iteration either drops a stale node and changes nothing else, or finalises the popped node's cell and grows the table by that one entry; no entry is overwritten; `found` is set exactly when the finalised cell has distance 0 to the goal; finalising the goal pushes nothing; finalising any other cell pushes every in-bounds, wall-free, unvisited neighbour (or an equivalent node is already waiting) and nothing but such successors; the cursor moves onto each finalised non-goal cell |
| Expansion.SuccessorPriority | Algorithms/a_star.cpp:154-156 | a pushed node's priority is never below the popped node's, and equals it exactly when the heuristic drops by one |
| Paths.Trail | Algorithms/a_star.cpp:175-180 | the cells visited by following back-links from a finalised cell: it has dist + 1 cells, stays in the table, takes 4-neighbour steps with dist falling by one each step, and ends at the start |
| Paths.WalkBack | Algorithms/a_star.cpp:174-180 | the walk-back loop terminates and marks exactly the cells of the trail, from the starting cell to the start in dist + 1 cells |
| Paths.TrailIsPath | Algorithms/a_star.cpp:174-180 | read from the start, the trail is a wall-free path reaching the finalised cell in exactly its recorded number of moves |
| Paths.SeenCell | Algorithms/a_star.cpp:138-140 | the table entry under the key of an in-bounds cell stands on that cell |
| Invariants.InitInv | Algorithms/a_star.cpp:123-127 | the session built from the start node alone satisfies the loop invariant |
| Invariants.StepInv | Algorithms/a_star.cpp:131-160 | every iteration preserves the loop invariant: well-formed table and frontier, finalisation order with non-decreasing priorities, coverage of unvisited neighbours, the cursor/goal-parent link and optimality of every recorded cost |
| Invariants.DiscardInv | Algorithms/a_star.cpp:138-139 | dropping an already-finalised node preserves the invariant |
| Invariants.FinaliseOrder | Algorithms/a_star.cpp:140 | finalising the least node keeps the finalisation order free of repeats and non-decreasing in priority, and no finalised node costs more than a waiting one |
| Invariants.FinaliseFound | Algorithms/a_star.cpp:142-146 | after finalising, `found` holds exactly when the goal is in the table, and the cursor is the last finalised non-goal cell |
| Invariants.FinaliseCovered | Algorithms/a_star.cpp:148-160 | every free unvisited neighbour of a finalised non-goal cell has a frontier node at most one step more expensive |
| Invariants.FinaliseGoalParent | Algorithms/a_star.cpp:143-165 | when the goal is finalised, the cursor stands on the goal's recorded predecessor |
| Invariants.FinaliseOptimal | Algorithms/a_star.cpp:133-140 | the popped node's cost is no more than the length of any path to its cell, so every recorded cost is optimal |
| Invariants.PoppedIsOptimal | Algorithms/a_star.cpp:133-140 | the node popped for an unvisited cell costs no more than any path to that cell |
| Invariants.DistAlongPath | Algorithms/a_star.cpp:64-67 | along a path, the distance to a fixed cell falls by at most one per move |
| Invariants.FirstUnseen | Algorithms/a_star.cpp:138-140 | a path from a finalised start to an unvisited cell crosses from finalised to unvisited at some step |
| AStar.Search | Algorithms/a_star.cpp:123-171 | the loop terminates, which the measure (N*N - table size, frontier size) shows; it ends with the goal found or the frontier empty; `found` holds exactly when the goal is in the table; cells are finalised in non-decreasing priority, each once, and the frames drawn are a prefix of that order |
| AStar.SeenBound | Algorithms/a_star.cpp:69-72 | the table never holds more than N*N entries |
| AStar.Exhausted | Algorithms/a_star.cpp:131 | when the frontier runs dry without the goal, every cell any path reaches was finalised and no path reaches the goal |
| AStar.FinalisedIsShortest | Algorithms/a_star.cpp:174-180 | the recorded cost of any finalised cell is the length of a shortest path to it, and the reversed trail from it is such a path |
| AStar.CurIsGoalParent | Algorithms/a_star.cpp:162-175 | once the goal is found away from the start, the cursor is the goal's predecessor, and the trail from the goal is the goal followed by the trail from the cursor |
| AStar.CurAtStart | Algorithms/a_star.cpp:162-175 | when start and goal coincide, the cursor is still on the start when the goal is found |
| AStar.Run | Algorithms/a_star.cpp:123-182 | the search finds the goal exactly when some path reaches it; then the marked cells, read from the start and followed by the goal, form a shortest path; if the goal is the start only the start is marked; with no path, nothing is marked |

## Left out

- Random generation of walls, start and goal (`placeRandomWall`, lines 81-91, and the loop at lines 113-119) is not modelled. The model takes any square field and in-bounds start and goal. `Grid.PlaceWall` requires a non-empty rectangle to lie inside the grid. Outside it the program would write out of bounds, and the random generator never does.
- The goal cell is painted `'x'` at line 121 before the search starts, so the program's search never sees a wall there; the generator loop at lines 114-119 already keeps walls off the goal. The model does not paint the goal. It accepts a field with `'@'` on the goal cell and then reports the goal unreachable, an input the program never produces.
- Printing the field, waiting for a key and the separator line (lines 93-100, 167-170, 181) are display only and are left out.
- The markers `'*'`, `'#'` and `'x'` painted into the field (lines 120-121, 163-166, 176) are not modelled as field writes. None of them is `'@'`, so the search's wall test sees the same field throughout, and the model keeps the field constant. The painted path is returned as the sequence of marked cells instead.
- `StarSim/StarSim.cpp` is a separate program that shares nothing with the search and is not part of this model.
- Integer width: the model uses unbounded integers. With the program's 30 x 30 grid every key, cost and priority stays below 1000, so 32-bit overflow cannot occur.
- The ordered set's balanced tree is represented by its in-order contents, a strictly increasing sequence. The running-time bound in the program's comment is not modelled.
- Determinism of the expansion order needs no statement: every operation of the model is a function of its inputs.
