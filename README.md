# Fruit stack sorter: a verified model of the A* solver in temp.py

`temp.py` solves a small puzzle. A `FruitStack` is a rows x cols board of
`Fruit`s, and each fruit has a category and a size. The goal is a board whose
every column, read top to bottom, has non-decreasing size. A move picks one
cell (i, j). On a copy of the board it swaps the fruit at (i, j) with the one
above, then below, then left, then right, wherever that neighbour exists. Each
swap uses whatever fruit the previous swap left at (i, j). `solve` runs a
best-first (A*-style) search over boards:

- It pops a node of minimum `f = g + h`.
- It returns the node's path when the board is sorted.
- Otherwise it closes the board and enqueues every successor whose board is
  not closed, with `g + 1` and the path extended by the successor.

The model has three modules:

- `Grids` (grids.dfy) holds the value-level definitions and their lemmas:
  - `Fruit` and `Grid` (a `seq<seq<Fruit>>`);
  - the goal predicate `ColumnsSorted`;
  - the heuristic `InversionCount`;
  - the single swap `Swap` and the compound move `CompoundSwap`;
  - the permutation measure `Bag`;
  - reachability, as `IsStep`, `Chain` and `End`.
- `Stacks` (stacks.dfy) holds the class `FruitStack`. It has the fields
  `fruits`, `rows` and `cols`, and a mutable `board` field that swaps
  reassign. It also has the methods `IsSorted` and `FindFruit`, written as
  the source's nested loops.
- `Search` (search.dfy) holds:
  - the `Node` record (f, g, stack, path);
  - `Heuristic` and `GetSuccessors`, written as the source's loops;
  - `Solve`, the search loop, over a frontier sequence and a closed set of
    boards.

  Ghost companions of the frontier record each entry's path boards. A ghost
  map records the board of every stack handed out. With these, the loop
  invariants speak about values rather than heap objects.

Two modelling choices need explaining:

- **Heuristic direction.** `heuristic` (temp.py:79) compares each cell with
  its **left** neighbour in the same row, so it counts disorder along rows.
  The goal test `is_sorted` (temp.py:16-22) compares each cell with the one
  **above** it, so it is about columns. The model keeps the row count exactly
  as written. `Grids.GoalWithPositiveHeuristic` exhibits a sorted board whose
  heuristic is 1.
- **Fruit equality.** `Fruit` is a value, so two fruits with the same category
  and size are equal. In temp.py `Fruit` defines no equality, so Python
  compares fruits by identity. The closed-set lookup (temp.py:136-142) and
  `find_fruit` (temp.py:38) therefore compare object identities. Because
  `deepcopy` (temp.py:89) creates fresh fruits, no successor's board ever
  matches a closed entry in the source. The model gives the closed set the
  value meaning that its tuple keys are evidently meant to have. All the
  properties of `Solve` below are about paths and boards, not about which
  duplicates were pruned. The one exception is its completeness claim on
  `NoPath`, which holds under either reading of equality.

## Model

| member | source | states |
|---|---|---|
| Stacks.FruitStack.constructor | temp.py:9-11 | The stack keeps the given categories and shape and holds the given rows x cols board. |
| Stacks.FruitStack.IsSorted | temp.py:16-22 | Scans column by column from row 1. The result is true exactly when no fruit is smaller than the one directly above it (`ColumnsSorted`). |
| Stacks.FruitStack.FindFruit | temp.py:34-40 | `None` exactly when no cell holds the fruit. Otherwise it returns an in-bounds position holding the fruit, and no earlier position in row-major order holds it. |
| Stacks.FruitStack.Clone | temp.py:89 | The deep copy is a fresh object with the same categories, shape and board. |
| Stacks.FruitStack.SwapCells | temp.py:94 | The board becomes the old board with the two cells exchanged, and stays a rows x cols rectangle. |
| Grids.Swap | temp.py:94 | The two cells trade fruits, every other cell keeps its fruit, and the shape is unchanged. |
| Search.Heuristic | temp.py:72-81 | The loop's count equals `InversionCount` of the board, the number of (row, column >= 1) cells smaller than their left neighbour. |
| Grids.InversionCountIsCellCount | temp.py:75-81 | The heuristic is the size of the set of cells smaller than their left neighbour. |
| Grids.InversionCountBound | temp.py:77-78 | The heuristic is at most rows * (cols - 1), and 0 when there are no columns. |
| Grids.InversionCountZeroIffRowsSorted | temp.py:79-80 | The heuristic is 0 if and only if every row is non-decreasing left to right. |
| Grids.GoalWithPositiveHeuristic | temp.py:72-81 | The single-row board [a:2, a:1] passes the goal test, yet its heuristic is 1: the heuristic does not vanish at every goal. |
| Grids.CompoundSwap | temp.py:92-106 | The successor board for cell (i, j), defined as four conditional swaps applied in order to one copy: with the cell above if i > 0, below if i < rows - 1, left if j > 0, and right if j < cols - 1, each acting on whatever fruit the previous swap left at (i, j). Its contract says the result is a board of the same rows x cols shape; what it does to the fruits is stated by the four lemmas below and by `CompoundSwapPermutes`. |
| Grids.CompoundSwapLocal | temp.py:92-106 | A successor leaves every cell outside the plus-shaped neighbourhood of (i, j) unchanged. |
| Grids.CompoundSwapMoves | temp.py:92-106 | Each existing neighbour receives the fruit that sat at (i, j) just before its own swap, in the order above, below, left, right. (i, j) ends with the last fruit taken. |
| Grids.CompoundSwapInterior | temp.py:92-106 | For a cell with four neighbours, the five fruits rotate: centre to above, above to below, below to left, left to right, right to centre. |
| Grids.CompoundSwapSingleCell | temp.py:92-106 | On a 1x1 board the only successor equals the parent. |
| Grids.SwapPermutes | temp.py:94 | A swap keeps the multiset of fruits on the board. |
| Grids.SwapIfPermutes | temp.py:92-106 | Each conditional swap keeps the multiset of fruits. |
| Grids.CompoundSwapPermutes | temp.py:92-106 | Every successor board is a permutation of its parent: the same multiset of fruits. |
| Search.SuccessorFor | temp.py:89-108 | The successor for (i, j) is a fresh stack of the same categories and shape, whose board is `CompoundSwap` of the parent board. |
| Grids.SuccessorAtCell | temp.py:87-88 | The successor of cell (i, j) sits at index i * cols + j of the row-major list. |
| Grids.SuccessorPrefixAppend | temp.py:109 | Appending the successor of the next cell keeps the list a row-major prefix of the successors. |
| Grids.SuccessorAtIsStep | temp.py:87-109 | Every listed successor is one move (`IsStep`) from its parent. |
| Search.GetSuccessors | temp.py:83-110 | Returns exactly rows * cols stacks. Stack k has the parent's categories and shape, and the board of the compound swap at cell (k / cols, k % cols). The parent is not written (no modifies clause). |
| Search.MinIndex | temp.py:122-124 | The index picked is in range, and no frontier node has a smaller f. |
| Search.RemoveAt | temp.py:124 | Popping removes exactly the chosen entry and keeps the others in order. |
| Search.MakeChild | temp.py:144-150 | The new node holds the successor, with g one more than its parent's, the parent's path extended by the successor, and f = g + heuristic of the successor's board. |
| Search.Expand | temp.py:140-151 | The keys are exactly `Unclosed(SuccessorList(parent), closed)`: one per successor whose board is not closed, in row-major order, repeats kept. Child m pairs with key m. It holds a well-formed stack with that board, one move from the parent, with g + 1, f = g + heuristic of the key, and the parent's path extended by its stack. Every successor of the parent's board is either closed or among the keys. |
| Grids.SuccessorPrefixComplete | temp.py:87-109 | A row-major prefix of successors that has reached all rows * cols cells equals `SuccessorList`, the full list the source's two loops build. |
| Search.UnclosedMembers | temp.py:141-142 | A board survives the closed-set filter exactly when it is listed and not closed. |
| Search.UnclosedAppend | temp.py:141-142 | Checking one more successor against the closed set appends it to the filtered list when it is not closed, and otherwise appends nothing. |
| Search.CoveredByPrefix | temp.py:140-142 | Once every successor in the row-major list has been checked against the closed set, every move from the board leads to a closed or an enqueued board. |
| Search.CoveredAllClosed | temp.py:156-157 | When the frontier is empty, the closed set contains every successor of each of its boards. |
| Grids.ChainExtend | temp.py:149 | Extending a path by one move from its last board gives a path ending in the new board. |
| Grids.ChainStaysInClosedSet | temp.py:156-157 | Every path from a board in a successor-closed set ends inside the set, so an exhausted search has seen everything reachable. |
| Grids.SmallBoardSortedInOneStep | temp.py:92-106 | The 2x2 board with columns [a:2, a:1] and [b:1, b:1] is unsorted, and the move at (0, 0) sorts it. |
| Search.ChildEntry | temp.py:144-150 | A child of a well-formed frontier node is well formed: g equals the length of its path, the path is a chain from the start board, and f = g + heuristic of its last board. |
| Search.EntriesOfChildren | temp.py:140-151 | All children enqueued in one expansion are well-formed frontier entries. |
| Search.EntriesAppend | temp.py:151 | Putting well-formed entries on a well-formed frontier keeps it well formed. |
| Search.EntriesRemove | temp.py:124 | Popping an entry keeps the rest of the frontier well formed. |
| Search.BoardsStep | temp.py:140-151 | Recording the children's stacks keeps every recorded stack holding its recorded board, and forgets nothing. |
| Search.PathTrail | temp.py:129-133 | The stacks of a popped node's path are well formed and hold exactly the boards of its chain. |
| Search.ClosedStep | temp.py:135-151 | Closing the popped board and enqueuing its unclosed successors keeps each closed board's successors closed or pending. |
| Search.Solve | temp.py:112-157 | A returned path consists of well-formed stacks. It is a chain of moves from the start board ending in a sorted board. A sorted start returns the empty path (given fuel). `NoPath`, an exhausted frontier, means no chain from the start reaches a sorted board. |

## Left out

- Random board construction (temp.py:13-14): the board is a constructor argument. No range is imposed on sizes or categories, and the `fruits` list is not checked against the board.
- The numpy array (temp.py:14) is modelled as an immutable grid value in a mutable field. Each swap reassigns the field, so in-place update and aliasing of the array are not modelled.
- `print_board`, `Fruit.__str__`/`__repr__`, the progress prints and the `state_no` counter (temp.py:24-32, 48-52, 121, 125, 130-131, 153, 155) are output only.
- The module-level script (temp.py:160-161).
- `Node.__eq__`/`__hash__` (temp.py:65-69) delegate to the stack's object identity. The queue never uses them, so the model does not represent them. `Node.__lt__` (temp.py:62-63) becomes the comparison of f in `MinIndex`.
- Search.MinIndex: `queue.PriorityQueue` breaks ties among equal f by heap order, while the model picks the earliest entry. The contract states only minimality, which is all the source guarantees.
- Search.Solve: the Python loop runs until the queue is empty, with no termination guarantee. The model spends one unit of `fuel` per popped node and returns `OutOfFuel` when it runs out. No claim is made about optimality of the returned path.
- Search.Solve: the start node gets f = 0 as in temp.py:118, not its heuristic value.
- Search.GetSuccessors: the contract does not state that the returned stacks are distinct objects from the parent and from each other. `SuccessorFor` states freshness for each one.
- Fruit identity semantics (temp.py:42-52, 136-142): fruits compare by value here. Under the source's identity comparison the closed-set check never matches a copied board.
