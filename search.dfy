/**
 * The best-first search of temp.py: the heuristic, successor generation, one
 * expansion step and the driver loop over a frontier and a closed set.
 */
module Search {
  import opened Grids
  import opened Stacks

  /**
   * A search-tree node (temp.py `Node`): priority f, cost g, the stack it
   * holds and the stacks on the way to it from the start (start excluded).
   */
  datatype Node = Node(f: int, g: int, stack: FruitStack, path: seq<FruitStack>)

  /** How a search ends: a path to a sorted board, an exhausted frontier, or spent fuel. */
  datatype Outcome = Found(path: seq<FruitStack>) | NoPath | OutOfFuel

  // ---------------------------------------------------------------------------
  // Heuristic
  // ---------------------------------------------------------------------------

  /**
   * The number of cells whose size is smaller than that of their left
   * neighbour, counted row by row.
   */
  method Heuristic(stack: FruitStack) returns (h: nat)
    requires stack.Valid()
    ensures h == InversionCount(stack.board)
  {
    var g := stack.board;
    h := 0;
    var i := 0;
    while i < stack.rows
      invariant 0 <= i <= stack.rows
      invariant h == Inversions(g, i)
    {
      assert |g[i]| == stack.cols;
      var j := 1;
      while j < stack.cols
        invariant 1 <= j && (j <= stack.cols || stack.cols == 0)
        invariant h == Inversions(g, i) + RowInversions(g[i], if j <= stack.cols then j else 0)
      {
        if g[i][j].size < g[i][j - 1].size {
          h := h + 1;
        }
        j := j + 1;
      }
      i := i + 1;
    }
  }

  // ---------------------------------------------------------------------------
  // Successors
  // ---------------------------------------------------------------------------

  /**
   * The successor for cell (i, j): a deep copy of the stack on which the fruit
   * at (i, j) is swapped with the one above, below, left and right, in that
   * order, whenever that neighbour exists.
   */
  method SuccessorFor(stack: FruitStack, i: nat, j: nat) returns (next: FruitStack)
    requires stack.Valid() && i < stack.rows && j < stack.cols
    ensures fresh(next)
    ensures next.Valid() && next.fruits == stack.fruits && next.rows == stack.rows && next.cols == stack.cols
    ensures next.board == CompoundSwap(stack.board, i, j)
  {
    next := stack.Clone();
    if i > 0 {
      next.SwapCells(i, j, i - 1, j);
    }
    if i < stack.rows - 1 {
      next.SwapCells(i, j, i + 1, j);
    }
    if j > 0 {
      next.SwapCells(i, j, i, j - 1);
    }
    if j < stack.cols - 1 {
      next.SwapCells(i, j, i, j + 1);
    }
  }

  /**
   * s is a stack of the same shape and categories as stack whose board is the
   * successor generated for the k-th cell of parent.
   */
  ghost predicate IsSuccessor(stack: FruitStack, parent: Grid, k: int, s: FruitStack)
    reads s
  {
    && s.Valid()
    && s.fruits == stack.fruits && s.rows == stack.rows && s.cols == stack.cols
    && SuccessorAt(parent, k, s.board)
  }

  /**
   * One successor per cell, in row-major order. The parent is never written:
   * this method has no modifies clause, and every swap acts on a fresh copy.
   */
  method GetSuccessors(stack: FruitStack) returns (successors: seq<FruitStack>)
    requires stack.Valid()
    ensures |successors| == stack.rows * stack.cols
    ensures forall k :: 0 <= k < |successors| ==> IsSuccessor(stack, stack.board, k, successors[k])
  {
    var parent := stack.board;
    var rows, cols := stack.rows, stack.cols;
    successors := [];
    ghost var grids: seq<Grid> := [];
    var i := 0;
    while i < rows
      invariant 0 <= i <= rows
      invariant |successors| == |grids| == i * cols
      invariant SuccessorPrefix(parent, grids)
      invariant forall k :: 0 <= k < |successors| ==>
                  && successors[k].Valid()
                  && successors[k].fruits == stack.fruits && successors[k].rows == rows && successors[k].cols == cols
                  && successors[k].board == grids[k]
    {
      var j := 0;
      while j < cols
        invariant 0 <= j <= cols
        invariant |successors| == |grids| == i * cols + j
        invariant SuccessorPrefix(parent, grids)
        invariant forall k :: 0 <= k < |successors| ==>
                    && successors[k].Valid()
                    && successors[k].fruits == stack.fruits && successors[k].rows == rows && successors[k].cols == cols
                    && successors[k].board == grids[k]
      {
        var next := SuccessorFor(stack, i, j);
        SuccessorAtCell(parent, i, j, next.board);
        SuccessorPrefixAppend(parent, grids, next.board);
        successors := successors + [next];
        grids := grids + [next.board];
        j := j + 1;
      }
      assert (i + 1) * cols == i * cols + cols;
      i := i + 1;
    }
  }

  // ---------------------------------------------------------------------------
  // Paths and nodes
  // ---------------------------------------------------------------------------

  /** The boards of a path, in order. */
  ghost function Trail(p: seq<FruitStack>): (t: seq<Grid>)
    reads set s | s in p
    ensures |t| == |p|
    ensures forall k {:trigger t[k]} :: 0 <= k < |p| ==> t[k] == p[k].board
    decreases |p|
  {
    if p == [] then [] else Trail(p[..|p| - 1]) + [p[|p| - 1].board]
  }

  /** s is a well-formed stack whose board is g. */
  ghost predicate Holds(s: FruitStack, g: Grid)
    reads s
  {
    s.Valid() && s.board == g
  }

  /**
   * What every node put on the frontier satisfies, where trail lists the boards
   * of its path: g is the length of the path, the path is a chain of successors
   * from the start board root, the start node has f = 0, and any other node
   * holds the last stack of its path and has f = g + heuristic of its board.
   */
  ghost predicate NodeShape(n: Node, root: Grid, trail: seq<Grid>)
  {
    && n.g == |n.path| == |trail|
    && Chain(root, trail)
    && (n.path == [] ==> n.f == 0)
    && (n.path != [] ==> n.stack == n.path[|n.path| - 1] && n.f == n.g + InversionCount(End(root, trail)))
  }

  /** Every successor of x is already closed or among the pending keys. */
  ghost predicate Covered(x: Grid, closed: set<Grid>, keys: seq<Grid>)
  {
    IsRect(x) && forall i: nat, j: nat :: InBounds(x, i, j) ==> CompoundSwap(x, i, j) in closed || CompoundSwap(x, i, j) in keys
  }

  lemma CoveredMonotone(x: Grid, closed: set<Grid>, keys: seq<Grid>, closed': set<Grid>, keys': seq<Grid>)
    requires Covered(x, closed, keys)
    requires closed <= closed'
    requires forall y | y in keys :: y in closed' || y in keys'
    ensures Covered(x, closed', keys')
  {
  }

  /**
   * When the successors of every cell of x, listed in row-major order, are each
   * closed or pending, x is covered.
   */
  lemma CoveredByPrefix(x: Grid, grids: seq<Grid>, closed: set<Grid>, keys: seq<Grid>)
    requires IsRect(x) && SuccessorPrefix(x, grids) && |grids| == |x| * Width(x)
    requires forall m :: 0 <= m < |grids| ==> grids[m] in closed || grids[m] in keys
    ensures Covered(x, closed, keys)
  {
    forall i: nat, j: nat | InBounds(x, i, j)
      ensures CompoundSwap(x, i, j) in closed || CompoundSwap(x, i, j) in keys
    {
      RowMajorIndex(i, j, Width(x));
      RowMajorBound(i, j, |x|, Width(x));
      assert SuccessorAt(x, i * Width(x) + j, grids[i * Width(x) + j]);
    }
  }

  /** A closed set every board of which is covered with no key pending is successor-closed. */
  lemma CoveredAllClosed(closed: set<Grid>)
    requires forall x | x in closed :: Covered(x, closed, [])
    ensures SuccessorClosed(closed)
  {
    forall y | y in closed ensures SuccessorsIn(y, closed) {
      assert Covered(y, closed, []);
    }
  }

  // ---------------------------------------------------------------------------
  // Frontier and expansion
  // ---------------------------------------------------------------------------

  /**
   * Index of a frontier node of minimum f: what the priority queue hands out
   * next. Among nodes of equal f this picks the earliest.
   */
  function MinIndex(frontier: seq<Node>): (k: nat)
    requires frontier != []
    ensures k < |frontier|
    ensures forall m :: 0 <= m < |frontier| ==> frontier[k].f <= frontier[m].f
    decreases |frontier|
  {
    if |frontier| == 1 then 0
    else
      var k' := MinIndex(frontier[..|frontier| - 1]);
      if frontier[|frontier| - 1].f < frontier[k'].f then |frontier| - 1 else k'
  }

  /** s without its element at index k, the others kept in order. */
  function RemoveAt<T>(s: seq<T>, k: nat): (r: seq<T>)
    requires k < |s|
    ensures |r| == |s| - 1
    ensures forall j :: 0 <= j < |r| ==> r[j] == s[if j < k then j else j + 1]
  {
    s[..k] + s[k + 1..]
  }

  /**
   * child is the node built for the successor board key of node: one more step
   * than node, its path that of node extended by its own stack, and f the new
   * cost plus the heuristic of key.
   */
  ghost predicate ChildOf(child: Node, node: Node, key: Grid)
  {
    && child.g == node.g + 1
    && child.path == node.path + [child.stack]
    && child.f == child.g + InversionCount(key)
  }

  /** The node for a successor stack of node. */
  method MakeChild(node: Node, successor: FruitStack) returns (child: Node)
    requires successor.Valid()
    ensures child.stack == successor && ChildOf(child, node, successor.board)
  {
    var g := node.g + 1;
    var h := Heuristic(successor);
    child := Node(g + h, g, successor, node.path + [successor]);
  }

  /** The boards of s that are not in closed, in their order in s, repeats kept. */
  function Unclosed(s: seq<Grid>, closed: set<Grid>): (r: seq<Grid>)
    ensures |r| <= |s|
    decreases |s|
  {
    if s == [] then []
    else Unclosed(s[..|s| - 1], closed) + (if s[|s| - 1] in closed then [] else [s[|s| - 1]])
  }

  /** A board is kept by the filter exactly when it is listed and not closed. */
  lemma {:induction false} UnclosedMembers(s: seq<Grid>, closed: set<Grid>)
    ensures forall x :: x in Unclosed(s, closed) <==> x in s && x !in closed
    decreases |s|
  {
    if s != [] {
      UnclosedMembers(s[..|s| - 1], closed);
      assert s == s[..|s| - 1] + [s[|s| - 1]];
    }
  }

  /** Checking one more board against the closed set extends the filtered list by it or by nothing. */
  lemma UnclosedAppend(s: seq<Grid>, x: Grid, closed: set<Grid>)
    ensures Unclosed(s + [x], closed) == Unclosed(s, closed) + (if x in closed then [] else [x])
  {
    assert (s + [x])[..|s|] == s;
  }

  /**
   * The children of a popped node, in successor order: one per successor whose
   * board is not in the closed set, with g one more than the parent's, f = g + h
   * and the parent's path extended by the successor. The keys are the
   * children's boards: exactly the unclosed boards of the row-major successor
   * list, in that order and with repeats, so every successor of the parent's
   * board is either closed or one of them.
   */
  method Expand(node: Node, closed: set<Grid>) returns (children: seq<Node>, keys: seq<Grid>)
    requires node.stack.Valid()
    ensures |keys| == |children|
    ensures forall m :: 0 <= m < |children| ==>
              && ChildOf(children[m], node, keys[m])
              && IsStep(node.stack.board, keys[m])
              && keys[m] !in closed
              && Holds(children[m].stack, keys[m])
    ensures keys == Unclosed(SuccessorList(node.stack.board), closed)
    ensures Covered(node.stack.board, closed, keys)
  {
    var parent := node.stack.board;
    var successors := GetSuccessors(node.stack);
    children, keys := [], [];
    ghost var grids: seq<Grid> := [];
    var k := 0;
    while k < |successors|
      invariant 0 <= k <= |successors| && |grids| == k
      invariant forall m :: 0 <= m < |successors| ==> IsSuccessor(node.stack, parent, m, successors[m])
      invariant |keys| == |children|
      invariant forall m :: 0 <= m < |children| ==>
                  && ChildOf(children[m], node, keys[m])
                  && IsStep(parent, keys[m])
                  && keys[m] !in closed
                  && Holds(children[m].stack, keys[m])
      invariant SuccessorPrefix(parent, grids)
      invariant keys == Unclosed(grids, closed)
    {
      var successor := successors[k];
      var key := successor.board;
      if key !in closed {
        var child := MakeChild(node, successor);
        SuccessorAtIsStep(parent, k, key);
        children := children + [child];
        keys := keys + [key];
      }
      SuccessorPrefixAppend(parent, grids, key);
      UnclosedAppend(grids, key, closed);
      grids := grids + [key];
      k := k + 1;
    }
    SuccessorPrefixComplete(parent, grids);
    UnclosedMembers(grids, closed);
    assert forall m :: 0 <= m < |grids| ==> grids[m] in closed || grids[m] in keys;
    CoveredByPrefix(parent, grids, closed, keys);
  }

  // ---------------------------------------------------------------------------
  // Frontier bookkeeping
  //
  // Alongside the frontier, the search keeps ghost companions: for entry j the
  // boards of its path (trails[j]) and its own board (keys[j]), and a map
  // boards from every stack it has handed out to that stack's board. The map
  // turns facts about stacks in the heap into facts about values.
  // ---------------------------------------------------------------------------

  /** Every stack the map knows about is well formed and holds the board it is mapped to. */
  ghost predicate BoardsHold(boards: map<FruitStack, Grid>)
    reads boards.Keys
  {
    forall s | s in boards :: Holds(s, boards[s])
  }

  /** boards' knows every stack boards knows, with the same board. */
  ghost predicate Extends(boards: map<FruitStack, Grid>, boards': map<FruitStack, Grid>)
  {
    forall s | s in boards :: s in boards' && boards'[s] == boards[s]
  }

  /** The stacks of the given nodes. */
  ghost function StackSet(nodes: seq<Node>): set<FruitStack>
  {
    set m | 0 <= m < |nodes| :: nodes[m].stack
  }

  /** The map from the stacks of the given nodes to their current boards. */
  ghost function StackBoards(nodes: seq<Node>): (r: map<FruitStack, Grid>)
    reads StackSet(nodes)
    ensures forall m :: 0 <= m < |nodes| ==> nodes[m].stack in r && r[nodes[m].stack] == nodes[m].stack.board
    ensures forall s | s in r :: s in StackSet(nodes) && r[s] == s.board
  {
    map s | s in StackSet(nodes) :: s.board
  }

  /**
   * Each entry is well shaped (its trail is a chain from root ending at its
   * key, with the g and f that trail gives it) and the map sends its stack to
   * its key and the stacks of its path to the boards of its trail.
   */
  ghost predicate Entries(frontier: seq<Node>, root: Grid, trails: seq<seq<Grid>>, keys: seq<Grid>, boards: map<FruitStack, Grid>)
  {
    && |trails| == |keys| == |frontier|
    && (forall j :: 0 <= j < |frontier| ==> NodeShape(frontier[j], root, trails[j]) && keys[j] == End(root, trails[j]))
    && (forall j :: 0 <= j < |frontier| ==> frontier[j].stack in boards && boards[frontier[j].stack] == keys[j])
    && (forall j, q :: 0 <= j < |frontier| && 0 <= q < |frontier[j].path| == |trails[j]| ==>
          frontier[j].path[q] in boards && boards[frontier[j].path[q]] == trails[j][q])
  }

  /**
   * A child built by Expand from a frontier node extends that node's chain by
   * one step, and the map sends its path to the extended trail.
   */
  lemma ChildEntry(node: Node, root: Grid, trail: seq<Grid>, boards: map<FruitStack, Grid>, child: Node, key: Grid)
    requires NodeShape(node, root, trail)
    requires forall q :: 0 <= q < |node.path| ==> node.path[q] in boards && boards[node.path[q]] == trail[q]
    requires ChildOf(child, node, key) && IsStep(End(root, trail), key)
    requires child.stack in boards && boards[child.stack] == key
    ensures NodeShape(child, root, trail + [key]) && key == End(root, trail + [key])
    ensures forall q :: 0 <= q < |child.path| ==> child.path[q] in boards && boards[child.path[q]] == (trail + [key])[q]
  {
    ChainExtend(root, trail, key);
    forall q | 0 <= q < |child.path| ensures child.path[q] in boards && boards[child.path[q]] == (trail + [key])[q] {
      if q < |node.path| {
        assert child.path[q] == node.path[q] && (trail + [key])[q] == trail[q];
      }
    }
  }

  /** A path the map sends to trail, under a map whose stacks hold their boards, has trail as its boards. */
  lemma PathTrail(p: seq<FruitStack>, trail: seq<Grid>, boards: map<FruitStack, Grid>)
    requires BoardsHold(boards)
    requires |p| == |trail| && forall q :: 0 <= q < |p| ==> p[q] in boards && boards[p[q]] == trail[q]
    ensures Trail(p) == trail
    ensures forall s | s in p :: s.Valid()
  {
    assert forall q :: 0 <= q < |p| ==> Trail(p)[q] == trail[q];
  }

  /** The trails of the children: trail extended by each child's board. */
  ghost function Extensions(trail: seq<Grid>, keys: seq<Grid>): (r: seq<seq<Grid>>)
    ensures |r| == |keys| && forall m :: 0 <= m < |keys| ==> r[m] == trail + [keys[m]]
  {
    seq(|keys|, m requires 0 <= m < |keys| => trail + [keys[m]])
  }

  /** Removing entry k from the frontier and its ghost companions keeps the others as they were. */
  lemma EntriesRemove(root: Grid, frontier: seq<Node>, trails: seq<seq<Grid>>, keys: seq<Grid>, boards: map<FruitStack, Grid>, k: nat)
    requires Entries(frontier, root, trails, keys, boards) && k < |frontier|
    ensures Entries(RemoveAt(frontier, k), root, RemoveAt(trails, k), RemoveAt(keys, k), boards)
  {
    var frontier', trails', keys' := RemoveAt(frontier, k), RemoveAt(trails, k), RemoveAt(keys, k);
    forall j | 0 <= j < |frontier'|
      ensures NodeShape(frontier'[j], root, trails'[j]) && keys'[j] == End(root, trails'[j])
      ensures frontier'[j].stack in boards && boards[frontier'[j].stack] == keys'[j]
      ensures forall q :: 0 <= q < |frontier'[j].path| == |trails'[j]| ==>
                frontier'[j].path[q] in boards && boards[frontier'[j].path[q]] == trails'[j][q]
    {
      var o := if j < k then j else j + 1;
      assert frontier'[j] == frontier[o] && trails'[j] == trails[o] && keys'[j] == keys[o];
    }
  }

  /** The children Expand builds for a frontier node are well-shaped entries. */
  lemma EntriesOfChildren(root: Grid, node: Node, trail: seq<Grid>, boards: map<FruitStack, Grid>, children: seq<Node>, childKeys: seq<Grid>)
    requires NodeShape(node, root, trail)
    requires forall q :: 0 <= q < |node.path| ==> node.path[q] in boards && boards[node.path[q]] == trail[q]
    requires |childKeys| == |children|
    requires forall m :: 0 <= m < |children| ==>
               && ChildOf(children[m], node, childKeys[m])
               && IsStep(End(root, trail), childKeys[m])
               && children[m].stack in boards && boards[children[m].stack] == childKeys[m]
    ensures Entries(children, root, Extensions(trail, childKeys), childKeys, boards)
  {
    var trails := Extensions(trail, childKeys);
    forall m | 0 <= m < |children|
      ensures NodeShape(children[m], root, trails[m]) && childKeys[m] == End(root, trails[m])
      ensures forall q :: 0 <= q < |children[m].path| == |trails[m]| ==>
                children[m].path[q] in boards && boards[children[m].path[q]] == trails[m][q]
    {
      ChildEntry(node, root, trail, boards, children[m], childKeys[m]);
    }
  }

  /** Two frontiers of well-shaped entries concatenate to one. */
  lemma EntriesAppend(root: Grid, boards: map<FruitStack, Grid>,
                      f1: seq<Node>, t1: seq<seq<Grid>>, k1: seq<Grid>, f2: seq<Node>, t2: seq<seq<Grid>>, k2: seq<Grid>)
    requires Entries(f1, root, t1, k1, boards) && Entries(f2, root, t2, k2, boards)
    ensures Entries(f1 + f2, root, t1 + t2, k1 + k2, boards)
  {
    var f, t, k := f1 + f2, t1 + t2, k1 + k2;
    forall j | 0 <= j < |f|
      ensures NodeShape(f[j], root, t[j]) && k[j] == End(root, t[j])
      ensures f[j].stack in boards && boards[f[j].stack] == k[j]
      ensures forall q :: 0 <= q < |f[j].path| == |t[j]| ==> f[j].path[q] in boards && boards[f[j].path[q]] == t[j][q]
    {
      if j < |f1| {
        assert f[j] == f1[j] && t[j] == t1[j] && k[j] == k1[j];
      } else {
        assert f[j] == f2[j - |f1|] && t[j] == t2[j - |f1|] && k[j] == k2[j - |f1|];
      }
    }
  }

  /**
   * Adding the children's stacks to the map keeps every mapped stack holding
   * its board, forgets nothing, and sends each child's stack to its key.
   */
  lemma BoardsStep(boards0: map<FruitStack, Grid>, children: seq<Node>, childKeys: seq<Grid>, boards: map<FruitStack, Grid>)
    requires BoardsHold(boards0) && |childKeys| == |children|
    requires forall m :: 0 <= m < |children| ==> Holds(children[m].stack, childKeys[m])
    requires boards == boards0 + StackBoards(children)
    ensures BoardsHold(boards) && Extends(boards0, boards)
    ensures forall m :: 0 <= m < |children| ==> children[m].stack in boards && boards[children[m].stack] == childKeys[m]
  {
    forall s | s in boards ensures Holds(s, boards[s]) {
      if s in StackSet(children) {
        var m :| 0 <= m < |children| && children[m].stack == s;
      }
    }
  }

  /** Entries stay well shaped when the map learns about more stacks. */
  lemma EntriesExtend(frontier: seq<Node>, root: Grid, trails: seq<seq<Grid>>, keys: seq<Grid>,
                      boards: map<FruitStack, Grid>, boards': map<FruitStack, Grid>)
    requires Entries(frontier, root, trails, keys, boards) && Extends(boards, boards')
    ensures Entries(frontier, root, trails, keys, boards')
  {
  }

  /**
   * Closing the popped board and appending the children keeps every closed
   * board covered: each of its successors is closed or still pending.
   */
  lemma ClosedStep(closed0: set<Grid>, keys0: seq<Grid>, k: nat, childKeys: seq<Grid>, closed: set<Grid>, keys: seq<Grid>, x0: Grid)
    requires k < |keys0|
    requires forall x {:trigger Covered(x, closed0, keys0)} | x in closed0 :: Covered(x, closed0, keys0)
    requires Covered(x0, closed, childKeys) && x0 == keys0[k]
    requires closed == closed0 + {x0} && keys == RemoveAt(keys0, k) + childKeys
    ensures forall y | y in keys0 :: y in closed || y in keys
    ensures forall x {:trigger Covered(x, closed, keys)} | x in closed :: Covered(x, closed, keys)
  {
    forall m | 0 <= m < |keys0| ensures keys0[m] in closed || keys0[m] in keys {
      if m < k {
        assert keys0[m] == keys[m];
      } else if m > k {
        assert keys0[m] == keys[m - 1];
      }
    }
    forall x | x in closed ensures Covered(x, closed, keys) {
      if x in closed0 {
        CoveredMonotone(x, closed0, keys0, closed, keys);
      } else {
        CoveredMonotone(x, closed, childKeys, closed, keys);
      }
    }
  }

  // ---------------------------------------------------------------------------
  // The driver
  // ---------------------------------------------------------------------------

  /**
   * Best-first search from start. Each round spends one unit of fuel, removes a
   * node of minimum f from the frontier, returns its path when its board is
   * sorted, and otherwise closes the board and enqueues its children.
   *
   * A returned path is a chain of successors from the start board ending in a
   * sorted board (the empty path when the start board is sorted, which is
   * always the answer for a sorted start). An exhausted frontier means that no
   * sorted board is reachable from the start board.
   */
  method Solve(start: FruitStack, fuel: nat) returns (result: Outcome)
    requires start.Valid()
    ensures result.Found? ==>
              && (forall s | s in result.path :: s.Valid())
              && Chain(start.board, Trail(result.path))
              && ColumnsSorted(End(start.board, Trail(result.path)))
    ensures ColumnsSorted(start.board) && fuel > 0 ==> result == Found([])
    ensures result.NoPath? ==> forall t :: Chain(start.board, t) ==> !ColumnsSorted(End(start.board, t))
  {
    ghost var root := start.board;
    var frontier := [Node(0, 0, start, [])];
    ghost var trails: seq<seq<Grid>> := [[]];
    ghost var keys := [root];
    ghost var boards: map<FruitStack, Grid> := map[start := root];
    var closed: set<Grid> := {};
    var budget: nat := fuel;
    while frontier != []
      invariant start.board == root
      invariant BoardsHold(boards)
      invariant Entries(frontier, root, trails, keys, boards)
      invariant root in closed || root in keys
      invariant forall x | x in closed :: !ColumnsSorted(x)
      invariant forall x {:trigger Covered(x, closed, keys)} | x in closed :: Covered(x, closed, keys)
      invariant budget <= fuel
      invariant ColumnsSorted(root) ==> budget == fuel && frontier == [Node(0, 0, start, [])]
      decreases budget
    {
      if budget == 0 {
        return OutOfFuel;
      }
      budget := budget - 1;
      var k := MinIndex(frontier);
      var node := frontier[k];
      ghost var trail, key := trails[k], keys[k];
      ghost var keys0, closed0 := keys, closed;
      EntriesRemove(root, frontier, trails, keys, boards, k);
      frontier := RemoveAt(frontier, k);
      trails := RemoveAt(trails, k);
      keys := RemoveAt(keys, k);
      var sorted := node.stack.IsSorted();
      if sorted {
        PathTrail(node.path, trail, boards);
        return Found(node.path);
      }
      assert ColumnsSorted(root) ==> trail == [] && key == root;
      closed := closed + {node.stack.board};
      var children, childKeys := Expand(node, closed);
      ghost var boards0 := boards;
      boards := boards + StackBoards(children);
      BoardsStep(boards0, children, childKeys, boards);
      EntriesExtend(frontier, root, trails, keys, boards0, boards);
      EntriesOfChildren(root, node, trail, boards, children, childKeys);
      EntriesAppend(root, boards, frontier, trails, keys, children, Extensions(trail, childKeys), childKeys);
      frontier := frontier + children;
      trails := trails + Extensions(trail, childKeys);
      keys := keys + childKeys;
      ClosedStep(closed0, keys0, k, childKeys, closed, keys, key);
    }
    CoveredAllClosed(closed);
    forall t | Chain(root, t) ensures !ColumnsSorted(End(root, t)) {
      ChainStaysInClosedSet(root, t, closed);
    }
    return NoPath;
  }
}
