/**
 * Value-level model of a fruit board: the grid of (kind, size) records, the goal
 * test, the inversion count the solver uses as its heuristic, the compound
 * neighbour swap that generates successors, and reachability by such swaps.
 */
module Grids {

  /** A fruit: a category label and a size (temp.py `Fruit`). */
  datatype Fruit = Fruit(kind: string, size: int)

  /** A board read row by row; `g[r][c]` is the fruit in row r, column c. */
  type Grid = seq<seq<Fruit>>

  datatype Option<T> = None | Some(value: T)

  function Width(g: Grid): nat
  {
    if |g| == 0 then 0 else |g[0]|
  }

  /** Every row has the same length. */
  predicate IsRect(g: Grid)
  {
    forall r :: 0 <= r < |g| ==> |g[r]| == Width(g)
  }

  predicate InBounds(g: Grid, r: int, c: int)
  {
    0 <= r < |g| && 0 <= c < Width(g)
  }

  /** (r, c) comes strictly before position p when the board is read row by row. */
  predicate RowMajorBefore(r: int, c: int, p: (int, int))
  {
    r < p.0 || (r == p.0 && c < p.1)
  }

  // ---------------------------------------------------------------------------
  // Goal test
  // ---------------------------------------------------------------------------

  /** The goal: a rectangular board whose every column, read top to bottom, has non-decreasing size. */
  predicate ColumnsSorted(g: Grid)
  {
    IsRect(g) && forall r, c :: 0 < r < |g| && 0 <= c < Width(g) ==> NotBelowAbove(g, r, c)
  }

  /** The fruit at (r, c) is at least as large as the one directly above it. */
  predicate NotBelowAbove(g: Grid, r: int, c: int)
    requires IsRect(g) && 0 < r < |g| && 0 <= c < Width(g)
  {
    g[r - 1][c].size <= g[r][c].size
  }

  /** Every row, read left to right, has non-decreasing size. */
  predicate RowsSorted(g: Grid)
    requires IsRect(g)
  {
    forall r, c :: 0 <= r < |g| && 0 < c < Width(g) ==> g[r][c - 1].size <= g[r][c].size
  }

  // ---------------------------------------------------------------------------
  // Heuristic: left-neighbour inversions
  // ---------------------------------------------------------------------------

  /** Is the fruit at column c of the row smaller than its left neighbour? */
  predicate LeftInversion(row: seq<Fruit>, c: int)
  {
    0 < c < |row| && row[c].size < row[c - 1].size
  }

  /** Number of columns 1 <= c < n with a left inversion. */
  function RowInversions(row: seq<Fruit>, n: nat): nat
    requires n <= |row|
  {
    if n <= 1 then 0
    else RowInversions(row, n - 1) + (if LeftInversion(row, n - 1) then 1 else 0)
  }

  /** Left inversions over the first m rows. */
  function Inversions(g: Grid, m: nat): nat
    requires m <= |g|
  {
    if m == 0 then 0 else Inversions(g, m - 1) + RowInversions(g[m - 1], |g[m - 1]|)
  }

  function InversionCount(g: Grid): nat
  {
    Inversions(g, |g|)
  }

  /** The set of cells (r, c) that are smaller than their left neighbour. */
  function InversionCells(g: Grid): set<(int, int)>
  {
    set r, c | 0 <= r < |g| && 0 <= c < |g[r]| && LeftInversion(g[r], c) :: (r, c)
  }

  function RowInversionCells(row: seq<Fruit>, r: int, n: nat): set<(int, int)>
  {
    set c | 0 <= c < n && LeftInversion(row, c) :: (r, c)
  }

  function InversionCellsBelow(g: Grid, m: nat): set<(int, int)>
    requires m <= |g|
  {
    set r, c | 0 <= r < m && 0 <= c < |g[r]| && LeftInversion(g[r], c) :: (r, c)
  }

  lemma {:induction false} RowInversionsCount(row: seq<Fruit>, r: int, n: nat)
    requires n <= |row|
    ensures |RowInversionCells(row, r, n)| == RowInversions(row, n)
  {
    if n <= 1 {
      assert RowInversionCells(row, r, n) == {};
    } else {
      RowInversionsCount(row, r, n - 1);
      var prev := RowInversionCells(row, r, n - 1);
      if LeftInversion(row, n - 1) {
        assert RowInversionCells(row, r, n) == prev + {(r, n - 1)};
        assert (r, n - 1) !in prev;
      } else {
        assert RowInversionCells(row, r, n) == prev;
      }
    }
  }

  lemma CellsBelowSplit(g: Grid, m: nat)
    requires 0 < m <= |g|
    ensures InversionCellsBelow(g, m) ==
            InversionCellsBelow(g, m - 1) + RowInversionCells(g[m - 1], m - 1, |g[m - 1]|)
    ensures InversionCellsBelow(g, m - 1) * RowInversionCells(g[m - 1], m - 1, |g[m - 1]|) == {}
  {
    var prev := InversionCellsBelow(g, m - 1);
    var row := RowInversionCells(g[m - 1], m - 1, |g[m - 1]|);
    forall p | p in InversionCellsBelow(g, m) ensures p in prev + row {
      if p.0 == m - 1 {
        assert p == (m - 1, p.1);
      }
    }
    forall p | p in row ensures p in InversionCellsBelow(g, m) && p !in prev {
      var c :| 0 <= c < |g[m - 1]| && LeftInversion(g[m - 1], c) && p == (m - 1, c);
    }
  }

  lemma {:induction false} InversionsCount(g: Grid, m: nat)
    requires m <= |g|
    ensures |InversionCellsBelow(g, m)| == Inversions(g, m)
  {
    if m == 0 {
      assert InversionCellsBelow(g, m) == {};
    } else {
      InversionsCount(g, m - 1);
      RowInversionsCount(g[m - 1], m - 1, |g[m - 1]|);
      CellsBelowSplit(g, m);
    }
  }

  /** The heuristic counts exactly the cells smaller than their left neighbour. */
  lemma InversionCountIsCellCount(g: Grid)
    ensures InversionCount(g) == |InversionCells(g)|
  {
    InversionsCount(g, |g|);
    assert InversionCellsBelow(g, |g|) == InversionCells(g);
  }

  lemma {:induction false} RowInversionsBound(row: seq<Fruit>, n: nat)
    requires n <= |row|
    ensures RowInversions(row, n) <= if n == 0 then 0 else n - 1
  {
    if n > 1 {
      RowInversionsBound(row, n - 1);
    }
  }

  lemma {:induction false} InversionsBound(g: Grid, m: nat)
    requires IsRect(g) && m <= |g|
    ensures Inversions(g, m) <= m * (if Width(g) == 0 then 0 else Width(g) - 1)
  {
    if m > 0 {
      InversionsBound(g, m - 1);
      RowInversionsBound(g[m - 1], |g[m - 1]|);
      var w := if Width(g) == 0 then 0 else Width(g) - 1;
      assert m * w == (m - 1) * w + w;
    }
  }

  /** The heuristic is at most rows * (cols - 1): one per adjacent horizontal pair. */
  lemma InversionCountBound(g: Grid)
    requires IsRect(g)
    ensures InversionCount(g) <= |g| * (if Width(g) == 0 then 0 else Width(g) - 1)
  {
    InversionsBound(g, |g|);
  }

  lemma {:induction false} RowInversionsZero(row: seq<Fruit>, n: nat)
    requires n <= |row|
    ensures RowInversions(row, n) == 0 <==> forall c :: 0 < c < n ==> row[c - 1].size <= row[c].size
  {
    if n > 1 {
      RowInversionsZero(row, n - 1);
    }
  }

  lemma {:induction false} InversionsZero(g: Grid, m: nat)
    requires m <= |g|
    ensures Inversions(g, m) == 0 <==> forall r :: 0 <= r < m ==> RowInversions(g[r], |g[r]|) == 0
  {
    if m > 0 {
      InversionsZero(g, m - 1);
    }
  }

  /** The heuristic is zero exactly when every row is non-decreasing left to right. */
  lemma InversionCountZeroIffRowsSorted(g: Grid)
    requires IsRect(g)
    ensures InversionCount(g) == 0 <==> RowsSorted(g)
  {
    InversionsZero(g, |g|);
    forall r | 0 <= r < |g|
      ensures RowInversions(g[r], |g[r]|) == 0 <==>
              forall c :: 0 < c < Width(g) ==> g[r][c - 1].size <= g[r][c].size
    {
      RowInversionsZero(g[r], |g[r]|);
    }
  }

  /**
   * The heuristic measures rows while the goal test measures columns: a single
   * row [a:2, a:1] is a goal board, yet its heuristic is 1.
   */
  lemma GoalWithPositiveHeuristic()
    ensures var g: Grid := [[Fruit("a", 2), Fruit("a", 1)]];
            IsRect(g) && ColumnsSorted(g) && InversionCount(g) == 1
  {
    var g: Grid := [[Fruit("a", 2), Fruit("a", 1)]];
    assert LeftInversion(g[0], 1);
  }

  // ---------------------------------------------------------------------------
  // Successors: the compound neighbour swap
  // ---------------------------------------------------------------------------

  /** Exchange the fruits at (r1, c1) and (r2, c2). */
  function Swap(g: Grid, r1: int, c1: int, r2: int, c2: int): (h: Grid)
    requires IsRect(g) && InBounds(g, r1, c1) && InBounds(g, r2, c2)
    ensures IsRect(h) && |h| == |g| && Width(h) == Width(g)
    ensures h[r1][c1] == g[r2][c2] && h[r2][c2] == g[r1][c1]
    ensures forall r, c {:trigger h[r][c]} :: InBounds(g, r, c) && !(r == r1 && c == c1) && !(r == r2 && c == c2) ==> h[r][c] == g[r][c]
  {
    var a, b := g[r1][c1], g[r2][c2];
    var g1 := g[r1 := g[r1][c1 := b]];
    g1[r2 := g1[r2][c2 := a]]
  }

  /**
   * The one successor generated for cell (i, j): on a single copy, swap the
   * fruit at (i, j) with the one above, then below, then left, then right,
   * each swap skipped when that neighbour does not exist and each acting on
   * whatever fruit sits at (i, j) after the previous one.
   */
  function CompoundSwap(g: Grid, i: nat, j: nat): (h: Grid)
    requires IsRect(g) && InBounds(g, i, j)
    ensures IsRect(h) && |h| == |g| && Width(h) == Width(g)
  {
    var up := if i > 0 then Swap(g, i, j, i - 1, j) else g;
    var down := if i < |g| - 1 then Swap(up, i, j, i + 1, j) else up;
    var left := if j > 0 then Swap(down, i, j, i, j - 1) else down;
    if j < Width(g) - 1 then Swap(left, i, j, i, j + 1) else left
  }

  /**
   * child is the successor generated for the k-th cell of parent in row-major
   * order, that is for cell (k / cols, k % cols).
   */
  ghost predicate SuccessorAt(parent: Grid, k: int, child: Grid)
  {
    && IsRect(parent) && Width(parent) > 0 && 0 <= k
    && InBounds(parent, k / Width(parent), k % Width(parent))
    && child == CompoundSwap(parent, k / Width(parent), k % Width(parent))
  }

  lemma {:induction false} MulMonotone(a: nat, b: nat, w: nat)
    requires a <= b
    ensures a * w <= b * w
    decreases b - a
  {
    if a < b {
      MulMonotone(a, b - 1, w);
      assert b * w == (b - 1) * w + w;
    }
  }

  /** Cell (i, j) of a board with w columns has row-major index i * w + j. */
  lemma RowMajorIndex(i: nat, j: nat, w: nat)
    requires j < w
    ensures (i * w + j) / w == i && (i * w + j) % w == j
  {
    var k := i * w + j;
    var q, r := k / w, k % w;
    assert q * w + r == i * w + j;
    if q > i {
      MulMonotone(i + 1, q, w);
    } else if q < i {
      MulMonotone(q + 1, i, w);
    }
  }

  /** Row-major indices of an h x w board lie below h * w. */
  lemma RowMajorBound(i: nat, j: nat, h: nat, w: nat)
    requires i < h && j < w
    ensures i * w + j < h * w
  {
    MulMonotone(i + 1, h, w);
    assert (i + 1) * w == i * w + w;
  }

  /** The successor for cell (i, j) is the one at row-major index i * cols + j. */
  lemma SuccessorAtCell(parent: Grid, i: nat, j: nat, child: Grid)
    requires IsRect(parent) && InBounds(parent, i, j) && child == CompoundSwap(parent, i, j)
    ensures SuccessorAt(parent, i * Width(parent) + j, child)
  {
    RowMajorIndex(i, j, Width(parent));
  }

  /** grids lists, in row-major order, the successors of the first |grids| cells of parent. */
  ghost predicate SuccessorPrefix(parent: Grid, grids: seq<Grid>)
  {
    forall k :: 0 <= k < |grids| ==> SuccessorAt(parent, k, grids[k])
  }

  /** Appending the successor listed for the next row-major index extends the prefix. */
  lemma SuccessorPrefixAppend(parent: Grid, grids: seq<Grid>, child: Grid)
    requires SuccessorPrefix(parent, grids) && SuccessorAt(parent, |grids|, child)
    ensures SuccessorPrefix(parent, grids + [child])
  {
    var grids' := grids + [child];
    forall k | 0 <= k < |grids'| ensures SuccessorAt(parent, k, grids'[k]) {
      if k < |grids| {
        assert grids'[k] == grids[k];
      }
    }
  }

  /** The successor listed for a row-major index is a step from the parent. */
  lemma SuccessorAtIsStep(parent: Grid, k: int, child: Grid)
    requires SuccessorAt(parent, k, child)
    ensures IsStep(parent, child)
  {
    var i: nat, j: nat := k / Width(parent), k % Width(parent);
    assert InBounds(parent, i, j) && child == CompoundSwap(parent, i, j);
  }

  /** Row-major index k of an h x w board names an in-bounds cell. */
  lemma RowMajorCell(k: nat, h: nat, w: nat)
    requires k < h * w
    ensures w > 0 && k / w < h && k % w < w
  {
    if w > 0 && k / w >= h {
      MulMonotone(h, k / w, w);
    }
  }

  /** The successors of every cell of parent, in row-major order. */
  function SuccessorList(parent: Grid): (s: seq<Grid>)
    requires IsRect(parent)
    ensures |s| == |parent| * Width(parent)
  {
    var w := Width(parent);
    seq(|parent| * w, k requires 0 <= k < |parent| * w =>
      RowMajorCell(k, |parent|, w);
      CompoundSwap(parent, k / w, k % w))
  }

  /** A prefix of successors that has reached every cell is the whole list. */
  lemma SuccessorPrefixComplete(parent: Grid, grids: seq<Grid>)
    requires IsRect(parent) && SuccessorPrefix(parent, grids) && |grids| == |parent| * Width(parent)
    ensures grids == SuccessorList(parent)
  {
    var all, w := SuccessorList(parent), Width(parent);
    forall k | 0 <= k < |grids| ensures grids[k] == all[k] {
      RowMajorCell(k, |parent|, w);
      assert all[k] == CompoundSwap(parent, k / w, k % w);
      assert SuccessorAt(parent, k, grids[k]);
    }
  }

  /** The five cells a compound swap at (i, j) may touch. */
  predicate Near(i: int, j: int, r: int, c: int)
  {
    (r == i && c == j) || (r == i - 1 && c == j) || (r == i + 1 && c == j) ||
    (r == i && c == j - 1) || (r == i && c == j + 1)
  }

  /** Every cell outside the plus-shaped neighbourhood of (i, j) keeps its fruit. */
  lemma CompoundSwapLocal(g: Grid, i: nat, j: nat)
    requires IsRect(g) && InBounds(g, i, j)
    ensures forall r, c :: InBounds(g, r, c) && !Near(i, j, r, c) ==> CompoundSwap(g, i, j)[r][c] == g[r][c]
  {
  }

  /**
   * Where each fruit of the neighbourhood ends up. c0 .. c4 are the fruits held
   * at (i, j) after each of the four conditional swaps; every neighbour that
   * exists receives the fruit held at (i, j) just before its own swap, and
   * (i, j) keeps the last one.
   */
  lemma CompoundSwapMoves(g: Grid, i: nat, j: nat)
    requires IsRect(g) && InBounds(g, i, j)
    ensures var h := CompoundSwap(g, i, j);
            var c0 := g[i][j];
            var c1 := if i > 0 then g[i - 1][j] else c0;
            var c2 := if i < |g| - 1 then g[i + 1][j] else c1;
            var c3 := if j > 0 then g[i][j - 1] else c2;
            var c4 := if j < Width(g) - 1 then g[i][j + 1] else c3;
            && (i > 0 ==> h[i - 1][j] == c0)
            && (i < |g| - 1 ==> h[i + 1][j] == c1)
            && (j > 0 ==> h[i][j - 1] == c2)
            && (j < Width(g) - 1 ==> h[i][j + 1] == c3)
            && h[i][j] == c4
  {
  }

  /**
   * For a cell with all four neighbours the compound swap rotates five fruits:
   * centre to above, above to below, below to left, left to right, right to centre.
   */
  lemma CompoundSwapInterior(g: Grid, i: nat, j: nat)
    requires IsRect(g) && 0 < i < |g| - 1 && 0 < j < Width(g) - 1
    ensures var h := CompoundSwap(g, i, j);
            && h[i - 1][j] == g[i][j]
            && h[i + 1][j] == g[i - 1][j]
            && h[i][j - 1] == g[i + 1][j]
            && h[i][j + 1] == g[i][j - 1]
            && h[i][j] == g[i][j + 1]
  {
    CompoundSwapMoves(g, i, j);
  }

  /** On a 1x1 board no neighbour exists, so the one successor is the board itself. */
  lemma CompoundSwapSingleCell(g: Grid)
    requires IsRect(g) && |g| == 1 && Width(g) == 1
    ensures CompoundSwap(g, 0, 0) == g
  {
  }

  /** All fruits of the board, with multiplicity. */
  function Bag(g: Grid): multiset<Fruit>
  {
    if g == [] then multiset{} else Bag(g[..|g| - 1]) + multiset(g[|g| - 1])
  }

  lemma {:induction false} BagUpdate(g: Grid, r: nat, row: seq<Fruit>)
    requires r < |g|
    ensures multiset(g[r]) <= Bag(g)
    ensures Bag(g[r := row]) == Bag(g) - multiset(g[r]) + multiset(row)
  {
    var n := |g| - 1;
    if r == n {
      assert g[r := row][..n] == g[..n];
    } else {
      BagUpdate(g[..n], r, row);
      assert g[r := row][..n] == g[..n][r := row];
    }
  }

  lemma SetCellBag(g: Grid, r: nat, c: nat, v: Fruit)
    requires r < |g| && c < |g[r]|
    ensures g[r][c] in Bag(g)
    ensures Bag(g[r := g[r][c := v]]) == Bag(g) - multiset{g[r][c]} + multiset{v}
  {
    BagUpdate(g, r, g[r][c := v]);
    assert multiset(g[r][c := v]) == multiset(g[r]) - multiset{g[r][c]} + multiset{v};
    assert g[r][c] in multiset(g[r]);
  }

  lemma ReplaceAndRestore(m: multiset<Fruit>, a: Fruit, b: Fruit)
    requires a in m
    ensures m - multiset{a} + multiset{b} - multiset{b} + multiset{a} == m
  {
  }

  lemma SwapPermutes(g: Grid, r1: int, c1: int, r2: int, c2: int)
    requires IsRect(g) && InBounds(g, r1, c1) && InBounds(g, r2, c2)
    ensures Bag(Swap(g, r1, c1, r2, c2)) == Bag(g)
  {
    var a, b := g[r1][c1], g[r2][c2];
    var g1 := g[r1 := g[r1][c1 := b]];
    SetCellBag(g, r1, c1, b);
    assert g1[r2][c2] == b;
    SetCellBag(g1, r2, c2, a);
    ReplaceAndRestore(Bag(g), a, b);
  }

  /**
   * The swap of (r1, c1) with (r2, c2) when fire holds, the board unchanged
   * otherwise. CompoundSwap spells out the same four steps inline; this form
   * exists only to split its permutation proof into one lemma per step
   * (CompoundSwapSteps ties the two together).
   */
  function SwapIf(fire: bool, g: Grid, r1: int, c1: int, r2: int, c2: int): (h: Grid)
    requires IsRect(g) && (fire ==> InBounds(g, r1, c1) && InBounds(g, r2, c2))
    ensures IsRect(h) && |h| == |g| && Width(h) == Width(g)
  {
    if fire then Swap(g, r1, c1, r2, c2) else g
  }

  /** A conditional swap keeps the fruits. */
  lemma SwapIfPermutes(fire: bool, g: Grid, r1: int, c1: int, r2: int, c2: int)
    requires IsRect(g) && (fire ==> InBounds(g, r1, c1) && InBounds(g, r2, c2))
    ensures Bag(SwapIf(fire, g, r1, c1, r2, c2)) == Bag(g)
  {
    if fire {
      SwapPermutes(g, r1, c1, r2, c2);
    }
  }

  /** CompoundSwap is four conditional swaps in a row. */
  lemma CompoundSwapSteps(g: Grid, i: nat, j: nat)
    requires IsRect(g) && InBounds(g, i, j)
    ensures var up := SwapIf(i > 0, g, i, j, i - 1, j);
            var down := SwapIf(i < |g| - 1, up, i, j, i + 1, j);
            var left := SwapIf(j > 0, down, i, j, i, j - 1);
            CompoundSwap(g, i, j) == SwapIf(j < Width(g) - 1, left, i, j, i, j + 1)
  {
  }

  /** A successor holds exactly the fruits of its parent: it is a permutation. */
  lemma CompoundSwapPermutes(g: Grid, i: nat, j: nat)
    requires IsRect(g) && InBounds(g, i, j)
    ensures Bag(CompoundSwap(g, i, j)) == Bag(g)
  {
    CompoundSwapSteps(g, i, j);
    var up := SwapIf(i > 0, g, i, j, i - 1, j);
    SwapIfPermutes(i > 0, g, i, j, i - 1, j);
    var down := SwapIf(i < |g| - 1, up, i, j, i + 1, j);
    SwapIfPermutes(i < |g| - 1, up, i, j, i + 1, j);
    var left := SwapIf(j > 0, down, i, j, i, j - 1);
    SwapIfPermutes(j > 0, down, i, j, i, j - 1);
    SwapIfPermutes(j < Width(g) - 1, left, i, j, i, j + 1);
  }

  // ---------------------------------------------------------------------------
  // Reachability by compound swaps
  // ---------------------------------------------------------------------------

  /** b is one of the successors of a. */
  ghost predicate IsStep(a: Grid, b: Grid)
  {
    IsRect(a) && exists i: nat, j: nat :: InBounds(a, i, j) && b == CompoundSwap(a, i, j)
  }

  /** The last board of a path that starts after root (root itself when empty). */
  function End(root: Grid, t: seq<Grid>): Grid
  {
    if t == [] then root else t[|t| - 1]
  }

  /** t is a path of successors leading away from root. */
  ghost predicate Chain(root: Grid, t: seq<Grid>)
    decreases |t|
  {
    t == [] || (Chain(root, t[..|t| - 1]) && IsStep(End(root, t[..|t| - 1]), t[|t| - 1]))
  }

  /** A chain extended by one successor of its last board is a chain. */
  lemma ChainExtend(root: Grid, t: seq<Grid>, x: Grid)
    requires Chain(root, t) && IsStep(End(root, t), x)
    ensures Chain(root, t + [x]) && End(root, t + [x]) == x
  {
    assert (t + [x])[..|t|] == t;
  }

  /** Every successor of y lies in S. */
  ghost predicate SuccessorsIn(y: Grid, S: set<Grid>)
  {
    IsRect(y) && forall i: nat, j: nat :: InBounds(y, i, j) ==> CompoundSwap(y, i, j) in S
  }

  /** S contains every successor of each of its boards. */
  ghost predicate SuccessorClosed(S: set<Grid>)
  {
    forall y | y in S :: SuccessorsIn(y, S)
  }

  /** A successor-closed set that holds root holds the end of every path from root. */
  lemma {:induction false} ChainStaysInClosedSet(root: Grid, t: seq<Grid>, S: set<Grid>)
    requires root in S && SuccessorClosed(S)
    requires Chain(root, t)
    ensures End(root, t) in S
    decreases |t|
  {
    if t != [] {
      var prev := t[..|t| - 1];
      ChainStaysInClosedSet(root, prev, S);
      var i: nat, j: nat :| InBounds(End(root, prev), i, j) && t[|t| - 1] == CompoundSwap(End(root, prev), i, j);
    }
  }

  /**
   * The 2x2 board with column 0 = [a:2, a:1] and column 1 = [b:1, b:1] is not
   * sorted, and the compound swap at (0, 0) sorts it in one step.
   */
  lemma SmallBoardSortedInOneStep()
    ensures var g: Grid := [[Fruit("a", 2), Fruit("b", 1)], [Fruit("a", 1), Fruit("b", 1)]];
            && IsRect(g) && !ColumnsSorted(g)
            && Chain(g, [CompoundSwap(g, 0, 0)]) && ColumnsSorted(CompoundSwap(g, 0, 0))
  {
    var g: Grid := [[Fruit("a", 2), Fruit("b", 1)], [Fruit("a", 1), Fruit("b", 1)]];
    assert !NotBelowAbove(g, 1, 0);
    var h := CompoundSwap(g, 0, 0);
    CompoundSwapMoves(g, 0, 0);
    CompoundSwapLocal(g, 0, 0);
    assert !Near(0, 0, 1, 1);
    assert h[0][0] == Fruit("b", 1) && h[0][1] == Fruit("a", 1);
    assert h[1][0] == Fruit("a", 2) && h[1][1] == Fruit("b", 1);
    assert NotBelowAbove(h, 1, 0) && NotBelowAbove(h, 1, 1);
    assert IsStep(g, h);
    var none: seq<Grid> := [];
    assert [h][..0] == none;
  }
}
