/**
 * The board object of the solver (temp.py `FruitStack`): a rows x cols matrix
 * of fruits together with the list of fruit categories it was drawn from. The
 * matrix is held as a value of type Grid in a mutable field; a swap of two
 * cells assigns the field the swapped grid.
 */
module Stacks {
  import opened Grids

  class FruitStack {
    const fruits: seq<string>
    const rows: nat
    const cols: nat
    var board: Grid

    /** The board is a rows x cols rectangle. */
    ghost predicate Valid()
      reads this
    {
      IsRect(board) && |board| == rows && (rows > 0 ==> Width(board) == cols)
    }

    /**
     * A board of the given shape holding the given fruits. The source draws
     * them at random; here the caller supplies them.
     */
    constructor (fruits: seq<string>, rows: nat, cols: nat, cells: Grid)
      requires IsRect(cells) && |cells| == rows && (rows > 0 ==> Width(cells) == cols)
      ensures Valid()
      ensures this.fruits == fruits && this.rows == rows && this.cols == cols && board == cells
    {
      this.fruits := fruits;
      this.rows := rows;
      this.cols := cols;
      board := cells;
    }

    /** A deep copy: a fresh object with the same categories, shape and fruits. */
    method Clone() returns (copy: FruitStack)
      requires Valid()
      ensures fresh(copy)
      ensures copy.Valid() && copy.fruits == fruits && copy.rows == rows && copy.cols == cols
      ensures copy.board == board
    {
      copy := new FruitStack(fruits, rows, cols, board);
    }

    /** Exchange the fruits at (r1, c1) and (r2, c2); nothing else moves. */
    method SwapCells(r1: nat, c1: nat, r2: nat, c2: nat)
      requires Valid() && r1 < rows && c1 < cols && r2 < rows && c2 < cols
      modifies this
      ensures Valid()
      ensures board == Swap(old(board), r1, c1, r2, c2)
    {
      board := Swap(board, r1, c1, r2, c2);
    }

    /** The goal test: every column is non-decreasing in size from top to bottom. */
    method IsSorted() returns (sorted: bool)
      requires Valid()
      ensures sorted == ColumnsSorted(board)
    {
      var c := 0;
      while c < cols
        invariant 0 <= c <= cols
        invariant forall r, c' :: 0 < r < rows && 0 <= c' < c ==> NotBelowAbove(board, r, c')
      {
        var r := 1;
        while r < rows
          invariant 1 <= r && (r <= rows || rows == 0)
          invariant forall r' :: 0 < r' < r && r' < rows ==> NotBelowAbove(board, r', c)
        {
          if board[r][c].size < board[r - 1][c].size {
            assert !NotBelowAbove(board, r, c);
            return false;
          }
          r := r + 1;
        }
        c := c + 1;
      }
      return true;
    }

    /**
     * Row-major linear search: the first position (r, c) whose fruit equals the
     * given one, or None when no cell holds it.
     */
    method FindFruit(fruit: Fruit) returns (pos: Option<(nat, nat)>)
      requires Valid()
      ensures pos.None? <==> forall r, c :: 0 <= r < rows && 0 <= c < cols ==> board[r][c] != fruit
      ensures pos.Some? ==>
                && pos.value.0 < rows && pos.value.1 < cols
                && board[pos.value.0][pos.value.1] == fruit
                && forall r, c :: 0 <= r < rows && 0 <= c < cols && RowMajorBefore(r, c, pos.value) ==> board[r][c] != fruit
    {
      var r := 0;
      while r < rows
        invariant 0 <= r <= rows
        invariant forall r', c :: 0 <= r' < r && 0 <= c < cols ==> board[r'][c] != fruit
      {
        var c := 0;
        while c < cols
          invariant 0 <= c <= cols
          invariant forall c' :: 0 <= c' < c ==> board[r][c'] != fruit
        {
          if board[r][c] == fruit {
            return Some((r, c));
          }
          c := c + 1;
        }
        r := r + 1;
      }
      return None;
    }
  }
}
