/**
 * The WireworldValentine engine: an object that owns the current generation
 * of a fixed-size grid and advances it one synchronous step at a time. Its
 * methods are proved against the functions of module Wireworld.
 */
module Engine {
  import opened Wireworld

  class WireworldValentine {
    var rows: nat
    var cols: nat
    var grid: Grid

    /** The grid always has the engine's dimensions. */
    ghost predicate Valid()
      reads this
    {
      IsGrid(grid, rows, cols)
    }

    /** A rows x cols grid in which every cell is Empty. */
    constructor (rows: nat, cols: nat)
      ensures Valid()
      ensures this.rows == rows && this.cols == cols
      ensures forall i, k :: 0 <= i < rows && 0 <= k < cols ==> grid[i][k] == Empty
    {
      this.rows := rows;
      this.cols := cols;
      grid := EmptyGrid(rows, cols);
    }

    /** The Moore-neighbourhood sample of cell (i, k) of g, built by
        appending each in-bounds neighbour in turn. */
    method NeighborValues(g: Grid, i: int, k: int) returns (neighbors: seq<Cell>)
      requires Rectangular(g) && InBounds(g, i, k)
      ensures neighbors == Neighbors(g, i, k)
    {
      ghost var left, right, top, bottom := At(g, i, k - 1), At(g, i, k + 1), At(g, i - 1, k), At(g, i + 1, k);
      ghost var topLeft, topRight := At(g, i - 1, k - 1), At(g, i - 1, k + 1);
      ghost var bottomLeft, bottomRight := At(g, i + 1, k - 1), At(g, i + 1, k + 1);
      neighbors := [];
      // left
      if k - 1 >= 0 { neighbors := neighbors + [g[i][k - 1]]; }
      assert neighbors == left;
      // right
      if k + 1 < |g[i]| { neighbors := neighbors + [g[i][k + 1]]; }
      assert neighbors == left + right;
      // top
      if i - 1 >= 0 { neighbors := neighbors + [g[i - 1][k]]; }
      assert neighbors == left + right + top;
      // bottom
      if i + 1 < |g| { neighbors := neighbors + [g[i + 1][k]]; }
      assert neighbors == left + right + top + bottom;
      // top-left
      if i - 1 >= 0 && k - 1 >= 0 { neighbors := neighbors + [g[i - 1][k - 1]]; }
      assert neighbors == left + right + top + bottom + topLeft;
      // top-right
      if i - 1 >= 0 && k + 1 < |g[i]| { neighbors := neighbors + [g[i - 1][k + 1]]; }
      assert neighbors == left + right + top + bottom + topLeft + topRight;
      // bottom-left
      if i + 1 < |g| && k - 1 >= 0 { neighbors := neighbors + [g[i + 1][k - 1]]; }
      assert neighbors == left + right + top + bottom + topLeft + topRight + bottomLeft;
      // bottom-right
      if i + 1 < |g| && k + 1 < |g[i]| { neighbors := neighbors + [g[i + 1][k + 1]]; }
      assert neighbors == left + right + top + bottom + topLeft + topRight + bottomLeft + bottomRight;
      NeighborsUnfold(g, i, k);
    }

    /** Advances one generation: fills a fresh all-Empty grid cell by cell
        from the current grid, which is only read, then swaps it in. */
    method Tick()
      requires Valid()
      modifies this`grid
      ensures Valid()
      ensures rows == old(rows) && cols == old(cols)
      ensures grid == Step(old(grid))
      ensures forall i, k :: 0 <= i < rows && 0 <= k < cols ==>
        grid[i][k] == NextState(old(grid)[i][k], WindowCount(old(grid), i, k, ElectronHead))
    {
      ghost var next := Step(grid);
      var newGrid := EmptyGrid(rows, cols);
      var i := 0;
      while i < |grid|
        invariant 0 <= i <= |grid|
        invariant grid == old(grid)
        invariant IsGrid(newGrid, rows, cols)
        invariant forall r :: 0 <= r < i ==> newGrid[r] == next[r]
        invariant forall r, c :: i <= r < rows && 0 <= c < cols ==> newGrid[r][c] == Empty
      {
        var row := grid[i];
        var k := 0;
        while k < |row|
          invariant 0 <= k <= |row|
          invariant grid == old(grid) && row == grid[i]
          invariant IsGrid(newGrid, rows, cols)
          invariant forall r :: 0 <= r < i ==> newGrid[r] == next[r]
          invariant forall c :: 0 <= c < k ==> newGrid[i][c] == next[i][c]
          invariant forall r, c :: i <= r < rows && 0 <= c < cols && (r > i || c >= k) ==> newGrid[r][c] == Empty
        {
          var item := row[k];
          if item == Conductor {
            var neighbors := NeighborValues(grid, i, k);
            var headCount := Count(neighbors, ElectronHead);
            if headCount == 1 || headCount == 2 {
              newGrid := newGrid[i := newGrid[i][k := ElectronHead]];
            } else {
              newGrid := newGrid[i := newGrid[i][k := Conductor]];
            }
          } else if item == ElectronTail {
            newGrid := newGrid[i := newGrid[i][k := Conductor]];
          } else if item == ElectronHead {
            newGrid := newGrid[i := newGrid[i][k := ElectronTail]];
          }
          k := k + 1;
        }
        assert newGrid[i] == next[i];
        i := i + 1;
      }
      grid := newGrid;
      forall r, c | 0 <= r < rows && 0 <= c < cols
        ensures grid[r][c] == NextState(old(grid)[r][c], WindowCount(old(grid), r, c, ElectronHead))
      {
        StepRule(old(grid), r, c);
      }
    }
  }
}
