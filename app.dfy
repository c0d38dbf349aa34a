/** The solving code of the Flask back end: the in-place backtracking solver
    over a 9×9 grid, the conversion between the request's flat list and the
    grid, and the request check of the `/solve` endpoint. */
module App {
  import opened Board
  import opened Backtracking

  datatype Option<T> = None | Some(value: T)

  /** What the `/solve` endpoint answers: the solution list, a rejected request
      (wrong length or a value outside 0..9), or "unsolvable or invalid". */
  datatype Response = Solved(solution: seq<int>) | InvalidInput | Unsolvable

  /** One row of the grid as a list. */
  function RowCells(grid: array2<int>, r: nat): (cells: seq<int>)
    reads grid
    requires grid.Length0 == 9 && grid.Length1 == 9 && r < 9
    ensures |cells| == 9 && forall c :: 0 <= c < 9 ==> cells[c] == grid[r, c]
  {
    seq(9, c requires 0 <= c < 9 reads grid => grid[r, c])
  }

  /** The first `n` rows of the grid, concatenated in order. */
  function FlattenRows(grid: array2<int>, n: nat): (cells: seq<int>)
    reads grid
    requires grid.Length0 == 9 && grid.Length1 == 9 && n <= 9
    ensures |cells| == 9 * n
    ensures forall r, c :: 0 <= r < n && 0 <= c < 9 ==> cells[Index(r, c)] == grid[r, c]
  {
    if n == 0 then [] else FlattenRows(grid, n - 1) + RowCells(grid, n - 1)
  }

  /** `[num for row in solution for num in row]`: the grid read row by row into
      one list, so that cell (r, c) lands at r * 9 + c. */
  function Flatten(grid: array2<int>): (cells: seq<int>)
    reads grid
    requires grid.Length0 == 9 && grid.Length1 == 9
    ensures |cells| == 81
    ensures forall r, c :: 0 <= r < 9 && 0 <= c < 9 ==> cells[Index(r, c)] == grid[r, c]
  {
    FlattenRows(grid, 9)
  }

  /** Whether `num` may be written at (row, col): it is absent from the row, the
      column and the 3×3 box of that cell. */
  method IsValid(grid: array2<int>, row: nat, col: nat, num: int) returns (valid: bool)
    requires grid.Length0 == 9 && grid.Length1 == 9 && row < 9 && col < 9
    ensures valid == Placeable(Flatten(grid), row, col, num)
  {
    for x := 0 to 9
      invariant forall c :: 0 <= c < x ==> grid[row, c] != num
    {
      if grid[row, x] == num {
        assert Sees(row, col, row, x);
        return false;
      }
    }
    for x := 0 to 9
      invariant forall r :: 0 <= r < x ==> grid[r, col] != num
    {
      if grid[x, col] == num {
        assert Sees(row, col, x, col);
        return false;
      }
    }
    var startRow := row - row % 3;
    var startCol := col - col % 3;
    for i := 0 to 3
      invariant forall r, c :: startRow <= r < startRow + i && startCol <= c < startCol + 3 ==> grid[r, c] != num
    {
      var r := startRow + i;
      for j := 0 to 3
        invariant forall c :: startCol <= c < startCol + j ==> grid[r, c] != num
      {
        if grid[i + startRow, j + startCol] == num {
          BoxCorner(row, r);
          BoxCorner(col, j + startCol);
          assert Sees(row, col, r, j + startCol);
          return false;
        }
      }
    }
    forall r: nat, c: nat | r < 9 && c < 9 && Sees(row, col, r, c)
      ensures Flatten(grid)[Index(r, c)] != num
    {
      BoxCorner(row, r);
      BoxCorner(col, c);
    }
    return true;
  }

  /** `grid[i][j] = v`: writing one cell changes the flattened board at that
      cell's position only. */
  method SetCell(grid: array2<int>, i: nat, j: nat, v: int)
    requires grid.Length0 == 9 && grid.Length1 == 9 && i < 9 && j < 9
    modifies grid
    ensures Flatten(grid) == old(Flatten(grid))[Index(i, j) := v]
  {
    grid[i, j] := v;
    forall k | 0 <= k < 81 ensures Flatten(grid)[k] == old(Flatten(grid))[Index(i, j) := v][k] {
      IndexRoundTrip(k);
    }
  }

  /** The recursive backtracking solver: fills the empty cells of `grid` in place
      and answers whether it succeeded. Its answer and the board it leaves in the
      grid are exactly those of the search `Solve` on the board the grid held on
      entry. The scan for the first empty cell is here; the digit loop at that
      cell is `FillCell`. */
  method SolveSudokuUtil(grid: array2<int>) returns (solved: bool)
    requires grid.Length0 == 9 && grid.Length1 == 9
    modifies grid
    ensures Solve(old(Flatten(grid))) == Outcome(solved, Flatten(grid))
    decreases ZeroCount(Flatten(grid)), 1
  {
    ghost var g := Flatten(grid);
    for i := 0 to 9
      invariant Flatten(grid) == g
      invariant FirstEmpty(g, 0) >= i * 9
    {
      for j := 0 to 9
        invariant Flatten(grid) == g
        invariant FirstEmpty(g, 0) >= i * 9 + j
      {
        ghost var k := Index(i, j);
        assert g[k] == grid[i, j];
        if grid[i, j] == 0 {
          assert FirstEmpty(g, 0) == k;
          IndexSplits(i, j);
          solved := FillCell(grid, i, j);
          return;
        }
        assert FirstEmpty(g, 0) != k;
      }
    }
    return true;
  }

  /** The digit loop of the solver at the empty cell (i, j): try 1..9 in ascending
      order, write each digit that `IsValid` allows and solve the rest, and undo the
      write when that fails. It computes exactly `TryDigits`. */
  method FillCell(grid: array2<int>, i: nat, j: nat) returns (solved: bool)
    requires grid.Length0 == 9 && grid.Length1 == 9 && i < 9 && j < 9 && grid[i, j] == 0
    modifies grid
    ensures TryDigits(old(Flatten(grid)), i, j, 1) == Outcome(solved, Flatten(grid))
    decreases ZeroCount(Flatten(grid)), 0
  {
    ghost var g := Flatten(grid);
    ghost var k := Index(i, j);
    for num := 1 to 10
      invariant Flatten(grid) == g
      invariant TryDigits(g, i, j, num) == TryDigits(g, i, j, 1)
    {
      var valid := IsValid(grid, i, j, num);
      DigitStep(g, i, j, num);
      if valid {
        SetCell(grid, i, j, num);
        ZeroCountPlace(g, k, num);
        var ok := SolveSudokuUtil(grid);
        if ok {
          return true;
        }
        SetCell(grid, i, j, 0);
        assert g[k := num][k := 0] == g;
      }
    }
    return false;
  }

  /** The numpy reshape of the request list into a 9×9 grid: cell (r, c) is taken
      from position r * 9 + c, and flattening the grid row by row gives the list back. */
  method Reshape(puzzle: seq<int>) returns (grid: array2<int>)
    requires |puzzle| == 81
    ensures fresh(grid) && grid.Length0 == 9 && grid.Length1 == 9
    ensures forall r, c :: 0 <= r < 9 && 0 <= c < 9 ==> grid[r, c] == puzzle[Index(r, c)]
    ensures Flatten(grid) == puzzle
  {
    grid := new int[9, 9]((r, c) requires 0 <= r < 9 && 0 <= c < 9 => puzzle[Index(r, c)]);
    forall k | 0 <= k < 81 ensures Flatten(grid)[k] == puzzle[k] {
      IndexRoundTrip(k);
    }
  }

  /** `solve_puzzle`: a list that is not 81 long is refused; otherwise it is
      reshaped row by row into a 9×9 grid, which the solver fills in place. */
  method SolvePuzzle(puzzle: seq<int>) returns (result: Option<array2<int>>)
    ensures |puzzle| != 81 ==> result == None
    ensures |puzzle| == 81 ==> (result.Some? <==> Solve(puzzle).solved)
    ensures result.Some? ==>
      && fresh(result.value)
      && result.value.Length0 == 9 && result.value.Length1 == 9
      && Flatten(result.value) == Solve(puzzle).board
  {
    if |puzzle| != 81 {
      return None;
    }
    var grid := Reshape(puzzle);
    var solved := SolveSudokuUtil(grid);
    if solved {
      return Some(grid);
    }
    return None;
  }

  /** The request check of `/solve`: exactly 81 values, each between 0 and 9. */
  predicate WellFormed(puzzle: seq<int>) {
    |puzzle| == 81 && forall n :: n in puzzle ==> 0 <= n <= 9
  }

  /** The solving part of the `/solve` endpoint: check the request, solve, and
      flatten the solved grid back into a list. */
  method HandleSolve(puzzle: seq<int>) returns (response: Response)
    ensures response == InvalidInput <==> !WellFormed(puzzle)
    ensures response.Solved? <==> WellFormed(puzzle) && Solve(puzzle).solved
    ensures response.Solved? ==> response.solution == Solve(puzzle).board
    ensures response.Solved? ==> |response.solution| == 81 && NoZeros(response.solution)
    ensures response.Solved? && Consistent(puzzle) ==> Completes(response.solution, puzzle)
    ensures (exists s :: Completes(s, puzzle)) ==>
      response.Solved? && Completes(response.solution, puzzle)
  {
    if s :| Completes(s, puzzle) {
      CompletionGivesConsistent(puzzle, s);
      SolveFindsCompletion(puzzle, s);
    }
    if !WellFormed(puzzle) {
      return InvalidInput;
    }
    var solution := SolvePuzzle(puzzle);
    if solution.Some? {
      var cells := Flatten(solution.value);
      if Consistent(puzzle) {
        assert forall c :: 0 <= c < 81 ==> puzzle[c] in puzzle;
        SolveSound(puzzle);
      }
      return Solved(cells);
    }
    return Unsolvable;
  }
}
