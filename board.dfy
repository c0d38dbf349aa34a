/** The 9×9 Sudoku board as the solver sees it: 81 integer cells in
    row-major order (the cell in row r, column c sits at r * 9 + c),
    where 0 marks an empty cell. */
module Board {

  /** Row-major position of the cell in row `row`, column `col`. */
  function Index(row: nat, col: nat): (k: nat)
    requires row < 9 && col < 9
    ensures k < 81
  {
    row * 9 + col
  }

  /** Row of the cell at row-major position `k`. */
  function RowOf(k: nat): (r: nat)
    ensures k < 81 ==> r < 9
  {
    k / 9
  }

  /** Column of the cell at row-major position `k`. */
  function ColOf(k: nat): (c: nat)
    ensures c < 9
  {
    k % 9
  }

  /** Joining a row and a column into a position and splitting it again is the identity. */
  lemma IndexSplits(row: nat, col: nat)
    requires row < 9 && col < 9
    ensures RowOf(Index(row, col)) == row && ColOf(Index(row, col)) == col
  {
  }

  /** Splitting a position into row and column and joining them again is the identity. */
  lemma IndexRoundTrip(k: nat)
    requires k < 81
    ensures RowOf(k) < 9 && ColOf(k) < 9 && Index(RowOf(k), ColOf(k)) == k
  {
  }

  /** Cell (r, c) shares the row, the column or the 3×3 box of cell (row, col),
      the cell itself included. */
  predicate Sees(row: nat, col: nat, r: nat, c: nat) {
    r == row || c == col || (r / 3 == row / 3 && c / 3 == col / 3)
  }

  /** The box of a cell in row `row` spans the three rows from row - row % 3 on
      (and likewise for columns). */
  lemma BoxCorner(row: nat, r: nat)
    ensures r / 3 == row / 3 <==> row - row % 3 <= r < row - row % 3 + 3
  {
  }

  /** Digit `num` may go at (row, col): no cell that (row, col) sees holds it. */
  predicate Placeable(b: seq<int>, row: nat, col: nat, num: int)
    requires |b| == 81 && row < 9 && col < 9
  {
    forall r: nat, c: nat :: r < 9 && c < 9 && Sees(row, col, r, c) ==> b[Index(r, c)] != num
  }

  /** No two distinct cells sharing a row, a column or a box hold the same nonzero value. */
  ghost predicate Consistent(b: seq<int>) {
    && |b| == 81
    && forall r1: nat, c1: nat, r2: nat, c2: nat ::
         (r1 < 9 && c1 < 9 && r2 < 9 && c2 < 9 && (r1 != r2 || c1 != c2) &&
          Sees(r1, c1, r2, c2) && b[Index(r1, c1)] != 0) ==>
         b[Index(r1, c1)] != b[Index(r2, c2)]
  }

  ghost predicate NoZeros(b: seq<int>) {
    forall k :: 0 <= k < |b| ==> b[k] != 0
  }

  /** `s` is a solved Sudoku that keeps every given (nonzero) cell of `g`. */
  ghost predicate Completes(s: seq<int>, g: seq<int>) {
    && |s| == |g|
    && Consistent(s)
    && (forall k :: 0 <= k < |s| ==> 1 <= s[k] <= 9)
    && (forall k :: 0 <= k < |s| && g[k] != 0 ==> s[k] == g[k])
  }

  /** Number of empty cells: the measure the search decreases. */
  function ZeroCount(b: seq<int>): (n: nat)
    ensures n <= |b|
    ensures n == 0 <==> NoZeros(b)
  {
    if b == [] then 0
    else
      assert forall k :: 1 <= k < |b| ==> b[k] == b[1..][k - 1];
      (if b[0] == 0 then 1 else 0) + ZeroCount(b[1..])
  }

  /** Filling one empty cell with a nonzero value removes exactly one empty cell. */
  lemma {:induction false} ZeroCountPlace(b: seq<int>, k: nat, v: int)
    requires k < |b| && b[k] == 0 && v != 0
    ensures ZeroCount(b[k := v]) == ZeroCount(b) - 1
  {
    if k == 0 {
      assert b[k := v][1..] == b[1..];
    } else {
      assert b[k := v][1..] == b[1..][k - 1 := v];
      ZeroCountPlace(b[1..], k - 1, v);
    }
  }

  /** The first empty position at or after `from` in row-major order, or |b| if none. */
  function FirstEmpty(b: seq<int>, from: nat): (k: nat)
    requires from <= |b|
    ensures from <= k <= |b|
    ensures k < |b| ==> b[k] == 0
    ensures forall j :: from <= j < k ==> b[j] != 0
    decreases |b| - from
  {
    if from == |b| || b[from] == 0 then from else FirstEmpty(b, from + 1)
  }

  /** A board that has a completion has givens in 0..9 that do not conflict:
      each given is the completion's digit at that cell. */
  lemma CompletionGivesConsistent(g: seq<int>, s: seq<int>)
    requires |g| == 81 && Completes(s, g)
    ensures Consistent(g) && forall c :: 0 <= c < 81 ==> 0 <= g[c] <= 9
  {
  }

  /** Writing a placeable digit into an empty cell keeps a consistent board consistent. */
  lemma PlaceKeepsConsistent(g: seq<int>, row: nat, col: nat, d: int)
    requires |g| == 81 && row < 9 && col < 9 && g[Index(row, col)] == 0
    requires Placeable(g, row, col, d) && Consistent(g)
    ensures Consistent(g[Index(row, col) := d])
  {
    var g' := g[Index(row, col) := d];
    forall r1: nat, c1: nat, r2: nat, c2: nat |
      r1 < 9 && c1 < 9 && r2 < 9 && c2 < 9 && (r1 != r2 || c1 != c2) &&
      Sees(r1, c1, r2, c2) && g'[Index(r1, c1)] != 0
      ensures g'[Index(r1, c1)] != g'[Index(r2, c2)]
    {
      if r1 == row && c1 == col {
        assert Sees(row, col, r2, c2);
      } else if r2 == row && c2 == col {
        assert Sees(row, col, r1, c1);
      }
    }
  }

  /** The digit a completion puts in an empty cell is placeable there, and the
      completion still completes the board with that digit written. */
  lemma CompletionDigitPlaceable(g: seq<int>, s: seq<int>, row: nat, col: nat)
    requires |g| == 81 && row < 9 && col < 9 && g[Index(row, col)] == 0
    requires Completes(s, g)
    ensures Placeable(g, row, col, s[Index(row, col)])
    ensures Completes(s, g[Index(row, col) := s[Index(row, col)]])
  {
    forall r: nat, c: nat | r < 9 && c < 9 && Sees(row, col, r, c)
      ensures g[Index(r, c)] != s[Index(row, col)]
    {
      if (r != row || c != col) && g[Index(r, c)] != 0 {
        assert s[Index(r, c)] != s[Index(row, col)];
      }
    }
  }
}
