/** The backtracking search of `solve_sudoku_util` as a pure function of the
    board: take the first empty cell in row-major order, try digits 1..9 in
    ascending order, keep the first placeable digit whose recursive search
    succeeds, and otherwise leave the board as it was. The in-place solver
    in module App is proved to compute exactly this. */
module Backtracking {
  import opened Board

  /** What the search returns (`solved`) together with the board it leaves behind. */
  datatype Outcome = Outcome(solved: bool, board: seq<int>)

  /** Every cell of `b` keeps its value in `g`, or was empty in `g` and now holds a digit. */
  ghost predicate OnlyEmptiesFilled(g: seq<int>, b: seq<int>) {
    && |b| == |g|
    && forall c :: 0 <= c < |g| ==> b[c] == g[c] || (g[c] == 0 && 1 <= b[c] <= 9)
  }

  /** `a` comes no later than `b` in row-major lexicographic order. */
  ghost predicate LexLeq(a: seq<int>, b: seq<int>)
    requires |a| == |b|
  {
    a == [] || a[0] < b[0] || (a[0] == b[0] && LexLeq(a[1..], b[1..]))
  }

  lemma {:induction false} LexLeqRefl(a: seq<int>)
    ensures LexLeq(a, a)
  {
    if a != [] {
      LexLeqRefl(a[1..]);
    }
  }

  /** Sequences that agree before position `k` and where `a` is smaller at `k`
      are ordered. */
  lemma {:induction false} LexLessAt(a: seq<int>, b: seq<int>, k: nat)
    requires |a| == |b| && k < |a| && a[k] < b[k]
    requires forall c :: 0 <= c < k ==> a[c] == b[c]
    ensures LexLeq(a, b)
  {
    if k > 0 {
      LexLessAt(a[1..], b[1..], k - 1);
    }
  }

  function Solve(g: seq<int>): (r: Outcome)
    requires |g| == 81
    ensures OnlyEmptiesFilled(g, r.board)
    ensures r.solved ==> NoZeros(r.board)
    ensures !r.solved ==> r.board == g
    decreases ZeroCount(g), 10
  {
    var k := FirstEmpty(g, 0);
    if k == 81 then Outcome(true, g)
    else
      IndexRoundTrip(k);
      TryDigits(g, RowOf(k), ColOf(k), 1)
  }

  /** The digit loop at the empty cell (row, col), from digit `num` on. */
  function TryDigits(g: seq<int>, row: nat, col: nat, num: nat): (r: Outcome)
    requires |g| == 81 && row < 9 && col < 9 && g[Index(row, col)] == 0 && 1 <= num <= 10
    ensures OnlyEmptiesFilled(g, r.board)
    ensures r.solved ==> NoZeros(r.board)
    ensures !r.solved ==> r.board == g
    decreases ZeroCount(g), 10 - num
  {
    if num == 10 then Outcome(false, g)
    else if Placeable(g, row, col, num) then
      ZeroCountPlace(g, Index(row, col), num);
      var r := Solve(g[Index(row, col) := num]);
      if r.solved then r else TryDigits(g, row, col, num + 1)
    else TryDigits(g, row, col, num + 1)
  }

  /** A board with no empty cell is reported solved and returned as it is,
      whether or not its cells conflict. */
  lemma FilledBoardAccepted(g: seq<int>)
    requires |g| == 81 && NoZeros(g)
    ensures Solve(g) == Outcome(true, g)
  {
  }

  /** The board of 81 ones breaks every row, column and box, yet the search accepts it. */
  lemma ConflictingFilledBoardAccepted()
    ensures Solve(seq(81, _ => 1)) == Outcome(true, seq(81, _ => 1))
    ensures !Consistent(seq(81, _ => 1))
  {
    var ones := seq(81, _ => 1);
    FilledBoardAccepted(ones);
    assert Sees(0, 0, 0, 1) && ones[Index(0, 0)] == ones[Index(0, 1)] == 1;
  }

  /** Every digit the search writes was placeable when written, so a consistent
      board stays consistent. */
  lemma {:induction false} SolveKeepsConsistent(g: seq<int>)
    requires |g| == 81 && Consistent(g)
    ensures Consistent(Solve(g).board)
    decreases ZeroCount(g), 10
  {
    var k := FirstEmpty(g, 0);
    if k < 81 {
      IndexRoundTrip(k);
      TryDigitsKeepsConsistent(g, RowOf(k), ColOf(k), 1);
    }
  }

  lemma {:induction false} TryDigitsKeepsConsistent(g: seq<int>, row: nat, col: nat, num: nat)
    requires |g| == 81 && row < 9 && col < 9 && g[Index(row, col)] == 0 && 1 <= num <= 10
    requires Consistent(g)
    ensures Consistent(TryDigits(g, row, col, num).board)
    decreases ZeroCount(g), 10 - num
  {
    if num < 10 {
      var k := Index(row, col);
      if Placeable(g, row, col, num) {
        ZeroCountPlace(g, k, num);
        PlaceKeepsConsistent(g, row, col, num);
        SolveKeepsConsistent(g[k := num]);
        if !Solve(g[k := num]).solved {
          TryDigitsKeepsConsistent(g, row, col, num + 1);
        }
      } else {
        TryDigitsKeepsConsistent(g, row, col, num + 1);
      }
    }
  }

  /** Soundness: when the givens are digits 0..9 without conflict, a successful
      search returns a solved Sudoku that keeps every given. */
  lemma SolveSound(g: seq<int>)
    requires |g| == 81 && (forall c :: 0 <= c < 81 ==> 0 <= g[c] <= 9)
    requires Consistent(g) && Solve(g).solved
    ensures Completes(Solve(g).board, g)
  {
    SolveKeepsConsistent(g);
  }

  /** Completeness and determinism: if any completion `s` of `g` exists, the search
      succeeds, and the board it returns is the row-major lexicographically least
      completion, the first one met when cells are filled in row-major order and
      digits tried in ascending order. */
  lemma {:induction false} SolveFindsLeastCompletion(g: seq<int>, s: seq<int>)
    requires |g| == 81 && Completes(s, g)
    ensures Solve(g).solved && LexLeq(Solve(g).board, s)
    decreases ZeroCount(g), 1
  {
    var k := FirstEmpty(g, 0);
    if k == 81 {
      assert s == g;
      LexLeqRefl(s);
    } else {
      IndexRoundTrip(k);
      var row, col := RowOf(k), ColOf(k);
      CompletionDigitFirstSolves(g, row, col, s);
      EarlierDigitsOrdered(g, row, col, s);
      DigitLoopReaches(g, row, col, 1, s[k], s);
    }
  }

  /** The digit loop at (row, col), started at `num`, ends in a solved board no later
      than `s` when it does so at digit `d` and every digit before `d` either hands
      over to the next one or itself ends in such a board. */
  lemma {:induction false} DigitLoopReaches(g: seq<int>, row: nat, col: nat, num: nat, d: nat, s: seq<int>)
    requires |g| == 81 && row < 9 && col < 9 && g[Index(row, col)] == 0 && 1 <= num <= d <= 9 && |s| == 81
    requires TryDigits(g, row, col, d).solved && LexLeq(TryDigits(g, row, col, d).board, s)
    requires forall n :: num <= n < d ==>
      || TryDigits(g, row, col, n) == TryDigits(g, row, col, n + 1)
      || (TryDigits(g, row, col, n).solved && LexLeq(TryDigits(g, row, col, n).board, s))
    ensures TryDigits(g, row, col, num).solved && LexLeq(TryDigits(g, row, col, num).board, s)
    decreases d - num
  {
    if num < d {
      DigitLoopReaches(g, row, col, num + 1, d, s);
    }
  }

  /** Each digit below the one a completion uses at the first empty cell either
      hands over to the next digit or ends in a solved board preceding the completion. */
  lemma EarlierDigitsOrdered(g: seq<int>, row: nat, col: nat, s: seq<int>)
    requires |g| == 81 && row < 9 && col < 9 && Index(row, col) == FirstEmpty(g, 0)
    requires Completes(s, g)
    ensures forall n :: 1 <= n < s[Index(row, col)] ==>
      || TryDigits(g, row, col, n) == TryDigits(g, row, col, n + 1)
      || (TryDigits(g, row, col, n).solved && LexLeq(TryDigits(g, row, col, n).board, s))
  {
    forall n | 1 <= n < s[Index(row, col)]
      ensures || TryDigits(g, row, col, n) == TryDigits(g, row, col, n + 1)
              || (TryDigits(g, row, col, n).solved && LexLeq(TryDigits(g, row, col, n).board, s))
    {
      if Placeable(g, row, col, n) && Solve(g[Index(row, col) := n]).solved {
        SmallerDigitFirst(g, row, col, n, s);
      } else {
        DigitStep(g, row, col, n);
      }
    }
  }

  /** One turn of the digit loop: a placeable digit whose search succeeds ends the
      loop with that search's result; any other digit hands over to the next one. */
  lemma DigitStep(g: seq<int>, row: nat, col: nat, num: nat)
    requires |g| == 81 && row < 9 && col < 9 && g[Index(row, col)] == 0 && 1 <= num < 10
    ensures Placeable(g, row, col, num) && Solve(g[Index(row, col) := num]).solved ==>
      TryDigits(g, row, col, num) == Solve(g[Index(row, col) := num])
    ensures !(Placeable(g, row, col, num) && Solve(g[Index(row, col) := num]).solved) ==>
      TryDigits(g, row, col, num) == TryDigits(g, row, col, num + 1)
  {
  }

  /** Once the digit loop reaches the digit a completion puts at the first empty
      cell, that digit is placeable and the search from the board it yields succeeds. */
  lemma {:induction false} CompletionDigitFirstSolves(g: seq<int>, row: nat, col: nat, s: seq<int>)
    requires |g| == 81 && row < 9 && col < 9 && Index(row, col) == FirstEmpty(g, 0)
    requires Completes(s, g)
    ensures TryDigits(g, row, col, s[Index(row, col)]).solved
    ensures LexLeq(TryDigits(g, row, col, s[Index(row, col)]).board, s)
    decreases ZeroCount(g), 0
  {
    var k := Index(row, col);
    CompletionDigitPlaceable(g, s, row, col);
    ZeroCountPlace(g, k, s[k]);
    SolveFindsLeastCompletion(g[k := s[k]], s);
    assert TryDigits(g, row, col, s[k]) == Solve(g[k := s[k]]);
  }

  /** When a digit smaller than the one a completion uses at the first empty cell
      is placeable and its search succeeds, the board found precedes the completion. */
  lemma SmallerDigitFirst(g: seq<int>, row: nat, col: nat, num: nat, s: seq<int>)
    requires |g| == 81 && row < 9 && col < 9 && Index(row, col) == FirstEmpty(g, 0)
    requires Completes(s, g) && 1 <= num < s[Index(row, col)]
    requires Placeable(g, row, col, num) && Solve(g[Index(row, col) := num]).solved
    ensures TryDigits(g, row, col, num).solved && LexLeq(TryDigits(g, row, col, num).board, s)
  {
    var k := Index(row, col);
    var b := Solve(g[k := num]).board;
    assert TryDigits(g, row, col, num).board == b;
    assert b[k] == num;
    forall c | 0 <= c < k ensures b[c] == s[c] {
      assert g[c] != 0;
    }
    LexLessAt(b, s, k);
  }

  /** If any completion `s` of `g` exists, the search returns a completion of `g`,
      and it is the row-major lexicographically least one. */
  lemma SolveFindsCompletion(g: seq<int>, s: seq<int>)
    requires |g| == 81 && Completes(s, g)
    ensures Solve(g).solved && Completes(Solve(g).board, g) && LexLeq(Solve(g).board, s)
  {
    CompletionGivesConsistent(g, s);
    SolveFindsLeastCompletion(g, s);
    SolveSound(g);
  }

  /** For givens that are digits 0..9 without conflict, the search succeeds exactly
      when the board has a completion. */
  lemma SolvedIffCompletable(g: seq<int>)
    requires |g| == 81 && (forall c :: 0 <= c < 81 ==> 0 <= g[c] <= 9) && Consistent(g)
    ensures Solve(g).solved <==> exists s :: Completes(s, g)
  {
    if Solve(g).solved {
      SolveSound(g);
    }
    if s :| Completes(s, g) {
      SolveFindsLeastCompletion(g, s);
    }
  }
}
