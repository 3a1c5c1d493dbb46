/** sudoku-solver/constraints.c: a pass that lists candidates, then pruned backtracking. */
module Constraints {
  import opened SudokuUnits

  type Validity = bv8
  const UNKNOWN: Validity := 0
  const INVALID: Validity := 1
  const VALID: Validity := 2
  const INCOMPLETE: Validity := 4

  /** The verdict on nine values. */
  ghost function Verdict(v: seq<nat>): Validity {
    if !NoRepeat(v) then INVALID else if 0 in v then INCOMPLETE else VALID
  }

  /** The counters agree with the values seen so far. */
  ghost predicate Counted(seen: array<nat>, v: seq<nat>)
    reads seen
  {
    && seen.Length == 10
    && (forall d :: 0 <= d < 10 ==> seen[d] == Count(v, d))
    && seen[0] + seen[1] + seen[2] + seen[3] + seen[4] + seen[5] + seen[6] + seen[7] + seen[8] + seen[9] == |v|
  }

  /** `seen[value]++`. */
  method See(seen: array<nat>, value: nat, ghost v: seq<nat>)
    requires Counted(seen, v) && value <= 9
    modifies seen
    ensures Counted(seen, v + [value])
  {
    CountMore(v, value);
    seen[value] := seen[value] + 1;
  }

  /** The part the three unit checks share: from the counters to the verdict. */
  method Judge(seen: array<nat>, ghost v: seq<nat>) returns (validity: Validity)
    requires Counted(seen, v) && |v| == 9 && forall i :: 0 <= i < 9 ==> v[i] <= 9
    ensures validity == Verdict(v)
  {
    var i := 1;
    while i <= 9
      invariant 1 <= i <= 10
      invariant forall d :: 1 <= d < i ==> seen[d] <= 1
    {
      if seen[i] > 1 {
        CountTwice(v, i);
        return INVALID;
      }
      i := i + 1;
    }
    NoneTwice(v);
    CountZero(v, 0);
    if seen[0] > 0 { return INCOMPLETE; }
    assert seen[0] == 0 && seen[1] == 1 && seen[2] == 1 && seen[3] == 1 && seen[4] == 1
        && seen[5] == 1 && seen[6] == 1 && seen[7] == 1 && seen[8] == 1;
    return VALID;
  }

  /** compute_row_validity. */
  method ComputeRowValidity(grid: array<nat>, row: nat) returns (validity: Validity)
    requires grid.Length == 81 && IsGrid(grid[..]) && row < 9
    ensures validity == Verdict(Values(grid[..], Row(row)))
  {
    UnitDigits(grid[..], Row(row));
    hide Verdict, Values;
    ghost var v := Values(grid[..], Row(row));
    var seen := new nat[10](_ => 0);
    assert Counted(seen, v[..0]);
    hide Counted;
    for k := 0 to 9
      invariant Counted(seen, v[..k]) && grid[..] == old(grid[..])
    {
      var position := row * 9 + k;
      assert v[..k + 1] == v[..k] + [grid[position]];
      See(seen, grid[position], v[..k]);
    }
    assert v[..9] == v;
    validity := Judge(seen, v);
  }

  /** compute_column_validity. */
  method ComputeColumnValidity(grid: array<nat>, column: nat) returns (validity: Validity)
    requires grid.Length == 81 && IsGrid(grid[..]) && column < 9
    ensures validity == Verdict(Values(grid[..], Column(column)))
  {
    UnitDigits(grid[..], Column(column));
    hide Verdict, Values;
    ghost var v := Values(grid[..], Column(column));
    assert forall n :: 0 <= n < 9 ==> v[n] == grid[column + n * 9];
    var seen := new nat[10](_ => 0);
    assert Counted(seen, v[..0]);
    hide Counted, Cell;
    var k := column;
    ghost var n := 0;
    while k < 81
      invariant n <= 9 && k == column + 9 * n
      invariant Counted(seen, v[..n]) && grid[..] == old(grid[..])
    {
      TakeMore(v, n);
      See(seen, grid[k], v[..n]);
      k := k + 9;
      n := n + 1;
    }
    assert v[..n] == v;
    validity := Judge(seen, v);
  }

  /** compute_block_validity. */
  method ComputeBlockValidity(grid: array<nat>, block: nat) returns (validity: Validity)
    requires grid.Length == 81 && IsGrid(grid[..]) && block < 9
    ensures validity == Verdict(Values(grid[..], Block(block)))
  {
    UnitDigits(grid[..], Block(block));
    hide Cell, Verdict, Values;
    ghost var v := Values(grid[..], Block(block));
    var position := block / 3 * 3 * 9 + (block % 3) * 3;
    BlockCells(grid[..], block);
    validity := JudgeBlock(grid, position / 9, position % 9, v);
  }

  /** Its loops, from the top left cell of the block. */
  method JudgeBlock(grid: array<nat>, startI: nat, startJ: nat, ghost v: seq<nat>) returns (validity: Validity)
    requires grid.Length == 81 && startI <= 6 && startJ <= 6 && |v| == 9 && forall k :: 0 <= k < 9 ==> v[k] <= 9
    requires forall i, j :: BlockCellIs(grid[..], startI, startJ, v, i, j)
    ensures validity == Verdict(v)
  {
    hide Verdict;
    ghost var g, n := grid[..], 0;
    var seen := new nat[10](_ => 0);
    assert Counted(seen, v[..0]);
    hide Counted;
    for i := 0 to 3
      invariant n == 3 * i && Counted(seen, v[..n]) && grid[..] == g
    {
      var start := startI * 9 + i * 9 + startJ;
      ThreeCells(g, startI, startJ, v, i);
      SeeThree(seen, grid, start, v, n);
      n := n + 3;
    }
    assert v[..9] == v;
    validity := Judge(seen, v);
  }

  /** One row of a block. */
  method SeeThree(seen: array<nat>, grid: array<nat>, start: nat, ghost v: seq<nat>, ghost n: nat)
    requires seen != grid && start + 3 <= grid.Length && n + 3 <= |v| && Counted(seen, v[..n])
    requires v[n..n + 3] == grid[start..start + 3] && forall k :: 0 <= k < |v| ==> v[k] <= 9
    modifies seen
    ensures Counted(seen, v[..n + 3])
  {
    hide Counted;
    for j := 0 to 3
      invariant Counted(seen, v[..n + j])
    {
      TakeMore(v, n + j);
      assert v[n + j] == v[n..n + 3][j] == grid[start..start + 3][j];
      See(seen, grid[start + j], v[..n + j]);
    }
  }

  lemma ThreeCells(g: seq<nat>, startI: nat, startJ: nat, v: seq<nat>, i: nat)
    requires |g| == 81 && startI <= 6 && startJ <= 6 && |v| == 9 && i < 3
    requires forall i, j :: BlockCellIs(g, startI, startJ, v, i, j)
    ensures var start := startI * 9 + i * 9 + startJ; v[3 * i..3 * i + 3] == g[start..start + 3]
  {
    assert BlockCellIs(g, startI, startJ, v, i, 0);
    assert BlockCellIs(g, startI, startJ, v, i, 1);
    assert BlockCellIs(g, startI, startJ, v, i, 2);
  }

  lemma TakeMore(v: seq<nat>, n: nat)
    requires n < |v|
    ensures v[..n + 1] == v[..n] + [v[n]]
  {
  }

  /** The bits collected so far: exactly VALID as long as every verdict was VALID. */
  ghost predicate Collected(validity: Validity, n: nat, good: bool) {
    validity < 8 &&
      (if good then validity == (if n == 0 then UNKNOWN else VALID) else validity != UNKNOWN && validity != VALID)
  }

  lemma Collect(validity: Validity, n: nat, good: bool, x: Validity)
    requires Collected(validity, n, good) && (x == INVALID || x == VALID || x == INCOMPLETE)
    ensures Collected(validity | x, n + 1, good && x == VALID)
  {
  }

  /** compute_grid_validity. */
  method ComputeGridValidity(grid: array<nat>) returns (validity: Validity)
    requires grid.Length == 81 && IsGrid(grid[..])
    ensures validity == VALID <==> Solved(grid[..])
  {
    ghost var g: Grid := grid[..];
    validity := UNKNOWN;
    ghost var good := true;
    for r := 0 to 9
      invariant grid[..] == g && Collected(validity, r, good)
      invariant good <==> forall n :: 0 <= n < r ==> Complete(Values(g, Row(n)))
    {
      var x := ComputeRowValidity(grid, r);
      Collect(validity, r, good, x);
      validity, good := validity | x, good && x == VALID;
    }
    for c := 0 to 9
      invariant grid[..] == g && Collected(validity, 9 + c, good)
      invariant good <==> (forall n :: 0 <= n < 9 ==> Complete(Values(g, Row(n))))
                          && forall n :: 0 <= n < c ==> Complete(Values(g, Column(n)))
    {
      var x := ComputeColumnValidity(grid, c);
      Collect(validity, 9 + c, good, x);
      validity, good := validity | x, good && x == VALID;
    }
    for b := 0 to 9
      invariant grid[..] == g && Collected(validity, 18 + b, good)
      invariant good <==> (forall n :: 0 <= n < 9 ==> Complete(Values(g, Row(n))))
                          && (forall n :: 0 <= n < 9 ==> Complete(Values(g, Column(n))))
                          && forall n :: 0 <= n < b ==> Complete(Values(g, Block(n)))
    {
      var x := ComputeBlockValidity(grid, b);
      Collect(validity, 18 + b, good, x);
      validity, good := validity | x, good && x == VALID;
    }
    CompleteIsSolved(g);
  }

  // ---- the order of the search

  /** `a` comes before `b`, or equals it, cell by cell. */
  ghost predicate LexLeq(a: Grid, b: Grid) {
    a == b || exists k: nat :: FirstDifference(a, b, k) && a[k] < b[k]
  }

  ghost predicate FirstDifference(a: Grid, b: Grid, k: nat) {
    k < 81 && a[k] != b[k] && forall i :: 0 <= i < k ==> a[i] == b[i]
  }

  ghost predicate Least(s: Grid, g: Grid) {
    IsCompletion(s, g) && forall t: Grid :: IsCompletion(t, g) ==> LexLeq(s, t)
  }

  ghost predicate Completable(g: Grid) {
    exists s: Grid :: IsCompletion(s, g)
  }

  // ---- candidates

  /** Where the table keeps candidate `j` of cell `i`. */
  function Slot(i: nat, j: nat): nat { i * 9 + j }

  /** Slot `j` of a cell is `j` or 0; no candidate of a completion of `g` is missing. */
  ghost predicate Covers(possibilities: seq<nat>, g: Grid) {
    && |possibilities| == 810
    && (forall i: nat, j: nat :: i < 81 && 1 <= j <= 9 ==>
          possibilities[Slot(i, j)] == 0 || possibilities[Slot(i, j)] == j)
    && forall s: Grid, i: nat :: IsCompletion(s, g) && i < 81 && g[i] == 0 ==>
          possibilities[Slot(i, s[i])] == s[i]
  }

  lemma CompletionOfFilled(s: Grid, g: Grid, i: nat, v: nat)
    requires i < 81 && g[i] == 0 && 0 < v <= 9
    ensures IsCompletion(s, g[i := v]) <==> IsCompletion(s, g) && s[i] == v
  {
    if IsCompletion(s, g[i := v]) {
      assert g[i := v][i] == v;
      forall c | 0 <= c < 81 && g[c] != 0 ensures s[c] == g[c] { assert g[i := v][c] == g[c]; }
    }
  }

  /** The value a completion puts in a cell passes the three unit checks. */
  lemma CompletionPassesChecks(s: Grid, g: Grid, i: nat)
    requires IsCompletion(s, g) && i < 81 && g[i] == 0
    ensures 1 <= s[i] <= 9 && ThreeUnitsFine(g[i := s[i]], i)
  {
    CompletionOfFilled(s, g, i, s[i]);
    PartIsConsistent(g[i := s[i]], s);
    BlockOfBound(i);
  }

  lemma CompletableIsConsistent(g: Grid)
    requires Completable(g)
    ensures Consistent(g)
  {
    var s: Grid :| IsCompletion(s, g);
    PartIsConsistent(g, s);
  }

  /** The row, column and block checks around a freshly set cell. */
  method CheckCell(grid: array<nat>, i: nat) returns (fine: bool)
    requires grid.Length == 81 && IsGrid(grid[..]) && i < 81
    ensures fine <==> ThreeUnitsFine(grid[..], i)
  {
    var row := i / 9;
    var column := i % 9;
    var block := row / 3 * 3 + column / 3;
    BlockOfBound(i);
    hide Values, NoRepeat;
    var x := ComputeRowValidity(grid, row);
    if x & INVALID != 0 { return false; }
    x := ComputeColumnValidity(grid, column);
    if x & INVALID != 0 { return false; }
    x := ComputeBlockValidity(grid, block);
    if x & INVALID != 0 { return false; }
    return true;
  }

  lemma FullIsLeast(g: Grid)
    requires Solved(g)
    ensures Least(g, g)
  {
    forall t: Grid | IsCompletion(t, g) ensures t == g {
      assert forall i :: 0 <= i < 81 ==> t[i] == g[i];
    }
  }

  /** Every completion of `g` has at least `v` at `position`. */
  ghost predicate NoneBelow(g: Grid, position: nat, v: nat)
    requires position < 81
  {
    forall s: Grid :: IsCompletion(s, g) ==> s[position] >= v
  }

  lemma SearchEnds(g: Grid, position: nat)
    requires position < 81
    ensures NoneBelow(g, position, 1)
    ensures NoneBelow(g, position, 10) ==> !Completable(g)
  {
  }

  lemma FullNotSolved(g: Grid)
    requires forall i :: 0 <= i < 81 ==> g[i] != 0
    ensures Solved(g) <==> Consistent(g)
  {
  }

  lemma SlotValue(table: seq<nat>, g: Grid, i: nat, j: nat)
    requires Covers(table, g) && i < 81 && 1 <= j <= 9
    ensures table[Slot(i, j)] == 0 || table[Slot(i, j)] == j
  {
  }

  lemma SkipsNone(table: seq<nat>, g: Grid, position: nat, v: nat)
    requires Covers(table, g) && position < 81 && g[position] == 0 && 1 <= v <= 9
    requires table[Slot(position, v)] == 0 && NoneBelow(g, position, v)
    ensures NoneBelow(g, position, v + 1)
  {
  }

  lemma PrunesNone(g: Grid, position: nat, v: nat)
    requires position < 81 && g[position] == 0 && 1 <= v <= 9 && !ThreeUnitsFine(g[position := v], position)
    requires NoneBelow(g, position, v)
    ensures NoneBelow(g, position, v + 1)
  {
    forall s: Grid | IsCompletion(s, g) ensures s[position] != v { CompletionPassesChecks(s, g, position); }
  }

  lemma CoversChild(table: seq<nat>, g: Grid, position: nat, v: nat)
    requires Covers(table, g) && position < 81 && g[position] == 0 && 1 <= v <= 9
    ensures Covers(table, g[position := v])
  {
    forall s: Grid, i: nat | IsCompletion(s, g[position := v]) && i < 81 && g[position := v][i] == 0
      ensures table[Slot(i, s[i])] == s[i]
    {
      CompletionOfFilled(s, g, position, v);
      assert g[i] == 0;
    }
  }

  /** What a child's outcome says about the parent, when all smaller values are excluded. */
  lemma ChildOutcome(outcome: Outcome, g: Grid, position: nat, v: nat)
    requires position < 81 && g[position] == 0 && 1 <= v <= 9
    requires forall i :: 0 <= i < position ==> g[i] != 0
    requires ThreeUnitsFine(g[position := v], position)
    requires NoneBelow(g, position, v)
    requires outcome.Found? ==> Least(outcome.grid, g[position := v])
    requires outcome.Returned? ==> !Completable(g[position := v])
    requires outcome.AssertionFailed? ==> !Consistent(g[position := v])
    ensures outcome.Found? ==> Least(outcome.grid, g)
    ensures outcome.Returned? ==> NoneBelow(g, position, v + 1)
    ensures outcome.AssertionFailed? ==> !Consistent(g)
  {
    match outcome
    case Found(r) =>
      CompletionOfFilled(r, g, position, v);
      forall t: Grid | IsCompletion(t, g) ensures LexLeq(r, t) {
        CompletionOfFilled(t, g, position, v);
        if t[position] > v { assert FirstDifference(r, t, position); }
      }
    case Returned =>
      forall s: Grid | IsCompletion(s, g) ensures s[position] > v { CompletionOfFilled(s, g, position, v); }
    case AssertionFailed =>
      if Consistent(g) { SetKeepsConsistent(g, position, v); }
  }

  datatype Outcome = Found(grid: Grid) | Returned | AssertionFailed

  /** grid_solve. `Found` stands for printing the grid and exiting. */
  method GridSolve(grid: array<nat>, possibilities: array<nat>, position: nat) returns (outcome: Outcome)
    requires grid.Length == 81 && IsGrid(grid[..]) && possibilities.Length == 810
    requires position <= 81 && forall i :: 0 <= i < position ==> grid[i] != 0
    requires Covers(possibilities[..], grid[..])
    ensures outcome.Found? ==> Least(outcome.grid, grid[..])
    ensures outcome.Returned? ==> !Completable(grid[..])
    ensures outcome.AssertionFailed? ==> !Consistent(grid[..])
    decreases 81 - position
  {
    hide Covers, NoneBelow, ThreeUnitsFine, IsCompletion, Consistent, Least, Completable, Solved;
    ghost var g: Grid := grid[..];
    if position == 81 {
      var validity := ComputeGridValidity(grid);
      if validity != VALID {
        FullNotSolved(g);
        return AssertionFailed;
      }
      FullIsLeast(g);
      return Found(grid[..]);
    }
    if grid[position] != 0 {
      outcome := GridSolve(grid, possibilities, position + 1);
      return;
    }
    SearchEnds(g, position);
    var possibility := 1;
    while possibility <= 9
      invariant 1 <= possibility <= 10 && grid[..] == g
      invariant NoneBelow(g, position, possibility)
      decreases 10 - possibility
    {
      ghost var table := possibilities[..];
      var value := possibilities[Slot(position, possibility)];
      SlotValue(table, g, position, possibility);
      assert value == table[Slot(position, possibility)];
      if value == 0 {
        SkipsNone(table, g, position, possibility);
        possibility := possibility + 1;
        continue;
      }
      var work := new nat[81](i requires 0 <= i < 81 reads grid => grid[i]);
      work[position] := value;
      assert work[..] == g[position := value];
      var fine := CheckCell(work, position);
      if !fine {
        PrunesNone(g, position, value);
        possibility := possibility + 1;
        continue;
      }
      CoversChild(table, g, position, value);
      outcome := GridSolve(work, possibilities, position + 1);
      ChildOutcome(outcome, g, position, value);
      if !outcome.Returned? { return; }
      possibility := possibility + 1;
    }
    return Returned;
  }

  // ---- the first pass

  ghost predicate SameCompletions(g: Grid, h: Grid) {
    forall s: Grid :: IsCompletion(s, g) <==> IsCompletion(s, h)
  }

  /** The table covers the empty cells before `n`. */
  ghost predicate CoversBefore(table: seq<nat>, g: Grid, n: nat) {
    && |table| == 810
    && (forall i: nat, j: nat :: i < 81 && 1 <= j <= 9 ==> table[Slot(i, j)] == 0 || table[Slot(i, j)] == j)
    && forall s: Grid, i: nat :: IsCompletion(s, g) && i < 81 && i < n && g[i] == 0 ==> table[Slot(i, s[i])] == s[i]
  }

  /** After trying the values below `j` in cell `i`: the table has every completion's value below `j`,
      and the count and the last success bound what those values can be. */
  ghost predicate Tried(table: seq<nat>, g: Grid, i: nat, j: nat, count: nat, last: nat)
    requires i < 81
  {
    && |table| == 810
    && (count > 0 ==> 1 <= last <= 9)
    && forall s: Grid :: IsCompletion(s, g) && s[i] < j ==>
        && table[Slot(i, s[i])] == s[i]
        && count > 0
        && (count == 1 ==> s[i] == last)
  }

  lemma TryStart(table: seq<nat>, g: Grid, i: nat)
    requires |table| == 810 && i < 81
    ensures Tried(table, g, i, 1, 0, 0)
  {
  }

  lemma TryStep(table: seq<nat>, g: Grid, i: nat, j: nat, count: nat, last: nat)
    requires i < 81 && g[i] == 0 && 1 <= j <= 9
    requires CoversBefore(table, g, i) && Tried(table, g, i, j, count, last)
    ensures ThreeUnitsFine(g[i := j], i) ==>
      && CoversBefore(table[Slot(i, j) := j], g, i)
      && Tried(table[Slot(i, j) := j], g, i, j + 1, count + 1, j)
    ensures !ThreeUnitsFine(g[i := j], i) ==> Tried(table, g, i, j + 1, count, last)
  {
    hide IsCompletion, ThreeUnitsFine;
    forall s: Grid | IsCompletion(s, g)
      ensures 1 <= s[i] && (s[i] == j ==> ThreeUnitsFine(g[i := j], i))
    {
      CompletionPassesChecks(s, g, i);
    }
  }

  lemma CellDone(table: seq<nat>, g: Grid, i: nat, count: nat, last: nat)
    requires i < 81 && g[i] == 0
    requires CoversBefore(table, g, i) && Tried(table, g, i, 10, count, last)
    ensures count == 0 ==> !Completable(g)
    ensures count > 0 ==> CoversBefore(table, g, i + 1)
    ensures count == 1 ==> SameCompletions(g[i := last], g) && CoversBefore(table, g[i := last], i + 1)
  {
    hide Solved, Within;
    forall s: Grid | IsCompletion(s, g) ensures s[i] < 10 { }
    if count == 1 {
      forall s: Grid ensures IsCompletion(s, g[i := last]) <==> IsCompletion(s, g) {
        CompletionOfFilled(s, g, i, last);
      }
      hide IsCompletion;
      forall c: nat | c < 81 && g[i := last][c] == 0 ensures g[c] == 0 { }
    }
  }

  /** The candidate pass of `main`. It returns false where the source's assertion fails. */
  method FirstPass(grid: array<nat>, possibilities: array<nat>) returns (passed: bool)
    requires grid.Length == 81 && IsGrid(grid[..]) && possibilities.Length == 810 && grid != possibilities
    requires forall k :: 0 <= k < 810 ==> possibilities[k] == 0
    modifies grid, possibilities
    ensures IsGrid(grid[..])
    ensures passed ==> SameCompletions(grid[..], old(grid[..])) && Covers(possibilities[..], grid[..])
    ensures !passed ==> !Completable(old(grid[..]))
  {
    hide IsCompletion, ThreeUnitsFine, CoversBefore, Tried, Slot;
    ghost var start: Grid := grid[..];
    PassStart(possibilities[..], start);
    var i := 0;
    while i < 81
      invariant 0 <= i <= 81 && IsGrid(grid[..])
      invariant SameCompletions(grid[..], start)
      invariant CoversBefore(possibilities[..], grid[..], i)
    {
      ghost var g: Grid := grid[..];
      var value := grid[i];
      if value != 0 {
        SkipFilled(possibilities[..], g, i);
        i := i + 1;
        continue;
      }
      var count, last := 0, 0;
      TryStart(possibilities[..], g, i);
      var j := 1;
      while j <= 9
        invariant 1 <= j <= 10 && grid[..] == g[i := grid[i]] && grid[i] <= 9
        invariant CoversBefore(possibilities[..], g, i)
        invariant Tried(possibilities[..], g, i, j, count, last)
      {
        grid[i] := j;
        assert grid[..] == g[i := j];
        var fine := CheckCell(grid, i);
        ghost var table := possibilities[..];
        TryStep(table, g, i, j, count, last);
        if fine {
          SlotBound(i, j);
          possibilities[Slot(i, j)] := j;
          assert possibilities[..] == table[Slot(i, j) := j];
          count := count + 1;
          last := j;
        }
        j := j + 1;
      }
      CellDone(possibilities[..], g, i, count, last);
      if count == 0 { return false; }
      if count > 1 {
        grid[i] := value;
        assert grid[..] == g;
      } else {
        TriedLast(possibilities[..], g, i, count, last);
        grid[i] := last;
        assert grid[..] == g[i := last];
      }
      i := i + 1;
    }
    PassEnd(possibilities[..], grid[..]);
    return true;
  }

  lemma SlotBound(i: nat, j: nat)
    requires i < 81 && 1 <= j <= 9
    ensures Slot(i, j) < 810
  {
  }

  lemma PassStart(table: seq<nat>, g: Grid)
    requires |table| == 810 && forall k :: 0 <= k < 810 ==> table[k] == 0
    ensures CoversBefore(table, g, 0)
  {
  }

  lemma SkipFilled(table: seq<nat>, g: Grid, i: nat)
    requires i < 81 && g[i] != 0 && CoversBefore(table, g, i)
    ensures CoversBefore(table, g, i + 1)
  {
    hide IsCompletion;
  }

  lemma TriedLast(table: seq<nat>, g: Grid, i: nat, count: nat, last: nat)
    requires i < 81 && count > 0 && Tried(table, g, i, 10, count, last)
    ensures 1 <= last <= 9
  {
  }

  lemma PassEnd(table: seq<nat>, g: Grid)
    requires CoversBefore(table, g, 81)
    ensures Covers(table, g)
  {
    hide IsCompletion;
  }

  /** `main`: the two passes, for any grid of digits. A completable grid is always solved, with its
      lexicographically least completion; otherwise the program returns or an assertion fails. */
  method Solve(grid: array<nat>) returns (outcome: Outcome)
    requires grid.Length == 81 && IsGrid(grid[..])
    modifies grid
    ensures outcome.Found? <==> Completable(old(grid[..]))
    ensures outcome.Found? ==> Least(outcome.grid, old(grid[..]))
  {
    ghost var start: Grid := grid[..];
    var possibilities := new nat[810](_ => 0);
    var passed := FirstPass(grid, possibilities);
    if !passed { return AssertionFailed; }
    outcome := GridSolve(grid, possibilities, 0);
    OutcomeForStart(outcome, start, grid[..]);
  }

  lemma OutcomeForStart(outcome: Outcome, start: Grid, g: Grid)
    requires SameCompletions(g, start)
    requires outcome.Found? ==> Least(outcome.grid, g)
    requires outcome.Returned? ==> !Completable(g)
    requires outcome.AssertionFailed? ==> !Consistent(g)
    ensures outcome.Found? <==> Completable(start)
    ensures outcome.Found? ==> Least(outcome.grid, start)
  {
    if Completable(start) {
      var s: Grid :| IsCompletion(s, start);
      assert IsCompletion(s, g);
      CompletableIsConsistent(g);
    }
  }

  /** The least completion is unique, so the contract of `Solve` fixes its result. */
  lemma LeastIsUnique(a: Grid, b: Grid, g: Grid)
    requires Least(a, g) && Least(b, g)
    ensures a == b
  {
    assert LexLeq(a, b) && LexLeq(b, a);
  }
}
