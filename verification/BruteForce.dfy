/** sudoku-solver/brute_force.c: units checked by a product of primes, candidates
    enumerated by an odometer over the empty cells. */
module BruteForce {
  import opened Arithmetic
  import opened MachineInts
  import opened SudokuUnits
  import Constraints

  const PRIMES: seq<nat> := [1, 2, 3, 5, 7, 11, 13, 17, 19, 23]
  const FILLED := 2 * 3 * 5 * 7 * 11 * 13 * 17 * 19 * 23

  // ---- the product of a unit

  ghost predicate Digits(v: seq<nat>) { forall i :: 0 <= i < |v| ==> v[i] <= 9 }

  function Product(v: seq<nat>): nat
    requires forall i :: 0 <= i < |v| ==> v[i] <= 9
  {
    if v == [] then 1 else Product(v[..|v| - 1]) * PRIMES[v[|v| - 1]]
  }

  lemma ProductSnoc(v: seq<nat>, x: nat)
    requires Digits(v) && x <= 9
    ensures Product(v + [x]) == Product(v) * PRIMES[x]
  {
    assert (v + [x])[..|v|] == v;
  }

  function Pow23(k: nat): nat { if k == 0 then 1 else 23 * Pow23(k - 1) }

  /** The running product stays positive and, for nine cells, far below 2^64. */
  lemma {:induction false} ProductBounds(v: seq<nat>)
    requires Digits(v)
    ensures 1 <= Product(v) <= Pow23(|v|)
  {
    if v != [] {
      ProductBounds(v[..|v| - 1]);
      MulBound(Product(v[..|v| - 1]), PRIMES[v[|v| - 1]], Pow23(|v| - 1));
    }
  }

  lemma MulBound(x: nat, q: nat, bound: nat)
    requires 1 <= x <= bound && 1 <= q <= 23
    ensures 1 <= x * q <= 23 * bound
  {
  }

  lemma NinePowers(k: nat)
    requires k <= 9
    ensures Pow23(k) < TWO_64
  {
    assert Pow23(9) == 1801152661463;
    assert Pow23(0) <= Pow23(1) <= Pow23(2) <= Pow23(3) <= Pow23(4);
    assert Pow23(4) <= Pow23(5) <= Pow23(6) <= Pow23(7) <= Pow23(8) <= Pow23(9);
  }

  // ---- unique factorisation, for the nine primes

  /** Row `d - 1` holds, for each prime of the table, its inverse modulo the prime of digit `d`. */
  const INVERSES: seq<seq<nat>> := [
      [1, 0, 1, 1, 1, 1, 1, 1, 1, 1],
      [1, 2, 0, 2, 1, 2, 1, 2, 1, 2],
      [1, 3, 2, 0, 3, 1, 2, 3, 4, 2],
      [1, 4, 5, 3, 0, 2, 6, 5, 3, 4],
      [1, 6, 4, 9, 8, 0, 6, 2, 7, 1],
      [1, 7, 9, 8, 2, 6, 0, 10, 11, 4],
      [1, 9, 6, 7, 5, 14, 4, 0, 9, 3],
      [1, 10, 13, 4, 11, 7, 3, 9, 0, 5],
      [1, 12, 8, 14, 10, 21, 16, 19, 17, 0]]

  lemma InverseOf(d: nat, j: nat)
    requires 1 <= d <= 9 && j <= 9 && j != d
    ensures |INVERSES| == 9 && |INVERSES[d - 1]| == 10
    ensures (PRIMES[j] * INVERSES[d - 1][j]) % PRIMES[d] == 1
  {
  }

  /** A factor with an inverse cannot bring in a divisor `p`. */
  lemma CancelFactor(x: nat, q: nat, p: nat, u: nat)
    requires p > 1 && (q * u) % p == 1 && (x * q) % p == 0
    ensures x % p == 0
  {
    var a, b := x * q / p, q * u / p;
    Quotient(x * q, p);
    Quotient(q * u, p);
    assert p * (a * u) == x * q * u by { MulAssoc(p, a, u); }
    assert x * q * u == x * (p * b + 1) by { MulAssoc(x, q, u); }
    assert x * (p * b + 1) == p * (x * b) + x by { MulAssoc(x, p, b); MulAssoc(p, x, b); }
    assert x == p * (a * u - x * b) by { MulSub(p, a * u, x * b); }
    MultipleMod(p, a * u - x * b);
  }

  /** Multiplying by another prime of the table keeps a number free of the factor of digit `d`. */
  lemma FactorFree(x: nat, j: nat, d: nat)
    requires j <= 9 && 1 <= d <= 9 && j != d && x % PRIMES[d] != 0
    ensures (x * PRIMES[j]) % PRIMES[d] != 0
  {
    InverseOf(d, j);
    if (x * PRIMES[j]) % PRIMES[d] == 0 {
      CancelFactor(x, PRIMES[j], PRIMES[d], INVERSES[d - 1][j]);
    }
  }

  lemma {:induction false} MissingDigit(v: seq<nat>, d: nat)
    requires Digits(v) && 1 <= d <= 9 && Count(v, d) == 0
    ensures Product(v) % PRIMES[d] != 0
  {
    if v == [] {
      assert PRIMES[d] >= 2;
    } else {
      MissingDigit(v[..|v| - 1], d);
      FactorFree(Product(v[..|v| - 1]), v[|v| - 1], d);
    }
  }

  /** How many of the digits 0 to `n` the values hold. */
  function CountUpTo(v: seq<nat>, n: nat): nat {
    Count(v, n) + (if n == 0 then 0 else CountUpTo(v, n - 1))
  }

  lemma {:induction false} CountUpToSnoc(v: seq<nat>, x: nat, n: nat)
    ensures CountUpTo(v + [x], n) == CountUpTo(v, n) + (if x <= n then 1 else 0)
  {
    CountMore(v, x);
    if n > 0 { CountUpToSnoc(v, x, n - 1); }
  }

  lemma {:induction false} CountsAddUp(v: seq<nat>)
    requires Digits(v)
    ensures CountUpTo(v, 9) == |v|
  {
    if v == [] {
      NothingCounted(9);
    } else {
      CountsAddUp(v[..|v| - 1]);
      assert v == v[..|v| - 1] + [v[|v| - 1]];
      CountUpToSnoc(v[..|v| - 1], v[|v| - 1], 9);
    }
  }

  lemma {:induction false} NothingCounted(n: nat)
    ensures CountUpTo([], n) == 0
  {
    if n > 0 { NothingCounted(n - 1); }
  }

  /** The product of the primes of digits 1 to `n`, each to the power of its count. */
  function PrimePowers(v: seq<nat>, n: nat): nat
    requires n <= 9
  {
    if n == 0 then 1 else Power(PRIMES[n], Count(v, n)) * PrimePowers(v, n - 1)
  }

  function Power(p: nat, k: nat): nat { if k == 0 then 1 else p * Power(p, k - 1) }

  lemma {:induction false} PrimePowersSnoc(v: seq<nat>, x: nat, n: nat)
    requires x <= 9 && n <= 9
    ensures PrimePowers(v + [x], n) == PrimePowers(v, n) * (if 1 <= x <= n then PRIMES[x] else 1)
  {
    if n > 0 {
      PrimePowersSnoc(v, x, n - 1);
      CountMore(v, x);
      Regroup(Power(PRIMES[n], Count(v, n)), PrimePowers(v, n - 1), PRIMES[x]);
    }
  }

  lemma Regroup(a: nat, b: nat, q: nat)
    ensures (q * a) * b == (a * b) * q && a * (b * q) == (a * b) * q
  {
  }

  /** The product only depends on how often each digit occurs. */
  lemma {:induction false} ProductIsPrimePowers(v: seq<nat>)
    requires Digits(v)
    ensures Product(v) == PrimePowers(v, 9)
  {
    if v == [] {
      NoPowers(9);
    } else {
      ProductIsPrimePowers(v[..|v| - 1]);
      assert v == v[..|v| - 1] + [v[|v| - 1]];
      PrimePowersSnoc(v[..|v| - 1], v[|v| - 1], 9);
    }
  }

  lemma {:induction false} NoPowers(n: nat)
    requires n <= 9
    ensures PrimePowers([], n) == 1
  {
    if n > 0 { NoPowers(n - 1); }
  }

  /** The counts of a unit that holds each digit once. */
  ghost predicate EachOnce(v: seq<nat>) {
    Count(v, 0) == 0 && forall d :: 1 <= d <= 9 ==> Count(v, d) == 1
  }

  lemma CompleteIsEachOnce(v: seq<nat>)
    requires Digits(v) && |v| == 9
    ensures Complete(v) <==> EachOnce(v)
  {
    CountZero(v, 0);
    CountsAddUp(v);
    if Complete(v) {
      forall d | 1 <= d <= 9 ensures Count(v, d) <= 1 { CountTwice(v, d); }
      UpToNine(v);
    }
    if EachOnce(v) { NoneTwice(v); }
  }

  lemma UpToNine(v: seq<nat>)
    ensures CountUpTo(v, 9) == Count(v, 0) + Count(v, 1) + Count(v, 2) + Count(v, 3) + Count(v, 4)
      + Count(v, 5) + Count(v, 6) + Count(v, 7) + Count(v, 8) + Count(v, 9)
  {
    hide Count;
    assert CountUpTo(v, 1) == Count(v, 0) + Count(v, 1);
    assert CountUpTo(v, 2) == CountUpTo(v, 1) + Count(v, 2);
    assert CountUpTo(v, 3) == CountUpTo(v, 2) + Count(v, 3);
    assert CountUpTo(v, 4) == CountUpTo(v, 3) + Count(v, 4);
    assert CountUpTo(v, 5) == CountUpTo(v, 4) + Count(v, 5);
    assert CountUpTo(v, 6) == CountUpTo(v, 5) + Count(v, 6);
    assert CountUpTo(v, 7) == CountUpTo(v, 6) + Count(v, 7);
    assert CountUpTo(v, 8) == CountUpTo(v, 7) + Count(v, 8);
    assert CountUpTo(v, 9) == CountUpTo(v, 8) + Count(v, 9);
  }

  lemma EachOnceProduct(v: seq<nat>)
    requires EachOnce(v)
    ensures PrimePowers(v, 9) == FILLED
  {
    hide Count;
    assert PrimePowers(v, 1) == 2;
    assert PrimePowers(v, 2) == 6;
    assert PrimePowers(v, 3) == 30;
    assert PrimePowers(v, 4) == 210;
    assert PrimePowers(v, 5) == 2310;
    assert PrimePowers(v, 6) == 30030;
    assert PrimePowers(v, 7) == 510510;
    assert PrimePowers(v, 8) == 9699690;
    assert PrimePowers(v, 9) == 223092870;
  }

  /** Unique factorisation: the product of nine values is the product of the first nine primes
      exactly when each digit occurs once. */
  lemma ProductDecides(v: seq<nat>)
    requires Digits(v) && |v| == 9
    ensures Product(v) == FILLED <==> Complete(v)
  {
    CompleteIsEachOnce(v);
    if EachOnce(v) {
      EachOnceProduct(v);
      ProductIsPrimePowers(v);
    }
    if Product(v) == FILLED {
      hide Product, Count;
      forall d | 1 <= d <= 9 ensures Count(v, d) >= 1 {
        FilledDivides(d);
        if Count(v, d) == 0 { MissingDigit(v, d); }
      }
      CountsAddUp(v);
      UpToNine(v);
    }
  }

  /** The product check and the counting check of constraints.c agree on every unit. */
  lemma ChecksAgree(v: seq<nat>)
    requires Digits(v) && |v| == 9
    ensures Product(v) == FILLED <==> Constraints.Verdict(v) == Constraints.VALID
  {
    ProductDecides(v);
  }

  lemma FilledDivides(d: nat)
    requires 1 <= d <= 9
    ensures FILLED % PRIMES[d] == 0
  {
  }

  // ---- the unit checks

  /** `id *= prime` in 64-bit arithmetic. */
  method Times(id: uint64, value: nat, ghost v: seq<nat>) returns (id': uint64)
    requires Digits(v) && |v| < 9 && value <= 9 && id == Product(v)
    ensures id' == Product(v + [value]) && id' > 0
  {
    ProductSnoc(v, value);
    ProductBounds(v + [value]);
    NinePowers(|v| + 1);
    id' := Wrap64(id * PRIMES[value]);
  }

  /** is_row_valid. */
  method IsRowValid(grid: array<nat>, row: nat) returns (valid: bool)
    requires grid.Length == 81 && IsGrid(grid[..]) && row < 9
    ensures valid <==> Complete(Values(grid[..], Row(row)))
  {
    UnitDigits(grid[..], Row(row));
    ghost var v := Values(grid[..], Row(row));
    hide Product, Complete, Values;
    var id: uint64 := 1;
    EmptyProduct(v);
    for k := row * 9 to row * 9 + 9
      invariant id == Product(v[..k - row * 9])
    {
      ghost var n := k - row * 9;
      assert v[..n + 1] == v[..n] + [v[n]];
      assert v[n] == grid[..][Cell(Row(row), n)];
      id := Times(id, grid[k], v[..n]);
    }
    assert v[..9] == v;
    ProductDecides(v);
    return id == FILLED;
  }

  /** is_column_valid. */
  method IsColumnValid(grid: array<nat>, column: nat) returns (valid: bool)
    requires grid.Length == 81 && IsGrid(grid[..]) && column < 9
    ensures valid <==> Complete(Values(grid[..], Column(column)))
  {
    UnitDigits(grid[..], Column(column));
    ghost var v := Values(grid[..], Column(column));
    hide Product, Complete, Values;
    var id: uint64 := 1;
    EmptyProduct(v);
    var k := column;
    ghost var n := 0;
    while k < 81
      invariant n <= 9 && k == column + 9 * n
      invariant id == Product(v[..n])
    {
      assert v[..n + 1] == v[..n] + [v[n]];
      assert v[n] == grid[..][Cell(Column(column), n)];
      id := Times(id, grid[k], v[..n]);
      k := k + 9;
      n := n + 1;
    }
    assert v[..9] == v;
    ProductDecides(v);
    return id == FILLED;
  }

  /** The two loops of is_block_valid. */
  method BlockProduct(grid: array<nat>, startI: nat, startJ: nat, ghost v: seq<nat>) returns (id: uint64)
    requires grid.Length == 81 && startI <= 6 && startJ <= 6 && |v| == 9 && Digits(v)
    requires forall i, j :: BlockCellIs(grid[..], startI, startJ, v, i, j)
    ensures id == Product(v)
  {
    hide Product;
    id := 1;
    EmptyProduct(v);
    for i := 0 to 3
      invariant id == Product(v[..3 * i])
    {
      for j := 0 to 3
        invariant id == Product(v[..3 * i + j])
      {
        assert BlockCellIs(grid[..], startI, startJ, v, i, j);
        assert v[..3 * i + j + 1] == v[..3 * i + j] + [v[3 * i + j]];
        id := Times(id, grid[(startI + i) * 9 + (startJ + j)], v[..3 * i + j]);
      }
    }
    assert v[..9] == v;
  }

  /** is_block_valid. */
  method IsBlockValid(grid: array<nat>, block: nat) returns (valid: bool)
    requires grid.Length == 81 && IsGrid(grid[..]) && block < 9
    ensures valid <==> Complete(Values(grid[..], Block(block)))
  {
    UnitDigits(grid[..], Block(block));
    ghost var v := Values(grid[..], Block(block));
    hide Product, Complete, Values, Cell;
    var position := block / 3 * 3 * 9 + (block % 3) * 3;
    BlockStart(block);
    var startI, startJ := position / 9, position % 9;
    BlockCells(grid[..], block);
    var id := BlockProduct(grid, startI, startJ, v);
    ProductDecides(v);
    return id == FILLED;
  }

  lemma EmptyProduct(v: seq<nat>)
    ensures Product(v[..0]) == 1
  {
  }

  /** is_grid_valid. */
  method IsGridValid(grid: array<nat>) returns (valid: bool)
    requires grid.Length == 81 && IsGrid(grid[..])
    ensures valid <==> Solved(grid[..])
  {
    ghost var g: Grid := grid[..];
    CompleteIsSolved(g);
    UnitsStart(g);
    hide *;
    for r := 0 to 9
      invariant UnitsComplete(g, r)
    {
      UnitsStep(g, r);
      var x := IsRowValid(grid, r);
      if !x { return false; }
    }
    for c := 0 to 9
      invariant UnitsComplete(g, 9 + c)
    {
      UnitsStep(g, 9 + c);
      var x := IsColumnValid(grid, c);
      if !x { return false; }
    }
    for b := 0 to 9
      invariant UnitsComplete(g, 18 + b)
    {
      UnitsStep(g, 18 + b);
      var x := IsBlockValid(grid, b);
      if !x { return false; }
    }
    return true;
  }

  /** The first `n` units, in the order the check visits them, hold each digit once. */
  ghost predicate UnitsComplete(g: Grid, n: nat) {
    && (forall k :: 0 <= k < 9 && k < n ==> Complete(Values(g, Row(k))))
    && (forall k :: 0 <= k < 9 && 9 + k < n ==> Complete(Values(g, Column(k))))
    && (forall k :: 0 <= k < 9 && 18 + k < n ==> Complete(Values(g, Block(k))))
  }

  lemma UnitsStart(g: Grid)
    ensures UnitsComplete(g, 0) && (UnitsComplete(g, 27) <==> AllComplete(g))
  {
    hide Complete, Values;
  }

  lemma UnitsStep(g: Grid, n: nat)
    requires n < 27 && UnitsComplete(g, n)
    ensures var unit := if n < 9 then Row(n) else if n < 18 then Column(n - 9) else Block(n - 18);
      && (Complete(Values(g, unit)) ==> UnitsComplete(g, n + 1))
      && (!Complete(Values(g, unit)) ==> !AllComplete(g))
  {
    hide Complete, Values;
  }

  // ---- the odometer

  /** The solution vector after one increment: the last non-zero cell turns, 9 wraps to 1 and carries. */
  function Next(v: seq<nat>): (w: seq<nat>)
    ensures |w| == |v|
  {
    if v == [] then []
    else
      var init, last := v[..|v| - 1], v[|v| - 1];
      if last == 0 then Next(init) + [0]
      else if last != 9 then init + [last + 1]
      else Next(init) + [1]
  }

  /** increment_solution_vector on the first `size` cells. */
  method IncrementSolutionVector(solution: array<nat>, size: nat)
    requires size <= solution.Length && Digits(solution[..])
    modifies solution
    ensures solution[..] == Next(old(solution[..size])) + old(solution[size..])
    decreases size
  {
    if size == 0 { return; }
    ghost var v, rest := solution[..size], solution[size..];
    assert v[..size - 1] == solution[..size - 1];
    var value := solution[size - 1];
    if value == 0 {
      IncrementSolutionVector(solution, size - 1);
      return;
    }
    if value != 9 {
      solution[size - 1] := value + 1;
      return;
    }
    solution[size - 1] := 1;
    assert solution[..size - 1] == v[..size - 1] && solution[size - 1..] == [1] + rest;
    IncrementSolutionVector(solution, size - 1);
  }

  /** The cells that count, as a base-9 number. */
  function Reading(v: seq<nat>): int {
    if v == [] then 0
    else
      var init, last := v[..|v| - 1], v[|v| - 1];
      if last == 0 then Reading(init) else 9 * Reading(init) + last - 1
  }

  function NonZero(v: seq<nat>): nat {
    if v == [] then 0 else NonZero(v[..|v| - 1]) + (if v[|v| - 1] == 0 then 0 else 1)
  }

  function Pow9(k: nat): (p: nat)
    ensures p > 0
  {
    if k == 0 then 1 else 9 * Pow9(k - 1)
  }

  /** The same cells are zero. */
  ghost predicate SamePattern(v: seq<nat>, w: seq<nat>) {
    |v| == |w| && forall i :: 0 <= i < |v| ==> (v[i] == 0 <==> w[i] == 0)
  }

  lemma {:induction false} ReadingRange(v: seq<nat>)
    requires Digits(v)
    ensures 0 <= Reading(v) < Pow9(NonZero(v))
  {
    if v != [] { ReadingRange(v[..|v| - 1]); }
  }

  lemma {:induction false} NextKeepsCells(v: seq<nat>)
    requires Digits(v)
    ensures Digits(Next(v)) && SamePattern(v, Next(v))
  {
    if v != [] { NextKeepsCells(v[..|v| - 1]); }
  }

  /** One turn of the odometer, without division. */
  lemma {:induction false} NextTurns(v: seq<nat>)
    requires Digits(v)
    ensures Digits(Next(v)) && SamePattern(v, Next(v)) && NonZero(Next(v)) == NonZero(v)
    ensures Reading(Next(v)) == if Reading(v) + 1 == Pow9(NonZero(v)) then 0 else Reading(v) + 1
  {
    NextKeepsCells(v);
    PatternCount(v, Next(v));
    hide SamePattern;
    if v != [] {
      var init, last := v[..|v| - 1], v[|v| - 1];
      assert Digits(init);
      NextTurns(init);
      ReadingRange(init);
      hide Digits;
      if last == 0 || last == 9 {
        LastOf(Next(v), Next(init), if last == 0 then 0 else 1);
      } else {
        LastOf(Next(v), init, last + 1);
      }
    }
  }

  lemma LastOf(v: seq<nat>, init: seq<nat>, last: nat)
    requires v == init + [last]
    ensures v != [] && v[..|v| - 1] == init && v[|v| - 1] == last
  {
  }

  /** An increment adds one modulo 9^k and leaves the zero cells alone. */
  lemma NextAddsOne(v: seq<nat>)
    requires Digits(v)
    ensures SamePattern(v, Next(v)) && NonZero(Next(v)) == NonZero(v)
    ensures Reading(Next(v)) == (Reading(v) + 1) % Pow9(NonZero(v))
  {
    hide Reading, NonZero, Pow9, Next, SamePattern;
    assert Nth(v, 1) == Next(Nth(v, 0)) == Next(v);
    var q := NthSum(v, 1);
    ReadingRange(Next(v));
    MulAssoc(q, Pow9(NonZero(v)), 1);
    Euclid(Reading(v) + 1, Pow9(NonZero(v)), q, Reading(Next(v)));
  }

  /** Vectors with the same zero cells are told apart by their readings. */
  lemma {:induction false} ReadingInjective(v: seq<nat>, w: seq<nat>)
    requires Digits(v) && Digits(w) && SamePattern(v, w) && Reading(v) == Reading(w)
    ensures v == w
  {
    if v != [] {
      var n := |v| - 1;
      ReadingInjective(v[..n], w[..n]) by {
        if v[n] != 0 { DigitUnique(Reading(v[..n]), v[n] - 1, Reading(w[..n]), w[n] - 1); }
      }
      assert v == v[..n] + [v[n]] && w == w[..n] + [w[n]];
    }
  }

  lemma DigitUnique(x: int, a: int, y: int, b: int)
    requires 0 <= a < 9 && 0 <= b < 9 && 9 * x + a == 9 * y + b
    ensures x == y && a == b
  {
  }

  function Nth(v: seq<nat>, r: nat): seq<nat> {
    if r == 0 then v else Next(Nth(v, r - 1))
  }

  lemma {:induction false} NthSum(v: seq<nat>, r: nat) returns (q: nat)
    requires Digits(v)
    ensures Digits(Nth(v, r)) && SamePattern(v, Nth(v, r)) && NonZero(Nth(v, r)) == NonZero(v)
    ensures Reading(v) + r == q * Pow9(NonZero(v)) + Reading(Nth(v, r))
  {
    if r == 0 { return 0; }
    q := NthSum(v, r - 1);
    var w, m := Nth(v, r - 1), Pow9(NonZero(v));
    NextTurns(w);
    if Reading(w) + 1 == m {
      assert (q + 1) * m == q * m + m;
      q := q + 1;
    }
  }

  /** After `r` increments the reading has advanced by `r` modulo 9^k. */
  lemma NthReading(v: seq<nat>, r: nat)
    requires Digits(v)
    ensures Digits(Nth(v, r)) && SamePattern(v, Nth(v, r)) && NonZero(Nth(v, r)) == NonZero(v)
    ensures Reading(Nth(v, r)) == (Reading(v) + r) % Pow9(NonZero(v))
  {
    var q := NthSum(v, r);
    ReadingRange(v);
    ReadingRange(Nth(v, r));
    MulAssoc(q, Pow9(NonZero(v)), 1);
    Euclid(Reading(v) + r, Pow9(NonZero(v)), q, Reading(Nth(v, r)));
  }

  /** Every assignment of 1..9 to the non-zero cells comes up exactly once in 9^k rounds. */
  lemma EachAssignmentOnce(v: seq<nat>, a: seq<nat>) returns (r: nat)
    requires Digits(v) && Digits(a) && SamePattern(v, a)
    ensures 1 <= r <= Pow9(NonZero(v)) && Nth(v, r) == a
    ensures forall r' :: 1 <= r' <= Pow9(NonZero(v)) && Nth(v, r') == a ==> r' == r
  {
    r := ReachedAt(v, a);
    hide Reading, NonZero, Pow9, Digits, SamePattern, Nth;
    forall r': nat | 1 <= r' <= Pow9(NonZero(v)) && Nth(v, r') == a ensures r' == r { SameRound(v, r', r); }
  }

  lemma ReachedAt(v: seq<nat>, a: seq<nat>) returns (r: nat)
    requires Digits(v) && Digits(a) && SamePattern(v, a)
    ensures 1 <= r <= Pow9(NonZero(v)) && Nth(v, r) == a
  {
    var m := Pow9(NonZero(v));
    PatternCount(v, a);
    ReadingRange(v);
    ReadingRange(a);
    var turns := if Reading(a) > Reading(v) then 0 else 1;
    r := Reading(a) - Reading(v) + turns * m;
    var q := NthSum(v, r);
    ReadingRange(Nth(v, r));
    PatternSymmetric(v, Nth(v, r), a);
    hide Reading, NonZero, Pow9, Digits, SamePattern, Nth;
    SameRemainder(m, turns, Reading(a), q, Reading(Nth(v, r)));
    ReadingInjective(Nth(v, r), a);
  }

  lemma SameRemainder(m: nat, q: int, y: int, q': int, y': int)
    requires 0 <= y < m && 0 <= y' < m && q * m + y == q' * m + y'
    ensures y == y'
  {
    assert m * (q - q') == y' - y by { MulSub(m, q, q'); }
    if q > q' { MulAtLeast(m, q - q'); }
    if q < q' { MulAtLeast(m, q' - q); MulSub(m, q', q); }
  }

  lemma SameRound(v: seq<nat>, r: nat, r': nat)
    requires Digits(v) && 1 <= r <= Pow9(NonZero(v)) && 1 <= r' <= Pow9(NonZero(v))
    requires Nth(v, r) == Nth(v, r')
    ensures r == r'
  {
    hide Reading, NonZero, Pow9, Nth;
    var m := Pow9(NonZero(v));
    var q := NthSum(v, r);
    var q' := NthSum(v, r');
    SamePeriod(Reading(v), Reading(Nth(v, r)), m, r, q, r', q');
  }

  lemma SamePeriod(x: int, y: int, m: nat, r: nat, q: nat, r': nat, q': nat)
    requires 1 <= r <= m && 1 <= r' <= m
    requires x + r == q * m + y && x + r' == q' * m + y
    ensures r == r'
  {
    assert m * (q - q') == r - r' by { MulSub(m, q, q'); }
    if q > q' { MulAtLeast(m, q - q'); }
    if q < q' { MulAtLeast(m, q' - q); MulSub(m, q', q); }
  }

  lemma {:induction false} PatternCount(v: seq<nat>, w: seq<nat>)
    requires SamePattern(v, w)
    ensures NonZero(v) == NonZero(w)
  {
    if v != [] { PatternCount(v[..|v| - 1], w[..|w| - 1]); }
  }

  lemma PatternSymmetric(v: seq<nat>, w: seq<nat>, a: seq<nat>)
    requires SamePattern(v, w) && SamePattern(v, a)
    ensures SamePattern(w, a)
  {
  }

  // ---- the search loop

  /** merge_grids, as a value. */
  function Merge(dst: seq<nat>, src: seq<nat>): (g: seq<nat>)
    requires |dst| == |src|
    ensures |g| == |dst|
    ensures forall i :: 0 <= i < |dst| ==> g[i] == if src[i] != 0 then src[i] else dst[i]
  {
    seq(|dst|, i requires 0 <= i < |dst| => if src[i] != 0 then src[i] else dst[i])
  }

  /** merge_grids. */
  method MergeGrids(dst: array<nat>, src: array<nat>)
    requires dst.Length == 81 && src.Length == 81 && dst != src
    modifies dst
    ensures dst[..] == Merge(old(dst[..]), src[..])
  {
    for i := 0 to 81
      invariant dst[i..] == old(dst[i..])
      invariant forall k :: 0 <= k < i ==> dst[k] == if src[k] != 0 then src[k] else old(dst[k])
    {
      if src[i] != 0 {
        dst[i] := src[i];
      }
    }
  }

  /** 1 in every empty cell of `g`, 0 elsewhere. */
  function Start(g: seq<nat>): (v: seq<nat>)
    ensures |v| == |g|
    ensures forall i :: 0 <= i < |g| ==> v[i] == if g[i] == 0 then 1 else 0
  {
    seq(|g|, i requires 0 <= i < |g| => if g[i] == 0 then 1 else 0)
  }

  /** The grid tested in round `r`. */
  function Tested(g: Grid, r: nat): (h: Grid)
  {
    StartFits(g, r);
    Merge(g, Nth(Start(g), r))
  }

  lemma StartFits(g: Grid, r: nat)
    ensures Digits(Start(g)) && Digits(Nth(Start(g), r)) && |Nth(Start(g), r)| == 81
    ensures SamePattern(Start(g), Nth(Start(g), r))
  {
    NthReading(Start(g), r);
  }

  /** `main`, cut off after `rounds` turns of its endless loop. */
  method Search(grid: array<nat>, rounds: nat) returns (found: bool, round: nat)
    requires grid.Length == 81 && IsGrid(grid[..])
    modifies grid
    ensures found ==> 1 <= round <= rounds && grid[..] == Tested(old(grid[..]), round) && Solved(grid[..])
    ensures forall r :: 1 <= r <= rounds && (found ==> r < round) ==> !Solved(Tested(old(grid[..]), r))
  {
    hide Solved, Nth;
    ghost var g: Grid := grid[..];
    var solution := new nat[81](_ => 0);
    for i := 0 to 81
      invariant grid[..] == g
      invariant forall k :: 0 <= k < i ==> solution[k] == if g[k] == 0 then 1 else 0
      invariant forall k :: i <= k < 81 ==> solution[k] == 0
    {
      if grid[i] == 0 { solution[i] := 1; }
    }
    assert solution[..] == Start(g);
    NthZero(Start(g));
    round := 0;
    while round < rounds
      invariant round <= rounds && IsGrid(grid[..])
      invariant solution[..] == Nth(Start(g), round)
      invariant Merge(grid[..], Nth(Start(g), round)) == Merge(g, Nth(Start(g), round))
      invariant round > 0 ==> grid[..] == Tested(g, round)
      invariant forall r :: 1 <= r <= round ==> !Solved(Tested(g, r))
      decreases rounds - round
    {
      StartFits(g, round);
      StartFits(g, round + 1);
      assert solution[..81] == solution[..];
      IncrementSolutionVector(solution, 81);
      NthNext(Start(g), round);
      MergeAgain(g, grid[..], Nth(Start(g), round), solution[..]);
      MergeGrids(grid, solution);
      round := round + 1;
      var valid := IsGridValid(grid);
      if valid { return true, round; }
    }
    return false, round;
  }

  lemma NthZero(v: seq<nat>) ensures Nth(v, 0) == v {}

  lemma NthNext(v: seq<nat>, r: nat) ensures Nth(v, r + 1) == Next(Nth(v, r)) {}

  /** Merging replaces the previous round's values and nothing else. */
  lemma MergeAgain(g: seq<nat>, h: seq<nat>, v: seq<nat>, w: seq<nat>)
    requires |g| == |h| == |v| && SamePattern(v, w) && Merge(h, v) == Merge(g, v)
    ensures Merge(h, w) == Merge(g, w) && Merge(Merge(h, w), w) == Merge(g, w)
  {
    forall i | 0 <= i < |g| ensures Merge(h, w)[i] == Merge(g, w)[i] {
      assert Merge(h, v)[i] == Merge(g, v)[i];
    }
  }

  /** Givens are never altered, in any round. */
  lemma GivensStay(g: Grid, r: nat)
    ensures Within(g, Tested(g, r))
  {
    StartFits(g, r);
  }

  /** The loop stops exactly when a completion exists, and then within 9^k rounds for k empty cells. */
  lemma StopsExactly(g: Grid)
    ensures Constraints.Completable(g)
       <==> exists r: nat :: 1 <= r <= Pow9(NonZero(Start(g))) && Solved(Tested(g, r))
    ensures (exists r: nat :: Solved(Tested(g, r))) ==> Constraints.Completable(g)
  {
    hide Solved;
    if s: Grid :| IsCompletion(s, g) {
      var r := RoundOf(g, s);
    }
    forall r: nat | Solved(Tested(g, r)) ensures IsCompletion(Tested(g, r), g) {
      GivensStay(g, r);
    }
  }

  /** The one round within 9^k that tests a given completion. */
  lemma RoundOf(g: Grid, s: Grid) returns (r: nat)
    requires IsCompletion(s, g)
    ensures 1 <= r <= Pow9(NonZero(Start(g))) && Tested(g, r) == s
  {
    var a := seq(81, i requires 0 <= i < 81 => if g[i] == 0 then s[i] else 0);
    StartFits(g, 0);
    r := EachAssignmentOnce(Start(g), a);
    assert Merge(g, a) == s;
  }
}
