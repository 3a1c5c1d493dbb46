/** The rules of sudoku on a 9x9 grid stored row by row, 0 marking an empty cell. */
module SudokuUnits {
  predicate IsGrid(g: seq<nat>) { |g| == 81 && forall i :: 0 <= i < 81 ==> g[i] <= 9 }

  type Grid = g: seq<nat> | IsGrid(g) witness seq(81, _ => 0)

  datatype Unit = Row(n: nat) | Column(n: nat) | Block(n: nat)

  /** The position of the `k`th cell of a unit. */
  function Cell(u: Unit, k: nat): nat {
    match u
    case Row(n) => n * 9 + k
    case Column(n) => n + k * 9
    case Block(n) => (n / 3 * 3 + k / 3) * 9 + (n % 3 * 3 + k % 3)
  }

  /** The values a unit holds. */
  function Values(g: seq<nat>, u: Unit): seq<nat>
    requires |g| == 81 && u.n < 9
  {
    seq(9, k requires 0 <= k < 9 => g[Cell(u, k)])
  }

  /** No digit occurs twice. */
  ghost predicate NoRepeat(v: seq<nat>) {
    forall i, j :: 0 <= i < j < |v| && v[i] == v[j] ==> v[i] == 0
  }

  /** Each digit exactly once: nine cells, no repetition, no empty cell. */
  ghost predicate Complete(v: seq<nat>) {
    NoRepeat(v) && 0 !in v
  }

  ghost predicate UnitFine(g: Grid, u: Unit)
    requires u.n < 9
  {
    NoRepeat(Values(g, u))
  }

  ghost predicate Consistent(g: Grid) {
    forall u: Unit :: u.n < 9 ==> UnitFine(g, u)
  }

  ghost predicate Solved(g: Grid) {
    Consistent(g) && forall i :: 0 <= i < 81 ==> g[i] != 0
  }

  /** `g` agrees with `s` wherever `g` is filled in. */
  ghost predicate Within(g: Grid, s: Grid) {
    forall i :: 0 <= i < 81 && g[i] != 0 ==> s[i] == g[i]
  }

  ghost predicate IsCompletion(s: Grid, g: Grid) {
    Solved(s) && Within(g, s)
  }

  // ---- cells and their units

  function BlockOf(i: nat): nat { i / 9 / 3 * 3 + i % 9 / 3 }

  predicate Contains(u: Unit, i: nat) {
    match u
    case Row(n) => n == i / 9
    case Column(n) => n == i % 9
    case Block(n) => n == BlockOf(i)
  }

  lemma CellContained(u: Unit, k: nat)
    requires u.n < 9 && k < 9
    ensures Cell(u, k) < 81 && Contains(u, Cell(u, k))
  {
    hide BlockOf;
    match u
    case Row(n) => assert (n * 9 + k) / 9 == n;
    case Column(n) => assert (n + k * 9) % 9 == n;
    case Block(n) =>
      BlockCell(n / 3, n % 3, k / 3, k % 3);
      assert n / 3 * 3 + n % 3 == n;
  }

  lemma BlockCell(q: nat, r: nat, a: nat, b: nat)
    requires q < 3 && r < 3 && a < 3 && b < 3
    ensures var i := (q * 3 + a) * 9 + (r * 3 + b);
      i < 81 && i / 9 == q * 3 + a && i % 9 == r * 3 + b && BlockOf(i) == q * 3 + r
  {
  }

  /** Setting cell `i` only matters to the three units it belongs to. */
  lemma OtherUnitsKeep(g: Grid, i: nat, v: nat, u: Unit)
    requires i < 81 && v <= 9 && u.n < 9 && !Contains(u, i)
    ensures Values(g[i := v], u) == Values(g, u)
  {
    forall k | 0 <= k < 9 ensures Values(g[i := v], u)[k] == Values(g, u)[k] { CellContained(u, k); }
  }

  ghost predicate ThreeUnitsFine(g: Grid, i: nat)
    requires i < 81
  {
    UnitFine(g, Row(i / 9)) && UnitFine(g, Column(i % 9)) && UnitFine(g, Block(BlockOf(i)))
  }

  lemma SetKeepsConsistent(g: Grid, i: nat, v: nat)
    requires Consistent(g) && i < 81 && v <= 9 && ThreeUnitsFine(g[i := v], i)
    ensures Consistent(g[i := v])
  {
    forall u: Unit | u.n < 9 ensures UnitFine(g[i := v], u) {
      if !Contains(u, i) { OtherUnitsKeep(g, i, v, u); assert UnitFine(g, u); }
    }
  }

  /** A part of a solved grid has no repetition anywhere. */
  lemma PartIsConsistent(g: Grid, s: Grid)
    requires Solved(s) && Within(g, s)
    ensures Consistent(g)
  {
    forall u: Unit | u.n < 9 ensures UnitFine(g, u) {
      assert UnitFine(s, u);
      forall k | 0 <= k < 9 ensures Cell(u, k) < 81 { CellContained(u, k); }
      var v, w := Values(g, u), Values(s, u);
      assert forall k :: 0 <= k < 9 && v[k] != 0 ==> w[k] == v[k];
    }
  }

  lemma BlockOfBound(i: nat)
    requires i < 81
    ensures BlockOf(i) < 9 && BlockOf(i) == i / 9 / 3 * 3 + i % 9 / 3
  {
  }

  ghost predicate AllComplete(g: Grid) {
    && (forall n :: 0 <= n < 9 ==> Complete(Values(g, Row(n))))
    && (forall n :: 0 <= n < 9 ==> Complete(Values(g, Column(n))))
    && (forall n :: 0 <= n < 9 ==> Complete(Values(g, Block(n))))
  }

  /** Solved: every row, column and block holds each digit once. */
  lemma CompleteIsSolved(g: Grid)
    ensures AllComplete(g) <==> Solved(g)
  {
    if AllComplete(g) {
      forall i | 0 <= i < 81 ensures g[i] != 0 {
        assert Values(g, Row(i / 9))[i % 9] == g[i];
      }
      forall u: Unit | u.n < 9 ensures UnitFine(g, u) {
        match u
        case Row(n) => assert Complete(Values(g, Row(n)));
        case Column(n) => assert Complete(Values(g, Column(n)));
        case Block(n) => assert Complete(Values(g, Block(n)));
      }
    }
    if Solved(g) {
      forall u: Unit | u.n < 9 ensures Complete(Values(g, u)) {
        assert UnitFine(g, u);
        forall k | 0 <= k < 9 ensures Values(g, u)[k] != 0 { CellContained(u, k); }
      }
    }
  }

  // ---- counting digits

  function Count(v: seq<nat>, d: nat): nat {
    if v == [] then 0 else Count(v[..|v| - 1], d) + (if v[|v| - 1] == d then 1 else 0)
  }

  lemma {:induction false} CountZero(v: seq<nat>, d: nat)
    ensures Count(v, d) == 0 <==> d !in v
  {
    if v != [] { CountZero(v[..|v| - 1], d); assert v == v[..|v| - 1] + [v[|v| - 1]]; }
  }

  lemma {:induction false} CountTwice(v: seq<nat>, d: nat)
    ensures Count(v, d) > 1 <==> exists i, j :: 0 <= i < j < |v| && v[i] == v[j] == d
  {
    if v != [] {
      var w, x := v[..|v| - 1], v[|v| - 1];
      CountTwice(w, d);
      CountZero(w, d);
      if Count(w, d) > 1 {
        var i, j :| 0 <= i < j < |w| && w[i] == w[j] == d;
        assert v[i] == v[j] == d;
      } else if x == d && d in w {
        var i :| 0 <= i < |w| && w[i] == d;
        assert v[i] == v[|v| - 1] == d;
      }
    }
  }

  lemma NoneTwice(v: seq<nat>)
    requires forall d :: 1 <= d < 10 ==> Count(v, d) <= 1
    requires forall i :: 0 <= i < |v| ==> v[i] <= 9
    ensures NoRepeat(v)
  {
    forall i, j | 0 <= i < j < |v| && v[i] == v[j] ensures v[i] == 0 {
      CountTwice(v, v[i]);
    }
  }

  lemma UnitDigits(g: Grid, u: Unit)
    requires u.n < 9
    ensures |Values(g, u)| == 9
    ensures forall k :: 0 <= k < 9 ==> Cell(u, k) < 81 && Values(g, u)[k] == g[Cell(u, k)] && Values(g, u)[k] <= 9
  {
    forall k | 0 <= k < 9 ensures Cell(u, k) < 81 { CellContained(u, k); }
  }

  lemma BlockStart(block: nat)
    requires block < 9
    ensures var position := block / 3 * 3 * 9 + (block % 3) * 3;
      position / 9 == block / 3 * 3 && position % 9 == block % 3 * 3
  {
  }

  lemma BlockPosition(block: nat, i: nat, j: nat)
    requires block < 9 && i < 3 && j < 3
    ensures (block / 3 * 3 * 9 + i * 9) + (block % 3 * 3 + j) == Cell(Block(block), 3 * i + j)
  {
    assert (3 * i + j) / 3 == i && (3 * i + j) % 3 == j;
  }

  /** `v` holds the cell `i` rows and `j` columns into the block that starts at `startI`, `startJ`. */
  ghost predicate BlockCellIs(g: seq<nat>, startI: nat, startJ: nat, v: seq<nat>, i: int, j: int)
    requires |g| == 81 && startI <= 6 && startJ <= 6 && |v| == 9
  {
    0 <= i < 3 && 0 <= j < 3 ==> v[3 * i + j] == g[(startI + i) * 9 + (startJ + j)]
  }

  lemma BlockCells(g: Grid, block: nat)
    requires block < 9
    ensures var position := block / 3 * 3 * 9 + (block % 3) * 3;
      && position / 9 <= 6 && position % 9 <= 6
      && forall i, j :: BlockCellIs(g, position / 9, position % 9, Values(g, Block(block)), i, j)
  {
    BlockStart(block);
    var v := Values(g, Block(block));
    UnitDigits(g, Block(block));
    var position := block / 3 * 3 * 9 + (block % 3) * 3;
    hide Values, Cell;
    forall i, j ensures BlockCellIs(g, position / 9, position % 9, v, i, j) {
      if 0 <= i < 3 && 0 <= j < 3 { BlockPosition(block, i, j); }
    }
  }

  lemma CountMore(v: seq<nat>, x: nat)
    ensures forall d :: Count(v + [x], d) == Count(v, d) + (if x == d then 1 else 0)
  {
    assert (v + [x])[..|v|] == v;
  }
}
