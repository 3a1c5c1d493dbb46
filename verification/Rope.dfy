/** aoc2022/9_2.c and 9_1.c: a rope dragged by its head over a grid, and the cells its tail visits. */
module Rope {
  datatype Coord = Coord(x: int, y: int)

  datatype Direction = L | R | U | D

  datatype Move = Move(direction: Direction, distance: nat)

  const ORIGIN := Coord(0, 0)

  function Abs(a: int): nat { if a < 0 then -a else a }

  /** chebychev_dist. */
  function Chebyshev(head: Coord, tail: Coord): nat {
    var dx, dy := Abs(head.x - tail.x), Abs(head.y - tail.y);
    if dx > dy then dx else dy
  }

  /** direction_to_vector of 9_2.c: y grows downwards. */
  function Vector(d: Direction): Coord {
    match d
    case L => Coord(-1, 0)
    case R => Coord(1, 0)
    case U => Coord(0, -1)
    case D => Coord(0, 1)
  }

  function Plus(a: Coord, b: Coord): Coord { Coord(a.x + b.x, a.y + b.y) }

  function Clamp(d: int): int { if d > 1 then 1 else if d < -1 then -1 else d }

  /** move_rope_knot_step. */
  function KnotStep(front: Coord, knot: Coord): Coord {
    if Chebyshev(front, knot) <= 1 then knot
    else Coord(knot.x + Clamp(front.x - knot.x), knot.y + Clamp(front.y - knot.y))
  }

  function Square(x: int): nat { if x < 0 then -x * -x else x * x }

  function Distance2(a: Coord, b: Coord): nat { Square(a.x - b.x) + Square(a.y - b.y) }

  /** A knot that has lost touch moves to the one neighbouring cell that is nearest to the knot in front. */
  lemma StepIsNearest(front: Coord, knot: Coord, c: Coord)
    requires Chebyshev(front, knot) > 1 && Chebyshev(knot, c) <= 1 && c != KnotStep(front, knot)
    ensures Chebyshev(knot, KnotStep(front, knot)) == 1
    ensures Distance2(front, KnotStep(front, knot)) < Distance2(front, c)
  {
    NearestOnAxis(front.x - knot.x, c.x - knot.x);
    NearestOnAxis(front.y - knot.y, c.y - knot.y);
  }

  lemma NearestOnAxis(d: int, e: int)
    requires -1 <= e <= 1
    ensures e == Clamp(d) || Square(d - Clamp(d)) < Square(d - e)
  {
    var p, q := Abs(d - Clamp(d)), Abs(d - e);
    assert Square(d - Clamp(d)) == p * p && Square(d - e) == q * q;
    if e != Clamp(d) {
      assert p < q;
      assert p * p <= p * q < q * q;
    }
  }

  /** The assertions after a step hold exactly for a knot at most two cells behind. */
  lemma StepAssertions(front: Coord, knot: Coord)
    requires Chebyshev(front, knot) > 1
    ensures var moved := KnotStep(front, knot);
            Chebyshev(knot, moved) == 1 && Chebyshev(front, moved) == 1 <==> Chebyshev(front, knot) <= 2
  {
  }

  // ---- the rope

  /** Where knot `k` is once the head is at `head` and the knots before it have followed. */
  function Knot(head: Coord, rope: seq<Coord>, k: nat): Coord
    requires k < |rope|
  {
    if k == 0 then head else KnotStep(Knot(head, rope, k - 1), rope[k])
  }

  /** Every knot follows the one before it, front to back. */
  function Drag(head: Coord, rope: seq<Coord>): (r: seq<Coord>)
    ensures |r| == |rope|
  {
    seq(|rope|, k requires 0 <= k < |rope| => Knot(head, rope, k))
  }

  function RopeAfter(n: nat, steps: seq<Direction>): (r: seq<Coord>)
    requires n > 0
    ensures |r| == n
  {
    if steps == [] then seq(n, _ => ORIGIN)
    else
      var rope := RopeAfter(n, steps[..|steps| - 1]);
      Drag(Plus(rope[0], Vector(steps[|steps| - 1])), rope)
  }

  function HeadAfter(steps: seq<Direction>): Coord {
    if steps == [] then ORIGIN else Plus(HeadAfter(steps[..|steps| - 1]), Vector(steps[|steps| - 1]))
  }

  function Count(steps: seq<Direction>, d: Direction): nat { multiset(steps)[d] }

  lemma CountOneMore(steps: seq<Direction>, d: Direction)
    requires steps != []
    ensures var m := |steps| - 1;
      Count(steps, d) == Count(steps[..m], d) + if steps[m] == d then 1 else 0
  {
    assert steps == steps[..|steps| - 1] + [steps[|steps| - 1]];
  }

  /** The head is as far to the right as there were more steps R than L, and as far down as there were more D than U. */
  lemma {:induction false} HeadCountsSteps(steps: seq<Direction>)
    ensures HeadAfter(steps).x == Count(steps, R) - Count(steps, L)
    ensures HeadAfter(steps).y == Count(steps, D) - Count(steps, U)
  {
    hide Count;
    if steps == [] {
      CountNone();
    } else {
      HeadCountsSteps(steps[..|steps| - 1]);
      CountOneMore(steps, L);
      CountOneMore(steps, R);
      CountOneMore(steps, U);
      CountOneMore(steps, D);
    }
  }

  lemma CountNone() ensures forall d :: Count([], d) == 0 {}

  /** Moves count as many steps as they are long. */
  lemma {:induction false} StepsCountMoves(moves: seq<Move>, d: Direction)
    ensures Count(Steps(moves), d) == Total(moves, d)
  {
    hide Count;
    if moves == [] {
      CountNone();
    } else {
      var n := |moves| - 1;
      StepsCountMoves(moves[..n], d);
      TotalSnoc(moves, d);
      CountRepeat(Steps(moves[..n]), moves[n].direction, moves[n].distance, d);
    }
  }

  lemma {:induction false} CountRepeat(steps: seq<Direction>, c: Direction, n: nat, d: Direction)
    ensures Count(steps + Repeat(c, n), d) == Count(steps, d) + if c == d then n else 0
    decreases n
  {
    if n == 0 {
      assert steps + Repeat(c, n) == steps;
    } else {
      var more := steps + Repeat(c, n);
      assert more[..|more| - 1] == steps + Repeat(c, n - 1);
      CountOneMore(more, d);
      CountRepeat(steps, c, n - 1, d);
    }
  }

  /** The distances of the moves in one direction. */
  function Total(moves: seq<Move>, d: Direction): nat {
    if moves == [] then 0
    else Total(moves[1..], d) + if moves[0].direction == d then moves[0].distance else 0
  }

  lemma {:induction false} TotalSnoc(moves: seq<Move>, d: Direction)
    requires moves != []
    ensures var n := |moves| - 1;
      Total(moves, d) == Total(moves[..n], d) + if moves[n].direction == d then moves[n].distance else 0
  {
    var n := |moves| - 1;
    if n > 0 {
      assert moves[..n][1..] == moves[1..][..n - 1];
      TotalSnoc(moves[1..], d);
    }
  }

  /** The cells the last knot is on after each step. */
  function TailCells(n: nat, steps: seq<Direction>): set<Coord>
    requires n > 0
  {
    if steps == [] then {} else TailCells(n, steps[..|steps| - 1]) + {RopeAfter(n, steps)[n - 1]}
  }

  ghost predicate Chain(rope: seq<Coord>) {
    forall k: nat :: k + 1 < |rope| ==> Chebyshev(rope[k], rope[k + 1]) <= 1
  }

  lemma StepFollows(oldFront: Coord, front: Coord, knot: Coord)
    requires Chebyshev(oldFront, knot) <= 1 && Chebyshev(front, oldFront) <= 1
    ensures Chebyshev(front, knot) <= 2
    ensures Chebyshev(KnotStep(front, knot), knot) <= 1 && Chebyshev(front, KnotStep(front, knot)) <= 1
  {
  }

  /** Each knot moves by at most one cell, and ends next to the one before it. */
  lemma {:induction false} KnotFollows(head: Coord, rope: seq<Coord>, k: nat)
    requires Chain(rope) && k < |rope| && Chebyshev(head, rope[0]) <= 1
    ensures Chebyshev(Knot(head, rope, k), rope[k]) <= 1
    ensures k > 0 ==> Chebyshev(Knot(head, rope, k - 1), Knot(head, rope, k)) <= 1
    ensures k > 0 ==> Chebyshev(Knot(head, rope, k - 1), rope[k]) <= 2
  {
    hide Chebyshev, KnotStep;
    if k > 0 {
      KnotFollows(head, rope, k - 1);
      assert Chebyshev(rope[k - 1], rope[k - 1 + 1]) <= 1;
      StepFollows(rope[k - 1], Knot(head, rope, k - 1), rope[k]);
    }
  }

  /** Over every run neighbouring knots stay within distance 1, and no knot is ever more than two
      cells behind when it moves, so the assertions of the step hold. */
  lemma {:induction false} ChainAfter(n: nat, steps: seq<Direction>)
    requires n > 0
    ensures Chain(RopeAfter(n, steps)) && RopeAfter(n, steps)[0] == HeadAfter(steps)
    ensures steps != [] ==>
      var before := RopeAfter(n, steps[..|steps| - 1]);
      forall k: nat :: k + 1 < n ==> Chebyshev(RopeAfter(n, steps)[k], before[k + 1]) <= 2
  {
    if steps != [] {
      var before := RopeAfter(n, steps[..|steps| - 1]);
      ChainAfter(n, steps[..|steps| - 1]);
      var head := Plus(before[0], Vector(steps[|steps| - 1]));
      forall k: nat | k + 1 < n
        ensures Chebyshev(Drag(head, before)[k], Drag(head, before)[k + 1]) <= 1 &&
          Chebyshev(Drag(head, before)[k], before[k + 1]) <= 2
      {
        KnotFollows(head, before, k + 1);
      }
    }
  }

  // ---- boxes

  datatype Box = Box(left: int, right: int, top: int, bottom: int)

  predicate In(c: Coord, b: Box) { b.left <= c.x <= b.right && b.top <= c.y <= b.bottom }

  ghost predicate AllIn(cells: seq<Coord>, b: Box) { forall k :: 0 <= k < |cells| ==> In(cells[k], b) }

  /** The head is in the box at the start and after every step. */
  ghost predicate HeadStaysIn(steps: seq<Direction>, b: Box) {
    In(HeadAfter(steps), b) && (steps != [] ==> HeadStaysIn(steps[..|steps| - 1], b))
  }

  lemma {:induction false} KnotStaysIn(head: Coord, rope: seq<Coord>, b: Box, k: nat)
    requires k < |rope| && AllIn(rope, b) && In(head, b)
    ensures In(Knot(head, rope, k), b)
  {
    if k > 0 { KnotStaysIn(head, rope, b, k - 1); }
  }

  /** Every knot stays in any box that holds the path of the head. */
  lemma {:induction false} RopeStaysIn(n: nat, steps: seq<Direction>, b: Box)
    requires n > 0 && HeadStaysIn(steps, b)
    ensures AllIn(RopeAfter(n, steps), b)
    ensures forall c :: c in TailCells(n, steps) ==> In(c, b)
  {
    if steps != [] {
      var m := |steps| - 1;
      RopeStaysIn(n, steps[..m], b);
      ChainAfter(n, steps[..m]);
      forall k: nat | k < n ensures In(RopeAfter(n, steps)[k], b) {
        KnotStaysIn(HeadAfter(steps), RopeAfter(n, steps[..m]), b, k);
      }
    }
  }

  // ---- the moves, and the simulation of 9_2.c

  function Repeat(d: Direction, n: nat): seq<Direction> { seq(n, _ => d) }

  function Steps(moves: seq<Move>): seq<Direction> {
    if moves == [] then []
    else
      var last := moves[|moves| - 1];
      Steps(moves[..|moves| - 1]) + Repeat(last.direction, last.distance)
  }

  const SIDE: nat := 600

  /** The cells the assertions on the head allow on a grid of the given side. */
  function Inner(side: nat): Box { Box(-(side / 2) + 1, side / 2 - 1, -(side / 2) + 1, side / 2 - 1) }

  ghost predicate Marks(visited: array2<bool>, side: nat, cells: set<Coord>)
    reads visited
  {
    && visited.Length0 == visited.Length1 == side
    && forall x, y :: In(Coord(x, y), Inner(side)) ==> (visited[side / 2 + y, side / 2 + x] <==> Coord(x, y) in cells)
  }

  /** Counts a cell the first time it is visited. */
  method Visit(visited: array2<bool>, side: nat, tail: Coord, count: nat, ghost cells: set<Coord>)
    returns (newCount: nat)
    requires Marks(visited, side, cells) && In(tail, Inner(side)) && count == |cells|
    modifies visited
    ensures Marks(visited, side, cells + {tail}) && newCount == |cells + {tail}|
  {
    assert Coord(tail.x, tail.y) == tail;
    if visited[side / 2 + tail.y, side / 2 + tail.x] {
      newCount := count;
      assert cells + {tail} == cells;
    } else {
      newCount := count + 1;
    }
    visited[side / 2 + tail.y, side / 2 + tail.x] := true;
  }

  /** Drags the knots of a rope after its head has moved, in place. */
  method Follow(rope: array<Coord>)
    requires rope.Length > 0
    modifies rope
    ensures rope[..] == Drag(old(rope[0]), old(rope[..]))
  {
    hide *;
    ghost var was := rope[..];
    KnotNext(was[0], was, 0);
    for k := 1 to rope.Length
      invariant forall m: nat :: m < k ==> rope[m] == Knot(was[0], was, m)
      invariant forall m: nat :: k <= m < rope.Length ==> rope[m] == was[m]
    {
      KnotNext(was[0], was, k);
      rope[k] := KnotStep(rope[k - 1], rope[k]);
    }
    assert |rope[..]| == |was|;
    DragIs(was[0], was, rope[..]);
  }

  lemma KnotNext(head: Coord, rope: seq<Coord>, k: nat)
    requires k < |rope|
    ensures Knot(head, rope, k) == if k == 0 then head else KnotStep(Knot(head, rope, k - 1), rope[k])
  {
  }

  lemma DragIs(head: Coord, rope: seq<Coord>, r: seq<Coord>)
    requires |r| == |rope| && forall m: nat :: m < |r| ==> r[m] == Knot(head, rope, m)
    ensures r == Drag(head, rope)
  {
  }

  lemma {:induction false} KnotIgnoresHead(head: Coord, rope: seq<Coord>, k: nat)
    requires k < |rope|
    ensures Knot(head, rope[0 := head], k) == Knot(head, rope, k)
  {
    if k > 0 { KnotIgnoresHead(head, rope, k - 1); }
  }

  lemma OneMore(n: nat, steps: seq<Direction>, d: Direction)
    requires n > 0
    ensures var rope, more := RopeAfter(n, steps), steps + [d]; var head := Plus(rope[0], Vector(d));
      && HeadAfter(more) == head
      && RopeAfter(n, more) == Drag(head, rope[0 := head])
      && TailCells(n, more) == TailCells(n, steps) + {RopeAfter(n, more)[n - 1]}
      && forall b :: HeadStaysIn(more, b) <==> HeadStaysIn(steps, b) && In(head, b)
  {
    hide Knot;
    var rope, more := RopeAfter(n, steps), steps + [d];
    var head := Plus(rope[0], Vector(d));
    assert more[..|steps|] == steps;
    ChainAfter(n, steps);
    forall k: nat | k < n
      ensures Drag(head, rope[0 := head])[k] == Drag(head, rope)[k] { KnotIgnoresHead(head, rope, k); }
  }

  lemma StepsPrefix(moves: seq<Move>, i: nat, j: nat)
    requires i < |moves| && j < moves[i].distance
    ensures Repeat(moves[i].direction, j + 1) == Repeat(moves[i].direction, j) + [moves[i].direction]
    ensures Steps(moves[..i]) + Repeat(moves[i].direction, j) + [moves[i].direction] <= Steps(moves)
  {
    var d, m := moves[i].direction, moves[i].distance;
    RepeatOneMore(d, j, m);
    StepsOfOneMore(moves, i);
    StepsMonotone(moves, i + 1);
    hide Steps, Repeat;
    var s := Steps(moves[..i]);
    assert s + Repeat(d, j) + [d] == s + Repeat(d, j + 1);
    PrefixOfSum(s, Repeat(d, j + 1), Repeat(d, m), Steps(moves));
  }

  lemma RepeatOneMore(d: Direction, j: nat, m: nat)
    requires j < m
    ensures Repeat(d, j + 1) == Repeat(d, j) + [d]
    ensures Repeat(d, j + 1) <= Repeat(d, m)
  {
  }

  lemma PrefixOfSum(s: seq<Direction>, a: seq<Direction>, b: seq<Direction>, all: seq<Direction>)
    requires a <= b && s + b <= all
    ensures s + a <= all
  {
    assert s + a == (s + b)[..|s| + |a|];
  }

  lemma {:induction false} StepsMonotone(moves: seq<Move>, i: nat)
    requires i <= |moves|
    ensures Steps(moves[..i]) <= Steps(moves)
    decreases |moves|
  {
    if i < |moves| {
      assert moves[..|moves| - 1][..i] == moves[..i];
      StepsMonotone(moves[..|moves| - 1], i);
    } else {
      assert moves[..i] == moves;
    }
  }

  lemma {:induction false} LeavesOnce(steps: seq<Direction>, all: seq<Direction>, b: Box)
    requires steps <= all && !In(HeadAfter(steps), b)
    ensures !HeadStaysIn(all, b)
  {
    if |steps| < |all| { LeavesOnce(steps, all[..|all| - 1], b); } else { assert steps == all; }
  }

  /** The state of the simulation after the given steps. */
  ghost predicate Tracks(rope: array<Coord>, visited: array2<bool>, count: nat, steps: seq<Direction>)
    reads rope, visited
  {
    && rope.Length > 0 && rope[..] == RopeAfter(rope.Length, steps) && HeadStaysIn(steps, Inner(SIDE))
    && Marks(visited, SIDE, TailCells(rope.Length, steps)) && count == |TailCells(rope.Length, steps)|
  }

  /** One step of the simulation of 9_2.c. */
  method StepOnce(rope: array<Coord>, visited: array2<bool>, d: Direction, count: nat, ghost steps: seq<Direction>)
      returns (ok: bool, newCount: nat)
    requires Tracks(rope, visited, count, steps)
    modifies rope, visited
    ensures ok <==> In(HeadAfter(steps + [d]), Inner(SIDE))
    ensures ok ==> Tracks(rope, visited, newCount, steps + [d])
  {
    hide Drag, RopeAfter, HeadAfter, TailCells, HeadStaysIn, In, Plus, Vector, Marks;
    var n := rope.Length;
    ghost var more := steps + [d];
    OneMore(n, steps, d);
    newCount := count;
    ghost var was := rope[..];
    rope[0] := Plus(rope[0], Vector(d));
    assert rope[..] == was[0 := rope[0]];
    ok := In(rope[0], Inner(SIDE));
    if ok {
      Follow(rope);
      RopeStaysIn(n, more, Inner(SIDE));
      assert rope[..] == RopeAfter(n, more);
      assert In(rope[..][n - 1], Inner(SIDE)) by { TailIn(n, more, Inner(SIDE)); }
      newCount := Visit(visited, SIDE, rope[n - 1], count, TailCells(n, steps));
    }
  }

  lemma TailIn(n: nat, steps: seq<Direction>, b: Box)
    requires n > 0 && HeadStaysIn(steps, b)
    ensures In(RopeAfter(n, steps)[n - 1], b)
  {
    RopeStaysIn(n, steps, b);
  }

  /** The loop of 9_2.c over the steps of one move; `all` are the steps of the whole input. */
  method MakeMove(rope: array<Coord>, visited: array2<bool>, moves: seq<Move>, i: nat, count: nat)
      returns (ok: bool, newCount: nat)
    requires i < |moves| && Tracks(rope, visited, count, Steps(moves[..i]))
    modifies rope, visited
    ensures ok ==> Tracks(rope, visited, newCount, Steps(moves[..i + 1]))
    ensures !ok ==> !HeadStaysIn(Steps(moves), Inner(SIDE))
  {
    hide *;
    StepsOfOneMore(moves, i);
    ok, newCount := true, count;
    var d := moves[i].direction;
    ghost var before := Steps(moves[..i]);
    var j := 0;
    NoRepeat(before, d);
    while j < moves[i].distance
      invariant 0 <= j <= moves[i].distance && Tracks(rope, visited, newCount, before + Repeat(d, j))
    {
      StepsPrefix(moves, i, j);
      ghost var steps := before + Repeat(d, j);
      assert steps + [d] == before + Repeat(d, j + 1);
      ok, newCount := StepOnce(rope, visited, d, newCount, steps);
      if !ok {
        LeavesOnce(steps + [d], Steps(moves), Inner(SIDE));
        return;
      }
      j := j + 1;
    }
  }

  lemma NoRepeat(steps: seq<Direction>, d: Direction) ensures steps + Repeat(d, 0) == steps {}

  /** 9_2.c, for any rope length. `ok` is false when an assertion on the head's position fails. */
  method Simulate(ropeLen: nat, moves: seq<Move>) returns (ok: bool, count: nat)
    requires ropeLen > 0
    ensures ok <==> HeadStaysIn(Steps(moves), Inner(SIDE))
    ensures ok ==> count == |TailCells(ropeLen, Steps(moves))|
  {
    var rope := new Coord[ropeLen](_ => ORIGIN);
    var visited := new bool[SIDE, SIDE]((_, _) => false);
    ok, count := true, 0;
    StartsRight(rope, visited);
    hide *;
    NoSteps(moves);
    for i := 0 to |moves|
      invariant Tracks(rope, visited, count, Steps(moves[..i]))
    {
      ok, count := MakeMove(rope, visited, moves, i, count);
      if !ok { return; }
    }
    ok := true;
    assert moves[..|moves|] == moves;
    TracksMeans(rope, visited, count, Steps(moves));
  }

  lemma NoSteps(moves: seq<Move>) ensures moves[..0] == [] && Steps([]) == [] {}

  lemma TracksMeans(rope: array<Coord>, visited: array2<bool>, count: nat, steps: seq<Direction>)
    requires Tracks(rope, visited, count, steps)
    ensures HeadStaysIn(steps, Inner(SIDE)) && count == |TailCells(rope.Length, steps)|
  {
  }

  lemma StepsOfOneMore(moves: seq<Move>, i: nat)
    requires i < |moves|
    ensures Steps(moves[..i + 1]) == Steps(moves[..i]) + Repeat(moves[i].direction, moves[i].distance)
  {
    assert moves[..i + 1][..i] == moves[..i];
  }

  lemma StartsRight(rope: array<Coord>, visited: array2<bool>)
    requires rope.Length > 0 && forall k :: 0 <= k < rope.Length ==> rope[k] == ORIGIN
    requires visited.Length0 == visited.Length1 == SIDE
    requires forall y, x :: 0 <= y < SIDE && 0 <= x < SIDE ==> !visited[y, x]
    ensures Tracks(rope, visited, 0, [])
  {
    assert rope[..] == RopeAfter(rope.Length, []);
  }

  // ---- 9_1.c: two knots, the tail jumps to the head's previous cell

  datatype Pair = Pair(head: Coord, tail: Coord)

  /** direction_to_vector of 9_1.c: y grows upwards. */
  function VectorUp(d: Direction): Coord {
    match d
    case L => Coord(-1, 0)
    case R => Coord(1, 0)
    case U => Coord(0, 1)
    case D => Coord(0, -1)
  }

  function Mirror(c: Coord): Coord { Coord(c.x, -c.y) }

  function Jump(p: Pair, d: Direction): Pair {
    var head := Plus(p.head, VectorUp(d));
    Pair(head, if Chebyshev(head, p.tail) > 1 then p.head else p.tail)
  }

  function JumpAfter(steps: seq<Direction>): Pair {
    if steps == [] then Pair(ORIGIN, ORIGIN) else Jump(JumpAfter(steps[..|steps| - 1]), steps[|steps| - 1])
  }

  function JumpCells(steps: seq<Direction>): set<Coord> {
    if steps == [] then {} else JumpCells(steps[..|steps| - 1]) + {JumpAfter(steps).tail}
  }

  /** For one step of the head the two update rules agree, up to mirroring y. */
  lemma JumpIsStep(p: Pair, d: Direction)
    requires Chebyshev(p.head, p.tail) <= 1
    ensures var head := Plus(Mirror(p.head), Vector(d));
            Mirror(Jump(p, d).head) == head && Mirror(Jump(p, d).tail) == KnotStep(head, Mirror(p.tail))
  {
  }

  /** Over every run the two programs' ropes are mirror images, so both count the same number of cells. */
  lemma {:induction false} RulesAgree(steps: seq<Direction>)
    ensures var p, rope := JumpAfter(steps), RopeAfter(2, steps);
            Mirror(p.head) == rope[0] && Mirror(p.tail) == rope[1] && Chebyshev(p.head, p.tail) <= 1
    ensures forall c :: c in JumpCells(steps) <==> Mirror(c) in TailCells(2, steps)
    ensures |JumpCells(steps)| == |TailCells(2, steps)|
  {
    hide Chebyshev, KnotStep, Plus, Vector, VectorUp, Mirror, Jump;
    ChainAfter(2, steps);
    assert Chebyshev(RopeAfter(2, steps)[0], RopeAfter(2, steps)[0 + 1]) <= 1;
    var p := JumpAfter(steps);
    MirrorKeepsDistance(p.head, p.tail);
    if steps != [] {
      var before, d := steps[..|steps| - 1], steps[|steps| - 1];
      RulesAgree(before);
      JumpIsStep(JumpAfter(before), d);
      TwoKnotStep(RopeAfter(2, before), d);
      MirrorOneMore(JumpCells(before), TailCells(2, before), p.tail);
    }
  }

  lemma TwoKnotStep(rope: seq<Coord>, d: Direction)
    requires |rope| == 2
    ensures var head := Plus(rope[0], Vector(d)); Drag(head, rope) == [head, KnotStep(head, rope[1])]
  {
    var head := Plus(rope[0], Vector(d));
    assert Knot(head, rope, 1) == KnotStep(Knot(head, rope, 0), rope[1]);
  }

  lemma MirrorKeepsDistance(a: Coord, b: Coord)
    ensures Chebyshev(Mirror(a), Mirror(b)) == Chebyshev(a, b) && Mirror(ORIGIN) == ORIGIN
  {
  }

  lemma MirrorOneMore(cells: set<Coord>, mirrored: set<Coord>, c: Coord)
    requires |cells| == |mirrored| && forall e :: e in cells <==> Mirror(e) in mirrored
    ensures |cells + {c}| == |mirrored + {Mirror(c)}|
    ensures forall e :: e in cells + {c} <==> Mirror(e) in mirrored + {Mirror(c)}
  {
    if c in cells {
      assert cells + {c} == cells && mirrored + {Mirror(c)} == mirrored;
    }
    forall e ensures e == c <==> Mirror(e) == Mirror(c) {}
  }

  const SIDE_TWO: nat := 1000

  ghost predicate JumpTracks(p: Pair, visited: array2<bool>, count: nat, steps: seq<Direction>)
    reads visited
  {
    && p == JumpAfter(steps) && HeadStaysIn(steps, Inner(SIDE_TWO))
    && Marks(visited, SIDE_TWO, JumpCells(steps)) && count == |JumpCells(steps)|
  }

  lemma JumpOneMore(steps: seq<Direction>, d: Direction)
    ensures var more := steps + [d];
      && JumpAfter(more) == Jump(JumpAfter(steps), d)
      && JumpCells(more) == JumpCells(steps) + {JumpAfter(more).tail}
      && (In(JumpAfter(more).head, Inner(SIDE_TWO)) <==> In(HeadAfter(more), Inner(SIDE_TWO)))
      && (HeadStaysIn(more, Inner(SIDE_TWO)) <==>
          (HeadStaysIn(steps, Inner(SIDE_TWO)) && In(HeadAfter(more), Inner(SIDE_TWO))))
      && (HeadStaysIn(more, Inner(SIDE_TWO)) ==> In(JumpAfter(more).tail, Inner(SIDE_TWO)))
  {
    hide Chebyshev;
    var more := steps + [d];
    assert more[..|steps|] == steps;
    RulesAgree(more);
    ChainAfter(2, more);
    if HeadStaysIn(more, Inner(SIDE_TWO)) { TailIn(2, more, Inner(SIDE_TWO)); }
  }

  /** One step of the simulation of 9_1.c; its assertions on the tail never fail. */
  method JumpOnce(p: Pair, visited: array2<bool>, d: Direction, count: nat, ghost steps: seq<Direction>)
      returns (ok: bool, next: Pair, newCount: nat)
    requires JumpTracks(p, visited, count, steps)
    modifies visited
    ensures ok <==> In(HeadAfter(steps + [d]), Inner(SIDE_TWO))
    ensures ok ==> JumpTracks(next, visited, newCount, steps + [d])
  {
    JumpOneMore(steps, d);
    hide JumpAfter, JumpCells, HeadAfter, HeadStaysIn, In, Marks, Chebyshev, Plus, VectorUp;
    newCount := count;
    var head, tail := Plus(p.head, VectorUp(d)), p.tail;
    next := Pair(head, tail);
    ok := In(head, Inner(SIDE_TWO));
    if ok {
      if Chebyshev(head, tail) > 1 { tail := p.head; }
      next := Pair(head, tail);
      assert In(tail, Inner(SIDE_TWO));
      newCount := Visit(visited, SIDE_TWO, tail, count, JumpCells(steps));
    }
  }

  /** 9_1.c: it counts what 9_2.c counts for a rope of two knots. */
  method SimulateTwo(moves: seq<Move>) returns (ok: bool, count: nat)
    ensures ok <==> HeadStaysIn(Steps(moves), Inner(SIDE_TWO))
    ensures ok ==> count == |TailCells(2, Steps(moves))|
  {
    var p := Pair(ORIGIN, ORIGIN);
    var visited := new bool[SIDE_TWO, SIDE_TWO]((_, _) => false);
    ok, count := true, 0;
    ghost var steps: seq<Direction> := [];
    assert JumpTracks(p, visited, count, steps);
    hide *;
    var i := 0;
    while i < |moves|
      invariant i <= |moves| && steps == Steps(moves[..i]) && JumpTracks(p, visited, count, steps)
    {
      var move := moves[i];
      ghost var before := steps;
      var j := 0;
      while j < move.distance
        invariant j <= move.distance && steps == before + Repeat(move.direction, j) &&
          JumpTracks(p, visited, count, steps)
      {
        StepsPrefix(moves, i, j);
        ok, p, count := JumpOnce(p, visited, move.direction, count, steps);
        if !ok {
          LeavesOnce(steps + [move.direction], Steps(moves), Inner(SIDE_TWO));
          return;
        }
        steps := steps + [move.direction];
        j := j + 1;
      }
      StepsOfOneMore(moves, i);
      i := i + 1;
    }
    assert moves[..i] == moves;
    JumpTracksMeans(p, visited, count, steps);
  }

  lemma JumpTracksMeans(p: Pair, visited: array2<bool>, count: nat, steps: seq<Direction>)
    requires JumpTracks(p, visited, count, steps)
    ensures HeadStaysIn(steps, Inner(SIDE_TWO)) && count == |TailCells(2, steps)|
  {
    RulesAgree(steps);
  }
}
