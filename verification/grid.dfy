/** The grid the searches run over: cell classification, coordinates, the
    4-directional neighbour relation, the Manhattan heuristic, and walks
    (the reachability notion every search result is judged against). */
module GridModel {

  datatype Option<T> = None | Some(value: T)

  /** The mutually exclusive classification of a cell. */
  datatype CellType = Empty | Wall | Start | End | Path | Visited

  datatype Coord = Coord(row: int, col: int)

  predicate IsRectangular(g: seq<seq<CellType>>) {
    forall i :: 0 <= i < |g| ==> |g[i]| == |g[0]|
  }

  /** A row-major grid whose rows all have the width of the first row. */
  type Grid = g: seq<seq<CellType>> | IsRectangular(g)

  /** Width of the grid, read off the first row as the search code does. */
  function Cols(g: Grid): nat {
    if |g| == 0 then 0 else |g[0]|
  }

  predicate InBounds(g: Grid, c: Coord) {
    0 <= c.row < |g| && 0 <= c.col < Cols(g)
  }

  /** A cell a search may move into: inside the grid and not a wall. */
  predicate Passable(g: Grid, c: Coord) {
    InBounds(g, c) && g[c.row][c.col] != Wall
  }

  /** Every coordinate of the grid. */
  function AllCells(g: Grid): (cells: set<Coord>)
    ensures forall c :: c in cells <==> InBounds(g, c)
  {
    set r, c | 0 <= r < |g| && 0 <= c < Cols(g) :: Coord(r, c)
  }

  function Up(c: Coord): (n: Coord) { Coord(c.row - 1, c.col) }
  function Down(c: Coord): (n: Coord) { Coord(c.row + 1, c.col) }
  function Left(c: Coord): (n: Coord) { Coord(c.row, c.col - 1) }
  function Right(c: Coord): (n: Coord) { Coord(c.row, c.col + 1) }

  predicate Adjacent(a: Coord, b: Coord) {
    b == Up(a) || b == Down(a) || b == Left(a) || b == Right(a)
  }

  /** One move of a search: from `a` into the 4-adjacent passable cell `b`. */
  predicate Step(g: Grid, a: Coord, b: Coord) {
    Adjacent(a, b) && Passable(g, b)
  }

  /** Position of `n` in the fixed direction order up, down, left, right
      relative to `c` (4 when `n` is not adjacent to `c`). */
  function Direction(c: Coord, n: Coord): nat {
    if n == Up(c) then 0
    else if n == Down(c) then 1
    else if n == Left(c) then 2
    else if n == Right(c) then 3
    else 4
  }

  /** The adjacent cell in direction `d` of the order up, down, left, right. */
  function Toward(c: Coord, d: nat): (n: Coord)
    requires d < 4
    ensures Direction(c, n) == d && Adjacent(c, n)
  {
    if d == 0 then Up(c) else if d == 1 then Down(c) else if d == 2 then Left(c) else Right(c)
  }

  /** The passable neighbours of `c` in directions `d` onwards, in order. */
  function NeighborsFrom(g: Grid, c: Coord, d: nat): (ns: seq<Coord>)
    requires d <= 4
    ensures |ns| <= 4 - d
    ensures forall n :: n in ns <==> Step(g, c, n) && d <= Direction(c, n)
    ensures forall i, j :: 0 <= i < j < |ns| ==> Direction(c, ns[i]) < Direction(c, ns[j])
    decreases 4 - d
  {
    if d == 4 then []
    else
      var n := Toward(c, d);
      var rest := NeighborsFrom(g, c, d + 1);
      if Passable(g, n) then [n] + rest else rest
  }

  /** The cells a search expands from `c`: the in-bounds, non-wall
      4-neighbours, in the order up, down, left, right. The cell `c` itself
      may be anything, walls included. */
  function Neighbors(g: Grid, c: Coord): (ns: seq<Coord>)
    ensures |ns| <= 4
    ensures forall n :: n in ns <==> Step(g, c, n)
    ensures forall i, j :: 0 <= i < j < |ns| ==> Direction(c, ns[i]) < Direction(c, ns[j])
  {
    NeighborsFrom(g, c, 0)
  }

  predicate NoDuplicates<T(==)>(s: seq<T>) {
    forall i, j :: 0 <= i < j < |s| ==> s[i] != s[j]
  }

  lemma NoDuplicatesPrefix<T>(a: seq<T>, b: seq<T>)
    requires NoDuplicates(a + b)
    ensures NoDuplicates(a)
  {
    forall i, j | 0 <= i < j < |a|
      ensures a[i] != a[j]
    {
      assert (a + b)[i] == a[i] && (a + b)[j] == a[j];
    }
  }

  lemma NoDuplicatesAppend<T>(a: seq<T>, b: seq<T>)
    requires NoDuplicates(a) && NoDuplicates(b)
    requires forall x :: x in a ==> x !in b
    ensures NoDuplicates(a + b)
  {
    forall i, j | 0 <= i < j < |a + b|
      ensures (a + b)[i] != (a + b)[j]
    {
      if i < |a| && j >= |a| {
        assert (a + b)[i] in a;
        assert (a + b)[j] in b;
      } else if i < |a| {
        assert (a + b)[i] == a[i] && (a + b)[j] == a[j];
      } else {
        assert (a + b)[i] == b[i - |a|] && (a + b)[j] == b[j - |a|];
      }
    }
  }

  /** Popping the head of `q` onto `v` and appending `c` to `q` keeps the
      concatenation `v + q + c`. */
  lemma PopPush<T>(v: seq<T>, q: seq<T>, c: seq<T>)
    requires |q| > 0
    ensures (v + [q[0]]) + (q[1..] + c) == (v + q) + c
  {
    assert q == [q[0]] + q[1..];
  }

  /** Dropping the head commutes with appending at the tail. */
  lemma TailAppend<T>(v: seq<T>, x: T)
    requires |v| > 0
    ensures (v + [x])[1..] == v[1..] + [x]
  {
  }

  /** The neighbour list never repeats a cell. */
  lemma NeighborsDistinct(g: Grid, c: Coord)
    ensures NoDuplicates(Neighbors(g, c))
  {
    var ns := Neighbors(g, c);
    forall i, j | 0 <= i < j < |ns|
      ensures ns[i] != ns[j]
    {
      assert Direction(c, ns[i]) < Direction(c, ns[j]);
    }
  }

  function Abs(x: int): (a: nat) {
    if x < 0 then -x else x
  }

  /** The A* heuristic. */
  function Manhattan(a: Coord, b: Coord): (d: nat)
    ensures d == 0 <==> a == b
    ensures d == 1 <==> Adjacent(a, b)
  {
    Abs(a.row - b.row) + Abs(a.col - b.col)
  }

  lemma ManhattanSymmetric(a: Coord, b: Coord)
    ensures Manhattan(a, b) == Manhattan(b, a)
  {
  }

  /** One move changes the Manhattan distance to any fixed cell by at most one. */
  lemma ManhattanStep(a: Coord, b: Coord, t: Coord)
    requires Adjacent(a, b)
    ensures Manhattan(a, t) <= Manhattan(b, t) + 1
    ensures Manhattan(b, t) <= Manhattan(a, t) + 1
  {
  }

  // ---------------------------------------------------------------------------
  // Walks and reachability
  // ---------------------------------------------------------------------------

  /** A sequence of cells a search could follow: it starts inside the grid
      and every later cell is one step from its predecessor. */
  ghost predicate IsWalk(g: Grid, w: seq<Coord>) {
    && |w| > 0
    && InBounds(g, w[0])
    && forall i :: 0 < i < |w| ==> StepAt(g, w, i)
  }

  /** The i-th cell of `w` is one step from the cell before it. */
  ghost predicate StepAt(g: Grid, w: seq<Coord>, i: int)
    requires 0 < i < |w|
  {
    Step(g, w[i - 1], w[i])
  }

  ghost predicate IsWalkFrom(g: Grid, w: seq<Coord>, s: Coord, x: Coord) {
    IsWalk(g, w) && w[0] == s && w[|w| - 1] == x
  }

  /** `x` can be reached from `s` through non-wall cells. */
  ghost predicate Reachable(g: Grid, s: Coord, x: Coord) {
    exists w :: IsWalkFrom(g, w, s, x)
  }

  /** `w` is a walk from `s` to `x` with the fewest cells of any such walk. */
  ghost predicate IsShortestWalk(g: Grid, w: seq<Coord>, s: Coord, x: Coord) {
    && IsWalkFrom(g, w, s, x)
    && forall v :: IsWalkFrom(g, v, s, x) ==> |w| <= |v|
  }

  lemma ReachableSelf(g: Grid, s: Coord)
    requires InBounds(g, s)
    ensures Reachable(g, s, s)
  {
    assert IsWalkFrom(g, [s], s, s);
  }

  lemma ReachableStep(g: Grid, s: Coord, y: Coord, x: Coord)
    requires Reachable(g, s, y)
    requires Step(g, y, x)
    ensures Reachable(g, s, x)
  {
    var w :| IsWalkFrom(g, w, s, y);
    var w' := w + [x];
    forall i | 0 < i < |w'|
      ensures StepAt(g, w', i)
    {
      if i < |w| {
        assert StepAt(g, w, i);
      }
    }
    assert IsWalkFrom(g, w', s, x);
  }

  lemma ReachableNeighbors(g: Grid, s: Coord, y: Coord, cells: set<Coord>)
    requires Reachable(g, s, y)
    requires forall x :: x in cells ==> Step(g, y, x)
    ensures forall x :: x in cells ==> Reachable(g, s, x)
  {
    forall x | x in cells
      ensures Reachable(g, s, x)
    {
      ReachableStep(g, s, y, x);
    }
  }

  /** A set that holds `s` and is closed under steps holds every cell
      reachable from `s`: a search that stops with nothing left to expand has
      seen everything it could reach. */
  lemma ClosedSetHoldsReachable(g: Grid, s: Coord, closed: set<Coord>, x: Coord)
    requires s in closed
    requires forall y, n :: y in closed && Step(g, y, n) ==> n in closed
    requires Reachable(g, s, x)
    ensures x in closed
  {
    var w :| IsWalkFrom(g, w, s, x);
    WalkStaysInClosedSet(g, w, closed, |w| - 1);
  }

  lemma {:induction false} WalkStaysInClosedSet(g: Grid, w: seq<Coord>, closed: set<Coord>, i: nat)
    requires IsWalk(g, w) && w[0] in closed
    requires forall y, n :: y in closed && Step(g, y, n) ==> n in closed
    requires i < |w|
    ensures w[i] in closed
  {
    if i > 0 {
      WalkStaysInClosedSet(g, w, closed, i - 1);
      assert StepAt(g, w, i);
    }
  }

  /** Dropping the last cell of a walk of two or more cells leaves a walk
      that ends one step before it. */
  lemma WalkDropLast(g: Grid, w: seq<Coord>)
    requires IsWalk(g, w) && |w| > 1
    ensures IsWalk(g, w[..|w| - 1]) && w[..|w| - 1][0] == w[0]
    ensures Step(g, w[|w| - 2], w[|w| - 1])
  {
    var w' := w[..|w| - 1];
    forall i | 0 < i < |w'|
      ensures StepAt(g, w', i)
    {
      assert StepAt(g, w, i);
    }
    assert StepAt(g, w, |w| - 1);
  }

  /** Every walk from `s` to `x` makes at least `d` steps, that is, has
      more than `d` cells. */
  ghost predicate DistanceAtLeast(g: Grid, s: Coord, x: Coord, d: nat) {
    forall v :: IsWalkFrom(g, v, s, x) ==> d < |v|
  }

  /** A non-empty prefix of a walk is a walk. */
  lemma WalkPrefix(g: Grid, w: seq<Coord>, k: nat)
    requires IsWalk(g, w) && 0 < k <= |w|
    ensures IsWalk(g, w[..k])
  {
    forall i | 0 < i < k
      ensures StepAt(g, w[..k], i)
    {
      assert StepAt(g, w, i);
    }
  }

  /** Every cell of a walk lies inside the grid. */
  lemma WalkInBounds(g: Grid, w: seq<Coord>, i: nat)
    requires IsWalk(g, w) && i < |w|
    ensures InBounds(g, w[i])
  {
    if i > 0 {
      assert StepAt(g, w, i);
    }
  }

  /** The first position of `w` outside `s`, when its last cell is outside. */
  lemma FirstOutside(w: seq<Coord>, s: set<Coord>) returns (j: nat)
    requires |w| > 0 && w[|w| - 1] !in s
    ensures j < |w| && w[j] !in s
    ensures forall i :: 0 <= i < j ==> w[i] in s
  {
    j := 0;
    while w[j] in s
      invariant j < |w|
      invariant forall i :: 0 <= i < j ==> w[i] in s
      decreases |w| - j
    {
      j := j + 1;
    }
  }

  /** Along a walk the Manhattan distance to a fixed cell drops by at most
      one per step: the heuristic is consistent, walls or not. */
  lemma {:induction false} ManhattanAlongWalk(g: Grid, w: seq<Coord>, i: nat, t: Coord)
    requires IsWalk(g, w) && i < |w|
    ensures Manhattan(w[i], t) <= Manhattan(w[|w| - 1], t) + (|w| - 1 - i)
    decreases |w| - i
  {
    if i < |w| - 1 {
      ManhattanAlongWalk(g, w, i + 1, t);
      assert StepAt(g, w, i + 1);
      ManhattanStep(w[i], w[i + 1], t);
    }
  }

  // ---------------------------------------------------------------------------
  // Wall-free grids
  // ---------------------------------------------------------------------------

  ghost predicate WallFree(g: Grid) {
    forall r, c :: 0 <= r < |g| && 0 <= c < |g[r]| ==> g[r][c] != Wall
  }

  /** Every walk has at least as many cells as the Manhattan distance between
      its ends plus one. */
  lemma {:induction false} WalkNoShorterThanManhattan(g: Grid, w: seq<Coord>)
    requires IsWalk(g, w)
    ensures |w| >= Manhattan(w[0], w[|w| - 1]) + 1
  {
    if |w| > 1 {
      var w' := w[..|w| - 1];
      assert IsWalk(g, w') by {
        forall i | 0 < i < |w'|
          ensures StepAt(g, w', i)
        {
          assert StepAt(g, w, i);
        }
      }
      WalkNoShorterThanManhattan(g, w');
      assert StepAt(g, w, |w| - 1);
      ManhattanStep(w[|w| - 2], w[|w| - 1], w[0]);
      ManhattanSymmetric(w[0], w[|w| - 2]);
      ManhattanSymmetric(w[0], w[|w| - 1]);
    }
  }

  /** The move taken by the straight-line walk: rows first, then columns. */
  function TowardStep(a: Coord, b: Coord): (n: Coord)
    requires a != b
    ensures Adjacent(a, n)
    ensures Manhattan(n, b) + 1 == Manhattan(a, b)
  {
    if a.row < b.row then Down(a)
    else if a.row > b.row then Up(a)
    else if a.col < b.col then Right(a)
    else Left(a)
  }

  /** A walk from `a` to `b` that never moves away from `b`. */
  function StraightWalk(a: Coord, b: Coord): (w: seq<Coord>)
    ensures |w| == Manhattan(a, b) + 1
    ensures w[0] == a && w[|w| - 1] == b
    decreases Manhattan(a, b)
  {
    if a == b then [a] else [a] + StraightWalk(TowardStep(a, b), b)
  }

  ghost predicate InBox(a: Coord, b: Coord, c: Coord) {
    && (a.row <= c.row <= b.row || b.row <= c.row <= a.row)
    && (a.col <= c.col <= b.col || b.col <= c.col <= a.col)
  }

  lemma {:induction false} StraightWalkInBox(a: Coord, b: Coord)
    ensures forall i :: 0 <= i < |StraightWalk(a, b)| ==> InBox(a, b, StraightWalk(a, b)[i])
    ensures forall i :: 0 < i < |StraightWalk(a, b)| ==>
      Adjacent(StraightWalk(a, b)[i - 1], StraightWalk(a, b)[i])
    decreases Manhattan(a, b)
  {
    if a != b {
      var n := TowardStep(a, b);
      StraightWalkInBox(n, b);
      var w := StraightWalk(a, b);
      assert w == [a] + StraightWalk(n, b);
      forall i | 0 <= i < |w|
        ensures InBox(a, b, w[i])
      {
        if i > 0 {
          assert w[i] == StraightWalk(n, b)[i - 1];
        }
      }
    }
  }

  /** On a wall-free grid the straight-line walk between two cells is a walk. */
  lemma StraightWalkIsWalk(g: Grid, a: Coord, b: Coord)
    requires WallFree(g)
    requires InBounds(g, a) && InBounds(g, b)
    ensures IsWalkFrom(g, StraightWalk(a, b), a, b)
  {
    var w := StraightWalk(a, b);
    StraightWalkInBox(a, b);
    forall i | 0 < i < |w|
      ensures StepAt(g, w, i)
    {
      assert InBox(a, b, w[i]);
      assert InBounds(g, w[i]);
    }
  }

  /** On a wall-free grid a shortest walk has exactly |drow| + |dcol| + 1 cells. */
  lemma WallFreeShortestLength(g: Grid, s: Coord, e: Coord, p: seq<Coord>)
    requires WallFree(g)
    requires InBounds(g, e)
    requires IsShortestWalk(g, p, s, e)
    ensures |p| == Manhattan(s, e) + 1
  {
    StraightWalkIsWalk(g, s, e);
    WalkNoShorterThanManhattan(g, p);
  }
}
