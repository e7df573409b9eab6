/** The grid-editing state of the application: the grid of typed cells,
    its size, the chosen algorithm and speed, the running and stop flags,
    and references to the start and end cells. Every operation is a pure
    function from the old state to the new one. */
module Store {
  import opened GridModel

  /** A grid cell as the store keeps it: its own coordinates and its type.
      The per-run search fields live in the searches' scratch maps. */
  datatype Cell = Cell(row: int, col: int, cellType: CellType)

  datatype Algorithm = DijkstraSearch | AStarSearch | BreadthFirst

  datatype GridSize = GridSize(rows: nat, cols: nat)

  datatype State = State(grid: seq<seq<Cell>>, gridSize: GridSize, algorithm: Algorithm,
                         animationSpeed: int, isRunning: bool,
                         startCell: Option<Coord>, endCell: Option<Coord>, shouldStop: bool)

  /** The state before any grid is built: no cells, a 20 by 40 size, A*,
      50 ms per step, idle, no start or end. */
  const Initial := State([], GridSize(20, 40), AStarSearch, 50, false, None, None, false)

  predicate InGrid(grid: seq<seq<Cell>>, p: Coord) {
    0 <= p.row < |grid| && 0 <= p.col < |grid[p.row]|
  }

  function TypeAt(grid: seq<seq<Cell>>, p: Coord): (t: CellType)
    requires InGrid(grid, p)
  {
    grid[p.row][p.col].cellType
  }

  /** Both references, when set, name cells of the grid. */
  predicate RefsInGrid(s: State) {
    && (s.startCell.Some? ==> InGrid(s.grid, s.startCell.value))
    && (s.endCell.Some? ==> InGrid(s.grid, s.endCell.value))
  }

  /** The start/end uniqueness the store is meant to keep: a cell has type
      start exactly when the start reference names it, and likewise for the
      end. So there is at most one start and at most one end, and each
      reference points at a cell of its own type. */
  ghost predicate Consistent(s: State) {
    && RefsInGrid(s)
    && (forall q :: InGrid(s.grid, q) ==> (TypeAt(s.grid, q) == Start <==> s.startCell == Some(q)))
    && (forall q :: InGrid(s.grid, q) ==> (TypeAt(s.grid, q) == End <==> s.endCell == Some(q)))
  }

  /** The two grids have the same shape. */
  predicate SameShape(a: seq<seq<Cell>>, b: seq<seq<Cell>>) {
    |a| == |b| && forall i :: 0 <= i < |a| ==> |a[i]| == |b[i]|
  }

  /** `grid` with the type of the cell at `p` replaced by `t`; the cell keeps
      its coordinates. */
  function Retype(grid: seq<seq<Cell>>, p: Coord, t: CellType): (r: seq<seq<Cell>>)
    requires InGrid(grid, p)
    ensures SameShape(r, grid)
    ensures r[p.row][p.col] == grid[p.row][p.col].(cellType := t)
    ensures forall q :: InGrid(grid, q) && q != p ==> r[q.row][q.col] == grid[q.row][q.col]
  {
    grid[p.row := grid[p.row][p.col := grid[p.row][p.col].(cellType := t)]]
  }

  /** `initializeGrid(rows, cols)`: a fresh grid of empty cells, each
      carrying its own coordinates, at the given size, with both references
      cleared. Nothing of the old grid survives. */
  function InitializeGrid(s: State, rows: nat, cols: nat): (r: State)
    ensures |r.grid| == rows
    ensures forall i :: 0 <= i < rows ==> |r.grid[i]| == cols
    ensures forall i, j :: 0 <= i < rows && 0 <= j < cols ==> r.grid[i][j] == Cell(i, j, Empty)
    ensures r.gridSize == GridSize(rows, cols)
    ensures r.startCell == None && r.endCell == None
    ensures r.algorithm == s.algorithm && r.animationSpeed == s.animationSpeed
    ensures r.isRunning == s.isRunning && r.shouldStop == s.shouldStop
  {
    var grid := seq(rows, i => seq(cols, j => Cell(i, j, Empty)));
    s.(grid := grid, gridSize := GridSize(rows, cols), startCell := None, endCell := None)
  }

  /** A freshly built grid keeps the start/end uniqueness. */
  lemma InitializeGridConsistent(s: State, rows: nat, cols: nat)
    ensures Consistent(InitializeGrid(s, rows, cols))
  {
    var r := InitializeGrid(s, rows, cols);
    forall q | InGrid(r.grid, q)
      ensures TypeAt(r.grid, q) == Empty
    {
      assert r.grid[q.row][q.col] == Cell(q.row, q.col, Empty);
    }
  }

  /** The state the page starts from is consistent, and `resetGrid` on it
      builds the default 20 by 40 grid of empty cells with no start or
      end, keeping A*, the 50 ms speed and the idle flags. */
  lemma InitialBuildsDefaultGrid()
    ensures Consistent(Initial)
    ensures var r := ResetGrid(Initial);
            && Consistent(r)
            && |r.grid| == 20 && (forall i :: 0 <= i < 20 ==> |r.grid[i]| == 40)
            && (forall q :: InGrid(r.grid, q) ==> TypeAt(r.grid, q) == Empty)
            && r.startCell == None && r.endCell == None
            && r.algorithm == AStarSearch && r.animationSpeed == 50 && !r.isRunning && !r.shouldStop
  {
    InitializeGridConsistent(Initial, 20, 40);
  }

  /** `setCell(row, col, type)` as written: the target cell is retyped first;
      then, in one else-if chain, a new start demotes the previous start
      cell to empty and takes the start reference, a new end does the same
      for the end, and otherwise overwriting the start (or end) cell clears
      its reference. `setCell` expects an in-grid target and in-grid
      references, since it indexes the grid with them. */
  function SetCell(s: State, row: int, col: int, t: CellType): (r: State)
    requires InGrid(s.grid, Coord(row, col)) && RefsInGrid(s)
    ensures SameShape(r.grid, s.grid)
    ensures r.gridSize == s.gridSize && r.algorithm == s.algorithm && r.animationSpeed == s.animationSpeed
    ensures r.isRunning == s.isRunning && r.shouldStop == s.shouldStop
  {
    var p := Coord(row, col);
    var oldType := TypeAt(s.grid, p);
    var grid := Retype(s.grid, p, t);
    if t == Start then
      var grid' := if s.startCell.Some? then Retype(grid, s.startCell.value, Empty) else grid;
      s.(grid := grid', startCell := Some(p))
    else if t == End then
      var grid' := if s.endCell.Some? then Retype(grid, s.endCell.value, Empty) else grid;
      s.(grid := grid', endCell := Some(p))
    else if oldType == Start && t != Start then
      s.(grid := grid, startCell := None)
    else if oldType == End && t != End then
      s.(grid := grid, endCell := None)
    else
      s.(grid := grid)
  }

  /** `setCell` changes the type of the target cell and, for a new start
      or end, of the previous start or end cell, and nothing else: every
      cell keeps its coordinates and every other cell its type. */
  lemma SetCellFrame(s: State, row: int, col: int, t: CellType, q: Coord)
    requires InGrid(s.grid, Coord(row, col)) && RefsInGrid(s) && InGrid(s.grid, q)
    ensures SetCell(s, row, col, t).grid[q.row][q.col].row == s.grid[q.row][q.col].row
    ensures SetCell(s, row, col, t).grid[q.row][q.col].col == s.grid[q.row][q.col].col
    ensures q != Coord(row, col) && !(t == Start && s.startCell == Some(q)) && !(t == End && s.endCell == Some(q)) ==>
              TypeAt(SetCell(s, row, col, t).grid, q) == TypeAt(s.grid, q)
  {
  }

  /** A new start takes the start reference and demotes the previous start
      cell, when it is another cell, to empty; the end reference stays. */
  lemma SetCellStart(s: State, row: int, col: int)
    requires InGrid(s.grid, Coord(row, col)) && RefsInGrid(s)
    ensures SetCell(s, row, col, Start).startCell == Some(Coord(row, col))
    ensures SetCell(s, row, col, Start).endCell == s.endCell
    ensures s.startCell != Some(Coord(row, col)) ==> TypeAt(SetCell(s, row, col, Start).grid, Coord(row, col)) == Start
    ensures s.startCell.Some? && s.startCell.value != Coord(row, col) ==>
              TypeAt(SetCell(s, row, col, Start).grid, s.startCell.value) == Empty
  {
  }

  /** A new end takes the end reference and demotes the previous end cell,
      when it is another cell, to empty; the start reference stays. */
  lemma SetCellEnd(s: State, row: int, col: int)
    requires InGrid(s.grid, Coord(row, col)) && RefsInGrid(s)
    ensures SetCell(s, row, col, End).endCell == Some(Coord(row, col))
    ensures SetCell(s, row, col, End).startCell == s.startCell
    ensures s.endCell != Some(Coord(row, col)) ==> TypeAt(SetCell(s, row, col, End).grid, Coord(row, col)) == End
    ensures s.endCell.Some? && s.endCell.value != Coord(row, col) ==>
              TypeAt(SetCell(s, row, col, End).grid, s.endCell.value) == Empty
  {
  }

  /** Any other type is written as given, and overwriting the start (or
      end) cell clears that reference. */
  lemma SetCellOther(s: State, row: int, col: int, t: CellType)
    requires InGrid(s.grid, Coord(row, col)) && RefsInGrid(s)
    requires t != Start && t != End
    ensures TypeAt(SetCell(s, row, col, t).grid, Coord(row, col)) == t
    ensures SetCell(s, row, col, t).startCell == (if TypeAt(s.grid, Coord(row, col)) == Start then None else s.startCell)
    ensures SetCell(s, row, col, t).endCell == (if TypeAt(s.grid, Coord(row, col)) == End then None else s.endCell)
  {
  }

  /** `setCell` as intended: the previous start (or end), when it is another
      cell, is demoted before the target is retyped, and overwriting the
      start or end cell with anything else clears that reference whatever
      the new type. */
  function SetCellFixed(s: State, row: int, col: int, t: CellType): (r: State)
    requires InGrid(s.grid, Coord(row, col)) && RefsInGrid(s)
    ensures SameShape(r.grid, s.grid)
    ensures TypeAt(r.grid, Coord(row, col)) == t
    ensures forall q :: InGrid(s.grid, q) && q != Coord(row, col) && Previous(s, t) != Some(q) ==>
              r.grid[q.row][q.col] == s.grid[q.row][q.col]
    ensures Previous(s, t).Some? && Previous(s, t).value != Coord(row, col) ==>
              var o := Previous(s, t).value;
              InGrid(s.grid, o) && r.grid[o.row][o.col] == s.grid[o.row][o.col].(cellType := Empty)
    ensures r.grid[row][col] == s.grid[row][col].(cellType := t)
    ensures r.startCell == (if t == Start then Some(Coord(row, col)) else if TypeAt(s.grid, Coord(row, col)) == Start then None else s.startCell)
    ensures r.endCell == (if t == End then Some(Coord(row, col)) else if TypeAt(s.grid, Coord(row, col)) == End then None else s.endCell)
    ensures r.gridSize == s.gridSize && r.algorithm == s.algorithm && r.animationSpeed == s.animationSpeed
    ensures r.isRunning == s.isRunning && r.shouldStop == s.shouldStop
  {
    var p := Coord(row, col);
    var oldType := TypeAt(s.grid, p);
    var demoted := Demoted(s, p, t);
    var startCell := if t == Start then Some(p) else if oldType == Start then None else s.startCell;
    var endCell := if t == End then Some(p) else if oldType == End then None else s.endCell;
    s.(grid := Retype(demoted, p, t), startCell := startCell, endCell := endCell)
  }

  /** The reference a new cell of type `t` takes over: the start for a
      new start, the end for a new end, none otherwise. */
  function Previous(s: State, t: CellType): (o: Option<Coord>)
    ensures o.Some? ==> (t == Start && o == s.startCell) || (t == End && o == s.endCell)
  {
    if t == Start then s.startCell else if t == End then s.endCell else None
  }

  /** The grid after the intended `setCell` demotes the previous start (for
      a new start) or end (for a new end) to empty, before the target is
      retyped. A previous start or end on the target itself is left alone. */
  function Demoted(s: State, p: Coord, t: CellType): (g: seq<seq<Cell>>)
    requires InGrid(s.grid, p) && RefsInGrid(s)
    ensures SameShape(g, s.grid)
    ensures forall q :: InGrid(s.grid, q) && Previous(s, t) != Some(q) ==> g[q.row][q.col] == s.grid[q.row][q.col]
    ensures Previous(s, t) == Some(p) ==> g == s.grid
    ensures Previous(s, t).Some? && Previous(s, t).value != p ==>
              var o := Previous(s, t).value;
              InGrid(s.grid, o) && g[o.row][o.col] == s.grid[o.row][o.col].(cellType := Empty)
  {
    var o := Previous(s, t);
    if o.Some? && o.value != p then Retype(s.grid, o.value, Empty) else s.grid
  }

  /** The intended `setCell` keeps the start/end uniqueness, whatever the
      target and the new type. */
  lemma SetCellFixedConsistent(s: State, row: int, col: int, t: CellType)
    requires Consistent(s) && InGrid(s.grid, Coord(row, col))
    ensures Consistent(SetCellFixed(s, row, col, t))
  {
    var p := Coord(row, col);
    var r := SetCellFixed(s, row, col, t);
    forall q | InGrid(r.grid, q)
      ensures TypeAt(r.grid, q) == Start <==> r.startCell == Some(q)
      ensures TypeAt(r.grid, q) == End <==> r.endCell == Some(q)
    {
      assert InGrid(s.grid, q);
      if q != p {
        if t == Start && s.startCell == Some(q) {
          assert TypeAt(r.grid, q) == Empty;
        } else if t == End && s.endCell == Some(q) {
          assert TypeAt(r.grid, q) == Empty;
        } else {
          assert TypeAt(r.grid, q) == TypeAt(s.grid, q);
        }
      }
    }
  }

  /** A new start or end placed on the cell that the start or end
      reference already names: the one case the code as written mishandles. */
  predicate Retakes(s: State, p: Coord, t: CellType) {
    (t == Start || t == End) && (s.startCell == Some(p) || s.endCell == Some(p))
  }

  /** The code as written and the intended `setCell` agree exactly when a
      new start or end does not land on the current start or end cell, and
      there the code keeps the start/end uniqueness too. */
  lemma SetCellAgrees(s: State, row: int, col: int, t: CellType)
    requires Consistent(s) && InGrid(s.grid, Coord(row, col))
    ensures SetCell(s, row, col, t) == SetCellFixed(s, row, col, t) <==> !Retakes(s, Coord(row, col), t)
    ensures !Retakes(s, Coord(row, col), t) ==> Consistent(SetCell(s, row, col, t))
  {
    var p := Coord(row, col);
    var a := SetCell(s, row, col, t);
    var b := SetCellFixed(s, row, col, t);
    if Retakes(s, p, t) {
      SetCellDiffers(s, row, col, t);
    } else {
      forall i | 0 <= i < |a.grid|
        ensures a.grid[i] == b.grid[i]
      {
        forall j | 0 <= j < |a.grid[i]|
          ensures a.grid[i][j] == b.grid[i][j]
        {
          SetCellAgreesAt(s, row, col, t, Coord(i, j));
        }
      }
      assert a.grid == b.grid;
      SetCellFixedConsistent(s, row, col, t);
    }
  }

  lemma SetCellAgreesAt(s: State, row: int, col: int, t: CellType, q: Coord)
    requires Consistent(s) && InGrid(s.grid, Coord(row, col)) && InGrid(s.grid, q)
    requires !Retakes(s, Coord(row, col), t)
    ensures SetCell(s, row, col, t).grid[q.row][q.col] == SetCellFixed(s, row, col, t).grid[q.row][q.col]
    ensures SetCell(s, row, col, t).startCell == SetCellFixed(s, row, col, t).startCell
    ensures SetCell(s, row, col, t).endCell == SetCellFixed(s, row, col, t).endCell
  {
  }

  /** On the current start or end cell, a new start or end as written
      differs from the intended one: in the cell's type or in a reference. */
  lemma SetCellDiffers(s: State, row: int, col: int, t: CellType)
    requires Consistent(s) && InGrid(s.grid, Coord(row, col))
    requires Retakes(s, Coord(row, col), t)
    ensures SetCell(s, row, col, t) != SetCellFixed(s, row, col, t)
  {
    var p := Coord(row, col);
    var a := SetCell(s, row, col, t);
    var b := SetCellFixed(s, row, col, t);
    if s.startCell == Some(p) {
      assert TypeAt(s.grid, p) == Start;
      if t == Start {
        SetCellRestartEmptiesStart(s, row, col);
        assert TypeAt(a.grid, p) != TypeAt(b.grid, p);
      } else {
        assert a.startCell == Some(p) && b.startCell == None;
      }
    } else {
      assert TypeAt(s.grid, p) == End;
      if t == End {
        assert a.grid == Retype(Retype(s.grid, p, End), p, Empty);
        assert TypeAt(a.grid, p) != TypeAt(b.grid, p);
      } else {
        SetCellStartOnEndKeepsEndRef(s, row, col);
        assert a.endCell == Some(p) && b.endCell == None;
      }
    }
  }

  /** Setting the start again on the current start cell, as written, leaves
      the cell empty while the start reference still names it. */
  lemma SetCellRestartEmptiesStart(s: State, row: int, col: int)
    requires Consistent(s) && InGrid(s.grid, Coord(row, col))
    requires s.startCell == Some(Coord(row, col))
    ensures TypeAt(SetCell(s, row, col, Start).grid, Coord(row, col)) == Empty
    ensures SetCell(s, row, col, Start).startCell == Some(Coord(row, col))
    ensures !Consistent(SetCell(s, row, col, Start))
  {
    var r := SetCell(s, row, col, Start);
    assert r.grid == Retype(Retype(s.grid, Coord(row, col), Start), Coord(row, col), Empty);
  }

  /** Setting the start on the current end cell, as written, leaves the end
      reference naming a start cell. */
  lemma SetCellStartOnEndKeepsEndRef(s: State, row: int, col: int)
    requires Consistent(s) && InGrid(s.grid, Coord(row, col))
    requires s.endCell == Some(Coord(row, col))
    ensures SetCell(s, row, col, Start).endCell == Some(Coord(row, col))
    ensures TypeAt(SetCell(s, row, col, Start).grid, Coord(row, col)) == Start
    ensures !Consistent(SetCell(s, row, col, Start))
  {
    var p := Coord(row, col);
    assert s.startCell != Some(p) by {
      assert TypeAt(s.grid, p) == End;
    }
  }

  /** A concrete grid that shows both slips: one row holding the start and
      the end. */
  const TwoCells := State([[Cell(0, 0, Start), Cell(0, 1, End)]], GridSize(1, 2), AStarSearch, 50, false,
                          Some(Coord(0, 0)), Some(Coord(0, 1)), false)

  lemma TwoCellsShowsSlips()
    ensures Consistent(TwoCells)
    ensures !Consistent(SetCell(TwoCells, 0, 0, Start))
    ensures !Consistent(SetCell(TwoCells, 0, 1, Start))
    ensures Consistent(SetCellFixed(TwoCells, 0, 0, Start)) && Consistent(SetCellFixed(TwoCells, 0, 1, Start))
  {
    var s := TwoCells;
    forall q | InGrid(s.grid, q)
      ensures q == Coord(0, 0) || q == Coord(0, 1)
    {
    }
    SetCellRestartEmptiesStart(s, 0, 0);
    SetCellStartOnEndKeepsEndRef(s, 0, 1);
    SetCellFixedConsistent(s, 0, 0, Start);
    SetCellFixedConsistent(s, 0, 1, Start);
  }

  /** `clearPath()`: every path or visited cell becomes empty; every other
      cell, the shape and the references stay. */
  function ClearPath(s: State): (r: State)
    ensures SameShape(r.grid, s.grid)
    ensures forall q :: InGrid(s.grid, q) ==>
              r.grid[q.row][q.col] == s.grid[q.row][q.col].(cellType := Cleared(TypeAt(s.grid, q)))
    ensures r.startCell == s.startCell && r.endCell == s.endCell
    ensures r.gridSize == s.gridSize && r.algorithm == s.algorithm && r.animationSpeed == s.animationSpeed
    ensures r.isRunning == s.isRunning && r.shouldStop == s.shouldStop
  {
    var grid := seq(|s.grid|, i requires 0 <= i < |s.grid| =>
                  seq(|s.grid[i]|, j requires 0 <= j < |s.grid[i]| =>
                    s.grid[i][j].(cellType := Cleared(s.grid[i][j].cellType))));
    s.(grid := grid)
  }

  /** The type a cell has after `clearPath`. */
  function Cleared(t: CellType): (u: CellType)
    ensures u != Path && u != Visited
    ensures t != Path && t != Visited ==> u == t
  {
    if t == Path || t == Visited then Empty else t
  }

  /** Clearing twice is clearing once. */
  lemma ClearPathIdempotent(s: State)
    ensures ClearPath(ClearPath(s)) == ClearPath(s)
  {
    var a := ClearPath(s);
    var b := ClearPath(a);
    forall i | 0 <= i < |a.grid|
      ensures b.grid[i] == a.grid[i]
    {
      forall j | 0 <= j < |a.grid[i]|
        ensures b.grid[i][j] == a.grid[i][j]
      {
        assert InGrid(a.grid, Coord(i, j));
      }
    }
  }

  /** Clearing the path keeps the start/end uniqueness. */
  lemma ClearPathConsistent(s: State)
    requires Consistent(s)
    ensures Consistent(ClearPath(s))
  {
    var r := ClearPath(s);
    forall q | InGrid(r.grid, q)
      ensures TypeAt(r.grid, q) == Cleared(TypeAt(s.grid, q))
    {
      assert InGrid(s.grid, q);
    }
  }

  /** `resetGrid()` as written: the callback handed to the store's `update`
      calls `initializeGrid`, whose own `update` publishes a blank grid, and
      then returns the state it was given, which the outer `update`
      publishes last. The result is the states the store takes, in order. */
  function ResetGridAsWritten(s: State): (published: seq<State>)
    ensures |published| == 2
    ensures published[0] == ResetGrid(s)
    ensures published[|published| - 1] == s
  {
    [InitializeGrid(s, s.gridSize.rows, s.gridSize.cols), s]
  }

  /** `resetGrid()` as intended: a blank grid at the current size. */
  function ResetGrid(s: State): (r: State)
    ensures |r.grid| == s.gridSize.rows
    ensures forall i :: 0 <= i < |r.grid| ==> |r.grid[i]| == s.gridSize.cols
    ensures forall q :: InGrid(r.grid, q) ==> TypeAt(r.grid, q) == Empty
    ensures forall q :: InGrid(r.grid, q) ==> r.grid[q.row][q.col] == Cell(q.row, q.col, Empty)
    ensures r.startCell == None && r.endCell == None
    ensures r.gridSize == s.gridSize && r.algorithm == s.algorithm && r.animationSpeed == s.animationSpeed
    ensures r.isRunning == s.isRunning && r.shouldStop == s.shouldStop
  {
    var r := InitializeGrid(s, s.gridSize.rows, s.gridSize.cols);
    assert forall q :: InGrid(r.grid, q) ==> r.grid[q.row][q.col] == Cell(q.row, q.col, Empty);
    r
  }

  /** Resetting twice is resetting once, and a reset grid keeps the
      start/end uniqueness. */
  lemma ResetGridIdempotent(s: State)
    ensures ResetGrid(ResetGrid(s)) == ResetGrid(s)
    ensures Consistent(ResetGrid(s))
  {
    InitializeGridConsistent(s, s.gridSize.rows, s.gridSize.cols);
    InitializeGridConsistent(ResetGrid(s), s.gridSize.rows, s.gridSize.cols);
  }

  /** As written, the last state published by a reset is the state before
      it: a wall drawn before the reset is still there after it. */
  lemma ResetGridAsWrittenKeepsWalls()
    ensures var s := Initial.(grid := [[Cell(0, 0, Wall)]], gridSize := GridSize(1, 1));
            var last := ResetGridAsWritten(s)[1];
            TypeAt(last.grid, Coord(0, 0)) == Wall && TypeAt(ResetGrid(s).grid, Coord(0, 0)) == Empty
  {
  }

  /** `setAlgorithm(a)`: chooses the search and touches nothing else. */
  function SetAlgorithm(s: State, a: Algorithm): (r: State)
    ensures r.algorithm == a
    ensures r.grid == s.grid && r.startCell == s.startCell && r.endCell == s.endCell
    ensures r.gridSize == s.gridSize && r.animationSpeed == s.animationSpeed
    ensures r.isRunning == s.isRunning && r.shouldStop == s.shouldStop
  {
    s.(algorithm := a)
  }

  /** `setAnimationSpeed(ms)`: sets the delay per step, unchecked, and
      touches nothing else. */
  function SetAnimationSpeed(s: State, speed: int): (r: State)
    ensures r.animationSpeed == speed
    ensures r.grid == s.grid && r.startCell == s.startCell && r.endCell == s.endCell
    ensures r.gridSize == s.gridSize && r.algorithm == s.algorithm
    ensures r.isRunning == s.isRunning && r.shouldStop == s.shouldStop
  {
    s.(animationSpeed := speed)
  }

  /** `setIsRunning(b)`: sets the running flag and always clears the stop
      request. */
  function SetIsRunning(s: State, b: bool): (r: State)
    ensures r.isRunning == b && !r.shouldStop
    ensures r.grid == s.grid && r.startCell == s.startCell && r.endCell == s.endCell
    ensures r.gridSize == s.gridSize && r.algorithm == s.algorithm && r.animationSpeed == s.animationSpeed
  {
    s.(isRunning := b, shouldStop := false)
  }

  /** `stopAlgorithm()`: requests a stop and touches nothing else. */
  function StopAlgorithm(s: State): (r: State)
    ensures r.shouldStop && r.isRunning == s.isRunning
    ensures r.grid == s.grid && r.startCell == s.startCell && r.endCell == s.endCell
    ensures r.gridSize == s.gridSize && r.algorithm == s.algorithm && r.animationSpeed == s.animationSpeed
  {
    s.(shouldStop := true)
  }
}
