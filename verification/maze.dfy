/**
  The maze grid of Week4/maze.cc.

  A maze of R rows and C columns is stored as one flat array over an
  "expanded" (2R+1) x (2C+1) grid: cell (r, c) sits at expanded coordinate
  (2r+1, 2c+1), and the wall on each side of it at the slot one step away.
  The maze is modelled as an immutable value; every mutator returns the
  updated maze.
 */
module MazeGrid {

  datatype Location = Location(row: int, col: int)

  datatype Direction = North | East | South | West

  datatype MazeCell = Empty | Wall | Visited

  datatype Maze = Maze(numRows: int, numCols: int, start: Location, end: Location, cells: seq<MazeCell>)

  /**
    The product `a * b` as repeated addition.  The index arithmetic is written
    with it, so that facts about products enter a proof only through
    MulIsProduct.
   */
  function Mul(a: int, b: int): int
    decreases if b < 0 then -b else b
  {
    if b == 0 then 0 else if b > 0 then Mul(a, b - 1) + a else Mul(a, b + 1) - a
  }

  lemma {:induction false} MulIsProduct(a: int, b: int)
    decreases if b < 0 then -b else b
    ensures Mul(a, b) == a * b
  {
    if b > 0 {
      MulIsProduct(a, b - 1);
    } else if b < 0 {
      MulIsProduct(a, b + 1);
    }
  }

  /** Number of slots of the expanded (2R+1) x (2C+1) grid. */
  function ArraySize(rows: int, cols: int): (size: int)
    ensures rows >= 0 && cols >= 0 ==> size >= 1
  {
    MulIsProduct(2 * rows + 1, 2 * cols + 1);
    Mul(2 * rows + 1, 2 * cols + 1)
  }

  /** The array holds exactly one slot per expanded coordinate. */
  predicate Valid(m: Maze)
  {
    m.numRows >= 0 && m.numCols >= 0 && |m.cells| == ArraySize(m.numRows, m.numCols)
  }

  /** Cell coordinates the maze's assertions accept. */
  predicate InRange(m: Maze, row: int, col: int)
  {
    0 <= row < m.numRows && 0 <= col < m.numCols
  }

  /** Expanded coordinates inside the (2R+1) x (2C+1) grid. */
  predicate InExpanded(m: Maze, loc: Location)
  {
    0 <= loc.row <= 2 * m.numRows && 0 <= loc.col <= 2 * m.numCols
  }

  /** Two mazes with the same dimensions, start, end and array length. */
  predicate SameShape(a: Maze, b: Maze)
  {
    a.numRows == b.numRows && a.numCols == b.numCols && a.start == b.start && a.end == b.end
    && |a.cells| == |b.cells|
  }

  function Opposite(d: Direction): Direction
  {
    match d
    case North => South
    case South => North
    case East => West
    case West => East
  }

  // ---------------------------------------------------------------------------
  // Index arithmetic
  // ---------------------------------------------------------------------------

  lemma RowMajorBound(w: int, h: int, row: int, col: int)
    ensures 0 <= row < h && 0 <= col < w ==> 0 <= w * row + col < w * h
  {
    if 0 <= row < h && 0 <= col < w {
      assert w * row <= w * (h - 1) by {
        assert w * (h - 1) - w * row == w * (h - 1 - row);
      }
    }
  }

  lemma MulAtLeast(w: int, k: int)
    requires w >= 0 && k >= 1
    ensures w * k >= w
  {
    assert w * k == w * (k - 1) + w;
  }

  lemma RowMajorInjective(w: int, r1: int, c1: int, r2: int, c2: int)
    requires 0 <= c1 < w && 0 <= c2 < w
    requires w * r1 + c1 == w * r2 + c2
    ensures r1 == r2 && c1 == c2
  {
    if r1 != r2 {
      var lo, hi := if r1 < r2 then r1 else r2, if r1 < r2 then r2 else r1;
      assert w * hi == w * lo + w * (hi - lo);
      MulAtLeast(w, hi - lo);
      assert false;
    }
  }

  /** getArrayIndex: row-major position of an expanded coordinate. */
  function ArrayIndex(m: Maze, loc: Location): (idx: int)
    ensures m.numRows >= 0 && m.numCols >= 0 && InExpanded(m, loc) ==>
      0 <= idx < ArraySize(m.numRows, m.numCols)
  {
    MulIsProduct(2 * m.numCols + 1, loc.row);
    MulIsProduct(2 * m.numRows + 1, 2 * m.numCols + 1);
    RowMajorBound(2 * m.numCols + 1, 2 * m.numRows + 1, loc.row, loc.col);
    Mul(2 * m.numCols + 1, loc.row) + loc.col
  }

  /** Distinct expanded coordinates occupy distinct array slots. */
  lemma ArrayIndexInjective(m: Maze, a: Location, b: Location)
    requires m.numCols >= 0
    requires 0 <= a.col <= 2 * m.numCols && 0 <= b.col <= 2 * m.numCols
    ensures ArrayIndex(m, a) == ArrayIndex(m, b) ==> a == b
  {
    if ArrayIndex(m, a) == ArrayIndex(m, b) {
      MulIsProduct(2 * m.numCols + 1, a.row);
      MulIsProduct(2 * m.numCols + 1, b.row);
      RowMajorInjective(2 * m.numCols + 1, a.row, a.col, b.row, b.col);
    }
  }

  /** getCellArrayCoord: the expanded coordinate of a cell. */
  function CellArrayCoord(cellRow: int, cellCol: int): (loc: Location)
  {
    Location(2 * cellRow + 1, 2 * cellCol + 1)
  }

  /** Cells sit at odd/odd expanded coordinates, and the cell is recovered from its coordinate. */
  lemma CellCoordDecodes(cellRow: int, cellCol: int)
    ensures var loc := CellArrayCoord(cellRow, cellCol);
      && loc.row % 2 == 1 && loc.col % 2 == 1
      && (loc.row - 1) / 2 == cellRow && (loc.col - 1) / 2 == cellCol
  {
  }

  /**
    getWallArrayCoord: a wall slot is one step from its cell's slot, so exactly
    one of its coordinates is even.
   */
  function WallArrayCoord(cellRow: int, cellCol: int, direction: Direction): (loc: Location)
    ensures var cell := CellArrayCoord(cellRow, cellCol);
      (loc.row == cell.row && (loc.col == cell.col - 1 || loc.col == cell.col + 1))
      || (loc.col == cell.col && (loc.row == cell.row - 1 || loc.row == cell.row + 1))
  {
    var cell := CellArrayCoord(cellRow, cellCol);
    match direction
    case North => Location(cell.row - 1, cell.col)
    case South => Location(cell.row + 1, cell.col)
    case East => Location(cell.row, cell.col + 1)
    case West => Location(cell.row, cell.col - 1)
  }

  /** Exactly one coordinate of a wall slot is even, so no wall slot is a cell slot. */
  lemma WallCoordParity(cellRow: int, cellCol: int, direction: Direction)
    ensures var loc := WallArrayCoord(cellRow, cellCol, direction);
      (loc.row + loc.col) % 2 == 1
  {
  }

  /** The array slot of an in-range cell lies inside the array. */
  function CellIndex(m: Maze, cellRow: int, cellCol: int): (idx: int)
    requires Valid(m) && InRange(m, cellRow, cellCol)
    ensures 0 <= idx < |m.cells|
  {
    ArrayIndex(m, CellArrayCoord(cellRow, cellCol))
  }

  /** The array slot of any wall of an in-range cell lies inside the array. */
  function WallIndex(m: Maze, cellRow: int, cellCol: int, direction: Direction): (idx: int)
    requires Valid(m) && InRange(m, cellRow, cellCol)
    ensures 0 <= idx < |m.cells|
  {
    ArrayIndex(m, WallArrayCoord(cellRow, cellCol, direction))
  }

  /** Different cells have different slots. */
  lemma CellIndexInjective(m: Maze, r1: int, c1: int, r2: int, c2: int)
    requires Valid(m) && InRange(m, r1, c1) && InRange(m, r2, c2)
    ensures CellIndex(m, r1, c1) == CellIndex(m, r2, c2) ==> r1 == r2 && c1 == c2
  {
    ArrayIndexInjective(m, CellArrayCoord(r1, c1), CellArrayCoord(r2, c2));
  }

  /** No cell slot is ever a wall slot. */
  lemma CellNotWall(m: Maze, r1: int, c1: int, r2: int, c2: int, d: Direction)
    requires Valid(m) && InRange(m, r1, c1) && InRange(m, r2, c2)
    ensures CellIndex(m, r1, c1) != WallIndex(m, r2, c2, d)
  {
    ArrayIndexInjective(m, CellArrayCoord(r1, c1), WallArrayCoord(r2, c2, d));
  }

  lemma OtherCellsElsewhere(m: Maze, cellRow: int, cellCol: int)
    requires Valid(m) && InRange(m, cellRow, cellCol)
    ensures forall row, col :: InRange(m, row, col) && (row != cellRow || col != cellCol) ==>
      CellIndex(m, row, col) != CellIndex(m, cellRow, cellCol)
  {
    forall row, col | InRange(m, row, col) && (row != cellRow || col != cellCol)
      ensures CellIndex(m, row, col) != CellIndex(m, cellRow, cellCol)
    {
      CellIndexInjective(m, row, col, cellRow, cellCol);
    }
  }

  lemma CellAwayFromWalls(m: Maze, cellRow: int, cellCol: int)
    requires Valid(m) && InRange(m, cellRow, cellCol)
    ensures forall row, col, d :: InRange(m, row, col) ==> CellIndex(m, cellRow, cellCol) != WallIndex(m, row, col, d)
  {
    forall row, col, d | InRange(m, row, col)
      ensures CellIndex(m, cellRow, cellCol) != WallIndex(m, row, col, d)
    {
      CellNotWall(m, cellRow, cellCol, row, col, d);
    }
  }

  lemma WallAwayFromCells(m: Maze, cellRow: int, cellCol: int, direction: Direction)
    requires Valid(m) && InRange(m, cellRow, cellCol)
    ensures forall row, col :: InRange(m, row, col) ==> CellIndex(m, row, col) != WallIndex(m, cellRow, cellCol, direction)
  {
    forall row, col | InRange(m, row, col)
      ensures CellIndex(m, row, col) != WallIndex(m, cellRow, cellCol, direction)
    {
      CellNotWall(m, row, col, cellRow, cellCol, direction);
    }
  }

  // ---------------------------------------------------------------------------
  // Construction
  // ---------------------------------------------------------------------------

  /** init: an all-empty array of (2R+1)(2C+1) slots, start at the top left, end at the bottom right. */
  function Init(rows: int, cols: int): (m: Maze)
    requires rows >= 0 && cols >= 0
    ensures Valid(m) && m.numRows == rows && m.numCols == cols
    ensures |m.cells| == (2 * rows + 1) * (2 * cols + 1)
    ensures forall i :: 0 <= i < |m.cells| ==> m.cells[i] == Empty
    ensures m.start == Location(0, 0) && m.end == Location(rows - 1, cols - 1)
  {
    MulIsProduct(2 * rows + 1, 2 * cols + 1);
    Maze(rows, cols, Location(0, 0), Location(rows - 1, cols - 1), seq(ArraySize(rows, cols), _ => Empty))
  }

  /** copy: slot-by-slot copy of the array, with dimensions, start and end. */
  function Copy(m: Maze): (c: Maze)
    requires Valid(m)
    ensures c.numRows == m.numRows && c.numCols == m.numCols
    ensures c.start == m.start && c.end == m.end
    ensures c.cells == m.cells
  {
    var size := ArraySize(m.numRows, m.numCols);
    Maze(m.numRows, m.numCols, m.start, m.end, seq(size, i requires 0 <= i < size => m.cells[i]))
  }

  function SetStart(m: Maze, row: int, col: int): (r: Maze)
    requires InRange(m, row, col)
    ensures r.start == Location(row, col)
    ensures r.numRows == m.numRows && r.numCols == m.numCols && r.end == m.end && r.cells == m.cells
  {
    m.(start := Location(row, col))
  }

  function SetEnd(m: Maze, row: int, col: int): (r: Maze)
    requires InRange(m, row, col)
    ensures r.end == Location(row, col)
    ensures r.numRows == m.numRows && r.numCols == m.numCols && r.start == m.start && r.cells == m.cells
  {
    m.(end := Location(row, col))
  }

  /** clear: every slot, wall or cell, becomes empty. */
  function Clear(m: Maze): (r: Maze)
    requires Valid(m)
    ensures Valid(r) && SameShape(m, r)
    ensures forall i :: 0 <= i < |r.cells| ==> r.cells[i] == Empty
  {
    m.(cells := seq(ArraySize(m.numRows, m.numCols), _ => Empty))
  }

  // ---------------------------------------------------------------------------
  // Cells and walls
  // ---------------------------------------------------------------------------

  /** getCell: the value stored in the cell's slot, for an in-range cell. */
  function GetCell(m: Maze, cellRow: int, cellCol: int): (c: MazeCell)
    requires Valid(m) && InRange(m, cellRow, cellCol)
    ensures c == m.cells[CellIndex(m, cellRow, cellCol)]
  {
    m.cells[CellIndex(m, cellRow, cellCol)]
  }

  /** hasWall: whether the slot of the cell's wall in that direction holds a wall. */
  function HasWall(m: Maze, cellRow: int, cellCol: int, direction: Direction): (present: bool)
    requires Valid(m) && InRange(m, cellRow, cellCol)
    ensures present <==> m.cells[WallIndex(m, cellRow, cellCol, direction)] == Wall
  {
    m.cells[WallIndex(m, cellRow, cellCol, direction)] == Wall
  }

  /** isVisited: whether the cell's slot holds the visited mark. */
  function IsVisited(m: Maze, cellRow: int, cellCol: int): (visited: bool)
    requires Valid(m) && InRange(m, cellRow, cellCol)
    ensures visited <==> m.cells[CellIndex(m, cellRow, cellCol)] == Visited
  {
    GetCell(m, cellRow, cellCol) == Visited
  }

  /**
    The slots the observers read, in closed form: with W = 2C+1 the width of
    the expanded grid, cell (r, c) is at W(2r+1) + 2c+1, and its north, south,
    west and east walls one row up, one row down, one slot left and one slot
    right of it.
   */
  lemma SlotClosedForm(m: Maze, cellRow: int, cellCol: int)
    requires Valid(m) && InRange(m, cellRow, cellCol)
    ensures var w := 2 * m.numCols + 1;
      && CellIndex(m, cellRow, cellCol) == w * (2 * cellRow + 1) + 2 * cellCol + 1
      && WallIndex(m, cellRow, cellCol, North) == w * (2 * cellRow) + 2 * cellCol + 1
      && WallIndex(m, cellRow, cellCol, South) == w * (2 * cellRow + 2) + 2 * cellCol + 1
      && WallIndex(m, cellRow, cellCol, West) == w * (2 * cellRow + 1) + 2 * cellCol
      && WallIndex(m, cellRow, cellCol, East) == w * (2 * cellRow + 1) + 2 * cellCol + 2
  {
    var w := 2 * m.numCols + 1;
    MulIsProduct(w, 2 * cellRow);
    MulIsProduct(w, 2 * cellRow + 1);
    MulIsProduct(w, 2 * cellRow + 2);
  }

  /** setCell: the cell takes the new value; no other cell and no wall changes. */
  function SetCell(m: Maze, cellRow: int, cellCol: int, val: MazeCell): (r: Maze)
    requires Valid(m) && InRange(m, cellRow, cellCol)
    ensures Valid(r) && SameShape(m, r)
    ensures GetCell(r, cellRow, cellCol) == val
    ensures forall k :: 0 <= k < |m.cells| && k != CellIndex(m, cellRow, cellCol) ==> r.cells[k] == m.cells[k]
    ensures forall row, col :: InRange(m, row, col) && (row != cellRow || col != cellCol) ==>
      GetCell(r, row, col) == GetCell(m, row, col)
    ensures forall row, col, d :: InRange(m, row, col) ==> (HasWall(r, row, col, d) <==> HasWall(m, row, col, d))
  {
    var idx := CellIndex(m, cellRow, cellCol);
    OtherCellsElsewhere(m, cellRow, cellCol);
    CellAwayFromWalls(m, cellRow, cellCol);
    m.(cells := m.cells[idx := val])
  }

  /** setVisited: the cell becomes visited; no other cell and no wall changes. */
  function SetVisited(m: Maze, cellRow: int, cellCol: int): (r: Maze)
    requires Valid(m) && InRange(m, cellRow, cellCol)
    ensures Valid(r) && SameShape(m, r)
    ensures IsVisited(r, cellRow, cellCol)
    ensures forall row, col :: InRange(m, row, col) && (row != cellRow || col != cellCol) ==>
      GetCell(r, row, col) == GetCell(m, row, col)
    ensures forall row, col, d :: InRange(m, row, col) ==> (HasWall(r, row, col, d) <==> HasWall(m, row, col, d))
  {
    SetCell(m, cellRow, cellCol, Visited)
  }

  /** setWall: the wall is present afterwards; only its slot changes, so no cell and no other wall is affected. */
  function SetWall(m: Maze, cellRow: int, cellCol: int, direction: Direction): (r: Maze)
    requires Valid(m) && InRange(m, cellRow, cellCol)
    ensures Valid(r) && SameShape(m, r)
    ensures HasWall(r, cellRow, cellCol, direction)
    ensures forall k :: 0 <= k < |m.cells| && k != WallIndex(m, cellRow, cellCol, direction) ==>
      r.cells[k] == m.cells[k]
    ensures forall row, col :: InRange(m, row, col) ==> GetCell(r, row, col) == GetCell(m, row, col)
    ensures forall row, col, d :: InRange(m, row, col) && HasWall(m, row, col, d) ==> HasWall(r, row, col, d)
  {
    var idx := WallIndex(m, cellRow, cellCol, direction);
    WallAwayFromCells(m, cellRow, cellCol, direction);
    m.(cells := m.cells[idx := Wall])
  }

  /** clearWall: the wall is gone afterwards; only its slot changes. */
  function ClearWall(m: Maze, cellRow: int, cellCol: int, direction: Direction): (r: Maze)
    requires Valid(m) && InRange(m, cellRow, cellCol)
    ensures Valid(r) && SameShape(m, r)
    ensures !HasWall(r, cellRow, cellCol, direction)
    ensures forall k :: 0 <= k < |m.cells| && k != WallIndex(m, cellRow, cellCol, direction) ==>
      r.cells[k] == m.cells[k]
    ensures forall row, col :: InRange(m, row, col) ==> GetCell(r, row, col) == GetCell(m, row, col)
    ensures forall row, col, d :: InRange(m, row, col) ==>
      (HasWall(r, row, col, d) <==> HasWall(m, row, col, d) && WallIndex(m, row, col, d) != WallIndex(m, cellRow, cellCol, direction))
  {
    var idx := WallIndex(m, cellRow, cellCol, direction);
    WallAwayFromCells(m, cellRow, cellCol, direction);
    m.(cells := m.cells[idx := Empty])
  }

  /** The body of setAllWalls' inner loop: the four wall slots of one cell are written. */
  function SetFourWalls(m: Maze, cellRow: int, cellCol: int): (r: Maze)
    requires Valid(m) && InRange(m, cellRow, cellCol)
    ensures Valid(r) && SameShape(m, r)
    ensures forall d :: r.cells[WallIndex(m, cellRow, cellCol, d)] == Wall
    ensures forall k :: 0 <= k < |m.cells| ==> r.cells[k] == m.cells[k] || r.cells[k] == Wall
    ensures forall row, col :: InRange(m, row, col) ==> GetCell(r, row, col) == GetCell(m, row, col)
  {
    var north := WallIndex(m, cellRow, cellCol, North);
    var south := WallIndex(m, cellRow, cellCol, South);
    var west := WallIndex(m, cellRow, cellCol, West);
    var east := WallIndex(m, cellRow, cellCol, East);
    WallAwayFromCells(m, cellRow, cellCol, North);
    WallAwayFromCells(m, cellRow, cellCol, South);
    WallAwayFromCells(m, cellRow, cellCol, West);
    WallAwayFromCells(m, cellRow, cellCol, East);
    m.(cells := m.cells[north := Wall][south := Wall][west := Wall][east := Wall])
  }

  /** Writing the walls of cell (i, j) keeps the walls already written in row i. */
  lemma RowWallsStep(m: Maze, r: Maze, i: int, j: int)
    requires Valid(m) && Valid(r) && SameShape(m, r) && 0 <= i < m.numRows && 0 <= j < m.numCols
    requires forall col, d :: 0 <= col < j ==> r.cells[WallIndex(m, i, col, d)] == Wall
    ensures forall col, d :: 0 <= col <= j ==> SetFourWalls(r, i, j).cells[WallIndex(m, i, col, d)] == Wall
  {
    var next := SetFourWalls(r, i, j);
    forall col, d | 0 <= col <= j
      ensures next.cells[WallIndex(m, i, col, d)] == Wall
    {
      if col == j {
        assert WallIndex(r, i, j, d) == WallIndex(m, i, j, d);
      }
    }
  }

  /** Writing the walls of a cell leaves every cell of the original maze as it was. */
  lemma RowCellsStep(m: Maze, r: Maze, i: int, j: int)
    requires Valid(m) && Valid(r) && SameShape(m, r) && 0 <= i < m.numRows && 0 <= j < m.numCols
    requires forall row, col :: InRange(m, row, col) ==> GetCell(r, row, col) == GetCell(m, row, col)
    ensures forall row, col :: InRange(m, row, col) ==> GetCell(SetFourWalls(r, i, j), row, col) == GetCell(m, row, col)
  {
  }

  /** The inner loop of setAllWalls: all walls of every cell in row `i`. */
  method SetRowWalls(m: Maze, i: int) returns (r: Maze)
    requires Valid(m) && 0 <= i < m.numRows
    ensures Valid(r) && SameShape(m, r)
    ensures forall col, d :: 0 <= col < m.numCols ==> r.cells[WallIndex(m, i, col, d)] == Wall
    ensures forall k :: 0 <= k < |m.cells| ==> r.cells[k] == m.cells[k] || r.cells[k] == Wall
    ensures forall row, col :: InRange(m, row, col) ==> GetCell(r, row, col) == GetCell(m, row, col)
  {
    r := m;
    var j := 0;
    while j < m.numCols
      invariant 0 <= j <= m.numCols
      invariant Valid(r) && SameShape(m, r)
      invariant forall col, d :: 0 <= col < j ==> r.cells[WallIndex(m, i, col, d)] == Wall
      invariant forall k :: 0 <= k < |m.cells| ==> r.cells[k] == m.cells[k] || r.cells[k] == Wall
      invariant forall row, col :: InRange(m, row, col) ==> GetCell(r, row, col) == GetCell(m, row, col)
    {
      RowWallsStep(m, r, i, j);
      RowCellsStep(m, r, i, j);
      r := SetFourWalls(r, i, j);
      j := j + 1;
    }
  }

  /** After row i is written, the walls of rows 0..i are all present. */
  lemma AllWallsStep(m: Maze, prev: Maze, r: Maze, i: int)
    requires Valid(m) && Valid(prev) && Valid(r) && SameShape(m, prev) && SameShape(m, r)
    requires 0 <= i < m.numRows
    requires forall row, col, d :: InRange(m, row, col) && row < i ==> prev.cells[WallIndex(m, row, col, d)] == Wall
    requires forall col, d :: 0 <= col < m.numCols ==> r.cells[WallIndex(prev, i, col, d)] == Wall
    requires forall k :: 0 <= k < |prev.cells| ==> r.cells[k] == prev.cells[k] || r.cells[k] == Wall
    ensures forall row, col, d :: InRange(m, row, col) && row <= i ==> r.cells[WallIndex(m, row, col, d)] == Wall
  {
    forall row, col, d | InRange(m, row, col) && row <= i
      ensures r.cells[WallIndex(m, row, col, d)] == Wall
    {
      if row == i {
        assert WallIndex(prev, i, col, d) == WallIndex(m, i, col, d);
      }
    }
  }

  /** A maze whose every wall slot holds a wall has every wall. */
  lemma AllWallsPresent(m: Maze, r: Maze)
    requires Valid(m) && Valid(r) && SameShape(m, r)
    requires forall row, col, d :: InRange(m, row, col) ==> r.cells[WallIndex(m, row, col, d)] == Wall
    ensures forall row, col, d :: InRange(m, row, col) ==> HasWall(r, row, col, d)
  {
    forall row, col, d | InRange(m, row, col)
      ensures HasWall(r, row, col, d)
    {
      assert WallIndex(r, row, col, d) == WallIndex(m, row, col, d);
    }
  }

  /** setAllWalls: every wall of every cell is set; cells keep their values. */
  method SetAllWalls(m: Maze) returns (r: Maze)
    requires Valid(m)
    ensures Valid(r) && SameShape(m, r)
    ensures forall row, col, d :: InRange(m, row, col) ==> HasWall(r, row, col, d)
    ensures forall row, col :: InRange(m, row, col) ==> GetCell(r, row, col) == GetCell(m, row, col)
    ensures forall k :: 0 <= k < |m.cells| ==> r.cells[k] == m.cells[k] || r.cells[k] == Wall
  {
    r := m;
    var i := 0;
    while i < m.numRows
      invariant 0 <= i <= m.numRows
      invariant Valid(r) && SameShape(m, r)
      invariant forall row, col, d :: InRange(m, row, col) && row < i ==> r.cells[WallIndex(m, row, col, d)] == Wall
      invariant forall k :: 0 <= k < |m.cells| ==> r.cells[k] == m.cells[k] || r.cells[k] == Wall
      invariant forall row, col :: InRange(m, row, col) ==> GetCell(r, row, col) == GetCell(m, row, col)
    {
      var prev := r;
      r := SetRowWalls(r, i);
      AllWallsStep(m, prev, r, i);
      i := i + 1;
    }
    AllWallsPresent(m, r);
  }

  // ---------------------------------------------------------------------------
  // Neighbours
  // ---------------------------------------------------------------------------

  /** The cell has a neighbour inside the maze in this direction. */
  predicate HasNeighbor(m: Maze, cellRow: int, cellCol: int, direction: Direction)
  {
    match direction
    case North => cellRow > 0
    case South => cellRow < m.numRows - 1
    case West => cellCol > 0
    case East => cellCol < m.numCols - 1
  }

  /** getNeighborCell: the in-range cell one step away in the given direction. */
  function GetNeighborCell(m: Maze, cellRow: int, cellCol: int, direction: Direction): (n: Location)
    requires InRange(m, cellRow, cellCol)
    requires HasNeighbor(m, cellRow, cellCol, direction)
    ensures InRange(m, n.row, n.col)
    ensures direction == North ==> n.row == cellRow - 1 && n.col == cellCol
    ensures direction == South ==> n.row == cellRow + 1 && n.col == cellCol
    ensures direction == West ==> n.row == cellRow && n.col == cellCol - 1
    ensures direction == East ==> n.row == cellRow && n.col == cellCol + 1
  {
    match direction
    case North => Location(cellRow - 1, cellCol)
    case South => Location(cellRow + 1, cellCol)
    case West => Location(cellRow, cellCol - 1)
    case East => Location(cellRow, cellCol + 1)
  }

  /** Adjacent cells share the wall slot between them. */
  lemma SharedWall(m: Maze, cellRow: int, cellCol: int, direction: Direction)
    requires Valid(m) && InRange(m, cellRow, cellCol)
    requires HasNeighbor(m, cellRow, cellCol, direction)
    ensures var n := GetNeighborCell(m, cellRow, cellCol, direction);
      WallIndex(m, cellRow, cellCol, direction) == WallIndex(m, n.row, n.col, Opposite(direction))
  {
  }

  /**
    Two walls of in-range cells share a slot only when they are the same wall,
    or the same wall seen from the neighbouring cell.
   */
  lemma WallSlotOwners(m: Maze, r1: int, c1: int, d1: Direction, r2: int, c2: int, d2: Direction)
    requires Valid(m) && InRange(m, r1, c1) && InRange(m, r2, c2)
    requires WallIndex(m, r1, c1, d1) == WallIndex(m, r2, c2, d2)
    ensures (r1 == r2 && c1 == c2 && d1 == d2)
      || (HasNeighbor(m, r1, c1, d1) && GetNeighborCell(m, r1, c1, d1) == Location(r2, c2) && d2 == Opposite(d1))
  {
    ArrayIndexInjective(m, WallArrayCoord(r1, c1, d1), WallArrayCoord(r2, c2, d2));
  }
}
