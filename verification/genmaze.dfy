/**
  The randomized depth-first maze generator of Week5/genmaze.cc.

  The C library's `rand()` is a parameter: `rand(k)` is the value the k-th
  loop iteration draws, and `rand(k) % |options|` picks the direction, as the
  source does.
 */
module MazeGen {
  import opened MazeGrid

  /** The in-range cells of the maze. */
  function AllCells(m: Maze): (cells: set<Location>)
    ensures forall l :: l in cells <==> InRange(m, l.row, l.col)
  {
    var cells := set r, c | 0 <= r < m.numRows && 0 <= c < m.numCols :: Location(r, c);
    assert forall l: Location :: InRange(m, l.row, l.col) ==> l in cells by {
      forall l: Location | InRange(m, l.row, l.col)
        ensures l in cells
      {
        assert l == Location(l.row, l.col);
      }
    }
    cells
  }

  /** The in-range cells not yet visited. */
  function Unvisited(m: Maze): (s: set<Location>)
    requires Valid(m)
    ensures forall l :: l in s <==> InRange(m, l.row, l.col) && !IsVisited(m, l.row, l.col)
  {
    set l | l in AllCells(m) && !IsVisited(m, l.row, l.col)
  }

  /** Every location on the path is an in-range, visited cell. */
  predicate PathVisited(m: Maze, path: seq<Location>)
    requires Valid(m)
  {
    forall k :: 0 <= k < |path| ==> InRange(m, path[k].row, path[k].col) && IsVisited(m, path[k].row, path[k].col)
  }

  /**
    Walls are only ever opened between two cells of the maze, and only beside
    visited cells: the outer border stays closed.
   */
  ghost predicate WallsSound(m: Maze)
    requires Valid(m)
  {
    forall r, c, d :: InRange(m, r, c) && !HasWall(m, r, c, d) ==> HasNeighbor(m, r, c, d) && IsVisited(m, r, c)
  }

  /** What the generator's loop keeps true of the maze under construction. */
  ghost predicate Generating(m: Maze, rows: int, cols: int)
  {
    && Valid(m) && m.numRows == rows && m.numCols == cols && rows >= 1 && cols >= 1
    && m.start == Location(0, 0) && m.end == Location(rows - 1, cols - 1)
    && IsVisited(m, 0, 0)
    && WallsSound(m)
  }

  /** addDirectionOption: append `dir` exactly when the neighbour that way is unvisited. */
  function AddDirectionOption(m: Maze, current: Location, dir: Direction, v: seq<Direction>): (v': seq<Direction>)
    requires Valid(m) && InRange(m, current.row, current.col)
    requires HasNeighbor(m, current.row, current.col, dir)
    ensures var n := GetNeighborCell(m, current.row, current.col, dir);
      && (!IsVisited(m, n.row, n.col) ==> v' == v + [dir])
      && (IsVisited(m, n.row, n.col) ==> v' == v)
  {
    var neighbor := GetNeighborCell(m, current.row, current.col, dir);
    if !IsVisited(m, neighbor.row, neighbor.col) then v + [dir] else v
  }

  /** The options vector of one loop iteration, built in the source's order: north, south, west, east. */
  function DirectionOptions(m: Maze, current: Location): (options: seq<Direction>)
    requires Valid(m) && InRange(m, current.row, current.col)
    ensures |options| <= 4
    ensures forall d :: d in options ==> HasNeighbor(m, current.row, current.col, d)
  {
    var o1 := if current.row > 0 then AddDirectionOption(m, current, North, []) else [];
    var o2 := if current.row < m.numRows - 1 then AddDirectionOption(m, current, South, o1) else o1;
    var o3 := if current.col > 0 then AddDirectionOption(m, current, West, o2) else o2;
    if current.col < m.numCols - 1 then AddDirectionOption(m, current, East, o3) else o3
  }

  /** A direction is offered exactly when the neighbour that way exists and is unvisited. */
  lemma DirectionOptionsExact(m: Maze, current: Location)
    requires Valid(m) && InRange(m, current.row, current.col)
    ensures forall d :: d in DirectionOptions(m, current) <==>
      HasNeighbor(m, current.row, current.col, d)
      && var n := GetNeighborCell(m, current.row, current.col, d); !IsVisited(m, n.row, n.col)
  {
    forall d ensures d in DirectionOptions(m, current) <==>
      HasNeighbor(m, current.row, current.col, d)
      && var n := GetNeighborCell(m, current.row, current.col, d); !IsVisited(m, n.row, n.col)
    {
      match d
      case North =>
      case South =>
      case West =>
      case East =>
    }
  }

  /** Opening the wall between a visited cell and its neighbour keeps the walls sound, until the neighbour is visited. */
  lemma ClearWallSound(m: Maze, cur: Location, d: Direction)
    requires Valid(m) && WallsSound(m)
    requires InRange(m, cur.row, cur.col) && IsVisited(m, cur.row, cur.col)
    requires HasNeighbor(m, cur.row, cur.col, d)
    ensures var n := GetNeighborCell(m, cur.row, cur.col, d);
      var m1 := ClearWall(m, cur.row, cur.col, d);
      forall r, c, e :: InRange(m, r, c) && !HasWall(m1, r, c, e) ==>
        HasNeighbor(m, r, c, e) && (IsVisited(m1, r, c) || (r == n.row && c == n.col))
  {
    var n := GetNeighborCell(m, cur.row, cur.col, d);
    var m1 := ClearWall(m, cur.row, cur.col, d);
    forall r, c, e | InRange(m, r, c) && !HasWall(m1, r, c, e)
      ensures HasNeighbor(m, r, c, e) && (IsVisited(m1, r, c) || (r == n.row && c == n.col))
    {
      assert GetCell(m1, r, c) == GetCell(m, r, c);
      if WallIndex(m, r, c, e) == WallIndex(m, cur.row, cur.col, d) {
        WallSlotOwners(m, cur.row, cur.col, d, r, c, e);
      } else {
        assert !HasWall(m, r, c, e);
      }
    }
  }

  /** Visiting the neighbour behind the opened wall makes the walls sound again. */
  lemma CarveKeepsSound(m: Maze, cur: Location, d: Direction)
    requires Valid(m) && WallsSound(m)
    requires InRange(m, cur.row, cur.col) && IsVisited(m, cur.row, cur.col)
    requires HasNeighbor(m, cur.row, cur.col, d)
    ensures var n := GetNeighborCell(m, cur.row, cur.col, d);
      WallsSound(SetVisited(ClearWall(m, cur.row, cur.col, d), n.row, n.col))
  {
    var n := GetNeighborCell(m, cur.row, cur.col, d);
    var m1 := ClearWall(m, cur.row, cur.col, d);
    var m2 := SetVisited(m1, n.row, n.col);
    ClearWallSound(m, cur, d);
    forall r, c, e | InRange(m2, r, c) && !HasWall(m2, r, c, e)
      ensures HasNeighbor(m2, r, c, e) && IsVisited(m2, r, c)
    {
      assert !HasWall(m1, r, c, e);
      if r != n.row || c != n.col {
        assert GetCell(m2, r, c) == GetCell(m1, r, c);
      }
    }
  }

  /** Opening the wall from a visited cell to a neighbour and visiting it keeps the generator's invariant. */
  lemma CarveKeepsInvariant(m: Maze, rows: int, cols: int, cur: Location, d: Direction)
    requires Generating(m, rows, cols)
    requires InRange(m, cur.row, cur.col) && IsVisited(m, cur.row, cur.col)
    requires HasNeighbor(m, cur.row, cur.col, d)
    ensures var n := GetNeighborCell(m, cur.row, cur.col, d);
      Generating(SetVisited(ClearWall(m, cur.row, cur.col, d), n.row, n.col), rows, cols)
  {
    var n := GetNeighborCell(m, cur.row, cur.col, d);
    var m1 := ClearWall(m, cur.row, cur.col, d);
    CarveKeepsSound(m, cur, d);
    assert GetCell(m1, 0, 0) == GetCell(m, 0, 0);
  }

  /** Visiting one unvisited cell, and no other, removes exactly that cell from the unvisited set. */
  lemma VisitOneCell(a: Maze, b: Maze, n: Location)
    requires Valid(a) && Valid(b) && a.numRows == b.numRows && a.numCols == b.numCols
    requires InRange(a, n.row, n.col) && !IsVisited(a, n.row, n.col)
    requires forall l: Location :: InRange(a, l.row, l.col) ==>
      (IsVisited(b, l.row, l.col) <==> l == n || IsVisited(a, l.row, l.col))
    ensures Unvisited(b) == Unvisited(a) - {n}
    ensures |Unvisited(b)| < |Unvisited(a)|
  {
    assert Unvisited(b) == Unvisited(a) - {n};
    assert n in Unvisited(a);
  }

  /** Carving visits exactly the neighbour: every other cell keeps its visited mark. */
  lemma CarveVisitsNeighbor(m: Maze, cur: Location, d: Direction)
    requires Valid(m) && InRange(m, cur.row, cur.col) && HasNeighbor(m, cur.row, cur.col, d)
    requires var n := GetNeighborCell(m, cur.row, cur.col, d); !IsVisited(m, n.row, n.col)
    ensures var n := GetNeighborCell(m, cur.row, cur.col, d);
      var visited := SetVisited(ClearWall(m, cur.row, cur.col, d), n.row, n.col);
      && Unvisited(visited) == Unvisited(m) - {n}
      && |Unvisited(visited)| < |Unvisited(m)|
  {
    var n := GetNeighborCell(m, cur.row, cur.col, d);
    var cleared := ClearWall(m, cur.row, cur.col, d);
    var visited := SetVisited(cleared, n.row, n.col);
    forall l: Location | InRange(m, l.row, l.col)
      ensures IsVisited(visited, l.row, l.col) <==> l == n || IsVisited(m, l.row, l.col)
    {
      assert GetCell(cleared, l.row, l.col) == GetCell(m, l.row, l.col);
      if l != n {
        assert GetCell(visited, l.row, l.col) == GetCell(cleared, l.row, l.col);
      }
    }
    VisitOneCell(m, visited, n);
  }

  /** Carving keeps every cell of the stack visited, and the pushed neighbour is visited too. */
  lemma CarveKeepsPath(m: Maze, path: seq<Location>, d: Direction)
    requires Valid(m) && PathVisited(m, path) && |path| > 0
    requires HasNeighbor(m, path[|path| - 1].row, path[|path| - 1].col, d)
    ensures var cur := path[|path| - 1];
      var n := GetNeighborCell(m, cur.row, cur.col, d);
      var visited := SetVisited(ClearWall(m, cur.row, cur.col, d), n.row, n.col);
      PathVisited(visited, path + [n])
  {
    var cur := path[|path| - 1];
    var n := GetNeighborCell(m, cur.row, cur.col, d);
    var cleared := ClearWall(m, cur.row, cur.col, d);
    var visited := SetVisited(cleared, n.row, n.col);
    forall k | 0 <= k < |path + [n]|
      ensures InRange(visited, (path + [n])[k].row, (path + [n])[k].col)
      ensures IsVisited(visited, (path + [n])[k].row, (path + [n])[k].col)
    {
      if k < |path| {
        var l := path[k];
        assert (path + [n])[k] == l;
        assert GetCell(cleared, l.row, l.col) == GetCell(m, l.row, l.col);
      } else {
        assert (path + [n])[k] == n;
      }
    }
  }

  /** What one carving iteration does to the maze and the path. */
  lemma CarveStep(m: Maze, rows: int, cols: int, path: seq<Location>, d: Direction)
    requires Generating(m, rows, cols) && PathVisited(m, path) && |path| > 0
    requires HasNeighbor(m, path[|path| - 1].row, path[|path| - 1].col, d)
    requires var cur := path[|path| - 1];
      var n := GetNeighborCell(m, cur.row, cur.col, d); !IsVisited(m, n.row, n.col)
    ensures var cur := path[|path| - 1];
      var n := GetNeighborCell(m, cur.row, cur.col, d);
      var visited := SetVisited(ClearWall(m, cur.row, cur.col, d), n.row, n.col);
      && Generating(visited, rows, cols)
      && PathVisited(visited, path + [n])
      && IsVisited(visited, n.row, n.col)
      && !HasWall(visited, cur.row, cur.col, d)
      && Unvisited(visited) == Unvisited(m) - {n}
      && |Unvisited(visited)| < |Unvisited(m)|
  {
    var cur := path[|path| - 1];
    CarveKeepsInvariant(m, rows, cols, cur, d);
    CarveVisitsNeighbor(m, cur, d);
    CarveKeepsPath(m, path, d);
  }

  /** The generator's state: the maze and the stack of locations. */
  datatype DfsState = DfsState(maze: Maze, path: seq<Location>)

  /**
    One iteration of the generator's loop: the top of the stack is popped
    when it is the end cell or has no unvisited neighbour; otherwise the wall
    towards the chosen unvisited neighbour is opened and the neighbour is
    visited and pushed.
   */
  function DfsStep(st: DfsState, rows: int, cols: int, random: nat): (next: DfsState)
    requires Generating(st.maze, rows, cols) && PathVisited(st.maze, st.path) && |st.path| > 0
    ensures |next.path| == |st.path| - 1 || |next.path| == |st.path| + 1
  {
    var m := st.maze;
    var current := st.path[|st.path| - 1];
    if current == m.end then
      DfsState(m, st.path[..|st.path| - 1])
    else
      var options := DirectionOptions(m, current);
      if options == [] then
        DfsState(m, st.path[..|st.path| - 1])
      else
        var dir := options[random % |options|];
        assert dir in options;
        var next := GetNeighborCell(m, current.row, current.col, dir);
        DfsState(SetVisited(ClearWall(m, current.row, current.col, dir), next.row, next.col), st.path + [next])
  }

  /** An iteration at the end cell, or at a cell with no unvisited neighbour, only pops the stack. */
  lemma DfsStepPops(st: DfsState, rows: int, cols: int, random: nat)
    requires Generating(st.maze, rows, cols) && PathVisited(st.maze, st.path) && |st.path| > 0
    requires var top := st.path[|st.path| - 1];
      top == st.maze.end || DirectionOptions(st.maze, top) == []
    ensures DfsStep(st, rows, cols, random) == DfsState(st.maze, st.path[..|st.path| - 1])
    ensures PathVisited(st.maze, st.path[..|st.path| - 1])
  {
  }

  /**
    Otherwise the iteration picks option `random % |options|`, whose neighbour
    was unvisited, opens the wall towards it, visits it and pushes it; the
    invariant is kept and one fewer cell is unvisited.
   */
  lemma DfsStepCarves(st: DfsState, rows: int, cols: int, random: nat)
    requires Generating(st.maze, rows, cols) && PathVisited(st.maze, st.path) && |st.path| > 0
    requires var top := st.path[|st.path| - 1];
      top != st.maze.end && DirectionOptions(st.maze, top) != []
    ensures var top := st.path[|st.path| - 1];
      var options := DirectionOptions(st.maze, top);
      var d := options[random % |options|];
      var n := GetNeighborCell(st.maze, top.row, top.col, d);
      var next := DfsStep(st, rows, cols, random);
      && !IsVisited(st.maze, n.row, n.col)
      && next.path == st.path + [n]
      && IsVisited(next.maze, n.row, n.col)
      && !HasWall(next.maze, top.row, top.col, d)
      && Generating(next.maze, rows, cols) && PathVisited(next.maze, next.path)
      && Unvisited(next.maze) == Unvisited(st.maze) - {n}
      && |Unvisited(next.maze)| < |Unvisited(st.maze)|
  {
    var top := st.path[|st.path| - 1];
    var options := DirectionOptions(st.maze, top);
    var d := options[random % |options|];
    assert d in options;
    DirectionOptionsExact(st.maze, top);
    CarveStep(st.maze, rows, cols, st.path, d);
  }

  /** Each iteration keeps the invariant and either visits a new cell or shortens the stack. */
  lemma DfsStepProgress(st: DfsState, rows: int, cols: int, random: nat)
    requires Generating(st.maze, rows, cols) && PathVisited(st.maze, st.path) && |st.path| > 0
    ensures var next := DfsStep(st, rows, cols, random);
      && Generating(next.maze, rows, cols) && PathVisited(next.maze, next.path)
      && (|Unvisited(next.maze)| < |Unvisited(st.maze)|
          || (next.maze == st.maze && |next.path| < |st.path|))
  {
    var top := st.path[|st.path| - 1];
    if top == st.maze.end || DirectionOptions(st.maze, top) == [] {
      DfsStepPops(st, rows, cols, random);
    } else {
      DfsStepCarves(st, rows, cols, random);
    }
  }

  /**
    The set-up before generateMaze's loop: a cleared maze with every wall
    set, start (0, 0), end (R-1, C-1), and the start cell visited.
   */
  method PrepareMaze(rows: int, cols: int) returns (m: Maze)
    requires rows >= 1 && cols >= 1
    ensures Generating(m, rows, cols)
    ensures forall r, c, d :: InRange(m, r, c) ==> HasWall(m, r, c, d)
    ensures forall r, c :: InRange(m, r, c) ==> (IsVisited(m, r, c) <==> r == 0 && c == 0)
  {
    m := Init(rows, cols);
    m := Clear(m);
    m := SetAllWalls(m);
    m := SetStart(m, 0, 0);
    m := SetEnd(m, rows - 1, cols - 1);
    m := SetVisited(m, 0, 0);
  }

  /** What the invariant says of the finished maze. */
  lemma GeneratedMazeShape(m: Maze, rows: int, cols: int)
    requires Generating(m, rows, cols)
    ensures forall r, c, d :: InRange(m, r, c) && !HasNeighbor(m, r, c, d) ==> HasWall(m, r, c, d)
    ensures forall r, c, d :: InRange(m, r, c) && !HasWall(m, r, c, d) ==> IsVisited(m, r, c)
  {
  }

  /**
    generateMaze: an R x C maze with start (0, 0) and end (R-1, C-1), whose
    outer border is closed, whose start is visited, and in which every
    opened wall lies between two cells, beside a visited one.  The loop ends
    because each iteration visits a new cell or pops the stack.
   */
  method GenerateMaze(rows: int, cols: int, rand: nat -> nat) returns (m: Maze)
    requires rows >= 1 && cols >= 1
    ensures Valid(m) && m.numRows == rows && m.numCols == cols
    ensures m.start == Location(0, 0) && m.end == Location(rows - 1, cols - 1)
    ensures IsVisited(m, 0, 0)
    ensures forall r, c, d :: InRange(m, r, c) && !HasNeighbor(m, r, c, d) ==> HasWall(m, r, c, d)
    ensures forall r, c, d :: InRange(m, r, c) && !HasWall(m, r, c, d) ==> IsVisited(m, r, c)
  {
    m := PrepareMaze(rows, cols);
    var st := DfsState(m, [Location(0, 0)]);
    var iteration := 0;
    while |st.path| > 0
      invariant Generating(st.maze, rows, cols)
      invariant PathVisited(st.maze, st.path)
      decreases |Unvisited(st.maze)|, |st.path|
    {
      DfsStepProgress(st, rows, cols, rand(iteration));
      st := DfsStep(st, rows, cols, rand(iteration));
      iteration := iteration + 1;
    }
    m := st.maze;
    GeneratedMazeShape(m, rows, cols);
  }
}
