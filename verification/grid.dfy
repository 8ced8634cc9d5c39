/** Cells of the maze grid and what it means for a carved grid to be a perfect maze.

    The grid is indexed [row, col]; the generator's `x` is the row and `y` the column.
    Cells with two odd coordinates are "sites" (the rooms the depth-first search visits);
    a cell with exactly one odd coordinate between two sites is a "link" (a carved passage). */
module Grid {

  const Wall: char := '#'
  const Open: char := ' '

  datatype Pos = Pos(row: int, col: int)

  /** Where carving starts and where the player starts. */
  const Start: Pos := Pos(1, 1)

  predicate InGrid(maze: array2<char>, p: Pos) {
    0 <= p.row < maze.Length0 && 0 <= p.col < maze.Length1
  }

  /** Not on the outer ring of the grid. */
  predicate Interior(maze: array2<char>, p: Pos) {
    1 <= p.row < maze.Length0 - 1 && 1 <= p.col < maze.Length1 - 1
  }

  predicate IsOpenAt(maze: array2<char>, p: Pos)
    reads maze
  {
    InGrid(maze, p) && maze[p.row, p.col] == Open
  }

  /** Every cell is a wall or open. */
  ghost predicate IsBinary(maze: array2<char>)
    reads maze
  {
    forall i, j :: 0 <= i < maze.Length0 && 0 <= j < maze.Length1 ==>
      maze[i, j] == Wall || maze[i, j] == Open
  }

  /** No cell of row 0, the last row, column 0 or the last column is open. */
  ghost predicate BorderClosed(maze: array2<char>)
    reads maze
  {
    forall i, j ::
      0 <= i < maze.Length0 && 0 <= j < maze.Length1 &&
      (i == 0 || i == maze.Length0 - 1 || j == 0 || j == maze.Length1 - 1)
      ==> maze[i, j] != Open
  }

  ghost function OpenCells(maze: array2<char>): set<Pos>
    reads maze
  {
    set i, j | 0 <= i < maze.Length0 && 0 <= j < maze.Length1 && maze[i, j] == Open :: Pos(i, j)
  }

  predicate IsSite(p: Pos) {
    p.row % 2 == 1 && p.col % 2 == 1
  }

  /** The sites the generator may visit: odd coordinates with 1 <= row < height - 1
      and 1 <= col < width - 1. */
  ghost function AllSites(width: int, height: int): set<Pos> {
    set i, j | 1 <= i < height - 1 && 1 <= j < width - 1 && i % 2 == 1 && j % 2 == 1 :: Pos(i, j)
  }

  lemma SiteBounds(p: Pos, width: int, height: int)
    ensures p in AllSites(width, height) <==>
      1 <= p.row < height - 1 && 1 <= p.col < width - 1 && IsSite(p)
  {
    if 1 <= p.row < height - 1 && 1 <= p.col < width - 1 && IsSite(p) {
      assert Pos(p.row, p.col) in AllSites(width, height);
    }
  }

  /** `p` has exactly one odd coordinate and joins the two sites of `sites` beside it. */
  predicate JoinsSites(p: Pos, sites: set<Pos>) {
    (p.row % 2 == 0 && p.col % 2 == 1 &&
      Pos(p.row - 1, p.col) in sites && Pos(p.row + 1, p.col) in sites) ||
    (p.row % 2 == 1 && p.col % 2 == 0 &&
      Pos(p.row, p.col - 1) in sites && Pos(p.row, p.col + 1) in sites)
  }

  ghost function OpenSites(maze: array2<char>): set<Pos>
    reads maze
  {
    set p | p in OpenCells(maze) && IsSite(p)
  }

  ghost function OpenLinks(maze: array2<char>): set<Pos>
    reads maze
  {
    OpenCells(maze) - OpenSites(maze)
  }

  predicate Adjacent(a: Pos, b: Pos) {
    (a.row == b.row && (a.col - b.col == 1 || b.col - a.col == 1)) ||
    (a.col == b.col && (a.row - b.row == 1 || b.row - a.row == 1))
  }

  /** A non-empty walk through `cells`, one orthogonal step at a time. */
  ghost predicate IsPathIn(cells: set<Pos>, path: seq<Pos>) {
    |path| > 0 &&
    (forall k :: 0 <= k < |path| ==> path[k] in cells) &&
    (forall k :: 0 < k < |path| ==> Adjacent(path[k - 1], path[k]))
  }

  ghost predicate Connected(cells: set<Pos>, a: Pos, b: Pos) {
    exists path :: IsPathIn(cells, path) && path[0] == a && path[|path| - 1] == b
  }

  /** What the carving leaves behind: every site is open, every other open cell links two open
      sites, the open cells are all reachable from the start, and there is one link fewer than
      there are sites, so the passages form a spanning tree of the sites. */
  ghost predicate IsPerfectMaze(maze: array2<char>)
    reads maze
  {
    IsBinary(maze) &&
    OpenSites(maze) == AllSites(maze.Length1, maze.Length0) &&
    (forall p :: p in OpenLinks(maze) ==> JoinsSites(p, OpenSites(maze))) &&
    |OpenSites(maze)| == |OpenLinks(maze)| + 1 &&
    (forall p :: p in OpenCells(maze) ==> Connected(OpenCells(maze), Start, p))
  }

  /** A perfect maze keeps its border walled and never opens a cell whose two coordinates are
      both even. */
  lemma PerfectMazeWalls(maze: array2<char>)
    requires IsPerfectMaze(maze)
    ensures BorderClosed(maze)
    ensures forall i, j :: 0 <= i < maze.Length0 && 0 <= j < maze.Length1 ==>
      (i == 0 || i == maze.Length0 - 1 || j == 0 || j == maze.Length1 - 1 ||
       (i % 2 == 0 && j % 2 == 0)) ==> maze[i, j] == Wall
  {
    var sites := AllSites(maze.Length1, maze.Length0);
    forall i, j | 0 <= i < maze.Length0 && 0 <= j < maze.Length1 && maze[i, j] == Open
      ensures 1 <= i < maze.Length0 - 1 && 1 <= j < maze.Length1 - 1 && (i % 2 == 1 || j % 2 == 1)
    {
      var p := Pos(i, j);
      assert p in OpenCells(maze);
      if IsSite(p) {
        assert p in sites;
        SiteBounds(p, maze.Length1, maze.Length0);
      } else {
        assert p in OpenLinks(maze);
        assert JoinsSites(p, sites);
        if p.row % 2 == 0 {
          SiteBounds(Pos(i - 1, j), maze.Length1, maze.Length0);
          SiteBounds(Pos(i + 1, j), maze.Length1, maze.Length0);
        } else {
          SiteBounds(Pos(i, j - 1), maze.Length1, maze.Length0);
          SiteBounds(Pos(i, j + 1), maze.Length1, maze.Length0);
        }
      }
    }
  }
}
