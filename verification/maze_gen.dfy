/** Maze construction: a grid of walls with the start cell opened, then an iterative randomized
    depth-first search that carves passages into it in place. */
module MazeGen {
  import opened Grid

  /** A step of the search: two cells along one axis. */
  datatype Offset = Offset(dx: int, dy: int)

  /** The four offsets the search tries, before any shuffling. */
  const Directions: seq<Offset> := [Offset(-2, 0), Offset(2, 0), Offset(0, -2), Offset(0, 2)]

  /** The order in which one pass tries the offsets: some arrangement of all four. */
  predicate IsShuffle(dirs: seq<Offset>) {
    multiset(dirs) == multiset(Directions)
  }

  function Shifted(p: Pos, d: Offset): Pos {
    Pos(p.row + d.dx, p.col + d.dy)
  }

  /** The cell halfway along the step `d` from `p`; the offsets are even, so halving them
      rounds the same way as the floor division of the program. */
  function Midpoint(p: Pos, d: Offset): Pos {
    Pos(p.row + d.dx / 2, p.col + d.dy / 2)
  }

  /** The bounds the search checks before it looks at a neighbour. */
  predicate InCarveRange(p: Pos, width: int, height: int) {
    1 <= p.row < height - 1 && 1 <= p.col < width - 1
  }

  /** The neighbour of `p` along `d` is within the bounds and still a wall. */
  predicate Carvable(maze: array2<char>, width: int, height: int, p: Pos, d: Offset)
    requires maze.Length0 == height && maze.Length1 == width
    reads maze
  {
    var n := Shifted(p, d);
    InCarveRange(n, width, height) && maze[n.row, n.col] == Wall
  }

  /** The grid `initialize_maze` builds: all wall except the start cell. */
  ghost predicate IsInitialGrid(maze: array2<char>)
    reads maze
  {
    forall i, j :: 0 <= i < maze.Length0 && 0 <= j < maze.Length1 ==>
      maze[i, j] == (if i == 1 && j == 1 then Open else Wall)
  }

  method InitializeMaze(width: int, height: int) returns (maze: array2<char>)
    requires width >= 2 && height >= 2
    ensures fresh(maze)
    ensures maze.Length0 == height && maze.Length1 == width
    ensures IsInitialGrid(maze)
  {
    maze := new char[height, width]((_, _) => Wall);
    maze[1, 1] := Open;
  }

  /** The scan of one pass: the index of the first offset in `dirs` that leads to a carvable
      neighbour, or |dirs| when there is none. */
  method FirstCarvable(maze: array2<char>, width: int, height: int, p: Pos, dirs: seq<Offset>)
    returns (k: nat)
    requires maze.Length0 == height && maze.Length1 == width
    ensures k <= |dirs|
    ensures k < |dirs| ==> Carvable(maze, width, height, p, dirs[k])
    ensures forall j :: 0 <= j < k ==> !Carvable(maze, width, height, p, dirs[j])
  {
    k := 0;
    while k < |dirs| && !Carvable(maze, width, height, p, dirs[k])
      invariant k <= |dirs|
      invariant forall j :: 0 <= j < k ==> !Carvable(maze, width, height, p, dirs[j])
    {
      k := k + 1;
    }
  }

  /** Every neighbour two cells away from `n` that lies in the carving bounds is a visited site. */
  ghost predicate Explored(n: Pos, nodes: set<Pos>, width: int, height: int) {
    forall d :: d in Directions && InCarveRange(Shifted(n, d), width, height) ==>
      Shifted(n, d) in nodes
  }

  /** Two sites two cells apart along one axis. */
  predicate TwoApart(a: Pos, b: Pos) {
    (a.col == b.col && (a.row - b.row == 2 || b.row - a.row == 2)) ||
    (a.row == b.row && (a.col - b.col == 2 || b.col - a.col == 2))
  }

  function Between(a: Pos, b: Pos): Pos {
    Pos((a.row + b.row) / 2, (a.col + b.col) / 2)
  }

  /** The geometry of one step from a site: it lands on a site two cells away, and the cell
      in between is a link cell whose two flanking sites are exactly the two ends. */
  lemma StepGeometry(p: Pos, d: Offset, sites: set<Pos>)
    requires d in Directions && IsSite(p)
    ensures IsSite(Shifted(p, d)) && !IsSite(Midpoint(p, d))
    ensures TwoApart(p, Shifted(p, d)) && Between(p, Shifted(p, d)) == Midpoint(p, d)
    ensures Adjacent(p, Midpoint(p, d)) && Adjacent(Midpoint(p, d), Shifted(p, d))
    ensures JoinsSites(Midpoint(p, d), sites) <==> p in sites && Shifted(p, d) in sites
  {
  }

  lemma ShuffleMember(dirs: seq<Offset>, k: nat)
    requires IsShuffle(dirs) && k < |dirs|
    ensures dirs[k] in Directions
  {
    assert dirs[k] in multiset(dirs);
  }

  /** Each of the four offsets appears somewhere in a shuffle. */
  lemma ShuffleCovers(dirs: seq<Offset>, d: Offset) returns (j: nat)
    requires IsShuffle(dirs) && d in Directions
    ensures j < |dirs| && dirs[j] == d
  {
    assert d in multiset(Directions);
    assert d in multiset(dirs);
    j :| 0 <= j < |dirs| && dirs[j] == d;
  }

  /** A set of sites that holds the start and is closed under the search's steps holds every
      site: the search, once its stack is empty, has opened every site within the bounds. */
  lemma {:induction false} ClosedSitesAreAll(nodes: set<Pos>, width: int, height: int)
    requires width >= 3 && height >= 3
    requires Start in nodes
    requires forall n {:trigger Explored(n, nodes, width, height)} :: n in nodes ==>
      Explored(n, nodes, width, height)
    ensures AllSites(width, height) <= nodes
  {
    forall p | p in AllSites(width, height)
      ensures p in nodes
    {
      SiteBounds(p, width, height);
      SiteReached(nodes, width, height, p);
    }
  }

  lemma {:induction false} SiteReached(nodes: set<Pos>, width: int, height: int, p: Pos)
    requires Start in nodes
    requires forall n {:trigger Explored(n, nodes, width, height)} :: n in nodes ==>
      Explored(n, nodes, width, height)
    requires InCarveRange(p, width, height) && IsSite(p)
    ensures p in nodes
    decreases p.row + p.col
  {
    if p.row > 1 {
      var q := Pos(p.row - 2, p.col);
      SiteReached(nodes, width, height, q);
      assert Shifted(q, Offset(2, 0)) == p;
      assert Explored(q, nodes, width, height);
    } else if p.col > 1 {
      var q := Pos(p.row, p.col - 2);
      SiteReached(nodes, width, height, q);
      assert Shifted(q, Offset(0, 2)) == p;
      assert Explored(q, nodes, width, height);
    }
  }

  /** A walk extended by one adjacent cell is still a walk. */
  lemma ExtendPath(cells: set<Pos>, path: seq<Pos>, p: Pos)
    requires IsPathIn(cells, path) && p in cells && Adjacent(path[|path| - 1], p)
    ensures IsPathIn(cells, path + [p])
  {
    var walk := path + [p];
    forall k | 0 < k < |walk|
      ensures Adjacent(walk[k - 1], walk[k])
    {
      if k < |path| {
        assert walk[k - 1] == path[k - 1] && walk[k] == path[k];
      }
    }
  }

  /** The discovery tree the search builds gives every visited site a walk from the start
      through the opened cells. */
  lemma {:induction false} PathFromStart(
    cells: set<Pos>, nodes: set<Pos>, links: set<Pos>, parent: map<Pos, Pos>, depth: map<Pos, nat>,
    n: Pos)
    returns (path: seq<Pos>)
    requires nodes <= cells && links <= cells && Start in nodes && n in nodes
    requires IsDiscoveryTree(nodes, links, parent, depth)
    ensures IsPathIn(cells, path) && path[0] == Start && path[|path| - 1] == n
    decreases depth[n]
  {
    if n == Start {
      path := [Start];
    } else {
      var m := parent[n];
      var prefix := PathFromStart(cells, nodes, links, parent, depth, m);
      var mid := Between(m, n);
      ExtendPath(cells, prefix, mid);
      ExtendPath(cells, prefix + [mid], n);
      path := prefix + [mid] + [n];
    }
  }

  /** The grid cells mirror the ghost bookkeeping: every cell is a wall or open, and it is open
      exactly when it is a visited site or a carved link. */
  ghost predicate Mirrors(maze: array2<char>, nodes: set<Pos>, links: set<Pos>)
    reads maze
  {
    forall i, j {:trigger maze[i, j]} :: 0 <= i < maze.Length0 && 0 <= j < maze.Length1 ==>
      (maze[i, j] == Wall || maze[i, j] == Open) &&
      (maze[i, j] == Open <==> Pos(i, j) in nodes || Pos(i, j) in links)
  }

  /** Every visited site but the start hangs off an earlier one by a carved link. */
  ghost predicate IsDiscoveryTree(
    nodes: set<Pos>, links: set<Pos>, parent: map<Pos, Pos>, depth: map<Pos, nat>)
  {
    (forall m :: m in nodes ==> m in depth) &&
    (forall m :: m in nodes && m != Start ==> m in parent) &&
    (forall m {:trigger parent[m]} :: m in parent ==>
      m in nodes && m in depth && parent[m] in nodes && parent[m] in depth &&
      depth[parent[m]] < depth[m] && TwoApart(parent[m], m) && Between(parent[m], m) in links)
  }

  /** The carving so far: visited sites within the bounds, each carved link joining two of
      them, one link fewer than sites, and the discovery tree. */
  ghost predicate IsCarving(
    nodes: set<Pos>, links: set<Pos>, parent: map<Pos, Pos>, depth: map<Pos, nat>,
    width: int, height: int)
  {
    Start in nodes && nodes <= AllSites(width, height) &&
    (forall l :: l in links ==> JoinsSites(l, nodes)) &&
    |nodes| == |links| + 1 &&
    IsDiscoveryTree(nodes, links, parent, depth)
  }

  /** Every stack entry is a visited site, and every visited site off the stack is explored. */
  ghost predicate StackInv(stack: seq<Pos>, nodes: set<Pos>, width: int, height: int) {
    (forall s :: s in stack ==> s in nodes) &&
    (forall n {:trigger Explored(n, nodes, width, height)} :: n in nodes && n !in stack ==>
      Explored(n, nodes, width, height))
  }

  /** The link a step from a visited site towards an unvisited one would carve is not carved
      yet: a carved link joins two visited sites. */
  lemma MidpointUncarved(nodes: set<Pos>, links: set<Pos>, top: Pos, d: Offset)
    requires forall l :: l in links ==> JoinsSites(l, nodes)
    requires IsSite(top) && d in Directions && Shifted(top, d) !in nodes
    ensures Midpoint(top, d) !in links
  {
    StepGeometry(top, d, nodes);
  }

  /** Adding an unvisited site, the link to it and its parent keeps the discovery tree a tree and
      shrinks the set of unvisited sites. */
  lemma DiscoveryStep(
    nodes: set<Pos>, links: set<Pos>, parent: map<Pos, Pos>, depth: map<Pos, nat>,
    top: Pos, next: Pos, mid: Pos)
    requires IsDiscoveryTree(nodes, links, parent, depth)
    requires top in nodes && next !in nodes && next != Start
    requires TwoApart(top, next) && Between(top, next) == mid
    ensures IsDiscoveryTree(nodes + {next}, links + {mid}, parent[next := top],
      depth[next := depth[top] + 1])
  {
  }

  lemma LinksStep(nodes: set<Pos>, links: set<Pos>, next: Pos, mid: Pos)
    requires forall l :: l in links ==> JoinsSites(l, nodes)
    requires JoinsSites(mid, nodes + {next})
    ensures forall l :: l in links + {mid} ==> JoinsSites(l, nodes + {next})
  {
  }

  lemma CountStep(nodes: set<Pos>, links: set<Pos>, next: Pos, mid: Pos)
    requires |nodes| == |links| + 1 && next !in nodes && mid !in links
    ensures |nodes + {next}| == |links + {mid}| + 1
  {
  }

  lemma SitesStep(nodes: set<Pos>, next: Pos, width: int, height: int)
    requires nodes <= AllSites(width, height) && next in AllSites(width, height) && next !in nodes
    ensures nodes + {next} <= AllSites(width, height)
    ensures |AllSites(width, height) - (nodes + {next})| < |AllSites(width, height) - nodes|
  {
    assert AllSites(width, height) - (nodes + {next}) == (AllSites(width, height) - nodes) - {next};
  }

  lemma CarveStep(
    nodes: set<Pos>, links: set<Pos>, parent: map<Pos, Pos>, depth: map<Pos, nat>,
    width: int, height: int, top: Pos, next: Pos, mid: Pos)
    requires IsCarving(nodes, links, parent, depth, width, height)
    requires top in nodes && next !in nodes && next in AllSites(width, height)
    requires mid !in links && TwoApart(top, next) && Between(top, next) == mid
    requires JoinsSites(mid, nodes + {next})
    ensures IsCarving(nodes + {next}, links + {mid},
      parent[next := top], depth[next := depth[top] + 1], width, height)
    ensures |AllSites(width, height) - (nodes + {next})| < |AllSites(width, height) - nodes|
  {
    DiscoveryStep(nodes, links, parent, depth, top, next, mid);
    LinksStep(nodes, links, next, mid);
    CountStep(nodes, links, next, mid);
    SitesStep(nodes, next, width, height);
  }

  /** Pushing a newly visited site keeps the stack invariant. */
  lemma PushStep(stack: seq<Pos>, nodes: set<Pos>, width: int, height: int, next: Pos)
    requires StackInv(stack, nodes, width, height)
    ensures StackInv(stack + [next], nodes + {next}, width, height)
  {
    var nodes' := nodes + {next};
    forall n | n in nodes' && n !in stack + [next]
      ensures Explored(n, nodes', width, height)
    {
      assert n in nodes && n !in stack;
      assert Explored(n, nodes, width, height);
    }
  }

  /** Popping an explored top keeps the stack invariant. */
  lemma PopStep(stack: seq<Pos>, nodes: set<Pos>, width: int, height: int)
    requires StackInv(stack, nodes, width, height) && stack != []
    requires Explored(stack[|stack| - 1], nodes, width, height)
    ensures StackInv(stack[..|stack| - 1], nodes, width, height)
  {
    var rest := stack[..|stack| - 1];
    forall n | n in nodes && n !in rest
      ensures Explored(n, nodes, width, height)
    {
      if n in stack {
        assert n == stack[|stack| - 1];
      }
    }
  }

  /** One carving step of the search, from the top of the stack towards an unvisited site
      within the bounds: the bookkeeping stays a carving, the stack invariant survives the push,
      and the set of unvisited sites shrinks. */
  lemma Advance(
    nodes: set<Pos>, links: set<Pos>, parent: map<Pos, Pos>, depth: map<Pos, nat>,
    stack: seq<Pos>, width: int, height: int, top: Pos, d: Offset)
    requires IsCarving(nodes, links, parent, depth, width, height)
    requires StackInv(stack, nodes, width, height)
    requires top in nodes && d in Directions
    requires InCarveRange(Shifted(top, d), width, height) && Shifted(top, d) !in nodes
    ensures InCarveRange(Midpoint(top, d), width, height)
    ensures IsCarving(nodes + {Shifted(top, d)}, links + {Midpoint(top, d)},
      parent[Shifted(top, d) := top], depth[Shifted(top, d) := depth[top] + 1], width, height)
    ensures StackInv(stack + [Shifted(top, d)], nodes + {Shifted(top, d)}, width, height)
    ensures |AllSites(width, height) - (nodes + {Shifted(top, d)})| <
      |AllSites(width, height) - nodes|
  {
    var next, mid := Shifted(top, d), Midpoint(top, d);
    SiteBounds(top, width, height);
    SiteBounds(next, width, height);
    StepGeometry(top, d, nodes + {next});
    MidpointUncarved(nodes, links, top, d);
    CarveStep(nodes, links, parent, depth, width, height, top, next, mid);
    PushStep(stack, nodes, width, height, next);
  }

  /** A pass that finds nothing to carve from the top of the stack leaves the top explored, so
      popping it keeps the stack invariant. */
  lemma Backtrack(
    maze: array2<char>, width: int, height: int, nodes: set<Pos>, links: set<Pos>,
    stack: seq<Pos>, dirs: seq<Offset>)
    requires maze.Length0 == height && maze.Length1 == width
    requires Mirrors(maze, nodes, links)
    requires forall l :: l in links ==> JoinsSites(l, nodes)
    requires StackInv(stack, nodes, width, height) && stack != []
    requires IsSite(stack[|stack| - 1]) && IsShuffle(dirs)
    requires forall j :: 0 <= j < |dirs| ==> !Carvable(maze, width, height, stack[|stack| - 1], dirs[j])
    ensures StackInv(stack[..|stack| - 1], nodes, width, height)
  {
    var top := stack[|stack| - 1];
    forall d | d in Directions && InCarveRange(Shifted(top, d), width, height)
      ensures Shifted(top, d) in nodes
    {
      var j := ShuffleCovers(dirs, d);
      assert !Carvable(maze, width, height, top, dirs[j]);
      var n := Shifted(top, d);
      StepGeometry(top, d, nodes);
      assert maze[n.row, n.col] == Open;
      assert n in links ==> JoinsSites(n, nodes);
    }
    assert Explored(top, nodes, width, height);
    PopStep(stack, nodes, width, height);
  }

  /** What the loop's invariants say of the stack: each entry is an open site strictly inside
      the carving bounds. */
  lemma StackEntriesOpen(
    maze: array2<char>, width: int, height: int, stack: seq<Pos>,
    nodes: set<Pos>, links: set<Pos>, parent: map<Pos, Pos>, depth: map<Pos, nat>)
    requires maze.Length0 == height && maze.Length1 == width
    requires Mirrors(maze, nodes, links)
    requires IsCarving(nodes, links, parent, depth, width, height)
    requires StackInv(stack, nodes, width, height)
    ensures forall k :: 0 <= k < |stack| ==>
      IsSite(stack[k]) && InCarveRange(stack[k], width, height) &&
      maze[stack[k].row, stack[k].col] == Open
  {
    forall k | 0 <= k < |stack|
      ensures IsSite(stack[k]) && InCarveRange(stack[k], width, height)
    {
      assert stack[k] in nodes;
      SiteBounds(stack[k], width, height);
    }
  }

  /** Opening a link and the site beyond it: the grid then mirrors the grown carving. */
  method Carve(maze: array2<char>, mid: Pos, next: Pos, ghost nodes: set<Pos>, ghost links: set<Pos>)
    requires InGrid(maze, mid) && InGrid(maze, next)
    requires Mirrors(maze, nodes, links)
    modifies maze
    ensures Mirrors(maze, nodes + {next}, links + {mid})
    ensures maze[mid.row, mid.col] == Open && maze[next.row, next.col] == Open
    ensures forall i, j ::
      0 <= i < maze.Length0 && 0 <= j < maze.Length1 && Pos(i, j) != mid && Pos(i, j) != next
      ==> maze[i, j] == old(maze[i, j])
  {
    maze[mid.row, mid.col] := Open;
    maze[next.row, next.col] := Open;
    forall i, j | 0 <= i < maze.Length0 && 0 <= j < maze.Length1
      ensures (maze[i, j] == Wall || maze[i, j] == Open) &&
        (maze[i, j] == Open <==> Pos(i, j) in nodes + {next} || Pos(i, j) in links + {mid})
    {
      if Pos(i, j) != mid && Pos(i, j) != next {
        assert maze[i, j] == old(maze[i, j]);
      }
    }
  }

  /** The open cells of a grid that mirrors the carving are the visited sites and the links. */
  lemma MirroredSets(maze: array2<char>, nodes: set<Pos>, links: set<Pos>)
    requires Mirrors(maze, nodes, links)
    requires forall n :: n in nodes ==> IsSite(n)
    requires forall l :: l in links ==> JoinsSites(l, nodes)
    requires forall p :: p in nodes + links ==> InGrid(maze, p)
    ensures OpenCells(maze) == nodes + links
    ensures OpenSites(maze) == nodes && OpenLinks(maze) == links
  {
    forall p | p in nodes + links
      ensures p in OpenCells(maze)
    {
      assert maze[p.row, p.col] == Open;
    }
    forall p | p in OpenSites(maze)
      ensures p in nodes
    {
      assert p in links ==> JoinsSites(p, nodes);
    }
  }

  /** A carved link is reachable from the start: one step past the site above it or to its
      left, which the discovery tree reaches. */
  lemma ReachLink(
    cells: set<Pos>, nodes: set<Pos>, links: set<Pos>, parent: map<Pos, Pos>, depth: map<Pos, nat>,
    p: Pos)
    requires nodes <= cells && links <= cells && Start in nodes && p in links
    requires JoinsSites(p, nodes)
    requires IsDiscoveryTree(nodes, links, parent, depth)
    ensures Connected(cells, Start, p)
  {
    var site := if p.row % 2 == 0 then Pos(p.row - 1, p.col) else Pos(p.row, p.col - 1);
    var prefix := PathFromStart(cells, nodes, links, parent, depth, site);
    ExtendPath(cells, prefix, p);
    var path := prefix + [p];
    assert IsPathIn(cells, path) && path[0] == Start && path[|path| - 1] == p;
  }

  /** Every carved cell is reachable from the start through carved cells. */
  lemma CarvingConnected(
    cells: set<Pos>, nodes: set<Pos>, links: set<Pos>, parent: map<Pos, Pos>, depth: map<Pos, nat>)
    requires cells == nodes + links && Start in nodes
    requires forall l :: l in links ==> JoinsSites(l, nodes)
    requires IsDiscoveryTree(nodes, links, parent, depth)
    ensures forall p :: p in cells ==> Connected(cells, Start, p)
  {
    forall p | p in cells
      ensures Connected(cells, Start, p)
    {
      if p in nodes {
        var path := PathFromStart(cells, nodes, links, parent, depth, p);
        assert IsPathIn(cells, path) && path[0] == Start && path[|path| - 1] == p;
      } else {
        ReachLink(cells, nodes, links, parent, depth, p);
      }
    }
  }

  /** Once every site is visited, a grid that mirrors the carving is a perfect maze. */
  lemma CarvingIsPerfect(
    maze: array2<char>, nodes: set<Pos>, links: set<Pos>,
    parent: map<Pos, Pos>, depth: map<Pos, nat>)
    requires Mirrors(maze, nodes, links)
    requires IsCarving(nodes, links, parent, depth, maze.Length1, maze.Length0)
    requires AllSites(maze.Length1, maze.Length0) <= nodes
    ensures IsPerfectMaze(maze)
  {
    var width, height := maze.Length1, maze.Length0;
    forall n | n in nodes
      ensures IsSite(n) && InGrid(maze, n)
    {
      SiteBounds(n, width, height);
    }
    forall l | l in links
      ensures InGrid(maze, l)
    {
      assert JoinsSites(l, nodes);
      if l.row % 2 == 0 {
        assert Pos(l.row - 1, l.col) in nodes && Pos(l.row + 1, l.col) in nodes;
      } else {
        assert Pos(l.row, l.col - 1) in nodes && Pos(l.row, l.col + 1) in nodes;
      }
    }
    MirroredSets(maze, nodes, links);
    CarvingConnected(OpenCells(maze), nodes, links, parent, depth);
  }

  /** One pass of the search loop: look at the top of the stack; carve towards the first
      offset of `directions` whose neighbour is in bounds and still a wall, and push that
      neighbour, or pop when there is none. The ghost parameters carry the carving so far. */
  method SearchPass(
    maze: array2<char>, width: int, height: int, stack: seq<Pos>, directions: seq<Offset>,
    ghost nodes: set<Pos>, ghost links: set<Pos>, ghost parent: map<Pos, Pos>,
    ghost depth: map<Pos, nat>)
    returns (k: nat, stack': seq<Pos>, ghost nodes': set<Pos>, ghost links': set<Pos>,
      ghost parent': map<Pos, Pos>, ghost depth': map<Pos, nat>)
    requires maze.Length0 == height && maze.Length1 == width
    requires stack != [] && IsShuffle(directions)
    requires Mirrors(maze, nodes, links)
    requires IsCarving(nodes, links, parent, depth, width, height)
    requires StackInv(stack, nodes, width, height)
    modifies maze
    ensures Mirrors(maze, nodes', links')
    ensures IsCarving(nodes', links', parent', depth', width, height)
    ensures StackInv(stack', nodes', width, height)
    ensures k <= |directions|
    ensures k < |directions| ==> old(Carvable(maze, width, height, stack[|stack| - 1], directions[k]))
    ensures forall j :: 0 <= j < k ==>
      !old(Carvable(maze, width, height, stack[|stack| - 1], directions[j]))
    ensures k < |directions| ==>
      stack' == stack + [Shifted(stack[|stack| - 1], directions[k])] &&
      nodes' == nodes + {Shifted(stack[|stack| - 1], directions[k])} &&
      links' == links + {Midpoint(stack[|stack| - 1], directions[k])} &&
      |AllSites(width, height) - nodes'| < |AllSites(width, height) - nodes|
    ensures k == |directions| ==> stack' == stack[..|stack| - 1] && nodes' == nodes && links' == links
  {
    var top := stack[|stack| - 1];
    SiteBounds(top, width, height);
    k := FirstCarvable(maze, width, height, top, directions);
    if k < |directions| {
      var d := directions[k];
      var next := Shifted(top, d);
      var mid := Midpoint(top, d);
      ShuffleMember(directions, k);
      Advance(nodes, links, parent, depth, stack, width, height, top, d);
      Carve(maze, mid, next, nodes, links);
      stack' := stack + [next];
      nodes', links' := nodes + {next}, links + {mid};
      parent', depth' := parent[next := top], depth[next := depth[top] + 1];
    } else {
      Backtrack(maze, width, height, nodes, links, stack, directions);
      stack' := stack[..|stack| - 1];
      nodes', links', parent', depth' := nodes, links, parent, depth;
    }
  }

  /** generate_maze: while the stack is not empty, look at its top; take a fresh arrangement of
      the four offsets; open the midpoint and the neighbour for the first offset whose neighbour
      is in bounds and still a wall, and push that neighbour; if there is none, pop.
      `order(i)` is the arrangement the shuffle produces on pass `i`. */
  method GenerateMaze(maze: array2<char>, width: int, height: int, order: nat -> seq<Offset>)
    requires width >= 3 && height >= 3
    requires maze.Length0 == height && maze.Length1 == width
    requires IsInitialGrid(maze)
    requires forall i :: IsShuffle(order(i))
    modifies maze
    ensures IsPerfectMaze(maze)
  {
    var stack := [Start];
    var pass: nat := 0;
    ghost var nodes: set<Pos> := {Start};
    ghost var links: set<Pos> := {};
    ghost var parent: map<Pos, Pos> := map[];
    ghost var depth: map<Pos, nat> := map[Start := 0];
    SiteBounds(Start, width, height);

    while stack != []
      invariant Mirrors(maze, nodes, links)
      invariant IsCarving(nodes, links, parent, depth, width, height)
      invariant StackInv(stack, nodes, width, height)
      decreases |AllSites(width, height) - nodes|, |stack|
    {
      var directions := order(pass);
      pass := pass + 1;
      var k;
      k, stack, nodes, links, parent, depth :=
        SearchPass(maze, width, height, stack, directions, nodes, links, parent, depth);
    }

    ClosedSitesAreAll(nodes, width, height);
    CarvingIsPerfect(maze, nodes, links, parent, depth);
  }
}
