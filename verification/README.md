# Maze game: a verified model of maze carving and player movement

`maze_game.py` is a small pygame program. At start-up it builds a 21 by 21 grid of walls
(`'#'`) and opens cell (1, 1). It then carves a maze with an iterative randomized depth-first
search, and it opens the exit in the corner opposite the start. The main loop does three
things on every frame:

- it reads the event queue, where a quit event ends the game and any key press dismisses the
  start message;
- it moves the player one cell in the first arrow direction (up, down, left, right) whose key
  is held and whose cell is open, once more time than the current delay has passed;
- it shortens the delay by 10 ms after each move, down to a floor of 50 ms, resets it to
  200 ms when no usable key is held, and stops when the player reaches the exit.

The model has four modules.

- `Grid` (`grid.dfy`): the grid of cells. It defines *sites* (cells with two odd
  coordinates, the rooms the search visits) and *links* (open cells between two sites). It
  also defines `IsPerfectMaze`, which holds when:
  - every site is open;
  - every other open cell joins two open sites;
  - every open cell is reachable from the start;
  - there is exactly one link fewer than there are sites, so the passages form a spanning tree.
- `MazeGen` (`maze_gen.dfy`): `initialize_maze` and `generate_maze`, working in place on an
  `array2<char>`. The loop is proved to terminate and to leave a perfect maze. Ghost
  bookkeeping records the visited sites, the carved links and the discovery tree.
- `Movement` (`movement.dfy`): one pass of the main loop as pure functions. `Dispatch` covers
  the events and `Step` covers the movement tick, with lemmas over sequences of ticks.
- `MazeGame` (`maze_game.dfy`): class `Game`. It holds the maze and the loop's variables,
  which its methods update in place. Its constructor is the start-up code, and `Tick`,
  `HandleEvents` and `Frame` are proved against the functions of `Movement`.

## Model

| member | source | states |
|---|---|---|
| MazeGen.InitializeMaze | maze_game.py:30-33 | a fresh `height` by `width` grid, all wall except cell (1, 1), which is open |
| MazeGen.FirstCarvable | maze_game.py:44-46 | returns the index of the first offset, in the shuffled order, whose neighbour is in bounds and still a wall; every earlier offset fails that test; the index is the length of the list when no offset passes |
| MazeGen.SearchPass | maze_game.py:42-52 | returns the index k of the first offset, in the given shuffled order, that was carvable from the top in the grid before the pass (every earlier one was not); if there is one it pushes exactly that neighbour and adds it and the midpoint to the carving (the unvisited sites shrink), otherwise it pops the top and changes nothing else; the grid keeps mirroring the carving, the carving stays a tree and the stack invariant holds |
| MazeGen.GenerateMaze | maze_game.py:37-54 | for every shuffle order the loop terminates (unvisited sites, then stack length, decrease) and leaves a perfect maze: all sites open, every other open cell between two open sites, one link fewer than sites, everything reachable from (1, 1) |
| MazeGen.Carve | maze_game.py:47-48 | opens the midpoint and the neighbour and changes no other cell; the grid then mirrors the carving grown by that site and link |
| MazeGen.Advance | maze_game.py:45-49 | carving from the stack top to an unvisited in-bounds site opens an in-bounds midpoint that was not yet carved; it keeps the carving a tree with one link fewer than sites, keeps the stack invariant after the push, and shrinks the unvisited sites |
| MazeGen.Backtrack | maze_game.py:44-52 | when no shuffled offset passes the test, every in-bounds neighbour two cells away is already visited, so popping keeps every visited site off the stack fully explored |
| MazeGen.StackEntriesOpen | maze_game.py:45-49 | every stack entry has two odd coordinates, lies in 1 <= x < height-1 and 1 <= y < width-1, and is open |
| MazeGen.CarveStep | maze_game.py:47-49 | adding a site and the link to it from its parent keeps each link joining two sites, keeps the tree edge count (sites = links + 1) and the discovery tree, and keeps the sites within bounds |
| MazeGen.StepGeometry | maze_game.py:45-47 | a step from a site lands on a site two cells away; the midpoint is not a site, is adjacent to both ends, and joins two sites exactly when both ends are visited |
| MazeGen.ShuffleCovers | maze_game.py:43 | every one of the four offsets occurs in any shuffle of them |
| MazeGen.ClosedSitesAreAll | maze_game.py:41-52 | once the stack is empty, every site within the bounds has been visited, because every visited site has all its neighbours visited |
| MazeGen.SiteReached | maze_game.py:41-52 | by induction on row + col: each in-bounds site is reached from (1, 1) through sites whose neighbours are all visited |
| MazeGen.PathFromStart | maze_game.py:47-49 | by induction on discovery depth: every visited site has a walk from (1, 1) through opened cells |
| MazeGen.ReachLink | maze_game.py:47-49 | every carved link is reachable from (1, 1), one step past the site beside it |
| MazeGen.CarvingConnected | maze_game.py:47-49 | every carved cell is reachable from (1, 1) through carved cells |
| MazeGen.MirroredSets | maze_game.py:47-48 | a grid that mirrors the carving has exactly the visited sites and carved links as its open cells |
| MazeGen.CarvingIsPerfect | maze_game.py:41-54 | with every site visited, the grid the loop leaves is a perfect maze |
| Grid.PerfectMazeWalls | maze_game.py:46-48 | in a perfect maze, row 0, the last row, column 0, the last column and every even/even cell are walls |
| MazeGame.OpenExit | maze_game.py:133-134 | the exit cell is a site, so it is already open: after the write every cell holds what it held before, the exit is open and the maze is still perfect |
| MazeGame.BuildMaze | maze_game.py:127-134 | the start-up maze is a fresh 21 by 21 perfect maze with a closed border, the start and the exit (19, 19) open |
| MazeGame.Game.constructor | maze_game.py:127-148 | a perfect maze, the player at (1, 1), delay 200, the last move time set to the clock reading, no direction, not won, start message showing |
| Movement.Dispatch | maze_game.py:151-156 | a frame's events quit exactly when a quit event is among them; otherwise the start message stays only if it was showing and no key was pressed |
| MazeGame.Game.HandleEvents | maze_game.py:151-156 | the loop over the events reports a quit exactly when one is queued, matches `Dispatch` on the start message otherwise, and changes no other field |
| Movement.ChooseDirection | maze_game.py:164-173 | the chosen direction has its key held and its cell open, and no direction earlier in the order up, down, left, right does; there is no direction exactly when no held key leads to an open cell |
| MazeGame.Game.HeldDirection | maze_game.py:164-173 | the if/elif scan of the held keys against the grid returns `ChooseDirection` of the player's cell |
| Movement.Step | maze_game.py:158-196 | nothing changes after the win or while the start message shows; otherwise the direction is chosen afresh, and with none the delay returns to 200 and the player stays; the player moves exactly when a direction was chosen and now - last > delay (strict); a chosen direction without a move keeps the delay and the last move time; a move goes by one cell onto an open cell, with the time recorded and the delay shortened to max(50, delay - 10); the game is won exactly when the player is on the exit |
| MazeGame.Game.Tick | maze_game.py:158-196 | the in-place update of the fields is exactly `Step` of the old state, and the game invariant is kept |
| MazeGame.Game.Frame | maze_game.py:150-221 | a frame quits exactly on a queued quit event; otherwise the state is `Step` applied after `Dispatch`; the frame ends the game as won exactly when the start message is gone and the game is won |
| Movement.OpenIsInterior | maze_game.py:164-170 | with a walled border, an open cell is never on the border, so the four neighbour look-ups stay inside the grid |
| Movement.HeldKeyNeverSlows | maze_game.py:164-192 | while a usable key is held, a tick never raises the delay and never takes it below 50 |
| Movement.StepKeepsInv | maze_game.py:179-196 | a tick keeps the player on an open cell and the delay within [50, 200], and keeps the game won exactly when the player is on the exit |
| Movement.RunKeepsInv | maze_game.py:150-196 | the same holds after any number of ticks |
| Movement.InactiveRunIsFrozen | maze_game.py:158 | once won, or while the start message shows, no number of ticks changes the state |
| Movement.BlockedRunStays | maze_game.py:172-176 | holding only keys that point at walls never moves the player and leaves the delay at 200 |

## Left out

- Pygame setup, the window, fonts, colours and `CELL_SIZE` (maze_game.py:7-26) are presentation only.
- All drawing is left out: `draw_maze`, `draw_player`, `draw_exit`, `display_text_with_shadow`, `display_win_message` and the render block of the loop (maze_game.py:58-124, 198-215, 223). Rendering has no behavioural contract.
- The process exit is left out. `pygame.quit`, `sys.exit` and the 2000 ms wait before exiting on a win (maze_game.py:152-154, 216-221) become the `Outcome` that `Frame` returns (`Quit` or `Won`).
- The clock and the keyboard are parameters. `pygame.time.get_ticks` is the `now` and `startTime` arguments, and `pygame.key.get_pressed` is the four arrow-key booleans of `Keys`; other keys play no part in movement.
- Events are reduced to three kinds: quit, key press, and everything else, which is ignored.
- `random.shuffle` is an oracle. `GenerateMaze` takes `order`, the arrangement of the four offsets on each pass. Any permutation is allowed, and every shuffle of a permutation is one, so the in-place reshuffling of the same list is covered.
- `movement_direction` holds `Option<Direction>` instead of the strings `"UP"`, `"DOWN"`, `"LEFT"`, `"RIGHT"` and `None`.
- InitializeMaze: requires width and height of at least 2. With smaller sizes the write to `maze[1][1]` raises an `IndexError`, which is not modelled.
- GenerateMaze: requires the grid `initialize_maze` produces and width and height of at least 3, as at its only call (21 by 21). It does not cover carving a grid already carved, or one where (1, 1) is on the border.
- GenerateMaze: that cells only go from wall to open is stated per pass, not as one before/after clause over the whole run. It appears on `Carve`, which changes nothing but its two cells and leaves them open, and on `SearchPass`, whose visited sites and carved links only grow while the grid mirrors them.
- MazeGame.Game.Tick: the player's neighbours are read with Dafny indices. Python's negative indexing would wrap, but `OpenIsInterior` shows it never comes into play.
- A key held towards a wall, with no other usable key held, falls to the final `else` (maze_game.py:172-176), which resets the delay to 200. The model does the same.
