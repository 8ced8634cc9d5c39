/** The game itself: the maze built at start-up with its exit, and the state the main loop
    updates in place on every frame. */
module MazeGame {
  import opened Grid
  import opened MazeGen
  import opened Movement

  /** How a frame ends: the window was closed, the player has won (the loop shows the win
      message and stops), or the loop goes round again. */
  datatype Outcome = Quit | Won | Continue

  class Game {
    const maze: array2<char>
    const exitPos: Pos
    var playerPos: Pos
    var moveDelay: int
    var lastMoveTime: int
    var movementDirection: Option<Direction>
    var gameWon: bool
    var displayStartMessage: bool

    /** The state the movement tick reads and writes. */
    function State(): MoveState
      reads this
    {
      MoveState(playerPos, moveDelay, lastMoveTime, movementDirection, gameWon, displayStartMessage)
    }

    /** A 21 by 21 grid walled all round with its exit in the far corner, and the loop's
        invariant. The maze is never written after start-up, so the constructor's promise that
        it is a perfect maze holds for the rest of the game. */
    ghost predicate Valid()
      reads this, maze
    {
      maze.Length0 == Height && maze.Length1 == Width && BorderClosed(maze) &&
      exitPos == ExitPos && Inv(maze, State())
    }

    /** Start-up: build and carve the maze, open the exit, place the player at the start and
        set up the timing, with the start message showing. `order` stands for the shuffles of
        the carving and `startTime` for the clock reading taken before the loop. */
    constructor(order: nat -> seq<Offset>, startTime: int)
      requires forall i :: IsShuffle(order(i))
      ensures Valid() && fresh(maze)
      ensures IsPerfectMaze(maze) && IsOpenAt(maze, exitPos)
      ensures State() == InitialState(startTime)
    {
      var m := BuildMaze(order);
      maze := m;
      exitPos := ExitPos;
      playerPos := Start;
      moveDelay := InitialMoveDelay;
      lastMoveTime := startTime;
      movementDirection := None;
      gameWon := false;
      displayStartMessage := true;
      new;
    }

    /** The events of one frame: report a quit event, or clear the start message on a key
        press while it shows. */
    method HandleEvents(events: seq<Event>) returns (quit: bool)
      modifies this
      ensures quit <==> QuitEvent in events
      ensures !quit ==> Dispatch(old(displayStartMessage), events) == Some(displayStartMessage)
      ensures playerPos == old(playerPos) && moveDelay == old(moveDelay)
      ensures lastMoveTime == old(lastMoveTime) && movementDirection == old(movementDirection)
      ensures gameWon == old(gameWon)
      ensures displayStartMessage ==> old(displayStartMessage)
    {
      var i := 0;
      while i < |events|
        invariant 0 <= i <= |events|
        invariant QuitEvent !in events[..i]
        invariant Dispatch(old(displayStartMessage), events) ==
          Dispatch(displayStartMessage, events[i..])
        invariant displayStartMessage ==> old(displayStartMessage)
        invariant playerPos == old(playerPos) && moveDelay == old(moveDelay)
        invariant lastMoveTime == old(lastMoveTime) && movementDirection == old(movementDirection)
        invariant gameWon == old(gameWon)
      {
        if events[i] == QuitEvent {
          assert QuitEvent in events;
          return true;
        }
        if displayStartMessage && events[i] == KeyDownEvent {
          displayStartMessage := false;
        }
        assert events[..i + 1] == events[..i] + [events[i]];
        i := i + 1;
      }
      assert events[..i] == events;
      return false;
    }

    /** The movement tick at clock reading `now` with `keys` held: nothing while the start
        message shows or after the win; otherwise pick a direction, reset the delay when there
        is none, move one cell once more than the delay has passed, and check for the exit. */
    method Tick(keys: Keys, now: int)
      requires Valid()
      modifies this
      ensures Valid()
      ensures State() == Step(maze, old(State()), keys, now)
    {
      ghost var next := Step(maze, State(), keys, now);
      StepKeepsInv(maze, State(), keys, now);
      if !gameWon && !displayStartMessage {
        var currentTime := now;
        movementDirection := HeldDirection(keys);
        if movementDirection.None? {
          moveDelay := InitialMoveDelay;
        }

        if movementDirection.Some? && currentTime - lastMoveTime > moveDelay {
          playerPos := Target(playerPos, movementDirection.value);
          lastMoveTime := currentTime;
          moveDelay := Max(MinMoveDelay, moveDelay - AccelerationRate);
        }

        if playerPos == exitPos {
          gameWon := true;
        }
      }
      assert State() == next;
    }

    /** The scan of the held keys: up, then down, then left, then right, each taken only when
        the cell beside the player in that direction is open. */
    method HeldDirection(keys: Keys) returns (direction: Option<Direction>)
      requires Valid()
      ensures direction == ChooseDirection(maze, playerPos, keys)
    {
      OpenIsInterior(maze, playerPos);
      var row, col := playerPos.row, playerPos.col;
      if keys.up && maze[row - 1, col] == Open {
        direction := Some(Up);
      } else if keys.down && maze[row + 1, col] == Open {
        direction := Some(Down);
      } else if keys.left && maze[row, col - 1] == Open {
        direction := Some(Left);
      } else if keys.right && maze[row, col + 1] == Open {
        direction := Some(Right);
      } else {
        direction := None;
      }
    }

    /** One pass of the main loop: the events, then the tick, then the end-of-frame check that
        stops the loop once the game is won (after the start message is gone). */
    method Frame(events: seq<Event>, keys: Keys, now: int) returns (outcome: Outcome)
      requires Valid()
      modifies this
      ensures Valid()
      ensures outcome == Quit <==> QuitEvent in events
      ensures outcome != Quit ==>
        State() == Step(maze, old(State()).(showStart := Dispatch(old(displayStartMessage), events).value), keys, now)
      ensures outcome == Won <==> outcome != Quit && !displayStartMessage && gameWon
    {
      var quit := HandleEvents(events);
      if quit {
        return Quit;
      }
      Tick(keys, now);
      if !displayStartMessage && gameWon {
        return Won;
      }
      return Continue;
    }
  }

  /** The maze of start-up: the initial grid, carved, with the exit opened. */
  method BuildMaze(order: nat -> seq<Offset>) returns (maze: array2<char>)
    requires forall i :: IsShuffle(order(i))
    ensures fresh(maze) && maze.Length0 == Height && maze.Length1 == Width
    ensures IsPerfectMaze(maze) && BorderClosed(maze)
    ensures IsOpenAt(maze, Start) && IsOpenAt(maze, ExitPos)
  {
    SiteBounds(ExitPos, Width, Height);
    SiteBounds(Start, Width, Height);
    assert ExitPos in AllSites(Width, Height) && Start in AllSites(Width, Height);
    maze := InitializeMaze(Width, Height);
    GenerateMaze(maze, Width, Height, order);
    OpenExit(maze, ExitPos);
    PerfectMazeWalls(maze);
    assert Start in OpenSites(maze);
  }

  /** Opening the exit: the exit is a site, so a perfect maze already has it open and the write
      leaves the maze a perfect maze. */
  method OpenExit(maze: array2<char>, exit: Pos)
    requires IsPerfectMaze(maze) && exit in AllSites(maze.Length1, maze.Length0)
    modifies maze
    ensures IsPerfectMaze(maze) && IsOpenAt(maze, exit)
    ensures forall i, j :: 0 <= i < maze.Length0 && 0 <= j < maze.Length1 ==>
      maze[i, j] == old(maze[i, j])
  {
    assert exit in OpenCells(maze);
    SiteBounds(exit, maze.Length1, maze.Length0);
    maze[exit.row, exit.col] := Open;
    assert OpenCells(maze) == old(OpenCells(maze));
  }
}
