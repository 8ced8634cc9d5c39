/** One pass of the game's main loop, as values: the start-message flag driven by the event
    queue, and the movement tick (direction choice by key priority, the time gate with its
    accelerating delay, and the win check). The class in maze_game.dfy runs these on its
    fields; the functions here are what its methods are proved against. */
module Movement {
  import opened Grid

  const Width: int := 21
  const Height: int := 21
  /** The exit sits in the corner opposite the start. */
  const ExitPos: Pos := Pos(Height - 2, Width - 2)

  /** Milliseconds between moves when a key is first held. */
  const InitialMoveDelay: int := 200
  /** The shortest delay acceleration can reach. */
  const MinMoveDelay: int := 50
  /** How much each move shortens the delay. */
  const AccelerationRate: int := 10

  datatype Option<T> = None | Some(value: T)

  datatype Direction = Up | Down | Left | Right

  /** The arrow keys held down at the moment of a tick. */
  datatype Keys = Keys(up: bool, down: bool, left: bool, right: bool)

  /** The kinds of queued event the loop reacts to; every other kind is ignored. */
  datatype Event = QuitEvent | KeyDownEvent | OtherEvent

  /** The loop's mutable state: the player's cell, the timing of moves, the direction of the
      last tick, and the two flags that gate movement. */
  datatype MoveState = MoveState(
    pos: Pos, moveDelay: int, lastMoveTime: int, direction: Option<Direction>,
    gameWon: bool, showStart: bool)

  /** The state when the loop is entered, `startTime` being the clock reading at that point. */
  function InitialState(startTime: int): MoveState {
    MoveState(Start, InitialMoveDelay, startTime, None, false, true)
  }

  function Max(a: int, b: int): int {
    if a >= b then a else b
  }

  /** The cell one step from `p` in direction `d`; rows grow downwards. */
  function Target(p: Pos, d: Direction): Pos {
    match d
    case Up => Pos(p.row - 1, p.col)
    case Down => Pos(p.row + 1, p.col)
    case Left => Pos(p.row, p.col - 1)
    case Right => Pos(p.row, p.col + 1)
  }

  predicate Held(keys: Keys, d: Direction) {
    match d
    case Up => keys.up
    case Down => keys.down
    case Left => keys.left
    case Right => keys.right
  }

  /** The order in which the directions are tried. */
  function Rank(d: Direction): nat {
    match d
    case Up => 0
    case Down => 1
    case Left => 2
    case Right => 3
  }

  /** Direction `d` can be taken: its key is held and the cell it leads to is open. */
  predicate Usable(maze: array2<char>, pos: Pos, keys: Keys, d: Direction)
    reads maze
  {
    Held(keys, d) && IsOpenAt(maze, Target(pos, d))
  }

  /** The direction a tick takes: the first of up, down, left, right whose key is held and
      whose neighbouring cell is open, or none when no held key leads to an open cell. */
  function ChooseDirection(maze: array2<char>, pos: Pos, keys: Keys): (r: Option<Direction>)
    reads maze
    ensures r.Some? ==> Usable(maze, pos, keys, r.value)
    ensures r.Some? ==> forall d :: Rank(d) < Rank(r.value) ==> !Usable(maze, pos, keys, d)
    ensures r.None? <==> forall d :: !Usable(maze, pos, keys, d)
  {
    if Usable(maze, pos, keys, Up) then Some(Up)
    else if Usable(maze, pos, keys, Down) then Some(Down)
    else if Usable(maze, pos, keys, Left) then Some(Left)
    else if Usable(maze, pos, keys, Right) then Some(Right)
    else None
  }

  /** Movement is processed only after the start message is dismissed and before the win. */
  predicate Active(s: MoveState) {
    !s.gameWon && !s.showStart
  }

  /** The player stands on an open cell, the delay lies between its floor and its initial
      value, and the game is won exactly when the player stands on the exit. */
  ghost predicate Inv(maze: array2<char>, s: MoveState)
    reads maze
  {
    IsOpenAt(maze, s.pos) &&
    MinMoveDelay <= s.moveDelay <= InitialMoveDelay &&
    (s.gameWon <==> s.pos == ExitPos)
  }

  /** One movement tick at clock reading `now` with `keys` held. When movement is gated off the
      state is untouched. Otherwise the direction is chosen afresh; with no direction the delay
      goes back to its initial value. The player moves one cell only when a direction was
      chosen and strictly more than the delay has passed since the last move; the move records
      the time and shortens the delay, never below its floor. Then the win is checked. */
  function Step(maze: array2<char>, s: MoveState, keys: Keys, now: int): (r: MoveState)
    reads maze
    ensures !Active(s) ==> r == s
    ensures Active(s) ==> r.showStart == s.showStart && r.direction == ChooseDirection(maze, s.pos, keys)
    ensures Active(s) && r.direction.None? ==> r.pos == s.pos && r.moveDelay == InitialMoveDelay
    ensures Active(s) && r.pos != s.pos <==>
      Active(s) && r.direction.Some? && now - s.lastMoveTime > s.moveDelay
    ensures r.pos != s.pos ==>
      r.pos == Target(s.pos, r.direction.value) && Adjacent(s.pos, r.pos) && IsOpenAt(maze, r.pos) &&
      r.lastMoveTime == now && r.moveDelay == Max(MinMoveDelay, s.moveDelay - AccelerationRate)
    ensures r.pos == s.pos ==> r.lastMoveTime == s.lastMoveTime
    ensures Active(s) && r.direction.Some? && r.pos == s.pos ==> r.moveDelay == s.moveDelay
    ensures Active(s) ==> (r.gameWon <==> r.pos == ExitPos)
  {
    if !Active(s) then s
    else
      var dir := ChooseDirection(maze, s.pos, keys);
      var delay := if dir.None? then InitialMoveDelay else s.moveDelay;
      if dir.Some? && now - s.lastMoveTime > delay then
        var p := Target(s.pos, dir.value);
        MoveState(p, Max(MinMoveDelay, delay - AccelerationRate), now, dir, p == ExitPos, s.showStart)
      else
        s.(moveDelay := delay, direction := dir, gameWon := s.pos == ExitPos)
  }

  /** A wall all round the grid keeps an open cell off the border, so its neighbours are in
      the grid. */
  lemma OpenIsInterior(maze: array2<char>, p: Pos)
    requires BorderClosed(maze) && IsOpenAt(maze, p)
    ensures Interior(maze, p)
  {
  }

  /** A tick keeps the invariant: the player only ever steps onto open cells, the delay stays
      within its bounds, and the win flag tracks the exit. */
  lemma StepKeepsInv(maze: array2<char>, s: MoveState, keys: Keys, now: int)
    requires Inv(maze, s)
    ensures Inv(maze, Step(maze, s, keys, now))
  {
  }

  /** While a usable key is held the delay never grows: it stays put until the next move and
      then shrinks towards its floor. */
  lemma HeldKeyNeverSlows(maze: array2<char>, s: MoveState, keys: Keys, now: int)
    requires Active(s) && MinMoveDelay <= s.moveDelay
    requires ChooseDirection(maze, s.pos, keys).Some?
    ensures MinMoveDelay <= Step(maze, s, keys, now).moveDelay <= s.moveDelay
  {
  }

  /** The ticks of a sequence of frames, each with the keys held and the clock reading. */
  function Run(maze: array2<char>, s: MoveState, ticks: seq<(Keys, int)>): (r: MoveState)
    reads maze
    decreases |ticks|
  {
    if ticks == [] then s else Run(maze, Step(maze, s, ticks[0].0, ticks[0].1), ticks[1..])
  }

  /** However many ticks pass, the player stays on an open cell, the delay within its bounds,
      and the win flag tracks the exit. */
  lemma {:induction false} RunKeepsInv(maze: array2<char>, s: MoveState, ticks: seq<(Keys, int)>)
    requires Inv(maze, s)
    ensures Inv(maze, Run(maze, s, ticks))
    decreases |ticks|
  {
    if ticks != [] {
      StepKeepsInv(maze, s, ticks[0].0, ticks[0].1);
      RunKeepsInv(maze, Step(maze, s, ticks[0].0, ticks[0].1), ticks[1..]);
    }
  }

  /** Once won, or while the start message shows, no tick changes anything. */
  lemma {:induction false} InactiveRunIsFrozen(maze: array2<char>, s: MoveState, ticks: seq<(Keys, int)>)
    requires !Active(s)
    ensures Run(maze, s, ticks) == s
    decreases |ticks|
  {
    if ticks != [] {
      InactiveRunIsFrozen(maze, s, ticks[1..]);
    }
  }

  /** No key of a tick leads to an open cell. */
  predicate Blocked(maze: array2<char>, pos: Pos, ticks: seq<(Keys, int)>)
    reads maze
  {
    forall k :: 0 <= k < |ticks| ==> ChooseDirection(maze, pos, ticks[k].0).None?
  }

  /** Holding only keys that point at walls never moves the player, and leaves the delay at
      its initial value. */
  lemma {:induction false} BlockedRunStays(maze: array2<char>, s: MoveState, ticks: seq<(Keys, int)>)
    requires Active(s) && Blocked(maze, s.pos, ticks) && ticks != []
    ensures Run(maze, s, ticks).pos == s.pos
    ensures Run(maze, s, ticks).moveDelay == InitialMoveDelay
    decreases |ticks|
  {
    var next := Step(maze, s, ticks[0].0, ticks[0].1);
    if |ticks| > 1 {
      assert Blocked(maze, next.pos, ticks[1..]) by {
        forall k | 0 <= k < |ticks[1..]|
          ensures ChooseDirection(maze, next.pos, ticks[1..][k].0).None?
        {
          assert ticks[1..][k] == ticks[k + 1];
        }
      }
      if Active(next) {
        BlockedRunStays(maze, next, ticks[1..]);
      } else {
        InactiveRunIsFrozen(maze, next, ticks[1..]);
      }
    }
  }

  /** The queued events of one frame: a quit event ends the game; otherwise the start message
      stays up only if it was up and no key was pressed. The result is the new flag, or none
      for a quit. */
  function Dispatch(showStart: bool, events: seq<Event>): (r: Option<bool>)
    ensures r.None? <==> QuitEvent in events
    ensures r.Some? ==> (r.value <==> showStart && KeyDownEvent !in events)
    decreases |events|
  {
    if events == [] then Some(showStart)
    else if events[0] == QuitEvent then None
    else
      var rest := Dispatch(showStart && events[0] != KeyDownEvent, events[1..]);
      assert events == [events[0]] + events[1..];
      rest
  }
}
