/**
 The right-hand wall follower (Maze.playground). It keeps no record of where it has
 been. In any maze it ends within a known number of steps or never; from an open
 entrance it always ends, because its step is injective on the states it can reach
 and the first state has no predecessor inside the maze.
 */
module Mazes {
  import opened Grid

  const WAYS: set<Way> := {Up, Right, Bottom, Left}

  /** A grid of cells, row by row; 0 is a free cell. */
  datatype Maze = Maze(rows: nat, columns: nat, matrix: seq<int>) {
    predicate Valid() {
      rows >= 2 && columns >= 1 && |matrix| == rows * columns
    }

    predicate Inside(p: Point) {
      0 <= p.row < rows && 0 <= p.column < columns
    }

    function TransformLocation(row: int, column: int): int {
      row * columns + column
    }

    /** What the program reads for a cell. */
    predicate IsFree(p: Point)
      requires Valid() && Inside(p)
    {
      InRange(p);
      matrix[TransformLocation(p.row, p.column)] == 0
    }

    lemma InRange(p: Point)
      requires Valid() && Inside(p)
      ensures 0 <= TransformLocation(p.row, p.column) < |matrix|
    {
      assert p.row * columns <= (rows - 1) * columns;
      assert (rows - 1) * columns + columns == rows * columns;
    }

    /** `isExit` */
    predicate IsExit(p: Point) {
      p.row - 1 < 0 || p.row + 1 == rows || p.column - 1 < 0 || p.column + 1 == columns
    }

    predicate Interior(p: Point) {
      Inside(p) && !IsExit(p)
    }

    /** Free cells off the boundary. */
    ghost function FreeInterior(): set<Point>
      requires Valid()
    {
      set r, c | 0 <= r < rows && 0 <= c < columns && Interior(Point(r, c)) && IsFree(Point(r, c)) :: Point(r, c)
    }
  }

  // ----- One step -----

  /** Where the player stands and which way he faces. */
  datatype State = State(point: Point, way: Way)

  /** The cell behind the player. */
  function Behind(s: State): Point {
    Move(s.point, Turn(s.way, 2))
  }

  predicate Sees(maze: Maze, s: State, turn: nat)
    requires maze.Valid() && maze.Interior(s.point)
  {
    maze.IsFree(Move(s.point, Turn(s.way, turn)))
  }

  /** The way the program turns: right, front, left, back, whichever is free first. */
  function Choice(maze: Maze, s: State): (turn: nat)
    requires maze.Valid() && maze.Interior(s.point)
    ensures turn < 4
  {
    if Sees(maze, s, 1) then 1 else if Sees(maze, s, 0) then 0 else if Sees(maze, s, 3) then 3 else 2
  }

  function Step(maze: Maze, s: State): State
    requires maze.Valid() && maze.Interior(s.point)
  {
    var way := Turn(s.way, Choice(maze, s));
    State(Move(s.point, way), way)
  }

  /** The player came from a free cell. */
  predicate CameFromFree(maze: Maze, s: State)
    requires maze.Valid()
  {
    maze.Inside(Behind(s)) && maze.IsFree(Behind(s))
  }

  /** A step from an interior cell reaches a free cell of the grid, even by the back
      move, which the program does not check. */
  lemma StepReachesFree(maze: Maze, s: State)
    requires maze.Valid() && maze.Interior(s.point) && CameFromFree(maze, s)
    ensures maze.Inside(Step(maze, s).point) && maze.IsFree(Step(maze, s).point)
    ensures Behind(Step(maze, s)) == s.point
  {
    hide Maze.IsFree;
    match s.way case Up => case Right => case Bottom => case Left =>
  }

  /** The rule turns away from a free cell behind to the next free cell around; going
      around the other way leads back. So no two states step to the same state. */
  lemma StepInjective(maze: Maze, s: State, t: State)
    requires maze.Valid() && maze.Interior(s.point) && maze.Interior(t.point)
    requires CameFromFree(maze, s) && CameFromFree(maze, t)
    requires Step(maze, s) == Step(maze, t)
    ensures s == t
  {
    hide Maze.IsFree, Step, CameFromFree;
    StepReachesFree(maze, s);
    StepReachesFree(maze, t);
    hide Behind;
    SameWay(maze, s.point, s.way, t.way);
  }

  /** From one cell, two headings with a free cell behind choose different ways. */
  lemma SameWay(maze: Maze, p: Point, v: Way, w: Way)
    requires maze.Valid() && maze.Interior(p)
    requires CameFromFree(maze, State(p, v)) && CameFromFree(maze, State(p, w))
    requires Step(maze, State(p, v)) == Step(maze, State(p, w))
    ensures v == w
  {
    hide Maze.IsFree;
    match v case Up => case Right => case Bottom => case Left =>
  }

  // ----- The hand on the wall -----

  /** The ways around a player, from his right hand on counterclockwise. */
  function Around(w: Way, n: nat): Way {
    if n == 0 then Clockwise(w) else Turn(Around(w, n - 1), 3)
  }

  /** Turning from the right hand counterclockwise, `w` is reached past walls only. */
  predicate FirstAround(maze: Maze, s: State, w: Way)
    requires maze.Valid() && maze.Interior(s.point)
  {
    exists n :: 0 <= n < 4 && w == Around(s.way, n) &&
                forall k :: 0 <= k < n ==> !maze.IsFree(Move(s.point, Around(s.way, k)))
  }

  /** `t` follows `s` one cell on, and the player either turned to his right hand or has
      a wall on the right of the way he went. */
  predicate KeepsHandOnWall(maze: Maze, s: State, t: State)
    requires maze.Valid() && maze.Interior(s.point)
  {
    && t.point == Move(s.point, t.way)
    && FirstAround(maze, s, t.way)
    && (t.way == Clockwise(s.way) || !maze.IsFree(Move(s.point, Clockwise(t.way))))
  }

  lemma FourWaysAround(w: Way)
    ensures Around(w, 0) == Turn(w, 1) && Around(w, 1) == w && Around(w, 2) == Turn(w, 3) && Around(w, 3) == Turn(w, 2)
  {
    assert Around(w, 1) == Turn(Around(w, 0), 3);
    assert Around(w, 2) == Turn(Around(w, 1), 3);
    assert Around(w, 3) == Turn(Around(w, 2), 3);
  }

  /** Every step keeps the right hand on the wall. */
  lemma StepKeepsHandOnWall(maze: Maze, s: State)
    requires maze.Valid() && maze.Interior(s.point)
    ensures KeepsHandOnWall(maze, s, Step(maze, s))
  {
    hide Maze.IsFree, Around;
    assert forall w: Way :: maze.Inside(Move(s.point, w));
    hide Move;
    FourWaysAround(s.way);
    var turn := Choice(maze, s);
    var n := if turn == 1 then 0 else if turn == 0 then 1 else if turn == 3 then 2 else 3;
    assert Step(maze, s).way == Around(s.way, n);
    assert forall k :: 0 <= k < n ==> !maze.IsFree(Move(s.point, Around(s.way, k)));
    assert Clockwise(Step(maze, s).way) == (if n == 0 then Turn(s.way, 2) else Around(s.way, n - 1)) by {
      match s.way case Up => case Right => case Bottom => case Left =>
    }
  }

  /** And there is only one such way to a free cell. */
  lemma OneWayOnly(maze: Maze, s: State, w: Way)
    requires maze.Valid() && maze.Interior(s.point) && CameFromFree(maze, s)
    requires FirstAround(maze, s, w) && maze.IsFree(Move(s.point, w))
    ensures w == Step(maze, s).way
  {
    hide Maze.IsFree, Move, Around;
    FourWaysAround(s.way);
  }

  // ----- Runs -----

  /** The state after `n` steps; a walk that has reached the boundary stays there. */
  function After(maze: Maze, s: State, n: nat): State
    requires maze.Valid()
    decreases n
  {
    if n == 0 then s
    else
      var t := After(maze, s, n - 1);
      if maze.Interior(t.point) then Step(maze, t) else t
  }

  /** The state the program starts in, for an entrance in the first or the last row. */
  function Start(entrance: Point): State {
    State(Point(if entrance.row == 0 then 1 else entrance.row - 1, entrance.column),
          if entrance.row == 0 then Bottom else Up)
  }

  function Walk(maze: Maze, entrance: Point, n: nat): State
    requires maze.Valid()
  {
    After(maze, Start(entrance), n)
  }

  predicate OnEdge(maze: Maze, entrance: Point) {
    maze.Inside(entrance) && (entrance.row == 0 || entrance.row == maze.rows - 1)
  }

  lemma {:induction false} EndedStays(maze: Maze, s: State, n: nat, k: nat)
    requires maze.Valid() && !maze.Interior(After(maze, s, n).point)
    ensures After(maze, s, n + k) == After(maze, s, n)
  {
    if k > 0 { EndedStays(maze, s, n, k - 1); }
  }

  // ----- Every walk -----

  /** The cells a walk can be on: free ones, and the two it never checked. */
  predicate Known(maze: Maze, entrance: Point, p: Point)
    requires maze.Valid()
  {
    maze.Inside(p) && (maze.IsFree(p) || p == entrance || p == Start(entrance).point)
  }

  lemma StepStaysKnown(maze: Maze, entrance: Point, s: State)
    requires maze.Valid() && maze.Interior(s.point) && Known(maze, entrance, Behind(s))
    ensures Known(maze, entrance, Step(maze, s).point) && Behind(Step(maze, s)) == s.point
  {
    hide Maze.IsFree, Start;
    match s.way case Up => case Right => case Bottom => case Left =>
  }

  /** Whatever the maze, no step leaves the grid, and a step onto a cell that is not
      free is one back to the start or to the entrance. */
  lemma {:induction false} WalkStaysKnown(maze: Maze, entrance: Point, n: nat)
    requires maze.Valid() && OnEdge(maze, entrance)
    ensures Known(maze, entrance, Walk(maze, entrance, n).point)
    ensures Known(maze, entrance, Behind(Walk(maze, entrance, n)))
  {
    hide Maze.IsFree, Step;
    if n > 0 {
      WalkStaysKnown(maze, entrance, n - 1);
      var t := Walk(maze, entrance, n - 1);
      if maze.Interior(t.point) { StepStaysKnown(maze, entrance, t); }
    }
  }

  /** The walk reaches the boundary. */
  ghost predicate Ends(maze: Maze, entrance: Point)
    requires maze.Valid()
  {
    exists n: nat :: maze.IsExit(Walk(maze, entrance, n).point)
  }

  ghost predicate Distinct<T>(s: seq<T>) {
    forall i, j :: 0 <= i < j < |s| ==> s[i] != s[j]
  }

  lemma {:induction false} DistinctInSet<T>(s: seq<T>, all: set<T>)
    requires Distinct(s) && forall k :: 0 <= k < |s| ==> s[k] in all
    ensures |s| <= |all|
    decreases |s|
  {
    if s != [] {
      var n := |s| - 1;
      forall k | 0 <= k < n ensures s[..n][k] in all - {s[n]} { assert s[k] != s[n]; }
      DistinctInSet(s[..n], all - {s[n]});
    }
  }

  ghost function StatesOf(cells: set<Point>): set<State> {
    set p, w | p in cells && w in WAYS :: State(p, w)
  }

  lemma SplitStates(cells: set<Point>, p: Point)
    requires p in cells
    ensures var here := {State(p, Up), State(p, Right), State(p, Bottom), State(p, Left)};
      StatesOf(cells) == StatesOf(cells - {p}) + here && StatesOf(cells - {p}) !! here
  {
    var here := {State(p, Up), State(p, Right), State(p, Bottom), State(p, Left)};
    forall s ensures s in StatesOf(cells) <==> s in StatesOf(cells - {p}) + here {
      if s.point in cells { assert s == State(s.point, s.way); }
    }
  }

  lemma {:induction false} FourStatesEach(cells: set<Point>)
    ensures |StatesOf(cells)| == 4 * |cells|
    decreases cells
  {
    if cells == {} {
      assert StatesOf(cells) == {};
    } else {
      var p :| p in cells;
      var here := {State(p, Up), State(p, Right), State(p, Bottom), State(p, Left)};
      var rest := StatesOf(cells - {p});
      FourStatesEach(cells - {p});
      SplitStates(cells, p);
      assert |rest + here| == |rest| + |here|;
    }
  }

  lemma StateIn(cells: set<Point>, s: State)
    requires s.point in cells
    ensures s in StatesOf(cells)
  {
    assert s.way in WAYS by { match s.way case Up => case Right => case Bottom => case Left => }
    assert s == State(s.point, s.way);
  }

  lemma FreeIsIn(maze: Maze, p: Point)
    requires maze.Valid() && maze.Interior(p) && maze.IsFree(p)
    ensures p in maze.FreeInterior()
  {
    assert p == Point(p.row, p.column);
  }

  /** The first `n` states of a walk, when they lie in a few cells, repeat unless `n` is
      small. */
  lemma WalkInCells(maze: Maze, entrance: Point, cells: set<Point>, n: nat)
    requires maze.Valid()
    requires forall k: nat :: k < n ==> Walk(maze, entrance, k).point in cells
    ensures n <= 4 * |cells| ||
      exists i: nat, j: nat :: i < j < n && Walk(maze, entrance, i) == Walk(maze, entrance, j)
  {
    hide Walk;
    var states := seq(n, k requires 0 <= k < n => Walk(maze, entrance, k));
    forall k | 0 <= k < n ensures states[k] in StatesOf(cells) { StateIn(cells, states[k]); }
    if Distinct(states) {
      DistinctInSet(states, StatesOf(cells));
      FourStatesEach(cells);
    } else {
      var i, j :| 0 <= i < j < n && states[i] == states[j];
      assert Walk(maze, entrance, i) == Walk(maze, entrance, j);
    }
  }

  lemma {:induction false} RepeatsForever(maze: Maze, s: State, i: nat, j: nat, k: nat)
    requires maze.Valid() && After(maze, s, i) == After(maze, s, j)
    ensures After(maze, s, i + k) == After(maze, s, j + k)
  {
    hide Step;
    if k > 0 { RepeatsForever(maze, s, i, j, k - 1); }
  }

  lemma {:induction false} LoopNeverEnds(maze: Maze, entrance: Point, i: nat, j: nat, n: nat)
    requires maze.Valid() && i < j && Walk(maze, entrance, i) == Walk(maze, entrance, j)
    requires maze.Interior(Walk(maze, entrance, j).point)
    ensures maze.Interior(Walk(maze, entrance, n).point)
    decreases n
  {
    hide Step;
    if n <= j {
      if !maze.Interior(Walk(maze, entrance, n).point) { EndedStays(maze, Start(entrance), n, j - n); }
    } else {
      RepeatsForever(maze, Start(entrance), i, j, n - j);
      LoopNeverEnds(maze, entrance, i, j, n - (j - i));
    }
  }

  /** How long a walk has to be watched. */
  ghost function Horizon(maze: Maze): nat
    requires maze.Valid()
  {
    4 * (|maze.FreeInterior()| + 1)
  }

  /** Whatever the maze, a walk ends within four steps for each free interior cell and
      the start, or never. */
  lemma EndsSoonOrNever(maze: Maze, entrance: Point)
    requires maze.Valid() && OnEdge(maze, entrance)
    ensures Ends(maze, entrance) <==> maze.IsExit(Walk(maze, entrance, Horizon(maze)).point)
  {
    hide Step, Maze.IsFree, Walk, Start, Behind, Maze.IsExit;
    var h := Horizon(maze);
    WalkStaysKnown(maze, entrance, h);
    if maze.Interior(Walk(maze, entrance, h).point) {
      WatchedInCells(maze, entrance, h);
      var cells := maze.FreeInterior() + {Start(entrance).point};
      assert |cells| <= |maze.FreeInterior()| + 1;
      WalkInCells(maze, entrance, cells, h + 1);
      var i: nat, j: nat :| i < j < h + 1 && Walk(maze, entrance, i) == Walk(maze, entrance, j);
      InteriorBefore(maze, entrance, j, h);
      forall n: nat ensures !maze.IsExit(Walk(maze, entrance, n).point) {
        LoopNeverEnds(maze, entrance, i, j, n);
      }
    }
  }

  lemma InteriorBefore(maze: Maze, entrance: Point, k: nat, n: nat)
    requires maze.Valid() && k <= n && maze.Interior(Walk(maze, entrance, n).point)
    ensures maze.Interior(Walk(maze, entrance, k).point)
  {
    hide Step;
    if !maze.Interior(Walk(maze, entrance, k).point) { EndedStays(maze, Start(entrance), k, n - k); }
  }

  lemma WatchedInCells(maze: Maze, entrance: Point, n: nat)
    requires maze.Valid() && OnEdge(maze, entrance) && maze.Interior(Walk(maze, entrance, n).point)
    ensures forall k: nat :: k < n + 1 ==>
      Walk(maze, entrance, k).point in maze.FreeInterior() + {Start(entrance).point}
  {
    hide Step, Maze.IsFree, Start, Walk, Behind;
    forall k: nat | k < n + 1
      ensures Walk(maze, entrance, k).point in maze.FreeInterior() + {Start(entrance).point}
    {
      InteriorBefore(maze, entrance, k, n);
      WalkStaysKnown(maze, entrance, k);
      var p := Walk(maze, entrance, k).point;
      assert p != entrance;
      if maze.IsFree(p) { FreeIsIn(maze, p); }
    }
  }

  // ----- Walks from an open entrance -----

  /** The entrance and the cell inside it are free. */
  predicate OpensInside(maze: Maze, entrance: Point)
    requires maze.Valid()
  {
    && OnEdge(maze, entrance) && maze.IsFree(entrance)
    && maze.Inside(Start(entrance).point) && maze.IsFree(Start(entrance).point)
  }

  /** Every cell of the walk is free, and there is always a free cell behind. */
  lemma {:induction false} WalkIsSafe(maze: Maze, entrance: Point, n: nat)
    requires maze.Valid() && OpensInside(maze, entrance)
    ensures var s := Walk(maze, entrance, n);
      maze.Inside(s.point) && maze.IsFree(s.point) && CameFromFree(maze, s)
  {
    hide Step;
    if n == 0 {
      assert Behind(Start(entrance)) == entrance;
    } else {
      WalkIsSafe(maze, entrance, n - 1);
      var t := Walk(maze, entrance, n - 1);
      if maze.Interior(t.point) { StepReachesFree(maze, t); }
    }
  }

  /** No state comes back: going back from two equal states leads to the first state,
      and the only way into that is from the entrance, which is not inside. */
  lemma {:induction false} WalkNeverRepeats(maze: Maze, entrance: Point, i: nat, j: nat)
    requires maze.Valid() && OpensInside(maze, entrance)
    requires i < j && maze.Interior(Walk(maze, entrance, j - 1).point)
    ensures Walk(maze, entrance, i) != Walk(maze, entrance, j)
    decreases i
  {
    hide Maze.IsFree, Step, CameFromFree, Behind, Start, OpensInside;
    var t := Walk(maze, entrance, j - 1);
    WalkIsSafe(maze, entrance, j - 1);
    StepReachesFree(maze, t);
    if i == 0 {
      BehindStart(maze, entrance);
    } else {
      InteriorBefore(maze, entrance, i - 1, j - 1);
      WalkIsSafe(maze, entrance, i - 1);
      InteriorBefore(maze, entrance, j - 2, j - 1);
      WalkNeverRepeats(maze, entrance, i - 1, j - 1);
      if Walk(maze, entrance, i) == Walk(maze, entrance, j) {
        StepInjective(maze, Walk(maze, entrance, i - 1), t);
      }
    }
  }

  lemma BehindStart(maze: Maze, entrance: Point)
    requires maze.Valid() && OpensInside(maze, entrance)
    ensures Behind(Start(entrance)) == entrance && maze.IsExit(entrance)
  {
  }

  /** From a free entrance with a free cell inside it the walk ends, after at most four
      steps for each free interior cell. */
  lemma OpenWalkEnds(maze: Maze, entrance: Point)
    requires maze.Valid() && OpensInside(maze, entrance)
    ensures maze.IsExit(Walk(maze, entrance, 4 * |maze.FreeInterior()|).point)
    ensures Ends(maze, entrance)
  {
    hide Step, Maze.IsFree, Walk, Start, Behind, CameFromFree, OpensInside;
    var cells := maze.FreeInterior();
    var h := 4 * |cells|;
    WalkIsSafe(maze, entrance, h);
    if maze.Interior(Walk(maze, entrance, h).point) {
      forall k: nat | k < h + 1 ensures Walk(maze, entrance, k).point in cells {
        InteriorBefore(maze, entrance, k, h);
        WalkIsSafe(maze, entrance, k);
        FreeIsIn(maze, Walk(maze, entrance, k).point);
      }
      WalkInCells(maze, entrance, cells, h + 1);
      var i: nat, j: nat :| i < j < h + 1 && Walk(maze, entrance, i) == Walk(maze, entrance, j);
      InteriorBefore(maze, entrance, j - 1, h);
      WalkNeverRepeats(maze, entrance, i, j);
    }
  }

  // ----- The program -----

  class Player {
    var point: Point
    var way: Way

    constructor (point: Point, way: Way)
      ensures this.point == point && this.way == way
    {
      this.point := point;
      this.way := way;
    }

    function View(): State
      reads this
    {
      State(point, way)
    }

    /** `turnAndMove` */
    method TurnAndMove(wayValue: nat)
      requires wayValue < 4
      modifies this
      ensures way == Turn(old(way), wayValue) && point == Move(old(point), way)
    {
      var number := (RawValue(way) + wayValue) % 4;
      way := WayOf(number);
      match way {
        case Up => point := point.(row := point.row - 1);
        case Left => point := point.(column := point.column - 1);
        case Right => point := point.(column := point.column + 1);
        case Bottom => point := point.(row := point.row + 1);
      }
    }
  }

  predicate FrontWayIsFree(maze: Maze, s: State)
    requires maze.Valid() && maze.Interior(s.point)
    ensures FrontWayIsFree(maze, s) <==> Sees(maze, s, 0)
  {
    var p := s.point;
    maze.IsFree(
      match s.way
      case Up => Point(p.row - 1, p.column)
      case Left => Point(p.row, p.column - 1)
      case Bottom => Point(p.row + 1, p.column)
      case Right => Point(p.row, p.column + 1))
  }

  predicate LeftWayIsFree(maze: Maze, s: State)
    requires maze.Valid() && maze.Interior(s.point)
    ensures LeftWayIsFree(maze, s) <==> Sees(maze, s, 3)
  {
    var p := s.point;
    maze.IsFree(
      match s.way
      case Up => Point(p.row, p.column - 1)
      case Left => Point(p.row + 1, p.column)
      case Bottom => Point(p.row, p.column + 1)
      case Right => Point(p.row - 1, p.column))
  }

  predicate RightWayIsFree(maze: Maze, s: State)
    requires maze.Valid() && maze.Interior(s.point)
    ensures RightWayIsFree(maze, s) <==> Sees(maze, s, 1)
  {
    var p := s.point;
    maze.IsFree(
      match s.way
      case Up => Point(p.row, p.column + 1)
      case Left => Point(p.row - 1, p.column)
      case Bottom => Point(p.row, p.column - 1)
      case Right => Point(p.row + 1, p.column))
  }

  /** `findEntrence`, with the random number as a parameter: the first free cell of the
      first or of the last row, or the corner when there is none. */
  method FindEntrance(maze: Maze, random: int) returns (p: Point)
    requires maze.Valid()
    ensures var row := if random > 50 then 0 else maze.rows - 1;
      if forall j :: 0 <= j < maze.columns ==> !maze.IsFree(Point(row, j)) then p == Point(0, 0)
      else && p.row == row && 0 <= p.column < maze.columns && maze.IsFree(p)
           && (forall j :: 0 <= j < p.column ==> !maze.IsFree(Point(row, j)))
  {
    if random > 50 {
      for j := 0 to maze.columns
        invariant forall i :: 0 <= i < j ==> !maze.IsFree(Point(0, i))
      {
        maze.InRange(Point(0, j));
        if maze.matrix[j] == 0 {
          assert maze.IsFree(Point(0, j));
          return Point(0, j);
        }
      }
    } else {
      var first := maze.TransformLocation(maze.rows - 1, 0);
      assert first + maze.columns == |maze.matrix| && first >= 0 by {
        assert (maze.rows - 1) * maze.columns + maze.columns == maze.rows * maze.columns;
      }
      var row := maze.rows - 1;
      for j := first to |maze.matrix|
        invariant forall i :: 0 <= i < j - first ==> !maze.IsFree(Point(row, i))
      {
        assert maze.TransformLocation(maze.rows - 1, j - first) == j;
        if maze.matrix[j] == 0 {
          assert maze.IsFree(Point(row, j - first));
          return Point(maze.rows - 1, j - (maze.rows - 1) * maze.columns);
        }
      }
    }
    return Point(0, 0);
  }

  /** The whole program ends when the cell inside the entrance it found is free; it
      also does when it found no entrance, since it then starts on the boundary. */
  lemma ProgramEnds(maze: Maze, entrance: Point)
    requires maze.Valid() && (entrance == Point(0, 0) || OpensInside(maze, entrance))
    ensures OnEdge(maze, entrance) && Ends(maze, entrance)
  {
    if entrance == Point(0, 0) {
      assert maze.IsExit(Walk(maze, entrance, 0).point);
    } else {
      OpenWalkEnds(maze, entrance);
    }
  }

  /** The walk has not reached the boundary before its step `n`. */
  ghost predicate InsideUntil(maze: Maze, entrance: Point, n: nat)
    requires maze.Valid()
  {
    forall k: nat :: k < n ==> maze.Interior(Walk(maze, entrance, k).point)
  }

  /** Along the walk, up to its step `n`, the right hand stays on the wall. */
  ghost predicate HandOnWallUntil(maze: Maze, entrance: Point, n: nat)
    requires maze.Valid()
  {
    forall k: nat :: k < n ==>
      maze.Interior(Walk(maze, entrance, k).point) &&
      KeepsHandOnWall(maze, Walk(maze, entrance, k), Walk(maze, entrance, k + 1))
  }

  lemma {:induction false} WalkKeepsHandOnWall(maze: Maze, entrance: Point, n: nat)
    requires maze.Valid() && InsideUntil(maze, entrance, n)
    ensures HandOnWallUntil(maze, entrance, n)
  {
    hide Maze.IsFree, Maze.IsExit, KeepsHandOnWall, Step;
    forall k: nat | k < n
      ensures KeepsHandOnWall(maze, Walk(maze, entrance, k), Walk(maze, entrance, k + 1))
    {
      StepKeepsHandOnWall(maze, Walk(maze, entrance, k));
    }
  }

  lemma WalkGoesOn(maze: Maze, entrance: Point, n: nat)
    requires maze.Valid() && OnEdge(maze, entrance) && !maze.IsExit(Walk(maze, entrance, n).point)
    requires maze.Inside(Walk(maze, entrance, n).point)
    ensures Walk(maze, entrance, n + 1) == Step(maze, Walk(maze, entrance, n))
    ensures maze.Inside(Walk(maze, entrance, n + 1).point)
    ensures Ends(maze, entrance) ==> n < Horizon(maze)
    ensures InsideUntil(maze, entrance, n) ==> InsideUntil(maze, entrance, n + 1)
  {
    hide Step, Maze.IsFree, Start, Ends, Horizon, Maze.IsExit;
    WalkStaysKnown(maze, entrance, n + 1);
    EndsSoonOrNever(maze, entrance);
    if Ends(maze, entrance) && n >= Horizon(maze) { InteriorBefore(maze, entrance, Horizon(maze), n); }
  }

  lemma OpenWalkIsShortAndFree(maze: Maze, entrance: Point, n: nat)
    requires maze.Valid() && OpensInside(maze, entrance) && InsideUntil(maze, entrance, n)
    ensures n <= 4 * |maze.FreeInterior()|
    ensures forall k: nat :: k <= n ==>
      maze.Inside(Walk(maze, entrance, k).point) && maze.IsFree(Walk(maze, entrance, k).point)
  {
    hide Maze.IsFree, Maze.IsExit, Maze.FreeInterior, Walk, OpensInside, CameFromFree, Ends;
    OpenWalkEnds(maze, entrance);
    forall k: nat | k <= n
      ensures maze.Inside(Walk(maze, entrance, k).point) && maze.IsFree(Walk(maze, entrance, k).point)
    {
      WalkIsSafe(maze, entrance, k);
    }
  }

  /** `findWayOut`, for every entrance from which the walk ends: it follows the walk to
      the first boundary cell. From an open entrance it crosses free cells only. */
  method FindWayOut(maze: Maze, entrance: Point) returns (exit: Point, steps: nat)
    requires maze.Valid() && OnEdge(maze, entrance) && Ends(maze, entrance)
    ensures maze.Inside(exit) && maze.IsExit(exit) && exit == Walk(maze, entrance, steps).point
    ensures InsideUntil(maze, entrance, steps) && steps <= Horizon(maze)
    ensures HandOnWallUntil(maze, entrance, steps)
    ensures OpensInside(maze, entrance) ==>
      && steps <= 4 * |maze.FreeInterior()|
      && forall k: nat :: k <= steps ==>
           maze.Inside(Walk(maze, entrance, k).point) && maze.IsFree(Walk(maze, entrance, k).point)
  {
    var player := new Player(Point(if entrance.row == 0 then 1 else entrance.row - 1, entrance.column),
                             if entrance.row == 0 then Bottom else Up);
    steps := 0;
    assert player.View() == Walk(maze, entrance, 0) && InsideUntil(maze, entrance, 0);
    hide Maze.IsFree, Turn, Move, Start, Horizon, Ends, Walk, InsideUntil, HandOnWallUntil, OpensInside, Maze.FreeInterior;
    while !maze.IsExit(player.point)
      invariant player.View() == Walk(maze, entrance, steps) && maze.Inside(player.point)
      invariant InsideUntil(maze, entrance, steps) && steps <= Horizon(maze)
      decreases Horizon(maze) - steps
    {
      WalkGoesOn(maze, entrance, steps);
      if RightWayIsFree(maze, player.View()) {
        player.TurnAndMove(RawValue(Right));
      } else if FrontWayIsFree(maze, player.View()) {
        player.TurnAndMove(RawValue(Up));
      } else if LeftWayIsFree(maze, player.View()) {
        player.TurnAndMove(RawValue(Left));
      } else {
        player.TurnAndMove(RawValue(Bottom));
      }
      steps := steps + 1;
    }
    exit := player.point;
    WalkKeepsHandOnWall(maze, entrance, steps);
    if OpensInside(maze, entrance) { OpenWalkIsShortAndFree(maze, entrance, steps); }
  }

  // ----- What the entrance search does not check -----

  /** A maze with a free entrance in front of a wall, and two free cells beside it. */
  const WALLED_IN: Maze := Maze(3, 5, [
    1, 1, 1, 0, 1,
    1, 0, 0, 1, 1,
    1, 1, 1, 1, 1])

  /** When the cell inside the entrance is a wall the walk may never end: here the
      player steps into the two free cells and goes back and forth between them. */
  lemma WalledInNeverEnds()
    ensures WALLED_IN.Valid() && OnEdge(WALLED_IN, Point(0, 3)) && WALLED_IN.IsFree(Point(0, 3))
    ensures !Ends(WALLED_IN, Point(0, 3))
  {
    hide Step;
    WalledInSteps();
    var s := Start(Point(0, 3));
    assert After(WALLED_IN, s, 0) == s;
    assert After(WALLED_IN, s, 1) == State(Point(1, 2), Left);
    assert After(WALLED_IN, s, 2) == State(Point(1, 1), Left);
    assert After(WALLED_IN, s, 3) == State(Point(1, 2), Right);
    assert After(WALLED_IN, s, 4) == State(Point(1, 1), Left);
    forall n: nat ensures !WALLED_IN.IsExit(Walk(WALLED_IN, Point(0, 3), n).point) {
      LoopNeverEnds(WALLED_IN, Point(0, 3), 2, 4, n);
    }
  }

  lemma WalledInSteps()
    ensures WALLED_IN.Valid() && WALLED_IN.IsFree(Point(0, 3))
    ensures Step(WALLED_IN, Start(Point(0, 3))) == State(Point(1, 2), Left)
    ensures Step(WALLED_IN, State(Point(1, 2), Left)) == State(Point(1, 1), Left)
    ensures Step(WALLED_IN, State(Point(1, 1), Left)) == State(Point(1, 2), Right)
    ensures Step(WALLED_IN, State(Point(1, 2), Right)) == State(Point(1, 1), Left)
  {
    WalledInCells();
    hide Maze.IsFree;
  }

  lemma WalledInCells()
    ensures WALLED_IN.Valid()
    ensures WALLED_IN.IsFree(Point(0, 3)) && WALLED_IN.IsFree(Point(1, 1)) && WALLED_IN.IsFree(Point(1, 2))
    ensures !WALLED_IN.IsFree(Point(0, 1)) && !WALLED_IN.IsFree(Point(0, 2)) && !WALLED_IN.IsFree(Point(1, 0))
    ensures !WALLED_IN.IsFree(Point(2, 1)) && !WALLED_IN.IsFree(Point(2, 2)) && !WALLED_IN.IsFree(Point(1, 3))
  {
    var m := WALLED_IN.matrix;
    assert |m| == 15;
    assert m[1] == 1 && m[2] == 1 && m[3] == 0;
    assert m[5] == 1 && m[6] == 0 && m[7] == 0 && m[8] == 1;
    assert m[11] == 1 && m[12] == 1;
    assert WALLED_IN.TransformLocation(1, 0) == 5 && WALLED_IN.TransformLocation(2, 0) == 10;
  }

  /** A corridor entered from above: the right hand leads to its left end, (1, 0). */
  const CORRIDOR: Maze := Maze(3, 5, [
    1, 1, 0, 1, 1,
    0, 0, 0, 0, 0,
    1, 1, 1, 1, 1])

  lemma CorridorExample()
    ensures CORRIDOR.Valid() && OpensInside(CORRIDOR, Point(0, 2)) && InsideUntil(CORRIDOR, Point(0, 2), 2)
    ensures Walk(CORRIDOR, Point(0, 2), 2) == State(Point(1, 0), Left) && CORRIDOR.IsExit(Point(1, 0))
  {
    CorridorCells();
    hide Maze.IsFree;
    var e := Point(0, 2);
    assert Walk(CORRIDOR, e, 0) == State(Point(1, 2), Bottom);
    assert Walk(CORRIDOR, e, 1) == State(Point(1, 1), Left);
    assert Walk(CORRIDOR, e, 2) == State(Point(1, 0), Left);
    forall k: nat | k < 2 ensures CORRIDOR.Interior(Walk(CORRIDOR, e, k).point) { assert k == 0 || k == 1; }
  }

  lemma CorridorCells()
    ensures CORRIDOR.Valid() && CORRIDOR.IsFree(Point(0, 2)) && !CORRIDOR.IsFree(Point(0, 1))
    ensures CORRIDOR.IsFree(Point(1, 0)) && CORRIDOR.IsFree(Point(1, 1)) && CORRIDOR.IsFree(Point(1, 2))
  {
    var m := CORRIDOR.matrix;
    assert |m| == 15;
    assert m[1] == 1 && m[2] == 0 && m[5] == 0 && m[6] == 0 && m[7] == 0;
    assert CORRIDOR.TransformLocation(1, 0) == 5;
  }
}
