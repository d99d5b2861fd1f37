/**
 The snake game (Snake.playground). The random generator is a sequence of draws; a
 game that runs out of acceptable draws is still searching for an apple cell.
 */
module SnakeGame {
  import opened Grid
  import opened Wrappers

  const ROWS: nat := 11
  const COLUMNS: nat := 19
  const SIZE: nat := 209

  predicate Inside(p: Point) { 0 <= p.row < ROWS && 0 <= p.column < COLUMNS }

  /** Inside the border wall of the field. */
  predicate Interior(p: Point) { 1 <= p.row < ROWS - 1 && 1 <= p.column < COLUMNS - 1 }

  predicate Wall(p: Point) { Inside(p) && !Interior(p) }

  function TransformLocation(p: Point): int { p.row * COLUMNS + p.column }

  lemma IndexInRange(p: Point)
    requires Inside(p)
    ensures 0 <= TransformLocation(p) < SIZE
  {
  }

  lemma IndexInjective(p: Point, q: Point)
    requires Inside(p) && Inside(q) && TransformLocation(p) == TransformLocation(q)
    ensures p == q
  {
  }

  /** The field the program starts with: a wall around free cells. */
  function EmptyField(): (m: seq<int>)
    ensures |m| == SIZE
  {
    seq(SIZE, k => if Interior(Point(k / COLUMNS, k % COLUMNS)) then 0 else 1)
  }

  datatype State = State(
    matrix: seq<int>, length: nat, point: Point, body: seq<Point>, way: Way, apple: Point, needGo: bool)

  function InitialState(apple: Point): State {
    State(EmptyField(), 2, Point(5, 5), [Point(5, 5), Point(5, 6)], Up, apple, true)
  }

  // ----- What a move does -----

  /** `randomApplePoint`: the first draw that is not a cell of the snake. */
  function FirstApple(location: seq<Point>, draws: seq<Point>): (r: Option<Point>)
    ensures r.Some? ==> r.value in draws && r.value !in location
    ensures r.None? ==> forall d :: d in draws ==> d in location
  {
    if draws == [] then None
    else if draws[0] !in location then Some(draws[0])
    else FirstApple(location, draws[1..])
  }

  /** It is the first acceptable one. */
  lemma {:induction false} FirstAppleIsFirst(location: seq<Point>, draws: seq<Point>) returns (k: nat)
    requires FirstApple(location, draws).Some?
    ensures k < |draws| && draws[k] == FirstApple(location, draws).value
    ensures forall j :: 0 <= j < k ==> draws[j] in location
  {
    if draws[0] !in location {
      k := 0;
    } else {
      var n := FirstAppleIsFirst(location, draws[1..]);
      k := n + 1;
      assert forall j :: 0 < j < k ==> draws[j] == draws[1..][j - 1];
    }
  }

  predicate Covers(cells: seq<Point>, k: int) {
    exists i :: 0 <= i < |cells| && TransformLocation(cells[i]) == k
  }

  /** The matrix after the cell `cleared` is freed and all `cells` are occupied. */
  function Redraw(matrix: seq<int>, cleared: Point, cells: seq<Point>): (m: seq<int>)
    ensures |m| == |matrix|
  {
    seq(|matrix|, k requires 0 <= k < |matrix| =>
      if Covers(cells, k) then 1 else if k == TransformLocation(cleared) then 0 else matrix[k])
  }

  /** The snake one cell further on, before it grows. */
  function Shifted(body: seq<Point>, head: Point): (b: seq<Point>)
    requires body != []
    ensures |b| == |body|
  {
    [head] + body[..|body| - 1]
  }

  /** `turnAndMove`: nothing when the turn of this tick is spent; `None` when no draw is
      a free cell for the new apple. */
  function MoveSnake(s: State, wayValue: nat, draws: seq<Point>): Option<State>
    requires s.body != []
  {
    if !s.needGo then Some(s)
    else
      var way := Turn(s.way, wayValue);
      var head := Move(s.point, way);
      var last := s.body[|s.body| - 1];
      var body := Shifted(s.body, head);
      var t := s.(needGo := false, way := way, point := head, body := body, matrix := Redraw(s.matrix, last, body));
      if head != s.apple then Some(t)
      else
        match FirstApple(body + [last], draws)
        case None => None
        case Some(apple) => Some(t.(body := body + [last], length := s.length + 1, apple := apple))
  }

  // ----- What a tick does -----

  /** `checkAppleWay`: how to turn so as to head in a direction. */
  function TurnTowards(way: Way, direction: Way): nat {
    match direction
    case Up => if way == Left then 1 else 3
    case Bottom => if way == Left then 3 else 1
    case Left => if way == Bottom then 1 else 3
    case Right => if way == Bottom then 3 else 1
  }

  /** The turn made when the snake has just come into line with the apple. */
  function AppleTurn(s: State): (t: Option<nat>)
    requires |s.body| >= 2
    ensures t.Some? ==> t.value < 4
  {
    if s.point.column == s.apple.column then
      if s.body[1].column == s.apple.column then None
      else if s.point.row > s.apple.row then Some(TurnTowards(s.way, Up))
      else if s.point.row < s.apple.row then Some(TurnTowards(s.way, Bottom))
      else Some(2)
    else if s.point.row == s.apple.row then
      if s.body[1].row == s.apple.row then None
      else if s.point.column > s.apple.column then Some(TurnTowards(s.way, Left))
      else if s.point.column < s.apple.column then Some(TurnTowards(s.way, Right))
      else Some(2)
    else None
  }

  /** The neighbouring cell after a turn is not occupied. */
  predicate WayIsFree(s: State, turn: nat)
    requires |s.matrix| == SIZE && Interior(s.point)
  {
    s.matrix[TransformLocation(Move(s.point, Turn(s.way, turn)))] == 0
  }

  /** Straight on, else right, else left. */
  function ClearTurn(s: State): (t: Option<nat>)
    requires |s.matrix| == SIZE && Interior(s.point)
    ensures t.Some? ==> t.value < 4
  {
    if WayIsFree(s, 0) then Some(0)
    else if WayIsFree(s, 1) then Some(1)
    else if WayIsFree(s, 3) then Some(3)
    else None
  }

  // ----- The invariant -----

  function Distance(p: Point, q: Point): nat {
    (if p.row < q.row then q.row - p.row else p.row - q.row) +
    (if p.column < q.column then q.column - p.column else p.column - q.column)
  }

  /** Exactly the walls and the given cells are occupied. */
  ghost predicate Occupied(matrix: seq<int>, cells: seq<Point>) {
    && |matrix| == SIZE
    && (forall p :: Inside(p) ==> IsOccupied(matrix, cells, p))
  }

  ghost predicate IsOccupied(matrix: seq<int>, cells: seq<Point>, p: Point)
    requires |matrix| == SIZE && Inside(p)
  {
    IndexInRange(p);
    && matrix[TransformLocation(p)] in {0, 1}
    && (matrix[TransformLocation(p)] == 1 <==> Wall(p) || p in cells)
  }

  /** The shape of the snake and the place of the apple. */
  ghost predicate Shape(s: State) {
    && |s.body| >= 2 && s.length == |s.body| && s.body[0] == s.point
    && (forall i :: 0 <= i < |s.body| ==> Interior(s.body[i]))
    && (forall i :: 0 < i < |s.body| ==> Distance(s.body[i - 1], s.body[i]) == 1)
    && Interior(s.apple) && s.apple !in s.body
  }

  /** The head lies ahead of the second cell, as after every move. */
  predicate HeadAhead(s: State)
    requires |s.body| >= 2
  {
    s.point == Move(s.body[1], s.way)
  }

  /** Before the first move the field shows only the walls; afterwards the walls and
      the snake, except that the last cell is not shown right after eating. */
  ghost predicate Drawn(s: State)
    requires |s.body| >= 2
  {
    || s.(needGo := true) == InitialState(s.apple)
    || (HeadAhead(s) && Occupied(s.matrix, s.body))
    || (HeadAhead(s) && Occupied(s.matrix, s.body[..|s.body| - 1]))
  }

  ghost predicate Inv(s: State) {
    Shape(s) && Drawn(s)
  }

  // ----- Every move keeps the invariant -----

  lemma EmptyFieldShowsWalls()
    ensures Occupied(EmptyField(), [])
  {
    forall p | Inside(p) ensures IsOccupied(EmptyField(), [], p) {
      IndexInRange(p);
      var k := TransformLocation(p);
      assert k / COLUMNS == p.row && k % COLUMNS == p.column;
    }
  }

  /** All array accesses of the program are in range. */
  lemma InvInRange(s: State)
    requires Inv(s)
    ensures |s.matrix| == SIZE && |s.body| >= 2 && Interior(s.point)
    ensures forall i :: 0 <= i < |s.body| ==> Inside(s.body[i])
    ensures forall turn: nat :: Inside(Move(s.point, Turn(s.way, turn)))
  {
    assert s.body[0] in s.body;
  }

  lemma InitialInv(apple: Point)
    requires Interior(apple) && apple !in InitialState(apple).body
    ensures Inv(InitialState(apple))
  {
  }

  /** Redrawing replaces the shown cells `before` by `cells`, walls untouched. */
  lemma RedrawShows(matrix: seq<int>, before: seq<Point>, last: Point, cells: seq<Point>)
    requires Occupied(matrix, before) && Interior(last)
    requires forall i :: 0 <= i < |cells| ==> Interior(cells[i])
    requires forall p :: p in before ==> p == last || p in cells
    ensures Occupied(Redraw(matrix, last, cells), cells)
  {
    var m := Redraw(matrix, last, cells);
    forall p | Inside(p) ensures IsOccupied(m, cells, p) {
      IndexInRange(p);
      var k := TransformLocation(p);
      assert IsOccupied(matrix, before, p);
      if p in cells {
        var i :| 0 <= i < |cells| && cells[i] == p;
        assert Covers(cells, k);
      } else if Covers(cells, k) {
        var i :| 0 <= i < |cells| && TransformLocation(cells[i]) == k;
        IndexInjective(cells[i], p);
        assert false;
      } else if k == TransformLocation(last) {
        IndexInjective(last, p);
      }
    }
  }

  lemma ShiftedShape(body: seq<Point>, head: Point, last: Point)
    requires |body| >= 2 && last == body[|body| - 1] && Interior(head) && Distance(head, body[0]) == 1
    requires forall i :: 0 <= i < |body| ==> Interior(body[i])
    requires forall i :: 0 < i < |body| ==> Distance(body[i - 1], body[i]) == 1
    ensures var b := Shifted(body, head) + [last];
      && (forall i :: 0 <= i < |b| ==> Interior(b[i]))
      && (forall i :: 0 < i < |b| ==> Distance(b[i - 1], b[i]) == 1)
      && (forall p :: p in body ==> p == last || p in Shifted(body, head))
      && (forall p :: p in Shifted(body, head) ==> p == head || p in body)
  {
    var b := Shifted(body, head) + [last];
    assert b == [head] + body;
    hide Distance;
    forall i | 0 < i < |b| ensures Distance(b[i - 1], b[i]) == 1 {
      if i > 1 { assert b[i] == body[i - 1] && b[i - 1] == body[i - 2]; }
    }
    forall p | p in body && p != last ensures p in Shifted(body, head) {
      var i :| 0 <= i < |body| && body[i] == p;
      assert Shifted(body, head)[i + 1] == p;
    }
  }

  /** What the field shows before a move is covered by the snake. */
  lemma ShownCells(s: State) returns (shown: seq<Point>)
    requires Inv(s)
    ensures Occupied(s.matrix, shown) && forall p :: p in shown ==> p in s.body
  {
    if s.(needGo := true) == InitialState(s.apple) {
      EmptyFieldShowsWalls();
      shown := [];
    } else if Occupied(s.matrix, s.body) {
      shown := s.body;
    } else {
      shown := s.body[..|s.body| - 1];
    }
  }

  lemma MoveIsOneStep(p: Point, w: Way)
    ensures Distance(p, Move(p, w)) == 1 && Distance(Move(p, w), p) == 1
  {
  }

  /** A move to an interior cell keeps the invariant; afterwards the field shows exactly
      the walls and the snake, without the cell it has just grown by. It grows by one
      cell exactly when it reaches the apple, and the next apple is not under it. */
  lemma MoveKeepsInv(s: State, wayValue: nat, draws: seq<Point>)
    requires Inv(s) && s.needGo && wayValue < 4
    requires Interior(Move(s.point, Turn(s.way, wayValue)))
    requires forall d :: d in draws ==> Interior(d)
    requires MoveSnake(s, wayValue, draws).Some?
    ensures var t, ate := MoveSnake(s, wayValue, draws).value, Move(s.point, Turn(s.way, wayValue)) == s.apple;
      && Inv(t) && HeadAhead(t) && !t.needGo
      && Occupied(t.matrix, if ate then t.body[..|t.body| - 1] else t.body)
      && t.length == s.length + (if ate then 1 else 0)
      && Distance(s.point, t.point) == 1
  {
    var way := Turn(s.way, wayValue);
    var head := Move(s.point, way);
    var last := s.body[|s.body| - 1];
    var body := Shifted(s.body, head);
    var t := MoveSnake(s, wayValue, draws).value;
    MoveIsOneStep(s.point, way);
    hide Move, Turn;
    ShiftedShape(s.body, head, last);
    var shown := ShownCells(s);
    assert forall i :: 0 <= i < |body| ==> Interior(body[i]) by {
      assert forall i :: 0 <= i < |body| ==> body[i] == (body + [last])[i];
    }
    RedrawShows(s.matrix, shown, last, body);
    hide Occupied, Redraw, Distance, Interior;
    assert body[1] == s.body[0];
    if head == s.apple {
      assert t.body == body + [last];
      assert t.body[..|t.body| - 1] == body;
    } else {
      assert t.body == body;
      assert forall i :: 0 < i < |body| ==> Distance(body[i - 1], body[i]) == 1 by {
        forall i | 0 < i < |body| ensures Distance(body[i - 1], body[i]) == 1 {
          assert body[i] == (body + [last])[i] && body[i - 1] == (body + [last])[i - 1];
        }
      }
    }
  }

  // ----- The turns the program makes -----

  /** Once the snake has moved, a turn towards the apple brings the head one cell
      closer to it; before that it at least stays off the wall. */
  lemma AppleTurnApproaches(s: State)
    requires Inv(s) && AppleTurn(s).Some?
    ensures Interior(Move(s.point, Turn(s.way, AppleTurn(s).value)))
    ensures HeadAhead(s) ==>
      Distance(Move(s.point, Turn(s.way, AppleTurn(s).value)), s.apple) == Distance(s.point, s.apple) - 1
  {
    hide Occupied;
    assert s.point in s.body;
    assert Distance(s.body[0], s.body[1]) == 1;
  }

  /** A neighbouring cell that is shown free is off the wall. */
  lemma FreeWayIsInterior(s: State, turn: nat)
    requires Inv(s) && WayIsFree(s, turn)
    ensures Interior(Move(s.point, Turn(s.way, turn)))
  {
    var shown := ShownCells(s);
    var p := Move(s.point, Turn(s.way, turn));
    assert IsOccupied(s.matrix, shown, p);
  }

  /** A turn towards the apple is made exactly when the last step has brought the head
      into line with it. */
  lemma AppleTurnExactly(s: State)
    requires Inv(s)
    ensures AppleTurn(s).Some? <==>
      || (s.point.column == s.apple.column != s.body[1].column)
      || (s.point.row == s.apple.row != s.body[1].row)
  {
    hide Drawn;
    assert s.body[0] in s.body;
  }

  predicate Vertical(w: Way) { w == Up || w == Bottom }

  /** Such a turn heads straight for the apple from across. Along the line it can only be
      asked for before the first move, and then leads aside. */
  lemma TurnTowardsExactly(way: Way, direction: Way)
    ensures Vertical(way) != Vertical(direction) ==> Turn(way, TurnTowards(way, direction)) == direction
    ensures Vertical(way) && Vertical(direction) ==>
      Turn(way, TurnTowards(way, direction)) == if (way == Up) == (direction == Up) then Left else Right
    ensures !Vertical(way) && !Vertical(direction) ==>
      Turn(way, TurnTowards(way, direction)) == if (way == Left) == (direction == Left) then Bottom else Up
  {
  }

  /** A neighbouring cell off the wall and off the snake is shown free, one on the wall
      is not. */
  lemma ShownFree(s: State, turn: nat)
    requires Inv(s)
    ensures var p := Move(s.point, Turn(s.way, turn));
      |s.matrix| == SIZE && Interior(s.point)
      && (Interior(p) && p !in s.body ==> WayIsFree(s, turn))
      && (Wall(p) ==> !WayIsFree(s, turn))
  {
    InvInRange(s);
    var shown := ShownCells(s);
    var p := Move(s.point, Turn(s.way, turn));
    assert IsOccupied(s.matrix, shown, p);
  }

  // ----- A tick -----

  /** One turn of the game loop: whether the game ended, and the state after it. */
  function Tick(s: State, draws: seq<Point>): (r: Option<(State, bool)>)
    requires Inv(s) && forall d :: d in draws ==> Interior(d)
  {
    var s1 := s.(needGo := true);
    var moved := if AppleTurn(s1).Some? then MoveSnake(s1, AppleTurn(s1).value, draws) else Some(s1);
    match moved
    case None => None
    case Some(s2) =>
      AppleTurnKeepsInv(s, draws);
      match ClearTurn(s2)
      case None => Some((s2, true))
      case Some(turn) =>
        match MoveSnake(s2, turn, draws)
        case None => None
        case Some(s3) => Some((s3, false))
  }

  lemma AppleTurnKeepsInv(s: State, draws: seq<Point>)
    requires Inv(s) && forall d :: d in draws ==> Interior(d)
    ensures var s1 := s.(needGo := true);
      && Inv(s1)
      && (AppleTurn(s1).Some? && MoveSnake(s1, AppleTurn(s1).value, draws).Some? ==>
          Inv(MoveSnake(s1, AppleTurn(s1).value, draws).value))
  {
    var s1 := s.(needGo := true);
    assert Shape(s1) && Drawn(s1);
    if AppleTurn(s1).Some? && MoveSnake(s1, AppleTurn(s1).value, draws).Some? {
      AppleTurnApproaches(s1);
      MoveKeepsInv(s1, AppleTurn(s1).value, draws);
    }
  }

  /** Every tick keeps the invariant, moves the head at most one cell, and makes the
      snake longer by one exactly when the head reaches the apple. When nothing is
      free ahead, the game ends. */
  lemma TickKeepsInv(s: State, draws: seq<Point>)
    requires Inv(s) && (forall d :: d in draws ==> Interior(d)) && Tick(s, draws).Some?
    ensures var (t, ended) := Tick(s, draws).value;
      && Inv(t)
      && Distance(s.point, t.point) <= 1
      && (t.point == s.point ==> ended)
      && t.length == s.length + (if t.point == s.apple then 1 else 0)
      && (!ended ==> HeadAhead(t) && Occupied(t.matrix, if t.point == s.apple then t.body[..|t.body| - 1] else t.body))
  {
    var s1 := s.(needGo := true);
    AppleTurnKeepsInv(s, draws);
    assert s.point in s.body;
    hide Occupied, Redraw, Shape, Drawn;
    if AppleTurn(s1).Some? {
      AppleTurnApproaches(s1);
      MoveKeepsInv(s1, AppleTurn(s1).value, draws);
    } else {
      match ClearTurn(s1)
      case None =>
      case Some(turn) =>
        FreeWayIsInterior(s1, turn);
        MoveKeepsInv(s1, turn, draws);
    }
  }

  /** Away from the line of the apple the snake goes straight on while it can, turns
      right when only the way ahead is occupied, left when right is as well, and the
      game ends exactly when all three are. */
  lemma TickTurns(s: State, draws: seq<Point>)
    requires Inv(s) && (forall d :: d in draws ==> Interior(d)) && Tick(s, draws).Some? && AppleTurn(s).None?
    ensures |s.matrix| == SIZE && Interior(s.point)
    ensures var (t, ended) := Tick(s, draws).value;
      && (ended <==> !WayIsFree(s, 0) && !WayIsFree(s, 1) && !WayIsFree(s, 3))
      && (t.way == s.way <==> ended || WayIsFree(s, 0))
      && (t.way == Clockwise(s.way) <==> !WayIsFree(s, 0) && WayIsFree(s, 1))
      && (Clockwise(t.way) == s.way <==> !WayIsFree(s, 0) && !WayIsFree(s, 1) && WayIsFree(s, 3))
  {
    hide WayIsFree, Redraw, Shape, Drawn, FirstApple, Move, Shifted;
    var s1 := s.(needGo := true);
    AppleTurnKeepsInv(s, draws);
    InvInRange(s);
    assert forall turn: nat :: WayIsFree(s1, turn) == WayIsFree(s, turn) by { SameView(s, s1); }
    assert Turn(s.way, 0) == s.way && Turn(s.way, 1) == Clockwise(s.way) && Clockwise(Turn(s.way, 3)) == s.way by {
      match s.way case Up => case Right => case Bottom => case Left =>
    }
    assert s.way != Clockwise(s.way) && Clockwise(Clockwise(s.way)) != s.way && Turn(s.way, 3) != Clockwise(s.way);
  }

  /** A tick with a turn towards the apple makes no second move, and ends the game exactly
      when nothing is free around the cell it has turned to. */
  lemma AppleTickMovesOnce(s: State, draws: seq<Point>)
    requires Inv(s) && (forall d :: d in draws ==> Interior(d)) && Tick(s, draws).Some? && AppleTurn(s).Some?
    ensures var (t, ended) := Tick(s, draws).value;
      && MoveSnake(s.(needGo := true), AppleTurn(s).value, draws) == Some(t)
      && t.way == Turn(s.way, AppleTurn(s).value) && t.point == Move(s.point, t.way)
      && |t.matrix| == SIZE && Interior(t.point)
      && (ended <==> !WayIsFree(t, 0) && !WayIsFree(t, 1) && !WayIsFree(t, 3))
  {
    hide WayIsFree, Redraw, Shape, Drawn, FirstApple, Move, Turn, Shifted;
    AppleTurnKeepsInv(s, draws);
    InvInRange(s);
    InvInRange(Tick(s, draws).value.0);
    assert AppleTurn(s.(needGo := true)) == AppleTurn(s);
  }

  lemma SameView(s: State, t: State)
    requires |s.matrix| == SIZE && Interior(s.point) && t == s.(needGo := t.needGo)
    ensures forall turn: nat :: WayIsFree(t, turn) == WayIsFree(s, turn)
  {
  }

  // ----- When the snake crosses itself -----

  /** A cell that is shown free is not one the snake stays on. */
  lemma FreeWayIsClear(s: State, turn: nat)
    requires Inv(s) && WayIsFree(s, turn)
    ensures Move(s.point, Turn(s.way, turn)) !in s.body[..|s.body| - 1]
  {
    var p := Move(s.point, Turn(s.way, turn));
    MoveIsOneStep(s.point, Turn(s.way, turn));
    FreeWayIsInterior(s, turn);
    hide Move, Turn, Distance;
    if s.(needGo := true) == InitialState(s.apple) {
      assert s.body[..1] == [s.point];
    } else if Occupied(s.matrix, s.body) {
      assert IsOccupied(s.matrix, s.body, p);
    } else {
      assert IsOccupied(s.matrix, s.body[..|s.body| - 1], p);
    }
  }

  /** After a move the head is on another of the snake's cells exactly when it entered
      a cell the snake stays on. */
  lemma MoveCrosses(s: State, wayValue: nat, draws: seq<Point>)
    requires Inv(s) && s.needGo && MoveSnake(s, wayValue, draws).Some?
    ensures var t := MoveSnake(s, wayValue, draws).value;
      t.point in t.body[1..] <==> Move(s.point, Turn(s.way, wayValue)) in s.body[..|s.body| - 1]
  {
    hide Redraw, Drawn, Move, Turn, FirstApple;
    var t := MoveSnake(s, wayValue, draws).value;
    var stays, last := s.body[..|s.body| - 1], s.body[|s.body| - 1];
    assert t.body[1..] == if t.point == s.apple then stays + [last] else stays;
  }

  /** The snake crosses itself exactly when the turn towards the apple, which the
      program makes unchecked, leads into a cell the snake stays on. */
  lemma CrossesExactly(s: State, draws: seq<Point>)
    requires Inv(s) && (forall d :: d in draws ==> Interior(d)) && Tick(s, draws).Some?
    requires Tick(s, draws).value.0.point != s.point
    ensures var t := Tick(s, draws).value.0;
      t.point in t.body[1..] <==>
      AppleTurn(s).Some? && Move(s.point, Turn(s.way, AppleTurn(s).value)) in s.body[..|s.body| - 1]
  {
    var s1 := s.(needGo := true);
    AppleTurnKeepsInv(s, draws);
    assert AppleTurn(s1) == AppleTurn(s);
    hide Redraw, Shape, Drawn, Move, Turn, Distance, WayIsFree, FirstApple;
    if AppleTurn(s1).Some? {
      MoveCrosses(s1, AppleTurn(s1).value, draws);
    } else {
      var turn := ClearTurn(s1).value;
      FreeWayIsClear(s1, turn);
      MoveCrosses(s1, turn, draws);
    }
  }

  // ----- Whole games -----

  datatype Game =
    | Playing(s: State)
    | Over(s: State)
    | Searching              // for a cell for the next apple

  predicate InteriorDraws(draws: seq<seq<Point>>) {
    forall k :: 0 <= k < |draws| ==> forall d :: d in draws[k] ==> Interior(d)
  }

  predicate CanStart(apple: Point) {
    Interior(apple) && apple !in InitialState(apple).body
  }

  /** The game after one tick for each list of draws. */
  function Play(apple: Point, draws: seq<seq<Point>>): (g: Game)
    requires CanStart(apple) && InteriorDraws(draws)
    ensures !g.Searching? ==> Inv(g.s)
    decreases |draws|
  {
    var n := |draws|;
    if n == 0 then
      InitialInv(apple);
      Playing(InitialState(apple))
    else
      match Play(apple, draws[..n - 1])
      case Playing(s) => (
        match Tick(s, draws[n - 1])
        case None => Searching
        case Some((t, ended)) =>
          TickKeepsInv(s, draws[n - 1]);
          if ended then Over(t) else Playing(t))
      case g => g
  }

  /** How many ticks ended with the head on the apple. */
  function Eaten(apple: Point, draws: seq<seq<Point>>): nat
    requires CanStart(apple) && InteriorDraws(draws)
    decreases |draws|
  {
    var n := |draws|;
    if n == 0 then 0
    else
      Eaten(apple, draws[..n - 1]) +
      match Play(apple, draws[..n - 1])
      case Playing(s) => (
        match Tick(s, draws[n - 1])
        case None => 0
        case Some((t, _)) => if t.point == s.apple then 1 else 0)
      case _ => 0
  }

  /** In every game: the snake is two cells long plus one for each apple eaten, its
      cells adjoin and are off the wall, and the apple is not under it. After a tick
      that did not end the game the field shows exactly the walls and the snake,
      without the cell it grew by in that very tick. */
  lemma {:induction false} GameInvariant(apple: Point, draws: seq<seq<Point>>)
    requires CanStart(apple) && InteriorDraws(draws) && !Play(apple, draws).Searching?
    ensures var s := Play(apple, draws).s;
      && Inv(s)
      && |s.body| == s.length == 2 + Eaten(apple, draws)
    ensures draws != [] && Play(apple, draws).Playing? ==>
      var s := Play(apple, draws).s;
      var grew := Eaten(apple, draws) > Eaten(apple, draws[..|draws| - 1]);
      HeadAhead(s) && Occupied(s.matrix, if grew then s.body[..|s.body| - 1] else s.body)
    decreases |draws|
  {
    hide Tick, Occupied, HeadAhead, Distance, Drawn;
    var n := |draws|;
    if n > 0 {
      GameInvariant(apple, draws[..n - 1]);
      if Play(apple, draws[..n - 1]).Playing? { TickKeepsInv(Play(apple, draws[..n - 1]).s, draws[n - 1]); }
    }
  }

  // ----- A game in which the snake crosses itself -----

  const CROSSING_DRAWS: seq<seq<Point>> := [[], [Point(3, 4)], [Point(3, 5)], [Point(6, 5)], []]

  /** A tick with a turn towards the apple, after which the cell ahead is free. */
  lemma TickByAppleTurn(s: State, draws: seq<Point>) returns (t: State)
    requires Inv(s) && (forall d :: d in draws ==> Interior(d))
    requires AppleTurn(s).Some? && MoveSnake(s.(needGo := true), AppleTurn(s).value, draws).Some?
    requires var t := MoveSnake(s.(needGo := true), AppleTurn(s).value, draws).value;
      var ahead := Move(t.point, t.way);
      Interior(ahead) && ahead !in t.body
    ensures MoveSnake(s.(needGo := true), AppleTurn(s).value, draws) == Some(t)
    ensures Tick(s, draws) == Some((t, false)) && Inv(t)
  {
    var s1 := s.(needGo := true);
    t := MoveSnake(s1, AppleTurn(s).value, draws).value;
    AppleTurnKeepsInv(s, draws);
    AppleTurnApproaches(s1);
    MoveKeepsInv(s1, AppleTurn(s).value, draws);
    hide Redraw, Shape, Drawn, Distance, FirstApple, Move;
    var ahead := Move(t.point, t.way);
    if Occupied(t.matrix, t.body) {
      assert IsOccupied(t.matrix, t.body, ahead);
    } else {
      assert IsOccupied(t.matrix, t.body[..|t.body| - 1], ahead);
    }
    assert WayIsFree(t, 0);
  }

  lemma PlayOneMore(apple: Point, draws: seq<seq<Point>>, d: seq<Point>, s: State, t: State)
    requires CanStart(apple) && InteriorDraws(draws) && (forall p :: p in d ==> Interior(p))
    requires Play(apple, draws) == Playing(s) && Tick(s, d) == Some((t, false))
    ensures InteriorDraws(draws + [d]) && Play(apple, draws + [d]) == Playing(t)
  {
    hide Tick, Inv;
    assert (draws + [d])[..|draws|] == draws;
  }

  /** The first tick of the game goes straight up. */
  lemma FirstTick() returns (t: State)
    ensures CanStart(Point(4, 4)) && Inv(InitialState(Point(4, 4)))
    ensures Tick(InitialState(Point(4, 4)), []) == Some((t, false)) && Inv(t)
    ensures t.point == Point(4, 5) && t.body == [Point(4, 5), Point(5, 5)] && t.way == Up && t.apple == Point(4, 4)
  {
    hide Redraw, Occupied, Drawn;
    var s := InitialState(Point(4, 4));
    InitialInv(Point(4, 4));
    assert WayIsFree(s, 0) by {
      var k := TransformLocation(Point(4, 5));
      assert k / COLUMNS == 4 && k % COLUMNS == 5;
    }
    TickKeepsInv(s, []);
    t := MoveSnake(s, 0, []).value;
  }

  /** Where a move leaves the snake and the apple. */
  lemma MovedTo(s: State, wayValue: nat, d: seq<Point>) returns (t: State)
    requires s.body != [] && s.needGo
    requires var head := Move(s.point, Turn(s.way, wayValue)); head == s.apple ==> |d| == 1 && d[0] !in [head] + s.body
    ensures MoveSnake(s, wayValue, d) == Some(t)
    ensures t.way == Turn(s.way, wayValue) && t.point == Move(s.point, t.way)
    ensures t.point == s.apple ==> t.body == [t.point] + s.body && t.apple == d[0]
    ensures t.point != s.apple ==> t.body == Shifted(s.body, t.point) && t.apple == s.apple
  {
    hide Redraw, Move, Turn;
    var head, last := Move(s.point, Turn(s.way, wayValue)), s.body[|s.body| - 1];
    assert Shifted(s.body, head) + [last] == [head] + s.body;
    t := MoveSnake(s, wayValue, d).value;
  }

  /** One more tick of a game, with a turn towards the apple. */
  lemma TurnTowardsApple(apple: Point, draws: seq<seq<Point>>, s: State, d: seq<Point>, way: Way) returns (t: State)
    requires CanStart(apple) && InteriorDraws(draws) && Play(apple, draws) == Playing(s)
    requires Inv(s) && (forall p :: p in d ==> Interior(p)) && AppleTurn(s).Some?
    requires way == Turn(s.way, AppleTurn(s).value)
    requires var head := Move(s.point, way);
      && (head == s.apple ==> |d| == 1 && d[0] !in [head] + s.body)
      && Interior(Move(head, way))
      && Move(head, way) !in (if head == s.apple then [head] + s.body else Shifted(s.body, head))
    ensures InteriorDraws(draws + [d]) && Play(apple, draws + [d]) == Playing(t) && Inv(t)
    ensures t.way == way && t.point == Move(s.point, way)
    ensures t.point == s.apple ==> t.body == [t.point] + s.body && t.apple == d[0]
    ensures t.point != s.apple ==> t.body == Shifted(s.body, t.point) && t.apple == s.apple
  {
    hide Drawn, Distance, AppleTurn, Move, Turn, Interior, Play, MoveSnake, Shifted;
    var moved := MovedTo(s.(needGo := true), AppleTurn(s).value, d);
    t := TickByAppleTurn(s, d);
    PlayOneMore(apple, draws, d, s, t);
  }

  /** Three ticks in, the snake has eaten twice. */
  lemma ThreeTicks() returns (s: State)
    ensures CanStart(Point(4, 4)) && InteriorDraws(CROSSING_DRAWS[..3])
    ensures Play(Point(4, 4), CROSSING_DRAWS[..3]) == Playing(s) && Inv(s)
    ensures s.point == Point(3, 4) && s.way == Up && s.apple == Point(3, 5)
    ensures s.body == [Point(3, 4), Point(4, 4), Point(4, 5), Point(5, 5)]
  {
    hide Tick, Inv, Drawn;
    var apple, d := Point(4, 4), CROSSING_DRAWS;
    var s0 := InitialState(apple);
    var s1 := FirstTick();
    PlayOneMore(apple, [], d[0], s0, s1);
    var s2 := TurnTowardsApple(apple, [] + [d[0]], s1, d[1], Left);
    s := TurnTowardsApple(apple, [] + [d[0]] + [d[1]], s2, d[2], Up);
    assert [] + [d[0]] + [d[1]] + [d[2]] == d[..3];
  }

  /** Five ticks in, the head of a five-cell snake is on its own last cell. */
  lemma CrossingIsReached()
    ensures CanStart(Point(4, 4)) && InteriorDraws(CROSSING_DRAWS)
    ensures Play(Point(4, 4), CROSSING_DRAWS).Playing?
    ensures var s := Play(Point(4, 4), CROSSING_DRAWS).s;
      s.body == [Point(4, 5), Point(3, 5), Point(3, 4), Point(4, 4), Point(4, 5)] && s.point in s.body[1..]
  {
    hide Tick, Inv, Play;
    var apple, d := Point(4, 4), CROSSING_DRAWS;
    var s3 := ThreeTicks();
    var s4 := TurnTowardsApple(apple, d[..3], s3, d[3], Right);
    assert s4.body == [Point(3, 5), Point(3, 4), Point(4, 4), Point(4, 5), Point(5, 5)];
    var s5 := TurnTowardsApple(apple, d[..3] + [d[3]], s4, d[4], Bottom);
    assert d[..3] + [d[3]] + [d[4]] == d;
    assert s5.body[4] == s5.point && s5.body[1..][3] == s5.point;
  }

  // ----- A game that reaches the wall -----

  /** One more tick of a game, by a clear way. */
  lemma ClearTick(apple: Point, draws: seq<seq<Point>>, s: State, turn: nat) returns (t: State)
    requires CanStart(apple) && InteriorDraws(draws) && Play(apple, draws) == Playing(s)
    requires Inv(s) && AppleTurn(s).None? && turn < 4
    requires var p := Move(s.point, Turn(s.way, turn)); Interior(p) && p !in s.body && p != s.apple
    requires turn == 0 || (turn == 1 && Wall(Move(s.point, Turn(s.way, 0))))
    ensures InteriorDraws(draws + [[]]) && Play(apple, draws + [[]]) == Playing(t) && Inv(t)
    ensures t.way == Turn(s.way, turn) && t.point == Move(s.point, t.way)
    ensures t.body == Shifted(s.body, t.point) && t.apple == s.apple
  {
    var s1 := s.(needGo := true);
    AppleTurnKeepsInv(s, []);
    ShownFree(s1, turn);
    ShownFree(s1, 0);
    assert AppleTurn(s1) == AppleTurn(s);
    hide WayIsFree, Drawn, Shape, AppleTurn, Move, Turn, Interior, Play, MoveSnake, Shifted, Wall, Redraw;
    t := MovedTo(s1, turn, []);
    MoveKeepsInv(s1, turn, []);
    assert ClearTurn(s1) == Some(turn);
    PlayOneMore(apple, draws, [], s, t);
  }

  lemma TowardsTheWall() returns (t: State)
    ensures CanStart(Point(8, 9)) && InteriorDraws([[], [], [], []])
    ensures Play(Point(8, 9), [[], [], [], []]) == Playing(t) && Inv(t)
    ensures t.point == Point(1, 5) && t.body == [Point(1, 5), Point(2, 5)] && t.way == Up && t.apple == Point(8, 9)
  {
    hide Tick, Drawn, Shape;
    var apple := Point(8, 9);
    InitialInv(apple);
    var s0 := InitialState(apple);
    var none: seq<seq<Point>> := [];
    assert Play(apple, none) == Playing(s0);
    hide Play, Inv;
    var s1 := ClearTick(apple, none, s0, 0);
    var s2 := ClearTick(apple, none + [[]], s1, 0);
    var s3 := ClearTick(apple, none + [[]] + [[]], s2, 0);
    t := ClearTick(apple, none + [[]] + [[]] + [[]], s3, 0);
    assert none + [[]] + [[]] + [[]] + [[]] == [[], [], [], []];
  }

  /** With the wall ahead and both sides free, the snake turns right. */
  lemma RightAtTheWall()
    ensures CanStart(Point(8, 9)) && InteriorDraws([[], [], [], [], []])
    ensures var g := Play(Point(8, 9), [[], [], [], [], []]);
      g.Playing? && g.s.body == [Point(1, 6), Point(1, 5)] && g.s.way == Right
  {
    var s := TowardsTheWall();
    hide Play, Inv, Tick;
    var four: seq<seq<Point>> := [[], [], [], []];
    var t := ClearTick(Point(8, 9), four, s, 1);
    assert four + [[]] == [[], [], [], [], []];
  }

  // ----- The program -----

  class SnakeField {
    var matrix: seq<int>
    var length: nat
    var point: Point
    var body: seq<Point>
    var way: Way
    var apple: Point
    var needGo: bool
    var endGame: bool

    constructor (apple: Point)
      ensures View() == InitialState(apple) && !endGame
    {
      matrix := EmptyField();
      length, point, body, way := 2, Point(5, 5), [Point(5, 5), Point(5, 6)], Up;
      this.apple := apple;
      needGo, endGame := true, false;
    }

    function View(): State
      reads this
    {
      State(matrix, length, point, body, way, apple, needGo)
    }

    /** The first half of `turnAndMove`: the last cell is freed, then every cell takes
        the place of the one before it, from the tail on, and is marked occupied. */
    method ShiftBody()
      requires |body| >= 2 && |matrix| == SIZE
      requires forall i :: 0 <= i < |body| ==> Inside(body[i])
      modifies `matrix, `body
      ensures body == [old(body)[0]] + old(body)[..|old(body)| - 1]
      ensures matrix == Redraw(old(matrix), old(body)[|old(body)| - 1], body[1..])
    {
      hide Redraw;
      var n := |body|;
      ghost var m, b := matrix, body;
      var tempLast := body[n - 1];
      IndexInRange(tempLast);
      RedrawNone(m, tempLast);
      matrix := matrix[TransformLocation(tempLast) := 0];
      for i := 1 to n
        invariant |body| == n && |matrix| == SIZE
        invariant body[..n - i + 1] == b[..n - i + 1]
        invariant body[n - i + 1..] == b[n - i..n - 1]
        invariant matrix == Redraw(m, tempLast, body[n - i + 1..])
      {
        var current := n - i;
        ghost var done := body[current + 1..];
        assert body[current - 1] == body[..current + 1][current - 1] == b[current - 1];
        body := body[current := body[current - 1]];
        IndexInRange(body[current]);
        assert body[current..] == [body[current]] + done;
        RedrawOneMore(m, tempLast, done, body[current]);
        matrix := matrix[TransformLocation(body[current]) := 1];
      }
    }

    /** The second half: the head moves on and its cell is marked occupied. */
    method MoveHead()
      requires body != [] && |matrix| == SIZE && Inside(Move(point, way))
      modifies `matrix, `body, `point
      ensures point == Move(old(point), way) && body == [point] + old(body)[1..]
      ensures 0 <= TransformLocation(point) < SIZE && matrix == old(matrix)[TransformLocation(point) := 1]
    {
      match way {
        case Up => point := point.(row := point.row - 1);
        case Left => point := point.(column := point.column - 1);
        case Right => point := point.(column := point.column + 1);
        case Bottom => point := point.(row := point.row + 1);
      }
      IndexInRange(point);
      matrix := matrix[TransformLocation(point) := 1];
      body := body[0 := point];
    }

    /** `turnAndMove`; `found` is false while the search for an apple cell goes on. */
    method TurnAndMove(wayValue: nat, draws: seq<Point>) returns (found: bool)
      requires |body| >= 2 && wayValue < 4 && |matrix| == SIZE
      requires forall i :: 0 <= i < |body| ==> Inside(body[i])
      requires Inside(Move(point, Turn(way, wayValue)))
      modifies this
      ensures endGame == old(endGame)
      ensures found <==> MoveSnake(old(View()), wayValue, draws).Some?
      ensures found ==> View() == MoveSnake(old(View()), wayValue, draws).value
    {
      hide Redraw, FirstApple, TransformLocation, Turn, Move;
      if !needGo {
        return true;
      }
      needGo := false;
      var number := (RawValue(way) + wayValue) % 4;
      way := WayOf(number);
      TurnedWay(old(way), wayValue);
      var tempLast := body[|body| - 1];
      ghost var m, b, n := matrix, body, |body|;
      ShiftBody();
      RedrawOneMore(m, tempLast, body[1..], Move(point, way));
      MoveHead();
      assert body == Shifted(b, point);
      if point == apple {
        body := body + [tempLast];
        length := length + 1;
        var next := RandomApplePoint(body, draws);
        if next.None? {
          return false;
        }
        apple := next.value;
      }
      return true;
    }

    predicate FrontWayIsFree()
      reads this
      requires |matrix| == SIZE && Interior(point)
      ensures FrontWayIsFree() <==> WayIsFree(View(), 0)
    {
      matrix[TransformLocation(
        match way
        case Up => Point(point.row - 1, point.column)
        case Left => Point(point.row, point.column - 1)
        case Bottom => Point(point.row + 1, point.column)
        case Right => Point(point.row, point.column + 1))] == 0
    }

    predicate LeftWayIsFree()
      reads this
      requires |matrix| == SIZE && Interior(point)
      ensures LeftWayIsFree() <==> WayIsFree(View(), 3)
    {
      matrix[TransformLocation(
        match way
        case Up => Point(point.row, point.column - 1)
        case Left => Point(point.row + 1, point.column)
        case Bottom => Point(point.row, point.column + 1)
        case Right => Point(point.row - 1, point.column))] == 0
    }

    predicate RightWayIsFree()
      reads this
      requires |matrix| == SIZE && Interior(point)
      ensures RightWayIsFree() <==> WayIsFree(View(), 1)
    {
      matrix[TransformLocation(
        match way
        case Up => Point(point.row, point.column + 1)
        case Left => Point(point.row - 1, point.column)
        case Bottom => Point(point.row, point.column - 1)
        case Right => Point(point.row + 1, point.column))] == 0
    }

    /** `checkAppleWay` */
    method CheckAppleWay(direction: Way, draws: seq<Point>) returns (found: bool)
      requires |body| >= 2 && |matrix| == SIZE
      requires forall i :: 0 <= i < |body| ==> Inside(body[i])
      requires Inside(Move(point, Turn(way, TurnTowards(way, direction))))
      modifies this
      ensures endGame == old(endGame)
      ensures found <==> MoveSnake(old(View()), TurnTowards(old(way), direction), draws).Some?
      ensures found ==> View() == MoveSnake(old(View()), TurnTowards(old(way), direction), draws).value
    {
      var turn;
      match direction {
        case Up => turn := if way == Left then RawValue(Right) else RawValue(Left);
        case Bottom => turn := if way == Left then RawValue(Left) else RawValue(Right);
        case Left => turn := if way == Bottom then RawValue(Right) else RawValue(Left);
        case Right => turn := if way == Bottom then RawValue(Left) else RawValue(Right);
      }
      found := TurnAndMove(turn, draws);
    }

    /** The turn towards the apple at the start of a tick. */
    method TurnToApple(draws: seq<Point>) returns (found: bool)
      requires Inv(View()) && needGo
      modifies this
      ensures endGame == old(endGame)
      ensures var turn := AppleTurn(old(View()));
        var next := if turn.Some? then MoveSnake(old(View()), turn.value, draws) else Some(old(View()));
        && (found <==> next.Some?) && (found ==> View() == next.value)
    {
      hide MoveSnake, Inv, Move, Turn, Interior;
      ghost var s := View();
      InvInRange(s);
      if AppleTurn(s).Some? { AppleTurnApproaches(s); }
      found := true;
      if point.column == apple.column {
        if body[1].column != apple.column {
          if point.row > apple.row {
            found := CheckAppleWay(Up, draws);
          } else if point.row < apple.row {
            found := CheckAppleWay(Bottom, draws);
          } else {
            found := TurnAndMove(RawValue(Bottom), draws);
          }
        }
      } else if point.row == apple.row {
        if body[1].row != apple.row {
          if point.column > apple.column {
            found := CheckAppleWay(Left, draws);
          } else if point.column < apple.column {
            found := CheckAppleWay(Right, draws);
          } else {
            assert false;  // the columns differ
          }
        }
      }
    }

    /** One turn of the loop of `startGame`. */
    method TickOnce(draws: seq<Point>) returns (found: bool)
      requires Inv(View()) && (forall d :: d in draws ==> Interior(d)) && !endGame
      modifies this
      ensures found <==> Tick(old(View()), draws).Some?
      ensures found ==> Tick(old(View()), draws) == Some((View(), endGame))
    {
      hide MoveSnake, Inv, Move, Turn, Interior, AppleTurn, WayIsFree;
      ghost var s := View();
      AppleTurnKeepsInv(s, draws);
      needGo := true;
      found := TurnToApple(draws);
      if !found {
        return;
      }
      ghost var s2 := View();
      InvInRange(s2);
      if FrontWayIsFree() {
        found := TurnAndMove(RawValue(Up), draws);
      } else if RightWayIsFree() {
        found := TurnAndMove(RawValue(Right), draws);
      } else if LeftWayIsFree() {
        found := TurnAndMove(RawValue(Left), draws);
      } else {
        endGame := true;
      }
    }
  }

  lemma TurnedWay(w: Way, turn: nat)
    requires turn < 4
    ensures WayOf((RawValue(w) + turn) % 4) == Turn(w, turn)
  {
  }

  lemma RedrawNone(m: seq<int>, last: Point)
    requires |m| == SIZE && Inside(last)
    ensures 0 <= TransformLocation(last) < SIZE
    ensures m[TransformLocation(last) := 0] == Redraw(m, last, [])
  {
  }

  /** Occupying one more cell while the snake is redrawn. */
  lemma RedrawOneMore(m: seq<int>, last: Point, cells: seq<Point>, p: Point)
    requires |m| == SIZE && Inside(p)
    ensures 0 <= TransformLocation(p) < SIZE
    ensures Redraw(m, last, cells)[TransformLocation(p) := 1] == Redraw(m, last, [p] + cells)
  {
    var a, b := Redraw(m, last, cells)[TransformLocation(p) := 1], Redraw(m, last, [p] + cells);
    forall k | 0 <= k < SIZE ensures a[k] == b[k] {
      if Covers(cells, k) {
        var i :| 0 <= i < |cells| && TransformLocation(cells[i]) == k;
        assert ([p] + cells)[i + 1] == cells[i];
      }
      if k == TransformLocation(p) { assert ([p] + cells)[0] == p; }
      if Covers([p] + cells, k) {
        var i :| 0 <= i < |[p] + cells| && TransformLocation(([p] + cells)[i]) == k;
        if i > 0 { assert cells[i - 1] == ([p] + cells)[i]; }
      }
    }
  }

  /** `randomApplePoint`, drawing until a draw is not a cell of the snake. */
  method RandomApplePoint(location: seq<Point>, draws: seq<Point>) returns (r: Option<Point>)
    requires location != []
    ensures r == FirstApple(location, draws)
  {
    var isGoodRandom := false;
    var randomPoint := Point(0, 0);
    var k := 0;
    while !isGoodRandom && k < |draws|
      invariant k <= |draws|
      invariant !isGoodRandom ==> FirstApple(location, draws[k..]) == FirstApple(location, draws)
      invariant isGoodRandom ==> FirstApple(location, draws) == Some(randomPoint)
    {
      randomPoint := draws[k];
      var i := 0;
      while i < |location|
        invariant i <= |location| && (isGoodRandom <==> i > 0)
        invariant forall j :: 0 <= j < i ==> location[j] != randomPoint
      {
        if location[i] == randomPoint {
          isGoodRandom := false;
          break;
        } else {
          isGoodRandom := true;
        }
        i := i + 1;
      }
      assert draws[k..][0] == randomPoint && draws[k..][1..] == draws[k + 1..];
      k := k + 1;
    }
    return if isGoodRandom then Some(randomPoint) else None;
  }

  /** A game that has ended, or is stuck looking for an apple cell, stays so. */
  lemma {:induction false} PlayStops(apple: Point, draws: seq<seq<Point>>, k: nat)
    requires CanStart(apple) && InteriorDraws(draws) && k <= |draws|
    requires !Play(apple, draws[..k]).Playing?
    ensures Play(apple, draws) == Play(apple, draws[..k])
    decreases |draws|
  {
    hide Tick, Inv;
    if k == |draws| {
      assert draws[..k] == draws;
    } else {
      var n := |draws| - 1;
      assert draws[..n][..k] == draws[..k];
      PlayStops(apple, draws[..n], k);
    }
  }

  /** `startGame`, watched for one tick for each list of draws. */
  method StartGame(first: seq<Point>, draws: seq<seq<Point>>) returns (g: Game)
    requires (forall d :: d in first ==> Interior(d)) && InteriorDraws(draws)
    ensures match FirstApple(InitialState(Point(0, 0)).body, first)
      case None => g == Searching
      case Some(apple) => CanStart(apple) && g == Play(apple, draws)
  {
    hide Tick, Inv, FirstApple;
    var start := RandomApplePoint(InitialState(Point(0, 0)).body, first);
    if start.None? {
      return Searching;
    }
    var apple := start.value;
    var field := new SnakeField(apple);
    var k := 0;
    assert draws[..0] == [];
    while k < |draws| && !field.endGame
      invariant k <= |draws|
      invariant Play(apple, draws[..k]) == if field.endGame then Over(field.View()) else Playing(field.View())
    {
      assert draws[..k + 1][..k] == draws[..k] && draws[..k + 1][k] == draws[k];
      var found := field.TickOnce(draws[k]);
      k := k + 1;
      if !found {
        PlayStops(apple, draws, k);
        return Searching;
      }
    }
    if field.endGame {
      PlayStops(apple, draws, k);
      return Over(field.View());
    }
    assert draws[..k] == draws;
    return Playing(field.View());
  }
}
