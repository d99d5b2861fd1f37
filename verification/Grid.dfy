/** Points, headings and turns on a grid, as both playgrounds declare them. */
module Grid {

  datatype Way = Up | Right | Bottom | Left

  function RawValue(w: Way): nat {
    match w case Up => 0 case Right => 1 case Bottom => 2 case Left => 3
  }

  function WayOf(n: nat): Way
    requires n < 4
  {
    if n == 0 then Up else if n == 1 then Right else if n == 2 then Bottom else Left
  }

  datatype Point = Point(row: int, column: int)

  function Move(p: Point, w: Way): Point {
    match w
    case Up => Point(p.row - 1, p.column)
    case Left => Point(p.row, p.column - 1)
    case Right => Point(p.row, p.column + 1)
    case Bottom => Point(p.row + 1, p.column)
  }

  /** A quarter turn to the right. */
  function Clockwise(w: Way): Way {
    match w case Up => Right case Right => Bottom case Bottom => Left case Left => Up
  }

  /** Up to three quarter turns. */
  function Turn(w: Way, turn: nat): Way {
    if turn == 0 then w
    else if turn == 1 then Clockwise(w)
    else if turn == 2 then Clockwise(Clockwise(w))
    else Clockwise(Clockwise(Clockwise(w)))
  }
}
