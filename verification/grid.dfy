/** Cell coordinates, headings and the play-field constants of the snake game. */
module Grid {

  /** A cell of the play field. The origin is the centre and y grows upwards. */
  datatype Pos = Pos(x: int, y: int)

  /** The snake's heading. */
  datatype Dir = Up | Down | Left | Right

  // Window and cell sizes in pixels. Both divisions below are exact, so the
  // float division and truncating cast of the program give the same numbers.
  const WindowWidth: int := 800
  const WindowHeight: int := 600
  const GridSquareSize: int := 20

  /** Cells across (40) and cells up (30). */
  const GridWidth: int := WindowWidth / GridSquareSize
  const GridHeight: int := WindowHeight / GridSquareSize

  /** Half-bounds of the death check (20 and 15). */
  const BoundWidth: int := GridWidth / 2
  const BoundHeight: int := GridHeight / 2

  function Abs(n: int): nat
  {
    if n < 0 then -n else n
  }

  /** Two cells sharing an edge. */
  predicate Adjacent(a: Pos, b: Pos)
  {
    Abs(a.x - b.x) + Abs(a.y - b.y) == 1
  }

  /** Strictly between the walls: the cells on which the head survives. */
  predicate InBox(p: Pos)
  {
    -BoundWidth < p.x < BoundWidth && -BoundHeight < p.y < BoundHeight
  }

  predicate IsVertical(d: Dir)
  {
    d == Up || d == Down
  }

  /** The reverse heading: another heading on the same axis. */
  function Opposite(d: Dir): (r: Dir)
    ensures r != d
    ensures IsVertical(r) == IsVertical(d)
  {
    match d
    case Up => Down
    case Down => Up
    case Left => Right
    case Right => Left
  }

  /** Some heading at right angles to `d`. */
  function Perpendicular(d: Dir): (r: Dir)
    ensures IsVertical(r) != IsVertical(d)
  {
    if IsVertical(d) then Right else Up
  }

  /** The neighbouring cell in direction `d`: one unit along the heading's
      axis, in the heading's sense, the other coordinate unchanged. */
  function Step(p: Pos, d: Dir): (r: Pos)
    ensures Adjacent(p, r)
    ensures IsVertical(d) <==> r.x == p.x
    ensures d == Up ==> r.y > p.y
    ensures d == Down ==> r.y < p.y
    ensures d == Left ==> r.x < p.x
    ensures d == Right ==> r.x > p.x
  {
    match d
    case Up => Pos(p.x, p.y + 1)
    case Down => Pos(p.x, p.y - 1)
    case Left => Pos(p.x - 1, p.y)
    case Right => Pos(p.x + 1, p.y)
  }

  /** Stepping back the opposite way returns to the start cell. */
  lemma StepUndo(p: Pos, d: Dir)
    ensures Step(Step(p, d), Opposite(d)) == p
  {
  }

  /** The direction leading from a cell to a neighbour of it. */
  function DirectionTo(a: Pos, b: Pos): (d: Dir)
    requires Adjacent(a, b)
    ensures Step(a, d) == b
  {
    if b.y == a.y + 1 then Up
    else if b.y == a.y - 1 then Down
    else if b.x == a.x - 1 then Left
    else Right
  }
}
