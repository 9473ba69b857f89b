/** Grid coordinates and wrap-around movement (src/point.rs). */
module Points {
  import opened Directions
  import opened Modular

  datatype Point = Point(x: int, y: int)

  /** Both bounds of the grid are at least one cell. */
  predicate Positive(bounds: Point) {
    bounds.x >= 1 && bounds.y >= 1
  }

  predicate InBounds(p: Point, bounds: Point) {
    0 <= p.x < bounds.x && 0 <= p.y < bounds.y
  }

  /**
   * One wrapped step in direction `d` from an in-range point: Left and Right
   * step x back and forward, Up and Down step y back and forward (y grows downwards).
   */
  function Step(d: Direction, p: Point, bounds: Point): (q: Point)
    requires Positive(bounds) && InBounds(p, bounds)
    ensures InBounds(q, bounds)
  {
    match d
    case Left => Point(Prev(p.x, bounds.x), p.y)
    case Right => Point(Next(p.x, bounds.x), p.y)
    case Up => Point(p.x, Prev(p.y, bounds.y))
    case Down => Point(p.x, Next(p.y, bounds.y))
  }

  /**
   * move_point: the new value of the in-out point. Only the direction's axis
   * changes, to the wrapped increment or decrement of that coordinate; from an
   * in-range point the result is in range and is the wrapped step.
   */
  method MovePoint(d: Direction, p: Point, bounds: Point) returns (q: Point)
    requires Positive(bounds)
    ensures InBounds(p, bounds) ==> InBounds(q, bounds)
    ensures IsHorizontal(d) ==> q.y == p.y
    ensures !IsHorizontal(d) ==> q.x == p.x
    ensures d == Left ==> q.x == (p.x - 1) % bounds.x
    ensures d == Right ==> q.x == (p.x + 1) % bounds.x
    ensures d == Up ==> q.y == (p.y - 1) % bounds.y
    ensures d == Down ==> q.y == (p.y + 1) % bounds.y
    ensures InBounds(p, bounds) ==> q == Step(d, p, bounds)
  {
    q := p;
    match d {
      case Left =>
        var x := WrapDec(q.x, bounds.x);
        q := q.(x := x);
      case Right =>
        var x := WrapInc(q.x, bounds.x);
        q := q.(x := x);
      case Up =>
        var y := WrapDec(q.y, bounds.y);
        q := q.(y := y);
      case Down =>
        var y := WrapInc(q.y, bounds.y);
        q := q.(y := y);
    }
  }

  /** A step changes only the coordinate on the direction's axis. */
  lemma StepKeepsOtherAxis(d: Direction, p: Point, bounds: Point)
    requires Positive(bounds) && InBounds(p, bounds)
    ensures IsHorizontal(d) ==> Step(d, p, bounds).y == p.y
    ensures !IsHorizontal(d) ==> Step(d, p, bounds).x == p.x
    ensures IsHorizontal(d) && bounds.x >= 2 ==> Step(d, p, bounds).x != p.x
    ensures !IsHorizontal(d) && bounds.y >= 2 ==> Step(d, p, bounds).y != p.y
  {
  }

  /** Edges wrap: Right from the last column lands in column 0, Left from column 0 in the last. */
  lemma StepWrapsAtEdges(p: Point, bounds: Point)
    requires Positive(bounds) && InBounds(p, bounds)
    ensures p.x == bounds.x - 1 ==> Step(Right, p, bounds).x == 0
    ensures p.x == 0 ==> Step(Left, p, bounds).x == bounds.x - 1
    ensures p.y == bounds.y - 1 ==> Step(Down, p, bounds).y == 0
    ensures p.y == 0 ==> Step(Up, p, bounds).y == bounds.y - 1
  {
  }

  /** Stepping back in the opposite direction restores the point. */
  lemma StepOppositeRestores(d: Direction, p: Point, bounds: Point)
    requires Positive(bounds) && InBounds(p, bounds)
    ensures Step(Opposite(d), Step(d, p, bounds), bounds) == p
  {
    NextPrevInverse(if IsHorizontal(d) then p.x else p.y, if IsHorizontal(d) then bounds.x else bounds.y);
  }

  /**
   * random_point: two arbitrary integers (the random draws) folded into the grid.
   * Every result is in range.
   */
  function RandomPoint(rx: int, ry: int, bounds: Point): (p: Point)
    requires Positive(bounds)
    ensures InBounds(p, bounds)
  {
    Point(Modulo(rx, bounds.x), Modulo(ry, bounds.y))
  }

  /** Every cell of the grid can be drawn: draws already in range are kept. */
  lemma RandomPointCoversGrid(p: Point, bounds: Point)
    requires Positive(bounds) && InBounds(p, bounds)
    ensures RandomPoint(p.x, p.y, bounds) == p
  {
  }

  /** A draw and that draw shifted by a multiple of the bound give the same point. */
  lemma RandomPointPeriodic(rx: int, ry: int, i: int, j: int, bounds: Point)
    requires Positive(bounds)
    ensures RandomPoint(rx + i * bounds.x, ry + j * bounds.y, bounds) == RandomPoint(rx, ry, bounds)
  {
    DivModUnique(rx + i * bounds.x, bounds.x, rx / bounds.x + i, rx % bounds.x);
    DivModUnique(ry + j * bounds.y, bounds.y, ry / bounds.y + j, ry % bounds.y);
  }
}
