/**
 * The simulation engine (src/game.rs): the game state, one tick of play,
 * the fruit expiry sweep and the cell snapshot the renderer paints.
 */
module Games {
  import opened Directions
  import opened Modular
  import opened Points
  import opened Snakes
  import opened Fruits

  /** Outcome of one tick: nothing happened, a fruit was eaten, or the snake bit itself. */
  datatype Status = Hungry | Fed | Dead

  // ---------------------------------------------------------------------------
  // Body occupancy

  /**
   * snake_body: the absolute positions of the body segments, found by walking
   * the relative steps from the head. One position per step, all on the grid.
   */
  function BodyPositions(head: Point, steps: seq<Direction>, bounds: Point): (ps: seq<Point>)
    requires Positive(bounds) && InBounds(head, bounds)
    ensures |ps| == |steps|
    ensures forall p <- ps :: InBounds(p, bounds)
    decreases |steps|
  {
    if steps == [] then []
    else
      var next := Step(steps[0], head, bounds);
      [next] + BodyPositions(next, steps[1..], bounds)
  }

  /** Each segment is one wrapped step from the one before it, the first one from the head. */
  lemma {:induction false} BodyPositionsChain(head: Point, steps: seq<Direction>, bounds: Point, k: nat)
    requires Positive(bounds) && InBounds(head, bounds) && k < |steps|
    ensures var ps := BodyPositions(head, steps, bounds);
      ps[k] == Step(steps[k], if k == 0 then head else ps[k - 1], bounds)
    decreases k
  {
    if k > 0 {
      var next := Step(steps[0], head, bounds);
      BodyPositionsChain(next, steps[1..], bounds, k - 1);
    }
  }

  /** The positions of a prefix of the steps are the prefix of the positions. */
  lemma {:induction false} BodyPositionsPrefix(head: Point, steps: seq<Direction>, bounds: Point, k: nat)
    requires Positive(bounds) && InBounds(head, bounds) && k <= |steps|
    ensures BodyPositions(head, steps[..k], bounds) == BodyPositions(head, steps, bounds)[..k]
    decreases k
  {
    if k > 0 {
      var next := Step(steps[0], head, bounds);
      assert steps[..k][1..] == steps[1..][..k - 1];
      BodyPositionsPrefix(next, steps[1..], bounds, k - 1);
    }
  }

  /**
   * Moving the head one step in `d` and growing puts the old head in front of the
   * old body: the first segment is where the head was, the rest are unchanged.
   */
  lemma GrowPositions(head: Point, d: Direction, steps: seq<Direction>, bounds: Point)
    requires Positive(bounds) && InBounds(head, bounds)
    ensures BodyPositions(Step(d, head, bounds), [Opposite(d)] + steps, bounds)
         == [head] + BodyPositions(head, steps, bounds)
  {
    StepOppositeRestores(d, head, bounds);
    assert ([Opposite(d)] + steps)[1..] == steps;
  }

  /** Moving the head one step in `d` and crawling: the old head, then the old body minus its tail. */
  lemma CrawlPositions(head: Point, d: Direction, steps: seq<Direction>, bounds: Point)
    requires Positive(bounds) && InBounds(head, bounds)
    ensures BodyPositions(Step(d, head, bounds), ([Opposite(d)] + steps)[..|steps|], bounds)
         == ([head] + BodyPositions(head, steps, bounds))[..|steps|]
  {
    GrowPositions(head, d, steps, bounds);
    BodyPositionsPrefix(Step(d, head, bounds), [Opposite(d)] + steps, bounds, |steps|);
  }

  /**
   * On a grid of at least 2 by 2 the first segment (the one the collision check
   * skips) never lies under the head, so skipping it changes nothing.
   */
  lemma NeckIsNeverUnderHead(head: Point, steps: seq<Direction>, bounds: Point)
    requires bounds.x >= 2 && bounds.y >= 2 && InBounds(head, bounds) && steps != []
    ensures BodyPositions(head, steps, bounds)[0] != head
    ensures head in BodyPositions(head, steps, bounds) <==> head in BodyPositions(head, steps, bounds)[1..]
  {
    StepKeepsOtherAxis(steps[0], head, bounds);
    var ps := BodyPositions(head, steps, bounds);
    assert ps == [ps[0]] + ps[1..];
  }

  // ---------------------------------------------------------------------------
  // The board snapshot

  /** What a cell shows: a plain character, or a fruit's emoji. */
  datatype Glyph = Char(c: char) | Emoji(symbol: Symbol)

  /** A renderable cell: glyph, foreground and background palette indices. */
  datatype Cell = Cell(glyph: Glyph, fg: int, bg: int)

  const BackgroundColor := 233
  const HeadColor := 21
  const BodyColor := 32

  const HeadCell := Cell(Char('\U{25A3}'), HeadColor, BackgroundColor)
  const BodyCell := Cell(Char('\U{25FC}'), BodyColor, BackgroundColor)
  const EmptyCell := Cell(Char(' '), BackgroundColor, BackgroundColor)

  function FruitCell(fruit: Fruit): Cell {
    Cell(Emoji(fruit.symbol), fruit.color as int, BackgroundColor)
  }

  /** The cell at `pos`: head first, then body, then fruit, else empty. */
  function CellAt(pos: Point, head: Point, body: seq<Point>, fruitPos: Point, fruit: Fruit): Cell {
    if pos == head then HeadCell
    else if pos in body then BodyCell
    else if pos == fruitPos then FruitCell(fruit)
    else EmptyCell
  }

  /** The grid point the board's `i`-th cell shows. */
  function CellPoint(i: int, size: Point): Point
    requires Positive(size)
  {
    Point(Modulo(i, size.x), i / size.y)
  }

  /** board: one cell per index in 0 .. size.x * size.y. */
  function BoardOf(size: Point, head: Point, body: seq<Point>, fruitPos: Point, fruit: Fruit): seq<Cell>
    requires Positive(size)
  {
    seq(size.x * size.y, i => CellAt(CellPoint(i, size), head, body, fruitPos, fruit))
  }

  /** Multiplying by a non-negative factor preserves order. */
  lemma MulMonotone(a: int, b: int, n: int)
    requires a <= b && n >= 0
    ensures a * n <= b * n
  {
    assert b * n - a * n == (b - a) * n;
  }

  /** On an n-by-n grid, index `y * n + x` shows the point (x, y). */
  lemma CellPointOfIndex(n: int, x: int, y: int)
    requires n >= 1 && 0 <= x < n && 0 <= y < n
    ensures 0 <= y * n + x < n * n
    ensures CellPoint(y * n + x, Point(n, n)) == Point(x, y)
  {
    DivModUnique(y * n + x, n, y, x);
    MulMonotone(y, n - 1, n);
  }

  /** On an n-by-n grid, every board index shows an in-range point, and comes back from it. */
  lemma IndexOfCellPoint(n: int, i: int)
    requires n >= 1 && 0 <= i < n * n
    ensures InBounds(CellPoint(i, Point(n, n)), Point(n, n))
    ensures CellPoint(i, Point(n, n)).y * n + CellPoint(i, Point(n, n)).x == i
  {
  }

  /** On an n-by-n grid the cell at index `y * n + x` classifies the point (x, y). */
  lemma BoardAt(n: int, head: Point, body: seq<Point>, fruitPos: Point, fruit: Fruit, x: int, y: int)
    requires n >= 1 && 0 <= x < n && 0 <= y < n
    ensures |BoardOf(Point(n, n), head, body, fruitPos, fruit)| == n * n
    ensures 0 <= y * n + x < n * n
    ensures BoardOf(Point(n, n), head, body, fruitPos, fruit)[y * n + x] == CellAt(Point(x, y), head, body, fruitPos, fruit)
  {
    CellPointOfIndex(n, x, y);
  }

  /**
   * The classification of the whole board: exactly one cell, the one at the head's
   * index, shows the head; a cell shows body exactly when its point is a body
   * position other than the head; the fruit shows at its own index exactly when
   * neither the head nor the body covers it.
   */
  lemma BoardClassification(n: int, head: Point, body: seq<Point>, fruitPos: Point, fruit: Fruit)
    requires n >= 1 && InBounds(head, Point(n, n)) && InBounds(fruitPos, Point(n, n))
    ensures var cells := BoardOf(Point(n, n), head, body, fruitPos, fruit);
      && |cells| == n * n
      && (forall i :: 0 <= i < n * n ==> (cells[i] == HeadCell <==> i == head.y * n + head.x))
      && (forall i :: 0 <= i < n * n ==>
            (cells[i] == BodyCell <==> CellPoint(i, Point(n, n)) != head && CellPoint(i, Point(n, n)) in body))
      && 0 <= fruitPos.y * n + fruitPos.x < n * n
      && (cells[fruitPos.y * n + fruitPos.x] == FruitCell(fruit) <==> fruitPos != head && fruitPos !in body)
  {
    var cells := BoardOf(Point(n, n), head, body, fruitPos, fruit);
    forall i | 0 <= i < n * n
      ensures cells[i] == HeadCell <==> i == head.y * n + head.x
    {
      IndexOfCellPoint(n, i);
      CellPointOfIndex(n, head.x, head.y);
    }
    BoardAt(n, head, body, fruitPos, fruit, fruitPos.x, fruitPos.y);
  }

  // ---------------------------------------------------------------------------
  // The game

  /**
   * The game state. The grid is square; the snake is owned by the game, which
   * keeps the head's position while the snake keeps the relative steps. The fruit's
   * score value is not defined in the fruit catalogue, so it is an uninterpreted
   * function given at construction.
   */
  class Game {
    const size: Point
    const scoreValue: Fruit -> int
    const snake: Snake
    var head: Point
    var fruitPos: Point
    var fruit: Fruit
    var score: int

    /** The grid is square and non-empty; head and fruit lie on it; the fruit is a catalogued one. */
    ghost predicate Valid()
      reads this, snake
    {
      && size.x == size.y && size.x >= 1
      && InBounds(head, size) && InBounds(fruitPos, size)
      && snake.Valid()
      && fruit.symbol in Catalogue && WellFormed(fruit)
    }

    /** The absolute positions of the body segments behind the head. */
    ghost function Positions(): seq<Point>
      reads this, snake
      requires Valid()
    {
      BodyPositions(head, snake.body, size)
    }

    /**
     * Game::new: an n-by-n grid, the head in the middle, the initial three-step
     * snake, a random fruit at a random point, score 0.
     */
    constructor (n: int, rx: int, ry: int, k: nat, scoreValue: Fruit -> int)
      requires n >= 1 && k < |Catalogue|
      ensures Valid() && fresh(snake)
      ensures size == Point(n, n) && head == Point(n / 2, n / 2)
      ensures snake.body == [Left, Left, Left] && snake.Facing() == Right
      ensures fruitPos == RandomPoint(rx, ry, size) && fruit == RandomFruit(k)
      ensures score == 0 && this.scoreValue == scoreValue
    {
      size := Point(n, n);
      this.scoreValue := scoreValue;
      snake := new Snake();
      head := Point(n / 2, n / 2);
      fruitPos := RandomPoint(rx, ry, Point(n, n));
      fruit := RandomFruit(k);
      score := 0;
    }

    /** n_cols: the grid is square, so the column count is also the row count. */
    function NCols(): (c: int)
      reads this, snake
      requires Valid()
      ensures c >= 1 && c == size.y
    {
      size.x
    }

    /**
     * score: the value of the score field. The constructor sets it to 0, and only
     * ProcessInput changes it, by exactly the eaten fruit's value.
     */
    function Score(): (s: int)
      reads this
      ensures s == score
    {
      score
    }

    /** spawn_fruit: a new random fruit at a new random point; nothing else changes. */
    method SpawnFruit(rx: int, ry: int, k: nat)
      requires Valid() && k < |Catalogue|
      modifies this`fruitPos, this`fruit
      ensures Valid()
      ensures fruitPos == RandomPoint(rx, ry, size) && fruit == RandomFruit(k)
    {
      fruitPos := RandomPoint(rx, ry, size);
      fruit := RandomFruit(k);
    }

    /**
     * refresh: `rotten` is what the fruit's expiry check answers at the current
     * time. A rotten fruit is replaced; the snake, head and score never change.
     */
    method Refresh(rotten: bool, rx: int, ry: int, k: nat)
      requires Valid() && k < |Catalogue|
      modifies this`fruitPos, this`fruit
      ensures Valid()
      ensures head == old(head) && snake.body == old(snake.body) && score == old(score)
      ensures rotten ==> fruitPos == RandomPoint(rx, ry, size) && fruit == RandomFruit(k)
      ensures !rotten ==> fruitPos == old(fruitPos) && fruit == old(fruit)
    {
      if rotten {
        SpawnFruit(rx, ry, k);
      }
    }

    /** snake_body: walks the steps from the head with a moving cursor. */
    method SnakeBody() returns (positions: seq<Point>)
      requires Valid()
      ensures positions == BodyPositions(head, snake.body, size)
    {
      var pos := head;
      positions := [];
      var i := 0;
      while i < |snake.body|
        invariant 0 <= i <= |snake.body|
        invariant InBounds(pos, size)
        invariant positions + BodyPositions(pos, snake.body[i..], size) == BodyPositions(head, snake.body, size)
      {
        assert snake.body[i..][1..] == snake.body[i + 1..];
        pos := MovePoint(snake.body[i], pos, size);
        positions := positions + [pos];
        i := i + 1;
      }
    }

    /**
     * process_input: one tick. `requested` is the caller's direction and
     * `effective` the value written back into it. The random draws (rx, ry, k)
     * are used only if a fruit is eaten.
     */
    method ProcessInput(requested: Direction, rx: int, ry: int, k: nat) returns (status: Status, effective: Direction)
      requires Valid() && k < |Catalogue|
      modifies this`head, this`fruitPos, this`fruit, this`score, snake
      ensures Valid()
      // the reversal guard: the snake never turns straight back
      ensures effective == if requested == Opposite(old(snake.Facing())) then old(snake.Facing()) else requested
      ensures effective != Opposite(old(snake.Facing()))
      // the head moves one wrapped step and the snake now faces that way
      ensures head == Step(effective, old(head), size)
      ensures snake.Facing() == effective
      ensures Positions()[0] == old(head)
      // eating: score by the eaten fruit's value, a new fruit, one more segment
      ensures old(fruitPos) == head ==>
        && score == old(score) + scoreValue(old(fruit))
        && fruitPos == RandomPoint(rx, ry, size) && fruit == RandomFruit(k)
        && snake.body == [Opposite(effective)] + old(snake.body)
        && Positions() == [old(head)] + old(Positions())
      // not eating: same score and fruit, same length
      ensures old(fruitPos) != head ==>
        && score == old(score)
        && fruitPos == old(fruitPos) && fruit == old(fruit)
        && snake.body == ([Opposite(effective)] + old(snake.body))[..|old(snake.body)|]
        && Positions() == ([old(head)] + old(Positions()))[..|old(snake.body)|]
      ensures (forall f :: scoreValue(f) >= 0) ==> score >= old(score)
      // the status; biting the body overrides eating
      ensures status == Dead <==> head in Positions()[1..]
      ensures status == Fed <==> old(fruitPos) == head && head !in Positions()[1..]
      ensures status == Hungry <==> old(fruitPos) != head && head !in Positions()[1..]
    {
      effective := requested;
      if requested == Opposite(snake.Facing()) {
        effective := snake.Facing();
      }
      ghost var oldHead, oldSteps := head, snake.body;
      head := MovePoint(effective, head, size);
      status := Hungry;
      if fruitPos == head {
        score := score + scoreValue(fruit);
        SpawnFruit(rx, ry, k);
        snake.Grow(effective);
        status := Fed;
        GrowPositions(oldHead, effective, oldSteps, size);
      } else {
        snake.Crawl(effective);
        CrawlPositions(oldHead, effective, oldSteps, size);
      }
      var body := SnakeBody();
      if head in body[1..] {
        status := Dead;
      }
    }

    /**
     * board: the snapshot of the grid, cell (x, y) at index y * n + x. Reading it
     * changes nothing; exactly one cell shows the head.
     */
    function Board(): (cells: seq<Cell>)
      reads this, snake
      requires Valid()
      ensures |cells| == size.x * size.y
      ensures forall i :: 0 <= i < |cells| ==> (cells[i] == HeadCell <==> i == head.y * size.x + head.x)
    {
      var body := BodyPositions(head, snake.body, size);
      BoardClassification(size.x, head, body, fruitPos, fruit);
      BoardOf(size, head, body, fruitPos, fruit)
    }
  }

  // ---------------------------------------------------------------------------
  // Scenarios a caller can derive from the contracts alone

  /** Facing Right on a 10-by-10 grid, a request to turn Left keeps the snake moving Right. */
  method ReversalScenario(scoreValue: Fruit -> int)
  {
    var g := new Game(10, 0, 0, 0, scoreValue);
    assert g.head == Point(5, 5);
    var status, effective := g.ProcessInput(Left, 0, 0, 0);
    assert effective == Right;
    assert g.head == Point(6, 5);
  }
}
