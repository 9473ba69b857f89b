/**
 * The snake's body (src/snake.rs): a deque of relative steps, the first one
 * leading from the head to the segment just behind it. The head's position is
 * kept by the game, not here.
 */
module Snakes {
  import opened Directions

  class Snake {
    var body: seq<Direction>

    /** Every snake keeps at least the three segments it starts with. */
    ghost predicate Valid()
      reads this
    {
      |body| >= 3
    }

    /** Snake::new: three segments, each a step to the Left, so it faces Right. */
    constructor ()
      ensures body == [Left, Left, Left]
      ensures Valid() && Facing() == Right
    {
      body := [Left, Left, Left];
    }

    /** The direction the snake last moved in: the inverse of its first step. */
    function Facing(): (d: Direction)
      reads this
      requires body != []
      ensures Opposite(d) == body[0]
    {
      Opposite(body[0])
    }

    /** Moving one cell in `d` and growing: the old body stays whole behind a new first step. */
    method Grow(d: Direction)
      modifies this
      ensures body == [Opposite(d)] + old(body)
      ensures |body| == |old(body)| + 1 && body[1..] == old(body)
      ensures Facing() == d
      ensures old(Valid()) ==> Valid()
    {
      body := [Opposite(d)] + body;
    }

    /** Moving one cell in `d` without growing: grow, then drop the tail step. */
    method Crawl(d: Direction)
      modifies this
      ensures body == ([Opposite(d)] + old(body))[..|old(body)|]
      ensures |body| == |old(body)|
      ensures old(body) != [] ==> body[1..] == old(body)[..|old(body)| - 1] && Facing() == d
      ensures old(Valid()) ==> Valid()
    {
      Grow(d);
      body := body[..|body| - 1];
    }
  }
}
