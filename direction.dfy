/** The four compass directions the snake can move in (src/direction.rs). */
module Directions {

  datatype Direction = Up | Down | Left | Right

  /** Left and Right move along the x axis, Up and Down along the y axis. */
  predicate IsHorizontal(d: Direction) {
    d == Left || d == Right
  }

  /** The direction pointing the other way: never `d` itself, and on the same axis. */
  function Opposite(d: Direction): (o: Direction)
    ensures o != d
    ensures IsHorizontal(o) == IsHorizontal(d)
  {
    match d
    case Up => Down
    case Down => Up
    case Left => Right
    case Right => Left
  }

  /** Opposite is an involution. */
  lemma OppositeInvolutive(d: Direction)
    ensures Opposite(Opposite(d)) == d
  {
  }

  /** Opposite is a bijection on the four directions: injective and onto. */
  lemma OppositeBijective()
    ensures forall a, b :: Opposite(a) == Opposite(b) ==> a == b
    ensures forall d :: Opposite(Opposite(d)) == d
  {
  }
}
