/**
 * The fruit catalogue (src/fruit.rs): pure lookup tables from a fruit's symbol
 * to its colour (a 256-colour terminal palette index) and its lifetime.
 */
module Fruits {

  newtype u8 = x: int | 0 <= x < 256

  /**
   * The eleven catalogued fruit emoji, U+1F347 (grape) to U+1F353 (strawberry)
   * without U+1F34A, named after the comments of the colour table. Both the
   * sixth-from-last and the third-from-last rows of that table are commented
   * "orange orange"; their emoji are the watermelon (U+1F349) and the melon
   * (U+1F348), which name them here. `Other(c)` stands for a character that is
   * none of the eleven; the type does not enforce this, so `Other` applied to one
   * of them is a value no table lookup in the source corresponds to, and no
   * operation of the game produces it.
   */
  datatype Symbol =
    | GreenApple | RedApple | Pear | Peach | Cherry | Lemon
    | Watermelon | Strawberry | Grape | Melon | Pineapple
    | Other(c: char)

  /** A fruit as spawned: its symbol, colour and lifetime in milliseconds. */
  datatype Fruit = Fruit(symbol: Symbol, color: u8, lifetime: nat)

  /** fruit_color: every catalogued symbol has a non-zero colour; anything else has colour 0. */
  function Color(s: Symbol): (c: u8)
    ensures c == 0 <==> s.Other?
  {
    match s
    case GreenApple => 47
    case RedApple => 88
    case Pear => 36
    case Peach => 179
    case Cherry => 169
    case Lemon => 118
    case Watermelon => 9
    case Strawberry => 1
    case Grape => 54
    case Melon => 9
    case Pineapple => 191
    case Other(_) => 0
  }

  /**
   * fruit_lifetime, in milliseconds: catalogued symbols live between 0.5 s and
   * 5 s; anything else gets the zero default.
   */
  function Lifetime(s: Symbol): (ms: nat)
    ensures s.Other? ==> ms == 0
    ensures !s.Other? ==> 500 <= ms <= 5000
  {
    match s
    case GreenApple => 5000
    case RedApple => 4500
    case Pear => 4000
    case Peach => 3500
    case Cherry => 3000
    case Lemon => 2500
    case Watermelon => 2000
    case Strawberry => 1500
    case Grape => 1000
    case Melon => 800
    case Pineapple => 500
    case Other(_) => 0
  }

  /** No two catalogued kinds share a lifetime. */
  lemma LifetimeDistinguishesKinds(s: Symbol, t: Symbol)
    requires !s.Other? && !t.Other? && Lifetime(s) == Lifetime(t)
    ensures s == t
  {
  }

  /** A fruit whose colour and lifetime are the ones its symbol dictates. */
  predicate WellFormed(f: Fruit) {
    f.color == Color(f.symbol) && f.lifetime == Lifetime(f.symbol)
  }

  /** Fruit::new: the fruit carrying symbol `s`. */
  function NewFruit(s: Symbol): (f: Fruit)
    ensures f.symbol == s && WellFormed(f)
  {
    Fruit(s, Color(s), Lifetime(s))
  }

  /** A well-formed fruit is determined by its symbol. */
  lemma WellFormedIsNewFruit(f: Fruit)
    requires WellFormed(f)
    ensures f == NewFruit(f.symbol)
  {
  }

  /**
   * The symbols get_random_fruit draws from, in the order of its list, which is
   * ascending code point order: U+1F347 to U+1F349, U+1F34B, then pineapple,
   * red apple, green apple and pear (U+1F34D to U+1F350), then U+1F351 to U+1F353.
   */
  const Catalogue: seq<Symbol> :=
    [Grape, Melon, Watermelon, Lemon, Pineapple, RedApple, GreenApple, Pear, Peach, Cherry, Strawberry]

  /** The catalogue lists each of the eleven kinds exactly once, and nothing else. */
  lemma CatalogueIsComplete()
    ensures |Catalogue| == 11
    ensures forall s :: s in Catalogue <==> !s.Other?
    ensures forall i, j :: 0 <= i < j < |Catalogue| ==> Catalogue[i] != Catalogue[j]
  {
  }

  /**
   * get_random_fruit: the fruit built from the `k`-th catalogue entry, `k` being
   * the index the random choice picked. It is always a catalogued, well-formed
   * fruit, so it never gets the zero colour or the zero default lifetime.
   */
  function RandomFruit(k: nat): (f: Fruit)
    requires k < |Catalogue|
    ensures f.symbol == Catalogue[k] && WellFormed(f)
    ensures f.color != 0 && 500 <= f.lifetime <= 5000
  {
    var fruits := seq(|Catalogue|, i requires 0 <= i < |Catalogue| => NewFruit(Catalogue[i]));
    fruits[k]
  }

  /** Every catalogued kind can be drawn. */
  lemma RandomFruitCoversCatalogue(s: Symbol)
    requires !s.Other?
    ensures exists k :: 0 <= k < |Catalogue| && RandomFruit(k) == NewFruit(s)
  {
    CatalogueIsComplete();
    var k :| 0 <= k < |Catalogue| && Catalogue[k] == s;
    assert RandomFruit(k) == NewFruit(s);
  }
}
