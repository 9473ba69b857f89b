# snake-rs simulation engine in Dafny

A model of the engine of a terminal snake game played on a wrap-around (toroidal) square grid.
Each tick the snake's head moves one cell and eats or crawls. The snake dies when its head lands
on its own body. Fruit expires and is respawned. The model covers the six engine files of the
repository, one Dafny module per file:

| file | module | form |
|---|---|---|
| `direction.dfy` | `Directions` | the four-valued `Direction` and `Opposite` (pure) |
| `modulo.dfy` | `Modular` | Rust's truncating remainder written out (`TruncDiv`, `Rem`), the corrected `Modulo`, and `WrapInc`/`WrapDec` as methods returning the new value of their in-out coordinate |
| `point.dfy` | `Points` | `Point`, the reference step `Step`, the method `MovePoint` that follows the source, and `RandomPoint` |
| `snake.dfy` | `Snakes` | class `Snake` with a `seq<Direction>` field that `Grow` and `Crawl` update in place; `Facing` is the source's `direction()` |
| `fruit.dfy` | `Fruits` | the colour and lifetime tables, `NewFruit` (`Fruit::new`) and `RandomFruit` (`get_random_fruit`) |
| `game.dfy` | `Games` | class `Game` (`new`, `refresh`, `spawn_fruit`, `snake_body`, `process_input`, `board`, `score`, `n_cols`) with the pure `BodyPositions` and `BoardOf` that specify it |

How the source's features are modelled:

- Rust's `&mut` in-out parameters (`wrap_inc`, `wrap_dec`, `move_point`, and the direction that
  `process_input` writes back) become out-parameters holding the new value. Rust's borrow rules
  rule out aliasing, so nothing is lost.
- Randomness is injected as parameters. `random_point` takes its two random integers as `rx`
  and `ry`. `get_random_fruit` takes the index `k` that its random choice picks.
- `rotten()` depends on the wall clock, so `Game.Refresh` receives its answer as the boolean
  `rotten`. `score_value()` is not defined in the fruit file. It is an uninterpreted function
  `scoreValue: Fruit -> int`, given to the `Game` constructor.
- The fruits are the eleven emoji from U+1F347 to U+1F353, leaving out U+1F34A. These are grape,
  melon, watermelon, lemon, pineapple, red apple, green apple, pear, peach, cherries and
  strawberry. The model uses one constructor per fruit, named after the colour table's comments.
  Both `src/fruit.rs:20` and `src/fruit.rs:23` are commented "orange orange". Their emoji are the
  watermelon (U+1F349) and the melon (U+1F348), which name them here. `Other(c)` stands for any
  other character. The type does not stop `Other` from being applied to one of the eleven emoji,
  but no operation of the game builds such a value.
- `Catalogue` lists the symbols of `src/fruit.rs:57-58` in ascending code point order. For the
  four entries pineapple, red apple, green apple and pear at `src/fruit.rs:57` this order is
  chosen. The list's other entries follow it (grape, melon, watermelon, lemon first; peach,
  cherry, strawberry last), which suggests it but does not fix it.
- The two wrapped steps are specified twice. `Next`/`Prev` give an independent "ring
  successor/predecessor" definition. `WrapInc`/`WrapDec` and `MovePoint` follow the source
  through `Modulo`. Each method's `ensures` ties the two together.
- The collision check follows the code: the head is searched among `snake_body()` from index 1
  on, which skips the first segment. `NeckIsNeverUnderHead` shows that on grids of at least
  2×2 this first segment can never lie under the head, so skipping it changes nothing.
- Inherited behaviour is kept. A new fruit may appear under the snake, and the board then hides
  it behind the head or body (`BoardClassification`).
- `ReversalScenario` shows, from the contracts alone, that a 10×10 game facing Right turns a
  request for Left into Right and lands on (6, 5).

## Model

| member | source | states |
|---|---|---|
| `Directions.Opposite` | src/direction.rs:9-16 | the opposite is never the direction itself and lies on the same axis (Up/Down vertical, Left/Right horizontal) |
| `Directions.OppositeInvolutive` | src/direction.rs:9-16 | `opposite(opposite(d)) == d` for every direction |
| `Directions.OppositeBijective` | src/direction.rs:9-16 | `opposite` is injective and, being its own inverse, onto: a bijection of the four values |
| `Modular.Rem` | src/modulo.rs:6 | Rust's truncating remainder equals the Euclidean `x % n` for `x >= 0`, and `-((-x) % n)` (zero or negative) for `x < 0` |
| `Modular.RemShifted` | src/modulo.rs:6-11 | adding `n` to a negative truncating remainder gives the Euclidean remainder; an in-range `x` is its own remainder |
| `Modular.Modulo` | src/modulo.rs:5-12 | for `n > 0` the result lies in `[0, n)` for every integer `x`, negatives included; it equals the Euclidean `x % n` (so it is congruent to `x`), and it equals `x` when `x` is already in `[0, n)` |
| `Modular.ModuloOfMinusOne` | src/modulo.rs:3-4 | the documented example: the remainder of -1 by 10 is -1, while `modulo(-1, 10) == 9` |
| `Modular.NextPrevInverse` | src/modulo.rs:14-20 | on a ring of `n` cells the wrapped increment and decrement stay in range and undo each other |
| `Modular.WrapInc` | src/modulo.rs:14-16 | the new coordinate is `(x + 1) mod n`; from an in-range `x` it is `x + 1`, or `0` when `x == n - 1` |
| `Modular.WrapDec` | src/modulo.rs:18-20 | the new coordinate is `(x - 1) mod n`; from an in-range `x` it is `x - 1`, or `n - 1` when `x == 0` |
| `Points.Step` | src/point.rs:21-28 | a wrapped step from an in-range point stays in `[0, bounds.x) × [0, bounds.y)` |
| `Points.MovePoint` | src/point.rs:21-28 | Left/Right change only `x` and Up/Down only `y`, to the wrapped decrement/increment of that coordinate; an in-range point stays in range and moves exactly one wrapped step |
| `Points.StepKeepsOtherAxis` | src/point.rs:23-26 | a step leaves the other coordinate untouched and, on an axis at least 2 cells long, changes its own |
| `Points.StepWrapsAtEdges` | src/point.rs:23-26 | Right at `x = n - 1` lands on `x = 0`, Left at `x = 0` lands on `x = n - 1`; likewise Down and Up on `y` |
| `Points.StepOppositeRestores` | src/point.rs:21-28 | a step in `opposite(d)` after a step in `d` restores the original in-range point |
| `Points.RandomPoint` | src/point.rs:30-34 | for any two random integers and positive bounds, the point lies within bounds |
| `Points.RandomPointCoversGrid` | src/point.rs:30-34 | every cell of the grid is produced by some draw (the draw equal to it) |
| `Points.RandomPointPeriodic` | src/point.rs:30-34 | draws that differ by multiples of the bounds give the same point |
| `Snakes.Snake.constructor` | src/snake.rs:10-12 | a new snake has three steps, all Left, so it faces Right |
| `Snakes.Snake.Facing` | src/snake.rs:20-22 | defined only on a non-empty body; the facing direction is the one whose opposite is the first step |
| `Snakes.Snake.Grow` | src/snake.rs:17-19 | `opposite(d)` is pushed at the front; the length grows by exactly 1; the old body is kept whole as the suffix; the snake then faces `d`; length ≥ 3 is preserved |
| `Snakes.Snake.Crawl` | src/snake.rs:13-16 | the body becomes `[opposite(d)]` followed by the old body minus its last step; the length is unchanged; the snake then faces `d`; length ≥ 3 is preserved |
| `Fruits.Color` | src/fruit.rs:12-27 | every catalogued kind has a non-zero colour, and an unknown symbol has colour 0 |
| `Fruits.Lifetime` | src/fruit.rs:29-44 | every catalogued kind lives between 500 and 5000 ms; an unknown symbol gets 0 ms |
| `Fruits.LifetimeDistinguishesKinds` | src/fruit.rs:31-41 | no two catalogued kinds share a lifetime |
| `Fruits.NewFruit` | src/fruit.rs:47-53 | the fruit keeps its symbol, and its colour and lifetime are the ones the tables give for that symbol |
| `Fruits.WellFormedIsNewFruit` | src/fruit.rs:47-53 | a fruit whose colour and lifetime match its symbol is the one `Fruit::new` builds, so a fruit is determined by its symbol |
| `Fruits.CatalogueIsComplete` | src/fruit.rs:57-58 | the list drawn from holds 11 distinct symbols: exactly the catalogued kinds |
| `Fruits.RandomFruit` | src/fruit.rs:56-67 | the drawn fruit is a well-formed fruit of a catalogued symbol, so its colour is non-zero and its lifetime is 500 to 5000 ms, never the zero default |
| `Fruits.RandomFruitCoversCatalogue` | src/fruit.rs:56-67 | every catalogued kind can be drawn |
| `Games.BodyPositions` | src/game.rs:92-102 | the walk from the head yields exactly one position per step, all on the grid |
| `Games.BodyPositionsChain` | src/game.rs:92-102 | segment `k` is one wrapped step (by step `k`) from segment `k - 1`, and segment 0 is one step from the head |
| `Games.BodyPositionsPrefix` | src/game.rs:92-102 | walking a prefix of the steps yields the same prefix of the positions |
| `Games.GrowPositions` | src/game.rs:49-53 | after the head moves in `d` and the snake grows, the segments are the old head followed by all the old segments |
| `Games.CrawlPositions` | src/game.rs:54-56 | after the head moves in `d` and the snake crawls, the segments are the old head followed by the old segments minus the last one |
| `Games.NeckIsNeverUnderHead` | src/game.rs:57-61 | on grids of at least 2×2 the first segment is never under the head, so searching from index 1 and from index 0 agree |
| `Games.CellPointOfIndex` | src/game.rs:71-72 | on an n×n grid, index `y*n + x` is on the board and denotes the point `(x, y)` |
| `Games.IndexOfCellPoint` | src/game.rs:71-72 | on an n×n grid, every board index `i` denotes an in-range point `(i mod n, i div n)` whose index is `i` again |
| `Games.BoardAt` | src/game.rs:66-84 | the board has n·n cells and the cell at index `y*n + x` is the classification of `(x, y)` |
| `Games.BoardClassification` | src/game.rs:66-84 | exactly one cell shows the head, at the head's index; a cell shows body exactly when its point is a segment and not the head; the fruit shows at its index exactly when neither head nor body covers it |
| `Games.Game.constructor` | src/game.rs:25-32 | an n×n grid, head at `(n/2, n/2)`, the three-step snake facing Right, a random fruit at a random point, score 0 |
| `Games.Game.SpawnFruit` | src/game.rs:88-91 | the fruit and its position are replaced by the random draws; nothing else changes |
| `Games.Game.Refresh` | src/game.rs:36-40 | the fruit is replaced exactly when it is rotten; the snake, head and score never change |
| `Games.Game.SnakeBody` | src/game.rs:92-102 | the cursor walk returns exactly the walk of the steps from the head, `BodyPositions` |
| `Games.Game.ProcessInput` | src/game.rs:41-65 | reversal guard (a request for the opposite of the facing becomes the facing and is written back; the snake never turns back); the head moves one wrapped step in the effective direction and stays on the grid; the first segment is the old head; on a fruit hit the score rises by exactly the eaten fruit's value, the fruit is respawned and the body grows by one step (positions: old head + old positions), otherwise score, fruit and length are unchanged; score never decreases when fruit values are non-negative; the status is Dead exactly when the new head is among the segments from index 1, Fed exactly when a fruit was eaten and the snake is not dead, Hungry otherwise |
| `Games.Game.NCols` | src/game.rs:33-35 | the number of columns is positive and equals the number of rows (the grid is square); the constructor makes it `n` and nothing changes it afterwards |
| `Games.Game.Score` | src/game.rs:85-87 | the current score: 0 after the constructor, raised by exactly `scoreValue(old(fruit))` when `ProcessInput` eats the fruit, and otherwise unchanged by `ProcessInput`, `Refresh` and `SpawnFruit` |
| `Games.Game.Board` | src/game.rs:66-84 | the snapshot has `size.x * size.y` cells, and the only head cell is at the head's index; reading it changes nothing |

## Left out

- Terminal I/O is outside the engine and not modelled: rendering, raw mode, key mapping, the
  pause loop, frame pacing, the speed counter and choosing the grid size. src/main.rs is not
  part of this model.
- Real randomness is replaced by the parameters `rx`, `ry` and `k`. Uniformity of the draws is
  not modelled, only which values they can produce.
- Games.Game.Refresh: `rotten()` is not defined in src/fruit.rs and reads the wall clock, so
  `rotten` is an input. Monotonic rotting is not modelled.
- Games.Game.ProcessInput: `score_value()` is not defined in src/fruit.rs, so the fruit's value is
  an uninterpreted `scoreValue`. Score monotonicity is therefore stated only for non-negative
  values.
- Integer widths are not modelled: coordinates are `int` rather than `isize`, and the score is
  `int` rather than `i32`. Overflow of `x ± 1` and of the score is left out. The colour keeps its
  `u8` range.
- Modular.Modulo: requires `n > 0`. A zero modulus panics in the source, and the engine never
  passes a negative one.
- The board's cells are plain values `(glyph, fg, bg)`. Colour semantics and the display
  library's cell type are not modelled.
- The board maps index `i` to `(i mod size.x, i div size.y)`, as the source does. The game only
  builds square grids, so the board lemmas are stated for n×n grids.
