# Snake game-state engine, in Dafny

This project models the rules engine of a grid snake game: the `Snake` class
of `packages/core/src/snake.ts`. The engine owns the board size, the snake's
body (head first), the apples, the current velocity and a Running/Dead state.
Its one mutating operation, `tick(input)`, checks the input, steers, tests
for a collision with the body and then with the edge, and commits the move:
the snake either eats an apple, which `getValidApplePosition` replaces by
rejection sampling, or drops its tail.

Layout:

- `geometry.dfy` (module `Geometry`): positions, bounds, distinctness,
  `findIndex` (`IndexOf`) and `splice(i, 1)` (`RemoveAt`).
- `board.dfy` (module `Board`): the set of board cells and its size, and the
  pigeonhole facts that decide whether a free cell exists.
- `random.dfy` (module `Random`): `Math.random()` as a stream of reals in
  `[0, 1)`, `Math.floor(r * n)` as `Scale`, and the fairness hypothesis under
  which rejection sampling ends.
- `rules.dfy` (module `Rules`): one tick as a function `Step` on a `Game`
  value, the invariant `Inv`, and the lemmas about them.
- `snake.dfy` (module `SnakeCore`): the class `Snake` with the source's
  fields, the constructor, `Tick` and `GetValidApplePosition`. `Tick` and its
  helper `Move` are proved against `Rules.Step`; the class invariant
  `Valid()` is `Rules.Inv` of the fields.
- `scenarios.dfy` (module `Scenarios`): small boards worked through the
  rules, and one run through the class.

Points where the code behaves in a way worth noting:

- The state has two values, `Running` and `Dead`, as
  `packages/core/src/snake.ts:6-9` declares. There is no state-change callback.
- Leaving the board kills the snake without adding the head to the body. A
  self-collision adds the fatal head, so it appears twice.
- Neither the board size nor the apple count is validated.
- When the snake eats and no cell is free, the replacement apple is not
  simply skipped. `getValidApplePosition` loops forever. `Tick` reports this
  as `NoFreeCell` and leaves the fields as they are when that loop starts.
  `Scenarios.FullBoardStalls` shows a 3 by 1 board with two apples that
  reaches this on its first tick.
- The bound "segments plus apples never exceed the board" holds for running
  states (`Rules.CountBound`). Right after a self-collision on a full board,
  the doubled head makes the sum one more than the board.

The random source is a parameter: a `RandomSource` object whose fixed stream
`value` stands for the numbers `Math.random()` returns. Rejection sampling
ends only if some draw hits a free cell. `RandomSource.Fair` states this as a
hypothesis: from any point on, every board cell is drawn again. A uniform
source has this property with probability one. The constructor and `Tick`
require it.

## Model

| member | source | states |
|---|---|---|
| `Geometry.IndexOf` | packages/core/src/snake.ts:71 | `findIndex` on a hit: an index holding the element, with no earlier index holding it |
| `Geometry.RemoveAt` | packages/core/src/snake.ts:73 | `splice(i, 1)` removes exactly one occurrence of the `i`-th element: the multiset loses that one element |
| `Geometry.RemoveAtDistinct` | packages/core/src/snake.ts:73 | removing an apple from a list without repeats leaves a list without repeats that no longer holds it and holds nothing new |
| `Rules.Center` | packages/core/src/snake.ts:24-27 | the start cell is `(floor(w/2), floor(h/2))`: twice it is at most the size and within two of it, and it lies on any board of positive size |
| `Rules.InitialInv` | packages/core/src/snake.ts:20-28 | the starting state is a one-segment snake at the centre with velocity `(1,0)`, and it satisfies the invariant |
| `Rules.ValidInput` | packages/core/src/snake.ts:44-45 | an input passes both checks exactly when it is zero or an axis unit vector |
| `Rules.Steer` | packages/core/src/snake.ts:47-50 | the new velocity is the old one or the input; it is never the reverse of a unit velocity; it stays a unit vector for a valid input; a nonzero input that is not a reversal is taken |
| `Rules.RejectsExactlyInvalid` | packages/core/src/snake.ts:41-45 | a tick yields no state (it throws) exactly when the engine runs and the input is diagonal or has a component beyond magnitude 1 |
| `Rules.DeadIsFinal` | packages/core/src/snake.ts:38 | a tick on a dead engine returns it unchanged |
| `Rules.HitSelfInv` | packages/core/src/snake.ts:59-62 | a self-collision keeps the invariant: body on the board, the rest of the body without repeats, the head doubled, apples untouched |
| `Rules.Classify` | packages/core/src/snake.ts:59-72 | the move hits the body exactly when the next head is a segment; it hits the wall exactly when the head is not a segment and off the board; it eats exactly when the head is not a segment, on the board and an apple |
| `Rules.Advance` | packages/core/src/snake.ts:53-77 | a move keeps board size and velocity and a nonempty body; leaving the board keeps the body and kills; every other move puts the next head in front; only eating changes the apples |
| `Rules.Step` | packages/core/src/snake.ts:36-78 | a tick keeps the board size and a nonempty body and never brings a dead engine back to running; its cases are stated by `Rules.DeadIsFinal`, `Rules.RejectsExactlyInvalid`, `Rules.HitSelfKills`, `Rules.LeavingBoardKills`, `Rules.EatMoves` and `Rules.SlideMoves` |
| `Rules.HitSelfKills` | packages/core/src/snake.ts:47-62 | a valid tick whose next head is a segment yields the state with the steered velocity, the fatal head in front of the whole body, the apples untouched and the engine dead |
| `Rules.LeavingBoardKills` | packages/core/src/snake.ts:47-65 | a valid tick whose next head is not a segment and off the board yields the state with the steered velocity, body and apples untouched and the engine dead |
| `Rules.EatMoves` | packages/core/src/snake.ts:67-74 | a tick that eats keeps the engine running, puts the head, which was an apple, in front of the whole body, and replaces that apple in the apple multiset by the placed one |
| `Rules.EatenInv` | packages/core/src/snake.ts:67-73 | eating keeps the invariant before placement, with one more segment and one apple fewer |
| `Rules.PlaceInv` | packages/core/src/snake.ts:74 | appending an apple on a free cell keeps the invariant |
| `Rules.SlideInv` | packages/core/src/snake.ts:67-77 | a move onto an empty cell keeps the invariant |
| `Rules.StepPreservesInv` | packages/core/src/snake.ts:36-78 | every tick that yields a state keeps the invariant (body in bounds, no repeats while running, apples in bounds, distinct and off the body), for any input, given a replacement apple on a free cell |
| `Rules.DeathOutcomes` | packages/core/src/snake.ts:59-65 | a killing tick either puts the fatal head, which already is a segment, in front of the body, or leaves body and apples as they were because the head left the board; the body test comes first |
| `Rules.GrowthLaw` | packages/core/src/snake.ts:67-77 | a tick that keeps the snake alive lengthens it by one exactly when it eats, and the apple count stays the same |
| `Rules.SlideMoves` | packages/core/src/snake.ts:54-77 | a tick that neither eats nor kills puts the head one velocity step ahead and keeps the old body minus its last segment |
| `Rules.CountBound` | packages/core/src/snake.ts:59-77 | in a running state, segments plus apples never exceed the board's cells |
| `Rules.MealRoom` | packages/core/src/snake.ts:71-74 | when a tick eats, the state before placement satisfies the invariant and has a free cell exactly when the board is not full |
| `Board.FreeCellExists` | packages/core/src/snake.ts:80-89 | fewer segments and apples than cells, all on the board and apart, leave a free cell |
| `Board.BoardFull` | packages/core/src/snake.ts:80-89 | as many segments and apples as cells leave no free cell |
| `Random.ScaleInRange` | packages/core/src/snake.ts:84-85 | `Math.floor(Math.random() * n)` lies in `[0, n)` |
| `Random.RandomSource.DrawnInBounds` | packages/core/src/snake.ts:83-86 | each sampled position lies on the board |
| `Random.RandomSource.Next` | packages/core/src/snake.ts:84-85 | `Math.random()` hands out the next number of the stream, in `[0, 1)` |
| `SnakeCore.Snake.constructor` | packages/core/src/snake.ts:20-34 | a running engine on the given board, snake at the centre, velocity `(1,0)`, `apples` apples (none if negative), and the invariant holds, so the apples are distinct, on the board and off the snake |
| `SnakeCore.Snake.GetValidApplePosition` | packages/core/src/snake.ts:80-89 | the sampling loop ends, under the fairness hypothesis and with a free cell on the board, at a cell on the board that is neither a segment nor an apple, and it changes nothing but the random source |
| `SnakeCore.Snake.Tick` | packages/core/src/snake.ts:36-78 | no change once dead; the input error exactly for a bad input, with nothing changed; otherwise the new fields are `Rules.Step` of the old ones, with the replacement apple on a free cell; `NoFreeCell` only when the board is full after eating; the invariant is kept |
| `SnakeCore.Snake.Move` | packages/core/src/snake.ts:53-77 | the collision tests and the move of a running tick are `Rules.Advance` of the steered state |
| `Scenarios.RunsOffTheEdge` | packages/core/src/snake.ts:54-65 | on a 5 by 5 board the snake goes from (2,2) to (3,2) and (4,2), then dies at the edge with length one, then stays unchanged |
| `Scenarios.ReversalIgnored` | packages/core/src/snake.ts:47-50 | input `(-1,0)` while heading `(1,0)` keeps the heading |
| `Scenarios.DiagonalRefused` | packages/core/src/snake.ts:44 | input `(1,1)` is refused while running |
| `Scenarios.EatsAndGrows` | packages/core/src/snake.ts:67-74 | on a 3 by 3 board the head moves from (1,2) onto the apple at (2,2), the snake grows to two segments, the apple is replaced, and a free cell exists |
| `Scenarios.TailCountsAsBody` | packages/core/src/snake.ts:59-61 | turning into the tail's cell kills, with the head doubled in front |
| `Scenarios.FullBoardStalls` | packages/core/src/snake.ts:72-74 | a valid 3 by 1 game with two apples eats on its first tick and leaves no free cell for the replacement |

## Left out

- Rounding of inputs (`Math.round`, `packages/core/src/snake.ts:42-43`): inputs are integers, so rounding them is the identity. NaN, infinities and fractions are not modelled.
- Rounding the caller's input object in place, and `snakeVelocity` keeping a reference to that object (`packages/core/src/snake.ts:42-43, 50`): the model uses values, so there is no aliasing.
- Floating point in `Math.floor(Math.random() * n)`: the product is exact in the model. No rounding of the float product up to `n` is modelled.
- Termination of rejection sampling: it is not derived from randomness. It follows from the `RandomSource.Fair` hypothesis, which a uniform source satisfies with probability one. The distribution of apple positions is not modelled.
- SnakeCore.Snake.constructor: requires a board of at least 1 by 1 with integer sizes. The code accepts anything, but the invariant means nothing on an empty board.
- SnakeCore.Snake.constructor: requires fewer apples than board cells. With more, `getValidApplePosition` never returns, so construction never finishes. Fractional apple counts are not modelled.
- SnakeCore.Snake.Tick: a state that reached `NoFreeCell` is one the code never leaves, since its loop spins forever. The model does not stop the caller from ticking it again.
- The front ends (`packages/frontend-cli/src/entry.ts`, `packages/frontend-web/src/*`, and the bundled `packages/frontend-web/public/assets/scripts/web.js`, whose engine part is a compiled copy of `snake.ts`): terminal and canvas drawing, keyboard input, timers and skins. They are outside the engine.
- The `DeadByBody`/`DeadByOutOfBounds` states and the state callback imported by `packages/frontend-web/src/WebSnake.ts:1`: they belong to an engine revision that is not part of this model.
