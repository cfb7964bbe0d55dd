# Snake game core, modelled in Dafny

This project models the game logic of a browser Snake game: a snake moves
on a wrapped (toroidal) grid, one cell per tick. It grows when it eats food,
and the game ends when its head runs into its own body. Every fifth point
shortens the tick interval by 10 ms, down to a floor of 50 ms. Direction
requests are buffered in a single pending slot, and a request that reverses
the committed direction is dropped. Around this core sit small pure
classifiers:

- the keyboard key-code mapping;
- the touch-swipe recogniser;
- the end-of-game score formula;
- two score-message ladders.

Modules, one per source file or concern:

- `Wrappers` (`wrappers.dfy`): `Option`, standing in for JavaScript `null`.
- `Geometry` (`geometry.dfy`): directions, cells, grid size from canvas size,
  JavaScript's truncating `%`, and the wrapping head move.
- `GameUtils` (`game_utils.dfy`): `gameUtils.ts`. Snake occupancy, food
  placement as a nondeterministic choice, the score formula and the score
  message.
- `SnakeGame` (`snake_game.dfy`): `useSnakeGame.tsx`. Session state, the
  direction buffer, one tick, reset, and the invariants of reachable states,
  proved over arbitrary runs.
- `MobileControls` (`mobile_controls.dfy`): swipe classification as a state
  machine over the recorded touch origin.
- `GameControls` (`game_controls.dfy`): key code to direction, and the
  `preventDefault` set.
- `GameOver` (`game_over.dfy`): the game-over message ladder.

Randomness is handled in two ways. The pure functions take the random values
as parameters: `Step` and `Reset` take the drawn food cell and the food kind.
The methods `RandomFoodPosition`, `Tick`, `ResetGame` and `ResetGameClear`
make the draw as a nondeterministic choice of any cell the rejection loop
could return. React's timers are replaced by one atomic transition per tick.
The "food collected" and "game over" callbacks become two output flags of
the tick.

## Model

| member | source | states |
|---|---|---|
| Geometry.Opposite | client/src/hooks/useSnakeGame.tsx:59-64 | the reverse of a direction differs from it and lies on the same axis |
| Geometry.GridOf | client/src/hooks/useSnakeGame.tsx:29-30 | the grid holds the whole 20-pixel cells that fit the canvas, rounded down; a negative canvas gives a negative grid |
| Geometry.JsRem | client/src/hooks/useSnakeGame.tsx:108-117 | the JavaScript remainder takes the dividend's sign whatever the divisor's sign, stays below the divisor in magnitude, and is the identity on (-n, n) and a subtraction of n on [n, 2n) |
| Geometry.MoveHead | client/src/hooks/useSnakeGame.tsx:103-119 | an in-grid head stays in the grid; exactly one coordinate moves by one step; right from the last column gives column 0, left from 0 gives the last column, and the same holds for rows |
| Geometry.MoveThenReverse | client/src/hooks/useSnakeGame.tsx:106-119 | moving back in the opposite direction undoes a move |
| Geometry.MoveLeavesCell | client/src/hooks/useSnakeGame.tsx:106-119 | on a grid at least 2x2 the head always leaves its cell |
| GameUtils.OnSnake | client/src/lib/utils/gameUtils.ts:28-33 | true exactly when some segment has both coordinates of the position |
| GameUtils.OnSnakeIsMembership | client/src/lib/utils/gameUtils.ts:28-33 | the occupancy test is sequence membership |
| GameUtils.Draw | client/src/lib/utils/gameUtils.ts:17-18 | `floor(u * n)` for a random u in [0, 1) lies in [0, n) for positive n, is exactly 0 for n = 0, and lies in [n, 0] for negative n |
| GameUtils.DrawCovers | client/src/lib/utils/gameUtils.ts:17-18 | every value in those bounds is produced by some random number, so the bounds are exact |
| GameUtils.DrawIsInGrid | client/src/lib/utils/gameUtils.ts:15-19 | on a non-empty grid the drawable cells are exactly the grid cells |
| GameUtils.EmptySnakeLeavesAllFree | client/src/lib/utils/gameUtils.ts:14-20 | with an empty snake every drawable cell is an acceptable result |
| GameUtils.RandomFoodPosition | client/src/lib/utils/gameUtils.ts:6-23 | the food is a drawable cell on no segment, provided some drawable cell is free; on a non-empty grid it lies in the grid, and on an empty or negative axis its coordinate is 0 or in [n, 0] |
| GameUtils.CalculateScore | client/src/lib/utils/gameUtils.ts:38-46 | the score lies between 10 per extra segment and that plus 100; it is exactly the base from 1,000,000 ms on, and base plus 100 at time 0 |
| GameUtils.CalculateScoreNonIncreasingInTime | client/src/lib/utils/gameUtils.ts:42-45 | waiting longer never raises the score |
| GameUtils.ReachedMonotone | client/src/lib/utils/gameUtils.ts:51-65 | the number of ladder thresholds reached never falls as the score grows |
| GameUtils.ScoreMessage | client/src/lib/utils/gameUtils.ts:51-65 | every score gets one of the six messages |
| GameUtils.ScoreMessageIsTier | client/src/lib/utils/gameUtils.ts:51-65 | the message is the one at the number of thresholds 1, 50, 100, 200, 500 the score reaches |
| GameUtils.ScoreMessageMonotone | client/src/lib/utils/gameUtils.ts:51-65 | a higher score never gets a lower-tier message |
| GameOver.GameOverMessage | client/src/components/Game/GameOver.tsx:12-27 | 0 gives "Better luck next time!", 1..9 "Good effort!", 10..19 "Well played!", 20..29 "Impressive!", 30..49 "Amazing!", 50 and more the master message, each in both directions |
| GameOver.GameOverMessageIsTier | client/src/components/Game/GameOver.tsx:12-27 | the message is the one at the number of thresholds 1, 10, 20, 30, 50 the score reaches |
| GameOver.GameOverMessageMonotone | client/src/components/Game/GameOver.tsx:12-27 | the classification is total and its tier never decreases as the score grows |
| GameOver.GameOverTierAtLeastScoreTier | client/src/components/Game/GameOver.tsx:12-27 | the game-over tier is never below the score-message tier; the two messages agree exactly below 10 and from 500 on |
| GameControls.HandleKeyDown | client/src/components/Game/GameControls.tsx:17-43 | ArrowUp/KeyW give up, ArrowDown/KeyS down, ArrowLeft/KeyA left, ArrowRight/KeyD right, anything else nothing; the default action is prevented exactly when a direction is emitted, that is, for the eight listed codes |
| GameControls.KeysForIsPair | client/src/components/Game/GameControls.tsx:25-41 | each direction has exactly two distinct keys |
| GameControls.HandledCodesArePrevented | client/src/components/Game/GameControls.tsx:21-42 | a code has a direction exactly when it is in the prevent-default list |
| MobileControls.Classify | client/src/components/Game/MobileControls.tsx:35-68 | right iff dx dominates strictly and exceeds 30; left iff -dx does; down iff dy dominates or ties and exceeds 30; up likewise for -dy; nothing iff both magnitudes are at most 30 |
| MobileControls.HandleTouch | client/src/components/Game/MobileControls.tsx:19-69 | a start always overwrites the origin; a move without an origin does nothing; a fired swipe clears the origin, and a move below the threshold keeps it |
| MobileControls.MovesWithoutOriginEmitNothing | client/src/components/Game/MobileControls.tsx:25-26 | with no recorded start, any number of moves emit nothing |
| MobileControls.AtMostOneSwipePerTouch | client/src/components/Game/MobileControls.tsx:44-67 | the moves that follow one touch-start emit at most one direction |
| MobileControls.ShortMovesKeepOrigin | client/src/components/Game/MobileControls.tsx:26-58 | after moves below the threshold, the next move is classified from the touch-start point |
| SnakeGame.Initial | client/src/hooks/useSnakeGame.tsx:33-42 | the session starts as a one-cell snake at the centre of the first render's grid, heading right, score 0, speed 200, with no food |
| SnakeGame.AppStartsAtOrigin | client/src/hooks/useSnakeGame.tsx:33-35 | the first render's grid in the app is 0x0, so the snake starts at (0, 0) and not at the measured grid's centre, (15, 10) on a 30x20 grid |
| SnakeGame.PlaceInitialFood | client/src/hooks/useSnakeGame.tsx:46-52 | on a non-empty grid with no food, the drawn cell and kind are installed, and nothing else changes |
| SnakeGame.InitialIsValid | client/src/hooks/useSnakeGame.tsx:33-52 | the first state with food on the measured grid satisfies every invariant, with the food off the snake, whenever the mount-time centre lies in that grid |
| SnakeGame.AppStartIsValid | client/src/hooks/useSnakeGame.tsx:33-52 | the app's actual start, a snake at (0, 0) with food drawn off it, is valid on every measured grid |
| SnakeGame.CentredStartIsValid | client/src/hooks/useSnakeGame.tsx:33-52 | a start centred on the measured grid is in that grid and valid |
| SnakeGame.StartGame | client/src/hooks/useSnakeGame.tsx:46-52 | the first food placement draws a cell in the grid and off the snake, and sets nothing else |
| SnakeGame.ChangeDirection | client/src/hooks/useSnakeGame.tsx:55-71 | only the pending direction can change; it becomes the request unless the request reverses the committed direction |
| SnakeGame.ReversalIsDropped | client/src/hooks/useSnakeGame.tsx:59-67 | reversing the committed direction leaves the state unchanged, even when a turn is pending |
| SnakeGame.LastRequestWins | client/src/hooks/useSnakeGame.tsx:69-70 | of two requests before a tick, an accepted later one overwrites the earlier one |
| SnakeGame.ChangeDirectionKeepsValid | client/src/hooks/useSnakeGame.tsx:55-71 | requests keep every invariant; the pending direction never reverses the committed one |
| SnakeGame.NegativeGridStillRuns | client/src/hooks/useSnakeGame.tsx:93 | the loop guard stops ticks only for an empty axis; a negative grid, from a canvas narrower than zero, still ticks |
| SnakeGame.SpeedAfterEating | client/src/hooks/useSnakeGame.tsx:150-159 | on a positive multiple of 5 the interval becomes max(speed - 10, 50); otherwise it is unchanged |
| SnakeGame.Step | client/src/hooks/useSnakeGame.tsx:93-175 | no tick while the game is over or a grid dimension is 0; the pending direction is committed, on the last tick too; a body hit at index > 0, the tail included, ends the game with the snake unchanged; landing on the food grows the snake to head + old snake, adds a point and installs the drawn food; otherwise the head advances and the tail is dropped |
| SnakeGame.StepIgnoresDrawUnlessEating | client/src/hooks/useSnakeGame.tsx:143-171 | only an eating tick consumes a food draw |
| SnakeGame.Tick | client/src/hooks/useSnakeGame.tsx:98-175 | a tick eats exactly when its head lands on the food, and then the new food is off the grown snake |
| SnakeGame.StepKeepsValid | client/src/hooks/useSnakeGame.tsx:98-175 | a tick keeps the snake non-empty, in the grid and linked cell to cell, the score equal to length minus 1, the speed on its score schedule, the pending direction not reversing, and the food in the grid |
| SnakeGame.StepKeepsFoodClear | client/src/hooks/useSnakeGame.tsx:143-174 | a tick keeps the food off the snake |
| SnakeGame.StepKeepsDistinct | client/src/hooks/useSnakeGame.tsx:121-174 | on a grid at least 2x2 a tick keeps all segments in distinct cells |
| SnakeGame.NoReversal | client/src/hooks/useSnakeGame.tsx:100-106 | the newly committed direction is never the reverse of the previous one |
| SnakeGame.GameOverIsFinal | client/src/hooks/useSnakeGame.tsx:93-141 | after the game-over tick, further ticks change nothing and signal nothing |
| SnakeGame.SpeedForScore | client/src/hooks/useSnakeGame.tsx:150-159 | the interval schedule of a fresh game stays within [50, 200] |
| SnakeGame.SpeedForScoreNonIncreasing | client/src/hooks/useSnakeGame.tsx:150-159 | the interval never grows as the score grows |
| SnakeGame.SpeedAfterEatingFollowsScore | client/src/hooks/useSnakeGame.tsx:150-159 | one eating tick moves the speed exactly one step along the score schedule |
| SnakeGame.SpeedBounds | client/src/hooks/useSnakeGame.tsx:150-159 | in a valid state the interval lies in [50, 200] |
| SnakeGame.SpeedMilestones | client/src/hooks/useSnakeGame.tsx:154-155 | four points keep 200 ms, five give 190 ms, and from 75 points on the interval is the 50 ms floor |
| SnakeGame.RunKeepsValid | client/src/hooks/useSnakeGame.tsx:55-175 | over any run of requests and ticks, all invariants hold forever: the snake stays non-empty, the speed stays in [50, 200], the food stays off the snake, and on a grid at least 2x2 the segments stay distinct |
| SnakeGame.Reset | client/src/hooks/useSnakeGame.tsx:74-89 | reset gives a centred one-cell snake, direction and pending direction right, score 0, speed 200, not over, and the drawn food |
| SnakeGame.ResetGame | client/src/hooks/useSnakeGame.tsx:74-89 | with the reset's empty exclusion list, the only food guarantee is that it lies in the grid |
| SnakeGame.ResetIsValid | client/src/hooks/useSnakeGame.tsx:74-89 | the reset state satisfies every invariant except, possibly, food off the snake |
| SnakeGame.ResetMayPlaceFoodOnSnake | client/src/hooks/useSnakeGame.tsx:82 | on a 5x5 grid the reset may put the food on the snake's only cell |
| SnakeGame.ResetGameClear | client/src/hooks/useSnakeGame.tsx:79-82 | a reset whose draw excludes the new snake puts the food off the centre cell |
| SnakeGame.ResetClearIsValid | client/src/hooks/useSnakeGame.tsx:79-82 | the reset with the corrected draw satisfies every invariant, food off the snake included |
| SnakeGame.EatScenario | client/src/hooks/useSnakeGame.tsx:143-170 | on 5x5, the snake [(2,2)] heading right onto food at (3,2) becomes [(3,2),(2,2)] with score 1 |
| SnakeGame.WrapScenario | client/src/hooks/useSnakeGame.tsx:116-174 | on 5x5, the snake [(4,2),(3,2)] heading right becomes [(0,2),(4,2)] |

## Left out

- Canvas drawing, the eye and food geometry, window sizing and mobile detection. These are pixel and DOM work.
- The high score in `localStorage`, audio through Howler, and the start, score and game-over screens. These are browser I/O and markup.
- React timer wiring: `setInterval` and `clearInterval`, the interval recreated when its dependencies change, and the `setTimeout`-deferred callbacks. A tick is one atomic transition. A new speed taking effect at the next interval is not modelled.
- React's stale closures: `changeDirection` and the tick read `direction`, `nextDirection` and `food` as of the last render. The model reads the current state.
- `console.log` calls.
- The on-screen arrow buttons of both control components. They pass a fixed direction straight to the direction request.
- Direction strings. The source passes directions as strings. Every producer emits one of the four literals, so `Direction` has four values. The tick's `switch` would leave the head in place for any other string, and that case is not modelled.
- Walls. The start screen mentions them, but the grid wraps and no wall collision exists.
- `Math.random`. The pure functions take the drawn cell and food kind as parameters, and the methods choose nondeterministically.
- GameUtils.RandomFoodPosition: states the set of possible results, not the uniform distribution.
- GameUtils.RandomFoodPosition: the model needs a free cell. When the snake covers the grid, the rejection loop never returns.
- SnakeGame.Tick: on an eating tick, the grown snake must leave a cell free, for the same reason.
- SnakeGame.Step: needs a non-empty snake. The source reads `prevSnake[0]`, and no reachable state has an empty snake (`RunKeepsValid`).
- GameUtils.ScoreMessage: takes scores as `nat`. The source accepts any number, but scores are counts of food eaten.
- GameOver.GameOverMessage: takes scores as `nat`, for the same reason.
- GameUtils.CalculateScore: uses exact reals for the time and the bonus. Binary floating-point rounding is not modelled.
- Configuration errors. The code does not refuse a degenerate grid, and the model follows the code. On an empty axis the game loop never runs (line 93), but the reset still installs a snake and food at coordinate 0. A negative axis gets past that guard and ticks (`NegativeGridStillRuns`).
- GameUtils.Draw: uses exact reals for `Math.random() * n`. Double rounding is not modelled.
- MobileControls.Classify: uses exact reals for touch coordinates and their differences. JavaScript subtracts doubles, and rounding could move a difference across the 30-pixel threshold or the |dx| = |dy| tie.
- MobileControls.HandleTouch: uses exact reals too, for the same reason.
- SnakeGame.RunKeepsValid: covers non-empty grids only and takes the grid as fixed once measured. A window resize re-measures the canvas mid-game, and the snake can then lie outside the new grid. On a negative grid only the per-tick contract of `Step` holds.
- SnakeGame.Initial: the grid of the first render is a parameter. The app's 0x0 first render is stated by `AppStartsAtOrigin`, not built into `Initial`.

## Findings

| source | as written | input that shows it | evidently intended | confidence | as-written member | corrected member |
|---|---|---|---|---|---|---|
| client/src/hooks/useSnakeGame.tsx:34 | the start cell is the centre of the first render's grid, and the only caller first renders with a 0x0 canvas | any window: the snake starts at (0, 0) of the measured grid, e.g. a 30x20 grid whose centre is (15, 10) | centre the snake on the measured grid | low, not executed | SnakeGame.AppStartsAtOrigin | SnakeGame.CentredStartIsValid |
| client/src/hooks/useSnakeGame.tsx:82 | reset draws the food with an empty exclusion list | 5x5 grid: the draw (2,2) is accepted, and the food sits under the snake's only cell (2,2) | exclude the new one-cell snake, as the first placement at line 49 excludes the snake | medium, not executed | SnakeGame.ResetMayPlaceFoodOnSnake | SnakeGame.ResetClearIsValid |

The session component never calls the reset: a restart remounts the
component, which goes through the first placement instead. The corrected
reset (`ResetGameClear`) is the one whose result satisfies `FoodClear`,
which `RunKeepsValid` needs.
