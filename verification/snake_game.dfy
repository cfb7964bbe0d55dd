/** The game session of the snake hook: state, the pending-direction
    buffer, one tick of the game loop, reset, and the invariants every
    reachable state keeps. Timers are gone: one tick is one transition,
    and the "food collected" and "game over" callbacks are output flags.
    Random values (the food cell, the food kind) are parameters of the
    pure functions and nondeterministic choices in the methods. */
module SnakeGame {

  import opened Wrappers
  import opened Geometry
  import opened GameUtils

  /** Tick interval of a fresh game, in milliseconds. */
  const InitialSpeed: int := 200
  /** How much the interval shrinks at each speed-up. */
  const SpeedDecrement: int := 10
  /** The interval never goes below this. */
  const MinSpeed: int := 50
  /** A speed-up happens every this many points. */
  const PointsPerSpeedUp: nat := 5

  /** One of the four food pictures; purely cosmetic. */
  type FoodKind = k: int | 0 <= k < 4

  datatype State = State(
    snake: seq<Cell>,          // head first
    food: Option<Cell>,        // None until the first food is placed
    foodKind: FoodKind,
    direction: Direction,      // committed at the last tick
    nextDirection: Direction,  // pending, committed at the next tick
    gameOver: bool,
    score: nat,
    speed: int                 // tick interval in milliseconds
  )

  /** The outcome of one tick: the new state and the two one-shot signals. */
  datatype TickResult = TickResult(state: State, foodCollected: bool, gameOverSignal: bool)

  /** The middle cell, each coordinate halved and rounded down. */
  function Center(g: Grid): (c: Cell)
    ensures 2 * c.x <= g.width < 2 * c.x + 2
    ensures 2 * c.y <= g.height < 2 * c.y + 2
  {
    Cell(g.width / 2, g.height / 2)
  }

  /** The state the hook starts with, before any food is placed. The snake
      is centred on the grid of the FIRST render (`mount`), which the state
      keeps even after the canvas is measured and the grid changes. */
  function Initial(mount: Grid): (s: State)
    ensures s.snake == [Center(mount)] && s.food == None
    ensures s.direction == Right && s.nextDirection == Right
    ensures s.score == 0 && s.speed == InitialSpeed && !s.gameOver
    ensures mount.width > 0 && mount.height > 0 ==> InGrid(mount, s.snake[0])
  {
    State([Center(mount)], None, 0, Right, Right, false, 0, InitialSpeed)
  }

  /** The canvas the session component measures only after its first
      render, which is therefore a 0x0 canvas. */
  function MountGrid(): Grid {
    GridOf(0, 0)
  }

  /** In the app the snake starts at the corner (0, 0) of the measured grid,
      not at its centre: on a 30x20 grid the centre is (15, 10). */
  lemma AppStartsAtOrigin()
    ensures Initial(MountGrid()).snake == [Cell(0, 0)]
    ensures Center(Grid(30, 20)) == Cell(15, 10)
  {
  }

  /** The first food placement: on a non-empty grid with no food yet, place
      the drawn cell (the draw excludes the current snake). */
  function PlaceInitialFood(g: Grid, s: State, draw: Cell, kind: FoodKind): (r: State)
    ensures r.(food := s.food, foodKind := s.foodKind) == s
    ensures g.width > 0 && g.height > 0 && s.food.None? ==> r.food == Some(draw) && r.foodKind == kind
    ensures !(g.width > 0 && g.height > 0 && s.food.None?) ==> r == s
  {
    if g.width > 0 && g.height > 0 && s.food.None? then s.(food := Some(draw), foodKind := kind)
    else s
  }

  /** A direction request: dropped when it reverses the COMMITTED direction,
      otherwise it overwrites the pending one. */
  function ChangeDirection(s: State, d: Direction): (r: State)
    ensures r.(nextDirection := s.nextDirection) == s
    ensures r.nextDirection == d <==> d != Opposite(s.direction) || s.nextDirection == d
    ensures r.nextDirection != d ==> r.nextDirection == s.nextDirection
  {
    if d == Opposite(s.direction) then s else s.(nextDirection := d)
  }

  /** The game loop only runs while the game is on and the grid is non-empty. */
  predicate Running(g: Grid, s: State) {
    !s.gameOver && g.width != 0 && g.height != 0
  }

  /** The guard only catches an EMPTY axis: on the grid of a canvas narrower
      than one cell the other way (negative), the loop still runs. */
  lemma NegativeGridStillRuns(s: State)
    requires !s.gameOver
    ensures GridOf(-20, 400) == Grid(-1, 20)
    ensures Running(GridOf(-20, 400), s)
    ensures !Running(GridOf(0, 400), s)
  {
  }

  /** The interval after the score has become `newScore` by eating. */
  function SpeedAfterEating(speed: int, newScore: nat): (r: int)
    ensures newScore % PointsPerSpeedUp == 0 && newScore > 0 ==>
      && r >= MinSpeed && r >= speed - SpeedDecrement
      && (r == MinSpeed || r == speed - SpeedDecrement)
    ensures !(newScore % PointsPerSpeedUp == 0 && newScore > 0) ==> r == speed
  {
    if newScore % PointsPerSpeedUp == 0 && newScore > 0 then
      if speed - SpeedDecrement >= MinSpeed then speed - SpeedDecrement else MinSpeed
    else speed
  }

  /** One tick of the game loop. `draw` and `kind` are the values the food
      draw would produce; they are used only when the snake eats. */
  function Step(g: Grid, s: State, draw: Cell, kind: FoodKind): (r: TickResult)
    requires |s.snake| > 0
    ensures !Running(g, s) ==> r == TickResult(s, false, false)
    ensures !(r.foodCollected && r.gameOverSignal)
    ensures Running(g, s) ==>
      r.state.direction == s.nextDirection && r.state.nextDirection == s.nextDirection
    // self-collision: the new head meets a segment other than the old head
    ensures r.gameOverSignal <==>
      Running(g, s) && OnSnake(MoveHead(g, s.snake[0], s.nextDirection), s.snake[1..])
    ensures r.gameOverSignal ==>
      r.state == s.(direction := s.nextDirection, gameOver := true)
    // eating: the new head lands exactly on the food
    ensures r.foodCollected <==>
      Running(g, s) && !r.gameOverSignal && s.food == Some(MoveHead(g, s.snake[0], s.nextDirection))
    ensures r.foodCollected ==>
      && r.state.snake == [MoveHead(g, s.snake[0], s.nextDirection)] + s.snake
      && r.state.score == s.score + 1
      && r.state.speed == SpeedAfterEating(s.speed, s.score + 1)
      && r.state.food == Some(draw) && r.state.foodKind == kind
      && !r.state.gameOver
    // plain move: the head advances and the old tail is dropped
    ensures Running(g, s) && !r.gameOverSignal && !r.foodCollected ==>
      && r.state.snake == [MoveHead(g, s.snake[0], s.nextDirection)] + s.snake[..|s.snake| - 1]
      && r.state == s.(snake := r.state.snake, direction := s.nextDirection)
    ensures |r.state.snake| > 0
  {
    if !Running(g, s) then TickResult(s, false, false)
    else
      var head := MoveHead(g, s.snake[0], s.nextDirection);
      var committed := s.(direction := s.nextDirection);
      if OnSnake(head, s.snake[1..]) then
        TickResult(committed.(gameOver := true), false, true)
      else if s.food == Some(head) then
        var newScore := s.score + 1;
        TickResult(
          committed.(snake := [head] + s.snake, score := newScore,
                     speed := SpeedAfterEating(s.speed, newScore),
                     food := Some(draw), foodKind := kind),
          true, false)
      else
        TickResult(committed.(snake := [head] + s.snake[..|s.snake| - 1]), false, false)
  }

  /** Whether this tick eats, i.e. whether it consumes a food draw. */
  predicate Eats(g: Grid, s: State)
    requires |s.snake| > 0
  {
    Running(g, s)
    && !OnSnake(MoveHead(g, s.snake[0], s.nextDirection), s.snake[1..])
    && s.food == Some(MoveHead(g, s.snake[0], s.nextDirection))
  }

  /** The snake an eating tick grows into (the exclusion list of the draw). */
  function Grown(g: Grid, s: State): seq<Cell>
    requires |s.snake| > 0 && g.width != 0 && g.height != 0
  {
    [MoveHead(g, s.snake[0], s.nextDirection)] + s.snake
  }

  /** The draw matters only on an eating tick. */
  lemma StepIgnoresDrawUnlessEating(g: Grid, s: State, d1: Cell, k1: FoodKind, d2: Cell, k2: FoodKind)
    requires |s.snake| > 0
    requires !Eats(g, s)
    ensures Step(g, s, d1, k1) == Step(g, s, d2, k2)
    ensures !Step(g, s, d1, k1).foodCollected
  {
  }

  /** One tick with the food drawn at random from the cells free of the
      grown snake. On an eating tick the grown snake must leave a drawable
      cell free: otherwise the rejection loop of the draw never returns. */
  method Tick(g: Grid, s: State) returns (r: TickResult)
    requires |s.snake| > 0
    requires Eats(g, s) ==> HasFreeCell(g, Grown(g, s))
    ensures r.foodCollected <==> Eats(g, s)
    ensures r.foodCollected ==>
      r.state.food.Some? && IsFoodDraw(g, r.state.snake, r.state.food.value)
      && r == Step(g, s, r.state.food.value, r.state.foodKind)
    ensures !r.foodCollected ==> r == Step(g, s, Cell(0, 0), 0)
  {
    if Eats(g, s) {
      var draw := RandomFoodPosition(g, Grown(g, s));
      var kind: FoodKind :| 0 <= kind < 4;
      r := Step(g, s, draw, kind);
    } else {
      r := Step(g, s, Cell(0, 0), 0);
    }
  }

  /** The reset: single-cell snake in the centre, heading right, score 0,
      initial speed, and the drawn food. */
  function Reset(g: Grid, draw: Cell, kind: FoodKind): (s: State)
    ensures s.snake == [Center(g)]
    ensures s.direction == Right && s.nextDirection == Right
    ensures s.score == 0 && s.speed == InitialSpeed && !s.gameOver
    ensures s.food == Some(draw) && s.foodKind == kind
    ensures g.width > 0 && g.height > 0 ==> s == PlaceInitialFood(g, Initial(g), draw, kind)
  {
    State([Center(g)], Some(draw), kind, Right, Right, false, 0, InitialSpeed)
  }

  /** Reset as written: the food draw excludes nothing, so the food may land
      on the new snake's only cell. */
  method ResetGame(g: Grid) returns (s: State)
    ensures s.snake == [Center(g)] && s.score == 0 && s.speed == InitialSpeed
    ensures s.direction == Right && s.nextDirection == Right && !s.gameOver
    ensures s.food.Some?
    ensures g.width > 0 && g.height > 0 ==> InGrid(g, s.food.value)
  {
    EmptySnakeLeavesAllFree(g, Cell(0, 0));
    var draw := RandomFoodPosition(g, []);
    var kind: FoodKind :| 0 <= kind < 4;
    s := Reset(g, draw, kind);
  }

  /** Reset with the food draw excluding the new snake, as the first
      placement does. Needs a second drawable cell. */
  method ResetGameClear(g: Grid) returns (s: State)
    requires HasFreeCell(g, [Center(g)])
    ensures s.snake == [Center(g)] && s.score == 0 && s.speed == InitialSpeed
    ensures s.direction == Right && s.nextDirection == Right && !s.gameOver
    ensures s.food.Some? && s.food.value != Center(g)
    ensures g.width > 0 && g.height > 0 ==> InGrid(g, s.food.value)
  {
    var draw := RandomFoodPosition(g, [Center(g)]);
    var kind: FoodKind :| 0 <= kind < 4;
    s := Reset(g, draw, kind);
  }

  // ---------------------------------------------------------------------
  // Invariants of reachable states

  /** The interval after `score` points from a fresh game: one decrement per
      five points, never below the floor. */
  function SpeedForScore(score: nat): (r: int)
    ensures MinSpeed <= r <= InitialSpeed
  {
    var s := InitialSpeed - SpeedDecrement * (score / PointsPerSpeedUp);
    if s >= MinSpeed then s else MinSpeed
  }

  lemma SpeedForScoreNonIncreasing(a: nat, b: nat)
    requires a <= b
    ensures SpeedForScore(b) <= SpeedForScore(a)
  {
    assert a / PointsPerSpeedUp <= b / PointsPerSpeedUp;
  }

  /** Eating one more food moves the speed along `SpeedForScore`. */
  lemma SpeedAfterEatingFollowsScore(score: nat)
    ensures SpeedAfterEating(SpeedForScore(score), score + 1) == SpeedForScore(score + 1)
  {
    if (score + 1) % PointsPerSpeedUp == 0 {
      assert (score + 1) / PointsPerSpeedUp == score / PointsPerSpeedUp + 1;
    } else {
      assert (score + 1) / PointsPerSpeedUp == score / PointsPerSpeedUp;
    }
  }

  /** Consecutive segments are one move apart (the follower steps onto its
      predecessor's cell). */
  predicate Linked(g: Grid, snake: seq<Cell>)
    requires g.width > 0 && g.height > 0
    decreases |snake|
  {
    |snake| <= 1 || (Adjacent(g, snake[1], snake[0]) && Linked(g, snake[1..]))
  }

  lemma {:induction false} LinkedPrefix(g: Grid, snake: seq<Cell>, n: nat)
    requires g.width > 0 && g.height > 0
    requires Linked(g, snake) && n <= |snake|
    ensures Linked(g, snake[..n])
    decreases n
  {
    if n >= 2 {
      assert snake[..n][1..] == snake[1..][..n - 1];
      LinkedPrefix(g, snake[1..], n - 1);
    }
  }

  predicate AllInGrid(g: Grid, snake: seq<Cell>) {
    forall i :: 0 <= i < |snake| ==> InGrid(g, snake[i])
  }

  /** What every state reachable on a non-empty grid satisfies. */
  predicate Valid(g: Grid, s: State) {
    && g.width > 0 && g.height > 0
    && |s.snake| > 0
    && AllInGrid(g, s.snake)
    && Linked(g, s.snake)
    && s.score == |s.snake| - 1
    && s.speed == SpeedForScore(s.score)
    && s.nextDirection != Opposite(s.direction)
    && (s.food.Some? ==> InGrid(g, s.food.value))
  }

  /** The food, when present, is not under the snake. */
  predicate FoodClear(s: State) {
    s.food.Some? ==> !OnSnake(s.food.value, s.snake)
  }

  /** No two segments share a cell. */
  predicate Distinct(snake: seq<Cell>) {
    forall i, j :: 0 <= i < j < |snake| ==> snake[i] != snake[j]
  }

  /** The first state with food, on the measured grid `g`, satisfies every
      invariant as long as the mount-time centre lies in `g`. */
  lemma InitialIsValid(mount: Grid, g: Grid, draw: Cell, kind: FoodKind)
    requires g.width > 0 && g.height > 0
    requires InGrid(g, Center(mount))
    requires IsFoodDraw(g, Initial(mount).snake, draw)
    ensures Valid(g, PlaceInitialFood(g, Initial(mount), draw, kind))
    ensures FoodClear(PlaceInitialFood(g, Initial(mount), draw, kind))
    ensures Distinct(PlaceInitialFood(g, Initial(mount), draw, kind).snake)
  {
    DrawIsInGrid(g, draw);
  }

  /** The app's start: the corner snake with food drawn off it is valid on
      every measured grid. */
  lemma AppStartIsValid(g: Grid, draw: Cell, kind: FoodKind)
    requires g.width > 0 && g.height > 0
    requires IsFoodDraw(g, [Cell(0, 0)], draw)
    ensures Valid(g, PlaceInitialFood(g, Initial(MountGrid()), draw, kind))
    ensures FoodClear(PlaceInitialFood(g, Initial(MountGrid()), draw, kind))
  {
    InitialIsValid(MountGrid(), g, draw, kind);
  }

  /** The centred start, with the snake placed on the measured grid itself,
      is valid on every non-empty grid. */
  lemma CentredStartIsValid(g: Grid, draw: Cell, kind: FoodKind)
    requires g.width > 0 && g.height > 0
    requires IsFoodDraw(g, [Center(g)], draw)
    ensures InGrid(g, Center(g))
    ensures Valid(g, PlaceInitialFood(g, Initial(g), draw, kind))
    ensures FoodClear(PlaceInitialFood(g, Initial(g), draw, kind))
  {
    InitialIsValid(g, g, draw, kind);
  }

  /** The first food placement with its random draw, which excludes the
      current snake. */
  method StartGame(mount: Grid, g: Grid) returns (s: State)
    requires g.width > 0 && g.height > 0
    requires HasFreeCell(g, Initial(mount).snake)
    ensures s.snake == [Center(mount)] && s.score == 0 && s.speed == InitialSpeed
    ensures s.direction == Right && s.nextDirection == Right && !s.gameOver
    ensures s.food.Some? && InGrid(g, s.food.value) && FoodClear(s)
  {
    var draw := RandomFoodPosition(g, Initial(mount).snake);
    var kind: FoodKind :| 0 <= kind < 4;
    s := PlaceInitialFood(g, Initial(mount), draw, kind);
  }

  /** The pending direction is never the reverse of the committed one. */
  lemma ChangeDirectionKeepsValid(g: Grid, s: State, d: Direction)
    requires Valid(g, s)
    ensures Valid(g, ChangeDirection(s, d))
    ensures FoodClear(s) ==> FoodClear(ChangeDirection(s, d))
    ensures ChangeDirection(s, d).nextDirection != Opposite(s.direction)
  {
  }

  /** Of two accepted requests before a tick the later one wins. */
  lemma LastRequestWins(s: State, a: Direction, b: Direction)
    requires b != Opposite(s.direction)
    ensures ChangeDirection(ChangeDirection(s, a), b) == s.(nextDirection := b)
  {
  }

  /** A request reversing the committed direction changes nothing, even
      when the pending direction is already a turn. */
  lemma ReversalIsDropped(s: State)
    ensures ChangeDirection(s, Opposite(s.direction)) == s
  {
  }

  /** A valid draw on a non-empty grid lies in the grid. */
  lemma FoodDrawInGrid(g: Grid, snake: seq<Cell>, c: Cell)
    requires g.width > 0 && g.height > 0
    requires IsFoodDraw(g, snake, c)
    ensures InGrid(g, c)
  {
  }

  /** A tick keeps every invariant, provided an eating tick draws its food
      from the cells free of the grown snake. */
  lemma StepKeepsValid(g: Grid, s: State, draw: Cell, kind: FoodKind)
    requires Valid(g, s)
    requires Eats(g, s) ==> IsFoodDraw(g, Grown(g, s), draw)
    ensures Valid(g, Step(g, s, draw, kind).state)
  {
    var r := Step(g, s, draw, kind);
    if Running(g, s) && !r.gameOverSignal {
      var head := MoveHead(g, s.snake[0], s.nextDirection);
      var rest := r.state.snake[1..];
      assert Adjacent(g, s.snake[0], head);
      if r.foodCollected {
        assert rest == s.snake;
        FoodDrawInGrid(g, Grown(g, s), draw);
        SpeedAfterEatingFollowsScore(s.score);
      } else {
        assert rest == s.snake[..|s.snake| - 1];
        LinkedPrefix(g, s.snake, |s.snake| - 1);
        if |s.snake| > 1 {
          assert rest[0] == s.snake[0];
        }
      }
      assert Linked(g, r.state.snake);
      assert AllInGrid(g, r.state.snake) by {
        forall i | 0 <= i < |r.state.snake|
          ensures InGrid(g, r.state.snake[i])
        {
          if i > 0 {
            assert r.state.snake[i] == s.snake[i - 1];
          }
        }
      }
    }
  }

  /** A tick keeps the food off the snake, under the same draw condition. */
  lemma StepKeepsFoodClear(g: Grid, s: State, draw: Cell, kind: FoodKind)
    requires |s.snake| > 0
    requires FoodClear(s)
    requires Eats(g, s) ==> IsFoodDraw(g, Grown(g, s), draw)
    ensures FoodClear(Step(g, s, draw, kind).state)
  {
  }

  /** On a grid at least two cells wide and high the segments stay pairwise
      distinct: the head leaves its cell and the body check catches every
      other clash (including the tail about to move away). */
  lemma StepKeepsDistinct(g: Grid, s: State, draw: Cell, kind: FoodKind)
    requires Valid(g, s) && g.width >= 2 && g.height >= 2
    requires Distinct(s.snake)
    ensures Distinct(Step(g, s, draw, kind).state.snake)
  {
  }

  /** The committed direction never turns back on itself: a tick commits a
      direction that is not the reverse of the previously committed one. */
  lemma NoReversal(g: Grid, s: State, draw: Cell, kind: FoodKind)
    requires Valid(g, s)
    ensures Step(g, s, draw, kind).state.direction != Opposite(s.direction)
  {
  }

  /** Game over is terminal: the loop stops, so later ticks change nothing
      and the game-over signal fires only once. */
  lemma GameOverIsFinal(g: Grid, s: State, draw: Cell, kind: FoodKind, draw2: Cell, kind2: FoodKind)
    requires |s.snake| > 0
    requires Step(g, s, draw, kind).gameOverSignal
    ensures Step(g, Step(g, s, draw, kind).state, draw2, kind2)
      == TickResult(Step(g, s, draw, kind).state, false, false)
  {
  }

  /** The speed stays between the floor and the initial interval. */
  lemma SpeedBounds(g: Grid, s: State)
    requires Valid(g, s)
    ensures MinSpeed <= s.speed <= InitialSpeed
  {
  }

  // ---------------------------------------------------------------------
  // Runs: any interleaving of direction requests and ticks

  datatype Input = Turn(d: Direction) | TickWith(draw: Cell, kind: FoodKind)

  function Run(g: Grid, s: State, inputs: seq<Input>): State
    requires |s.snake| > 0
    decreases |inputs|
  {
    if |inputs| == 0 then s
    else
      var next := match inputs[0]
        case Turn(d) => ChangeDirection(s, d)
        case TickWith(draw, kind) => Step(g, s, draw, kind).state;
      Run(g, next, inputs[1..])
  }

  /** Every eating tick of the run draws from the cells free of its grown
      snake (what the rejection loop returns). */
  predicate FairDraws(g: Grid, s: State, inputs: seq<Input>)
    requires |s.snake| > 0
    decreases |inputs|
  {
    if |inputs| == 0 then true
    else match inputs[0]
      case Turn(d) => FairDraws(g, ChangeDirection(s, d), inputs[1..])
      case TickWith(draw, kind) =>
        (Eats(g, s) ==> IsFoodDraw(g, Grown(g, s), draw))
        && FairDraws(g, Step(g, s, draw, kind).state, inputs[1..])
  }

  /** The invariants hold forever: after any run of requests and ticks the
      snake is non-empty and in the grid, score is length minus one, the
      speed follows the score (so stays in [50, 200]), and the food is off
      the snake; on a grid at least 2x2 no two segments ever share a cell. */
  lemma {:induction false} RunKeepsValid(g: Grid, s: State, inputs: seq<Input>)
    requires Valid(g, s) && FoodClear(s)
    requires FairDraws(g, s, inputs)
    ensures Valid(g, Run(g, s, inputs)) && FoodClear(Run(g, s, inputs))
    ensures MinSpeed <= Run(g, s, inputs).speed <= InitialSpeed
    ensures g.width >= 2 && g.height >= 2 && Distinct(s.snake) ==> Distinct(Run(g, s, inputs).snake)
    decreases |inputs|
  {
    if |inputs| > 0 {
      match inputs[0]
      case Turn(d) =>
        ChangeDirectionKeepsValid(g, s, d);
        RunKeepsValid(g, ChangeDirection(s, d), inputs[1..]);
      case TickWith(draw, kind) =>
        StepKeepsValid(g, s, draw, kind);
        StepKeepsFoodClear(g, s, draw, kind);
        if g.width >= 2 && g.height >= 2 && Distinct(s.snake) {
          StepKeepsDistinct(g, s, draw, kind);
        }
        RunKeepsValid(g, Step(g, s, draw, kind).state, inputs[1..]);
    }
  }

  // ---------------------------------------------------------------------
  // The reset's food placement

  /** As written, the reset's draw may land on the snake: on a 5x5 grid the
      centre (2, 2) is a legal draw with an empty exclusion list. */
  lemma ResetMayPlaceFoodOnSnake()
    ensures IsFoodDraw(Grid(5, 5), [], Cell(2, 2))
    ensures !FoodClear(Reset(Grid(5, 5), Cell(2, 2), 0))
  {
  }

  /** With the draw excluding the new snake, the reset state satisfies every
      invariant, the food-clear one included. */
  lemma ResetClearIsValid(g: Grid, draw: Cell, kind: FoodKind)
    requires g.width > 0 && g.height > 0
    requires IsFoodDraw(g, [Center(g)], draw)
    ensures Valid(g, Reset(g, draw, kind)) && FoodClear(Reset(g, draw, kind))
    ensures Distinct(Reset(g, draw, kind).snake)
  {
  }

  /** As written, the reset state satisfies every invariant except possibly
      the food-clear one. */
  lemma ResetIsValid(g: Grid, draw: Cell, kind: FoodKind)
    requires g.width > 0 && g.height > 0
    requires IsFoodDraw(g, [], draw)
    ensures Valid(g, Reset(g, draw, kind))
  {
  }

  // ---------------------------------------------------------------------
  // Worked scenarios

  /** 5x5 grid, snake at (2, 2) heading right, food at (3, 2): one tick eats. */
  lemma EatScenario(draw: Cell, kind: FoodKind)
    ensures
      var s := State([Cell(2, 2)], Some(Cell(3, 2)), 0, Right, Right, false, 0, InitialSpeed);
      var r := Step(Grid(5, 5), s, draw, kind);
      r.foodCollected && r.state.snake == [Cell(3, 2), Cell(2, 2)] && r.state.score == 1
  {
  }

  /** 5x5 grid, snake [(4, 2), (3, 2)] heading right: the head wraps to
      column 0 and the tail is dropped. */
  lemma WrapScenario(draw: Cell, kind: FoodKind)
    ensures
      var s := State([Cell(4, 2), Cell(3, 2)], None, 0, Right, Right, false, 1, InitialSpeed);
      var r := Step(Grid(5, 5), s, draw, kind);
      !r.foodCollected && !r.gameOverSignal && r.state.snake == [Cell(0, 2), Cell(4, 2)]
  {
  }

  /** Five foods from a fresh game cost exactly one decrement; the floor is
      reached at 75 points and kept from then on. */
  lemma SpeedMilestones(score: nat)
    ensures SpeedForScore(4) == InitialSpeed
    ensures SpeedForScore(5) == InitialSpeed - SpeedDecrement
    ensures score >= 75 ==> SpeedForScore(score) == MinSpeed
  {
    if score >= 75 {
      assert score / PointsPerSpeedUp >= 15;
    }
  }

}
