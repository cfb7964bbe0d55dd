/** The pure helpers of the game: snake occupancy, rejection-sampled food
    placement, the end-of-game score formula and the score message. */
module GameUtils {

  import opened Geometry

  /** True exactly when some segment has both coordinates equal to `p`'s
      (the short-circuiting scan of `Array.prototype.some`). */
  function OnSnake(p: Cell, snake: seq<Cell>): (r: bool)
    ensures r <==> exists i :: 0 <= i < |snake| && snake[i] == p
  {
    if |snake| == 0 then false
    else if snake[0] == p then true
    else
      var rest := OnSnake(p, snake[1..]);
      assert rest ==> exists j :: 1 <= j < |snake| && snake[j] == p by {
        if rest {
          var k :| 0 <= k < |snake[1..]| && snake[1..][k] == p;
          assert snake[k + 1] == p;
        }
      }
      rest
  }

  lemma OnSnakeIsMembership(p: Cell, snake: seq<Cell>)
    ensures OnSnake(p, snake) <==> p in snake
  {
  }

  /** Least and greatest value of `Math.floor(Math.random() * n)`. */
  function DrawLow(n: int): int {
    if n < 0 then n else 0
  }

  function DrawHigh(n: int): int {
    if n > 0 then n - 1 else 0
  }

  /** One coordinate draw, `Math.floor(u * n)` for a random `u` in [0, 1):
      in [0, n) for positive `n`, exactly 0 for an empty axis, and in
      [n, 0] for a negative one. Exact reals stand in for doubles. */
  function Draw(u: real, n: int): (r: int)
    requires 0.0 <= u < 1.0
    ensures DrawLow(n) <= r <= DrawHigh(n)
    ensures n > 0 ==> 0 <= r < n
    ensures n == 0 ==> r == 0
    ensures n < 0 ==> n <= r <= 0
  {
    ProductSigns(u, n as real);
    ProductSigns(1.0 - u, n as real);
    (u * n as real).Floor
  }

  /** Every value between the bounds is produced by some random number. */
  lemma DrawCovers(n: int, v: int)
    requires DrawLow(n) <= v <= DrawHigh(n)
    ensures exists u :: 0.0 <= u < 1.0 && Draw(u, n) == v
  {
    if n > 0 {
      var u := v as real / n as real;
      ProductSigns(u, n as real);
      ProductSigns(u - 1.0, n as real);
      assert u * n as real == v as real;
      assert Draw(u, n) == v;
    } else if n == 0 || v == 0 {
      assert Draw(0.0, n) == v;
    } else {
      var u := (v as real + 0.5) / n as real;
      assert u * n as real == v as real + 0.5;
      ProductSigns(u, n as real);
      ProductSigns(u - 1.0, n as real);
      assert Draw(u, n) == v;
    }
  }

  /** Signs of a product, for the real arithmetic of the draw. */
  lemma ProductSigns(a: real, b: real)
    ensures a >= 0.0 && b >= 0.0 ==> a * b >= 0.0
    ensures a > 0.0 && b > 0.0 ==> a * b > 0.0
    ensures a >= 0.0 && b <= 0.0 ==> a * b <= 0.0
    ensures a > 0.0 && b < 0.0 ==> a * b < 0.0
    ensures a < 0.0 && b > 0.0 ==> a * b < 0.0
    ensures a < 0.0 && b < 0.0 ==> a * b > 0.0
    ensures a * b == b * a
  {
  }

  /** A cell the food draw can produce before the occupancy test. */
  predicate InDrawRange(g: Grid, c: Cell) {
    && DrawLow(g.width) <= c.x <= DrawHigh(g.width)
    && DrawLow(g.height) <= c.y <= DrawHigh(g.height)
  }

  /** A cell the rejection loop can return: drawable and not on the snake. */
  predicate IsFoodDraw(g: Grid, snake: seq<Cell>, c: Cell) {
    InDrawRange(g, c) && !OnSnake(c, snake)
  }

  /** Some drawable cell is free; without one the rejection loop never exits. */
  ghost predicate HasFreeCell(g: Grid, snake: seq<Cell>) {
    exists c :: InDrawRange(g, c) && !OnSnake(c, snake)
  }

  lemma DrawIsInGrid(g: Grid, c: Cell)
    requires g.width > 0 && g.height > 0
    ensures InDrawRange(g, c) <==> InGrid(g, c)
  {
  }

  /** An empty exclusion list leaves every drawable cell free. */
  lemma EmptySnakeLeavesAllFree(g: Grid, c: Cell)
    requires InDrawRange(g, c)
    ensures IsFoodDraw(g, [], c)
    ensures HasFreeCell(g, [])
  {
  }

  /** Food placement: the random draw is a nondeterministic choice of a
      free drawable cell. */
  method RandomFoodPosition(g: Grid, snake: seq<Cell>) returns (c: Cell)
    requires HasFreeCell(g, snake)
    ensures IsFoodDraw(g, snake, c)
    ensures g.width > 0 && g.height > 0 ==> InGrid(g, c)
    ensures !OnSnake(c, snake)
    ensures forall i :: 0 <= i < |snake| ==> snake[i] != c
    ensures g.width == 0 ==> c.x == 0
    ensures g.height == 0 ==> c.y == 0
    ensures g.width < 0 ==> g.width <= c.x <= 0
    ensures g.height < 0 ==> g.height <= c.y <= 0
  {
    ghost var free :| InDrawRange(g, free) && !OnSnake(free, snake);
    var x: int, y: int :|
      && DrawLow(g.width) <= x <= DrawHigh(g.width)
      && DrawLow(g.height) <= y <= DrawHigh(g.height)
      && !OnSnake(Cell(x, y), snake);
    c := Cell(x, y);
  }

  function MaxReal(a: real, b: real): real {
    if a >= b then a else b
  }

  /** End-of-game score: ten points per segment beyond the head plus a
      time bonus of up to 100 that shrinks with the elapsed milliseconds,
      rounded down. Exact reals stand in for JavaScript numbers. */
  function CalculateScore(snakeLength: int, timeElapsed: real): (r: int)
    ensures r >= (snakeLength - 1) * 10
    ensures timeElapsed >= 0.0 ==> r <= (snakeLength - 1) * 10 + 100
    ensures timeElapsed >= 1000000.0 ==> r == (snakeLength - 1) * 10
    ensures timeElapsed == 0.0 ==> r == (snakeLength - 1) * 10 + 100
  {
    var baseScore := (snakeLength - 1) * 10;
    var timeBonus := MaxReal(0.0, 1000.0 - timeElapsed / 1000.0) / 10.0;
    (baseScore as real + timeBonus).Floor
  }

  /** A longer wait never raises the score. */
  lemma CalculateScoreNonIncreasingInTime(snakeLength: int, t1: real, t2: real)
    requires t1 <= t2
    ensures CalculateScore(snakeLength, t2) <= CalculateScore(snakeLength, t1)
  {
  }

  /** The six score messages, lowest tier first; shared by both classifiers. */
  const Messages: seq<string> := [
    "Better luck next time!",
    "Good effort!",
    "Well played!",
    "Impressive!",
    "Amazing!",
    "You're a Mayan Snake Master!"
  ]

  /** How many of the ascending `thresholds` the score has reached: the tier
      index of a message ladder. */
  function Reached(score: int, thresholds: seq<int>): (k: nat)
    ensures k <= |thresholds|
  {
    if |thresholds| == 0 then 0
    else (if thresholds[0] <= score then 1 else 0) + Reached(score, thresholds[1..])
  }

  /** The tier index never decreases as the score grows. */
  lemma {:induction false} ReachedMonotone(a: int, b: int, thresholds: seq<int>)
    requires a <= b
    ensures Reached(a, thresholds) <= Reached(b, thresholds)
  {
    if |thresholds| > 0 {
      ReachedMonotone(a, b, thresholds[1..]);
    }
  }

  /** Lower bounds of tiers 1 to 5 of the score-message ladder. */
  const ScoreThresholds: seq<int> := [1, 50, 100, 200, 500]

  /** The score message, chosen by comparing the score with each threshold from the bottom up. */
  function ScoreMessage(score: nat): (m: string)
    ensures m in Messages
  {
    if score == 0 then "Better luck next time!"
    else if score < 50 then "Good effort!"
    else if score < 100 then "Well played!"
    else if score < 200 then "Impressive!"
    else if score < 500 then "Amazing!"
    else "You're a Mayan Snake Master!"
  }

  /** The message is the one at the tier the score has reached. */
  lemma ScoreMessageIsTier(score: nat)
    ensures ScoreMessage(score) == Messages[Reached(score, ScoreThresholds)]
  {
    ReachedFive(score, ScoreThresholds);
  }

  /** Unfolds `Reached` on a five-rung ladder. */
  lemma ReachedFive(score: int, t: seq<int>)
    requires |t| == 5
    ensures Reached(score, t) ==
      (if t[0] <= score then 1 else 0) + (if t[1] <= score then 1 else 0)
      + (if t[2] <= score then 1 else 0) + (if t[3] <= score then 1 else 0)
      + (if t[4] <= score then 1 else 0)
  {
    assert t[4..][1..] == [];
    assert Reached(score, t[4..]) == if t[4] <= score then 1 else 0;
    assert t[3..][1..] == t[4..];
    assert Reached(score, t[3..]) == (if t[3] <= score then 1 else 0) + Reached(score, t[4..]);
    assert t[2..][1..] == t[3..];
    assert Reached(score, t[2..]) == (if t[2] <= score then 1 else 0) + Reached(score, t[3..]);
    assert t[1..][1..] == t[2..];
    assert Reached(score, t[1..]) == (if t[1] <= score then 1 else 0) + Reached(score, t[2..]);
  }

  /** A higher score never gets a lower-tier message. */
  lemma ScoreMessageMonotone(a: nat, b: nat)
    requires a <= b
    ensures Reached(a, ScoreThresholds) <= Reached(b, ScoreThresholds)
    ensures ScoreMessage(a) == Messages[Reached(a, ScoreThresholds)]
    ensures ScoreMessage(b) == Messages[Reached(b, ScoreThresholds)]
  {
    ReachedMonotone(a, b, ScoreThresholds);
    ScoreMessageIsTier(a);
    ScoreMessageIsTier(b);
  }

}
