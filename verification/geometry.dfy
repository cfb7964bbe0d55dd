/** Grid geometry of the snake board: directions, cells, the toroidal
    one-cell move of the head, and JavaScript's truncating remainder. */
module Geometry {

  /** The four headings. The source passes them around as the strings
      "up", "down", "left" and "right"; no other string is ever produced. */
  datatype Direction = Up | Down | Left | Right

  /** Size of one grid cell in pixels. */
  const CellSize: nat := 20

  /** A grid cell; `y` grows downwards, as on the canvas. */
  datatype Cell = Cell(x: int, y: int)

  /** Grid dimensions in cells. A dimension is negative when the canvas
      computed for a very small window is negative. */
  datatype Grid = Grid(width: int, height: int)

  /** The 180-degree reverse of a heading. */
  function Opposite(d: Direction): (r: Direction)
    ensures r != d
    ensures (d == Up || d == Down) <==> (r == Up || r == Down)
  {
    match d
    case Up => Down
    case Down => Up
    case Left => Right
    case Right => Left
  }

  /** Grid dimensions derived from the canvas size in pixels: whole cells
      only, rounded down, so a negative canvas gives a negative grid. */
  function GridOf(canvasWidth: int, canvasHeight: int): (g: Grid)
    ensures g.width * CellSize <= canvasWidth < (g.width + 1) * CellSize
    ensures g.height * CellSize <= canvasHeight < (g.height + 1) * CellSize
    ensures canvasWidth < 0 ==> g.width < 0
    ensures canvasHeight < 0 ==> g.height < 0
  {
    Grid(canvasWidth / CellSize, canvasHeight / CellSize)
  }

  predicate InGrid(g: Grid, c: Cell) {
    0 <= c.x < g.width && 0 <= c.y < g.height
  }

  function Magnitude(n: int): nat {
    if n < 0 then -n else n
  }

  /** JavaScript's `a % n`: the remainder of division truncated towards
      zero, so it takes the sign of `a` whatever the sign of `n` (Dafny's
      `%` never goes negative). */
  function JsRem(a: int, n: int): (r: int)
    requires n != 0
    ensures r < Magnitude(n) && -r < Magnitude(n)
    ensures a >= 0 ==> 0 <= r
    ensures a <= 0 ==> r <= 0
    ensures -n < a < n ==> r == a
    ensures n <= a < 2 * n ==> r == a - n
  {
    if a >= 0 then
      assert a < n ==> a % n == a by {
        if a < n { ModBelow(a, n); }
      }
      assert n <= a < 2 * n ==> a % n == a - n by {
        if n <= a < 2 * n { ModNext(a, n); }
      }
      a % n
    else
      assert -a < n ==> (-a) % n == -a by {
        if -a < n { ModBelow(-a, n); }
      }
      -((-a) % n)
  }

  lemma ModBelow(a: int, n: int)
    requires n > 0 && 0 <= a < n
    ensures a % n == a
  {
    var q := a / n;
    assert a == q * n + a % n;
    assert q >= 1 ==> q * n >= n;
    assert q <= -1 ==> q * n <= -n;
  }

  lemma ModNext(a: int, n: int)
    requires n > 0 && n <= a < 2 * n
    ensures a % n == a - n
  {
  }

  /** The cell one step from `c` in direction `d`, wrapping around the
      edges of the grid. */
  function MoveHead(g: Grid, c: Cell, d: Direction): (r: Cell)
    requires g.width != 0 && g.height != 0
    ensures InGrid(g, c) ==> InGrid(g, r)
    ensures (d == Up || d == Down) ==> r.x == c.x
    ensures (d == Left || d == Right) ==> r.y == c.y
    ensures InGrid(g, c) && d == Right ==> r.x == (if c.x == g.width - 1 then 0 else c.x + 1)
    ensures InGrid(g, c) && d == Left ==> r.x == (if c.x == 0 then g.width - 1 else c.x - 1)
    ensures InGrid(g, c) && d == Down ==> r.y == (if c.y == g.height - 1 then 0 else c.y + 1)
    ensures InGrid(g, c) && d == Up ==> r.y == (if c.y == 0 then g.height - 1 else c.y - 1)
  {
    match d
    case Up => c.(y := JsRem(c.y - 1 + g.height, g.height))
    case Down => c.(y := JsRem(c.y + 1, g.height))
    case Left => c.(x := JsRem(c.x - 1 + g.width, g.width))
    case Right => c.(x := JsRem(c.x + 1, g.width))
  }

  /** Moving back the opposite way undoes a move. */
  lemma MoveThenReverse(g: Grid, c: Cell, d: Direction)
    requires g.width > 0 && g.height > 0
    requires InGrid(g, c)
    ensures MoveHead(g, MoveHead(g, c, d), Opposite(d)) == c
  {
  }

  /** On a grid at least two cells wide and high the head always leaves its cell. */
  lemma MoveLeavesCell(g: Grid, c: Cell, d: Direction)
    requires g.width >= 2 && g.height >= 2
    requires InGrid(g, c)
    ensures MoveHead(g, c, d) != c
  {
  }

  /** `b` is one move away from `a`. */
  predicate Adjacent(g: Grid, a: Cell, b: Cell)
    requires g.width != 0 && g.height != 0
  {
    || MoveHead(g, a, Up) == b
    || MoveHead(g, a, Down) == b
    || MoveHead(g, a, Left) == b
    || MoveHead(g, a, Right) == b
  }

}
