/** The snake game engine: a snake on a toroidal board with an obstacle ring,
    ordinary food, and a special food item that appears and expires on
    countdowns. The game state is kept in the class `SnakeGame`, whose methods
    change it in place; every method is proved to produce exactly the state
    that the value-level function of the same step (`Tick`, `Reset`, ...)
    describes, and the game's invariants are proved once, on those functions.

    The random picks (`random.choice` among the free cells) are draws supplied
    by the caller: a draw selects a free cell by its position in the row-major
    list of free cells, reduced modulo the number of free cells, so every free
    cell can be picked and nothing else can. */
module Snake {

  /** A board cell (x, y), and also a direction (dx, dy). */
  type Cell = (int, int)

  datatype Option<T> = None | Some(value: T)

  const CellWidth := 4
  const CellHeight := 2

  function Max(a: int, b: int): int { if a >= b then a else b }
  function Min(a: int, b: int): int { if a <= b then a else b }

  predicate InBoard(width: int, height: int, c: Cell) {
    0 <= c.0 < width && 0 <= c.1 < height
  }

  predicate IsUnit(d: Cell) {
    d == (1, 0) || d == (-1, 0) || d == (0, 1) || d == (0, -1)
  }

  function Opposite(d: Cell): Cell {
    (-d.0, -d.1)
  }

  predicate Distinct(cells: seq<Cell>) {
    forall i, j :: 0 <= i < j < |cells| ==> cells[i] != cells[j]
  }

  // ---------------------------------------------------------------------
  // Board sizing
  // ---------------------------------------------------------------------

  /** The board size for a canvas: as many whole cells as fit, but never
      fewer than 8 columns and 6 rows. */
  function FittedSize(canvasWidth: int, canvasHeight: int): (size: (int, int))
    ensures size.0 >= 8 && size.1 >= 6
    ensures size.0 == 8 <==> canvasWidth < 9 * CellWidth
    ensures size.0 > 8 ==> size.0 * CellWidth <= canvasWidth < (size.0 + 1) * CellWidth
    ensures size.1 == 6 <==> canvasHeight < 7 * CellHeight
    ensures size.1 > 6 ==> size.1 * CellHeight <= canvasHeight < (size.1 + 1) * CellHeight
  {
    var canvasW := Max(1, canvasWidth);
    var canvasH := Max(1, canvasHeight);
    (Max(8, canvasW / CellWidth), Max(6, canvasH / CellHeight))
  }

  // ---------------------------------------------------------------------
  // Obstacle ring
  // ---------------------------------------------------------------------

  /** The rectangle the ring is drawn on: (left, right, top, bottom). */
  function RingBox(width: int, height: int): (int, int, int, int) {
    var centerX, centerY := width / 2, height / 2;
    var ringHalfW, ringHalfH := Max(3, width / 5), Max(2, height / 5);
    (Max(1, centerX - ringHalfW), Min(width - 2, centerX + ringHalfW),
     Max(1, centerY - ringHalfH), Min(height - 2, centerY + ringHalfH))
  }

  /** A cell of the top or bottom edge of the ring, outside the three central
      columns. */
  predicate OnRingEdge(width: int, height: int, c: Cell) {
    var (left, right, top, bottom) := RingBox(width, height);
    var centerX := width / 2;
    && left <= c.0 <= right
    && c.0 != centerX - 1 && c.0 != centerX && c.0 != centerX + 1
    && (c.1 == top || c.1 == bottom)
  }

  /** A cell of the left or right side of the ring, strictly between its top
      and bottom rows and outside the three central rows. */
  predicate OnRingSide(width: int, height: int, c: Cell) {
    var (left, right, top, bottom) := RingBox(width, height);
    var centerY := height / 2;
    && top < c.1 < bottom
    && c.1 != centerY - 1 && c.1 != centerY && c.1 != centerY + 1
    && (c.0 == left || c.0 == right)
  }

  function ObstacleRing(width: int, height: int): set<Cell> {
    var (left, right, top, bottom) := RingBox(width, height);
    (set x, y | left <= x <= right && y in {top, bottom} && OnRingEdge(width, height, (x, y)) :: (x, y))
    + (set x, y | x in {left, right} && top < y < bottom && OnRingSide(width, height, (x, y)) :: (x, y))
  }

  lemma RingMembers(width: int, height: int, c: Cell)
    ensures c in ObstacleRing(width, height) <==> OnRingEdge(width, height, c) || OnRingSide(width, height, c)
  {
    var (x, y) := c;
    if OnRingEdge(width, height, c) {
      assert (x, y) in ObstacleRing(width, height);
    }
    if OnRingSide(width, height, c) {
      assert (x, y) in ObstacleRing(width, height);
    }
  }

  /** On a board of the smallest size or larger, every obstacle lies inside
      the border: in [1, width-2] x [1, height-2]. */
  lemma ObstaclesInside(width: int, height: int, c: Cell)
    requires width >= 8 && height >= 6
    requires c in ObstacleRing(width, height)
    ensures 1 <= c.0 <= width - 2 && 1 <= c.1 <= height - 2
  {
    RingMembers(width, height, c);
  }

  /** The ring leaves the three central columns and the central row open, so
      a snake laid along the central row meets no obstacle. (On a six-row
      board the bottom edge of the ring lies on the row below the centre, so
      the rows next to the centre are not always open.) */
  lemma ObstaclesAvoidCentre(width: int, height: int, c: Cell)
    requires width >= 8 && height >= 6
    requires c in ObstacleRing(width, height)
    ensures c.0 < width / 2 - 1 || c.0 > width / 2 + 1
    ensures c.1 != height / 2
  {
    RingMembers(width, height, c);
    var (left, right, top, bottom) := RingBox(width, height);
    assert left <= width / 2 - 3 && right >= width / 2 + 2;
    assert top < height / 2 < bottom;
  }

  // ---------------------------------------------------------------------
  // Free cells and spawning
  // ---------------------------------------------------------------------

  /** The cells a spawn must avoid: the snake, the obstacles and the special
      food if there is one. */
  function Blocked(snake: seq<Cell>, obstacles: set<Cell>, special: Option<Cell>): set<Cell> {
    var cells := (set c | c in snake) + obstacles;
    if special.Some? then cells + {special.value} else cells
  }

  /** The free cells x < columns of row y, left to right. */
  function FreeInRow(blocked: set<Cell>, y: int, columns: nat): seq<Cell> {
    if columns == 0 then []
    else FreeInRow(blocked, y, columns - 1)
         + (if (columns - 1, y) !in blocked then [(columns - 1, y)] else [])
  }

  /** The free cells of the first `rows` rows, in row-major order: the list
      comprehension of `_spawn_food`. */
  function FreeCells(width: nat, blocked: set<Cell>, rows: nat): seq<Cell> {
    if rows == 0 then [] else FreeCells(width, blocked, rows - 1) + FreeInRow(blocked, rows - 1, width)
  }

  lemma {:induction false} FreeInRowMembers(blocked: set<Cell>, y: int, columns: nat, c: Cell)
    ensures c in FreeInRow(blocked, y, columns) <==> 0 <= c.0 < columns && c.1 == y && c !in blocked
  {
    if columns > 0 {
      var last := if (columns - 1, y) !in blocked then [(columns - 1, y)] else [];
      assert FreeInRow(blocked, y, columns) == FreeInRow(blocked, y, columns - 1) + last;
      assert c in FreeInRow(blocked, y, columns) <==> c in FreeInRow(blocked, y, columns - 1) || c in last;
      FreeInRowMembers(blocked, y, columns - 1, c);
    }
  }

  /** A cell is listed exactly when it is on the board and not blocked. */
  lemma {:induction false} FreeCellsMembers(width: nat, blocked: set<Cell>, rows: nat, c: Cell)
    ensures c in FreeCells(width, blocked, rows) <==> InBoard(width, rows, c) && c !in blocked
  {
    if rows > 0 {
      var earlier := FreeCells(width, blocked, rows - 1);
      var row := FreeInRow(blocked, rows - 1, width);
      FreeCellsMembers(width, blocked, rows - 1, c);
      FreeInRowMembers(blocked, rows - 1, width, c);
      if c.1 == rows - 1 {
        assert c !in earlier;
      } else {
        assert c !in row;
      }
    }
  }

  /** `_spawn_food`: the free cell the draw picks, or (0, 0) when the board
      has none. */
  function SpawnFood(width: nat, height: nat, snake: seq<Cell>, obstacles: set<Cell>,
                     special: Option<Cell>, draw: nat): Cell
  {
    var options := FreeCells(width, Blocked(snake, obstacles, special), height);
    if |options| == 0 then (0, 0) else options[draw % |options|]
  }

  /** A spawn lands on the board, on a cell that is not blocked, whenever
      the board has such a cell, and on (0, 0) otherwise. */
  lemma SpawnFoodIsFree(width: nat, height: nat, snake: seq<Cell>, obstacles: set<Cell>,
                        special: Option<Cell>, draw: nat)
    ensures var cell := SpawnFood(width, height, snake, obstacles, special, draw);
            var blocked := Blocked(snake, obstacles, special);
            && (|FreeCells(width, blocked, height)| == 0 ==> cell == (0, 0))
            && (|FreeCells(width, blocked, height)| > 0 ==> InBoard(width, height, cell) && cell !in blocked)
  {
    var blocked := Blocked(snake, obstacles, special);
    var options := FreeCells(width, blocked, height);
    if |options| > 0 {
      FreeCellsMembers(width, blocked, height, options[draw % |options|]);
    }
  }

  /** Whatever the board holds, a spawn is a cell of the board. */
  lemma SpawnFoodInBoard(width: nat, height: nat, snake: seq<Cell>, obstacles: set<Cell>,
                         special: Option<Cell>, draw: nat)
    requires width > 0 && height > 0
    ensures InBoard(width, height, SpawnFood(width, height, snake, obstacles, special, draw))
  {
    SpawnFoodIsFree(width, height, snake, obstacles, special, draw);
  }

  /** No free cell is out of reach: each one is the pick of some draw. */
  lemma SpawnFoodReachesEveryFreeCell(width: nat, height: nat, snake: seq<Cell>, obstacles: set<Cell>,
                                      special: Option<Cell>, c: Cell)
    requires InBoard(width, height, c) && c !in Blocked(snake, obstacles, special)
    ensures exists draw: nat :: SpawnFood(width, height, snake, obstacles, special, draw) == c
  {
    var blocked := Blocked(snake, obstacles, special);
    var options := FreeCells(width, blocked, height);
    FreeCellsMembers(width, blocked, height, c);
    var k :| 0 <= k < |options| && options[k] == c;
    WrapStep(k, |options|);
    assert SpawnFood(width, height, snake, obstacles, special, k) == options[k];
  }

  // ---------------------------------------------------------------------
  // The game state and its steps
  // ---------------------------------------------------------------------

  datatype SnakeState = SnakeState(
    width: int, height: int,
    snake: seq<Cell>, direction: Cell, nextDirection: Cell,
    food: Cell, specialFood: Option<Cell>, specialFoodTicks: int, specialFoodCooldown: int,
    obstacles: set<Cell>,
    score: int, highScore: int, level: int, foodEaten: int,
    gameOver: bool, paused: bool)

  /** The cells lie on the board, apart from each other and from the
      obstacles. */
  predicate Placed(cells: seq<Cell>, width: int, height: int, obstacles: set<Cell>) {
    && (forall i :: 0 <= i < |cells| ==> InBoard(width, height, cells[i]) && cells[i] !in obstacles)
    && Distinct(cells)
  }

  /** The obstacles are the ring of the board's size, as `_reset_game`
      builds them; play never changes the board, so this holds from one reset
      to the next. */
  ghost predicate RingBuilt(s: SnakeState) {
    s.obstacles == ObstacleRing(s.width, s.height)
  }

  /** What holds between any two steps of a mounted game. */
  ghost predicate Inv(s: SnakeState) {
    && s.width >= 8 && s.height >= 6
    && |s.snake| >= 1
    && Placed(s.snake, s.width, s.height, s.obstacles)
    && IsUnit(s.direction) && IsUnit(s.nextDirection)
    && s.nextDirection != Opposite(s.direction)
    && InBoard(s.width, s.height, s.food)
    && (s.specialFood.Some? ==> InBoard(s.width, s.height, s.specialFood.value) && s.specialFoodTicks >= 1)
    && (s.specialFood.None? ==> s.specialFoodCooldown >= 1)
    && 0 <= s.score <= s.highScore
    && s.foodEaten >= 0 && s.level == 1 + s.foodEaten / 5
  }

  /** `_set_direction`: ignored after game over and when it asks for the exact
      reverse of the direction of the last move. */
  function Steer(s: SnakeState, d: Cell): (r: SnakeState)
    ensures r == s || r == s.(nextDirection := d)
    ensures r.nextDirection == d <==> (!s.gameOver && d != Opposite(s.direction)) || s.nextDirection == d
  {
    if s.gameOver then s
    else if d == Opposite(s.direction) then s
    else s.(nextDirection := d)
  }

  /** The head after one step: the neighbour in direction d, wrapping around
      both edges of the board. */
  function NextHead(head: Cell, d: Cell, width: int, height: int): Cell
    requires width > 0 && height > 0
  {
    ((head.0 + d.0) % width, (head.1 + d.1) % height)
  }

  /** The next head is on the board: one step from the old head, or on the
      opposite edge when that step leaves the board. */
  lemma NextHeadSteps(head: Cell, d: Cell, width: int, height: int)
    requires width > 0 && height > 0
    ensures var next := NextHead(head, d, width, height);
            && InBoard(width, height, next)
            && (0 <= head.0 + d.0 < width ==> next.0 == head.0 + d.0)
            && (head.0 + d.0 == width ==> next.0 == 0)
            && (head.0 + d.0 == -1 ==> next.0 == width - 1)
            && (0 <= head.1 + d.1 < height ==> next.1 == head.1 + d.1)
            && (head.1 + d.1 == height ==> next.1 == 0)
            && (head.1 + d.1 == -1 ==> next.1 == height - 1)
  {
    WrapStep(head.0 + d.0, width);
    WrapStep(head.1 + d.1, height);
  }

  /** Python's `%` by a positive modulus, which Dafny's agrees with, wraps one
      step past either edge round to the other. */
  lemma WrapStep(a: int, n: int)
    requires n > 0
    ensures 0 <= a % n < n
    ensures 0 <= a < n ==> a % n == a
    ensures a == n ==> a % n == 0
    ensures a == -1 ==> a % n == n - 1
  {
    if a == n {
      assert a % n == (1 * n + 0) % n;
    }
  }

  /** `_update_special_food`. */
  function SpecialFoodStep(s: SnakeState, draw: nat): SnakeState
    requires s.width >= 0 && s.height >= 0
  {
    if s.specialFood.Some? then
      var ticks := s.specialFoodTicks - 1;
      if ticks <= 0 then s.(specialFoodTicks := ticks, specialFood := None, specialFoodCooldown := 30)
      else s.(specialFoodTicks := ticks)
    else
      var cooldown := s.specialFoodCooldown - 1;
      if cooldown <= 0 then
        s.(specialFoodCooldown := cooldown,
           specialFood := Some(SpawnFood(s.width, s.height, s.snake, s.obstacles, s.specialFood, draw)),
           specialFoodTicks := 28)
      else s.(specialFoodCooldown := cooldown)
  }

  /** The meal part of a step: +10, one more food eaten (every fifth raises
      the level) and a new food. */
  function Fed(s: SnakeState, draw: nat): SnakeState
    requires s.width >= 0 && s.height >= 0
  {
    var eaten := s.foodEaten + 1;
    s.(score := s.score + 10,
       foodEaten := eaten,
       food := SpawnFood(s.width, s.height, s.snake, s.obstacles, s.specialFood, draw),
       level := if eaten % 5 == 0 then s.level + 1 else s.level,
       highScore := Max(s.highScore, s.score + 10))
  }

  /** The special-food part of a step: +50, the special is gone and the next
      one waits 40 ticks. */
  function FedSpecial(s: SnakeState): SnakeState {
    s.(score := s.score + 50, specialFood := None, specialFoodTicks := 0,
       specialFoodCooldown := 40, highScore := Max(s.highScore, s.score + 50))
  }

  /** The cell the head moves to on the next step. */
  function HeadAfter(s: SnakeState): Cell
    requires s.width > 0 && s.height > 0 && |s.snake| > 0
  {
    NextHead(s.snake[0], s.nextDirection, s.width, s.height)
  }

  predicate Collides(s: SnakeState)
    requires s.width > 0 && s.height > 0 && |s.snake| > 0
  {
    HeadAfter(s) in s.obstacles || HeadAfter(s) in s.snake
  }

  /** The move of a step whose new head meets nothing: the head goes on,
      whatever is on its cell is eaten, and the tail follows unless something
      was eaten. */
  function Advance(s: SnakeState, head: Cell, foodDraw: nat): SnakeState
    requires s.width >= 0 && s.height >= 0
  {
    var moved := s.(snake := [head] + s.snake);
    var ateFood := head == s.food;
    var ateSpecial := s.specialFood == Some(head);
    var fed := if ateFood then Fed(moved, foodDraw) else moved;
    var treated := if ateSpecial then FedSpecial(fed) else fed;
    if ateFood || ateSpecial then treated
    else treated.(snake := treated.snake[..|treated.snake| - 1])
  }

  /** `_game_tick`: one step of a running game. The snake first takes the
      queued direction; a head that meets an obstacle or the snake ends the
      game. */
  function Tick(s: SnakeState, foodDraw: nat, specialDraw: nat): SnakeState
    requires s.width > 0 && s.height > 0 && |s.snake| > 0
  {
    if s.gameOver || s.paused then s
    else
      var turned := s.(direction := s.nextDirection);
      if Collides(s) then turned.(gameOver := true, highScore := Max(s.highScore, s.score))
      else SpecialFoodStep(Advance(turned, HeadAfter(s), foodDraw), specialDraw)
  }

  /** The three-segment snake `_reset_game` places at the centre, head first,
      heading right. */
  function StartSnake(width: int, height: int): seq<Cell> {
    var centerX, centerY := width / 2, height / 2;
    [(centerX, centerY), (centerX - 1, centerY), (centerX - 2, centerY)]
  }

  /** `_reset_game`. The new food avoids the special food of the game being
      reset, which is cleared only afterwards. */
  function Reset(s: SnakeState, resetScore: bool, foodDraw: nat): SnakeState
    requires s.width >= 0 && s.height >= 0
  {
    var snake := StartSnake(s.width, s.height);
    var obstacles := ObstacleRing(s.width, s.height);
    s.(snake := snake, direction := (1, 0), nextDirection := (1, 0),
       obstacles := obstacles,
       food := SpawnFood(s.width, s.height, snake, obstacles, s.specialFood, foodDraw),
       specialFood := None, specialFoodTicks := 0, specialFoodCooldown := 24,
       gameOver := false, paused := false, level := 1, foodEaten := 0,
       score := if resetScore then 0 else s.score)
  }

  /** The state `__init__` leaves before the screen is mounted. */
  function Unmounted(highScore: int): SnakeState {
    SnakeState(34, 18, [], (1, 0), (1, 0), (0, 0), None, 0, 0, {}, 0, highScore, 1, 0, false, false)
  }

  /** `on_mount`: load the stored high score, fit the board, reset. */
  function Mounted(storedHighScore: nat, canvasWidth: int, canvasHeight: int, foodDraw: nat): SnakeState {
    var size := FittedSize(canvasWidth, canvasHeight);
    Reset(Unmounted(storedHighScore).(width := size.0, height := size.1), true, foodDraw)
  }

  // ---------------------------------------------------------------------
  // Properties of the steps
  // ---------------------------------------------------------------------

  lemma BlockedMembers(snake: seq<Cell>, obstacles: set<Cell>, special: Option<Cell>, c: Cell)
    ensures c in Blocked(snake, obstacles, special) <==>
            c in snake || c in obstacles || special == Some(c)
  {
    if c in snake {
      var i :| 0 <= i < |snake| && snake[i] == c;
    }
  }

  /** A freshly reset game satisfies the invariant: the start snake lies on the
      board's middle row, clear of the ring. */
  lemma ResetEstablishesInv(s: SnakeState, resetScore: bool, foodDraw: nat)
    requires s.width >= 8 && s.height >= 6
    requires 0 <= s.score <= s.highScore
    ensures Inv(Reset(s, resetScore, foodDraw)) && RingBuilt(Reset(s, resetScore, foodDraw))
  {
    var r := Reset(s, resetScore, foodDraw);
    SpawnFoodInBoard(s.width, s.height, r.snake, r.obstacles, s.specialFood, foodDraw);
    forall i | 0 <= i < |r.snake| ensures r.snake[i] !in r.obstacles {
      if r.snake[i] in r.obstacles {
        ObstaclesAvoidCentre(s.width, s.height, r.snake[i]);
      }
    }
  }

  lemma MountedSatisfiesInv(storedHighScore: nat, canvasWidth: int, canvasHeight: int, foodDraw: nat)
    ensures var m := Mounted(storedHighScore, canvasWidth, canvasHeight, foodDraw);
            Inv(m) && RingBuilt(m)
  {
    var size := FittedSize(canvasWidth, canvasHeight);
    ResetEstablishesInv(Unmounted(storedHighScore).(width := size.0, height := size.1), true, foodDraw);
  }

  lemma SetDirectionPreservesInv(s: SnakeState, d: Cell)
    requires Inv(s) && IsUnit(d)
    ensures Inv(Steer(s, d))
  {
  }

  lemma SpecialFoodPreservesInv(s: SnakeState, draw: nat)
    requires Inv(s)
    ensures var r := SpecialFoodStep(s, draw);
            Inv(r) && r.width == s.width && r.height == s.height && r.obstacles == s.obstacles
  {
    var r := SpecialFoodStep(s, draw);
    assert r.(specialFood := s.specialFood, specialFoodTicks := s.specialFoodTicks,
              specialFoodCooldown := s.specialFoodCooldown) == s;
    if s.specialFood.None? && s.specialFoodCooldown <= 1 {
      SpawnFoodInBoard(s.width, s.height, s.snake, s.obstacles, s.specialFood, draw);
    }
  }

  /** Dropping segments from the tail keeps a snake placed. */
  lemma PlacedPrefix(cells: seq<Cell>, width: int, height: int, obstacles: set<Cell>, n: nat)
    requires Placed(cells, width, height, obstacles) && n <= |cells|
    ensures Placed(cells[..n], width, height, obstacles)
  {
  }

  /** A new head on a free cell of the board keeps a snake placed. */
  lemma PlacedCons(head: Cell, cells: seq<Cell>, width: int, height: int, obstacles: set<Cell>)
    requires Placed(cells, width, height, obstacles)
    requires InBoard(width, height, head) && head !in obstacles && head !in cells
    ensures Placed([head] + cells, width, height, obstacles)
  {
    var body := [head] + cells;
    forall i, j | 0 <= i < j < |body| ensures body[i] != body[j] {
      if i == 0 {
        assert body[j] == cells[j - 1];
      }
    }
  }

  /** Eating the food keeps the invariant; in particular the level still
      counts the fifths of the food eaten. */
  lemma FedKeepsInv(s: SnakeState, draw: nat)
    requires Inv(s)
    ensures Inv(Fed(s, draw))
  {
    SpawnFoodInBoard(s.width, s.height, s.snake, s.obstacles, s.specialFood, draw);
    assert (s.foodEaten + 1) / 5 == s.foodEaten / 5 + (if (s.foodEaten + 1) % 5 == 0 then 1 else 0);
  }

  /** Taking the queued direction keeps the invariant: a unit direction is
      never its own reverse. */
  lemma TurnKeepsInv(s: SnakeState)
    requires Inv(s)
    ensures Inv(s.(direction := s.nextDirection))
  {
  }

  lemma AdvanceKeepsInv(s: SnakeState, head: Cell, foodDraw: nat)
    requires Inv(s)
    requires InBoard(s.width, s.height, head) && head !in s.snake && head !in s.obstacles
    ensures var r := Advance(s, head, foodDraw);
            Inv(r) && r.width == s.width && r.height == s.height && r.obstacles == s.obstacles
  {
    var body := [head] + s.snake;
    PlacedCons(head, s.snake, s.width, s.height, s.obstacles);
    PlacedPrefix(body, s.width, s.height, s.obstacles, |s.snake|);
    var moved := s.(snake := body);
    assert Inv(moved);
    var fed := if head == s.food then Fed(moved, foodDraw) else moved;
    if head == s.food {
      FedKeepsInv(moved, foodDraw);
    }
    assert Inv(fed);
  }

  /** One step keeps the invariant: the snake stays on the board, never covers
      itself or an obstacle, the next direction is never the reverse of the
      last move, and the level is always one more than the fifths of the food
      eaten. The board and its obstacles do not change. */
  lemma TickPreservesInv(s: SnakeState, foodDraw: nat, specialDraw: nat)
    requires Inv(s)
    ensures var r := Tick(s, foodDraw, specialDraw);
            && Inv(r)
            && r.width == s.width && r.height == s.height && r.obstacles == s.obstacles
  {
    if !s.gameOver && !s.paused && !Collides(s) {
      var turned := s.(direction := s.nextDirection);
      TurnKeepsInv(s);
      var head := HeadAfter(s);
      NextHeadSteps(s.snake[0], s.nextDirection, s.width, s.height);
      AdvanceKeepsInv(turned, head, foodDraw);
      var advanced := Advance(turned, head, foodDraw);
      SpecialFoodPreservesInv(advanced, specialDraw);
      assert Tick(s, foodDraw, specialDraw) == SpecialFoodStep(advanced, specialDraw);
    }
  }

  /** A step that meets an obstacle or the snake itself ends the game and
      leaves the snake where it was; the high score catches up with the
      score. */
  lemma TickCollision(s: SnakeState, foodDraw: nat, specialDraw: nat)
    requires Inv(s) && !s.gameOver && !s.paused && Collides(s)
    ensures var r := Tick(s, foodDraw, specialDraw);
            && r.gameOver && r.snake == s.snake && r.score == s.score
            && r.highScore == Max(s.highScore, s.score)
  {
  }

  lemma {:induction false} AdvanceMovesSnake(s: SnakeState, head: Cell, foodDraw: nat)
    requires s.width >= 0 && s.height >= 0 && |s.snake| >= 1
    ensures var meal := head == s.food || s.specialFood == Some(head);
            Advance(s, head, foodDraw).snake
              == [head] + (if meal then s.snake else s.snake[..|s.snake| - 1])
  {
    var body := [head] + s.snake;
    var moved := s.(snake := body);
    var fed := if head == s.food then Fed(moved, foodDraw) else moved;
    assert fed.snake == body && fed.specialFood == s.specialFood;
    if !(head == s.food || s.specialFood == Some(head)) {
      assert body[..|body| - 1] == [head] + s.snake[..|s.snake| - 1];
    }
  }

  /** Without a collision the head moves one step and the body follows: the
      snake grows by exactly one segment on a meal, and otherwise the tail
      segment is dropped. */
  lemma TickMovesSnake(s: SnakeState, foodDraw: nat, specialDraw: nat)
    requires Inv(s) && !s.gameOver && !s.paused && !Collides(s)
    ensures var r := Tick(s, foodDraw, specialDraw);
            var meal := HeadAfter(s) == s.food || s.specialFood == Some(HeadAfter(s));
            && r.snake == [HeadAfter(s)] + (if meal then s.snake else s.snake[..|s.snake| - 1])
            && |r.snake| == |s.snake| + (if meal then 1 else 0)
            && !r.gameOver
  {
    var turned := s.(direction := s.nextDirection);
    AdvanceMovesSnake(turned, HeadAfter(s), foodDraw);
  }

  /** The score rises by 10 for food, 50 for the special food (60 for both at
      once) and never falls; the level goes up by one on every fifth food.
      Eaten food is replaced by a fresh spawn; an eaten special is gone, and
      its 40-tick wait has already lost this tick's countdown. */
  lemma TickScoring(s: SnakeState, foodDraw: nat, specialDraw: nat)
    requires Inv(s) && !s.gameOver && !s.paused && !Collides(s)
    ensures var r := Tick(s, foodDraw, specialDraw);
            var head := HeadAfter(s);
            && r.score == s.score + (if head == s.food then 10 else 0)
                                  + (if s.specialFood == Some(head) then 50 else 0)
            && r.foodEaten == s.foodEaten + (if head == s.food then 1 else 0)
            && r.level == s.level + (if head == s.food && r.foodEaten % 5 == 0 then 1 else 0)
            && r.highScore == Max(s.highScore, r.score)
            && r.food == (if head == s.food
                          then SpawnFood(s.width, s.height, [head] + s.snake, s.obstacles, s.specialFood, foodDraw)
                          else s.food)
            && (s.specialFood == Some(head) ==> r.specialFood.None? && r.specialFoodCooldown == 39)
  {
    var head := HeadAfter(s);
    if head == s.food {
      var fed := Fed(s.(direction := s.nextDirection, snake := [head] + s.snake), foodDraw);
      assert fed.specialFood == s.specialFood;
    }
  }

  /** The special-food countdowns: a present special loses one tick and goes
      away at zero with a 30-tick wait; an absent one counts its wait down
      and appears for 28 ticks at zero, on a cell not taken by the snake or
      an obstacle whenever the board has such a cell. */
  lemma SpecialFoodCycle(s: SnakeState, draw: nat)
    requires Inv(s)
    ensures var r := SpecialFoodStep(s, draw);
            && (s.specialFood.Some? && s.specialFoodTicks > 1 ==>
                  r.specialFood == s.specialFood && r.specialFoodTicks == s.specialFoodTicks - 1)
            && (s.specialFood.Some? && s.specialFoodTicks <= 1 ==>
                  r.specialFood.None? && r.specialFoodCooldown == 30)
            && (s.specialFood.None? && s.specialFoodCooldown > 1 ==>
                  r.specialFood.None? && r.specialFoodCooldown == s.specialFoodCooldown - 1)
            && (s.specialFood.None? && s.specialFoodCooldown <= 1 ==>
                  r.specialFood.Some? && r.specialFoodTicks == 28)
            && (s.specialFood.None? && s.specialFoodCooldown <= 1
                && |FreeCells(s.width, Blocked(s.snake, s.obstacles, None), s.height)| > 0 ==>
                  r.specialFood.value !in s.snake && r.specialFood.value !in s.obstacles)
            && r.snake == s.snake && r.score == s.score
  {
    if s.specialFood.None? && s.specialFoodCooldown <= 1 {
      var c := SpawnFood(s.width, s.height, s.snake, s.obstacles, s.specialFood, draw);
      SpawnFoodIsFree(s.width, s.height, s.snake, s.obstacles, s.specialFood, draw);
      BlockedMembers(s.snake, s.obstacles, s.specialFood, c);
    }
  }

  /** The next direction is never the reverse of the last move, so a running
      snake never turns straight back into its own neck. */
  lemma TickNeverReverses(s: SnakeState, foodDraw: nat, specialDraw: nat)
    requires Inv(s) && !s.gameOver && !s.paused
    ensures Tick(s, foodDraw, specialDraw).direction != Opposite(s.direction)
  {
  }

  // ---------------------------------------------------------------------
  // The screen
  // ---------------------------------------------------------------------

  class SnakeGame {
    var width: int
    var height: int
    var snake: seq<Cell>
    var direction: Cell
    var nextDirection: Cell
    var food: Cell
    var specialFood: Option<Cell>
    var specialFoodTicks: int
    var specialFoodCooldown: int
    var obstacles: set<Cell>
    var score: int
    var highScore: int
    var level: int
    var foodEaten: int
    var gameOver: bool
    var paused: bool

    function State(): SnakeState
      reads this
    {
      SnakeState(width, height, snake, direction, nextDirection, food, specialFood,
                 specialFoodTicks, specialFoodCooldown, obstacles, score, highScore,
                 level, foodEaten, gameOver, paused)
    }

    ghost predicate Valid()
      reads this
    {
      Inv(State()) && RingBuilt(State())
    }

    /** `__init__` followed by `on_mount`: the stored high score (read from
        disk by the source) and the canvas size are parameters. */
    constructor (storedHighScore: nat, canvasWidth: int, canvasHeight: int, foodDraw: nat)
      ensures State() == Mounted(storedHighScore, canvasWidth, canvasHeight, foodDraw)
      ensures Valid()
    {
      width, height := 34, 18;
      snake := [];
      direction, nextDirection := (1, 0), (1, 0);
      food := (0, 0);
      specialFood := None;
      specialFoodTicks, specialFoodCooldown := 0, 0;
      obstacles := {};
      score, highScore, level, foodEaten := 0, 0, 1, 0;
      gameOver, paused := false, false;
      new;
      highScore := storedHighScore;
      var _ := FitBoardToCanvas(canvasWidth, canvasHeight);
      ResetGame(true, foodDraw);
      MountedSatisfiesInv(storedHighScore, canvasWidth, canvasHeight, foodDraw);
    }

    method SetDirection(d: Cell)
      requires Valid() && IsUnit(d)
      modifies this
      ensures State() == Steer(old(State()), d)
      ensures Valid()
    {
      SetDirectionPreservesInv(State(), d);
      if gameOver {
        return;
      }
      if d == Opposite(direction) {
        return;
      }
      nextDirection := d;
    }

    /** `action_pause`. */
    method TogglePause()
      requires Valid()
      modifies this
      ensures State() == if old(gameOver) then old(State()) else old(State()).(paused := !old(paused))
      ensures Valid()
    {
      if gameOver {
        return;
      }
      paused := !paused;
    }

    /** `_fit_board_to_canvas`: only the size changes; the caller resets the
        game when it did. */
    method FitBoardToCanvas(canvasWidth: int, canvasHeight: int) returns (changed: bool)
      modifies this
      ensures (width, height) == FittedSize(canvasWidth, canvasHeight)
      ensures changed <==> (width, height) != (old(width), old(height))
      ensures State() == old(State()).(width := width, height := height)
    {
      var canvasW := Max(1, canvasWidth);
      var canvasH := Max(1, canvasHeight);
      var newWidth := Max(8, canvasW / CellWidth);
      var newHeight := Max(6, canvasH / CellHeight);
      changed := newWidth != width || newHeight != height;
      if changed {
        width := newWidth;
        height := newHeight;
      }
    }

    /** `on_resize`: refit the board, and start over if its size changed. */
    method Resize(canvasWidth: int, canvasHeight: int, foodDraw: nat)
      requires Valid()
      modifies this
      ensures Valid()
      ensures var size := FittedSize(canvasWidth, canvasHeight);
              State() == if size == (old(width), old(height)) then old(State())
                         else Reset(old(State()).(width := size.0, height := size.1), true, foodDraw)
    {
      var changed := FitBoardToCanvas(canvasWidth, canvasHeight);
      if changed {
        ResetGame(true, foodDraw);
      }
    }

    /** `_reset_game`. */
    method ResetGame(resetScore: bool, foodDraw: nat)
      requires width >= 8 && height >= 6 && 0 <= score <= highScore
      modifies this
      ensures State() == Reset(old(State()), resetScore, foodDraw)
      ensures Valid()
    {
      ghost var before := State();
      PlaceStartSnake();
      obstacles := BuildObstacles();
      food := SpawnFood(width, height, snake, obstacles, specialFood, foodDraw);
      specialFood, specialFoodTicks, specialFoodCooldown := None, 0, 24;
      RestartCounters(resetScore);
      ResetEstablishesInv(before, resetScore, foodDraw);
    }

    /** The first lines of `_reset_game`: three segments at the centre,
        heading right. */
    method PlaceStartSnake()
      modifies this
      ensures State() == old(State()).(snake := StartSnake(width, height),
                                       direction := (1, 0), nextDirection := (1, 0))
    {
      var centerX := width / 2;
      var centerY := height / 2;
      snake := [(centerX, centerY), (centerX - 1, centerY), (centerX - 2, centerY)];
      direction := (1, 0);
      nextDirection := (1, 0);
    }

    /** The flags and counters `_reset_game` clears, and the score when asked
        to. */
    method RestartCounters(resetScore: bool)
      modifies this
      ensures State() == old(State()).(gameOver := false, paused := false, level := 1, foodEaten := 0,
                                       score := if resetScore then 0 else old(score))
    {
      gameOver := false;
      paused := false;
      level := 1;
      foodEaten := 0;
      if resetScore {
        score := 0;
      }
    }

    /** `_build_obstacles`: the ring, cell by cell. */
    method BuildObstacles() returns (ring: set<Cell>)
      ensures ring == ObstacleRing(width, height)
    {
      ring := {};
      var centerX := width / 2;
      var centerY := height / 2;
      var ringHalfW := Max(3, width / 5);
      var ringHalfH := Max(2, height / 5);
      var left := Max(1, centerX - ringHalfW);
      var right := Min(width - 2, centerX + ringHalfW);
      var top := Max(1, centerY - ringHalfH);
      var bottom := Min(height - 2, centerY + ringHalfH);
      assert RingBox(width, height) == (left, right, top, bottom);

      var x := left;
      while x < right + 1
        invariant left <= x <= Max(left, right + 1)
        invariant forall c :: c in ring <==> OnRingEdge(width, height, c) && c.0 < x
      {
        if x != centerX - 1 && x != centerX && x != centerX + 1 {
          ring := ring + {(x, top), (x, bottom)};
        }
        x := x + 1;
      }
      var y := top + 1;
      while y < bottom
        invariant top + 1 <= y <= Max(top + 1, bottom)
        invariant forall c :: c in ring <==> OnRingEdge(width, height, c) || (OnRingSide(width, height, c) && c.1 < y)
      {
        if y != centerY - 1 && y != centerY && y != centerY + 1 {
          ring := ring + {(left, y), (right, y)};
        }
        y := y + 1;
      }
      forall c ensures c in ring <==> c in ObstacleRing(width, height) {
        RingMembers(width, height, c);
      }
    }

    /** `_update_special_food`. */
    method UpdateSpecialFood(draw: nat)
      requires width >= 0 && height >= 0
      modifies this
      ensures State() == SpecialFoodStep(old(State()), draw)
    {
      if specialFood.Some? {
        specialFoodTicks := specialFoodTicks - 1;
        if specialFoodTicks <= 0 {
          specialFood := None;
          specialFoodCooldown := 30;
        }
        return;
      }
      specialFoodCooldown := specialFoodCooldown - 1;
      if specialFoodCooldown <= 0 {
        specialFood := Some(SpawnFood(width, height, snake, obstacles, specialFood, draw));
        specialFoodTicks := 28;
      }
    }

    /** `_game_tick`. */
    method GameTick(foodDraw: nat, specialDraw: nat)
      requires Valid()
      modifies this
      ensures State() == Tick(old(State()), foodDraw, specialDraw)
      ensures Valid()
    {
      ghost var before := State();
      TickPreservesInv(before, foodDraw, specialDraw);
      if gameOver || paused {
        return;
      }
      direction := nextDirection;
      ghost var turned := State();
      assert turned == before.(direction := before.nextDirection);
      var nextHead := NextHead(snake[0], direction, width, height);

      if nextHead in obstacles || nextHead in snake {
        EndGame();
        return;
      }
      MoveSnake(nextHead, foodDraw);
      assert State() == Advance(turned, nextHead, foodDraw);
      UpdateSpecialFood(specialDraw);
    }

    /** The part of `_game_tick` after the collision test: the head goes on,
        the food and the special food are eaten if it lands on them, and the
        tail is dropped when nothing was eaten. */
    method MoveSnake(nextHead: Cell, foodDraw: nat)
      requires width >= 0 && height >= 0
      modifies this
      ensures State() == Advance(old(State()), nextHead, foodDraw)
    {
      snake := [nextHead] + snake;
      var grew := false;
      if nextHead == food {
        EatFood(foodDraw);
        grew := true;
      }
      if specialFood.Some? && nextHead == specialFood.value {
        EatSpecialFood();
        grew := true;
      }
      if !grew {
        snake := snake[..|snake| - 1];
      }
    }

    /** The collision branch of `_game_tick`. */
    method EndGame()
      modifies this
      ensures State() == old(State()).(gameOver := true, highScore := Max(old(highScore), old(score)))
    {
      gameOver := true;
      if score > highScore {
        highScore := score;
      }
    }

    /** The food branch of `_game_tick`, run after the head has moved. */
    method EatFood(foodDraw: nat)
      requires width >= 0 && height >= 0
      modifies this
      ensures State() == Fed(old(State()), foodDraw)
    {
      score := score + 10;
      foodEaten := foodEaten + 1;
      food := SpawnFood(width, height, snake, obstacles, specialFood, foodDraw);
      if foodEaten % 5 == 0 {
        level := level + 1;
      }
      if score > highScore {
        highScore := score;
      }
    }

    /** The special-food branch of `_game_tick`. */
    method EatSpecialFood()
      modifies this
      ensures State() == FedSpecial(old(State()))
    {
      score := score + 50;
      specialFood := None;
      specialFoodTicks := 0;
      specialFoodCooldown := 40;
      if score > highScore {
        highScore := score;
      }
    }
  }
}
