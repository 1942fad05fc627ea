/** The rules of the Pac-Man engine as functions on values: one tick of the
    game is the global scatter/chase schedule, then the player's move and
    meal, then each ghost in turn, the fruit, the collisions and the level
    check. The engine class in `pacman_game.dfy` is proved to follow these
    functions step by step; the properties of the game are proved here. */
module Pacman {
  import opened Maze

  datatype Mode = Home | Scatter | Chase | Frightened | Eaten

  /** One ghost record (the `Ghost` dataclass). */
  datatype GhostState = GhostState(
    name: string, x: int, y: int, homeX: int, homeY: int, color: string,
    mode: Mode, direction: Dir, released: bool, frightenedTicks: int, releaseTick: int)

  /** The maze as it is being eaten, with the running and the starting
      pellet counts. */
  datatype Board = Board(grid: Grid, pelletCount: int, initialPelletCount: int)

  /** The player's tile, heading and queued heading. */
  datatype Player = Player(x: int, y: int, dir: Dir, nextDir: Dir)

  /** The tick counter and the global scatter/chase schedule. */
  datatype Clock = Clock(tick: int, modeTimer: int, modeCycleIndex: int, globalMode: Mode)

  /** The bonus fruit: shown or not, its countdown, and whether its first and
      second appearances have happened. */
  datatype Fruit = Fruit(visible: bool, ticksLeft: int, spawnedOnce: bool, spawnedTwice: bool)

  /** The ghost combo, the score, the lives and the end-of-game flags. */
  datatype Tally = Tally(ghostCombo: int, score: int, lives: int, gameOver: bool, levelCleared: bool)

  /** Everything the engine keeps between ticks. */
  datatype GameState = GameState(
    board: Board, player: Player, ghosts: seq<GhostState>, clock: Clock, fruit: Fruit, tally: Tally)

  /** The random draws one ghost may use in a tick: the two coordinates of
      `_random_target` and the index handed to `random.choice`. Each is
      reduced modulo the number of candidates, so every candidate can be
      drawn and nothing else. */
  datatype Roll = Roll(targetX: nat, targetY: nat, pick: nat)

  /** The draws of ghost `i`; a missing entry draws zeros. */
  function RollAt(rolls: seq<Roll>, i: nat): Roll {
    if i < |rolls| then rolls[i] else Roll(0, 0, 0)
  }

  const StartX := 14
  const StartY := 16
  const FruitX := 14
  const FruitY := 10
  const FruitTicks := 80
  const FrightTicks := 75

  /** The scatter/chase phase lengths in ticks; the last one is long but
      finite. */
  const Schedule: seq<int> := [58, 166, 58, 166, 42, 166, 42, 99999]

  /** `_init_ghosts`: Blinky starts out released and chasing, the others wait
      at home for their release tick. */
  const InitialGhosts: seq<GhostState> := [
    GhostState("Blinky", 14, 10, 14, 10, "#ff4f5e", Chase, Left, true, 0, 0),
    GhostState("Pinky", 13, 10, 13, 10, "#ff89d0", Home, Left, false, 0, 40),
    GhostState("Inky", 14, 9, 14, 9, "#5fd8ff", Home, Left, false, 0, 90),
    GhostState("Clyde", 15, 10, 15, 10, "#ffb36b", Home, Left, false, 0, 140)
  ]

  function Abs(n: int): nat {
    if n < 0 then -n else n
  }

  function Pow2(n: nat): nat {
    if n == 0 then 1 else 2 * Pow2(n - 1)
  }

  // ---------------------------------------------------------------------
  // Reset

  /** A fresh copy of the level with its pellets counted. */
  function FreshBoard(): Board {
    Board(Level, Pellets(Level), Pellets(Level))
  }

  /** The player at its starting tile, facing left. */
  const StartPlayer := Player(StartX, StartY, Left, Left)

  /** The state `__init__` leaves before the screen is mounted. */
  function Unmounted(): GameState {
    GameState(Board(Level, 0, 0), StartPlayer, InitialGhosts, Clock(0, 0, 0, Scatter),
              Fruit(false, 0, false, false), Tally(0, 0, 3, false, false))
  }

  /** `_reset_level`: a fresh maze, the player and the ghosts back at their
      starting tiles, the schedule, fruit and combo restarted; the score and
      the lives restart only when asked to. */
  function ResetLevel(s: GameState, resetScore: bool): GameState {
    GameState(FreshBoard(), StartPlayer, InitialGhosts, Clock(0, 0, 0, Scatter),
              Fruit(false, 0, false, false),
              Tally(0, if resetScore then 0 else s.tally.score, if resetScore then 3 else s.tally.lives, false, false))
  }

  // ---------------------------------------------------------------------
  // The global schedule

  /** `_update_global_mode`. */
  function UpdateGlobalMode(c: Clock): Clock
    requires 0 <= c.modeCycleIndex
  {
    var timer := c.modeTimer + 1;
    var last := |Schedule| - 1;
    if timer >= Schedule[if c.modeCycleIndex < last then c.modeCycleIndex else last] then
      c.(modeTimer := 0,
         modeCycleIndex := if c.modeCycleIndex + 1 < last then c.modeCycleIndex + 1 else last,
         globalMode := if c.globalMode == Scatter then Chase else Scatter)
    else c.(modeTimer := timer)
  }

  // ---------------------------------------------------------------------
  // The player

  /** The turn and step part of `_move_player`: the queued direction is taken
      when it is open, then the player steps one tile if the direction it
      faces is open, round the tunnel if need be. */
  function PlayerStep(grid: Grid, p: Player): Player
    requires Shaped(grid)
  {
    var dir := if CanMove(grid, p.x, p.y, p.nextDir, false) then p.nextDir else p.dir;
    if CanMove(grid, p.x, p.y, dir, false) then
      var ny := p.y + DirDelta(dir).1;
      p.(dir := dir, x := Wrap(p.x + DirDelta(dir).0, ny), y := ny)
    else p.(dir := dir)
  }

  /** A power pellet frightens every ghost that is out and about. */
  function Frighten(g: GhostState): GhostState {
    if g.mode != Home && g.mode != Eaten then g.(mode := Frightened, frightenedTicks := FrightTicks) else g
  }

  function FrightenAll(gs: seq<GhostState>): (r: seq<GhostState>)
    ensures |r| == |gs| && forall j :: 0 <= j < |gs| ==> r[j] == Frighten(gs[j])
  {
    seq(|gs|, j requires 0 <= j < |gs| => Frighten(gs[j]))
  }

  /** The pellet under the player is eaten: the tile is emptied and the count
      drops by one. */
  function EatPellet(b: Board, x: int, y: int): Board
    requires Shaped(b.grid) && InBounds(x, y)
  {
    b.(grid := ClearTile(b.grid, x, y), pelletCount := b.pelletCount - 1)
  }

  /** The meal part of `_move_player`: the tile under the player. */
  function EatTile(s: GameState): (r: GameState)
    requires Shaped(s.board.grid)
    ensures Shaped(r.board.grid)
  {
    var (x, y) := (s.player.x, s.player.y);
    var tile := TileAt(s.board.grid, x, y);
    if tile == Pellet then
      s.(board := EatPellet(s.board, x, y), tally := s.tally.(score := s.tally.score + 10))
    else if tile == Power then
      s.(board := EatPellet(s.board, x, y), tally := s.tally.(score := s.tally.score + 50, ghostCombo := 0),
         ghosts := FrightenAll(s.ghosts))
    else s
  }

  /** `_move_player`. */
  function MovePlayer(s: GameState): (r: GameState)
    requires Shaped(s.board.grid)
    ensures Shaped(r.board.grid)
  {
    EatTile(s.(player := PlayerStep(s.board.grid, s.player)))
  }

  // ---------------------------------------------------------------------
  // Ghost targets and the ghost step

  /** `_scatter_target`: each ghost's home corner. */
  function ScatterTarget(name: string): (int, int) {
    if name == "Blinky" then (Width - 2, 1)
    else if name == "Pinky" then (1, 1)
    else if name == "Inky" then (Width - 2, Height - 2)
    else if name == "Clyde" then (1, Height - 2)
    else (Width - 2, 1)
  }

  /** `_chase_target`. Inky reads the first ghost of the roster as it stands
      at that moment. */
  function ChaseTarget(p: Player, ghosts: seq<GhostState>, g: GhostState): (int, int)
    requires |ghosts| > 0
  {
    var (px, py) := (p.x, p.y);
    var (dx, dy) := DirDelta(p.dir);
    if g.name == "Blinky" then (px, py)
    else if g.name == "Pinky" then (px + dx * 4, py + dy * 4)
    else if g.name == "Inky" then
      var (ax, ay) := (px + dx * 2, py + dy * 2);
      var blinky := ghosts[0];
      (ax + (ax - blinky.x), ay + (ay - blinky.y))
    else if Abs(g.x - px) + Abs(g.y - py) > 8 then (px, py)
    else ScatterTarget("Clyde")
  }

  /** `_random_target`: a tile strictly inside the border. */
  function RandomTarget(roll: Roll): (int, int) {
    (1 + roll.targetX % (Width - 2), 1 + roll.targetY % (Height - 2))
  }

  /** The target a ghost steers for in its mode. */
  function GhostTarget(p: Player, ghosts: seq<GhostState>, g: GhostState, roll: Roll): (int, int)
    requires |ghosts| > 0
  {
    match g.mode
    case Eaten => (g.homeX, g.homeY)
    case Scatter => ScatterTarget(g.name)
    case Chase => ChaseTarget(p, ghosts, g)
    case Frightened => RandomTarget(roll)
    case Home => (g.homeX, g.homeY)
  }

  /** One entry of the options list of `_step_ghost_toward`. */
  datatype Choice = Choice(x: int, y: int, dir: Dir, dist: int)

  /** The order in which a ghost considers its directions. */
  const Preference: seq<Dir> := [Up, Left, Down, Right]

  /** Whether a ghost may take direction `d`: it must be open to ghosts and,
      unless the ghost is frightened, must not reverse its heading. */
  predicate Allowed(grid: Grid, g: GhostState, d: Dir)
    requires Shaped(grid)
  {
    (g.mode == Frightened || d != Reverse(g.direction)) && CanMove(grid, g.x, g.y, d, true)
  }

  function ChoiceFor(g: GhostState, target: (int, int), d: Dir): Choice {
    var nx := g.x + DirDelta(d).0;
    var ny := g.y + DirDelta(d).1;
    Choice(nx, ny, d, Abs(target.0 - nx) + Abs(target.1 - ny))
  }

  /** The options built from the directions in `dirs`, in that order. */
  function Options(grid: Grid, g: GhostState, target: (int, int), dirs: seq<Dir>): seq<Choice>
    requires Shaped(grid)
  {
    if |dirs| == 0 then []
    else
      Options(grid, g, target, dirs[..|dirs| - 1])
      + (if Allowed(grid, g, dirs[|dirs| - 1]) then [ChoiceFor(g, target, dirs[|dirs| - 1])] else [])
  }

  /** Every entry of the options list is an allowed direction of `dirs`, with
      the tile one step that way and its distance to the target, and every
      allowed direction of `dirs` has an entry. */
  lemma {:induction false} OptionsMembers(grid: Grid, g: GhostState, target: (int, int), dirs: seq<Dir>)
    requires Shaped(grid)
    ensures var opts := Options(grid, g, target, dirs);
            && |opts| <= |dirs|
            && (forall k :: 0 <= k < |opts| ==> opts[k] == ChoiceFor(g, target, opts[k].dir) && opts[k].dir in dirs && Allowed(grid, g, opts[k].dir))
            && (forall d :: d in dirs && Allowed(grid, g, d) ==> exists k :: 0 <= k < |opts| && opts[k].dir == d)
  {
    if |dirs| > 0 {
      var init := dirs[..|dirs| - 1];
      OptionsMembers(grid, g, target, init);
      var opts := Options(grid, g, target, dirs);
      var prev := Options(grid, g, target, init);
      assert opts[..|prev|] == prev;
      forall d | d in dirs && Allowed(grid, g, d)
        ensures exists k :: 0 <= k < |opts| && opts[k].dir == d
      {
        if d in init {
          var k :| 0 <= k < |prev| && prev[k].dir == d;
          assert opts[k] == prev[k];
        } else {
          assert d == dirs[|dirs| - 1];
          assert opts[|opts| - 1].dir == d;
        }
      }
    }
  }

  /** The position of the first option of least distance: the head of the
      options list after Python's stable sort by distance. */
  function BestIndex(opts: seq<Choice>): (k: nat)
    requires |opts| > 0
    ensures k < |opts|
    ensures forall j :: 0 <= j < |opts| ==> opts[k].dist <= opts[j].dist
    ensures forall j :: 0 <= j < k ==> opts[j].dist > opts[k].dist
  {
    if |opts| == 1 then 0
    else
      var k := BestIndex(opts[..|opts| - 1]);
      if opts[|opts| - 1].dist < opts[k].dist then |opts| - 1 else k
  }

  /** `_step_ghost_toward`: a frightened ghost takes a random option, any
      other the best one; with no option the ghost stays where it is. */
  function StepToward(grid: Grid, g: GhostState, target: (int, int), pick: nat): GhostState
    requires Shaped(grid)
  {
    var opts := Options(grid, g, target, Preference);
    if |opts| == 0 then g
    else
      var c := if g.mode == Frightened then opts[pick % |opts|] else opts[BestIndex(opts)];
      g.(x := c.x, y := c.y, direction := c.dir)
  }

  // ---------------------------------------------------------------------
  // Moving the ghosts

  /** Release from the house once the release tick has come. */
  function Release(phase: Mode, g: GhostState): GhostState {
    if !g.released then g.(released := true, mode := phase) else g
  }

  /** The frightened countdown; at zero the ghost takes the global mode. */
  function CountDown(phase: Mode, g: GhostState): GhostState {
    if g.mode == Frightened && g.frightenedTicks > 0 then
      if g.frightenedTicks - 1 == 0 then g.(frightenedTicks := 0, mode := phase)
      else g.(frightenedTicks := g.frightenedTicks - 1)
    else g
  }

  /** An eaten ghost back on its home tile takes the global mode. */
  function Revive(phase: Mode, g: GhostState): GhostState {
    if g.mode == Eaten && g.x == g.homeX && g.y == g.homeY then g.(mode := phase, frightenedTicks := 0)
    else g
  }

  /** Ghost `i`'s turn in `_move_ghosts`, the roster standing as `ghosts`:
      the ghost as it stands afterwards. */
  function GhostTurn(s: GameState, ghosts: seq<GhostState>, i: nat, roll: Roll): GhostState
    requires Shaped(s.board.grid) && i < |ghosts|
  {
    var g := ghosts[i];
    var phase := s.clock.globalMode;
    if !g.released && s.clock.tick < g.releaseTick then g
    else
      var counted := CountDown(phase, Release(phase, g));
      var target := GhostTarget(s.player, ghosts[i := counted], counted, roll);
      if counted.mode == Frightened && s.clock.tick % 2 == 1 then counted
      else Revive(phase, StepToward(s.board.grid, counted, target, roll.pick))
  }

  /** The roster after the first `n` ghost turns, in roster order: each ghost
      sees the ones before it already moved. */
  function MoveGhostsUpTo(s: GameState, n: nat, rolls: seq<Roll>): (gs: seq<GhostState>)
    requires Shaped(s.board.grid) && n <= |s.ghosts|
    ensures |gs| == |s.ghosts|
  {
    if n == 0 then s.ghosts
    else
      var before := MoveGhostsUpTo(s, n - 1, rolls);
      before[n - 1 := GhostTurn(s, before, n - 1, RollAt(rolls, n - 1))]
  }

  /** `_move_ghosts`. */
  function MoveGhosts(s: GameState, rolls: seq<Roll>): GameState
    requires Shaped(s.board.grid)
  {
    s.(ghosts := MoveGhostsUpTo(s, |s.ghosts|, rolls))
  }

  // ---------------------------------------------------------------------
  // Fruit

  /** `_spawn_fruit`. */
  function SpawnFruit(f: Fruit): Fruit {
    f.(visible := true, ticksLeft := FruitTicks)
  }

  /** `pellets / initial <= num / 10`, without division. */
  predicate RatioAtMost(b: Board, num: int) {
    10 * b.pelletCount <= num * b.initialPelletCount
  }

  /** The appearance part of `_update_fruit`. */
  function FruitAppears(b: Board, f: Fruit): Fruit {
    if !f.spawnedOnce && RatioAtMost(b, 7) then SpawnFruit(f).(spawnedOnce := true)
    else if !f.spawnedTwice && RatioAtMost(b, 3) then SpawnFruit(f).(spawnedTwice := true)
    else f
  }

  /** The countdown part of `_update_fruit`: a shown fruit loses a tick and
      is eaten for 300 points when the player stands on it, or vanishes when
      its time is up. */
  function FruitCountdown(s: GameState): GameState {
    if s.fruit.visible then
      var left := s.fruit.ticksLeft - 1;
      if s.player.x == FruitX && s.player.y == FruitY then
        s.(fruit := s.fruit.(ticksLeft := left, visible := false), tally := s.tally.(score := s.tally.score + 300))
      else if left <= 0 then s.(fruit := s.fruit.(ticksLeft := left, visible := false))
      else s.(fruit := s.fruit.(ticksLeft := left))
    else s
  }

  /** `_update_fruit`: nothing on a level without pellets. */
  function UpdateFruit(s: GameState): GameState {
    if s.board.initialPelletCount == 0 then s
    else FruitCountdown(s.(fruit := FruitAppears(s.board, s.fruit)))
  }

  // ---------------------------------------------------------------------
  // Collisions and death

  /** A ghost after a death: home, waiting, facing left, not frightened. */
  function SendHome(g: GhostState): GhostState {
    g.(x := g.homeX, y := g.homeY, mode := Home, released := false, direction := Left, frightenedTicks := 0)
  }

  function SendAllHome(gs: seq<GhostState>): (r: seq<GhostState>)
    ensures |r| == |gs| && forall j :: 0 <= j < |gs| ==> r[j] == SendHome(gs[j])
  {
    seq(|gs|, j requires 0 <= j < |gs| => SendHome(gs[j]))
  }

  /** `_reset_after_death`: the player back at the start, every ghost sent
      home, and the first ghost released at once in the global mode. */
  function ResetAfterDeath(s: GameState): GameState {
    var home := SendAllHome(s.ghosts);
    s.(player := StartPlayer, tally := s.tally.(ghostCombo := 0),
       ghosts := if |home| > 0 then home[0 := home[0].(released := true, mode := s.clock.globalMode)] else home)
  }

  /** Ghost `i`, frightened on the player's tile, is eaten: the combo grows
      and the bonus doubles with it. */
  function EatGhostAt(s: GameState, i: nat): GameState
    requires i < |s.ghosts|
  {
    var combo := s.tally.ghostCombo + 1;
    s.(ghosts := s.ghosts[i := s.ghosts[i].(mode := Eaten)],
       tally := s.tally.(ghostCombo := combo, score := s.tally.score + 200 * Pow2(if combo >= 1 then combo - 1 else 0)))
  }

  /** A life lost; the game ends when none is left. */
  function LoseLife(t: Tally): Tally {
    var lives := t.lives - 1;
    t.(lives := lives, gameOver := t.gameOver || lives <= 0)
  }

  /** `_resolve_collisions` from ghost `i` on: a frightened ghost on the
      player's tile is eaten for a doubling bonus; any other ghost there that
      is not already eaten costs a life and ends the pass. */
  function ResolveFrom(s: GameState, i: nat): GameState
    requires i <= |s.ghosts|
    decreases |s.ghosts| - i
  {
    if i == |s.ghosts| then s
    else
      var g := s.ghosts[i];
      if g.x != s.player.x || g.y != s.player.y then ResolveFrom(s, i + 1)
      else if g.mode == Frightened then ResolveFrom(EatGhostAt(s, i), i + 1)
      else if g.mode != Eaten then ResetAfterDeath(s.(tally := LoseLife(s.tally)))
      else ResolveFrom(s, i + 1)
  }

  function ResolveCollisions(s: GameState): GameState {
    ResolveFrom(s, 0)
  }

  /** `_check_level_clear`. */
  function CheckLevelClear(s: GameState): GameState {
    if s.board.pelletCount <= 0 then s.(tally := s.tally.(levelCleared := true, gameOver := true)) else s
  }

  // ---------------------------------------------------------------------
  // The tick

  /** The steps of `_game_tick` after the tick counter and the game-over
      test. */
  function Play(s: GameState, rolls: seq<Roll>): GameState
    requires Shaped(s.board.grid) && 0 <= s.clock.modeCycleIndex
  {
    var moved := MovePlayer(s.(clock := UpdateGlobalMode(s.clock)));
    CheckLevelClear(ResolveCollisions(UpdateFruit(MoveGhosts(moved, rolls))))
  }

  /** `_game_tick`. */
  function Tick(s: GameState, rolls: seq<Roll>): GameState
    requires Shaped(s.board.grid) && 0 <= s.clock.modeCycleIndex
  {
    var counted := s.(clock := s.clock.(tick := s.clock.tick + 1));
    if counted.tally.gameOver then counted else Play(counted, rolls)
  }
}
