/** What the Pac-Man rules guarantee: the invariant every tick keeps, and the
    behaviour of each step of a tick (the schedule, the player's move and
    meal, a ghost's turn and step, the fruit, collisions and death). */
module PacmanLaws {
  import opened Maze
  import opened Pacman

  // ---------------------------------------------------------------------
  // The invariant

  /** Ghost `i` keeps its identity (name, home, colour, release tick), stays
      on the board, is released exactly when it has left the house mode, and
      a frightened ghost has between 1 and 75 ticks of fright left. */
  predicate GhostOk(g: GhostState, i: int)
    requires 0 <= i < |InitialGhosts|
  {
    var start := InitialGhosts[i];
    && g.name == start.name && g.homeX == start.homeX && g.homeY == start.homeY
    && g.color == start.color && g.releaseTick == start.releaseTick
    && InBounds(g.x, g.y)
    && (g.released <==> g.mode != Home)
    && (g.mode == Frightened ==> 1 <= g.frightenedTicks <= FrightTicks)
  }

  /** The four ghosts of `_init_ghosts`, in order, each well formed. */
  predicate Roster(gs: seq<GhostState>) {
    |gs| == |InitialGhosts| && forall i :: 0 <= i < |gs| ==> GhostOk(gs[i], i)
  }

  predicate IsPhase(m: Mode) {
    m == Scatter || m == Chase
  }

  /** The maze only ever loses pellets, and the counts follow it. */
  ghost predicate BoardOk(b: Board) {
    && Shaped(b.grid) && Eroded(b.grid)
    && b.initialPelletCount == Pellets(Level) && b.pelletCount == Pellets(b.grid)
  }

  predicate ClockOk(c: Clock) {
    IsPhase(c.globalMode) && 0 <= c.modeCycleIndex < |Schedule| && 0 <= c.modeTimer && 0 <= c.tick
  }

  /** A shown fruit has between 1 and 80 ticks left and has appeared at least
      once; the second appearance comes after the first. */
  predicate FruitOk(f: Fruit) {
    && (f.visible ==> 1 <= f.ticksLeft <= FruitTicks && f.spawnedOnce)
    && (f.spawnedTwice ==> f.spawnedOnce)
  }

  predicate TallyOk(t: Tally) {
    0 <= t.ghostCombo && 0 <= t.score && (t.levelCleared ==> t.gameOver)
  }

  /** The state a tick starts from and ends in. */
  ghost predicate Inv(s: GameState) {
    && BoardOk(s.board)
    && InBounds(s.player.x, s.player.y)
    && Roster(s.ghosts)
    && ClockOk(s.clock)
    && FruitOk(s.fruit)
    && TallyOk(s.tally)
  }

  lemma InitialRoster()
    ensures Roster(InitialGhosts)
  {
  }

  /** `_reset_level` starts a level in a good state (given a score that is
      not negative when it is kept). */
  lemma ResetLevelEstablishesInv(s: GameState, resetScore: bool)
    requires resetScore || s.tally.score >= 0
    ensures Inv(ResetLevel(s, resetScore))
    ensures var b := ResetLevel(s, resetScore).board;
            b.grid == Level && b.pelletCount == b.initialPelletCount == Pellets(Level)
  {
    LevelShaped();
    InitialRoster();
  }

  /** The screen as it is once mounted. */
  lemma MountedSatisfiesInv()
    ensures Inv(ResetLevel(Unmounted(), false))
  {
    ResetLevelEstablishesInv(Unmounted(), false);
  }

  // ---------------------------------------------------------------------
  // Pellets

  /** A row whose pellets are all pellets of another row holds no more. */
  lemma {:induction false} RowPelletsMonotone(a: seq<char>, b: seq<char>)
    requires |a| == |b| && forall i :: 0 <= i < |a| && IsPellet(a[i]) ==> IsPellet(b[i])
    ensures RowPellets(a) <= RowPellets(b)
  {
    if |a| > 0 {
      RowPelletsMonotone(a[..|a| - 1], b[..|b| - 1]);
    }
  }

  lemma {:induction false} PelletsMonotone(g: Grid, h: Grid)
    requires |g| == |h|
    requires forall y :: 0 <= y < |g| ==> |g[y]| == |h[y]| && forall x :: 0 <= x < |g[y]| && IsPellet(g[y][x]) ==> IsPellet(h[y][x])
    ensures Pellets(g) <= Pellets(h)
  {
    if |g| > 0 {
      PelletsMonotone(g[..|g| - 1], h[..|h| - 1]);
      RowPelletsMonotone(g[|g| - 1], h[|h| - 1]);
    }
  }

  /** The pellet count never exceeds the count the level started with. */
  lemma PelletsAtMostInitial(b: Board)
    requires BoardOk(b)
    ensures 0 <= b.pelletCount <= b.initialPelletCount
  {
    LevelShaped();
    forall y | 0 <= y < |b.grid|
      ensures |b.grid[y]| == |Level[y]| && forall x :: 0 <= x < |b.grid[y]| && IsPellet(b.grid[y][x]) ==> IsPellet(Level[y][x])
    {
    }
    PelletsMonotone(b.grid, Level);
  }

  // ---------------------------------------------------------------------
  // The global schedule

  /** `mode_timer` counts ticks; when it reaches the length of the current
      phase it restarts at 0, the phase flips between scatter and chase and
      the phase index moves on, stopping at the last one. The tick counter
      does not change. */
  lemma GlobalModeSchedule(c: Clock)
    requires ClockOk(c)
    ensures var r := UpdateGlobalMode(c);
            && ClockOk(r) && r.tick == c.tick
            && (c.modeTimer + 1 >= Schedule[c.modeCycleIndex] ==>
                  && r.modeTimer == 0 && r.globalMode != c.globalMode
                  && r.modeCycleIndex == (if c.modeCycleIndex == |Schedule| - 1 then c.modeCycleIndex else c.modeCycleIndex + 1))
            && (c.modeTimer + 1 < Schedule[c.modeCycleIndex] ==>
                  r.modeTimer == c.modeTimer + 1 && r.globalMode == c.globalMode && r.modeCycleIndex == c.modeCycleIndex)
  {
  }

  // ---------------------------------------------------------------------
  // The player

  /** The player takes the queued direction exactly when it is open (or it is
      already the heading), and then either stays put, because the heading is
      blocked, or makes one legal step, wrapped round the tunnel. It never
      leaves the board. */
  lemma PlayerStepRules(grid: Grid, p: Player)
    requires Shaped(grid) && InBounds(p.x, p.y)
    ensures var r := PlayerStep(grid, p);
            var d := r.dir;
            && r.nextDir == p.nextDir
            && (d == p.nextDir <==> CanMove(grid, p.x, p.y, p.nextDir, false) || p.dir == p.nextDir)
            && (d != p.nextDir ==> d == p.dir)
            && InBounds(r.x, r.y)
            && (CanMove(grid, p.x, p.y, d, false) ==>
                  r.y == p.y + DirDelta(d).1 && r.x == Wrap(p.x + DirDelta(d).0, r.y))
            && (!CanMove(grid, p.x, p.y, d, false) ==> r.x == p.x && r.y == p.y)
  {
    var d := PlayerStep(grid, p).dir;
    if CanMove(grid, p.x, p.y, d, false) {
      PlayerMoveStaysInBounds(grid, p.x, p.y, d);
    }
  }

  /** A pellet scores 10 and a power pellet 50; either way the tile is
      emptied and the count drops by exactly one. A power pellet also
      restarts the combo and frightens, for 75 ticks, every ghost that is
      neither at home nor eaten, leaving the others as they were. Any other
      tile changes nothing. The player does not move. */
  lemma EatTileRules(s: GameState)
    requires Shaped(s.board.grid) && InBounds(s.player.x, s.player.y)
    ensures var r := EatTile(s);
            var (x, y) := (s.player.x, s.player.y);
            var tile := s.board.grid[y][x];
            && r.player == s.player && r.clock == s.clock && r.fruit == s.fruit
            && (IsPellet(tile) ==>
                  && r.board.grid[y][x] == Empty
                  && r.board.pelletCount == s.board.pelletCount - 1
                  && r.board.initialPelletCount == s.board.initialPelletCount
                  && Pellets(r.board.grid) + 1 == Pellets(s.board.grid))
            && (tile == Pellet ==> r.tally == s.tally.(score := s.tally.score + 10) && r.ghosts == s.ghosts)
            && (tile == Power ==>
                  && r.tally == s.tally.(score := s.tally.score + 50, ghostCombo := 0)
                  && |r.ghosts| == |s.ghosts|
                  && forall j :: 0 <= j < |s.ghosts| ==>
                       var g := s.ghosts[j];
                       if g.mode != Home && g.mode != Eaten then r.ghosts[j] == g.(mode := Frightened, frightenedTicks := 75)
                       else r.ghosts[j] == g)
            && (!IsPellet(tile) ==> r == s)
  {
    if IsPellet(s.board.grid[s.player.y][s.player.x]) {
      ClearTileCounts(s.board.grid, s.player.x, s.player.y);
    }
  }

  lemma EatTileKeepsInv(s: GameState)
    requires Inv(s)
    ensures Inv(EatTile(s))
  {
    var r := EatTile(s);
    var tile := s.board.grid[s.player.y][s.player.x];
    EatTileRules(s);
    if IsPellet(tile) {
      ClearTileErodes(s.board.grid, s.player.x, s.player.y);
    }
    if tile == Power {
      forall i | 0 <= i < |r.ghosts|
        ensures GhostOk(r.ghosts[i], i)
      {
        assert GhostOk(s.ghosts[i], i);
      }
    }
  }

  lemma MovePlayerKeepsInv(s: GameState)
    requires Inv(s)
    ensures Inv(MovePlayer(s))
  {
    PlayerStepRules(s.board.grid, s.player);
    EatTileKeepsInv(s.(player := PlayerStep(s.board.grid, s.player)));
  }

  // ---------------------------------------------------------------------
  // Targets

  /** Blinky aims at the player, Pinky four tiles ahead of it, Inky at the
      point opposite Blinky through the tile two ahead of the player, and
      Clyde at the player while more than 8 tiles away, else at his corner. */
  lemma ChaseTargets(p: Player, ghosts: seq<GhostState>, g: GhostState)
    requires |ghosts| > 0
    ensures var (dx, dy) := DirDelta(p.dir);
            var t := ChaseTarget(p, ghosts, g);
            && (g.name == "Blinky" ==> t == (p.x, p.y))
            && (g.name == "Pinky" ==> t == (p.x + 4 * dx, p.y + 4 * dy))
            && (g.name == "Inky" ==> t == (2 * (p.x + 2 * dx) - ghosts[0].x, 2 * (p.y + 2 * dy) - ghosts[0].y))
            && (g.name == "Clyde" ==>
                  t == if Abs(g.x - p.x) + Abs(g.y - p.y) > 8 then (p.x, p.y) else (1, Height - 2))
  {
  }

  /** The corners: Blinky top right, Pinky top left, Inky bottom right, Clyde
      bottom left, anyone else top right. All lie inside the border. */
  lemma ScatterCorners(name: string)
    ensures var t := ScatterTarget(name);
            && 1 <= t.0 <= Width - 2 && 1 <= t.1 <= Height - 2
            && (name == "Pinky" ==> t == (1, 1))
            && (name == "Inky" ==> t == (Width - 2, Height - 2))
            && (name == "Clyde" ==> t == (1, Height - 2))
            && (name != "Pinky" && name != "Inky" && name != "Clyde" ==> t == (Width - 2, 1))
  {
  }

  /** `_random_target` lies in [1, w-2] x [1, h-2], and every tile there can
      be drawn. */
  lemma RandomTargetRange(roll: Roll)
    ensures var t := RandomTarget(roll);
            1 <= t.0 <= Width - 2 && 1 <= t.1 <= Height - 2
  {
  }

  lemma RandomTargetReachesAll(tx: int, ty: int)
    requires 1 <= tx <= Width - 2 && 1 <= ty <= Height - 2
    ensures exists roll :: RandomTarget(roll) == (tx, ty)
  {
    var roll := Roll(tx - 1, ty - 1, 0);
    assert RandomTarget(roll) == (tx, ty);
  }

  // ---------------------------------------------------------------------
  // The ghost step

  /** A direction's place in the up, left, down, right order. */
  function Rank(d: Dir): nat {
    match d
    case Up => 0
    case Left => 1
    case Down => 2
    case Right => 3
  }

  lemma PreferenceHasAll(d: Dir)
    ensures d in Preference && Preference[Rank(d)] == d
  {
  }

  predicate RankSorted(dirs: seq<Dir>) {
    forall i, j :: 0 <= i < j < |dirs| ==> Rank(dirs[i]) < Rank(dirs[j])
  }

  /** Options come in the order of their directions. */
  lemma {:induction false} OptionsSorted(grid: Grid, g: GhostState, target: (int, int), dirs: seq<Dir>)
    requires Shaped(grid) && RankSorted(dirs)
    ensures var opts := Options(grid, g, target, dirs);
            forall i, j :: 0 <= i < j < |opts| ==> Rank(opts[i].dir) < Rank(opts[j].dir)
  {
    if |dirs| > 0 {
      var init := dirs[..|dirs| - 1];
      OptionsSorted(grid, g, target, init);
      OptionsMembers(grid, g, target, init);
      var prev := Options(grid, g, target, init);
      var opts := Options(grid, g, target, dirs);
      assert opts[..|prev|] == prev;
      forall i, j | 0 <= i < j < |opts|
        ensures Rank(opts[i].dir) < Rank(opts[j].dir)
      {
        if j >= |prev| {
          assert opts[j].dir == dirs[|dirs| - 1];
          assert opts[i] == prev[i];
          var k :| 0 <= k < |init| && init[k] == prev[i].dir;
          assert Rank(dirs[k]) < Rank(dirs[|dirs| - 1]);
        } else {
          assert opts[i] == prev[i] && opts[j] == prev[j];
        }
      }
    }
  }

  /** The distance to the target after a step in direction `d`. */
  function DistAfter(g: GhostState, target: (int, int), d: Dir): int {
    ChoiceFor(g, target, d).dist
  }

  /** With some direction allowed, the step taken is one of the options. */
  lemma StepTakesAnOption(grid: Grid, g: GhostState, target: (int, int), pick: nat) returns (k: nat)
    requires Shaped(grid)
    requires |Options(grid, g, target, Preference)| > 0
    ensures var opts := Options(grid, g, target, Preference);
            && k < |opts|
            && (g.mode == Frightened ==> k == pick % |opts|)
            && (g.mode != Frightened ==> k == BestIndex(opts))
            && StepToward(grid, g, target, pick) == g.(x := opts[k].x, y := opts[k].y, direction := opts[k].dir)
  {
    var opts := Options(grid, g, target, Preference);
    k := if g.mode == Frightened then pick % |opts| else BestIndex(opts);
  }

  /** `_step_ghost_toward`: with no allowed direction the ghost stays as it
      is. Otherwise it takes one allowed step (open to ghosts, and not a
      reversal unless frightened) and nothing but its tile and heading
      changes. */
  lemma StepTowardLegal(grid: Grid, g: GhostState, target: (int, int), pick: nat)
    requires Shaped(grid)
    ensures var r := StepToward(grid, g, target, pick);
            && ((forall d :: !Allowed(grid, g, d)) ==> r == g)
            && ((exists d :: Allowed(grid, g, d)) ==>
                  && Allowed(grid, g, r.direction)
                  && r == g.(x := g.x + DirDelta(r.direction).0, y := g.y + DirDelta(r.direction).1, direction := r.direction)
                  && InBounds(r.x, r.y))
  {
    var opts := Options(grid, g, target, Preference);
    OptionsMembers(grid, g, target, Preference);
    if |opts| == 0 {
      forall d ensures !Allowed(grid, g, d) {
        PreferenceHasAll(d);
      }
    } else {
      var k := StepTakesAnOption(grid, g, target, pick);
      GhostMoveStaysInBounds(grid, g.x, g.y, opts[k].dir);
    }
  }

  /** A ghost that is not frightened takes a step of least distance to the
      target, and the earliest of up, left, down, right among equally good
      ones. */
  lemma StepTowardGreedy(grid: Grid, g: GhostState, target: (int, int), pick: nat, d: Dir)
    requires Shaped(grid) && g.mode != Frightened && Allowed(grid, g, d)
    ensures var r := StepToward(grid, g, target, pick);
            || DistAfter(g, target, d) > DistAfter(g, target, r.direction)
            || (DistAfter(g, target, d) == DistAfter(g, target, r.direction) && Rank(d) >= Rank(r.direction))
  {
    var opts := Options(grid, g, target, Preference);
    var j := OptionAt(grid, g, target, d);
    var k := StepTakesAnOption(grid, g, target, pick);
    OptionIsChoice(grid, g, target, k);
    OptionsSorted(grid, g, target, Preference);
    GreedyChoice(g, target, d, opts, j, k);
  }

  /** The first option of least distance beats every other option on
      distance, or on rank at equal distance, when the options are in rank
      order. */
  lemma BestIsGreedy(opts: seq<Choice>, j: nat)
    requires 0 <= j < |opts|
    requires forall i, i' :: 0 <= i < i' < |opts| ==> Rank(opts[i].dir) < Rank(opts[i'].dir)
    ensures var k := BestIndex(opts);
            || opts[j].dist > opts[k].dist
            || (opts[j].dist == opts[k].dist && Rank(opts[j].dir) >= Rank(opts[k].dir))
  {
    var k := BestIndex(opts);
    if j < k {
      assert opts[j].dist > opts[k].dist;
    } else if j > k {
      assert Rank(opts[k].dir) < Rank(opts[j].dir);
    }
  }

  /** Every allowed direction has its option. */
  lemma OptionAt(grid: Grid, g: GhostState, target: (int, int), d: Dir) returns (j: nat)
    requires Shaped(grid) && Allowed(grid, g, d)
    ensures var opts := Options(grid, g, target, Preference);
            j < |opts| && opts[j] == ChoiceFor(g, target, d)
  {
    OptionsMembers(grid, g, target, Preference);
    PreferenceHasAll(d);
    var opts := Options(grid, g, target, Preference);
    j :| 0 <= j < |opts| && opts[j].dir == d;
  }

  lemma OptionIsChoice(grid: Grid, g: GhostState, target: (int, int), k: nat)
    requires Shaped(grid) && k < |Options(grid, g, target, Preference)|
    ensures var opts := Options(grid, g, target, Preference);
            opts[k] == ChoiceFor(g, target, opts[k].dir)
  {
    OptionsMembers(grid, g, target, Preference);
  }

  lemma GreedyChoice(g: GhostState, target: (int, int), d: Dir, opts: seq<Choice>, j: nat, k: nat)
    requires j < |opts| && k == BestIndex(opts)
    requires opts[j] == ChoiceFor(g, target, d) && opts[k] == ChoiceFor(g, target, opts[k].dir)
    requires forall a, b :: 0 <= a < b < |opts| ==> Rank(opts[a].dir) < Rank(opts[b].dir)
    ensures || DistAfter(g, target, d) > DistAfter(g, target, opts[k].dir)
            || (DistAfter(g, target, d) == DistAfter(g, target, opts[k].dir) && Rank(d) >= Rank(opts[k].dir))
  {
    BestIsGreedy(opts, j);
  }

  /** A frightened ghost can take any allowed direction, given the right
      draw. */
  lemma FrightenedStepReachesAll(grid: Grid, g: GhostState, target: (int, int), d: Dir)
    requires Shaped(grid) && g.mode == Frightened && Allowed(grid, g, d)
    ensures exists pick: nat :: StepToward(grid, g, target, pick).direction == d
  {
    var opts := Options(grid, g, target, Preference);
    var j := OptionAt(grid, g, target, d);
    assert j % |opts| == j;
    var k := StepTakesAnOption(grid, g, target, j);
    assert StepToward(grid, g, target, j).direction == d;
  }

  // ---------------------------------------------------------------------
  // A ghost's turn

  /** A waiting ghost does nothing until its release tick; then it leaves in
      the global mode. A frightened ghost's countdown drops by one each turn
      and at zero it takes the global mode; on odd ticks a ghost still
      frightened stays where it is. An eaten ghost steps toward home and, once
      there, takes the global mode with no fright left. The ghost's identity
      never changes. */
  lemma GhostTurnLifecycle(s: GameState, ghosts: seq<GhostState>, i: nat, roll: Roll)
    requires Shaped(s.board.grid) && i < |ghosts|
    requires var g := ghosts[i]; g.released <==> g.mode != Home
    ensures var g := ghosts[i];
            var phase := s.clock.globalMode;
            var r := GhostTurn(s, ghosts, i, roll);
            && r.name == g.name && r.homeX == g.homeX && r.homeY == g.homeY
            && r.color == g.color && r.releaseTick == g.releaseTick
            && (!g.released && s.clock.tick < g.releaseTick ==> r == g)
            && (!g.released && s.clock.tick >= g.releaseTick ==> r.released && r.mode == phase)
            && (g.mode == Frightened && g.frightenedTicks > 1 ==>
                  r.mode == Frightened && r.frightenedTicks == g.frightenedTicks - 1)
            && (g.mode == Frightened && g.frightenedTicks == 1 ==>
                  r.mode == phase && r.frightenedTicks == 0)
            && (g.mode == Frightened && g.frightenedTicks > 1 && s.clock.tick % 2 == 1 ==>
                  r.x == g.x && r.y == g.y && r.direction == g.direction)
            && (g.mode == Eaten ==>
                  var stepped := StepToward(s.board.grid, g, (g.homeX, g.homeY), roll.pick);
                  if stepped.x == g.homeX && stepped.y == g.homeY
                  then r == stepped.(mode := phase, frightenedTicks := 0)
                  else r == stepped)
  {
    var g := ghosts[i];
    var phase := s.clock.globalMode;
    if g.released || s.clock.tick >= g.releaseTick {
      var counted := CountDown(phase, Release(phase, g));
      var target := GhostTarget(s.player, ghosts[i := counted], counted, roll);
      StepTowardLegal(s.board.grid, counted, target, roll.pick);
    }
  }

  /** A ghost's turn keeps it well formed (given a phase for global mode). */
  lemma GhostTurnKeepsOk(s: GameState, ghosts: seq<GhostState>, i: nat, roll: Roll)
    requires Shaped(s.board.grid) && i < |ghosts| && i < |InitialGhosts| && GhostOk(ghosts[i], i)
    requires IsPhase(s.clock.globalMode)
    ensures GhostOk(GhostTurn(s, ghosts, i, roll), i)
  {
    var g := ghosts[i];
    var phase := s.clock.globalMode;
    GhostTurnLifecycle(s, ghosts, i, roll);
    if g.released || s.clock.tick >= g.releaseTick {
      var counted := CountDown(phase, Release(phase, g));
      var target := GhostTarget(s.player, ghosts[i := counted], counted, roll);
      StepTowardLegal(s.board.grid, counted, target, roll.pick);
    }
  }

  /** Each turn keeps the roster well formed. */
  lemma {:induction false} MoveGhostsUpToKeepsRoster(s: GameState, n: nat, rolls: seq<Roll>)
    requires Shaped(s.board.grid) && n <= |s.ghosts| && Roster(s.ghosts) && IsPhase(s.clock.globalMode)
    ensures Roster(MoveGhostsUpTo(s, n, rolls))
  {
    if n > 0 {
      var before := MoveGhostsUpTo(s, n - 1, rolls);
      MoveGhostsUpToKeepsRoster(s, n - 1, rolls);
      GhostTurnKeepsOk(s, before, n - 1, RollAt(rolls, n - 1));
    }
  }

  /** Moving the ghosts changes nothing but the ghosts. */
  lemma MoveGhostsKeepsInv(s: GameState, rolls: seq<Roll>)
    requires Inv(s)
    ensures Inv(MoveGhosts(s, rolls))
  {
    MoveGhostsUpToKeepsRoster(s, |s.ghosts|, rolls);
  }

  // ---------------------------------------------------------------------
  // Fruit

  /** The first appearance happens on the first tick the pellets are down to
      70%, the second on the first later tick they are down to 30%, never
      both on one tick; each happens once at most. */
  lemma FruitAppearances(b: Board, f: Fruit)
    requires 0 <= b.pelletCount && 0 < b.initialPelletCount && FruitOk(f)
    ensures var r := FruitAppears(b, f);
            && r.spawnedOnce == (f.spawnedOnce || RatioAtMost(b, 7))
            && r.spawnedTwice == (f.spawnedTwice || (f.spawnedOnce && RatioAtMost(b, 3)))
            && !(r.spawnedOnce && !f.spawnedOnce && r.spawnedTwice && !f.spawnedTwice)
            && (r != f ==> r.visible && r.ticksLeft == FruitTicks)
            && (r.spawnedOnce == f.spawnedOnce && r.spawnedTwice == f.spawnedTwice ==> r == f)
            && FruitOk(r)
  {
  }

  /** With no pellets at the start nothing happens. Otherwise a shown fruit
      counts down; the player on the fruit tile eats it for 300, otherwise it
      vanishes when the countdown runs out. Only the fruit and the score
      change. */
  lemma FruitRules(s: GameState)
    requires 0 <= s.board.pelletCount && FruitOk(s.fruit)
    ensures var r := UpdateFruit(s);
            && (s.board.initialPelletCount == 0 ==> r == s)
            && r == s.(fruit := r.fruit, tally := r.tally)
            && FruitOk(r.fruit)
            && (s.board.initialPelletCount > 0 ==>
                  var f := FruitAppears(s.board, s.fruit);
                  var onFruit := s.player.x == FruitX && s.player.y == FruitY;
                  && r.fruit.spawnedOnce == f.spawnedOnce && r.fruit.spawnedTwice == f.spawnedTwice
                  && (f.visible ==> r.fruit.ticksLeft == f.ticksLeft - 1)
                  && (f.visible && onFruit ==> r.tally == s.tally.(score := s.tally.score + 300) && !r.fruit.visible)
                  && (!(f.visible && onFruit) ==> r.tally == s.tally)
                  && (r.fruit.visible <==> f.visible && !onFruit && f.ticksLeft > 1))
  {
    if s.board.initialPelletCount > 0 {
      FruitAppearances(s.board, s.fruit);
    }
  }

  // ---------------------------------------------------------------------
  // Collisions

  /** The bonus for the `n`th ghost eaten in one power-pellet run. */
  function Bonus(n: nat): nat
    requires n >= 1
  {
    200 * Pow2(n - 1)
  }

  /** Successive ghosts in a run score 200, 400, 800, 1600: each bonus
      doubles the one before. */
  lemma BonusDoubles(n: nat)
    requires n >= 1
    ensures Bonus(n + 1) == 2 * Bonus(n)
    ensures Bonus(1) == 200 && Bonus(2) == 400 && Bonus(3) == 800 && Bonus(4) == 1600
  {
  }

  /** A ghost on the player's tile that is neither frightened nor eaten. */
  predicate Deadly(p: Player, g: GhostState) {
    g.x == p.x && g.y == p.y && g.mode != Frightened && g.mode != Eaten
  }

  predicate DeadlyFrom(s: GameState, i: nat) {
    exists j :: i <= j < |s.ghosts| && Deadly(s.player, s.ghosts[j])
  }

  /** The roster after a death: every ghost at home, waiting, facing left and
      unfrightened, except that the first one is out at once in the global
      mode. */
  predicate SentHome(r: seq<GhostState>, gs: seq<GhostState>, phase: Mode) {
    && |r| == |gs|
    && (forall j :: 0 < j < |gs| ==> r[j] == SendHome(gs[j]))
    && (|gs| > 0 ==> r[0] == SendHome(gs[0]).(released := true, mode := phase))
  }

  /** Eating a ghost changes only its mode, and `SendHome` overwrites that. */
  lemma SendHomeForgetsMode(g: GhostState, m: Mode)
    ensures SendHome(g.(mode := m)) == SendHome(g)
  {
  }

  /** The outcome of a pass that meets a deadly ghost, against the state `s`
      it started from: the player loses exactly one life, the game ends when
      no lives are left, and everyone goes back to the start. */
  predicate DeathOutcome(r: GameState, s: GameState) {
    && r.board == s.board && r.clock == s.clock && r.fruit == s.fruit
    && r.tally.lives == s.tally.lives - 1
    && r.tally.gameOver == (s.tally.gameOver || s.tally.lives - 1 <= 0)
    && r.tally.levelCleared == s.tally.levelCleared
    && r.tally.score >= s.tally.score
    && r.tally.ghostCombo == 0
    && r.player == StartPlayer
    && SentHome(r.ghosts, SendAllHome(s.ghosts), s.clock.globalMode)
  }

  /** The ghost that costs the life. */
  lemma DeathHere(s: GameState, i: nat)
    requires i < |s.ghosts| && Deadly(s.player, s.ghosts[i])
    ensures ResolveFrom(s, i) == ResetAfterDeath(s.(tally := LoseLife(s.tally)))
    ensures DeathOutcome(ResolveFrom(s, i), s)
  {
  }

  /** Eating a frightened ghost before the deadly one changes neither the
      roster that is sent home nor anything else the outcome speaks of,
      except a score that only grows. */
  lemma DeathAfterEating(r: GameState, t: GameState, s: GameState, i: nat)
    requires i < |s.ghosts| && DeathOutcome(r, t)
    requires t == s.(ghosts := s.ghosts[i := s.ghosts[i].(mode := Eaten)],
                     tally := t.tally)
    requires t.tally == s.tally.(ghostCombo := t.tally.ghostCombo, score := t.tally.score)
    requires t.tally.score >= s.tally.score
    ensures DeathOutcome(r, s)
  {
    SendHomeForgetsMode(s.ghosts[i], Eaten);
    assert SendAllHome(t.ghosts) == SendAllHome(s.ghosts);
  }

  /** How many ghosts from `i` on are frightened on the player's tile before
      the first deadly one: the ghosts a pass eats before it stops. */
  function EatenBeforeDeath(s: GameState, i: nat): nat
    requires i <= |s.ghosts|
    decreases |s.ghosts| - i
  {
    if i == |s.ghosts| || Deadly(s.player, s.ghosts[i]) then 0
    else
      var g := s.ghosts[i];
      (if g.x == s.player.x && g.y == s.player.y && g.mode == Frightened then 1 else 0) + EatenBeforeDeath(s, i + 1)
  }

  /** `_resolve_collisions` from ghost `i` when a deadly ghost is on the
      player's tile. The pass stops at the first deadly ghost: the score is
      the old one plus the bonuses of the frightened ghosts eaten before it. */
  lemma {:induction false} ResolveDeath(s: GameState, i: nat)
    requires i <= |s.ghosts| && DeadlyFrom(s, i)
    ensures DeathOutcome(ResolveFrom(s, i), s)
    ensures 0 <= s.tally.ghostCombo ==>
              ResolveFrom(s, i).tally.score == s.tally.score + RunBonus(s.tally.ghostCombo, EatenBeforeDeath(s, i))
    decreases |s.ghosts| - i
  {
    var g := s.ghosts[i];
    if g.x != s.player.x || g.y != s.player.y || g.mode == Eaten {
      assert !Deadly(s.player, g);
      assert ResolveFrom(s, i) == ResolveFrom(s, i + 1);
      ResolveDeath(s, i + 1);
    } else if g.mode == Frightened {
      var t := EatGhostAt(s, i);
      var j :| i <= j < |s.ghosts| && Deadly(s.player, s.ghosts[j]);
      assert j != i && t.ghosts[j] == s.ghosts[j];
      assert ResolveFrom(s, i) == ResolveFrom(t, i + 1);
      ResolveDeath(t, i + 1);
      DeathAfterEating(ResolveFrom(t, i + 1), t, s, i);
    } else {
      DeathHere(s, i);
    }
    if 0 <= s.tally.ghostCombo {
      ResolveDeathScores(s, i);
    }
  }

  /** The score half of `ResolveDeath`. */
  lemma {:induction false} ResolveDeathScores(s: GameState, i: nat)
    requires i <= |s.ghosts| && DeadlyFrom(s, i) && 0 <= s.tally.ghostCombo
    ensures ResolveFrom(s, i).tally.score == s.tally.score + RunBonus(s.tally.ghostCombo, EatenBeforeDeath(s, i))
    decreases |s.ghosts| - i, 1
  {
    var g := s.ghosts[i];
    if Deadly(s.player, g) {
      DeathHere(s, i);
    } else if g.x != s.player.x || g.y != s.player.y || g.mode == Eaten {
      var j :| i <= j < |s.ghosts| && Deadly(s.player, s.ghosts[j]);
      assert j != i;
      assert ResolveFrom(s, i) == ResolveFrom(s, i + 1);
      ResolveDeathScores(s, i + 1);
    } else {
      EatenDeathScores(s, i);
    }
  }

  /** The step of `ResolveDeathScores` where ghost `i` is eaten. */
  lemma {:induction false} EatenDeathScores(s: GameState, i: nat)
    requires i < |s.ghosts| && DeadlyFrom(s, i) && 0 <= s.tally.ghostCombo
    requires var g := s.ghosts[i]; g.x == s.player.x && g.y == s.player.y && g.mode == Frightened
    ensures ResolveFrom(s, i).tally.score == s.tally.score + RunBonus(s.tally.ghostCombo, EatenBeforeDeath(s, i))
    decreases |s.ghosts| - i, 0
  {
    var t := EatGhostAt(s, i);
    var combo, k := s.tally.ghostCombo, EatenBeforeDeath(s, i + 1);
    var j :| i <= j < |s.ghosts| && Deadly(s.player, s.ghosts[j]);
    assert j != i && t.ghosts[j] == s.ghosts[j];
    assert forall j :: i < j < |s.ghosts| ==> t.ghosts[j] == s.ghosts[j];
    EatenBeforeDeathSuffix(s, t, i + 1);
    ResolveDeathScores(t, i + 1);
    assert ResolveFrom(s, i) == ResolveFrom(t, i + 1);
    assert t.tally.ghostCombo == combo + 1 && t.tally.score == s.tally.score + Bonus(combo + 1);
    assert EatenBeforeDeath(s, i) == k + 1;
  }

  /** The ghosts eaten before the death depend only on the player and the
      ghosts not yet visited. */
  lemma {:induction false} EatenBeforeDeathSuffix(s: GameState, t: GameState, i: nat)
    requires i <= |s.ghosts| == |t.ghosts| && s.player == t.player
    requires forall j :: i <= j < |s.ghosts| ==> t.ghosts[j] == s.ghosts[j]
    ensures EatenBeforeDeath(s, i) == EatenBeforeDeath(t, i)
    decreases |s.ghosts| - i
  {
    if i < |s.ghosts| {
      EatenBeforeDeathSuffix(s, t, i + 1);
    }
  }

  /** `_resolve_collisions` from ghost `i` with no deadly ghost on the
      player's tile: the lives, the player and the game state stay, the score
      never drops, and exactly the frightened ghosts on the player's tile are
      eaten. */
  lemma {:induction false} ResolveNoDeath(s: GameState, i: nat)
    requires i <= |s.ghosts| && !DeadlyFrom(s, i)
    ensures var r := ResolveFrom(s, i);
            && r.board == s.board && r.clock == s.clock && r.fruit == s.fruit && r.player == s.player
            && r.tally.lives == s.tally.lives && r.tally.gameOver == s.tally.gameOver
            && r.tally.levelCleared == s.tally.levelCleared
            && r.tally.score >= s.tally.score && r.tally.ghostCombo >= s.tally.ghostCombo
            && |r.ghosts| == |s.ghosts|
            && forall j :: 0 <= j < |s.ghosts| ==>
                 var g := s.ghosts[j];
                 r.ghosts[j] == if i <= j && g.x == s.player.x && g.y == s.player.y && g.mode == Frightened
                                then g.(mode := Eaten) else g
    decreases |s.ghosts| - i
  {
    if i < |s.ghosts| {
      var g := s.ghosts[i];
      assert !Deadly(s.player, g);
      if g.x != s.player.x || g.y != s.player.y || g.mode == Eaten {
        ResolveNoDeath(s, i + 1);
      } else {
        ResolveNoDeath(EatGhostAt(s, i), i + 1);
      }
    }
  }

  /** How many ghosts from `i` on are frightened on the player's tile. */
  function FrightenedHere(s: GameState, i: nat): nat
    requires i <= |s.ghosts|
    decreases |s.ghosts| - i
  {
    if i == |s.ghosts| then 0
    else
      var g := s.ghosts[i];
      (if g.x == s.player.x && g.y == s.player.y && g.mode == Frightened then 1 else 0) + FrightenedHere(s, i + 1)
  }

  /** The points for eating `n` more ghosts after `combo` already eaten. */
  function RunBonus(combo: nat, n: nat): nat
    decreases n
  {
    if n == 0 then 0 else Bonus(combo + 1) + RunBonus(combo + 1, n - 1)
  }

  lemma DoublingSum(a: int, b: int)
    ensures 200 * a + 200 * (2 * a) * (b - 1) == 200 * a * (2 * b - 1)
  {
  }

  /** A run of `n` ghosts after `combo` earns 200 * 2^combo * (2^n - 1):
      from a fresh power pellet, 200, 600, 1400, 3000 for one to four. */
  lemma {:induction false} RunBonusClosed(combo: nat, n: nat)
    ensures RunBonus(combo, n) == 200 * Pow2(combo) * (Pow2(n) - 1)
    decreases n
  {
    if n > 0 {
      RunBonusClosed(combo + 1, n - 1);
      var a: int, b: int := Pow2(combo), Pow2(n - 1);
      assert Pow2(combo + 1) == 2 * a && Pow2(n) == 2 * b;
      assert RunBonus(combo, n) == 200 * a + 200 * (2 * a) * (b - 1);
      DoublingSum(a, b);
    }
  }

  /** A collision pass that meets no deadly ghost adds one to the combo per
      frightened ghost on the player's tile and scores the doubling bonus for
      each: 200, 400, 800, ... from a fresh power pellet. */
  lemma {:induction false} ResolveRunScores(s: GameState, i: nat)
    requires i <= |s.ghosts| && !DeadlyFrom(s, i) && 0 <= s.tally.ghostCombo
    ensures var r := ResolveFrom(s, i);
            && r.tally.ghostCombo == s.tally.ghostCombo + FrightenedHere(s, i)
            && r.tally.score == s.tally.score + RunBonus(s.tally.ghostCombo, FrightenedHere(s, i))
    decreases |s.ghosts| - i, 1
  {
    if i < |s.ghosts| {
      var g := s.ghosts[i];
      assert !Deadly(s.player, g);
      if g.x != s.player.x || g.y != s.player.y || g.mode == Eaten {
        ResolveRunScores(s, i + 1);
      } else {
        EatenRunScores(s, i);
      }
    }
  }

  /** The step of `ResolveRunScores` where ghost `i` is eaten. */
  lemma {:induction false} EatenRunScores(s: GameState, i: nat)
    requires i < |s.ghosts| && !DeadlyFrom(s, i) && 0 <= s.tally.ghostCombo
    requires var g := s.ghosts[i]; g.x == s.player.x && g.y == s.player.y && g.mode == Frightened
    ensures var r := ResolveFrom(s, i);
            && r.tally.ghostCombo == s.tally.ghostCombo + FrightenedHere(s, i)
            && r.tally.score == s.tally.score + RunBonus(s.tally.ghostCombo, FrightenedHere(s, i))
    decreases |s.ghosts| - i, 0
  {
    var t := EatGhostAt(s, i);
    var combo, k := s.tally.ghostCombo, FrightenedHere(s, i + 1);
    assert forall j :: i < j < |s.ghosts| ==> t.ghosts[j] == s.ghosts[j];
    FrightenedHereSuffix(s, t, i + 1);
    ResolveRunScores(t, i + 1);
    assert ResolveFrom(s, i) == ResolveFrom(t, i + 1);
    assert t.tally.ghostCombo == combo + 1 && t.tally.score == s.tally.score + Bonus(combo + 1);
    assert FrightenedHere(s, i) == k + 1;
  }

  /** The count from `i` on sees only the player and the ghosts from `i` on. */
  lemma {:induction false} FrightenedHereSuffix(s: GameState, t: GameState, i: nat)
    requires i <= |s.ghosts| == |t.ghosts| && s.player == t.player
    requires forall j :: i <= j < |s.ghosts| ==> t.ghosts[j] == s.ghosts[j]
    ensures FrightenedHere(s, i) == FrightenedHere(t, i)
    ensures DeadlyFrom(s, i) == DeadlyFrom(t, i)
    decreases |s.ghosts| - i
  {
    if i < |s.ghosts| {
      FrightenedHereSuffix(s, t, i + 1);
    }
  }

  lemma ResolveKeepsInv(s: GameState)
    requires Inv(s)
    ensures Inv(ResolveCollisions(s))
  {
    var r := ResolveCollisions(s);
    if DeadlyFrom(s, 0) {
      ResolveDeath(s, 0);
      forall j | 0 <= j < |r.ghosts|
        ensures GhostOk(r.ghosts[j], j)
      {
        assert GhostOk(s.ghosts[j], j);
      }
    } else {
      ResolveNoDeath(s, 0);
      forall j | 0 <= j < |r.ghosts|
        ensures GhostOk(r.ghosts[j], j)
      {
        assert GhostOk(s.ghosts[j], j);
      }
    }
  }

  // ---------------------------------------------------------------------
  // The tick

  lemma PlayKeepsInv(s: GameState, rolls: seq<Roll>)
    requires Inv(s)
    ensures Inv(Play(s, rolls))
  {
    GlobalModeSchedule(s.clock);
    var scheduled := s.(clock := UpdateGlobalMode(s.clock));
    var moved := MovePlayer(scheduled);
    MovePlayerKeepsInv(scheduled);
    var ghosted := MoveGhosts(moved, rolls);
    MoveGhostsKeepsInv(moved, rolls);
    var fruited := UpdateFruit(ghosted);
    PelletsAtMostInitial(ghosted.board);
    FruitRules(ghosted);
    var resolved := ResolveCollisions(fruited);
    ResolveKeepsInv(fruited);
  }

  /** Every tick keeps the invariant: the maze only loses pellets and the
      count follows it, the player and the ghosts stay on the board, the
      schedule index stays in range, the fruit flags stay consistent. */
  lemma TickPreservesInv(s: GameState, rolls: seq<Roll>)
    requires Inv(s)
    ensures Inv(Tick(s, rolls))
  {
    var counted := s.(clock := s.clock.(tick := s.clock.tick + 1));
    assert Inv(counted) by {
      assert counted.board == s.board && counted.ghosts == s.ghosts && counted.player == s.player;
    }
    TickSteps(s, rolls);
    if !counted.tally.gameOver {
      PlayKeepsInv(counted, rolls);
    }
  }

  /** A tick counts itself and then, unless the game is over, plays. */
  lemma TickSteps(s: GameState, rolls: seq<Roll>)
    requires Shaped(s.board.grid) && 0 <= s.clock.modeCycleIndex
    ensures var counted := s.(clock := s.clock.(tick := s.clock.tick + 1));
            Tick(s, rolls) == if s.tally.gameOver then counted else Play(counted, rolls)
  {
  }

  /** Once the game is over a tick advances the tick counter and nothing
      else. */
  lemma TickAfterGameOver(s: GameState, rolls: seq<Roll>)
    requires Shaped(s.board.grid) && 0 <= s.clock.modeCycleIndex && s.tally.gameOver
    ensures Tick(s, rolls) == s.(clock := s.clock.(tick := s.clock.tick + 1))
  {
  }

  /** Moving the player never lowers the score nor raises the pellet
      count. */
  lemma MovePlayerProgress(s: GameState)
    requires Inv(s)
    ensures var r := MovePlayer(s);
            r.tally.score >= s.tally.score && r.board.pelletCount <= s.board.pelletCount && r.clock == s.clock
  {
    PlayerStepRules(s.board.grid, s.player);
    EatTileRules(s.(player := PlayerStep(s.board.grid, s.player)));
  }

  /** Collisions never lower the score and leave the maze alone. */
  lemma ResolveProgress(s: GameState)
    ensures var r := ResolveCollisions(s);
            r.tally.score >= s.tally.score && r.board == s.board && r.clock == s.clock
  {
    if DeadlyFrom(s, 0) {
      ResolveDeath(s, 0);
    } else {
      ResolveNoDeath(s, 0);
    }
  }

  lemma PlayProgress(s: GameState, rolls: seq<Roll>)
    requires Inv(s)
    ensures var r := Play(s, rolls);
            && r.tally.score >= s.tally.score
            && r.board.pelletCount <= s.board.pelletCount
            && r.clock.tick == s.clock.tick
            && (r.board.pelletCount <= 0 ==> r.tally.levelCleared && r.tally.gameOver)
  {
    GlobalModeSchedule(s.clock);
    var scheduled := s.(clock := UpdateGlobalMode(s.clock));
    assert Inv(scheduled);
    var moved := MovePlayer(scheduled);
    MovePlayerProgress(scheduled);
    MovePlayerKeepsInv(scheduled);
    var ghosted := MoveGhosts(moved, rolls);
    PelletsAtMostInitial(ghosted.board);
    FruitRules(ghosted);
    var fruited := UpdateFruit(ghosted);
    assert fruited.clock == ghosted.clock == moved.clock == scheduled.clock;
    ResolveProgress(fruited);
  }

  /** The score never drops and the pellet count never rises; a tick that
      ends with no pellet left has cleared the level and ended the game. */
  lemma TickProgress(s: GameState, rolls: seq<Roll>)
    requires Inv(s)
    ensures var r := Tick(s, rolls);
            && r.tally.score >= s.tally.score
            && r.board.pelletCount <= s.board.pelletCount
            && r.clock.tick == s.clock.tick + 1
            && (!s.tally.gameOver && r.board.pelletCount <= 0 ==> r.tally.levelCleared && r.tally.gameOver)
  {
    var counted := s.(clock := s.clock.(tick := s.clock.tick + 1));
    assert Inv(counted) by {
      assert counted.board == s.board && counted.ghosts == s.ghosts && counted.player == s.player;
    }
    TickSteps(s, rolls);
    if !s.tally.gameOver {
      PlayProgress(counted, rolls);
    }
  }
}
