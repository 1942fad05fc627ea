/** The Pac-Man engine as the screen object keeps it: the maze, the player,
    the clock, the fruit and the tally are fields that each step of
    `_game_tick` reassigns (the maze is a sequence of rows, replaced whole
    when a cell is eaten), and every ghost is a mutable object that the ghost
    loops change one at a time. Every method is proved to leave the
    object in the state the matching function of `Pacman` computes. */
module PacmanEngine {
  import opened Maze
  import P = Pacman
  import PacmanLaws

  /** The `Ghost` dataclass. Its identity never changes after creation; its
      tile, mode, heading, release flag and fright countdown do. */
  class Ghost {
    const name: string
    const homeX: int
    const homeY: int
    const color: string
    const releaseTick: int
    var x: int
    var y: int
    var mode: P.Mode
    var direction: Dir
    var released: bool
    var frightenedTicks: int

    /** The ghost as a value. */
    function Rec(): P.GhostState
      reads this
    {
      P.GhostState(name, x, y, homeX, homeY, color, mode, direction, released, frightenedTicks, releaseTick)
    }

    /** A ghost standing on its home tile, facing left and not frightened. */
    constructor (name: string, homeX: int, homeY: int, color: string, mode: P.Mode, released: bool, releaseTick: int)
      ensures Rec() == P.GhostState(name, homeX, homeY, homeX, homeY, color, mode, Left, released, 0, releaseTick)
    {
      this.name := name;
      this.x := homeX;
      this.y := homeY;
      this.homeX := homeX;
      this.homeY := homeY;
      this.color := color;
      this.mode := mode;
      this.direction := Left;
      this.released := released;
      this.frightenedTicks := 0;
      this.releaseTick := releaseTick;
    }
  }

  /** The game part of the Pac-Man screen. Its attributes are kept in six
      fields, one per concern: the maze with its pellet counts, the player,
      the ghost roster, the clock and schedule, the fruit, and the tally. */
  class PacmanGame {
    var board: P.Board
    var player: P.Player
    var ghosts: seq<Ghost>
    var clock: P.Clock
    var fruit: P.Fruit
    var tally: P.Tally

    /** No ghost object appears twice in the roster. */
    predicate Distinct()
      reads this
    {
      forall i, j :: 0 <= i < j < |ghosts| ==> ghosts[i] != ghosts[j]
    }

    /** A roster as values. */
    static function Recs(gs: seq<Ghost>): (r: seq<P.GhostState>)
      reads gs
      ensures |r| == |gs| && forall j :: 0 <= j < |gs| ==> r[j] == gs[j].Rec()
    {
      seq(|gs|, j reads gs requires 0 <= j < |gs| => gs[j].Rec())
    }

    /** Everything the object holds, as one value. */
    function State(): P.GameState
      reads this, ghosts
    {
      P.GameState(board, player, Recs(ghosts), clock, fruit, tally)
    }

    /** The object between ticks: a distinct roster and a good state. */
    ghost predicate Valid()
      reads this, ghosts
    {
      Distinct() && PacmanLaws.Inv(State())
    }

    /** `_init_ghosts`: four fresh ghosts, in roster order. */
    static method InitGhosts() returns (gs: seq<Ghost>)
      ensures |gs| == |P.InitialGhosts| && forall j :: 0 <= j < |gs| ==> fresh(gs[j]) && gs[j].Rec() == P.InitialGhosts[j]
      ensures forall i, j :: 0 <= i < j < |gs| ==> gs[i] != gs[j]
    {
      var blinky := new Ghost("Blinky", 14, 10, "#ff4f5e", P.Chase, true, 0);
      var pinky := new Ghost("Pinky", 13, 10, "#ff89d0", P.Home, false, 40);
      var inky := new Ghost("Inky", 14, 9, "#5fd8ff", P.Home, false, 90);
      var clyde := new Ghost("Clyde", 15, 10, "#ffb36b", P.Home, false, 140);
      gs := [blinky, pinky, inky, clyde];
    }

    /** The pellet count `_reset_level` takes: the pellets and power pellets
        of every row, summed row by row. */
    static method CountPellets(g: Grid) returns (n: int)
      ensures n == Pellets(g)
    {
      n := 0;
      for y := 0 to |g|
        invariant n == Pellets(g[..y])
      {
        var row := g[y];
        var c := 0;
        for x := 0 to |row|
          invariant c == RowPellets(row[..x])
        {
          assert row[..x + 1][..x] == row[..x];
          if IsPellet(row[x]) {
            c := c + 1;
          }
        }
        assert row[..|row|] == row;
        assert g[..y + 1][..y] == g[..y];
        n := n + c;
      }
      assert g[..|g|] == g;
    }

    /** `_reset_level`. */
    method ResetLevel(resetScore: bool)
      requires resetScore || tally.score >= 0
      modifies this
      ensures State() == P.ResetLevel(old(State()), resetScore)
      ensures Valid()
      ensures forall j :: 0 <= j < |ghosts| ==> fresh(ghosts[j])
    {
      ghost var before := State();
      var count := CountPellets(Level);
      board := P.Board(Level, count, count);
      player := P.StartPlayer;
      ghosts := InitGhosts();
      clock := P.Clock(0, 0, 0, P.Scatter);
      fruit := P.Fruit(false, 0, false, false);
      tally := tally.(ghostCombo := 0, gameOver := false, levelCleared := false);
      if resetScore {
        tally := tally.(score := 0, lives := 3);
      }
      assert Recs(ghosts) == P.InitialGhosts;
      PacmanLaws.ResetLevelEstablishesInv(before, resetScore);
    }

    /** `__init__` followed by `on_mount`: the level is reset without
        clearing the score, which starts at 0 with 3 lives. */
    constructor ()
      ensures State() == P.ResetLevel(P.Unmounted(), false)
      ensures Valid()
      ensures forall j :: 0 <= j < |ghosts| ==> fresh(ghosts[j])
    {
      var roster := InitGhosts();
      board := P.Board(Level, 0, 0);
      player := P.StartPlayer;
      ghosts := roster;
      clock := P.Clock(0, 0, 0, P.Scatter);
      fruit := P.Fruit(false, 0, false, false);
      tally := P.Tally(0, 0, 3, false, false);
      new;
      assert State() == P.Unmounted();
      ResetLevel(false);
    }

    /** `action_restart`: a new game from the first level. */
    method Restart()
      modifies this
      ensures State() == P.ResetLevel(old(State()), true)
      ensures Valid()
      ensures forall j :: 0 <= j < |ghosts| ==> fresh(ghosts[j])
    {
      ResetLevel(true);
    }

    /** `action_move_up` and its siblings: queue a direction. */
    method Steer(d: Dir)
      modifies this`player
      ensures State() == old(State()).(player := old(player).(nextDir := d))
    {
      player := player.(nextDir := d);
    }

    /** `_update_global_mode`. */
    method UpdateGlobalMode()
      requires 0 <= clock.modeCycleIndex
      modifies this`clock
      ensures State() == old(State()).(clock := P.UpdateGlobalMode(old(clock)))
    {
      var schedule := P.Schedule;
      var last := |schedule| - 1;
      clock := clock.(modeTimer := clock.modeTimer + 1);
      if clock.modeTimer >= schedule[if clock.modeCycleIndex < last then clock.modeCycleIndex else last] {
        clock := clock.(modeTimer := 0,
                        modeCycleIndex := if clock.modeCycleIndex + 1 < last then clock.modeCycleIndex + 1 else last,
                        globalMode := if clock.globalMode == P.Scatter then P.Chase else P.Scatter);
      }
    }

    /** `_spawn_fruit`. */
    method SpawnFruit()
      modifies this`fruit
      ensures State() == old(State()).(fruit := P.SpawnFruit(old(fruit)))
    {
      fruit := fruit.(visible := true, ticksLeft := P.FruitTicks);
    }

    /** `_update_fruit`. */
    method UpdateFruit()
      modifies this`fruit, this`tally
      ensures State() == P.UpdateFruit(old(State()))
    {
      if board.initialPelletCount == 0 {
        return;
      }
      if !fruit.spawnedOnce && 10 * board.pelletCount <= 7 * board.initialPelletCount {
        SpawnFruit();
        fruit := fruit.(spawnedOnce := true);
      } else if !fruit.spawnedTwice && 10 * board.pelletCount <= 3 * board.initialPelletCount {
        SpawnFruit();
        fruit := fruit.(spawnedTwice := true);
      }
      assert State() == old(State()).(fruit := P.FruitAppears(old(board), old(fruit)));
      CountDownFruit();
    }

    /** The countdown part of `_update_fruit`. */
    method CountDownFruit()
      modifies this`fruit, this`tally
      ensures State() == P.FruitCountdown(old(State()))
    {
      if fruit.visible {
        var left := fruit.ticksLeft - 1;
        if player.x == P.FruitX && player.y == P.FruitY {
          tally := tally.(score := tally.score + 300);
          fruit := fruit.(ticksLeft := left, visible := false);
        } else if left <= 0 {
          fruit := fruit.(ticksLeft := left, visible := false);
        } else {
          fruit := fruit.(ticksLeft := left);
        }
      }
    }

    /** `_check_level_clear`. */
    method CheckLevelClear()
      modifies this`tally
      ensures State() == P.CheckLevelClear(old(State()))
    {
      if board.pelletCount <= 0 {
        tally := tally.(levelCleared := true, gameOver := true);
      }
    }

    /** `_wrap_player`. */
    method WrapPlayer()
      modifies this`player
      ensures State() == old(State()).(player := old(player).(x := Wrap(old(player.x), old(player.y))))
    {
      if player.y == TunnelRow && player.x < 0 {
        player := player.(x := Width - 1);
      } else if player.y == TunnelRow && player.x >= Width {
        player := player.(x := 0);
      }
    }

    /** The loop of `_move_player` over the roster after a power pellet:
        every ghost that is out and about turns frightened. */
    method FrightenGhosts()
      requires Distinct()
      modifies ghosts
      ensures State() == old(State()).(ghosts := P.FrightenAll(old(State()).ghosts))
    {
      for i := 0 to |ghosts|
        invariant forall j :: 0 <= j < |ghosts| ==>
                    ghosts[j].Rec() == if j < i then P.Frighten(old(ghosts[j].Rec())) else old(ghosts[j].Rec())
      {
        var g := ghosts[i];
        if g.mode != P.Home && g.mode != P.Eaten {
          g.mode := P.Frightened;
          g.frightenedTicks := P.FrightTicks;
        }
      }
      assert Recs(ghosts) == P.FrightenAll(old(Recs(ghosts)));
    }

    /** `_move_player`: turn to the queued direction when it is open, step
        if the heading is open (round the tunnel), then eat what lies on the
        new tile. */
    method MovePlayer()
      requires Shaped(board.grid) && Distinct()
      modifies this`player, this`board, this`tally, ghosts
      ensures State() == P.MovePlayer(old(State()))
    {
      if CanMove(board.grid, player.x, player.y, player.nextDir, false) {
        player := player.(dir := player.nextDir);
      }
      if CanMove(board.grid, player.x, player.y, player.dir, false) {
        var (dx, dy) := DirDelta(player.dir);
        player := player.(x := player.x + dx, y := player.y + dy);
        WrapPlayer();
      }
      assert State() == old(State()).(player := P.PlayerStep(board.grid, old(player)));
      EatTile();
    }

    /** The meal part of `_move_player`. */
    method EatTile()
      requires Shaped(board.grid) && Distinct()
      modifies this`board, this`tally, ghosts
      ensures State() == P.EatTile(old(State()))
    {
      var (x, y) := (player.x, player.y);
      var tile := TileAt(board.grid, x, y);
      if tile == Pellet {
        board := board.(grid := board.grid[y := board.grid[y][x := Empty]]);
        tally := tally.(score := tally.score + 10);
        board := board.(pelletCount := board.pelletCount - 1);
      } else if tile == Power {
        board := board.(grid := board.grid[y := board.grid[y][x := Empty]]);
        tally := tally.(score := tally.score + 50);
        board := board.(pelletCount := board.pelletCount - 1);
        tally := tally.(ghostCombo := 0);
        FrightenGhosts();
      }
    }

    /** The position `options.sort(key=distance)` brings to the front: the
        first option of least distance, the sort being stable. */
    static method FirstNearest(options: seq<P.Choice>) returns (k: nat)
      requires |options| > 0
      ensures k == P.BestIndex(options)
    {
      k := 0;
      for i := 1 to |options|
        invariant k == P.BestIndex(options[..i])
      {
        assert options[..i + 1][..i] == options[..i];
        if options[i].dist < options[k].dist {
          k := i;
        }
      }
      assert options[..|options|] == options;
    }

    /** `_step_ghost_toward`: list the open directions in the order up, left,
        down, right (no reversing unless frightened) with the distance from
        the tile each leads to to the target; a frightened ghost takes the
        option its draw picks, any other the nearest one; with no option it
        stays put. */
    method StepGhostToward(g: Ghost, target: (int, int), pick: nat)
      requires Shaped(board.grid)
      modifies g
      ensures g.Rec() == P.StepToward(board.grid, old(g.Rec()), target, pick)
    {
      var options: seq<P.Choice> := [];
      var reverse := Reverse(g.direction);
      var dirs := P.Preference;
      for k := 0 to |dirs|
        invariant options == P.Options(board.grid, g.Rec(), target, dirs[..k])
      {
        assert dirs[..k + 1][..k] == dirs[..k];
        var d := dirs[k];
        if g.mode != P.Frightened && d == reverse {
          continue;
        }
        if !CanMove(board.grid, g.x, g.y, d, true) {
          continue;
        }
        var (dx, dy) := DirDelta(d);
        var (nx, ny) := (g.x + dx, g.y + dy);
        var dist := P.Abs(target.0 - nx) + P.Abs(target.1 - ny);
        options := options + [P.Choice(nx, ny, d, dist)];
      }
      assert dirs[..|dirs|] == dirs;
      if |options| == 0 {
        return;
      }
      var choice: P.Choice;
      if g.mode == P.Frightened {
        choice := options[pick % |options|];
      } else {
        var best := FirstNearest(options);
        choice := options[best];
      }
      g.x, g.y := choice.x, choice.y;
      g.direction := choice.dir;
    }

    /** The start of a ghost's turn in `_move_ghosts`, once it may leave
        the house: release, then the fright countdown. */
    method ReleaseAndCountDown(g: Ghost, phase: P.Mode)
      modifies g
      ensures g.Rec() == P.CountDown(phase, P.Release(phase, old(g.Rec())))
    {
      if !g.released {
        g.released := true;
        g.mode := phase;
      }
      if g.mode == P.Frightened && g.frightenedTicks > 0 {
        g.frightenedTicks := g.frightenedTicks - 1;
        if g.frightenedTicks == 0 {
          g.mode := phase;
        }
      }
    }

    /** The end of a ghost's turn: an eaten ghost back home recovers. */
    method Revive(g: Ghost, phase: P.Mode)
      modifies g
      ensures g.Rec() == P.Revive(phase, old(g.Rec()))
    {
      if g.mode == P.Eaten && g.x == g.homeX && g.y == g.homeY {
        g.mode := phase;
        g.frightenedTicks := 0;
      }
    }

    /** The body of the loop of `_move_ghosts` for ghost `i`: the ghost
        waits in the house until its release tick, then counts down its
        fright, picks the target of its mode (with the roster as it stands),
        sits out odd ticks while frightened and otherwise steps toward the
        target. */
    method TurnGhost(i: nat, roll: P.Roll)
      requires Shaped(board.grid) && i < |ghosts| && Distinct()
      modifies ghosts[i]
      ensures ghosts[i].Rec() == P.GhostTurn(old(State()), old(Recs(ghosts)), i, roll)
    {
      var g := ghosts[i];
      var phase := clock.globalMode;
      if !g.released && clock.tick < g.releaseTick {
        return;
      }
      ReleaseAndCountDown(g, phase);
      var roster := Recs(ghosts);
      assert roster == old(Recs(ghosts))[i := g.Rec()];
      var target := P.GhostTarget(player, roster, g.Rec(), roll);
      if g.mode == P.Frightened && clock.tick % 2 == 1 {
        return;
      }
      StepGhostToward(g, target, roll.pick);
      Revive(g, phase);
    }

    /** `_move_ghosts`: each ghost in roster order takes its turn; a ghost
        sees the ones before it already moved. */
    method MoveGhosts(rolls: seq<P.Roll>)
      requires Shaped(board.grid) && Distinct()
      modifies ghosts
      ensures State() == P.MoveGhosts(old(State()), rolls)
    {
      ghost var start := State();
      for i := 0 to |ghosts|
        invariant State() == start.(ghosts := P.MoveGhostsUpTo(start, i, rolls))
      {
        ghost var now := State();
        TurnGhost(i, P.RollAt(rolls, i));
        assert P.GhostTurn(now, now.ghosts, i, P.RollAt(rolls, i)) == P.GhostTurn(start, now.ghosts, i, P.RollAt(rolls, i));
        assert Recs(ghosts) == now.ghosts[i := ghosts[i].Rec()];
      }
    }

    /** The loop of `_reset_after_death`: every ghost back to its home tile,
        waiting, facing left and unfrightened. */
    method SendGhostsHome()
      requires Distinct()
      modifies ghosts
      ensures State() == old(State()).(ghosts := P.SendAllHome(old(State()).ghosts))
    {
      for i := 0 to |ghosts|
        invariant forall j :: 0 <= j < |ghosts| ==>
                    ghosts[j].Rec() == if j < i then P.SendHome(old(ghosts[j].Rec())) else old(ghosts[j].Rec())
      {
        var g := ghosts[i];
        g.x := g.homeX;
        g.y := g.homeY;
        g.mode := P.Home;
        g.released := false;
        g.direction := Left;
        g.frightenedTicks := 0;
      }
      assert Recs(ghosts) == P.SendAllHome(old(Recs(ghosts)));
    }

    /** `_reset_after_death`: the player back at the start, the combo reset,
        every ghost sent home and the first one let out at once in the
        global mode. */
    method ResetAfterDeath()
      requires Distinct()
      modifies this`player, this`tally, ghosts
      ensures State() == P.ResetAfterDeath(old(State()))
    {
      player := player.(x := P.StartX, y := P.StartY, dir := Left, nextDir := Left);
      tally := tally.(ghostCombo := 0);
      SendGhostsHome();
      if |ghosts| > 0 {
        ghost var home := Recs(ghosts);
        ghosts[0].released := true;
        ghosts[0].mode := clock.globalMode;
        assert Recs(ghosts) == home[0 := home[0].(released := true, mode := clock.globalMode)];
      }
    }

    /** The frightened branch of `_resolve_collisions`: ghost `i` is eaten
        and the combo bonus scored. */
    method EatGhost(i: nat)
      requires i < |ghosts| && Distinct()
      modifies ghosts[i], this`tally
      ensures State() == P.EatGhostAt(old(State()), i)
    {
      ghosts[i].mode := P.Eaten;
      tally := tally.(ghostCombo := tally.ghostCombo + 1);
      tally := tally.(score := tally.score + 200 * P.Pow2(if tally.ghostCombo >= 1 then tally.ghostCombo - 1 else 0));
      assert Recs(ghosts) == old(Recs(ghosts))[i := old(Recs(ghosts))[i].(mode := P.Eaten)];
    }

    /** The deadly branch of `_resolve_collisions` before the reset. */
    method LoseLife()
      modifies this`tally
      ensures State() == old(State()).(tally := P.LoseLife(old(tally)))
    {
      tally := tally.(lives := tally.lives - 1);
      if tally.lives <= 0 {
        tally := tally.(gameOver := true);
      }
    }

    /** `_resolve_collisions`: each ghost on the player's tile in roster
        order is eaten when frightened, for 200, 400, 800, ... points; any
        other ghost there that is not already eaten costs a life (ending the
        game at zero) and ends the pass with everyone back at the start. */
    method ResolveCollisions()
      requires Distinct()
      modifies this`player, this`tally, ghosts
      ensures State() == P.ResolveCollisions(old(State()))
    {
      for i := 0 to |ghosts|
        invariant P.ResolveFrom(State(), i) == P.ResolveCollisions(old(State()))
      {
        ghost var before := State();
        var g := ghosts[i];
        if g.x != player.x || g.y != player.y {
          assert P.ResolveFrom(before, i) == P.ResolveFrom(before, i + 1);
          continue;
        }
        if g.mode == P.Frightened {
          EatGhost(i);
          assert P.ResolveFrom(before, i) == P.ResolveFrom(State(), i + 1);
        } else if g.mode != P.Eaten {
          LoseLife();
          ResetAfterDeath();
          assert P.ResolveFrom(before, i) == State();
          break;
        } else {
          assert P.ResolveFrom(before, i) == P.ResolveFrom(before, i + 1);
        }
      }
    }

    /** The steps of `_game_tick` after the game-over test: the schedule,
        the player, the ghosts, the fruit, the collisions and the level
        check, in that order. The draws `rolls` stand for the random choices
        of the ghosts, one entry per ghost. */
    method Play(rolls: seq<P.Roll>)
      requires Shaped(board.grid) && 0 <= clock.modeCycleIndex && Distinct()
      modifies this`board, this`player, this`clock, this`fruit, this`tally, ghosts
      ensures State() == P.Play(old(State()), rolls)
    {
      UpdateGlobalMode();
      MovePlayer();
      MoveGhosts(rolls);
      UpdateFruit();
      ResolveCollisions();
      CheckLevelClear();
    }

    /** `_game_tick`: the tick counter advances and, unless the game is
        over, the game plays one step. The object stays valid. */
    method GameTick(rolls: seq<P.Roll>)
      requires Valid()
      modifies this`board, this`player, this`clock, this`fruit, this`tally, ghosts
      ensures State() == P.Tick(old(State()), rolls)
      ensures Valid()
    {
      ghost var s := State();
      PacmanLaws.TickPreservesInv(s, rolls);
      PacmanLaws.TickSteps(s, rolls);
      clock := clock.(tick := clock.tick + 1);
      ghost var counted := State();
      assert counted == s.(clock := s.clock.(tick := s.clock.tick + 1));
      if tally.gameOver {
        return;
      }
      Play(rolls);
      assert State() == P.Play(counted, rolls);
    }
  }
}
