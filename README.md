# Dashboard arcade engines and collector helpers, in Dafny

This project models the game engines of the terminal dashboard and a few pure
helpers of its service collectors, and proves what they guarantee.

- **Pac-Man** (`src/dashboard/pacman.py`). A tick-based engine over a fixed
  28 x 22 maze: the player, four ghosts (Blinky, Pinky, Inky, Clyde), the
  global scatter/chase schedule, pellets and power pellets, the bonus fruit,
  collisions, lives, the ghost combo and the end of a level.
  - `maze.dfy` (module `Maze`): the level, tile lookup, move legality, the
    row-10 tunnel and the pellet count.
  - `pacman.dfy` (module `Pacman`): every step of `_game_tick` as a function
    on a `GameState` value.
  - `pacman_laws.dfy` (module `PacmanLaws`): the invariant every tick keeps,
    and the properties of each step.
  - `pacman_game.dfy` (module `PacmanEngine`): the engine as the screen
    object keeps it. It is a class whose fields each step reassigns, and
    each `Ghost` is a mutable object that the ghost loops change. Every
    method is proved to leave the object in the state the matching `Pacman`
    function computes. The screen's flat attributes are grouped into six
    record fields (maze, player, roster, clock, fruit, tally).
- **Snake** (`src/dashboard/snake.py`), in `snake.dfy` (module `Snake`). A
  snake on a toroidal board with an obstacle ring, food and a special food on
  a cooldown cycle. The `SnakeGame` class holds the screen's fields; its
  methods are proved against the value-level functions `Steer`, `Tick`,
  `Reset` and `SpecialFoodStep`.
- **Collector helpers** (`src/dashboard/collectors.py`), in `collectors.dfy`
  (module `Collectors`): `human_seconds`, `_service_probe_url`,
  `_is_tls_trust_error`, and the decision inside
  `_probe_service_with_fallback` as a pure function of the two probe results.

Randomness (`random.choice`, `random.randint`) is a caller-supplied draw, a
natural number reduced modulo the number of candidates. So every candidate
can be drawn and nothing else can; lemmas prove both halves
(`PacmanLaws.RandomTargetReachesAll`, `PacmanLaws.FrightenedStepReachesAll`,
`Snake.SpawnFoodReachesEveryFreeCell`). A Pac-Man tick takes one `Roll` per
ghost. The fruit's float ratio tests `ratio <= 0.70` and `ratio <= 0.30` are
modelled as `10 * count <= 7 * initial` and `10 * count <= 3 * initial`.

The model follows the code, including these departures from the arcade
original:
- The global mode is advanced before the player moves.
- A flip of the global mode never reaches a ghost that is already out. Ghosts
  copy the global mode only when released, when their fright runs out, when
  an eaten ghost reaches home, and on a death reset.
- The last schedule entry (99999 ticks) is finite, so the phase keeps
  flipping every 99999 ticks.
- Only walls block ghosts. The gate blocks only the player, and the house
  tiles `H` block nobody.
- An eaten ghost is still barred from reversing. Only a frightened ghost may
  reverse.
- Any ghost on the player's tile that is neither frightened nor eaten costs a
  life, a waiting (`home`) ghost included.
- A frightened ghost draws a random target that its step never uses; it picks
  a random option instead.
- The tick counter is not reset on a death. So on the next tick every ghost
  whose release tick has passed is released again.

## Model

| member | source | states |
|---|---|---|
| `Maze.DirDelta` | src/dashboard/pacman.py:422-430 | each direction moves exactly one tile along one axis |
| `Maze.Reverse` | src/dashboard/pacman.py:432-441 | the reverse direction has the negated delta |
| `Maze.ReverseUnique` | src/dashboard/pacman.py:432-441 | the reverse is the only direction that cancels a delta, and reversing twice is the identity |
| `Maze.TileAt` | src/dashboard/pacman.py:477-480 | any cell off the board reads as a wall; a cell on it reads as the grid |
| `Maze.CanMove` | src/dashboard/pacman.py:398-414 | `_can_move`: the tile one step away decides; its laws are `Maze.CanMoveByTile`, `Maze.GhostMoveStaysInBounds`, `Maze.PlayerMoveStaysInBounds` and `Maze.ErodedCanMove` |
| `Maze.Wrap` | src/dashboard/pacman.py:416-420 | `_wrap_player`: on row 10 a column past either edge re-enters at the other; `Maze.PlayerMoveStaysInBounds` states where a wrapped move lands |
| `Maze.CanMoveByTile` | src/dashboard/pacman.py:398-414 | a wall or the outside blocks both player and ghosts, except the player's tunnel exit; the gate blocks exactly the player; every other tile admits both |
| `Maze.GhostMoveStaysInBounds` | src/dashboard/pacman.py:398-414 | a legal ghost move stays on the board |
| `Maze.PlayerMoveStaysInBounds` | src/dashboard/pacman.py:398-420 | a legal player move lands on the board; off row 10's left edge it lands at x = width-1, off its right edge at x = 0 |
| `Maze.ClearTile` | src/dashboard/pacman.py:262 | eating empties exactly the player's tile and changes no other |
| `Maze.ClearTileCounts` | src/dashboard/pacman.py:260-268 | clearing a pellet tile lowers the grid's pellet count by exactly one |
| `Maze.ClearTileErodes` | src/dashboard/pacman.py:260-268 | eating keeps the grid equal to the level except for eaten pellets |
| `Maze.ErodedCanMove` | src/dashboard/pacman.py:398-414 | move legality is the same on every grid of the level, since walls and the gate never change |
| `Pacman.BestIndex` | src/dashboard/pacman.py:331-332 | the head of the stably sorted options is the first option of least distance |
| `Pacman.OptionsMembers` | src/dashboard/pacman.py:313-323 | every option is an allowed direction with its tile and distance, and every allowed direction has an option (that each has only one follows from `PacmanLaws.OptionsSorted`) |
| `Pacman.ResetLevel` | src/dashboard/pacman.py:197-222 | `_reset_level` as a function of the old state; `PacmanLaws.ResetLevelEstablishesInv` proves the state it builds is good |
| `Pacman.GhostTarget` | src/dashboard/pacman.py:289-298 | the target chosen by mode; `PacmanLaws.ChaseTargets`, `PacmanLaws.ScatterCorners` and `PacmanLaws.RandomTargetRange` state its cases |
| `Pacman.StepToward` | src/dashboard/pacman.py:312-335 | `_step_ghost_toward`; `PacmanLaws.StepTowardLegal`, `PacmanLaws.StepTowardGreedy` and `PacmanLaws.StepTakesAnOption` state what it does |
| `Pacman.MovePlayer` | src/dashboard/pacman.py:248-273 | `_move_player`; keeps the grid shaped, and `PacmanLaws.PlayerStepRules`, `PacmanLaws.EatTileRules` and `PacmanLaws.MovePlayerProgress` state the rest |
| `Pacman.MoveGhosts` | src/dashboard/pacman.py:275-310 | `_move_ghosts` as a fold of `GhostTurn` over the roster; `PacmanLaws.MoveGhostsKeepsInv` is its law |
| `Pacman.UpdateFruit` | src/dashboard/pacman.py:337-355 | `_update_fruit`; `PacmanLaws.FruitAppearances` and `PacmanLaws.FruitRules` are its laws |
| `Pacman.ResolveCollisions` | src/dashboard/pacman.py:361-374 | `_resolve_collisions`; `PacmanLaws.ResolveDeath`, `PacmanLaws.ResolveNoDeath` and `PacmanLaws.ResolveRunScores` are its laws |
| `Pacman.ResetAfterDeath` | src/dashboard/pacman.py:376-391 | `_reset_after_death`; `PacmanLaws.DeathHere` states its effect |
| `Pacman.Play` | src/dashboard/pacman.py:230-236 | the live part of `_game_tick`; `PacmanLaws.PlayKeepsInv` and `PacmanLaws.PlayProgress` are its laws |
| `Pacman.Tick` | src/dashboard/pacman.py:224-237 | `_game_tick`; `PacmanLaws.TickPreservesInv`, `PacmanLaws.TickProgress` and `PacmanLaws.TickAfterGameOver` are its laws |
| `PacmanLaws.ResetLevelEstablishesInv` | src/dashboard/pacman.py:197-222 | a level reset yields a state satisfying the tick invariant, the grid is the level itself and the pellet count and starting count both equal the level's pellet tiles; the player and the ghosts stand on the board, the roster is well formed and the clock and fruit are well formed |
| `PacmanLaws.MountedSatisfiesInv` | src/dashboard/pacman.py:112-158 | the mounted screen satisfies the invariant |
| `PacmanLaws.PelletsAtMostInitial` | src/dashboard/pacman.py:216-219 | the pellet count lies between 0 and the level's starting count |
| `PacmanLaws.GlobalModeSchedule` | src/dashboard/pacman.py:239-246 | the timer counts up; on reaching the current entry it resets to 0, the mode flips scatter/chase and the index advances, saturating at the last entry |
| `PacmanLaws.PlayerStepRules` | src/dashboard/pacman.py:248-258 | the player adopts the queued direction exactly when it is open, then moves one legal step (wrapped) or stays, and stays on the board |
| `PacmanLaws.EatTileRules` | src/dashboard/pacman.py:260-273 | a pellet gives +10 and a power pellet +50, the tile empties and the count drops by one; a power pellet resets the combo and frightens for 75 ticks exactly the ghosts that are neither home nor eaten |
| `PacmanLaws.EatTileKeepsInv` | src/dashboard/pacman.py:260-273 | eating keeps the pellet count equal to the pellet tiles left |
| `PacmanLaws.MovePlayerKeepsInv` | src/dashboard/pacman.py:248-273 | the player's move keeps the invariant |
| `PacmanLaws.ChaseTargets` | src/dashboard/pacman.py:452-472 | Blinky aims at the player, Pinky at player + 4·dir, Inky at 2·(player + 2·dir) − Blinky, Clyde at the player when more than 8 away and else at (1, h−2) |
| `PacmanLaws.ScatterCorners` | src/dashboard/pacman.py:443-450 | each ghost's corner, unknown names getting Blinky's, all inside the border |
| `PacmanLaws.RandomTargetRange` | src/dashboard/pacman.py:474-475 | the random target lies in [1, w−2] × [1, h−2] |
| `PacmanLaws.RandomTargetReachesAll` | src/dashboard/pacman.py:474-475 | every tile of that range can be drawn |
| `PacmanLaws.OptionsSorted` | src/dashboard/pacman.py:315-323 | options come in up, left, down, right order |
| `PacmanLaws.StepTakesAnOption` | src/dashboard/pacman.py:325-335 | the step taken is the drawn option when frightened and the first nearest option otherwise |
| `PacmanLaws.StepTowardLegal` | src/dashboard/pacman.py:312-335 | with no allowed direction the ghost stays; otherwise it takes one allowed step (open to ghosts, not a reversal unless frightened) and stays on the board |
| `PacmanLaws.StepTowardGreedy` | src/dashboard/pacman.py:328-332 | a non-frightened ghost's step has minimal distance to the target, ties going to the earliest of up, left, down, right |
| `PacmanLaws.FrightenedStepReachesAll` | src/dashboard/pacman.py:328-329 | a frightened ghost can take any allowed direction |
| `PacmanLaws.GhostTurnLifecycle` | src/dashboard/pacman.py:276-310 | a waiting ghost is unchanged before its release tick and then leaves in the global mode; fright counts down and reverts to the global mode at 0; a frightened ghost stays put on odd ticks; an eaten ghost reaching home takes the global mode with 0 fright ticks |
| `PacmanLaws.GhostTurnKeepsOk` | src/dashboard/pacman.py:276-310 | a ghost's turn keeps it on the board, its identity fixed, released exactly when not home, and its fright count in 1..75 |
| `PacmanLaws.MoveGhostsUpToKeepsRoster` | src/dashboard/pacman.py:275-310 | the ghost loop keeps the whole roster well formed |
| `PacmanLaws.MoveGhostsKeepsInv` | src/dashboard/pacman.py:275-310 | moving the ghosts keeps the invariant |
| `PacmanLaws.FruitAppearances` | src/dashboard/pacman.py:337-347 | the first appearance happens the first tick the ratio is ≤ 0.70, the second the first later tick it is ≤ 0.30, never both at once; a tick that sets neither flag leaves the fruit unchanged, so each appearance happens at most once, and each shows the fruit for 80 ticks |
| `PacmanLaws.FruitRules` | src/dashboard/pacman.py:337-359 | nothing happens when the level started empty; a shown fruit counts down, is eaten for +300 on (14, 10) or vanishes when its ticks run out; only the fruit and the score change |
| `PacmanLaws.BonusDoubles` | src/dashboard/pacman.py:365-368 | the combo bonus doubles: 200, 400, 800, 1600 |
| `PacmanLaws.RunBonusClosed` | src/dashboard/pacman.py:365-368 | n ghosts eaten after `combo` earn 200·2^combo·(2^n − 1) |
| `PacmanLaws.ResolveRunScores` | src/dashboard/pacman.py:361-368 | a collision pass without a deadly ghost raises the combo by the number of frightened ghosts on the player's tile and scores their doubling bonuses |
| `PacmanLaws.FrightenedHereSuffix` | src/dashboard/pacman.py:362-364 | the rest of the pass depends only on the player and the ghosts not yet visited |
| `PacmanLaws.DeathHere` | src/dashboard/pacman.py:369-374 | the pass stops at a deadly ghost: what follows is exactly `_reset_after_death` after one life is lost, which costs one life and resets the player and the ghosts |
| `PacmanLaws.DeathAfterEating` | src/dashboard/pacman.py:365-374 | ghosts eaten earlier in the same pass do not change the death reset |
| `PacmanLaws.ResolveDeath` | src/dashboard/pacman.py:361-391 | with a ghost on the player's tile that is neither frightened nor eaten: lives drop by one, game over when they reach 0, the combo is 0, the player is back at (14, 16) facing left, every ghost home, waiting, facing left with 0 fright ticks, and only the first ghost re-released in the global mode; the pass stops at the first deadly ghost, so the score is the old one plus the doubling bonuses of exactly the frightened ghosts on the tile before it |
| `PacmanLaws.ResolveDeathScores` | src/dashboard/pacman.py:361-374 | the score after a pass that meets a deadly ghost is the old score plus the bonuses of the frightened ghosts eaten before the `break` |
| `PacmanLaws.EatenBeforeDeathSuffix` | src/dashboard/pacman.py:362-372 | how many ghosts a pass eats before it stops depends only on the player and the ghosts not yet visited |
| `PacmanLaws.ResolveNoDeath` | src/dashboard/pacman.py:361-368 | otherwise exactly the frightened ghosts on the player's tile become eaten, and lives, player and flags stay |
| `PacmanLaws.ResolveKeepsInv` | src/dashboard/pacman.py:361-391 | collisions keep the invariant |
| `PacmanLaws.PlayKeepsInv` | src/dashboard/pacman.py:230-236 | the steps of a live tick keep the invariant |
| `PacmanLaws.TickPreservesInv` | src/dashboard/pacman.py:224-237 | every tick keeps the invariant: the pellet count equals the pellet tiles left, walls never change, everyone stays on the board |
| `PacmanLaws.TickAfterGameOver` | src/dashboard/pacman.py:225-228 | once the game is over a tick changes nothing but the tick counter |
| `PacmanLaws.MovePlayerProgress` | src/dashboard/pacman.py:248-273 | the player's move never lowers the score nor raises the pellet count |
| `PacmanLaws.ResolveProgress` | src/dashboard/pacman.py:361-391 | collisions never lower the score and leave the maze alone |
| `PacmanLaws.PlayProgress` | src/dashboard/pacman.py:230-236 | a live tick never lowers the score nor raises the pellet count, and ends with level cleared and game over when no pellet is left |
| `PacmanLaws.TickProgress` | src/dashboard/pacman.py:224-237 | the score never decreases, the pellet count never increases, and a tick that empties the maze sets both `level_cleared` and `game_over` |
| `PacmanEngine.Ghost.constructor` | src/dashboard/pacman.py:17-29 | a new ghost stands on its home tile facing left with 0 fright ticks |
| `PacmanEngine.PacmanGame.InitGhosts` | src/dashboard/pacman.py:179-195 | four fresh, distinct ghosts with the starting records |
| `PacmanEngine.PacmanGame.CountPellets` | src/dashboard/pacman.py:216-219 | the row-by-row count is the number of pellet and power-pellet tiles |
| `PacmanEngine.PacmanGame.ResetLevel` | src/dashboard/pacman.py:197-222 | the new state is `Pacman.ResetLevel` of the old one, valid, with four fresh ghost objects |
| `PacmanEngine.PacmanGame.constructor` | src/dashboard/pacman.py:112-156 | the mounted screen is a reset level keeping score 0 and 3 lives, valid, with four fresh ghost objects, so it can be ticked at once |
| `PacmanEngine.PacmanGame.Restart` | src/dashboard/pacman.py:163-165 | a restart resets the level with score 0 and 3 lives, with four fresh ghost objects |
| `PacmanEngine.PacmanGame.Steer` | src/dashboard/pacman.py:167-177 | a key press only sets the queued direction |
| `PacmanEngine.PacmanGame.UpdateGlobalMode` | src/dashboard/pacman.py:239-246 | only the clock changes, as `Pacman.UpdateGlobalMode` says |
| `PacmanEngine.PacmanGame.SpawnFruit` | src/dashboard/pacman.py:357-359 | the fruit is shown with 80 ticks, nothing else changes |
| `PacmanEngine.PacmanGame.UpdateFruit` | src/dashboard/pacman.py:337-355 | the new state is `Pacman.UpdateFruit` of the old one |
| `PacmanEngine.PacmanGame.CountDownFruit` | src/dashboard/pacman.py:349-355 | the new state is `Pacman.FruitCountdown` of the old one |
| `PacmanEngine.PacmanGame.CheckLevelClear` | src/dashboard/pacman.py:393-396 | with no pellet left both flags are set, otherwise nothing changes |
| `PacmanEngine.PacmanGame.WrapPlayer` | src/dashboard/pacman.py:416-420 | only the player's column changes, taken round the tunnel |
| `PacmanEngine.PacmanGame.FrightenGhosts` | src/dashboard/pacman.py:270-273 | the loop frightens each ghost that is neither home nor eaten, and only those |
| `PacmanEngine.PacmanGame.MovePlayer` | src/dashboard/pacman.py:248-273 | the new state is `Pacman.MovePlayer` of the old one |
| `PacmanEngine.PacmanGame.EatTile` | src/dashboard/pacman.py:260-273 | the board record is replaced by one whose grid has the player's cell cleared, as `Pacman.EatTile` says |
| `PacmanEngine.PacmanGame.FirstNearest` | src/dashboard/pacman.py:331-332 | the scan returns the first option of least distance |
| `PacmanEngine.PacmanGame.StepGhostToward` | src/dashboard/pacman.py:312-335 | the ghost ends as `Pacman.StepToward` says |
| `PacmanEngine.PacmanGame.ReleaseAndCountDown` | src/dashboard/pacman.py:277-287 | release, then the fright countdown |
| `PacmanEngine.PacmanGame.Revive` | src/dashboard/pacman.py:305-310 | an eaten ghost on its home tile takes the global mode |
| `PacmanEngine.PacmanGame.TurnGhost` | src/dashboard/pacman.py:276-310 | one ghost's turn, seeing the ghosts before it already moved |
| `PacmanEngine.PacmanGame.MoveGhosts` | src/dashboard/pacman.py:275-310 | the new state is `Pacman.MoveGhosts` of the old one |
| `PacmanEngine.PacmanGame.SendGhostsHome` | src/dashboard/pacman.py:382-388 | every ghost is sent home, waiting, facing left with 0 fright ticks |
| `PacmanEngine.PacmanGame.ResetAfterDeath` | src/dashboard/pacman.py:376-391 | the new state is `Pacman.ResetAfterDeath` of the old one |
| `PacmanEngine.PacmanGame.EatGhost` | src/dashboard/pacman.py:365-368 | the ghost turns eaten and the combo bonus is scored |
| `PacmanEngine.PacmanGame.LoseLife` | src/dashboard/pacman.py:369-372 | one life less, game over at 0 |
| `PacmanEngine.PacmanGame.ResolveCollisions` | src/dashboard/pacman.py:361-374 | the new state is `Pacman.ResolveCollisions` of the old one |
| `PacmanEngine.PacmanGame.Play` | src/dashboard/pacman.py:230-236 | the steps run in the source's order |
| `PacmanEngine.PacmanGame.GameTick` | src/dashboard/pacman.py:224-237 | the new state is `Pacman.Tick` of the old one, and the invariant is kept |
| `Snake.FittedSize` | src/dashboard/snake.py:135-147 | width ≥ 8 and height ≥ 6, otherwise as many whole cells as fit the canvas |
| `Snake.ObstacleRing` | src/dashboard/snake.py:223-245 | `_build_obstacles` as a set; `Snake.RingMembers`, `Snake.ObstaclesInside` and `Snake.ObstaclesAvoidCentre` state it |
| `Snake.SpawnFood` | src/dashboard/snake.py:247-260 | `_spawn_food` with the draw as a parameter; `Snake.SpawnFoodIsFree`, `Snake.SpawnFoodInBoard` and `Snake.SpawnFoodReachesEveryFreeCell` state it |
| `Snake.Reset` | src/dashboard/snake.py:107-133 | `_reset_game`; `Snake.ResetEstablishesInv` is its law |
| `Snake.SpecialFoodStep` | src/dashboard/snake.py:201-212 | `_update_special_food`; `Snake.SpecialFoodCycle` and `Snake.SpecialFoodPreservesInv` state it |
| `Snake.Tick` | src/dashboard/snake.py:149-199 | `_game_tick`; `Snake.TickPreservesInv`, `Snake.TickCollision`, `Snake.TickMovesSnake`, `Snake.TickScoring` and `Snake.TickNeverReverses` state it |
| `Snake.RingMembers` | src/dashboard/snake.py:223-245 | a cell is an obstacle iff it is on the ring's top/bottom edge outside the three central columns, or on its sides strictly between them outside the three central rows |
| `Snake.ObstaclesInside` | src/dashboard/snake.py:223-245 | every obstacle lies in [1, w−2] × [1, h−2] |
| `Snake.ObstaclesAvoidCentre` | src/dashboard/snake.py:223-245 | the three central columns and the central row hold no obstacle |
| `Snake.FreeInRowMembers` | src/dashboard/snake.py:252-257 | one row of the comprehension lists exactly its free cells |
| `Snake.FreeCellsMembers` | src/dashboard/snake.py:252-257 | the comprehension lists exactly the free cells of the board |
| `Snake.SpawnFoodIsFree` | src/dashboard/snake.py:247-260 | the spawn is a board cell not in the snake, the obstacles or the special food, or (0, 0) when none is free |
| `Snake.SpawnFoodInBoard` | src/dashboard/snake.py:247-260 | the spawn is always a board cell |
| `Snake.SpawnFoodReachesEveryFreeCell` | src/dashboard/snake.py:252-260 | every free cell can be picked |
| `Snake.BlockedMembers` | src/dashboard/snake.py:248-250 | the blocked cells are the snake, the obstacles and the special food |
| `Snake.Steer` | src/dashboard/snake.py:100-105 | ignored after game over or for the exact reverse of `direction`; otherwise only `next_direction` changes |
| `Snake.NextHeadSteps` | src/dashboard/snake.py:154-158 | the new head is one step away on the torus and always within [0, w) × [0, h) |
| `Snake.WrapStep` | src/dashboard/snake.py:156-157 | Python's `%` by the board size wraps one step past either edge to the other |
| `Snake.ResetEstablishesInv` | src/dashboard/snake.py:107-125 | a reset satisfies the invariant (snake on the board, self-avoiding and off the obstacles, food on the board, level and high score consistent) and builds exactly the obstacle ring |
| `Snake.MountedSatisfiesInv` | src/dashboard/snake.py:63-67 | the mounted game satisfies the invariant |
| `Snake.SetDirectionPreservesInv` | src/dashboard/snake.py:100-105 | steering keeps `next_direction` from reversing `direction` |
| `Snake.SpecialFoodPreservesInv` | src/dashboard/snake.py:201-212 | the special-food step keeps the invariant |
| `Snake.FedKeepsInv` | src/dashboard/snake.py:171-183 | eating food keeps level = 1 + food eaten / 5 and the high score ≥ score |
| `Snake.TurnKeepsInv` | src/dashboard/snake.py:154 | taking the queued direction keeps the invariant |
| `Snake.AdvanceKeepsInv` | src/dashboard/snake.py:168-196 | moving onto a free cell keeps the snake on the board, self-avoiding and off the obstacles |
| `Snake.TickPreservesInv` | src/dashboard/snake.py:149-199 | every tick keeps the invariant and leaves the board and obstacles alone |
| `Snake.TickCollision` | src/dashboard/snake.py:160-166 | hitting an obstacle or any segment ends the game, leaves the snake as it was and sets high score = max(high score, score) |
| `Snake.AdvanceMovesSnake` | src/dashboard/snake.py:168-196 | the head is inserted; the tail is popped unless food or special food was eaten |
| `Snake.TickMovesSnake` | src/dashboard/snake.py:154-196 | the snake grows by exactly one on a meal and keeps its length otherwise |
| `Snake.TickScoring` | src/dashboard/snake.py:171-193 | food gives +10 and one more food eaten, every 5th raising the level; special food gives +50; the high score is max(high score, score); eaten food is replaced by a spawn avoiding the grown snake, the obstacles and the special, and otherwise stays; an eaten special is gone and the tick ends with its wait at 39 (40 less this tick's countdown) |
| `Snake.SpecialFoodCycle` | src/dashboard/snake.py:201-212 | a present special loses a tick and vanishes at ≤ 0 with cooldown 30; an absent one counts its cooldown down and appears at ≤ 0 for 28 ticks on a free cell |
| `Snake.TickNeverReverses` | src/dashboard/snake.py:100-105 | a running snake never turns straight back |
| `Snake.SnakeGame.constructor` | src/dashboard/snake.py:26-67 | the mounted game is `Snake.Mounted`, and valid |
| `Snake.SnakeGame.SetDirection` | src/dashboard/snake.py:100-105 | the new state is `Snake.Steer` of the old one |
| `Snake.SnakeGame.TogglePause` | src/dashboard/snake.py:82-86 | pause toggles unless the game is over |
| `Snake.SnakeGame.FitBoardToCanvas` | src/dashboard/snake.py:135-147 | the size becomes `FittedSize` and `changed` says whether it differs |
| `Snake.SnakeGame.Resize` | src/dashboard/snake.py:69-74 | a size change resets the game, otherwise nothing changes |
| `Snake.SnakeGame.ResetGame` | src/dashboard/snake.py:107-133 | the new state is `Snake.Reset` of the old one, and valid |
| `Snake.SnakeGame.PlaceStartSnake` | src/dashboard/snake.py:108-116 | three segments at the centre heading right |
| `Snake.SnakeGame.RestartCounters` | src/dashboard/snake.py:122-128 | flags and counters restart; the score only when asked |
| `Snake.SnakeGame.BuildObstacles` | src/dashboard/snake.py:223-245 | the loops build exactly the obstacle ring |
| `Snake.SnakeGame.UpdateSpecialFood` | src/dashboard/snake.py:201-212 | the new state is `Snake.SpecialFoodStep` of the old one |
| `Snake.SnakeGame.GameTick` | src/dashboard/snake.py:149-199 | the new state is `Snake.Tick` of the old one, and valid |
| `Snake.SnakeGame.MoveSnake` | src/dashboard/snake.py:168-196 | the list is changed by head insert and tail pop as `Snake.Advance` says |
| `Snake.SnakeGame.EndGame` | src/dashboard/snake.py:160-166 | game over, high score caught up |
| `Snake.SnakeGame.EatFood` | src/dashboard/snake.py:171-183 | the new state is `Snake.Fed` of the old one |
| `Snake.SnakeGame.EatSpecialFood` | src/dashboard/snake.py:185-193 | the new state is `Snake.FedSpecial` of the old one |
| `Collectors.DecimalString` | src/dashboard/collectors.py:253-254 | `str(n)`: at least one digit, no leading zero |
| `Collectors.ParseDecimalString` | src/dashboard/collectors.py:253-254 | the decimal text reads back as the number |
| `Collectors.DecimalStringInjective` | src/dashboard/collectors.py:253-254 | different numbers print differently |
| `Collectors.TwoDigits` | src/dashboard/collectors.py:253-254 | `{n:02d}` is exactly two digits reading back as n |
| `Collectors.WholeSeconds` | src/dashboard/collectors.py:249 | inputs ≤ 0 clamp to 0, others truncate |
| `Collectors.SplitClock` | src/dashboard/collectors.py:250-251 | h·3600 + m·60 + s equals the total, with m, s < 60 |
| `Collectors.HumanSeconds` | src/dashboard/collectors.py:248-254 | any input ≤ 0 gives "0m 00s" |
| `Collectors.HumanSecondsHours` | src/dashboard/collectors.py:250-253 | from one hour on the text is "{h}h {mm}m" with h > 0 and minutes 0-59, zero-padded |
| `Collectors.HumanSecondsMinutes` | src/dashboard/collectors.py:250-254 | below an hour the text is "{m}m {ss}s" with m·60 + s equal to the truncated input |
| `Collectors.RStripSlashes` | src/dashboard/collectors.py:224 | `rstrip("/")`: a prefix with no trailing '/', having dropped only '/' |
| `Collectors.ServiceProbeUrl` | src/dashboard/collectors.py:222-235 | the base URL without trailing '/' followed by the service's status path (none for unknown names) |
| `Collectors.ProbeSuffix` | src/dashboard/collectors.py:225-235 | the status path per service name, none for unknown names; part of what `Collectors.ServiceProbeUrl` states |
| `Collectors.ProbeUrlIgnoresTrailingSlashes` | src/dashboard/collectors.py:224 | trailing slashes never change the probe URL |
| `Collectors.RStripIgnoresSlashes` | src/dashboard/collectors.py:224 | `rstrip("/")` gives the same text however many extra slashes end the input |
| `Collectors.Contains` | src/dashboard/collectors.py:160-163 | `pattern in text` holds iff the pattern occurs at some index |
| `Collectors.Upper` | src/dashboard/collectors.py:158 | `message.upper()`: keeps the length, upper-casing each character on its own (ASCII letters only) |
| `Collectors.IsTlsTrustError` | src/dashboard/collectors.py:157-164 | `_is_tls_trust_error`; the lemmas below state which messages it accepts and rejects |
| `Collectors.TlsTrustErrorInContext` | src/dashboard/collectors.py:156-164 | a recognised message stays recognised inside a longer one |
| `Collectors.TlsVerifyFailedRecognised` | src/dashboard/collectors.py:160 | CERTIFICATE_VERIFY_FAILED alone is a trust error, so `and` binds tighter than `or` |
| `Collectors.TlsUntrustedRootRecognised` | src/dashboard/collectors.py:161 | SEC_E_UNTRUSTED_ROOT is a trust error |
| `Collectors.TlsCertificateUntrustedRecognised` | src/dashboard/collectors.py:162-163 | CERTIFICATE together with UNTRUST is a trust error |
| `Collectors.CertificateAloneNotTlsTrustError` | src/dashboard/collectors.py:162-163 | CERTIFICATE without UNTRUST is not |
| `Collectors.TimeoutNotTlsTrustError` | src/dashboard/collectors.py:156-164 | a timeout message is not a trust error |
| `Collectors.NeedsRemoteProbe` | src/dashboard/collectors.py:120-121 | the remote URL is probed only when the local probe failed and the remote URL is not blank; `Collectors.CombineProbes` states its effect |
| `Collectors.CombineProbes` | src/dashboard/collectors.py:120-130 | the primary result when it is up or the remote URL is blank; up with "" when the remote is up; otherwise down, reporting "local=<primary>; remote=<remote>" when both errors are non-empty and else the one non-empty error (or "") |
| `Collectors.RemoteIgnoredWhenNotProbed` | src/dashboard/collectors.py:120-121 | the remote outcome is irrelevant when no remote probe is made |
| `Collectors.CombinedErrorKeepsMessages` | src/dashboard/collectors.py:128-130 | when both probes fail every non-empty error survives in the message, the remote one last |

## Left out

- Rendering and framework glue: `compose`, key bindings beyond the direction
  setters, `_render_board`, `_pacman_glyph`, `_cell`, `CommandMenuScreen`,
  `query_one` and the `set_interval` timers. None of them changes game state.
- `_mouth_open` in the Pac-Man screen is only read by rendering.
- The fruit's `ratio <= 0.70` / `ratio <= 0.30` float division becomes exact
  integer cross-multiplication. For the level's pellet counts the two agree:
  when the ratio is exactly 0.7 or 0.3 the quotient and the literal round to
  the same double, and otherwise the ratio is at least 1/(10·initial count)
  away from the threshold, far more than a double's rounding error.
- The distribution of `random.choice` / `random.randint`: a draw is any
  candidate, with no probabilities.
- Snake high-score persistence (`_resolve_high_score_path`,
  `_load_high_score`, `_save_high_score`) is file I/O. The stored high score is
  a constructor parameter.
- `_increase_speed`, `tick_seconds` and the timer restarts in the snake game
  are float timing and framework timers.
- The canvas size read by `_fit_board_to_canvas` comes from the widget; here it
  is a parameter.
- `Snake.SnakeGame.SetDirection`: requires a unit direction, which every
  caller in the source (the four arrow-key actions) passes.
- `_probe_service_with_fallback`: the `tcp` probe kind and the HTTP requests
  themselves are network I/O. Only the decision over the two probe results is
  modelled, with the remote probe's result as a parameter.
- `Collectors.Upper`: `str.upper` is modelled on ASCII letters only, without
  Unicode case mapping. Python maps some non-ASCII letters onto ASCII ones
  ('ı' to 'I', 'ſ' to 'S', the ligature 'ﬅ' to 'ST'), so a message such as
  "certıficate untrusted" is a trust error to the source but not to
  `Collectors.IsTlsTrustError`.
- `Collectors.HumanSeconds`: the `float` argument is a `real`, which has no
  infinity and no NaN. In the source `human_seconds(float("inf"))` raises
  `OverflowError` in `int(...)`, and NaN gives "0m 00s" because `max(0, nan)`
  is 0; neither case is modelled.
- The Pac-Man map is a list of row lists that `_move_player` changes one cell
  at a time. In the model it is an immutable sequence inside the board record,
  replaced whole when a cell is eaten, so aliasing of the row lists is not
  captured.
- `human_bytes_per_second`, the host metrics, the qBittorrent client and the
  torrent filter are float arithmetic and network I/O.
- `src/dashboard/pong.py` (float physics), `src/dashboard/app.py`,
  `src/dashboard/config.py`, `src/dashboard/models.py` and
  `src/dashboard/main.py` are not part of this model.
