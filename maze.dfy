/** The Pac-Man maze: the fixed level layout, tile lookup, the legality of a
    one-tile move for the player and for the ghosts, the row-10 tunnel, and
    the pellet count that drives the fruit and the end of a level. */
module Maze {

  datatype Dir = Up | Down | Left | Right

  const Wall := '#'
  const Pellet := '.'
  const Power := 'o'
  const House := 'H'
  const Gate := '='
  const Empty := ' '

  /** The only row whose ends are open: the player leaves one edge and comes
      back on the other. */
  const TunnelRow := 10

  const Width := 28
  const Height := 22

  const Level: seq<string> := [
    "############################",
    "#............##............#",
    "#.####.#####.##.#####.####.#",
    "#o####.#####.##.#####.####o#",
    "#..........................#",
    "#.####.##.########.##.####.#",
    "#......##....##....##......#",
    "######.##### ## #####.######",
    "######.#            #.######",
    "######.# ###HHHH### #.######",
    "      .  #H      H#  .      ",
    "######.# ###====### #.######",
    "######.#            #.######",
    "######.# ########## #.######",
    "#............##............#",
    "#.####.#####.##.#####.####.#",
    "#o..##................##..o#",
    "###.##.##.########.##.##.###",
    "#......##....##....##......#",
    "#..##########..##########..#",
    "#..........................#",
    "############################"
  ]

  type Grid = seq<seq<char>>

  /** A grid with the level's dimensions. */
  predicate Shaped(g: Grid) {
    |g| == Height && forall y :: 0 <= y < |g| ==> |g[y]| == Width
  }

  predicate InBounds(x: int, y: int) {
    0 <= x < Width && 0 <= y < Height
  }

  lemma LevelShaped()
    ensures Shaped(Level)
  {
  }

  /** `_dir_delta`. */
  function DirDelta(d: Dir): (delta: (int, int))
    ensures delta.0 * delta.0 + delta.1 * delta.1 == 1
  {
    match d
    case Up => (0, -1)
    case Down => (0, 1)
    case Left => (-1, 0)
    case Right => (1, 0)
  }

  /** `_reverse_dir`. */
  function Reverse(d: Dir): (r: Dir)
    ensures DirDelta(r).0 == -DirDelta(d).0 && DirDelta(r).1 == -DirDelta(d).1
  {
    match d
    case Up => Down
    case Down => Up
    case Left => Right
    case Right => Left
  }

  /** The reverse is the only direction whose delta cancels `d`'s, and
      reversing twice gives `d` back. */
  lemma ReverseUnique(d: Dir, e: Dir)
    ensures DirDelta(e).0 == -DirDelta(d).0 && DirDelta(e).1 == -DirDelta(d).1 <==> e == Reverse(d)
    ensures Reverse(Reverse(d)) == d
  {
  }

  /** `_tile`: anything off the board reads as a wall. */
  function TileAt(g: Grid, x: int, y: int): (t: char)
    requires Shaped(g)
    ensures !InBounds(x, y) ==> t == Wall
    ensures InBounds(x, y) ==> t == g[y][x]
  {
    if y < 0 || y >= Height || x < 0 || x >= Width then Wall else g[y][x]
  }

  /** `_can_move`: whether the tile one step from (x, y) in direction `d` may
      be entered. The two ends of the tunnel row are open to the player only;
      walls and the outside of the board stop everyone; the gate stops only
      the player. */
  function CanMove(g: Grid, x: int, y: int, d: Dir, isGhost: bool): bool
    requires Shaped(g)
  {
    var (dx, dy) := DirDelta(d);
    var nx := x + dx;
    var ny := y + dy;
    if !isGhost && ny == TunnelRow && (nx < 0 || nx >= Width) then true
    else if ny < 0 || ny >= Height || nx < 0 || nx >= Width then false
    else
      var tile := g[ny][nx];
      if tile == Wall then false
      else if tile == Gate && !isGhost then false
      else true
  }

  /** The tunnel exits: a step off either end of the tunnel row. */
  predicate TunnelExit(nx: int, ny: int) {
    ny == TunnelRow && (nx < 0 || nx >= Width)
  }

  /** `CanMove` against the tile it looks at: a wall (or the outside of the
      board, which reads as one) blocks player and ghosts alike, except that
      the player may step out of the tunnel; the gate blocks the player and no
      ghost; any other tile admits both. */
  lemma CanMoveByTile(g: Grid, x: int, y: int, d: Dir, isGhost: bool)
    requires Shaped(g)
    ensures var nx := x + DirDelta(d).0;
            var ny := y + DirDelta(d).1;
            var tile := TileAt(g, nx, ny);
            && (tile == Wall ==> (CanMove(g, x, y, d, isGhost) <==> !isGhost && TunnelExit(nx, ny)))
            && (tile == Gate ==> (CanMove(g, x, y, d, isGhost) <==> isGhost))
            && (tile != Wall && tile != Gate ==> CanMove(g, x, y, d, isGhost))
  {
  }

  /** A ghost never leaves the board. */
  lemma GhostMoveStaysInBounds(g: Grid, x: int, y: int, d: Dir)
    requires Shaped(g) && CanMove(g, x, y, d, true)
    ensures InBounds(x + DirDelta(d).0, y + DirDelta(d).1)
  {
  }

  /** `_wrap_player`: the column after a step, taken round the tunnel. */
  function Wrap(x: int, y: int): int {
    if y == TunnelRow && x < 0 then Width - 1
    else if y == TunnelRow && x >= Width then 0
    else x
  }

  /** A legal player step from a tile on the board lands on the board; off
      either end of the tunnel it lands on the opposite end. */
  lemma PlayerMoveStaysInBounds(g: Grid, x: int, y: int, d: Dir)
    requires Shaped(g) && InBounds(x, y) && CanMove(g, x, y, d, false)
    ensures var nx := x + DirDelta(d).0;
            var ny := y + DirDelta(d).1;
            && InBounds(Wrap(nx, ny), ny)
            && (ny == TunnelRow && nx < 0 ==> Wrap(nx, ny) == Width - 1)
            && (ny == TunnelRow && nx >= Width ==> Wrap(nx, ny) == 0)
            && (!TunnelExit(nx, ny) ==> Wrap(nx, ny) == nx && TileAt(g, nx, ny) != Wall && TileAt(g, nx, ny) != Gate)
  {
  }

  predicate IsPellet(c: char) {
    c == Pellet || c == Power
  }

  /** Pellets and power pellets in one row. */
  function RowPellets(row: seq<char>): nat {
    if |row| == 0 then 0
    else RowPellets(row[..|row| - 1]) + (if IsPellet(row[|row| - 1]) then 1 else 0)
  }

  /** Pellets and power pellets on the whole grid: the sum taken by
      `_reset_level`. */
  function Pellets(g: Grid): nat {
    if |g| == 0 then 0
    else Pellets(g[..|g| - 1]) + RowPellets(g[|g| - 1])
  }

  /** Clearing a pellet from a row removes exactly one from its count. */
  lemma {:induction false} RowPelletsClear(row: seq<char>, x: int)
    requires 0 <= x < |row| && IsPellet(row[x])
    ensures RowPellets(row[x := Empty]) + 1 == RowPellets(row)
  {
    var last := |row| - 1;
    assert row[x := Empty][..last] == if x == last then row[..last] else row[..last][x := Empty];
    if x < last {
      RowPelletsClear(row[..last], x);
    }
  }

  /** Replacing one row changes the grid count by the difference of the two
      row counts. */
  lemma {:induction false} PelletsReplaceRow(g: Grid, y: int, row: seq<char>)
    requires 0 <= y < |g|
    ensures Pellets(g[y := row]) + RowPellets(g[y]) == Pellets(g) + RowPellets(row)
  {
    var last := |g| - 1;
    assert g[y := row][..last] == if y == last then g[..last] else g[..last][y := row];
    if y < last {
      PelletsReplaceRow(g[..last], y, row);
    }
  }

  /** Eating the pellet at (x, y): the tile becomes empty. */
  function ClearTile(g: Grid, x: int, y: int): (r: Grid)
    requires Shaped(g) && InBounds(x, y)
    ensures Shaped(r) && r[y][x] == Empty
    ensures forall j, i :: 0 <= j < Height && 0 <= i < Width && (j, i) != (y, x) ==> r[j][i] == g[j][i]
  {
    g[y := g[y][x := Empty]]
  }

  /** Clearing a pellet tile lowers the pellet count by exactly one. */
  lemma ClearTileCounts(g: Grid, x: int, y: int)
    requires Shaped(g) && InBounds(x, y) && IsPellet(g[y][x])
    ensures Pellets(ClearTile(g, x, y)) + 1 == Pellets(g)
  {
    RowPelletsClear(g[y], x);
    PelletsReplaceRow(g, y, g[y][x := Empty]);
  }

  /** The tiles of `g` are those of the level, except pellets that have been
      eaten: walls, the gate and the house never change. */
  predicate Eroded(g: Grid)
    requires Shaped(g)
  {
    forall y, x :: 0 <= y < Height && 0 <= x < Width ==>
      g[y][x] == Level[y][x] || (g[y][x] == Empty && IsPellet(Level[y][x]))
  }

  lemma ClearTileErodes(g: Grid, x: int, y: int)
    requires Shaped(g) && Eroded(g) && InBounds(x, y) && IsPellet(g[y][x])
    ensures Shaped(ClearTile(g, x, y)) && Eroded(ClearTile(g, x, y))
  {
    ClearTileCounts(g, x, y);
    var r := ClearTile(g, x, y);
    forall j, i | 0 <= j < Height && 0 <= i < Width
      ensures r[j][i] == Level[j][i] || (r[j][i] == Empty && IsPellet(Level[j][i]))
    {
      if (j, i) == (y, x) {
        assert g[y][x] == Level[y][x];
      }
    }
  }

  /** Walls and the gate of an eroded grid are those of the level, so whether
      a move is legal is fixed for the whole level. */
  lemma ErodedCanMove(g: Grid, x: int, y: int, d: Dir, isGhost: bool)
    requires Shaped(g) && Eroded(g)
    ensures Shaped(Level) && CanMove(g, x, y, d, isGhost) == CanMove(Level, x, y, d, isGhost)
  {
    LevelShaped();
  }
}
