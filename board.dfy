/** The board of the circle game: the layout constants, the laser, brick and
    particle records, the brick grid built at load time, the strict
    point-in-rectangle hit test and the count of bricks still standing. */
module Board {

  const NUM_BRICK_ROWS: nat := 4
  const BRICKS_PER_ROW: nat := 8
  const BRICK_WIDTH: int := 40
  const BRICK_HEIGHT: int := 20
  const BRICK_PADDING: int := 10
  const BRICK_OFFSET_TOP: int := 30
  const BRICK_OFFSET_LEFT: int := 30
  const CIRCLE_RADIUS: int := 10

  /** A laser shot; y grows downwards, as on the canvas. */
  datatype Laser = Laser(x: int, y: int)

  /** A brick; status 1 means it still exists, 0 that it is broken. */
  datatype Brick = Brick(x: int, y: int, status: int)

  /** A particle of a burst: (x, y) is where the burst started. */
  datatype Particle = Particle(x: int, y: int, radius: real)

  /** A position in the brick grid. */
  datatype Cell = Cell(row: nat, col: nat)

  /** bricks[row][col], as the load-time loops lay it out. */
  type Grid = seq<seq<Brick>>

  function BrickX(col: int): int {
    col * (BRICK_WIDTH + BRICK_PADDING) + BRICK_OFFSET_LEFT
  }

  function BrickY(row: int): int {
    row * (BRICK_HEIGHT + BRICK_PADDING) + BRICK_OFFSET_TOP
  }

  /** The grid exactly as the load-time loops build it. */
  predicate IsInitialGrid(g: Grid) {
    && |g| == NUM_BRICK_ROWS
    && (forall r :: 0 <= r < |g| ==> |g[r]| == BRICKS_PER_ROW)
    && (forall r, c :: 0 <= r < |g| && 0 <= c < |g[r]| ==> g[r][c] == Brick(BrickX(c), BrickY(r), 1))
  }

  /** The grid invariant the game keeps: the initial shape and positions,
      and every status 0 or 1. */
  predicate WellFormed(g: Grid) {
    && |g| == NUM_BRICK_ROWS
    && (forall r :: 0 <= r < |g| ==> |g[r]| == BRICKS_PER_ROW)
    && (forall r, c :: 0 <= r < |g| && 0 <= c < |g[r]| ==>
          && g[r][c].x == BrickX(c)
          && g[r][c].y == BrickY(r)
          && (g[r][c].status == 0 || g[r][c].status == 1))
  }

  /** The collision test of the update pass: strictly inside the brick. */
  predicate Hit(l: Laser, b: Brick) {
    && l.x > b.x
    && l.x < b.x + BRICK_WIDTH
    && l.y > b.y
    && l.y < b.y + BRICK_HEIGHT
  }

  /** The brick at `cell` exists and the laser hits it. */
  predicate HitsAt(g: Grid, l: Laser, cell: Cell) {
    && cell.row < |g|
    && cell.col < |g[cell.row]|
    && g[cell.row][cell.col].status == 1
    && Hit(l, g[cell.row][cell.col])
  }

  /** Builds the grid with the two nested load-time loops, one row at a time. */
  method BuildGrid() returns (g: Grid)
    ensures |g| == NUM_BRICK_ROWS
    ensures forall r :: 0 <= r < |g| ==> |g[r]| == BRICKS_PER_ROW
    ensures forall r, c :: 0 <= r < |g| && 0 <= c < |g[r]| ==> g[r][c] == Brick(BrickX(c), BrickY(r), 1)
  {
    g := [];
    for row := 0 to NUM_BRICK_ROWS
      invariant |g| == row
      invariant forall r :: 0 <= r < row ==> |g[r]| == BRICKS_PER_ROW
      invariant forall r, c :: 0 <= r < row && 0 <= c < |g[r]| ==> g[r][c] == Brick(BrickX(c), BrickY(r), 1)
    {
      var line: seq<Brick> := [];
      for col := 0 to BRICKS_PER_ROW
        invariant |line| == col
        invariant forall c :: 0 <= c < col ==> line[c] == Brick(BrickX(c), BrickY(row), 1)
      {
        line := line + [Brick(BrickX(col), BrickY(row), 1)];
      }
      g := g + [line];
    }
  }

  /** The edges of a brick do not count as inside it. */
  lemma HitIsStrict(b: Brick, x: int, y: int)
    ensures !Hit(Laser(b.x, y), b) && !Hit(Laser(b.x + BRICK_WIDTH, y), b)
    ensures !Hit(Laser(x, b.y), b) && !Hit(Laser(x, b.y + BRICK_HEIGHT), b)
  {
  }

  /** Thanks to the padding, a point strictly inside the brick at (row, col)
      of a well-formed grid determines row and col: the brick it can hit is
      the one its own coordinates select. */
  lemma CellOfPoint(g: Grid, l: Laser, a: Cell)
    requires WellFormed(g)
    requires a.row < |g| && a.col < |g[a.row]| && Hit(l, g[a.row][a.col])
    ensures a.col == (l.x - BRICK_OFFSET_LEFT) / (BRICK_WIDTH + BRICK_PADDING)
    ensures a.row == (l.y - BRICK_OFFSET_TOP) / (BRICK_HEIGHT + BRICK_PADDING)
  {
    assert BRICK_WIDTH + BRICK_PADDING == 50 && BRICK_HEIGHT + BRICK_PADDING == 30;
    assert BrickX(a.col) == a.col * 50 + 30 && BrickY(a.row) == a.row * 30 + 30;
  }

  /** Every brick lies right of the left offset and below the top offset. */
  lemma BrickOrigin(cell: Cell)
    ensures BrickX(cell.col) >= BRICK_OFFSET_LEFT && BrickY(cell.row) >= BRICK_OFFSET_TOP
  {
    assert BRICK_WIDTH + BRICK_PADDING == 50 && BRICK_HEIGHT + BRICK_PADDING == 30;
  }

  /** The rectangles of two different cells have no point in common. */
  lemma BricksDisjoint(g: Grid, l: Laser, a: Cell, b: Cell)
    requires WellFormed(g)
    requires a.row < |g| && a.col < |g[a.row]| && b.row < |g| && b.col < |g[b.row]|
    requires Hit(l, g[a.row][a.col]) && Hit(l, g[b.row][b.col])
    ensures a == b
  {
    CellOfPoint(g, l, a);
    CellOfPoint(g, l, b);
  }

  /** A laser point lies in at most one standing brick. */
  lemma HitIsUnique(g: Grid, l: Laser, a: Cell, b: Cell)
    requires WellFormed(g) && HitsAt(g, l, a) && HitsAt(g, l, b)
    ensures a == b
  {
    BricksDisjoint(g, l, a, b);
  }

  function Live(b: Brick): nat {
    if b.status == 1 then 1 else 0
  }

  function LiveInRow(line: seq<Brick>): nat {
    if line == [] then 0 else Live(line[0]) + LiveInRow(line[1..])
  }

  /** The number of bricks that still exist. */
  function LiveCount(g: Grid): nat {
    if g == [] then 0 else LiveInRow(g[0]) + LiveCount(g[1..])
  }

  lemma {:induction false} LiveInRowUpdate(line: seq<Brick>, c: nat, b: Brick)
    requires c < |line|
    ensures LiveInRow(line[c := b]) == LiveInRow(line) - Live(line[c]) + Live(b)
  {
    if c == 0 {
      assert line[c := b][1..] == line[1..];
    } else {
      assert line[c := b][1..] == line[1..][c - 1 := b];
      LiveInRowUpdate(line[1..], c - 1, b);
    }
  }

  lemma {:induction false} LiveCountUpdate(g: Grid, r: nat, line: seq<Brick>)
    requires r < |g|
    ensures LiveCount(g[r := line]) == LiveCount(g) - LiveInRow(g[r]) + LiveInRow(line)
  {
    if r == 0 {
      assert g[r := line][1..] == g[1..];
    } else {
      assert g[r := line][1..] == g[1..][r - 1 := line];
      LiveCountUpdate(g[1..], r - 1, line);
    }
  }

  lemma {:induction false} FullRow(line: seq<Brick>)
    requires forall c :: 0 <= c < |line| ==> line[c].status == 1
    ensures LiveInRow(line) == |line|
  {
    if line != [] {
      FullRow(line[1..]);
    }
  }

  /** The grid built at load time is well formed and all 32 bricks stand. */
  lemma {:induction false} InitialGridIsFull(g: Grid)
    requires IsInitialGrid(g)
    ensures WellFormed(g)
    ensures LiveCount(g) == NUM_BRICK_ROWS * BRICKS_PER_ROW
  {
    forall r, c | 0 <= r < |g| && 0 <= c < |g[r]|
      ensures g[r][c].x == BrickX(c) && g[r][c].y == BrickY(r) && g[r][c].status == 1
    {
    }
    var k := |g|;
    while k > 0
      invariant 0 <= k <= |g|
      invariant LiveCount(g[k..]) == (|g| - k) * BRICKS_PER_ROW
    {
      k := k - 1;
      forall c | 0 <= c < |g[k]| ensures g[k][c].status == 1 {
        assert g[k][c] == Brick(BrickX(c), BrickY(k), 1);
      }
      FullRow(g[k]);
      assert g[k..][1..] == g[k + 1..];
    }
    assert g[0..] == g;
  }
}
