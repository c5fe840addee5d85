/** What one pass of the game loop leaves behind, stated on values: the
    `forEach` loop whose callback may `splice` the list it walks (movement
    pass, particle pass), the update pass with its brick collisions, and the
    particle bursts that broken bricks produce. The class in game.dfy is
    proved to follow these definitions. */
module Passes {
  import opened Board

  const LASER_SPEED: int := 5
  const NUM_PARTICLES: nat := 5

  datatype Option<T> = None | Some(value: T)

  /** What `splice(k, 1)` leaves: element k removed, or nothing removed when
      k is at or past the end. */
  function Splice<T>(s: seq<T>, k: nat): seq<T> {
    if k < |s| then s[..k] + s[k + 1..] else s
  }

  function Map<T>(s: seq<T>, f: T -> T): seq<T> {
    seq(|s|, i requires 0 <= i < |s| => f(s[i]))
  }

  /** The list left by `forEach` when its callback replaces the visited
      element by step(element) and splices it out when drop holds of the new
      value. The length is fixed when the loop starts and the index always
      advances, so the element that slides into a removed slot is never
      visited: it is kept as it was, and the walk goes on after it. */
  function Sweep<T>(s: seq<T>, step: T -> T, drop: T -> bool): seq<T>
    decreases |s|
  {
    if s == [] then []
    else if drop(step(s[0])) then
      if |s| == 1 then [] else [s[1]] + Sweep(s[2..], step, drop)
    else [step(s[0])] + Sweep(s[1..], step, drop)
  }

  /** Where an element left by a sweep comes from: it is the input element
      right after one that was spliced out, never visited and unchanged; or
      a visited input element after its step, kept because drop does not
      hold of it. */
  ghost predicate FromInput<T>(y: T, s: seq<T>, step: T -> T, drop: T -> bool) {
    || (exists i :: 0 < i < |s| && drop(step(s[i - 1])) && y == s[i])
    || (exists i :: 0 <= i < |s| && y == step(s[i]) && !drop(y))
  }

  lemma {:induction false} SweepElements<T>(s: seq<T>, step: T -> T, drop: T -> bool)
    ensures |Sweep(s, step, drop)| <= |s|
    ensures forall y :: y in Sweep(s, step, drop) ==> FromInput(y, s, step, drop)
    decreases |s|
  {
    if s == [] {
    } else if drop(step(s[0])) {
      if |s| > 1 {
        SweepElements(s[2..], step, drop);
        forall y | y in Sweep(s, step, drop) ensures FromInput(y, s, step, drop) {
          if y == s[1] {
            assert drop(step(s[1 - 1]));
          } else {
            assert y in Sweep(s[2..], step, drop);
            Shift(y, s, 2, step, drop);
          }
        }
      }
    } else {
      SweepElements(s[1..], step, drop);
      forall y | y in Sweep(s, step, drop) ensures FromInput(y, s, step, drop) {
        if y == step(s[0]) {
          assert y == step(s[0]) && !drop(y);
        } else {
          assert y in Sweep(s[1..], step, drop);
          Shift(y, s, 1, step, drop);
        }
      }
    }
  }

  /** An element that comes from a suffix of the input comes from the input. */
  lemma Shift<T>(y: T, s: seq<T>, d: nat, step: T -> T, drop: T -> bool)
    requires d <= |s| && FromInput(y, s[d..], step, drop)
    ensures FromInput(y, s, step, drop)
  {
    var t := s[d..];
    if exists i :: 0 < i < |t| && drop(step(t[i - 1])) && y == t[i] {
      var i :| 0 < i < |t| && drop(step(t[i - 1])) && y == t[i];
      assert t[i - 1] == s[i + d - 1] && t[i] == s[i + d];
    } else {
      var i :| 0 <= i < |t| && y == step(t[i]) && !drop(y);
      assert t[i] == s[i + d];
    }
  }

  /** The skip: when the first i elements survive their visit and element i
      is spliced out, the element after it is left exactly as it was, and
      the walk resumes two places further on. */
  lemma {:induction false} SweepSkipsSuccessor<T>(s: seq<T>, step: T -> T, drop: T -> bool, i: nat)
    requires i + 1 < |s|
    requires forall j :: 0 <= j < i ==> !drop(step(s[j]))
    requires drop(step(s[i]))
    ensures Sweep(s, step, drop) == Map(s[..i], step) + [s[i + 1]] + Sweep(s[i + 2..], step, drop)
  {
    if i == 0 {
      assert Map(s[..0], step) == [];
    } else {
      SweepSkipsSuccessor(s[1..], step, drop, i - 1);
      assert s[1..][i + 1..] == s[i + 2..];
      assert Map(s[..i], step) == [step(s[0])] + Map(s[1..][..i - 1], step);
    }
  }

  /** When drop never holds after a step, nothing is removed and nothing is
      skipped: every element is visited exactly once. */
  lemma {:induction false} SweepKeepsAll<T>(s: seq<T>, step: T -> T, drop: T -> bool)
    requires forall x :: !drop(step(x))
    ensures Sweep(s, step, drop) == Map(s, step)
  {
    if s != [] {
      SweepKeepsAll(s[1..], step, drop);
      assert Map(s, step) == [step(s[0])] + Map(s[1..], step);
    }
  }

  /** What the sweep of the original list comes to when `cur` is the list
      after forEach has handled the indices below i: the handled prefix,
      then the sweep of the rest. Once i reaches the current length, the
      remaining indices are past the end and skipped. */
  function Resume<T>(cur: seq<T>, i: nat, step: T -> T, drop: T -> bool): seq<T> {
    var m := if i < |cur| then i else |cur|;
    cur[..m] + Sweep(cur[m..], step, drop)
  }

  /** One visit of forEach at an index inside the list: step the element in
      place, splice it out if drop holds, advance the index. */
  lemma SweepVisit<T>(cur: seq<T>, i: nat, step: T -> T, drop: T -> bool)
    requires i < |cur|
    ensures var c := cur[i := step(cur[i])];
      Resume(cur, i, step, drop) == Resume(if drop(step(cur[i])) then Splice(c, i) else c, i + 1, step, drop)
  {
    var c := cur[i := step(cur[i])];
    assert cur[i..][0] == cur[i];
    if drop(step(cur[i])) {
      var d := Splice(c, i);
      if i + 1 < |cur| {
        assert cur[i..][2..] == cur[i + 2..] == d[i + 1..];
        assert d[..i + 1] == cur[..i] + [cur[i + 1]];
      } else {
        assert d == cur[..i];
      }
    } else {
      assert cur[i..][1..] == c[i + 1..];
      assert c[..i + 1] == cur[..i] + [step(cur[i])];
    }
  }

  /** An index at or past the current length is skipped, and the sweep of
      the original list is then the current list itself. */
  lemma SweepPastEnd<T>(cur: seq<T>, i: nat, step: T -> T, drop: T -> bool)
    requires |cur| <= i
    ensures Resume(cur, i, step, drop) == Resume(cur, i + 1, step, drop) == cur
  {
    assert cur[..|cur|] == cur;
  }

  // ---- Lasers ----

  /** `laser.y -= 5`: a laser moves up the canvas by 5. */
  function Advance(l: Laser): Laser {
    l.(y := l.y - LASER_SPEED)
  }

  /** The movement pass removes a laser once it is above the canvas. */
  predicate OffScreen(l: Laser) {
    l.y < 0
  }

  /** The position a laser had one step earlier. */
  function Raise(l: Laser): Laser {
    l.(y := l.y + LASER_SPEED)
  }

  /** After the movement pass each laser is an input laser moved up by
      exactly 5 and still on the canvas, or the laser right after one that
      left the canvas: skipped, unchanged. There are never more lasers. */
  lemma MovePassLasers(s: seq<Laser>)
    ensures |Sweep(s, Advance, OffScreen)| <= |s|
    ensures forall l :: l in Sweep(s, Advance, OffScreen) ==>
      || (exists i :: 0 < i < |s| && OffScreen(Advance(s[i - 1])) && l == s[i])
      || (Raise(l) in s && l.y >= 0)
  {
    SweepElements(s, Advance, OffScreen);
    forall l | l in Sweep(s, Advance, OffScreen) &&
        !(exists i :: 0 < i < |s| && OffScreen(Advance(s[i - 1])) && l == s[i])
      ensures Raise(l) in s && l.y >= 0
    {
      assert FromInput(l, s, Advance, OffScreen);
      var i :| 0 <= i < |s| && l == Advance(s[i]) && !OffScreen(l);
      assert Raise(l) == s[i];
    }
  }

  /** Two lasers side by side just below the top: the first leaves the
      canvas and is removed, and the second, which slides into its slot, is
      neither moved nor removed in that pass. */
  lemma MovePassSkipExample(x: int)
    ensures Sweep([Laser(x, 3), Laser(x, 3)], Advance, OffScreen) == [Laser(x, 3)]
  {
  }

  // ---- Bricks ----

  /** The standing brick a laser hits, if any (there is at most one, by
      HitIsUnique). */
  ghost function FindHit(g: Grid, l: Laser): (h: Option<Cell>)
    ensures h.Some? ==> HitsAt(g, l, h.value)
    ensures h.None? ==> forall cell :: !HitsAt(g, l, cell)
  {
    if exists cell :: HitsAt(g, l, cell) then
      var cell :| HitsAt(g, l, cell);
      Some(cell)
    else None
  }

  /** `brick.status = 0` for the brick at cell. */
  function Break(g: Grid, cell: Cell): Grid
    requires cell.row < |g| && cell.col < |g[cell.row]|
  {
    g[cell.row := g[cell.row][cell.col := g[cell.row][cell.col].(status := 0)]]
  }

  /** g2 is g1 with some bricks broken: same shape and positions, and a
      status changes only from 1 to 0. */
  ghost predicate Descends(g1: Grid, g2: Grid) {
    && |g2| == |g1|
    && (forall r :: 0 <= r < |g1| ==> |g2[r]| == |g1[r]|)
    && (forall r, c :: 0 <= r < |g1| && 0 <= c < |g1[r]| ==>
          g2[r][c] == g1[r][c] || (g1[r][c].status == 1 && g2[r][c] == g1[r][c].(status := 0)))
  }

  /** Breaking a standing brick keeps the grid well formed, changes only
      that brick, and lowers the live count by exactly one. */
  lemma BreakFacts(g: Grid, cell: Cell)
    requires WellFormed(g)
    requires cell.row < |g| && cell.col < |g[cell.row]| && g[cell.row][cell.col].status == 1
    ensures WellFormed(Break(g, cell)) && Descends(g, Break(g, cell))
    ensures Break(g, cell)[cell.row][cell.col].status == 0
    ensures LiveCount(Break(g, cell)) == LiveCount(g) - 1
  {
    var b := g[cell.row][cell.col].(status := 0);
    var line := g[cell.row][cell.col := b];
    var g' := Break(g, cell);
    assert g' == g[cell.row := line];
    assert |g'| == NUM_BRICK_ROWS;
    forall r | 0 <= r < |g'| ensures |g'[r]| == |g[r]| == BRICKS_PER_ROW {
    }
    forall r, c | 0 <= r < |g'| && 0 <= c < |g'[r]|
      ensures g'[r][c] == if r == cell.row && c == cell.col then b else g[r][c]
      ensures g'[r][c].x == BrickX(c) && g'[r][c].y == BrickY(r)
      ensures g'[r][c].status == 0 || g'[r][c].status == 1
    {
    }
    assert WellFormed(g');
    LiveInRowUpdate(g[cell.row], cell.col, b);
    LiveCountUpdate(g, cell.row, line);
  }

  lemma DescendsTransitive(g1: Grid, g2: Grid, g3: Grid)
    requires Descends(g1, g2) && Descends(g2, g3)
    ensures Descends(g1, g3)
  {
  }

  /** What the update pass leaves: lasers, bricks, and the cells of the
      bricks it broke, in order. */
  datatype PassResult = PassResult(lasers: seq<Laser>, bricks: Grid, broken: seq<Cell>)

  /** The update pass: each visited laser moves up 5 and is tested against
      the standing bricks; on a hit the brick breaks and the laser is spliced
      out, so that (as in Sweep) the next laser is not visited. A laser that
      hits nothing stays, wherever it is. */
  ghost function UpdatePass(s: seq<Laser>, g: Grid): PassResult
    decreases |s|
  {
    if s == [] then PassResult([], g, [])
    else
      var a := Advance(s[0]);
      match FindHit(g, a)
      case None =>
        var p := UpdatePass(s[1..], g);
        PassResult([a] + p.lasers, p.bricks, p.broken)
      case Some(cell) =>
        var g' := Break(g, cell);
        if |s| == 1 then PassResult([], g', [cell])
        else
          var p := UpdatePass(s[2..], g');
          PassResult([s[1]] + p.lasers, p.bricks, [cell] + p.broken)
  }

  /** The broken cell as a list of zero or one cells. */
  function Cells(hit: Option<Cell>): seq<Cell> {
    if hit.Some? then [hit.value] else []
  }

  /** The update pass of the original list when `cur` is the list after
      forEach has handled the indices below i and g the grid by then. */
  ghost function ResumeUpdate(cur: seq<Laser>, i: nat, g: Grid): PassResult {
    var m := if i < |cur| then i else |cur|;
    var p := UpdatePass(cur[m..], g);
    PassResult(cur[..m] + p.lasers, p.bricks, p.broken)
  }

  /** The update pass from index i on, over cur and g, completes spec,
      given that the cells in broken were broken before index i. */
  ghost predicate Completes(cur: seq<Laser>, i: nat, g: Grid, broken: seq<Cell>, spec: PassResult) {
    var r := ResumeUpdate(cur, i, g);
    r.lasers == spec.lasers && r.bricks == spec.bricks && broken + r.broken == spec.broken
  }

  lemma CompletesStep(cur: seq<Laser>, i: nat, g: Grid, broken: seq<Cell>, spec: PassResult,
                      cur': seq<Laser>, g': Grid, cells: seq<Cell>)
    requires Completes(cur, i, g, broken, spec)
    requires var r := ResumeUpdate(cur', i + 1, g');
      ResumeUpdate(cur, i, g) == PassResult(r.lasers, r.bricks, cells + r.broken)
    ensures Completes(cur', i + 1, g', broken + cells, spec)
  {
    var r := ResumeUpdate(cur', i + 1, g');
    assert broken + (cells + r.broken) == (broken + cells) + r.broken;
  }

  /** One visit of the update pass at an index inside the list: the laser
      moves up, and on a hit the brick breaks and the laser is spliced out. */
  lemma UpdateVisit(cur: seq<Laser>, i: nat, g: Grid)
    requires i < |cur|
    ensures var a := Advance(cur[i]);
      match FindHit(g, a)
      case None => ResumeUpdate(cur, i, g) == ResumeUpdate(cur[i := a], i + 1, g)
      case Some(cell) =>
        var r := ResumeUpdate(Splice(cur[i := a], i), i + 1, Break(g, cell));
        ResumeUpdate(cur, i, g) == PassResult(r.lasers, r.bricks, [cell] + r.broken)
  {
    var a := Advance(cur[i]);
    var c := cur[i := a];
    assert cur[i..][0] == cur[i];
    match FindHit(g, a)
    case None =>
      assert cur[i..][1..] == c[i + 1..];
      assert c[..i + 1] == cur[..i] + [a];
    case Some(cell) =>
      var d := Splice(c, i);
      if i + 1 < |cur| {
        assert cur[i..][2..] == cur[i + 2..] == d[i + 1..];
        assert d[..i + 1] == cur[..i] + [cur[i + 1]];
      } else {
        assert d == cur[..i];
        assert d[i..] == [];
      }
  }

  /** An index past the end is skipped; at the end the current state is
      the outcome of the update pass. */
  lemma UpdatePastEnd(cur: seq<Laser>, i: nat, g: Grid)
    requires |cur| <= i
    ensures ResumeUpdate(cur, i, g) == ResumeUpdate(cur, i + 1, g) == PassResult(cur, g, [])
  {
    assert cur[..|cur|] == cur;
    assert cur[|cur|..] == [];
  }

  /** The update pass removes a laser only on a hit, one per broken brick;
      every broken brick was standing, so the live count drops by exactly
      the number of hits; statuses only go from 1 to 0. */
  lemma {:induction false} UpdatePassAccounting(s: seq<Laser>, g: Grid)
    requires WellFormed(g)
    ensures WellFormed(UpdatePass(s, g).bricks)
    ensures Descends(g, UpdatePass(s, g).bricks)
    ensures |UpdatePass(s, g).lasers| + |UpdatePass(s, g).broken| == |s|
    ensures LiveCount(UpdatePass(s, g).bricks) + |UpdatePass(s, g).broken| == LiveCount(g)
    decreases |s|
  {
    if s != [] {
      var a := Advance(s[0]);
      match FindHit(g, a)
      case None =>
        UpdatePassAccounting(s[1..], g);
      case Some(cell) =>
        BreakFacts(g, cell);
        if |s| > 1 {
          var g' := Break(g, cell);
          UpdatePassAccounting(s[2..], g');
          DescendsTransitive(g, g', UpdatePass(s[2..], g').bricks);
        }
    }
  }

  /** The brick at cell exists in g and has the given status. */
  ghost predicate StatusAt(g: Grid, cell: Cell, status: int) {
    cell.row < |g| && cell.col < |g[cell.row]| && g[cell.row][cell.col].status == status
  }

  /** Each brick is broken at most once: every broken cell was standing
      before the pass and is broken after it, and no cell appears twice. */
  lemma {:induction false} UpdatePassBreaksOnce(s: seq<Laser>, g: Grid)
    requires WellFormed(g)
    ensures var p := UpdatePass(s, g);
      forall i :: 0 <= i < |p.broken| ==> StatusAt(g, p.broken[i], 1) && StatusAt(p.bricks, p.broken[i], 0)
    ensures var p := UpdatePass(s, g);
      forall i, j :: 0 <= i < j < |p.broken| ==> p.broken[i] != p.broken[j]
    decreases |s|
  {
    UpdatePassAccounting(s, g);
    if s != [] {
      var a := Advance(s[0]);
      match FindHit(g, a)
      case None =>
        UpdatePassBreaksOnce(s[1..], g);
        assert UpdatePass(s, g).broken == UpdatePass(s[1..], g).broken;
        assert UpdatePass(s, g).bricks == UpdatePass(s[1..], g).bricks;
      case Some(cell) =>
        BreakFacts(g, cell);
        if |s| > 1 {
          var g' := Break(g, cell);
          UpdatePassBreaksOnce(s[2..], g');
          UpdatePassAccounting(s[2..], g');
          var p := UpdatePass(s[2..], g');
          assert UpdatePass(s, g).broken == [cell] + p.broken;
          assert forall i :: 0 <= i < |p.broken| ==> p.broken[i] != cell;
        }
    }
  }

  /** Each laser left by the update pass is an input laser, either moved
      up by exactly 5 (visited, hit nothing) or unchanged (skipped). */
  lemma {:induction false} UpdatePassLasers(s: seq<Laser>, g: Grid)
    ensures forall l :: l in UpdatePass(s, g).lasers ==> l in s || Raise(l) in s
    decreases |s|
  {
    if s != [] {
      var a := Advance(s[0]);
      assert Raise(a) == s[0];
      match FindHit(g, a)
      case None =>
        UpdatePassLasers(s[1..], g);
        assert forall l :: l in s[1..] ==> l in s;
      case Some(cell) =>
        if |s| > 1 {
          UpdatePassLasers(s[2..], Break(g, cell));
          assert forall l :: l in s[2..] ==> l in s;
        }
    }
  }

  /** Two lasers at the same point inside the top-left brick: the
      first breaks it and is spliced out, and the second, which slides into
      its slot, is neither moved nor tested in that pass. */
  lemma UpdatePassSkipExample(g: Grid)
    requires WellFormed(g) && g[0][0].status == 1
    ensures UpdatePass([Laser(50, 45), Laser(50, 45)], g).lasers == [Laser(50, 45)]
    ensures UpdatePass([Laser(50, 45), Laser(50, 45)], g).broken == [Cell(0, 0)]
  {
    var a := Advance(Laser(50, 45));
    assert BrickX(0) == 30 && BrickY(0) == 30;
    assert HitsAt(g, a, Cell(0, 0));
    HitIsUnique(g, a, Cell(0, 0), FindHit(g, a).value);
    assert [Laser(50, 45), Laser(50, 45)][2..] == [];
  }

  /** A laser that hits nothing is not removed by the update pass, even
      above the canvas: a laser at y = 7 ends the frame at y = -3 and is
      still in the list. */
  lemma UpdateKeepsNegativeLaser(g: Grid)
    requires WellFormed(g)
    ensures UpdatePass(Sweep([Laser(0, 7)], Advance, OffScreen), g).lasers == [Laser(0, -3)]
  {
    assert Sweep([Laser(0, 7)], Advance, OffScreen) == [Laser(0, 2)];
    forall cell | HitsAt(g, Laser(0, -3), cell) ensures false {
      BrickOrigin(cell);
    }
    assert FindHit(g, Laser(0, -3)) == None;
  }

  /** One frame (movement pass, then update pass) lowers the y of every
      laser left in the list by 0, 5 or 10 and leaves its x alone. */
  lemma FrameLasers(s: seq<Laser>, g: Grid)
    ensures forall l :: l in UpdatePass(Sweep(s, Advance, OffScreen), g).lasers ==>
      l in s || Raise(l) in s || Raise(Raise(l)) in s
  {
    var moved := Sweep(s, Advance, OffScreen);
    MovePassLasers(s);
    UpdatePassLasers(moved, g);
    forall l | l in moved ensures l in s || Raise(l) in s {
      if exists i :: 0 < i < |s| && OffScreen(Advance(s[i - 1])) && l == s[i] {
        var i :| 0 < i < |s| && OffScreen(Advance(s[i - 1])) && l == s[i];
        assert l in s;
      }
    }
  }

  // ---- Particles ----

  /** `radius = Math.max(0.1, radius - 0.1)`. */
  function Fade(p: Particle): Particle {
    p.(radius := if 0.1 > p.radius - 0.1 then 0.1 else p.radius - 0.1)
  }

  /** The particle pass splices out a particle whose radius is not positive. */
  predicate Vanished(p: Particle) {
    p.radius <= 0.0
  }

  /** The clamp keeps every radius at 0.1 or more, so the removal never
      fires: the particle pass fades every particle in place and the
      particle count never drops. */
  lemma ParticlePassKeepsAll(ps: seq<Particle>)
    ensures Sweep(ps, Fade, Vanished) == Map(ps, Fade)
    ensures |Sweep(ps, Fade, Vanished)| == |ps|
    ensures forall i :: 0 <= i < |ps| ==>
      && Sweep(ps, Fade, Vanished)[i].radius >= 0.1
      && Sweep(ps, Fade, Vanished)[i].x == ps[i].x
      && Sweep(ps, Fade, Vanished)[i].y == ps[i].y
  {
    SweepKeepsAll(ps, Fade, Vanished);
  }

  /** `Math.random() * 3 + 2`: the range a new particle's radius is drawn from. */
  predicate InitialRadius(r: real) {
    2.0 <= r < 5.0
  }

  /** ps is ps0 followed by the bursts of the given cells, in order, each
      new particle with a radius from the initial range. */
  ghost predicate Appended(ps0: seq<Particle>, ps: seq<Particle>, cells: seq<Cell>) {
    && |ps| >= |ps0|
    && ps[..|ps0|] == ps0
    && Origins(ps) == Origins(ps0) + Burst(cells)
    && (forall j :: |ps0| <= j < |ps| ==> InitialRadius(ps[j].radius))
  }

  lemma AppendedTwice(ps0: seq<Particle>, ps1: seq<Particle>, ps2: seq<Particle>, a: seq<Cell>, b: seq<Cell>)
    requires Appended(ps0, ps1, a) && Appended(ps1, ps2, b)
    ensures Appended(ps0, ps2, a + b)
  {
    BurstAppend(a, b);
    assert ps2[..|ps0|] == ps1[..|ps0|];
  }

  /** Where each particle's burst started. */
  function Origins(ps: seq<Particle>): seq<(int, int)> {
    seq(|ps|, i requires 0 <= i < |ps| => (ps[i].x, ps[i].y))
  }

  /** The starting points of the five particles of one burst. */
  function Spawn(x: int, y: int): seq<(int, int)> {
    seq(NUM_PARTICLES, _ => (x, y))
  }

  /** The starting points of the bursts of the broken cells, in order. */
  function Burst(cells: seq<Cell>): seq<(int, int)> {
    if cells == [] then [] else Spawn(BrickX(cells[0].col), BrickY(cells[0].row)) + Burst(cells[1..])
  }

  lemma {:induction false} BurstAppend(a: seq<Cell>, b: seq<Cell>)
    ensures Burst(a + b) == Burst(a) + Burst(b)
  {
    if a == [] {
      assert a + b == b;
    } else {
      assert (a + b)[0] == a[0] && (a + b)[1..] == a[1..] + b;
      BurstAppend(a[1..], b);
    }
  }

  /** Each broken brick yields exactly five particles. */
  lemma {:induction false} BurstLength(cells: seq<Cell>)
    ensures |Burst(cells)| == NUM_PARTICLES * |cells|
  {
    if cells != [] {
      BurstLength(cells[1..]);
    }
  }
}
