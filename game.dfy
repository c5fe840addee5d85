/** The game state of the circle game: the laser list, the brick grid and
    the particle list, with one method for each way the script changes them.
    Each pass is a `forEach` written out as the JavaScript runs it: the
    length is read once, the index always advances, and an index at or past
    the current length is skipped. */
module Arcade {
  import opened Board
  import opened Passes

  class Game {
    var lasers: seq<Laser>
    var bricks: Grid
    var particles: seq<Particle>

    /** The grid keeps its layout and every particle radius stays in
        [0.1, 5): it starts in [2, 5) and only the clamp changes it. */
    ghost predicate Valid()
      reads this
    {
      && WellFormed(bricks)
      && forall i :: 0 <= i < |particles| ==> 0.1 <= particles[i].radius < 5.0
    }

    /** Page load: no lasers, no particles, and the full grid. */
    constructor ()
      ensures Valid()
      ensures lasers == [] && particles == []
      ensures IsInitialGrid(bricks)
      ensures LiveCount(bricks) == NUM_BRICK_ROWS * BRICKS_PER_ROW
    {
      var g := BuildGrid();
      InitialGridIsFull(g);
      lasers := [];
      bricks := g;
      particles := [];
    }

    /** The click handler: one new laser at the circle's x, a circle radius
        above the bottom edge; the lasers already flying are untouched. */
    method Fire(circleX: int, height: int)
      modifies this
      ensures lasers == old(lasers) + [Laser(circleX, height - CIRCLE_RADIUS)]
      ensures bricks == old(bricks) && particles == old(particles)
    {
      lasers := lasers + [Laser(circleX, height - CIRCLE_RADIUS)];
    }

    /** The movement pass of the laser drawing loop: each visited laser
        moves up 5 and is spliced out once its y is below 0. */
    method MoveLasers()
      modifies this
      ensures lasers == Sweep(old(lasers), Advance, OffScreen)
      ensures bricks == old(bricks) && particles == old(particles)
    {
      var n := |lasers|;
      var i := 0;
      while i < n
        invariant 0 <= i <= n && |lasers| <= n
        invariant Resume(lasers, i, Advance, OffScreen) == Sweep(old(lasers), Advance, OffScreen)
        invariant bricks == old(bricks) && particles == old(particles)
      {
        if i < |lasers| {
          SweepVisit(lasers, i, Advance, OffScreen);
          var laser := Advance(lasers[i]);
          lasers := lasers[i := laser];
          if laser.y < 0 {
            lasers := Splice(lasers, i);
          }
        } else {
          SweepPastEnd(lasers, i, Advance, OffScreen);
        }
        i := i + 1;
      }
      SweepPastEnd(lasers, i, Advance, OffScreen);
    }

    /** createParticles: five particles at (x, y), each with a radius drawn
        from [2, 5). */
    method CreateParticles(x: int, y: int)
      requires Valid()
      modifies this
      ensures Valid()
      ensures lasers == old(lasers) && bricks == old(bricks)
      ensures |particles| == |old(particles)| + NUM_PARTICLES
      ensures particles[..|old(particles)|] == old(particles)
      ensures Origins(particles) == Origins(old(particles)) + Spawn(x, y)
      ensures forall j :: |old(particles)| <= j < |particles| ==> 2.0 <= particles[j].radius < 5.0
    {
      for i := 0 to NUM_PARTICLES
        invariant Valid()
        invariant lasers == old(lasers) && bricks == old(bricks)
        invariant |particles| == |old(particles)| + i
        invariant particles[..|old(particles)|] == old(particles)
        invariant forall j :: |old(particles)| <= j < |particles| ==>
          particles[j].x == x && particles[j].y == y && 2.0 <= particles[j].radius < 5.0
      {
        assert InitialRadius(2.0);
        var radius: real :| InitialRadius(radius);
        assert InitialRadius(radius);
        particles := particles + [Particle(x, y, radius)];
      }
      assert Origins(particles) == Origins(old(particles)) + Spawn(x, y);
    }

    /** The scan has gone past the standing brick the laser hits, if any:
        that brick is broken, the laser spliced out and a burst started;
        or it has not, and nothing has changed. */
    ghost predicate Scanned(hit: Option<Cell>, row: int, col: int,
                            g0: Grid, lasers0: seq<Laser>, ps0: seq<Particle>, k: nat)
      reads this
    {
      if hit.Some? && (hit.value.row < row || (hit.value.row == row && hit.value.col < col)) then
        && hit.value.row < |g0| && hit.value.col < |g0[hit.value.row]|
        && bricks == Break(g0, hit.value)
        && lasers == Splice(lasers0, k)
        && |particles| == |ps0| + NUM_PARTICLES
        && particles[..|ps0|] == ps0
        && Origins(particles) == Origins(ps0) + Spawn(BrickX(hit.value.col), BrickY(hit.value.row))
        && (forall j :: |ps0| <= j < |particles| ==> 2.0 <= particles[j].radius < 5.0)
      else
        bricks == g0 && lasers == lasers0 && particles == ps0
    }

    /** The collision loop of the update pass for the laser at index k:
        every standing brick it hits is broken, the laser at k is spliced out
        and a burst starts at the brick. Bricks do not overlap, so this
        happens at most once: one laser breaks at most one brick. */
    method ScanBricks(k: nat, laser: Laser)
      requires Valid()
      modifies this
      ensures Valid()
      ensures match FindHit(old(bricks), laser)
        case None => bricks == old(bricks) && lasers == old(lasers) && particles == old(particles)
        case Some(cell) =>
          && bricks == Break(old(bricks), cell)
          && lasers == Splice(old(lasers), k)
          && |particles| == |old(particles)| + NUM_PARTICLES
          && particles[..|old(particles)|] == old(particles)
          && Origins(particles) == Origins(old(particles)) + Spawn(BrickX(cell.col), BrickY(cell.row))
          && forall j :: |old(particles)| <= j < |particles| ==> 2.0 <= particles[j].radius < 5.0
    {
      ghost var g0, lasers0, ps0 := bricks, lasers, particles;
      ghost var hit := FindHit(bricks, laser);
      for row := 0 to NUM_BRICK_ROWS
        invariant Valid()
        invariant Scanned(hit, row, 0, g0, lasers0, ps0, k)
      {
        for col := 0 to BRICKS_PER_ROW
          invariant Valid()
          invariant Scanned(hit, row, col, g0, lasers0, ps0, k)
        {
          var brick := bricks[row][col];
          if brick.status == 1 {
            if Hit(laser, brick) {
              assert HitsAt(g0, laser, Cell(row, col));
              HitIsUnique(g0, laser, Cell(row, col), hit.value);
              BreakFacts(bricks, Cell(row, col));
              bricks := bricks[row := bricks[row][col := brick.(status := 0)]];
              lasers := Splice(lasers, k);
              CreateParticles(brick.x, brick.y);
            }
          }
        }
      }
    }

    /** The callback of the update pass for the laser at index i: move it
        up 5, then scan the bricks. hit is the brick it broke, if any; the
        update pass of what is left from index i + 1 on, after that brick,
        completes the update pass from index i. */
    method VisitLaser(i: nat) returns (ghost hit: Option<Cell>)
      requires Valid() && i < |lasers|
      modifies this
      ensures Valid()
      ensures hit == FindHit(old(bricks), Advance(old(lasers)[i]))
      ensures var moved := old(lasers)[i := Advance(old(lasers)[i])];
        lasers == if hit.Some? then Splice(moved, i) else moved
      ensures bricks == if hit.Some? then Break(old(bricks), hit.value) else old(bricks)
      ensures |lasers| <= |old(lasers)|
      ensures var r := ResumeUpdate(lasers, i + 1, bricks);
        ResumeUpdate(old(lasers), i, old(bricks)) == PassResult(r.lasers, r.bricks, Cells(hit) + r.broken)
      ensures Appended(old(particles), particles, Cells(hit))
    {
      UpdateVisit(lasers, i, bricks);
      var laser := Advance(lasers[i]);
      lasers := lasers[i := laser];
      hit := FindHit(bricks, laser);
      ScanBricks(i, laser);
      if hit.Some? {
        assert Burst([hit.value]) == Spawn(BrickX(hit.value.col), BrickY(hit.value.row));
      } else {
        assert particles[..|particles|] == particles;
      }
    }

    /** The update pass: each visited laser moves up 5 and is tested
        against the standing bricks; a hit breaks the brick, splices the
        laser out and starts a burst. */
    method UpdateLasers()
      requires Valid()
      modifies this
      ensures Valid()
      ensures lasers == UpdatePass(old(lasers), old(bricks)).lasers
      ensures bricks == UpdatePass(old(lasers), old(bricks)).bricks
      ensures Appended(old(particles), particles, UpdatePass(old(lasers), old(bricks)).broken)
    {
      ghost var spec := UpdatePass(lasers, bricks);
      ghost var broken: seq<Cell> := [];
      ghost var ps0 := particles;
      assert Origins(ps0) + Burst([]) == Origins(ps0) && ps0[..|ps0|] == ps0;
      var n := |lasers|;
      var i: nat := 0;
      while i < n
        invariant i <= n && |lasers| <= n
        invariant Valid()
        invariant Completes(lasers, i, bricks, broken, spec)
        invariant Appended(ps0, particles, broken)
      {
        if i < |lasers| {
          ghost var cur, g, ps := lasers, bricks, particles;
          ghost var hit := VisitLaser(i);
          CompletesStep(cur, i, g, broken, spec, lasers, bricks, Cells(hit));
          AppendedTwice(ps0, ps, particles, broken, Cells(hit));
          broken := broken + Cells(hit);
        } else {
          UpdatePastEnd(lasers, i, bricks);
        }
        i := i + 1;
      }
      UpdatePastEnd(lasers, i, bricks);
      assert broken + [] == broken == spec.broken;
    }

    /** The particle pass: each visited particle's radius is clamped with
        max(0.1, radius - 0.1), and a particle whose radius is not positive
        would be spliced out. */
    method FadeParticles()
      requires Valid()
      modifies this
      ensures Valid()
      ensures particles == Sweep(old(particles), Fade, Vanished)
      ensures lasers == old(lasers) && bricks == old(bricks)
    {
      var n := |particles|;
      var i: nat := 0;
      while i < n
        invariant 0 <= i <= n && |particles| <= n
        invariant Valid()
        invariant Resume(particles, i, Fade, Vanished) == Sweep(old(particles), Fade, Vanished)
        invariant lasers == old(lasers) && bricks == old(bricks)
      {
        if i < |particles| {
          SweepVisit(particles, i, Fade, Vanished);
          var particle := Fade(particles[i]);
          var rest := particles[i := particle];
          if particle.radius <= 0.0 {
            rest := Splice(rest, i);
          }
          particles := rest;
        } else {
          SweepPastEnd(particles, i, Fade, Vanished);
        }
        i := i + 1;
      }
      SweepPastEnd(particles, i, Fade, Vanished);
    }

    /** One frame of the game loop: the movement pass, the update pass,
        then the particle pass. */
    method Frame()
      requires Valid()
      modifies this
      ensures Valid()
      ensures var p := UpdatePass(Sweep(old(lasers), Advance, OffScreen), old(bricks));
        && lasers == p.lasers
        && bricks == p.bricks
        && Descends(old(bricks), bricks)
        && LiveCount(bricks) == LiveCount(old(bricks)) - |p.broken|
        && |particles| == |old(particles)| + NUM_PARTICLES * |p.broken|
        && Origins(particles) == Origins(old(particles)) + Burst(p.broken)
      ensures forall l :: l in lasers ==>
        l in old(lasers) || Raise(l) in old(lasers) || Raise(Raise(l)) in old(lasers)
      ensures |particles| >= |old(particles)|
      ensures forall j :: 0 <= j < |old(particles)| ==> particles[j] == Fade(old(particles)[j])
      ensures forall j :: |old(particles)| <= j < |particles| ==> 1.9 <= particles[j].radius < 4.9
    {
      MoveLasers();
      UpdatePassAccounting(lasers, bricks);
      UpdateLasers();
      ghost var ps := particles;
      assert forall j :: 0 <= j < |old(particles)| ==> ps[j] == ps[..|old(particles)|][j] == old(particles)[j];
      FadeParticles();
      ParticlePassKeepsAll(ps);
      assert Origins(particles) == Origins(ps);
      assert forall j :: 0 <= j < |ps| ==> particles[j] == Fade(ps[j]);
      BurstLength(UpdatePass(Sweep(old(lasers), Advance, OffScreen), old(bricks)).broken);
      FrameLasers(old(lasers), old(bricks));
    }
  }
}
