/**
 One tick of the sand simulation: spawn a particle, then walk the array from
 the last index down to the first, moving each particle in place against the
 array as it stands at that moment (earlier moves in the same tick are seen).
 */
module Sand {
  import opened Particles

  /** A value `randomDirection` may return. */
  type Dir = d: int | d == 1 || d == -1 witness 1

  /** `q` is `p` after at most one tick of movement: unchanged, or one row
      lower and at most one column sideways, and never off the floor. */
  predicate Advance(p: Particle, q: Particle)
  {
    q == p || (p.y != FloorY && q.y == p.y + 1 && -1 <= q.x - p.x <= 1)
  }

  /** All three cells beneath `p` are taken. */
  predicate Blocked(p: Particle, ps: seq<Particle>)
  {
    Occupied(ps, p.x, p.y + 1) && Occupied(ps, p.x - 1, p.y + 1) && Occupied(ps, p.x + 1, p.y + 1)
  }

  /** Where particle `p` goes this tick, given the array `ps` as it is now and
      the direction `d` that `randomDirection` would yield. */
  function Move(p: Particle, ps: seq<Particle>, d: Dir): (q: Particle)
    ensures Advance(p, q)
    ensures q != p ==> !Occupied(ps, q.x, q.y)
    ensures p.y != FloorY ==> (q == p <==> Blocked(p, ps))
  {
    if p.y == FloorY then p
    else if HasParticleBelow(p, ps) then
      var left := IsFree(p.x - 1, p.y + 1, ps);
      var right := IsFree(p.x + 1, p.y + 1, ps);
      if left && right then Particle(p.x + d, p.y + 1)
      else if left then Particle(p.x - 1, p.y + 1)
      else if right then Particle(p.x + 1, p.y + 1)
      else p
    else Particle(p.x, p.y + 1)
  }

  /** The loop body for index `i`: particle `i` moves, every other entry stays. */
  function Step(ps: seq<Particle>, i: nat, d: Dir): (r: seq<Particle>)
    requires i < |ps|
    ensures |r| == |ps|
    ensures forall j :: 0 <= j < |ps| && j != i ==> r[j] == ps[j]
    ensures Advance(ps[i], r[i])
    ensures r[i] != ps[i] ==> !Occupied(ps, r[i].x, r[i].y)
  {
    ps[i := Move(ps[i], ps, d)]
  }

  /** The loop body run for indices k-1, k-2, ..., 0, in that order, each on
      the array left by the previous ones. `dirs(i)` is the direction drawn
      for index i. */
  function Sweep(ps: seq<Particle>, dirs: nat -> Dir, k: nat): (r: seq<Particle>)
    requires k <= |ps|
    ensures |r| == |ps|
    ensures forall j :: k <= j < |ps| ==> r[j] == ps[j]
    decreases k
  {
    if k == 0 then ps
    else Sweep(Step(ps, k - 1, dirs(k - 1)), dirs, k - 1)
  }

  /** `generateParticle`: append a particle at the spawn cell, whether or not
      that cell is already taken. */
  function Spawn(ps: seq<Particle>): (r: seq<Particle>)
    ensures |r| == |ps| + 1
    ensures r[..|ps|] == ps
    ensures r[|ps|] == Particle(SpawnX, SpawnY)
  {
    ps + [Particle(SpawnX, SpawnY)]
  }

  /** One call of `update`: spawn, then sweep every index from the last down. */
  function Update(ps: seq<Particle>, dirs: nat -> Dir): (r: seq<Particle>)
    ensures |r| == |ps| + 1
  {
    var s := Spawn(ps);
    Sweep(s, dirs, |s|)
  }

  /** A particle resting on the floor row does not move. */
  lemma MoveOnFloor(p: Particle, ps: seq<Particle>, d: Dir)
    requires p.y == FloorY
    ensures Move(p, ps, d) == p
  {
  }

  /** With the cell beneath empty, the particle drops straight down. */
  lemma MoveFalls(p: Particle, ps: seq<Particle>, d: Dir)
    requires p.y != FloorY
    requires !Occupied(ps, p.x, p.y + 1)
    ensures Move(p, ps, d) == Particle(p.x, p.y + 1)
  {
  }

  /** Resting on a particle with both lower diagonals empty, it slides to the
      side the random direction picks. */
  lemma MoveSlidesEitherWay(p: Particle, ps: seq<Particle>, d: Dir)
    requires p.y != FloorY
    requires Occupied(ps, p.x, p.y + 1)
    requires !Occupied(ps, p.x - 1, p.y + 1) && !Occupied(ps, p.x + 1, p.y + 1)
    ensures Move(p, ps, d) == Particle(p.x + d, p.y + 1)
    ensures Move(p, ps, d) == Particle(p.x - 1, p.y + 1) || Move(p, ps, d) == Particle(p.x + 1, p.y + 1)
  {
  }

  /** Resting on a particle with only the lower-left cell empty, it slides left. */
  lemma MoveSlidesLeft(p: Particle, ps: seq<Particle>, d: Dir)
    requires p.y != FloorY
    requires Occupied(ps, p.x, p.y + 1)
    requires !Occupied(ps, p.x - 1, p.y + 1) && Occupied(ps, p.x + 1, p.y + 1)
    ensures Move(p, ps, d) == Particle(p.x - 1, p.y + 1)
  {
  }

  /** Resting on a particle with only the lower-right cell empty, it slides right. */
  lemma MoveSlidesRight(p: Particle, ps: seq<Particle>, d: Dir)
    requires p.y != FloorY
    requires Occupied(ps, p.x, p.y + 1)
    requires Occupied(ps, p.x - 1, p.y + 1) && !Occupied(ps, p.x + 1, p.y + 1)
    ensures Move(p, ps, d) == Particle(p.x + 1, p.y + 1)
  {
  }

  /** With all three lower cells taken, the particle stays where it is. */
  lemma MoveStalls(p: Particle, ps: seq<Particle>, d: Dir)
    requires Blocked(p, ps)
    ensures Move(p, ps, d) == p
  {
  }

  /** A step moves a particle only into a cell no other particle holds, so an
      array without shared cells keeps that property. */
  lemma StepKeepsDistinct(ps: seq<Particle>, i: nat, d: Dir)
    requires i < |ps|
    requires Distinct(ps)
    ensures Distinct(Step(ps, i, d))
  {
  }
}
