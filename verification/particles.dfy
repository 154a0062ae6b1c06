/**
 The particle array of the sand simulation and the occupancy queries over it.

 A particle is a bare integer grid position; the simulation keeps all of them
 in one flat array, so "is this cell taken?" is answered by scanning it.
 */
module Particles {

  /** One grain of sand, identified only by its grid cell. */
  datatype Particle = Particle(x: int, y: int)

  /** The row particles come to rest on (the `floor` object's `y`). */
  const FloorY: int := 300

  /** The fixed cell at which every new particle is spawned. */
  const SpawnX: int := 200
  const SpawnY: int := 10

  /** A particle sits at cell (x, y). */
  predicate Occupied(ps: seq<Particle>, x: int, y: int)
  {
    exists i :: 0 <= i < |ps| && ps[i] == Particle(x, y)
  }

  /** No two entries of the array share a cell. */
  ghost predicate Distinct(ps: seq<Particle>)
  {
    forall a, b :: 0 <= a < b < |ps| ==> ps[a] != ps[b]
  }

  /** Linear occupancy scan, from the last particle down to the first,
      stopping at the first particle found at (x, y). */
  function IsFree(x: int, y: int, ps: seq<Particle>): (r: bool)
    ensures r <==> forall i :: 0 <= i < |ps| ==> !(ps[i].x == x && ps[i].y == y)
    ensures r <==> !Occupied(ps, x, y)
    decreases |ps|
  {
    if |ps| == 0 then true
    else if ps[|ps| - 1].x == x && ps[|ps| - 1].y == y then false
    else IsFree(x, y, ps[..|ps| - 1])
  }

  /** Some particle sits in the cell directly beneath `p`. */
  function HasParticleBelow(p: Particle, ps: seq<Particle>): (r: bool)
    ensures r <==> exists i :: 0 <= i < |ps| && ps[i].x == p.x && ps[i].y == p.y + 1
  {
    !IsFree(p.x, p.y + 1, ps)
  }
}
