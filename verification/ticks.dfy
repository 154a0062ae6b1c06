/**
 What one tick and a run of many ticks do to the particle array as a whole:
 entries are never removed or reordered, each moves at most one cell per tick,
 particles never leave the cone below the spawn cell or pass the floor, and
 the movement loop never puts two particles in one cell.
 */
module Ticks {
  import opened Particles
  import opened Sand

  /** Every particle lies between the spawn row and the floor, no further
      sideways from the spawn column than it has fallen. */
  predicate InCone(p: Particle)
  {
    SpawnY <= p.y <= FloorY && -(p.y - SpawnY) <= p.x - SpawnX <= p.y - SpawnY
  }

  ghost predicate AllInCone(ps: seq<Particle>)
  {
    forall j :: 0 <= j < |ps| ==> InCone(ps[j])
  }

  /** Successive calls of `update`, tick t drawing its directions from `rounds[t]`. */
  function Simulate(ps: seq<Particle>, rounds: seq<nat -> Dir>): (r: seq<Particle>)
    ensures |r| == |ps| + |rounds|
    decreases |rounds|
  {
    if |rounds| == 0 then ps
    else Simulate(Update(ps, rounds[0]), rounds[1..])
  }

  /** One turn of the loop: sweeping indices below k + 1 is stepping index k
      and then sweeping the indices below k. */
  lemma SweepOnce(ps: seq<Particle>, dirs: nat -> Dir, k: nat)
    requires k < |ps|
    ensures Sweep(ps, dirs, k + 1) == Sweep(Step(ps, k, dirs(k)), dirs, k)
  {
  }

  /** In one sweep over indices below k, entry j (one of those indices)
      advances at most one cell, even though it sees the moves made before it. */
  lemma {:induction false} SweepAdvancesAt(ps: seq<Particle>, dirs: nat -> Dir, k: nat, j: nat)
    requires j < k <= |ps|
    ensures Advance(ps[j], Sweep(ps, dirs, k)[j])
    decreases k
  {
    var s := Step(ps, k - 1, dirs(k - 1));
    SweepOnce(ps, dirs, k - 1);
    if j < k - 1 {
      SweepAdvancesAt(s, dirs, k - 1, j);
    }
  }

  /** In one sweep over indices below k, each of those entries advances at
      most one cell. */
  lemma SweepAdvances(ps: seq<Particle>, dirs: nat -> Dir, k: nat)
    requires k <= |ps|
    ensures forall j :: 0 <= j < k ==> Advance(ps[j], Sweep(ps, dirs, k)[j])
  {
    forall j | 0 <= j < k
      ensures Advance(ps[j], Sweep(ps, dirs, k)[j])
    {
      SweepAdvancesAt(ps, dirs, k, j);
    }
  }

  /** Two entries in different cells before a sweep, of an array without
      shared cells, are in different cells after it. */
  lemma {:induction false} SweepKeepsApart(ps: seq<Particle>, dirs: nat -> Dir, k: nat, a: nat, b: nat)
    requires k <= |ps|
    requires Distinct(ps)
    requires a < b < |ps|
    ensures Sweep(ps, dirs, k)[a] != Sweep(ps, dirs, k)[b]
    decreases k
  {
    if k > 0 {
      var s := Step(ps, k - 1, dirs(k - 1));
      StepKeepsDistinct(ps, k - 1, dirs(k - 1));
      SweepKeepsApart(s, dirs, k - 1, a, b);
      SweepOnce(ps, dirs, k - 1);
    }
  }

  /** A sweep keeps the cells of an array without shared cells pairwise distinct. */
  lemma SweepKeepsDistinct(ps: seq<Particle>, dirs: nat -> Dir, k: nat)
    requires k <= |ps|
    requires Distinct(ps)
    ensures Distinct(Sweep(ps, dirs, k))
  {
    forall a, b | 0 <= a < b < |ps|
      ensures Sweep(ps, dirs, k)[a] != Sweep(ps, dirs, k)[b]
    {
      SweepKeepsApart(ps, dirs, k, a, b);
    }
  }

  /** A tick appends exactly one particle, started at the spawn cell, and
      otherwise only moves existing entries, each by at most one cell. */
  lemma UpdateAdvances(ps: seq<Particle>, dirs: nat -> Dir)
    ensures |Update(ps, dirs)| == |ps| + 1
    ensures forall j :: 0 <= j < |ps| ==> Advance(ps[j], Update(ps, dirs)[j])
    ensures Advance(Particle(SpawnX, SpawnY), Update(ps, dirs)[|ps|])
  {
    var s := Spawn(ps);
    SweepAdvances(s, dirs, |s|);
    assert forall j :: 0 <= j < |ps| ==> s[j] == ps[j];
  }

  /** If no two particles share a cell and the spawn cell is empty, the same
      holds after the tick. */
  lemma UpdateKeepsDistinct(ps: seq<Particle>, dirs: nat -> Dir)
    requires Distinct(ps)
    requires !Occupied(ps, SpawnX, SpawnY)
    ensures Distinct(Update(ps, dirs))
  {
    var s := Spawn(ps);
    forall a, b | 0 <= a < b < |s|
      ensures s[a] != s[b]
    {
      if b == |ps| {
        assert s[a] == ps[a];
      } else {
        assert s[a] == ps[a] && s[b] == ps[b];
      }
    }
    SweepKeepsDistinct(s, dirs, |s|);
  }

  /** Example: the spawn does not look before it appends. On the distinct array
      [(199, 11), (200, 11), (201, 11), (200, 10)], whose entry at the spawn
      cell is blocked below and is visited before the blockers move, a tick
      leaves two particles at the spawn cell. */
  lemma SpawnCanDuplicate(dirs: nat -> Dir)
    ensures var ps := [Particle(199, 11), Particle(200, 11), Particle(201, 11), Particle(200, 10)];
            Distinct(ps) && !Distinct(Update(ps, dirs))
  {
    var ps := [Particle(199, 11), Particle(200, 11), Particle(201, 11), Particle(200, 10)];
    var top := Particle(200, 10);
    var s := [Particle(199, 11), Particle(200, 11), Particle(201, 11), top, top];
    assert Spawn(ps) == s;
    assert Blocked(top, s) by {
      assert s[0] == Particle(top.x - 1, top.y + 1);
      assert s[1] == Particle(top.x, top.y + 1);
      assert s[2] == Particle(top.x + 1, top.y + 1);
    }
    MoveStalls(top, s, dirs(4));
    MoveStalls(top, s, dirs(3));
    assert Step(s, 4, dirs(4)) == s;
    assert Step(s, 3, dirs(3)) == s;
    SweepOnce(s, dirs, 4);
    SweepOnce(s, dirs, 3);
    var r := Sweep(s, dirs, 3);
    assert r[3] == top && r[4] == top;
    assert Distinct(ps);
  }

  /** A cell taken before the spawn is still taken after it. */
  lemma OccupiedAfterSpawn(ps: seq<Particle>, x: int, y: int)
    requires Occupied(ps, x, y)
    ensures Occupied(Spawn(ps), x, y)
  {
    var i :| 0 <= i < |ps| && ps[i] == Particle(x, y);
    assert Spawn(ps)[i] == ps[i];
  }

  /** Whatever the array holds, a tick whose three cells beneath the spawn
      cell are all taken ends with its new particle still at the spawn cell,
      since that particle is the first one the loop visits. */
  lemma SpawnStaysWhenBlocked(ps: seq<Particle>, dirs: nat -> Dir)
    requires Blocked(Particle(SpawnX, SpawnY), ps)
    ensures Update(ps, dirs)[|ps|] == Particle(SpawnX, SpawnY)
  {
    var top := Particle(SpawnX, SpawnY);
    var s := Spawn(ps);
    OccupiedAfterSpawn(ps, top.x, top.y + 1);
    OccupiedAfterSpawn(ps, top.x - 1, top.y + 1);
    OccupiedAfterSpawn(ps, top.x + 1, top.y + 1);
    MoveStalls(top, s, dirs(|ps|));
    assert Step(s, |ps|, dirs(|ps|)) == s;
    SweepOnce(s, dirs, |ps|);
  }

  /** The first tick on an empty array spawns one particle, and since nothing
      is beneath it, it has already fallen one row by the end of the tick. */
  lemma FirstTick(dirs: nat -> Dir)
    ensures Update([], dirs) == [Particle(SpawnX, SpawnY + 1)]
  {
  }

  /** Example of the loop working on the live array: on [(200, 11), (200, 12)],
      a column under the spawn cell whose lower particle has the higher index,
      the new particle slides off the column top, the lower particle falls, and
      the upper one, visited after it, finds the vacated cell and falls too. */
  lemma ColumnFallsTogether(dirs: nat -> Dir)
    ensures Update([Particle(200, 11), Particle(200, 12)], dirs)
         == [Particle(200, 12), Particle(200, 13), Particle(200 + dirs(2), 11)]
  {
    var ps := [Particle(200, 11), Particle(200, 12)];
    var s := [Particle(200, 11), Particle(200, 12), Particle(200, 10)];
    var s2 := [Particle(200, 11), Particle(200, 12), Particle(200 + dirs(2), 11)];
    var s1 := [Particle(200, 11), Particle(200, 13), Particle(200 + dirs(2), 11)];
    var s0 := [Particle(200, 12), Particle(200, 13), Particle(200 + dirs(2), 11)];
    assert Spawn(ps) == s;
    assert Step(s, 2, dirs(2)) == s2 by {
      assert s[0] == Particle(200, 11);
      MoveSlidesEitherWay(s[2], s, dirs(2));
    }
    assert Step(s2, 1, dirs(1)) == s1 by {
      MoveFalls(s2[1], s2, dirs(1));
    }
    assert Step(s1, 0, dirs(0)) == s0 by {
      MoveFalls(s1[0], s1, dirs(0));
    }
    SweepOnce(s, dirs, 2);
    SweepOnce(s2, dirs, 1);
    SweepOnce(s1, dirs, 0);
  }

  /** Example with the indices the other way round: on [(200, 12), (200, 11)]
      the upper particle is visited while the lower one still sits beneath it,
      so it slides off sideways instead of falling. */
  lemma UpperVisitedFirstSlides(dirs: nat -> Dir)
    ensures Update([Particle(200, 12), Particle(200, 11)], dirs)
         == [Particle(200, 13), Particle(200 + dirs(1), 12), Particle(200 + dirs(2), 11)]
  {
    var ps := [Particle(200, 12), Particle(200, 11)];
    var s := [Particle(200, 12), Particle(200, 11), Particle(200, 10)];
    var s2 := [Particle(200, 12), Particle(200, 11), Particle(200 + dirs(2), 11)];
    var s1 := [Particle(200, 12), Particle(200 + dirs(1), 12), Particle(200 + dirs(2), 11)];
    var s0 := [Particle(200, 13), Particle(200 + dirs(1), 12), Particle(200 + dirs(2), 11)];
    assert Spawn(ps) == s;
    assert Step(s, 2, dirs(2)) == s2 by {
      assert s[1] == Particle(200, 11);
      MoveSlidesEitherWay(s[2], s, dirs(2));
    }
    assert Step(s2, 1, dirs(1)) == s1 by {
      assert s2[0] == Particle(200, 12);
      MoveSlidesEitherWay(s2[1], s2, dirs(1));
    }
    assert Step(s1, 0, dirs(0)) == s0 by {
      MoveFalls(s1[0], s1, dirs(0));
    }
    SweepOnce(s, dirs, 2);
    SweepOnce(s2, dirs, 1);
    SweepOnce(s1, dirs, 0);
  }

  /** A tick keeps every particle inside the cone below the spawn cell; in
      particular none ever goes below the floor. */
  lemma UpdateKeepsCone(ps: seq<Particle>, dirs: nat -> Dir)
    requires AllInCone(ps)
    ensures AllInCone(Update(ps, dirs))
  {
    UpdateAdvances(ps, dirs);
  }

  /** A particle resting on the floor is untouched by a whole tick. */
  lemma UpdateKeepsSettled(ps: seq<Particle>, dirs: nat -> Dir, j: nat)
    requires j < |ps| && ps[j].y == FloorY
    ensures Update(ps, dirs)[j] == ps[j]
  {
    UpdateAdvances(ps, dirs);
  }

  /** Over any number of ticks the array only grows, by one per tick, and no
      particle leaves the cone below the spawn cell. */
  lemma {:induction false} SimulateKeepsCone(ps: seq<Particle>, rounds: seq<nat -> Dir>)
    requires AllInCone(ps)
    ensures |Simulate(ps, rounds)| == |ps| + |rounds|
    ensures AllInCone(Simulate(ps, rounds))
    decreases |rounds|
  {
    if |rounds| > 0 {
      UpdateKeepsCone(ps, rounds[0]);
      SimulateKeepsCone(Update(ps, rounds[0]), rounds[1..]);
    }
  }

  /** Starting from an empty array, every particle stays at or above the floor
      for ever. */
  lemma NeverBelowFloor(rounds: seq<nat -> Dir>)
    ensures forall j :: 0 <= j < |rounds| ==> Simulate([], rounds)[j].y <= FloorY
  {
    SimulateKeepsCone([], rounds);
  }

  /** Over any number of ticks, entry j keeps its place in the array, never
      rises, drops at most one row per tick, and once on the floor never moves. */
  lemma {:induction false} SimulateDescends(ps: seq<Particle>, rounds: seq<nat -> Dir>, j: nat)
    requires j < |ps|
    ensures ps[j].y <= Simulate(ps, rounds)[j].y <= ps[j].y + |rounds|
    ensures ps[j].y == FloorY ==> Simulate(ps, rounds)[j] == ps[j]
    decreases |rounds|
  {
    if |rounds| > 0 {
      UpdateAdvances(ps, rounds[0]);
      SimulateDescends(Update(ps, rounds[0]), rounds[1..], j);
    }
  }

  /** The loop of `update` written as sand.js writes it: a counter running
      down from the last index, rewriting one entry of the live array each turn. */
  method UpdateScreen(ps: seq<Particle>, dirs: nat -> Dir) returns (r: seq<Particle>)
    ensures |r| == |ps| + 1
    ensures forall j :: 0 <= j < |ps| ==> Advance(ps[j], r[j])
    ensures Advance(Particle(SpawnX, SpawnY), r[|ps|])
    ensures r == Update(ps, dirs)
  {
    r := Spawn(ps);
    var i := |r|;
    while i > 0
      invariant 0 <= i <= |r| == |ps| + 1
      invariant Sweep(r, dirs, i) == Update(ps, dirs)
      decreases i
    {
      i := i - 1;
      SweepOnce(r, dirs, i);
      r := Step(r, i, dirs(i));
    }
    assert r == Sweep(r, dirs, 0);
    UpdateAdvances(ps, dirs);
  }
}
