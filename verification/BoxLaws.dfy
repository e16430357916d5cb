/**
  What a collision does to a moving box, in terms of the map alone (src/game/collision.cpp): which places collide,
  which axis is put back, and what that means on floors and at walls.
  */
module BoxLaws {
  import opened Common
  import opened MoveBox
  import opened PlainMove

  // ---------------------------------------------------------------- places

  /** A box collides with a floor, a ceiling or a wall if and only if it reaches it. */
  lemma BoxReaches(pos: Vec, size: Vec, at: real)
    requires size.x >= 0.0 && size.y >= 0.0
    ensures TestBox((x, y) => y >= at, pos, size) <==> pos.y + size.y / 2.0 >= at
    ensures TestBox((x, y) => y <= at, pos, size) <==> pos.y - size.y / 2.0 <= at
    ensures TestBox((x, y) => x >= at, pos, size) <==> pos.x + size.x / 2.0 >= at
    ensures TestBox((x, y) => x <= at, pos, size) <==> pos.x - size.x / 2.0 <= at
  {
  }

  /** Something solid at a single point is hit by the four corners and by no other point of the box. */
  lemma OnlyCornersCollide(pos: Vec, size: Vec, p: Vec)
    ensures TestBox((x, y) => Vec(x, y) == p, pos, size) <==>
            && (p.x == pos.x - size.x / 2.0 || p.x == pos.x + size.x / 2.0)
            && (p.y == pos.y - size.y / 2.0 || p.y == pos.y + size.y / 2.0)
  {
  }

  /** Of two obstacles a box collides with one or the other. */
  lemma CollidesWithEither(a: Map, b: Map, pos: Vec, size: Vec)
    ensures TestBox((x, y) => a(x, y) || b(x, y), pos, size) <==> TestBox(a, pos, size) || TestBox(b, pos, size)
  {
  }

  // ---------------------------------------------------------------- one collision

  /** Without a collision at the target nothing is put back. */
  lemma NothingInTheWay(solid: Map, pos: Vec, target: Vec, vel: Vec, size: Vec, e: Vec, grounded: bool)
    requires !TestBox(solid, target, size)
    ensures Resolved(solid, pos, target, vel, size, e, grounded) == Box(target, vel, grounded, GoOn)
  {
  }

  /** With exactly one of the two moves along an axis blocked, only that axis is put back and reversed. */
  lemma OnlyXBlocked(solid: Map, pos: Vec, target: Vec, vel: Vec, size: Vec, e: Vec, grounded: bool)
    requires TestBox(solid, target, size)
    requires TestBox(solid, Vec(target.x, pos.y), size) && !TestBox(solid, Vec(pos.x, target.y), size)
    ensures Resolved(solid, pos, target, vel, size, e, grounded)
            == Box(Vec(pos.x, target.y), Vec(-(e.x * vel.x), vel.y), grounded, GoOn)
  {
  }

  lemma OnlyYBlocked(solid: Map, pos: Vec, target: Vec, vel: Vec, size: Vec, e: Vec, grounded: bool)
    requires TestBox(solid, target, size)
    requires TestBox(solid, Vec(pos.x, target.y), size) && !TestBox(solid, Vec(target.x, pos.y), size)
    ensures Resolved(solid, pos, target, vel, size, e, grounded)
            == Box(Vec(target.x, pos.y), Vec(vel.x, -(e.y * vel.y)), grounded || (e.y > 0.0 && vel.y > 0.0), GoOn)
  {
  }

  /** Both blocked, or neither though the diagonal is: the corner case puts back both. */
  lemma BothOrNeitherBlocked(solid: Map, pos: Vec, target: Vec, vel: Vec, size: Vec, e: Vec, grounded: bool)
    requires TestBox(solid, target, size)
    requires TestBox(solid, Vec(pos.x, target.y), size) <==> TestBox(solid, Vec(target.x, pos.y), size)
    ensures Resolved(solid, pos, target, vel, size, e, grounded)
            == Box(pos, Vec(-(e.x * vel.x), -(e.y * vel.y)), grounded || (e.y > 0.0 && vel.y > 0.0), GoOn)
  {
  }

  // ---------------------------------------------------------------- bounces

  function Power(r: real, k: nat): real {
    if k == 0 then 1.0 else r * Power(r, k - 1)
  }

  lemma {:induction false} BouncedIsPower(v: real, e: real, k: nat)
    ensures Bounced(v, e, k) == v * Power(-e, k)
  {
    if k > 0 {
      BouncedIsPower(v, e, k - 1);
      Reorder(e, v, Power(-e, k - 1));
    }
  }

  lemma Reorder(e: real, v: real, p: real)
    ensures -e * (v * p) == v * (-e * p)
  {
  }

  /** The elasticity is limited to the range from -1 to 1. */
  lemma ElasticityIsLimited(e: real)
    ensures -1.0 <= e <= 1.0 ==> Clamp(e) == e
    ensures e > 1.0 ==> Clamp(e) == 1.0
    ensures e < -1.0 ==> Clamp(e) == -1.0
  {
  }

  /** v is the velocity v0 after k hits with elasticity e. */
  predicate IsAfterHits(v0: real, e: real, k: nat, v: real) {
    v == v0 * Power(-e, k)
  }

  lemma BouncedIsAfterHits(v0: real, e: real, k: nat, v: real)
    requires v == Bounced(v0, e, k)
    ensures IsAfterHits(v0, e, k, v)
  {
    BouncedIsPower(v0, e, k);
  }

  /** Each component of the velocity in the end is the one before times a power of -e, by the hits on its axis. */
  lemma VelocityIsPower(m: Move, f: Flight)
    requires m.Valid() && Plain(m.world) && m.distance > 0.00001 && f == FlightOf(m)
    ensures IsAfterHits(m.vel.x, m.E().x, f.CountX(f.n), m.Result().vel.x)
    ensures IsAfterHits(m.vel.y, m.E().y, f.CountY(f.n), m.Result().vel.y)
  {
    var v := m.Result().vel;
    PlainMoveInFull(m);
    BouncedIsAfterHits(m.vel.x, m.E().x, f.CountX(f.n), v.x);
    BouncedIsAfterHits(m.vel.y, m.E().y, f.CountY(f.n), v.y);
  }

  // ---------------------------------------------------------------- floors and walls

  /** The map does not change, and is the same all along x. */
  ghost predicate IsFloor(w: World, solid: Map) {
    && (forall i: nat {:trigger w.solid(i)} :: w.solid(i) == solid)
    && forall x: real, x': real, y: real {:trigger solid(x, y), solid(x', y)} :: solid(x, y) == solid(x', y)
  }

  /** The same all along y. */
  ghost predicate IsWall(w: World, solid: Map) {
    && (forall i: nat {:trigger w.solid(i)} :: w.solid(i) == solid)
    && forall x: real, y: real, y': real {:trigger solid(x, y), solid(x, y')} :: solid(x, y) == solid(x, y')
  }

  lemma FloorIsLevel(w: World, solid: Map, p: Vec, x: real, size: Vec)
    requires IsFloor(w, solid)
    ensures TestBox(solid, Vec(x, p.y), size) == TestBox(solid, p, size)
  {
    var a, b := p.x - size.x / 2.0, x - size.x / 2.0;
    var top, bottom := p.y - size.y / 2.0, p.y + size.y / 2.0;
    assert solid(a, top) == solid(b, top) && solid(a, bottom) == solid(b, bottom);
    assert solid(p.x + size.x / 2.0, top) == solid(a, top) && solid(p.x + size.x / 2.0, bottom) == solid(a, bottom);
    assert solid(x + size.x / 2.0, top) == solid(b, top) && solid(x + size.x / 2.0, bottom) == solid(b, bottom);
  }

  lemma NeverPutBackX(w: World, solid: Map, pos: Vec, target: Vec, size: Vec)
    requires IsFloor(w, solid) && !TestBox(solid, pos, size)
    ensures !HitX(solid, pos, target, size)
  {
    FloorIsLevel(w, solid, pos, target.x, size);
    FloorIsLevel(w, solid, target, pos.x, size);
  }

  lemma HitsOf(m: Move, f: Flight, i: nat, b: Box)
    requires m.Valid() && f == FlightOf(m)
    ensures f.hitX(i, b) == HitX(m.world.solid(i + 1), b.pos, Plus(b.pos, f.part(b.vel)), m.size)
    ensures f.hitY(i, b) == HitY(m.world.solid(i + 1), b.pos, Plus(b.pos, f.part(b.vel)), m.size)
  {
  }

  /** After iteration i the box is still free, and has never been put back along x. */
  lemma {:induction false} StaysOnFloor(m: Move, f: Flight, solid: Map, i: nat)
    requires m.Valid() && f == FlightOf(m) && IsFlight(f) && Behaves(f.turn, m.world, m.size)
    requires IsFloor(m.world, solid) && !TestBox(solid, m.pos, m.size)
    ensures !TestBox(solid, f.At(i).pos, m.size) && f.CountX(i) == 0
  {
    if i > 0 {
      StaysOnFloor(m, f, solid, i - 1);
      var b := f.At(i - 1);
      if b.ending != GoOn {
        return;
      }
      assert IsStep(f, i - 1, b, f.turn(i - 1, b));
      HitsOf(m, f, i - 1, b);
      NeverPutBackX(m.world, solid, b.pos, Plus(b.pos, f.part(b.vel)), m.size);
      StillFree(m.world, f.turn, m.size, i - 1, b, solid);
    }
  }

  lemma StillFree(w: World, turn: (nat, Box) -> Box, size: Vec, i: nat, b: Box, solid: Map)
    requires Behaves(turn, w, size) && w.solid(i + 1) == solid && !TestBox(solid, b.pos, size) && b.ending == GoOn
    ensures turn(i, b).ending != Portal ==> !TestBox(solid, turn(i, b).pos, size)
  {
  }

  /** On a floor, or under a ceiling, a box slides: its movement along x is complete, and does not slow down. */
  lemma SlidesOnFloor(m: Move, solid: Map)
    requires m.Valid() && Plain(m.world) && m.distance > 0.00001
    requires IsFloor(m.world, solid) && !TestBox(solid, m.pos, m.size)
    ensures m.Result().pos.x == m.pos.x + m.vel.x && m.Result().vel.x == m.vel.x
  {
    var f := FlightOf(m);
    PlainMoveFlies(m);
    BodyBehaves(m);
    StaysOnFloor(m, f, solid, f.n);
    PlainMoveInFull(m);
  }

  lemma WallIsUpright(w: World, solid: Map, p: Vec, y: real, size: Vec)
    requires IsWall(w, solid)
    ensures TestBox(solid, Vec(p.x, y), size) == TestBox(solid, p, size)
  {
    var a, b := p.y - size.y / 2.0, y - size.y / 2.0;
    var left, right := p.x - size.x / 2.0, p.x + size.x / 2.0;
    assert solid(left, a) == solid(left, b) && solid(right, a) == solid(right, b);
    assert solid(left, p.y + size.y / 2.0) == solid(left, a) && solid(right, p.y + size.y / 2.0) == solid(right, a);
    assert solid(left, y + size.y / 2.0) == solid(left, b) && solid(right, y + size.y / 2.0) == solid(right, b);
  }

  lemma NeverPutBackY(w: World, solid: Map, pos: Vec, target: Vec, size: Vec)
    requires IsWall(w, solid) && !TestBox(solid, pos, size)
    ensures !HitY(solid, pos, target, size)
  {
    WallIsUpright(w, solid, pos, target.y, size);
    WallIsUpright(w, solid, target, pos.y, size);
  }

  lemma {:induction false} StaysAtWall(m: Move, f: Flight, solid: Map, i: nat)
    requires m.Valid() && f == FlightOf(m) && IsFlight(f) && Behaves(f.turn, m.world, m.size)
    requires IsWall(m.world, solid) && !TestBox(solid, m.pos, m.size)
    ensures !TestBox(solid, f.At(i).pos, m.size) && f.CountY(i) == 0 && f.At(i).grounded == m.grounded
  {
    if i > 0 {
      StaysAtWall(m, f, solid, i - 1);
      var b := f.At(i - 1);
      if b.ending != GoOn {
        return;
      }
      assert IsStep(f, i - 1, b, f.turn(i - 1, b));
      HitsOf(m, f, i - 1, b);
      NeverPutBackY(m.world, solid, b.pos, Plus(b.pos, f.part(b.vel)), m.size);
      StillFree(m.world, f.turn, m.size, i - 1, b, solid);
    }
  }

  /** At a wall a box falls, or rises, freely, and a wall never counts as ground. */
  lemma FallsAlongWall(m: Move, solid: Map)
    requires m.Valid() && Plain(m.world) && m.distance > 0.00001
    requires IsWall(m.world, solid) && !TestBox(solid, m.pos, m.size)
    ensures m.Result().pos.y == m.pos.y + m.vel.y && m.Result().vel.y == m.vel.y
    ensures m.Result().grounded == m.grounded
  {
    var f := FlightOf(m);
    PlainMoveFlies(m);
    BodyBehaves(m);
    StaysAtWall(m, f, solid, f.n);
    PlainMoveInFull(m);
  }

  // ---------------------------------------------------------------- landing

  /** Everything from some depth on is solid; y points down. */
  ghost predicate IsGround(w: World, depth: real) {
    forall i: nat, x: real, y: real {:trigger w.solid(i)(x, y)} :: w.solid(i)(x, y) <==> y >= depth
  }

  lemma GroundCollides(w: World, depth: real, i: nat, p: Vec, size: Vec)
    requires IsGround(w, depth) && size.y >= 0.0
    ensures TestBox(w.solid(i), p, size) <==> p.y + size.y / 2.0 >= depth
  {
  }

  lemma {:induction false} TimesUpTo(i: nat, n: nat, s: real)
    requires i <= n
    ensures s >= 0.0 ==> 0.0 <= Times(i, s) <= Times(n, s)
    ensures s <= 0.0 ==> Times(n, s) <= Times(i, s) <= 0.0
    decreases n
  {
    if i < n {
      TimesUpTo(i, n - 1, s);
    } else if n > 0 {
      TimesUpTo(n - 1, n - 1, s);
    }
  }

  /** How deep the box is after i straight moves. */
  function Depth(f: Flight, i: nat, size: Vec): real {
    Straight(f, i).pos.y + size.y / 2.0
  }

  /** The last iteration before the straight way reaches the ground. */
  lemma {:induction false} ReachesGround(f: Flight, size: Vec, depth: real, n: nat) returns (i: nat)
    requires Depth(f, 0, size) < depth <= Depth(f, n, size)
    ensures i < n && Depth(f, i, size) < depth <= Depth(f, i + 1, size)
  {
    if depth <= Depth(f, n - 1, size) {
      i := ReachesGround(f, size, depth, n - 1);
    } else {
      i := n - 1;
    }
  }

  lemma DeeperLater(f: Flight, i: nat, n: nat, size: Vec)
    requires i <= n && f.FirstMove().y >= 0.0
    ensures Depth(f, i, size) <= Depth(f, n, size)
  {
    TimesUpTo(i, n, f.FirstMove().y);
  }

  lemma StraightBefore(m: Move, f: Flight, depth: real, i: nat)
    requires m.Valid() && f == FlightOf(m) && IsFlight(f) && m.vel != ZERO && f.FirstMove().y >= 0.0
    requires IsGround(m.world, depth) && m.size.y >= 0.0 && Depth(f, i, m.size) < depth
    ensures f.At(i) == Straight(f, i)
  {
    forall j: nat, b: Box | j < i && b == Straight(f, j) ensures !f.hitX(j, b) && !f.hitY(j, b) {
      HitsOf(m, f, j, b);
      DeeperLater(f, j + 1, i, m.size);
      GroundCollides(m.world, depth, j + 1, Straight(f, j + 1).pos, m.size);
      assert Plus(b.pos, f.part(b.vel)) == Straight(f, j + 1).pos;
    }
    StraightOn(f, i);
  }

  lemma LandsAt(m: Move, f: Flight, depth: real, i: nat)
    requires m.Valid() && f == FlightOf(m) && IsFlight(f) && m.vel != ZERO && f.FirstMove().y >= 0.0
    requires IsGround(m.world, depth) && m.size.y >= 0.0 && f.e.y > 0.0 && m.vel.y > 0.0
    requires Depth(f, i, m.size) < depth <= Depth(f, i + 1, m.size)
    ensures f.Lands(i)
  {
    StraightBefore(m, f, depth, i);
    var b := Straight(f, i);
    var target := Straight(f, i + 1).pos;
    HitsOf(m, f, i, b);
    assert Plus(b.pos, f.part(b.vel)) == target;
    GroundCollides(m.world, depth, i + 1, target, m.size);
    GroundCollides(m.world, depth, i + 1, Vec(b.pos.x, target.y), m.size);
  }

  /** A box that is not pushed down, or not deep enough, flies on freely. */
  lemma FliesOverGround(m: Move, depth: real)
    requires m.Valid() && Plain(m.world) && m.distance > 0.00001 && IsGround(m.world, depth) && m.size.y >= 0.0
    requires m.pos.y + m.size.y / 2.0 < depth && m.pos.y + m.vel.y + m.size.y / 2.0 < depth
    ensures m.Result() == Box(Plus(m.pos, m.vel), m.vel, m.grounded, GoOn)
  {
    var f := FlightOf(m);
    PlainMoveFlies(m);
    PartsAreShares(m.vel, m.Max());
    forall i: nat {:trigger Straight(FlightOf(m), i)} | 0 < i <= m.Max() + 1
      ensures !TestBox(m.world.solid(i), Straight(FlightOf(m), i).pos, m.size)
    {
      TimesUpTo(i, f.n, f.FirstMove().y);
      GroundCollides(m.world, depth, i, Straight(f, i).pos, m.size);
    }
    FreeFlight(m);
  }

  /** Over ground a move ends grounded if and only if it began so, or its straight way downwards reaches the ground. */
  lemma LandsOnGround(m: Move, depth: real)
    requires m.Valid() && Plain(m.world) && m.distance > 0.00001 && IsGround(m.world, depth) && m.size.y >= 0.0
    requires m.elasticity.y > 0.0 && m.pos.y + m.size.y / 2.0 < depth
    ensures m.Result().grounded <==> m.grounded || m.pos.y + m.vel.y + m.size.y / 2.0 >= depth
  {
    if m.pos.y + m.vel.y + m.size.y / 2.0 < depth {
      FliesOverGround(m, depth);
    } else {
      var f := FlightOf(m);
      PlainMoveFlies(m);
      PartsAreShares(m.vel, m.Max());
      AbsTimes(f.n, f.FirstMove().y);
      var i := ReachesGround(f, m.size, depth, f.n);
      LandsAt(m, f, depth, i);
      PlainMoveInFull(m);
    }
  }
}
