/**
  CCollision::MoveBox (src/game/collision.cpp) outside the reach of portals and special tiles: how the box gets
  along, where it bounces, and what remains of its velocity.
  */
module PlainMove {
  import opened Common
  import opened MoveBox

  /** The calls do nothing. */
  ghost predicate Plain(w: World) {
    && NoPortal(w)
    && (forall i, p, v :: w.tile(i, p, v) == (p, v))
    && (forall i, o, p, v, g :: w.stop(i, o, p, v, g) == (p, v, g))
  }

  // ---------------------------------------------------------------- parts of a velocity

  /** n steps of the same length. */
  function Times(n: nat, s: real): real {
    if n == 0 then 0.0 else s + Times(n - 1, s)
  }

  /** n moves make up the velocity. */
  predicate IsShare(move: Vec, vel: Vec, n: nat) {
    Times(n, move.x) == vel.x && Times(n, move.y) == vel.y
  }

  lemma {:induction false} TimesIs(n: nat, s: real)
    ensures Times(n, s) == n as real * s
  {
    if n > 0 {
      TimesIs(n - 1, s);
      assert n as real * s == (n - 1) as real * s + s;
    }
  }

  lemma {:induction false} AbsTimes(n: nat, s: real)
    ensures Abs(Times(n, s)) == Times(n, Abs(s))
    ensures s > 0.0 && n > 0 ==> Times(n, s) > 0.0
    ensures s < 0.0 && n > 0 ==> Times(n, s) < 0.0
    ensures s == 0.0 ==> Times(n, s) == 0.0
  {
    if n > 0 {
      AbsTimes(n - 1, s);
    }
  }

  lemma {:induction false} TimesMonotone(n: nat, s: real, t: real)
    requires n > 0 && s < t
    ensures Times(n, s) < Times(n, t)
  {
    if n > 1 {
      TimesMonotone(n - 1, s, t);
    }
  }

  lemma ShareNotLarger(n: nat, s: real, t: real)
    requires n > 0 && Abs(Times(n, s)) <= Abs(Times(n, t))
    ensures Abs(s) <= Abs(t)
  {
    AbsTimes(n, s);
    AbsTimes(n, t);
    if Abs(s) > Abs(t) {
      TimesMonotone(n, Abs(t), Abs(s));
    }
  }

  lemma ShareIsSmall(n: nat, s: real)
    requires n > 0 && Abs(Times(n, s)) < n as real
    ensures Abs(s) < 1.0
  {
    AbsTimes(n, s);
    TimesIs(n, 1.0);
    if Abs(s) > 1.0 {
      TimesMonotone(n, 1.0, Abs(s));
    }
  }

  lemma Reciprocal(n: real, fraction: real, v: real)
    requires n > 0.0 && fraction == 1.0 / n
    ensures n * (v * fraction) == v
  {
    assert n * fraction == 1.0;
    assert n * (v * fraction) == v * (n * fraction);
  }

  /** The moves of all iterations together make up the velocity. */
  lemma PartsAreShares(vel: Vec, max: nat)
    ensures IsShare(Parts(max)(vel), vel, max + 1)
  {
    var fraction := 1.0 / (max + 1) as real;
    var move := Parts(max)(vel);
    TimesIs(max + 1, move.x);
    TimesIs(max + 1, move.y);
    Reciprocal((max + 1) as real, fraction, vel.x);
    Reciprocal((max + 1) as real, fraction, vel.y);
  }

  lemma SquareNotLarger(d: real, x: real, y: real)
    requires d >= 0.0 && x >= 0.0
    ensures d * d == x * x + y * y ==> x <= d
  {
    if x > d {
      PositiveProduct(x - d, x + d);
      assert (x - d) * (x + d) == x * x - d * d;
      assert y * y >= 0.0;
    }
  }

  lemma ComponentsWithinLength(distance: real, v: Vec)
    requires IsLength(distance, v)
    ensures Abs(v.x) <= distance && Abs(v.y) <= distance
  {
    SquareNotLarger(distance, Abs(v.x), v.y);
    SquareNotLarger(distance, Abs(v.y), v.x);
    assert Abs(v.x) * Abs(v.x) == v.x * v.x && Abs(v.y) * Abs(v.y) == v.y * v.y;
  }

  // ---------------------------------------------------------------- flights

  /** A component after k bounces. */
  function Bounced(v: real, e: real, k: nat): real {
    if k == 0 then v else Bounce(e, Bounced(v, e, k - 1))
  }

  /** A plain move, with what it hits as a function of the iteration and the box. */
  datatype Flight = Flight(
    turn: (nat, Box) -> Box, start: Box, e: Vec, n: nat,
    part: Vec -> Vec, hitX: (nat, Box) -> bool, hitY: (nat, Box) -> bool
  ) {
    function At(i: nat): Box {
      Run(turn, start, i)
    }

    predicate Moving(i: nat) {
      At(i).ending == GoOn && At(i).vel != ZERO
    }

    predicate BouncesX(i: nat) {
      Moving(i) && hitX(i, At(i))
    }

    predicate BouncesY(i: nat) {
      Moving(i) && hitY(i, At(i))
    }

    /** A bounce on something below, with an elasticity that makes it count. */
    predicate Lands(i: nat) {
      BouncesY(i) && e.y > 0.0 && At(i).vel.y > 0.0
    }

    /** The numbers of bounces before iteration i. */
    function CountX(i: nat): nat {
      if i == 0 then 0 else CountX(i - 1) + if BouncesX(i - 1) then 1 else 0
    }

    function CountY(i: nat): nat {
      if i == 0 then 0 else CountY(i - 1) + if BouncesY(i - 1) then 1 else 0
    }

    function FirstMove(): Vec {
      part(start.vel)
    }
  }

  /** One step, on one axis. */
  predicate AxisStep(p: real, v: real, move: real, e: real, hit: bool, p': real, v': real) {
    && p' == (if hit then p else p + move)
    && v' == (if hit then Bounce(e, v) else v)
  }

  ghost predicate IsFlight(f: Flight) {
    && f.start.ending == GoOn && f.n > 0 && -1.0 <= f.e.x <= 1.0 && -1.0 <= f.e.y <= 1.0
    && (forall v {:trigger f.part(v)} :: IsShare(f.part(v), v, f.n))
    && forall i: nat, b: Box {:trigger f.turn(i, b)} :: b.ending == GoOn ==> IsStep(f, i, b, f.turn(i, b))
  }

  predicate IsStep(f: Flight, i: nat, b: Box, c: Box) {
    if b.vel == ZERO then c == b.(ending := Rest)
    else
      && c.ending == GoOn
      && AxisStep(b.pos.x, b.vel.x, f.part(b.vel).x, f.e.x, f.hitX(i, b), c.pos.x, c.vel.x)
      && AxisStep(b.pos.y, b.vel.y, f.part(b.vel).y, f.e.y, f.hitY(i, b), c.pos.y, c.vel.y)
      && (c.grounded <==> b.grounded || (f.hitY(i, b) && f.e.y > 0.0 && b.vel.y > 0.0))
  }

  /** After n steps on one axis: straight on without a bounce, and otherwise no further than that. */
  predicate Travelled(p0: real, p: real, n: nat, move0: real, bounces: nat) {
    && Abs(p - p0) <= Times(n, Abs(move0))
    && (bounces == 0 ==> p - p0 == Times(n, move0))
  }

  lemma TravelledStep(p0: real, p: real, n: nat, move0: real, bounces: nat, move: real, hit: bool)
    requires Travelled(p0, p, n, move0, bounces) && Abs(move) <= Abs(move0) && (bounces == 0 ==> move == move0)
    ensures Travelled(p0, if hit then p else p + move, n + 1, move0, if hit then bounces + 1 else bounces)
  {
  }

  /** On one axis after n steps: the bounces, and how far the box got. */
  predicate Axis(p0: real, v0: real, e: real, move0: real, n: nat, k: nat, p: real, v: real) {
    v == Bounced(v0, e, k) && Abs(v) <= Abs(v0) && Travelled(p0, p, n, move0, k)
  }

  lemma AxisGoesOn(p0: real, v0: real, e: real, move0: real, n: nat, k: nat, p: real, v: real,
                   m: nat, move: real, hit: bool, p': real, v': real)
    requires Axis(p0, v0, e, move0, n, k, p, v) && AxisStep(p, v, move, e, hit, p', v')
    requires m > 0 && Times(m, move0) == v0 && Times(m, move) == v && (v == v0 ==> move == move0) && -1.0 <= e <= 1.0
    ensures Axis(p0, v0, e, move0, n + 1, if hit then k + 1 else k, p', v')
    ensures Abs(p' - p) <= Abs(move0)
  {
    BounceNotFaster(e, v);
    ShareNotLarger(m, move, move0);
    TravelledStep(p0, p, n, move0, k, move, hit);
  }

  /** A box at rest travels nowhere, and would not have travelled without bounces either. */
  lemma AxisRests(p0: real, v0: real, e: real, move0: real, n: nat, k: nat, p: real, m: nat)
    requires Axis(p0, v0, e, move0, n, k, p, 0.0) && m > 0 && Times(m, move0) == v0
    ensures Axis(p0, v0, e, move0, n + 1, k, p, 0.0)
  {
    if k == 0 {
      AbsTimes(m, move0);
    }
  }

  /** What holds in every iteration. */
  ghost predicate Flies(f: Flight, i: nat) {
    var b, first := f.At(i), f.FirstMove();
    && b.ending != Portal && (b.ending == Rest ==> b.vel == ZERO)
    && Axis(f.start.pos.x, f.start.vel.x, f.e.x, first.x, i, f.CountX(i), b.pos.x, b.vel.x)
    && Axis(f.start.pos.y, f.start.vel.y, f.e.y, first.y, i, f.CountY(i), b.pos.y, b.vel.y)
  }

  lemma FliesOn(f: Flight, i: nat)
    requires IsFlight(f) && Flies(f, i) && f.Moving(i)
    ensures Flies(f, i + 1)
    ensures Abs(f.At(i + 1).pos.x - f.At(i).pos.x) <= Abs(f.FirstMove().x)
    ensures Abs(f.At(i + 1).pos.y - f.At(i).pos.y) <= Abs(f.FirstMove().y)
  {
    var b, c, first, move := f.At(i), f.At(i + 1), f.FirstMove(), f.part(f.At(i).vel);
    assert c == f.turn(i, b) && IsStep(f, i, b, c);
    SameShare(f, b.vel, f.start.vel);
    AxisGoesOn(f.start.pos.x, f.start.vel.x, f.e.x, first.x, i, f.CountX(i), b.pos.x, b.vel.x,
               f.n, move.x, f.hitX(i, b), c.pos.x, c.vel.x);
    AxisGoesOn(f.start.pos.y, f.start.vel.y, f.e.y, first.y, i, f.CountY(i), b.pos.y, b.vel.y,
               f.n, move.y, f.hitY(i, b), c.pos.y, c.vel.y);
  }

  lemma SameShare(f: Flight, v: Vec, u: Vec)
    requires IsFlight(f)
    ensures v.x == u.x ==> f.part(v).x == f.part(u).x
    ensures v.y == u.y ==> f.part(v).y == f.part(u).y
  {
    ShareEqual(f.n, f.part(v).x, f.part(u).x);
    ShareEqual(f.n, f.part(v).y, f.part(u).y);
  }

  lemma ShareEqual(n: nat, s: real, t: real)
    requires n > 0
    ensures Times(n, s) == Times(n, t) ==> s == t
  {
    if s < t {
      TimesMonotone(n, s, t);
    } else if t < s {
      TimesMonotone(n, t, s);
    }
  }

  lemma FliesNoMore(f: Flight, i: nat)
    requires IsFlight(f) && Flies(f, i) && !f.Moving(i)
    ensures Flies(f, i + 1) && f.At(i + 1) == f.At(i).(ending := Rest)
  {
    var b, first := f.At(i), f.FirstMove();
    if b.ending == GoOn {
      assert IsStep(f, i, b, f.turn(i, b));
    }
    assert IsShare(first, f.start.vel, f.n);
    AxisRests(f.start.pos.x, f.start.vel.x, f.e.x, first.x, i, f.CountX(i), b.pos.x, f.n);
    AxisRests(f.start.pos.y, f.start.vel.y, f.e.y, first.y, i, f.CountY(i), b.pos.y, f.n);
  }

  lemma {:induction false} AlwaysFlies(f: Flight, i: nat)
    requires IsFlight(f)
    ensures Flies(f, i)
  {
    if i > 0 {
      AlwaysFlies(f, i - 1);
      if f.Moving(i - 1) {
        FliesOn(f, i - 1);
      } else {
        FliesNoMore(f, i - 1);
      }
    }
  }

  /** grounded is set exactly by landings. */
  lemma {:induction false} GroundedByLanding(f: Flight, n: nat)
    requires IsFlight(f)
    ensures f.At(n).grounded <==> f.start.grounded || exists i: nat :: i < n && f.Lands(i)
  {
    if n > 0 {
      GroundedByLanding(f, n - 1);
      AlwaysFlies(f, n - 1);
      var b := f.At(n - 1);
      if f.Moving(n - 1) {
        assert IsStep(f, n - 1, b, f.turn(n - 1, b));
        assert f.At(n).grounded <==> b.grounded || f.Lands(n - 1);
      } else {
        FliesNoMore(f, n - 1);
      }
    }
  }

  /** Without a hit the box flies straight on. */
  lemma {:induction false} StraightOn(f: Flight, n: nat)
    requires IsFlight(f) && f.start.vel != ZERO
    requires forall i: nat, b: Box :: i < n && b == Straight(f, i) ==> !f.hitX(i, b) && !f.hitY(i, b)
    ensures f.At(n) == Straight(f, n)
  {
    if n > 0 {
      StraightOn(f, n - 1);
      assert IsStep(f, n - 1, f.At(n - 1), f.turn(n - 1, f.At(n - 1)));
    }
  }

  /** The box after n moves of the same length. */
  function Straight(f: Flight, n: nat): Box {
    f.start.(pos := Plus(f.start.pos, Vec(Times(n, f.FirstMove().x), Times(n, f.FirstMove().y))))
  }

  // ---------------------------------------------------------------- plain moves

  /** The move as a flight: it hits what the corners of the box hit on the way to its next position. */
  function FlightOf(m: Move): Flight
    requires m.Valid()
  {
    var part := Parts(m.Max());
    Flight(m.Body(), m.Start(), m.E(), m.Max() + 1, part,
           (i: nat, b: Box) => HitX(m.world.solid(i + 1), b.pos, Plus(b.pos, part(b.vel)), m.size),
           (i: nat, b: Box) => HitY(m.world.solid(i + 1), b.pos, Plus(b.pos, part(b.vel)), m.size))
  }

  lemma PlainTurn(w: World, i: nat, b: Box, move: Vec, size: Vec, e: Vec)
    requires Plain(w) && b.vel != ZERO && move != ZERO
    ensures Turn(w, i, b, move, size, e) ==
            Resolved(w.solid(i + 1), b.pos, Plus(b.pos, move), b.vel, size, e, b.grounded)
  {
  }

  lemma MovingShare(move: Vec, vel: Vec, n: nat)
    requires IsShare(move, vel, n) && vel != ZERO
    ensures move != ZERO
  {
    AbsTimes(n, move.x);
    AbsTimes(n, move.y);
  }

  lemma PlainMoveFlies(m: Move)
    requires m.Valid() && Plain(m.world)
    ensures IsFlight(FlightOf(m))
  {
    var f := FlightOf(m);
    forall v {:trigger f.part(v)} ensures IsShare(f.part(v), v, f.n) {
      PartsAreShares(v, m.Max());
    }
    forall i: nat, b: Box {:trigger f.turn(i, b)} | b.ending == GoOn ensures IsStep(f, i, b, f.turn(i, b)) {
      var move := f.part(b.vel);
      assert f.turn(i, b) == Turn(m.world, i, b, move, m.size, m.E());
      if b.vel != ZERO {
        PartsAreShares(b.vel, m.Max());
        MovingShare(move, b.vel, f.n);
        PlainTurn(m.world, i, b, move, m.size, m.E());
      }
    }
  }

  lemma FirstMoveIsSmall(m: Move)
    requires m.Valid() && Plain(m.world)
    ensures Abs(FlightOf(m).FirstMove().x) < 1.0 && Abs(FlightOf(m).FirstMove().y) < 1.0
  {
    var move := FlightOf(m).FirstMove();
    PartsAreShares(m.vel, m.Max());
    ComponentsWithinLength(m.distance, m.vel);
    ShareIsSmall(m.Max() + 1, move.x);
    ShareIsSmall(m.Max() + 1, move.y);
  }

  /** No step skips a unit of length on either axis, so nothing of that size is jumped over. */
  lemma StepsAreSmall(m: Move, i: nat)
    requires m.Valid() && Plain(m.world)
    ensures var b, c := FlightOf(m).At(i), FlightOf(m).At(i + 1);
            Abs(c.pos.x - b.pos.x) < 1.0 && Abs(c.pos.y - b.pos.y) < 1.0
  {
    var f := FlightOf(m);
    PlainMoveFlies(m);
    FirstMoveIsSmall(m);
    AlwaysFlies(f, i);
    if f.Moving(i) {
      FliesOn(f, i);
    } else {
      FliesNoMore(f, i);
    }
  }

  /**
    A plain move in the end: each component of the velocity is the one before, reversed once for each time the
    box hit something on that axis; grounded is set exactly by landings; on an axis without a hit the box
    moves by the whole velocity, and otherwise no further.
    */
  lemma PlainMoveInFull(m: Move)
    requires m.Valid() && Plain(m.world) && m.distance > 0.00001
    ensures var f, b := FlightOf(m), m.Result();
            && b == f.At(f.n)
            && b.vel == Vec(Bounced(m.vel.x, m.E().x, f.CountX(f.n)), Bounced(m.vel.y, m.E().y, f.CountY(f.n)))
            && (b.grounded <==> m.grounded || exists i: nat :: i < f.n && f.Lands(i))
            && (f.CountX(f.n) == 0 ==> b.pos.x == m.pos.x + m.vel.x)
            && (f.CountY(f.n) == 0 ==> b.pos.y == m.pos.y + m.vel.y)
            && Abs(b.pos.x - m.pos.x) <= Abs(m.vel.x)
            && Abs(b.pos.y - m.pos.y) <= Abs(m.vel.y)
  {
    var f := FlightOf(m);
    PlainMoveFlies(m);
    AlwaysFlies(f, f.n);
    GroundedByLanding(f, f.n);
    PartsAreShares(m.vel, m.Max());
    AbsTimes(f.n, f.FirstMove().x);
    AbsTimes(f.n, f.FirstMove().y);
  }

  /** With nothing in the way of the box it moves by its velocity, which stays as it is. */
  lemma FreeFlight(m: Move)
    requires m.Valid() && Plain(m.world) && m.distance > 0.00001
    requires forall i: nat {:trigger Straight(FlightOf(m), i)} ::
               0 < i <= m.Max() + 1 ==> !TestBox(m.world.solid(i), Straight(FlightOf(m), i).pos, m.size)
    ensures m.Result() == Box(Plus(m.pos, m.vel), m.vel, m.grounded, GoOn)
  {
    var f := FlightOf(m);
    PlainMoveFlies(m);
    forall i: nat, b: Box | i < f.n && b == Straight(f, i) ensures !f.hitX(i, b) && !f.hitY(i, b) {
      assert Plus(b.pos, f.part(b.vel)) == Straight(f, i + 1).pos;
    }
    StraightOn(f, f.n);
    PartsAreShares(m.vel, m.Max());
  }
}
