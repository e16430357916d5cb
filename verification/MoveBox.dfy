/**
  CCollision::MoveBox (src/game/collision.cpp) over exact reals. What the game's own tiles do to a moving box is
  a parameter, so that the collision properties hold whatever they do.
  */
module MoveBox {
  import opened Common

  /** Whether a point is inside something solid. */
  type Map = (real, real) -> bool

  function Abs(v: real): real {
    if v < 0.0 then -v else v
  }

  function Clamp(e: real): (r: real)
    ensures -1.0 <= r <= 1.0
  {
    if e < -1.0 then -1.0 else if e > 1.0 then 1.0 else e
  }

  /** A box collides if one of its corners does. */
  predicate TestBox(solid: Map, pos: Vec, size: Vec) {
    var w, h := size.x / 2.0, size.y / 2.0;
    || solid(pos.x - w, pos.y - h)
    || solid(pos.x + w, pos.y - h)
    || solid(pos.x - w, pos.y + h)
    || solid(pos.x + w, pos.y + h)
  }

  /**
    What the calls in iteration i do, given the values they are called with. A switch that TestBoxKZ hits may
    change the map: solid(0) is the map before the move, solid(i + 1) the one after the call in iteration i.
    */
  datatype World = World(
    portal: (nat, Vec, Vec) -> Option<(Vec, Vec)>,         // HandlePortalCollision: new position and velocity
    tile: (nat, Vec, Vec) -> (Vec, Vec),                   // HandleKZTileOnMoveBox, which always returns false
    stop: (nat, Vec, Vec, Vec, bool) -> (Vec, Vec, bool),  // TestBoxKZ: from the old to a new position
    solid: nat -> Map
  )

  ghost predicate NoPortal(w: World) {
    forall i, p, v :: w.portal(i, p, v) == None
  }

  /** The calls do not make a component of the velocity larger. */
  ghost predicate Calm(w: World) {
    && (forall i, p, v :: NotFaster(w.tile(i, p, v).1, v))
    && (forall i, o, p, v, g :: NotFaster(w.stop(i, o, p, v, g).1, v))
  }

  predicate NotFaster(v: Vec, u: Vec) {
    Abs(v.x) <= Abs(u.x) && Abs(v.y) <= Abs(u.y)
  }

  // ---------------------------------------------------------------- one collision

  datatype Ending = Portal | Rest | GoOn

  datatype Box = Box(pos: Vec, vel: Vec, grounded: bool, ending: Ending)

  function Bounce(e: real, v: real): real {
    -e * v
  }

  lemma PartOf(a: real, b: real)
    requires 0.0 <= a <= 1.0 && b >= 0.0
    ensures 0.0 <= a * b <= b
  {
    assert (1.0 - a) * b >= 0.0;
  }

  lemma BounceNotFaster(e: real, v: real)
    requires -1.0 <= e <= 1.0
    ensures Abs(Bounce(e, v)) <= Abs(v)
  {
    PartOf(Abs(e), Abs(v));
    assert Abs(e) * Abs(v) == e * v || Abs(e) * Abs(v) == -(e * v);
  }

  /** The way to target is blocked along x, or only the diagonal move is blocked. */
  predicate HitX(solid: Map, pos: Vec, target: Vec, size: Vec) {
    && TestBox(solid, target, size)
    && (TestBox(solid, Vec(target.x, pos.y), size) || !TestBox(solid, Vec(pos.x, target.y), size))
  }

  predicate HitY(solid: Map, pos: Vec, target: Vec, size: Vec) {
    && TestBox(solid, target, size)
    && (TestBox(solid, Vec(pos.x, target.y), size) || !TestBox(solid, Vec(target.x, pos.y), size))
  }

  /** The box is put back on the axes on which it hit something, and its velocity on these axes is reversed. */
  function Resolved(solid: Map, pos: Vec, target: Vec, vel: Vec, size: Vec, e: Vec, grounded: bool): Box {
    var hitX, hitY := HitX(solid, pos, target, size), HitY(solid, pos, target, size);
    Box(Vec(if hitX then pos.x else target.x, if hitY then pos.y else target.y),
        Vec(if hitX then Bounce(e.x, vel.x) else vel.x, if hitY then Bounce(e.y, vel.y) else vel.y),
        grounded || (hitY && e.y > 0.0 && vel.y > 0.0),
        GoOn)
  }

  method Resolve(solid: Map, pos: Vec, target: Vec, vel0: Vec, size: Vec, e: Vec, grounded0: bool)
    returns (newPos: Vec, vel: Vec, grounded: bool)
    ensures Box(newPos, vel, grounded, GoOn) == Resolved(solid, pos, target, vel0, size, e, grounded0)
  {
    newPos, vel, grounded := target, vel0, grounded0;
    if TestBox(solid, Vec(newPos.x, newPos.y), size) {
      var hits := 0;
      if TestBox(solid, Vec(pos.x, newPos.y), size) {
        if e.y > 0.0 && vel.y > 0.0 {
          grounded := true;
        }
        newPos := newPos.(y := pos.y);
        vel := vel.(y := Bounce(e.y, vel.y));
        hits := hits + 1;
      }
      if TestBox(solid, Vec(newPos.x, pos.y), size) {
        newPos := newPos.(x := pos.x);
        vel := vel.(x := Bounce(e.x, vel.x));
        hits := hits + 1;
      }
      if hits == 0 {
        if e.y > 0.0 && vel.y > 0.0 {
          grounded := true;
        }
        newPos := pos;
        vel := Vec(Bounce(e.x, vel.x), Bounce(e.y, vel.y));
      }
    }
  }

  /** After a collision the box is outside of the map, or where it came from, and not faster. */
  lemma ResolvedIsFree(solid: Map, pos: Vec, target: Vec, vel: Vec, size: Vec, e: Vec, grounded: bool)
    requires -1.0 <= e.x <= 1.0 && -1.0 <= e.y <= 1.0
    ensures var b := Resolved(solid, pos, target, vel, size, e, grounded);
            (b.pos == pos || !TestBox(solid, b.pos, size)) && NotFaster(b.vel, vel)
  {
    BounceNotFaster(e.x, vel.x);
    BounceNotFaster(e.y, vel.y);
    var b := Resolved(solid, pos, target, vel, size, e, grounded);
    assert b.pos in {pos, target, Vec(target.x, pos.y), Vec(pos.x, target.y)};
  }

  // ---------------------------------------------------------------- one iteration

  function Plus(p: Vec, q: Vec): Vec {
    Vec(p.x + q.x, p.y + q.y)
  }

  const ZERO := Vec(0.0, 0.0)

  /** The body of the loop; move is the part of the velocity that belongs to one iteration. */
  function Turn(w: World, i: nat, b: Box, move: Vec, size: Vec, e: Vec): Box {
    if b.vel == ZERO then b.(ending := Rest)
    else
      var target := Plus(b.pos, move);
      var exit := w.portal(i, target, b.vel);
      if exit.Some? then Box(exit.value.0, exit.value.1, b.grounded, Portal)
      else
        var shifted := w.tile(i, target, b.vel);
        if shifted.0 == b.pos then Box(b.pos, shifted.1, b.grounded, Rest)
        else
          var stopped := w.stop(i, b.pos, shifted.0, shifted.1, b.grounded);
          Resolved(w.solid(i + 1), b.pos, stopped.0, stopped.1, size, e, stopped.2)
  }

  /** turn is the body of the loop, as a function of the iteration and the box. */
  ghost predicate MakesTurns(turn: (nat, Box) -> Box, w: World, part: Vec -> Vec, size: Vec, e: Vec) {
    forall i: nat, b: Box {:trigger Turn(w, i, b, part(b.vel), size, e)} ::
      turn(i, b) == Turn(w, i, b, part(b.vel), size, e)
  }

  method MakeTurn(w: World, i: nat, pos: Vec, vel0: Vec, grounded0: bool, move: Vec, size: Vec, e: Vec,
                  ghost turn: (nat, Box) -> Box, ghost part: Vec -> Vec)
    returns (ending: Ending, newPos: Vec, vel: Vec, grounded: bool)
    requires vel0 != ZERO && move == part(vel0) && MakesTurns(turn, w, part, size, e)
    ensures Box(newPos, vel, grounded, ending) == turn(i, Box(pos, vel0, grounded0, GoOn))
  {
    ghost var b := Box(pos, vel0, grounded0, GoOn);
    assert turn(i, b) == Turn(w, i, b, part(b.vel), size, e);
    newPos, vel, grounded := Vec(pos.x + move.x, pos.y + move.y), vel0, grounded0;
    var exit := w.portal(i, newPos, vel);
    if exit.Some? {
      newPos, vel := exit.value.0, exit.value.1;
      return Portal, newPos, vel, grounded;
    }
    var shifted := w.tile(i, newPos, vel);
    newPos, vel := shifted.0, shifted.1;
    if newPos == pos {
      return Rest, newPos, vel, grounded;
    }
    var stopped := w.stop(i, pos, newPos, vel, grounded);
    newPos, vel, grounded := stopped.0, stopped.1, stopped.2;
    newPos, vel, grounded := Resolve(w.solid(i + 1), pos, newPos, vel, size, e, grounded);
    ending := GoOn;
  }

  lemma StillTurn(w: World, i: nat, b: Box, size: Vec, e: Vec, turn: (nat, Box) -> Box, part: Vec -> Vec)
    requires b.vel == ZERO && MakesTurns(turn, w, part, size, e)
    ensures turn(i, b) == b.(ending := Rest)
  {
    assert turn(i, b) == Turn(w, i, b, part(b.vel), size, e);
  }

  lemma TurnIsFree(w: World, i: nat, b: Box, move: Vec, size: Vec, e: Vec)
    requires b.ending == GoOn && -1.0 <= e.x <= 1.0 && -1.0 <= e.y <= 1.0
    ensures var c := Turn(w, i, b, move, size, e);
            && (c.ending == Rest ==> c.pos == b.pos)
            && (c.ending == GoOn ==> c.pos == b.pos || !TestBox(w.solid(i + 1), c.pos, size))
            && (NoPortal(w) ==> c.ending != Portal)
            && (Calm(w) && c.ending != Portal ==> NotFaster(c.vel, b.vel))
  {
    var shifted := w.tile(i, Plus(b.pos, move), b.vel);
    var stopped := w.stop(i, b.pos, shifted.0, shifted.1, b.grounded);
    ResolvedIsFree(w.solid(i + 1), b.pos, stopped.0, stopped.1, size, e, stopped.2);
    if Calm(w) {
      assert NotFaster(shifted.1, b.vel) && NotFaster(stopped.1, shifted.1);
    }
  }

  // ---------------------------------------------------------------- the loop

  /** The box after n iterations; when the loop was left before, the last ones do nothing. */
  function Run(turn: (nat, Box) -> Box, start: Box, n: nat): Box {
    if n == 0 then start
    else
      var b := Run(turn, start, n - 1);
      if b.ending != GoOn then b else turn(n - 1, b)
  }

  /** How many of n iterations were completed: so many times the map may have changed. */
  function Steps(turn: (nat, Box) -> Box, start: Box, n: nat): (r: nat)
    ensures r <= n
  {
    if n == 0 then 0 else if Run(turn, start, n).ending == GoOn then n else Steps(turn, start, n - 1)
  }

  /** Vel * Fraction */
  function Scale(v: Vec, fraction: real): Vec {
    Vec(v.x * fraction, v.y * fraction)
  }

  function Parts(max: nat): Vec -> Vec {
    (v: Vec) => Scale(v, 1.0 / (max + 1) as real)
  }

  ghost predicate Scales(part: Vec -> Vec, fraction: real) {
    forall v {:trigger Scale(v, fraction)} :: part(v) == Scale(v, fraction)
  }

  method Share(vel: Vec, fraction: real, ghost part: Vec -> Vec) returns (move: Vec)
    requires Scales(part, fraction)
    ensures move == part(vel)
  {
    move := Scale(vel, fraction);
  }

  method Loop(w: World, pos0: Vec, vel0: Vec, grounded0: bool, size: Vec, e: Vec, max: nat, fraction: real,
              ghost part: Vec -> Vec, ghost turn: (nat, Box) -> Box)
    returns (pos: Vec, vel: Vec, grounded: bool, ending: Ending)
    requires Scales(part, fraction) && MakesTurns(turn, w, part, size, e)
    ensures Box(pos, vel, grounded, ending) == Run(turn, Box(pos0, vel0, grounded0, GoOn), max + 1)
  {
    ghost var start := Box(pos0, vel0, grounded0, GoOn);
    pos, vel, grounded, ending := pos0, vel0, grounded0, GoOn;
    var i := 0;
    while i <= max
      invariant 0 <= i <= max + 1 && ending == GoOn && Box(pos, vel, grounded, GoOn) == Run(turn, start, i)
    {
      if vel == Vec(0.0, 0.0) {
        StillTurn(w, i, Box(pos, vel, grounded, GoOn), size, e, turn, part);
        ending := Rest;
        EndedRun(turn, start, i + 1, max + 1);
        break;
      }
      var move := Share(vel, fraction, part);
      ending, pos, vel, grounded := MakeTurn(w, i, pos, vel, grounded, move, size, e, turn, part);
      if ending != GoOn {
        EndedRun(turn, start, i + 1, max + 1);
        break;
      }
      i := i + 1;
    }
  }

  lemma {:induction false} EndedRun(turn: (nat, Box) -> Box, start: Box, k: nat, n: nat)
    requires k <= n && Run(turn, start, k).ending != GoOn
    ensures Run(turn, start, n) == Run(turn, start, k)
    decreases n
  {
    if k < n {
      EndedRun(turn, start, k, n - 1);
    }
  }

  // ---------------------------------------------------------------- MoveBox

  /** distance is the length of the velocity. */
  predicate IsLength(distance: real, v: Vec) {
    distance >= 0.0 && distance * distance == v.x * v.x + v.y * v.y
  }

  /** A call of MoveBox. */
  datatype Move = Move(world: World, pos: Vec, vel: Vec, size: Vec, elasticity: Vec, grounded: bool, distance: real) {
    predicate Valid() {
      IsLength(distance, vel)
    }

    function Start(): Box {
      Box(pos, vel, grounded, GoOn)
    }

    function E(): Vec {
      Vec(Clamp(elasticity.x), Clamp(elasticity.y))
    }

    function Max(): nat
      requires Valid()
    {
      distance.Floor
    }

    function Body(): (nat, Box) -> Box
      requires Valid()
    {
      var part := Parts(Max());
      (i: nat, b: Box) => Turn(world, i, b, part(b.vel), size, E())
    }

    /** Very slow boxes do not move. */
    function Iterations(): nat
      requires Valid()
    {
      if distance > 0.00001 then Max() + 1 else 0
    }

    /** The box in the end. */
    function Result(): Box
      requires Valid()
    {
      Run(Body(), Start(), Iterations())
    }

    /** The map in the end. */
    function LastMap(): Map
      requires Valid()
    {
      world.solid(Steps(Body(), Start(), Iterations()))
    }

    predicate StartsFree() {
      !TestBox(world.solid(0), pos, size)
    }

    predicate EndsFree()
      requires Valid()
    {
      !TestBox(LastMap(), Result().pos, size)
    }
  }

  method MoveBox(w: World, pos0: Vec, vel0: Vec, size: Vec, elasticity: Vec, grounded0: bool, distance: real)
    returns (pos: Vec, vel: Vec, grounded: bool, ending: Ending)
    requires IsLength(distance, vel0)
    ensures var m := Move(w, pos0, vel0, size, elasticity, grounded0, distance);
            && Box(pos, vel, grounded, ending) == m.Result()
            && (OnlyOpens(w.solid, size) && ending != Portal && m.StartsFree() ==> !TestBox(m.LastMap(), pos, size))
    ensures NoPortal(w) ==> ending != Portal
    ensures Calm(w) && ending != Portal ==> NotFaster(vel, vel0)
  {
    pos, vel, grounded, ending := pos0, vel0, grounded0, GoOn;
    var max: nat := distance.Floor;
    ghost var m := Move(w, pos0, vel0, size, elasticity, grounded0, distance);
    if distance > 0.00001 {
      var fraction := 1.0 / (max + 1) as real;
      var e := Vec(Clamp(elasticity.x), Clamp(elasticity.y));
      pos, vel, grounded, ending := Loop(w, pos0, vel0, grounded0, size, e, max, fraction, Parts(max), m.Body());
    }
    if OnlyOpens(w.solid, size) && ending != Portal && m.StartsFree() {
      OpeningMapEndsFree(m);
    }
    MoveIsCalm(m);
  }

  /** What each turn of a move keeps. */
  ghost predicate Behaves(turn: (nat, Box) -> Box, w: World, size: Vec) {
    forall i: nat, b: Box {:trigger turn(i, b)} :: b.ending == GoOn ==>
      var c := turn(i, b);
      && (c.ending == Rest ==> c.pos == b.pos)
      && (c.ending == GoOn ==> c.pos == b.pos || !TestBox(w.solid(i + 1), c.pos, size))
      && (NoPortal(w) ==> c.ending != Portal)
      && (Calm(w) && c.ending != Portal ==> NotFaster(c.vel, b.vel))
  }

  lemma BodyBehaves(m: Move)
    requires m.Valid()
    ensures Behaves(m.Body(), m.world, m.size)
  {
    var turn := m.Body();
    forall i: nat, b: Box {:trigger turn(i, b)} | b.ending == GoOn
      ensures var c := turn(i, b);
              && (c.ending == Rest ==> c.pos == b.pos)
              && (c.ending == GoOn ==> c.pos == b.pos || !TestBox(m.world.solid(i + 1), c.pos, m.size))
              && (NoPortal(m.world) ==> c.ending != Portal)
              && (Calm(m.world) && c.ending != Portal ==> NotFaster(c.vel, b.vel))
    {
      TurnIsFree(m.world, i, b, Parts(m.Max())(b.vel), m.size, m.E());
    }
  }

  lemma {:induction false} RunIsCalm(turn: (nat, Box) -> Box, w: World, size: Vec, start: Box, n: nat)
    requires Behaves(turn, w, size) && start.ending == GoOn
    ensures NoPortal(w) ==> Run(turn, start, n).ending != Portal
    ensures Calm(w) && Run(turn, start, n).ending != Portal ==> NotFaster(Run(turn, start, n).vel, start.vel)
  {
    if n > 0 {
      RunIsCalm(turn, w, size, start, n - 1);
    }
  }

  lemma MoveIsCalm(m: Move)
    requires m.Valid()
    ensures NoPortal(m.world) ==> m.Result().ending != Portal
    ensures Calm(m.world) && m.Result().ending != Portal ==> NotFaster(m.Result().vel, m.vel)
  {
    BodyBehaves(m);
    RunIsCalm(m.Body(), m.world, m.size, m.Start(), m.Iterations());
  }

  // ---------------------------------------------------------------- free at the end

  /** The next change of the map only takes solid places away, as far as the box is concerned. */
  ghost predicate Opens(solid: nat -> Map, i: nat, size: Vec) {
    forall p: Vec {:trigger TestBox(solid(i + 1), p, size)} ::
      TestBox(solid(i + 1), p, size) ==> TestBox(solid(i), p, size)
  }

  ghost predicate OnlyOpens(solid: nat -> Map, size: Vec) {
    forall i: nat :: Opens(solid, i, size)
  }

  lemma StaysFree(solid: nat -> Map, size: Vec, i: nat, k: nat, p: Vec)
    requires OnlyOpens(solid, size) && k == i + 1 && !TestBox(solid(i), p, size)
    ensures !TestBox(solid(k), p, size)
  {
    assert Opens(solid, i, size);
    assert solid(k) == solid(i + 1);
  }

  lemma {:induction false} RunEndsFree(turn: (nat, Box) -> Box, w: World, size: Vec, start: Box, n: nat)
    requires Behaves(turn, w, size) && start.ending == GoOn
    requires OnlyOpens(w.solid, size) && !TestBox(w.solid(0), start.pos, size)
    requires Run(turn, start, n).ending != Portal
    ensures !TestBox(w.solid(Steps(turn, start, n)), Run(turn, start, n).pos, size)
  {
    if n > 0 {
      var b := Run(turn, start, n - 1);
      RunEndsFree(turn, w, size, start, n - 1);
      if b.ending == GoOn {
        GoingOn(turn, start, n - 1);
        StaysFree(w.solid, size, n - 1, n, b.pos);
      }
    }
  }

  lemma GoingOn(turn: (nat, Box) -> Box, start: Box, n: nat)
    requires Run(turn, start, n).ending == GoOn
    ensures Steps(turn, start, n) == n
  {
  }

  /** A box that starts free, in a map that only opens, is free in the map at the end. */
  lemma OpeningMapEndsFree(m: Move)
    requires m.Valid() && OnlyOpens(m.world.solid, m.size) && m.StartsFree() && m.Result().ending != Portal
    ensures m.EndsFree()
  {
    BodyBehaves(m);
    RunEndsFree(m.Body(), m.world, m.size, m.Start(), m.Iterations());
  }

  // ---------------------------------------------------------------- exactly when

  /** Whatever the calls do, short of a portal: a box that starts free is free in the map at the end. */
  ghost predicate AlwaysEndsFree(solid: nat -> Map, size: Vec) {
    forall m: Move ::
      m.Valid() && m.world.solid == solid && m.size == size && NoPortal(m.world) && m.StartsFree() ==> m.EndsFree()
  }

  /** Calls that bring the box to p in iteration i - 1 and leave it there in iteration i. */
  function ClosingWorld(solid: nat -> Map, i: nat, p: Vec, v: Vec): World {
    World((j: nat, q: Vec, u: Vec) => None,
          (j: nat, q: Vec, u: Vec) => (q, u),
          (j: nat, o: Vec, q: Vec, u: Vec, g: bool) => (if i <= j + 1 then p else q, v, g),
          solid)
  }

  /** A move of i + 1 iterations that starts at p0, or at p if it is there already in the first iteration. */
  function ClosingMove(solid: nat -> Map, size: Vec, i: nat, p: Vec, p0: Vec): Move {
    var distance := i as real + 0.5;
    Move(ClosingWorld(solid, i, p, Vec(distance, 0.0)), if i == 0 then p else p0, Vec(distance, 0.0), size,
         Vec(1.0, 1.0), false, distance)
  }

  lemma NonZeroProduct(a: real, b: real)
    requires a != 0.0 && b > 0.0
    ensures a * b != 0.0
  {
    if a > 0.0 {
      PositiveProduct(a, b);
    } else {
      PositiveProduct(-a, b);
      assert -a * b == -(a * b);
    }
  }

  lemma PositiveProduct(a: real, b: real)
    requires a > 0.0 && b > 0.0
    ensures a * b > 0.0
  {
  }

  lemma PartOfMoving(v: Vec, max: nat)
    requires v.x != 0.0
    ensures Parts(max)(v).x != 0.0
  {
    var fraction := 1.0 / (max + 1) as real;
    assert fraction > 0.0;
    NonZeroProduct(v.x, fraction);
  }

  lemma ClosingTurn(w: World, solid: nat -> Map, size: Vec, i: nat, p: Vec, v: Vec, j: nat, b: Box, move: Vec)
    requires w == ClosingWorld(solid, i, p, v) && v.x != 0.0
    requires b.ending == GoOn && b.vel.x != 0.0 && move.x != 0.0
    ensures var c := Turn(w, j, b, move, size, Vec(1.0, 1.0));
            && c.ending == GoOn && c.vel.x != 0.0
            && (j + 1 == i && !TestBox(solid(i), p, size) ==> c.pos == p)
            && (j == i && b.pos == p ==> c.pos == p)
  {
    assert Plus(b.pos, move).x != b.pos.x;
  }

  /** Each turn goes on; the one before iteration i reaches p, and iteration i stays there. */
  ghost predicate Catches(turn: (nat, Box) -> Box, i: nat, p: Vec) {
    forall j: nat, b: Box {:trigger turn(j, b)} :: b.ending == GoOn && b.vel.x != 0.0 ==>
      var c := turn(j, b);
      && c.ending == GoOn && c.vel.x != 0.0
      && (j + 1 == i ==> c.pos == p)
      && (j == i && b.pos == p ==> c.pos == p)
  }

  lemma ClosingBodyCatches(m: Move, solid: nat -> Map, size: Vec, i: nat, p: Vec, p0: Vec)
    requires m == ClosingMove(solid, size, i, p, p0) && m.Valid() && !TestBox(solid(i), p, size)
    ensures Catches(m.Body(), i, p)
  {
    var turn := m.Body();
    assert m.E() == Vec(1.0, 1.0);
    forall j: nat, b: Box {:trigger turn(j, b)} | b.ending == GoOn && b.vel.x != 0.0
      ensures var c := turn(j, b);
              && c.ending == GoOn && c.vel.x != 0.0
              && (j + 1 == i ==> c.pos == p)
              && (j == i && b.pos == p ==> c.pos == p)
    {
      var move := Parts(m.Max())(b.vel);
      PartOfMoving(b.vel, m.Max());
      assert turn(j, b) == Turn(m.world, j, b, move, m.size, Vec(1.0, 1.0));
      ClosingTurn(m.world, solid, size, i, p, m.vel, j, b, move);
    }
  }

  lemma {:induction false} CaughtRun(turn: (nat, Box) -> Box, start: Box, i: nat, p: Vec, n: nat)
    requires Catches(turn, i, p) && n <= i + 1
    requires start.ending == GoOn && start.vel.x != 0.0 && (i == 0 ==> start.pos == p)
    ensures var b := Run(turn, start, n); b.ending == GoOn && b.vel.x != 0.0 && (i <= n ==> b.pos == p)
  {
    if n > 0 {
      CaughtRun(turn, start, i, p, n - 1);
    }
  }

  /** When the map closes on a place where the box can stand, it can be caught there. */
  lemma ClosingMapCatches(solid: nat -> Map, size: Vec, i: nat, p: Vec, p0: Vec) returns (m: Move)
    requires !TestBox(solid(0), p0, size) && !TestBox(solid(i), p, size) && TestBox(solid(i + 1), p, size)
    ensures m.Valid() && m.world.solid == solid && m.size == size && NoPortal(m.world)
    ensures m.StartsFree() && !m.EndsFree()
  {
    m := ClosingMove(solid, size, i, p, p0);
    assert m.Max() == i;
    ClosingBodyCatches(m, solid, size, i, p, p0);
    CaughtRun(m.Body(), m.Start(), i, p, i + 1);
    GoingOn(m.Body(), m.Start(), i + 1);
  }

  /**
    Boxes that start free always end free, for every effect of the calls short of a portal, if and only if the
    map only opens; unless there is no free place to start from.
    */
  lemma AlwaysEndsFreeIffMapOnlyOpens(solid: nat -> Map, size: Vec, p0: Vec)
    requires !TestBox(solid(0), p0, size)
    ensures AlwaysEndsFree(solid, size) <==> OnlyOpens(solid, size)
  {
    if OnlyOpens(solid, size) {
      forall m: Move | m.Valid() && m.world.solid == solid && m.size == size && NoPortal(m.world) && m.StartsFree()
        ensures m.EndsFree()
      {
        MoveIsCalm(m);
        OpeningMapEndsFree(m);
      }
    } else {
      var i: nat :| !Opens(solid, i, size);
      var p :| TestBox(solid(i + 1), p, size) && !TestBox(solid(i), p, size);
      var m := ClosingMapCatches(solid, size, i, p, p0);
    }
  }

  /** A move of one iteration. */
  lemma OneTurn(m: Move, move: Vec)
    requires m.Valid() && m.Iterations() == 1 && Parts(m.Max())(m.vel) == move
    requires Turn(m.world, 0, m.Start(), move, m.size, m.E()).ending == GoOn
    ensures m.Result() == Turn(m.world, 0, m.Start(), move, m.size, m.E()) && m.LastMap() == m.world.solid(1)
  {
    assert m.Body()(0, m.Start()) == Turn(m.world, 0, m.Start(), move, m.size, m.E());
    assert Run(m.Body(), m.Start(), 0) == m.Start();
    GoingOn(m.Body(), m.Start(), 1);
  }

  lemma WholePart(v: Vec)
    ensures Parts(0)(v) == v
  {
  }
}
