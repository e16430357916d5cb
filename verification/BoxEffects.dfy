/**
  What portals, shifters and stoppers on its way do to a moving box (src/game/collision.cpp), where nothing is
  solid: so every call takes effect once in every iteration.
  */
module BoxEffects {
  import opened Common
  import opened MoveBox
  import opened PlainMove

  /** Nothing is solid. */
  ghost predicate IsOpen(w: World) {
    forall i: nat, x: real, y: real {:trigger w.solid(i)(x, y)} :: !w.solid(i)(x, y)
  }

  ghost predicate NoShifters(w: World) {
    forall i, p, v :: w.tile(i, p, v) == (p, v)
  }

  ghost predicate NoStoppers(w: World) {
    forall i, o, p, v, g :: w.stop(i, o, p, v, g) == (p, v, g)
  }

  lemma OpenIsFree(w: World, i: nat, p: Vec, size: Vec)
    requires IsOpen(w)
    ensures !TestBox(w.solid(i), p, size)
  {
  }

  lemma MovingIsNotZero(m: Move)
    requires m.Valid() && m.distance > 0.00001
    ensures m.vel != ZERO
  {
    assert m.vel == ZERO ==> m.distance * m.distance == 0.0;
    PositiveProduct(m.distance, m.distance);
  }

  /** The part of a velocity that belongs to one iteration. */
  function Part(m: Move, v: Vec): Vec
    requires m.Valid()
  {
    Parts(m.Max())(v)
  }

  lemma PartIsMoving(m: Move, v: Vec)
    requires m.Valid() && v != ZERO
    ensures Part(m, v) != ZERO && IsShare(Part(m, v), v, m.Max() + 1)
  {
    PartsAreShares(v, m.Max());
    MovingShare(Part(m, v), v, m.Max() + 1);
  }

  lemma NextTurn(m: Move, i: nat)
    requires m.Valid() && Run(m.Body(), m.Start(), i).ending == GoOn
    ensures var b := Run(m.Body(), m.Start(), i);
            Run(m.Body(), m.Start(), i + 1) == Turn(m.world, i, b, Part(m, b.vel), m.size, m.E())
  {
  }

  /** i steps of the same length from p. */
  function Steps(p: Vec, i: nat, step: Vec): Vec {
    Vec(p.x + Times(i, step.x), p.y + Times(i, step.y))
  }

  lemma NextStep(p: Vec, i: nat, step: Vec)
    ensures Steps(p, i + 1, step) == Plus(Steps(p, i, step), step)
  {
  }

  /** Before iteration k every turn moves the box by the same step. */
  ghost predicate MovesBy(turn: (nat, Box) -> Box, start: Box, step: Vec, k: nat) {
    forall i: nat, b: Box {:trigger turn(i, b)} :: i < k && b == start.(pos := b.pos) ==>
      turn(i, b) == b.(pos := Plus(b.pos, step))
  }

  lemma {:induction false} RunMovesBy(turn: (nat, Box) -> Box, start: Box, step: Vec, k: nat, i: nat)
    requires MovesBy(turn, start, step, k) && start.ending == GoOn && i <= k
    ensures Run(turn, start, i) == start.(pos := Steps(start.pos, i, step))
  {
    if i > 0 {
      RunMovesBy(turn, start, step, k, i - 1);
      NextStep(start.pos, i - 1, step);
    }
  }

  /** A turn that ends the move after k such turns. */
  lemma RunEndsAt(turn: (nat, Box) -> Box, start: Box, step: Vec, k: nat, n: nat, end: Box)
    requires MovesBy(turn, start, step, k) && start.ending == GoOn && k < n
    requires turn(k, start.(pos := Steps(start.pos, k, step))) == end && end.ending != GoOn
    ensures Run(turn, start, n) == end
  {
    RunMovesBy(turn, start, step, k, k);
    EndedRun(turn, start, k + 1, n);
  }

  // ---------------------------------------------------------------- portals

  lemma StraightTurn(w: World, i: nat, b: Box, move: Vec, size: Vec, e: Vec)
    requires IsOpen(w) && NoShifters(w) && NoStoppers(w) && b.vel != ZERO && move != ZERO && b.ending == GoOn
    requires w.portal(i, Plus(b.pos, move), b.vel) == None
    ensures Turn(w, i, b, move, size, e) == b.(pos := Plus(b.pos, move))
  {
    OpenIsFree(w, i + 1, Plus(b.pos, move), size);
  }

  lemma PortalTurn(w: World, i: nat, b: Box, move: Vec, size: Vec, e: Vec, exit: Vec, vel: Vec)
    requires b.vel != ZERO && w.portal(i, Plus(b.pos, move), b.vel) == Some((exit, vel))
    ensures Turn(w, i, b, move, size, e) == Box(exit, vel, b.grounded, Portal)
  {
  }

  lemma FliesToPortal(m: Move, k: nat)
    requires m.Valid() && IsOpen(m.world) && NoShifters(m.world) && NoStoppers(m.world) && m.vel != ZERO
    requires forall j: nat, p, v :: j < k ==> m.world.portal(j, p, v) == None
    ensures MovesBy(m.Body(), m.Start(), Part(m, m.vel), k)
  {
    var turn, move := m.Body(), Part(m, m.vel);
    PartIsMoving(m, m.vel);
    forall i: nat, b: Box {:trigger turn(i, b)} | i < k && b == m.Start().(pos := b.pos)
      ensures turn(i, b) == b.(pos := Plus(b.pos, move))
    {
      StraightTurn(m.world, i, b, move, m.size, m.E());
    }
  }

  /** A portal on the way ends the move: at its other end, with the velocity it gives. */
  lemma PortalEndsMove(m: Move, k: nat, exit: Vec, vel: Vec)
    requires m.Valid() && IsOpen(m.world) && NoShifters(m.world) && NoStoppers(m.world)
    requires m.distance > 0.00001 && k <= m.Max()
    requires forall j: nat, p, v :: j < k ==> m.world.portal(j, p, v) == None
    requires m.world.portal(k, Steps(m.pos, k + 1, Part(m, m.vel)), m.vel) == Some((exit, vel))
    ensures m.Result() == Box(exit, vel, m.grounded, Portal)
  {
    MovingIsNotZero(m);
    FliesToPortal(m, k);
    ThroughPortal(m, k, exit, vel);
    RunEndsAt(m.Body(), m.Start(), Part(m, m.vel), k, m.Max() + 1, Box(exit, vel, m.grounded, Portal));
  }

  lemma ThroughPortal(m: Move, k: nat, exit: Vec, vel: Vec)
    requires m.Valid() && m.vel != ZERO
    requires m.world.portal(k, Steps(m.pos, k + 1, Part(m, m.vel)), m.vel) == Some((exit, vel))
    ensures m.Body()(k, m.Start().(pos := Steps(m.pos, k, Part(m, m.vel)))) == Box(exit, vel, m.grounded, Portal)
  {
    var b := m.Start().(pos := Steps(m.pos, k, Part(m, m.vel)));
    NextStep(m.pos, k, Part(m, m.vel));
    PortalTurn(m.world, k, b, Part(m, m.vel), m.size, m.E(), exit, vel);
  }

  // ---------------------------------------------------------------- shifters

  /** Shifters everywhere, all by the same distance. */
  ghost predicate Shifts(w: World, d: Vec) {
    forall i, p, v :: w.tile(i, p, v) == (Plus(p, d), v)
  }

  lemma ShiftedTurn(w: World, d: Vec, i: nat, b: Box, move: Vec, size: Vec, e: Vec)
    requires IsOpen(w) && NoPortal(w) && Shifts(w, d) && NoStoppers(w)
    requires b.vel != ZERO && Plus(move, d) != ZERO && b.ending == GoOn
    ensures Turn(w, i, b, move, size, e) == b.(pos := Plus(b.pos, Plus(move, d)))
  {
    var target := Plus(Plus(b.pos, move), d);
    assert target == Plus(b.pos, Plus(move, d));
    OpenIsFree(w, i + 1, target, size);
  }

  lemma IsCarried(m: Move, d: Vec, k: nat)
    requires m.Valid() && IsOpen(m.world) && NoPortal(m.world) && Shifts(m.world, d) && NoStoppers(m.world)
    requires m.vel != ZERO && Plus(Part(m, m.vel), d) != ZERO
    ensures MovesBy(m.Body(), m.Start(), Plus(Part(m, m.vel), d), k)
  {
    var turn, move := m.Body(), Part(m, m.vel);
    forall i: nat, b: Box {:trigger turn(i, b)} | i < k && b == m.Start().(pos := b.pos)
      ensures turn(i, b) == b.(pos := Plus(b.pos, Plus(move, d)))
    {
      ShiftedTurn(m.world, d, i, b, move, m.size, m.E());
    }
  }

  lemma {:induction false} TimesOfSum(n: nat, s: real, t: real)
    ensures Times(n, s + t) == Times(n, s) + Times(n, t)
  {
    if n > 0 {
      TimesOfSum(n - 1, s, t);
    }
  }

  /** They carry the box along once in each of its iterations, as many as the length of its velocity and one more. */
  lemma ShiftersCarry(m: Move, d: Vec)
    requires m.Valid() && IsOpen(m.world) && NoPortal(m.world) && Shifts(m.world, d) && NoStoppers(m.world)
    requires m.distance > 0.00001 && Plus(Part(m, m.vel), d) != ZERO
    ensures m.Result() == Box(Steps(Plus(m.pos, m.vel), m.distance.Floor + 1, d), m.vel, m.grounded, GoOn)
  {
    MovingIsNotZero(m);
    var n, part := m.Max() + 1, Part(m, m.vel);
    IsCarried(m, d, n);
    RunMovesBy(m.Body(), m.Start(), Plus(part, d), n, n);
    PartIsMoving(m, m.vel);
    CarriedTo(m.pos, m.vel, part, d, n);
  }

  lemma CarriedTo(pos: Vec, vel: Vec, part: Vec, d: Vec, n: nat)
    requires IsShare(part, vel, n)
    ensures Steps(pos, n, Plus(part, d)) == Steps(Plus(pos, vel), n, d)
  {
    TimesOfSum(n, part.x, d.x);
    TimesOfSum(n, part.y, d.y);
  }

  /** A shifter that takes the box back to where it came from ends the move. */
  lemma ShiftedBackRests(m: Move)
    requires m.Valid() && NoPortal(m.world) && m.distance > 0.00001
    requires forall i, p, v :: m.world.tile(i, p, v) == (m.pos, v)
    ensures m.Result() == Box(m.pos, m.vel, m.grounded, Rest)
  {
    MovingIsNotZero(m);
    NextTurn(m, 0);
    EndedRun(m.Body(), m.Start(), 1, m.Max() + 1);
  }

  // ---------------------------------------------------------------- stoppers

  /** Stoppers everywhere that take back the move along x. */
  ghost predicate StopsX(w: World) {
    forall i, o: Vec, p: Vec, v: Vec, g: bool {:trigger w.stop(i, o, p, v, g)} ::
      w.stop(i, o, p, v, g) == (Vec(o.x, p.y), Vec(0.0, v.y), true)
  }

  lemma {:induction false} IsStopped(m: Move, i: nat)
    requires m.Valid() && IsOpen(m.world) && NoPortal(m.world) && NoShifters(m.world) && StopsX(m.world)
    requires m.vel.y != 0.0 && i > 0
    ensures Run(m.Body(), m.Start(), i) ==
            Box(Vec(m.pos.x, m.pos.y + Times(i, Part(m, m.vel).y)), Vec(0.0, m.vel.y), true, GoOn)
  {
    if i > 1 {
      IsStopped(m, i - 1);
    }
    NextTurn(m, i - 1);
    var b := Run(m.Body(), m.Start(), i - 1);
    PartIsMoving(m, b.vel);
    SamePart(m, b.vel);
    OpenIsFree(m.world, i, Vec(b.pos.x, b.pos.y + Part(m, m.vel).y), m.size);
  }

  lemma SamePart(m: Move, v: Vec)
    requires m.Valid() && v.y == m.vel.y
    ensures Part(m, v).y == Part(m, m.vel).y
    ensures v.x == 0.0 ==> Part(m, v).x == 0.0
  {
  }

  /** They hold the box on this axis from the first iteration on, and let it pass on the other one. */
  lemma StoppersHold(m: Move)
    requires m.Valid() && IsOpen(m.world) && NoPortal(m.world) && NoShifters(m.world) && StopsX(m.world)
    requires m.distance > 0.00001 && m.vel.y != 0.0
    ensures m.Result() == Box(Vec(m.pos.x, m.pos.y + m.vel.y), Vec(0.0, m.vel.y), true, GoOn)
  {
    IsStopped(m, m.Max() + 1);
    PartIsMoving(m, m.vel);
  }

  /** A box that is almost at rest does not move, whatever is on its way. */
  lemma SlowBoxesStay(m: Move)
    requires m.Valid() && m.distance <= 0.00001
    ensures m.Result() == Box(m.pos, m.vel, m.grounded, GoOn)
  {
  }
}
