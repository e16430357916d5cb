/** The tiles of the game that act on a moving box (src/game/gamecore_kz.cpp and src/game/collision_kz.cpp). */
module MoveBoxTiles {
  import opened Common
  import opened MoveBox

  /** An active position shifter below the box, and what it does to the velocity. */
  datatype Shifter = Shifter(dx: int, dy: int, invertX: bool, invertY: bool)

  /** HandleKZTileOnMoveBox */
  function Shift(shifter: Option<Shifter>, pos: Vec, vel: Vec): (Vec, Vec) {
    if shifter.None? then (pos, vel)
    else
      var s := shifter.value;
      (Vec(pos.x + s.dx as real, pos.y + s.dy as real),
       Vec(if s.invertX then -vel.x else vel.x, if s.invertY then -vel.y else vel.y))
  }

  datatype Rotation = Rotation0 | Rotation90 | Rotation180 | Rotation270

  /** A tile of the game layer: a stopper, a switch that a ninja may hit, or another one. */
  datatype Kind = Stopper(rotation: Rotation) | Hittable(ninja: bool, typ: int) | Other

  datatype Tile = Tile(id: nat, kind: Kind, number: nat)

  /** The tiles at the four corners of a box. */
  type Corners = seq<Option<Tile>>

  /** A box during TestBoxKZ, with the status of the switches of its team and the switch that was hit last. */
  datatype Touch = Touch(pos: Vec, vel: Vec, grounded: bool, switches: seq<bool>, hit: Option<nat>)

  /** Every numbered tile has a switch, if there are switches at all. */
  predicate Numbered(tiles: Corners, switches: seq<bool>) {
    switches == [] || forall k :: 0 <= k < |tiles| && tiles[k].Some? ==> tiles[k].value.number < |switches|
  }

  /** A stopper takes back a move against its direction on one axis. */
  function Stopped(rotation: Rotation, orig: Vec, e: Vec, t: Touch): Touch {
    match rotation
    case Rotation0 =>
      if t.vel.y < 0.0 then t
      else t.(pos := t.pos.(y := orig.y), vel := t.vel.(y := Bounce(e.y, t.vel.y)), grounded := t.grounded || e.y > 0.0)
    case Rotation90 =>
      if t.vel.x > 0.0 then t else t.(pos := t.pos.(x := orig.x), vel := t.vel.(x := Bounce(e.x, t.vel.x)))
    case Rotation180 =>
      if t.vel.y > 0.0 then t else t.(pos := t.pos.(y := orig.y), vel := t.vel.(y := Bounce(e.y, t.vel.y)))
    case Rotation270 =>
      if t.vel.x < 0.0 then t else t.(pos := t.pos.(x := orig.x), vel := t.vel.(x := Bounce(e.x, t.vel.x)))
  }

  /** A switch is hit by a ninja who did not touch it before, once for all corners on it that follow each other. */
  predicate IsHit(tile: Tile, touching: seq<Option<nat>>, ninja: bool, t: Touch) {
    && tile.kind.Hittable? && tile.kind.ninja && tile.number != 0 && t.switches != [] && ninja
    && t.hit != Some(tile.id) && Some(tile.id) !in touching
  }

  /** What a hit does to the status: switch on, for good or for a time, off in these ways, or toggle. */
  function Switched(typ: int, status: bool): bool {
    match typ
    case 0 => true
    case 1 => true
    case 2 => false
    case 3 => false
    case 4 => !status
    case _ => status
  }

  /** A corner of the box. */
  function AtCorner(corner: Option<Tile>, orig: Vec, e: Vec, touching: seq<Option<nat>>, ninja: bool, t: Touch)
    : (r: Touch)
    requires Numbered([corner], t.switches)
    ensures |r.switches| == |t.switches|
  {
    assert [corner][0] == corner;
    if corner.None? then t
    else
      var tile := corner.value;
      if IsHit(tile, touching, ninja, t) then
        var status := Switched(tile.kind.typ, t.switches[tile.number]);
        t.(switches := t.switches[tile.number := status], hit := Some(tile.id))
      else if tile.kind.Stopper? && (tile.number != 0 && t.switches != [] ==> t.switches[tile.number]) then
        Stopped(tile.kind.rotation, orig, e, t)
      else t
  }

  /** TestBoxKZ goes through the corners in turn. */
  function AtCorners(tiles: Corners, orig: Vec, e: Vec, touching: seq<Option<nat>>, ninja: bool, t: Touch): (r: Touch)
    requires Numbered(tiles, t.switches)
    ensures |r.switches| == |t.switches|
  {
    if tiles == [] then t
    else
      var n := |tiles| - 1;
      var before := AtCorners(tiles[..n], orig, e, touching, ninja, t);
      AtCorner(tiles[n], orig, e, touching, ninja, before)
  }

  lemma StoppedIsCalm(rotation: Rotation, orig: Vec, e: Vec, t: Touch)
    requires -1.0 <= e.x <= 1.0 && -1.0 <= e.y <= 1.0
    ensures NotFaster(Stopped(rotation, orig, e, t).vel, t.vel)
  {
    BounceNotFaster(e.x, t.vel.x);
    BounceNotFaster(e.y, t.vel.y);
  }

  /** The corners up to and including corner n. */
  lemma NextCorner(tiles: Corners, n: nat, orig: Vec, e: Vec, touching: seq<Option<nat>>, ninja: bool, t: Touch)
    requires n < |tiles| && Numbered(tiles, t.switches)
    ensures AtCorners(tiles[..n + 1], orig, e, touching, ninja, t)
            == AtCorner(tiles[n], orig, e, touching, ninja, AtCorners(tiles[..n], orig, e, touching, ninja, t))
  {
    assert tiles[..n + 1][..n] == tiles[..n];
  }

  /** The tiles at the corners, in turn, do not make the box faster. */
  lemma {:induction false} CornersAreCalm(tiles: Corners, orig: Vec, e: Vec, touching: seq<Option<nat>>,
                                          ninja: bool, t: Touch)
    requires Numbered(tiles, t.switches) && -1.0 <= e.x <= 1.0 && -1.0 <= e.y <= 1.0
    ensures NotFaster(AtCorners(tiles, orig, e, touching, ninja, t).vel, t.vel)
  {
    if tiles != [] {
      var n := |tiles| - 1;
      var before := AtCorners(tiles[..n], orig, e, touching, ninja, t);
      CornersAreCalm(tiles[..n], orig, e, touching, ninja, t);
      if tiles[n].Some? && tiles[n].value.kind.Stopper? {
        StoppedIsCalm(tiles[n].value.kind.rotation, orig, e, before);
      }
    }
  }

  /** TestBoxKZ. It remembers the tiles at the corners as touched, unless there is none. */
  method TestBoxKZ(tiles: Corners, orig: Vec, pos0: Vec, vel0: Vec, e: Vec, grounded0: bool, switches0: seq<bool>,
                   touching0: seq<Option<nat>>, ninja: bool)
    returns (pos: Vec, vel: Vec, grounded: bool, switches: seq<bool>, touching: seq<Option<nat>>, updated: bool)
    requires |tiles| == 4 && Numbered(tiles, switches0)
    ensures var t := AtCorners(tiles, orig, e, touching0, ninja, Touch(pos0, vel0, grounded0, switches0, None));
            pos == t.pos && vel == t.vel && grounded == t.grounded && switches == t.switches
    ensures touching == if tiles == [None, None, None, None] then touching0 else Ids(tiles)
    ensures !updated ==> pos == pos0 && vel == vel0 && grounded == grounded0
  {
    pos, vel, grounded, switches, touching, updated := pos0, vel0, grounded0, switches0, touching0, false;
    var hit: Option<nat> := None;
    for i := 0 to 4
      invariant Touch(pos, vel, grounded, switches, hit)
                == AtCorners(tiles[..i], orig, e, touching0, ninja, Touch(pos0, vel0, grounded0, switches0, None))
      invariant !updated ==> pos == pos0 && vel == vel0 && grounded == grounded0
    {
      assert tiles[..i + 1][..i] == tiles[..i];
      if tiles[i].Some? {
        var tile := tiles[i].value;
        if hit != Some(tile.id) && Some(tile.id) !in touching0 && tile.kind.Hittable? && tile.kind.ninja
           && tile.number != 0 && switches != [] && ninja
        {
          switches := switches[tile.number := Switched(tile.kind.typ, switches[tile.number])];
          hit := Some(tile.id);
        } else if tile.kind.Stopper? && (if tile.number != 0 && switches != [] then switches[tile.number] else true) {
          var stopped;
          pos, vel, grounded, stopped := Stop(tile.kind.rotation, orig, e, pos, vel, grounded, switches, hit);
          updated := updated || stopped;
        }
      }
    }
    assert tiles[..4] == tiles;
    if tiles[0].Some? || tiles[1].Some? || tiles[2].Some? || tiles[3].Some? {
      touching := Ids(tiles);
    }
  }

  function Ids(tiles: Corners): seq<Option<nat>> {
    seq(|tiles|, k requires 0 <= k < |tiles| => if tiles[k].Some? then Some(tiles[k].value.id) else None)
  }

  /** The cases of the rotation of a stopper. */
  method Stop(rotation: Rotation, orig: Vec, e: Vec, pos0: Vec, vel0: Vec, grounded0: bool,
              ghost switches: seq<bool>, ghost hit: Option<nat>)
    returns (pos: Vec, vel: Vec, grounded: bool, updated: bool)
    ensures Touch(pos, vel, grounded, switches, hit) ==
            Stopped(rotation, orig, e, Touch(pos0, vel0, grounded0, switches, hit))
    ensures !updated ==> pos == pos0 && vel == vel0 && grounded == grounded0
  {
    pos, vel, grounded, updated := pos0, vel0, grounded0, false;
    match rotation {
      case Rotation0 =>
        if vel.y >= 0.0 {
          vel := vel.(y := Bounce(e.y, vel.y));
          pos := pos.(y := orig.y);
          updated := true;
          if e.y > 0.0 {
            grounded := true;
          }
        }
      case Rotation90 =>
        if vel.x <= 0.0 {
          vel := vel.(x := Bounce(e.x, vel.x));
          pos := pos.(x := orig.x);
          updated := true;
        }
      case Rotation180 =>
        if vel.y <= 0.0 {
          vel := vel.(y := Bounce(e.y, vel.y));
          pos := pos.(y := orig.y);
          updated := true;
        }
      case Rotation270 =>
        if vel.x >= 0.0 {
          vel := vel.(x := Bounce(e.x, vel.x));
          pos := pos.(x := orig.x);
          updated := true;
        }
    }
  }

  // ---------------------------------------------------------------- worlds of these tiles

  /** What TestBoxKZ is called with in an iteration: the tiles at the corners, the switches, and the tiles touched. */
  datatype Surroundings = Surroundings(tiles: Corners, switches: seq<bool>, touching: seq<Option<nat>>)

  /** After a call with these surroundings; a call with a tile that has no switch changes nothing. */
  function After(at: Surroundings, ninja: bool, orig: Vec, pos: Vec, vel: Vec, e: Vec, grounded: bool): Touch {
    var t := Touch(pos, vel, grounded, at.switches, None);
    if Numbered(at.tiles, at.switches) then AtCorners(at.tiles, orig, e, at.touching, ninja, t) else t
  }

  function GameWorld(portal: (nat, Vec, Vec) -> Option<(Vec, Vec)>, shifters: (nat, Vec) -> Option<Shifter>,
                     around: (nat, Vec) -> Surroundings, ninja: bool, e: Vec, solid: nat -> Map): World
  {
    World(portal,
          (i: nat, pos: Vec, vel: Vec) => Shift(shifters(i, pos), pos, vel),
          (i: nat, orig: Vec, pos: Vec, vel: Vec, grounded: bool) =>
            var t := After(around(i, pos), ninja, orig, pos, vel, e, grounded);
            (t.pos, t.vel, t.grounded),
          solid)
  }

  /** The game's tiles, wherever they are, never make a box faster: only a portal can. */
  lemma GameWorldIsCalm(portal: (nat, Vec, Vec) -> Option<(Vec, Vec)>, shifters: (nat, Vec) -> Option<Shifter>,
                        around: (nat, Vec) -> Surroundings, ninja: bool, e: Vec, solid: nat -> Map)
    requires -1.0 <= e.x <= 1.0 && -1.0 <= e.y <= 1.0
    ensures Calm(GameWorld(portal, shifters, around, ninja, e, solid))
  {
    var w := GameWorld(portal, shifters, around, ninja, e, solid);
    forall i: nat, p: Vec, v: Vec ensures NotFaster(w.tile(i, p, v).1, v) {
      assert w.tile(i, p, v) == Shift(shifters(i, p), p, v);
    }
    forall i: nat, o: Vec, p: Vec, v: Vec, g: bool ensures NotFaster(w.stop(i, o, p, v, g).1, v) {
      var at := around(i, p);
      assert w.stop(i, o, p, v, g).1 == After(at, ninja, o, p, v, e, g).vel;
      if Numbered(at.tiles, at.switches) {
        CornersAreCalm(at.tiles, o, e, at.touching, ninja, Touch(p, v, g, at.switches, None));
      }
    }
  }

  // ---------------------------------------------------------------- a door that closes on a box

  /** A switch with number 1 that a hit turns on, at one corner of the box, and nothing at the others. */
  const AT_SWITCH := Surroundings([Some(Tile(0, Hittable(true, 0), 1)), None, None, None],
                                  [false, false], [None, None, None, None])

  /** A door with number 1: everything from x = 0 on is solid while the switch is on. */
  function Door(switches: seq<bool>): Map {
    (x: real, y: real) => |switches| > 1 && switches[1] && x >= 0.0
  }

  /** The switches before the move, and from the first call of TestBoxKZ on. */
  function SwitchesAt(i: nat): seq<bool> {
    if i == 0 then AT_SWITCH.switches
    else After(AT_SWITCH, true, ZERO, Vec(0.5, 0.0), Vec(0.5, 0.0), ZERO, false).switches
  }

  const NO_SHIFTERS: (nat, Vec) -> Option<Shifter> := (j: nat, q: Vec) => None

  const SWITCH_AND_DOOR := GameWorld((j: nat, q: Vec, u: Vec) => None, NO_SHIFTERS,
                                     (j: nat, q: Vec) => AT_SWITCH, true, ZERO, (j: nat) => Door(SwitchesAt(j)))

  /** A ninja, 28 wide, around the origin and moving to the right. */
  const CAUGHT := Move(SWITCH_AND_DOOR, ZERO, Vec(0.5, 0.0), Vec(28.0, 28.0), ZERO, false, 0.5)

  lemma SwitchIsHit(pos: Vec, vel: Vec)
    ensures After(AT_SWITCH, true, ZERO, pos, vel, ZERO, false) == Touch(pos, vel, false, [false, true], Some(0))
  {
    var tiles, touching, t := AT_SWITCH.tiles, AT_SWITCH.touching, Touch(pos, vel, false, AT_SWITCH.switches, None);
    NextCorner(tiles, 0, ZERO, ZERO, touching, true, t);
    NextCorner(tiles, 1, ZERO, ZERO, touching, true, t);
    NextCorner(tiles, 2, ZERO, ZERO, touching, true, t);
    NextCorner(tiles, 3, ZERO, ZERO, touching, true, t);
    assert tiles[..4] == tiles;
    assert AtCorners(tiles[..0], ZERO, ZERO, touching, true, t) == t;
    assert AtCorners(tiles[..1], ZERO, ZERO, touching, true, t) == t.(switches := [false, true], hit := Some(0));
  }

  lemma DoorHits(v: Vec)
    requires v == Vec(0.5, 0.0)
    ensures var size := Vec(28.0, 28.0);
            HitX(Door([false, true]), ZERO, v, size) && HitY(Door([false, true]), ZERO, v, size)
  {
  }

  lemma DoorTurn()
    ensures var b := Turn(SWITCH_AND_DOOR, 0, CAUGHT.Start(), Vec(0.5, 0.0), Vec(28.0, 28.0), ZERO);
            b.pos == ZERO && b.ending == GoOn
    ensures TestBox(SWITCH_AND_DOOR.solid(1), ZERO, Vec(28.0, 28.0))
  {
    var w, v := SWITCH_AND_DOOR, Vec(0.5, 0.0);
    SwitchIsHit(v, v);
    assert w.solid(1) == Door([false, true]);
    assert w.portal(0, v, v) == None;
    var none: (nat, Vec) -> Option<Shifter> := NO_SHIFTERS;
    assert none(0, v) == None && Shift(none(0, v), v, v) == (v, v);
    assert w.tile(0, v, v) == (v, v);
    assert w.stop(0, ZERO, v, v, false) == (v, v, false);
    assert Plus(ZERO, v) == v;
    DoorHits(v);
  }

  lemma CaughtStart()
    ensures CAUGHT.Valid() && CAUGHT.StartsFree() && NoPortal(SWITCH_AND_DOOR)
    ensures CAUGHT.Iterations() == 1 && CAUGHT.Max() == 0 && CAUGHT.E() == ZERO
  {
  }

  /** The box starts free, hits the switch, and ends inside the door that this closes. */
  lemma SwitchClosesDoorOnBox()
    ensures CAUGHT.Valid() && NoPortal(CAUGHT.world) && CAUGHT.StartsFree()
    ensures CAUGHT.Result().pos == ZERO && CAUGHT.Result().ending == GoOn && !CAUGHT.EndsFree()
  {
    CaughtStart();
    WholePart(CAUGHT.vel);
    DoorTurn();
    OneTurn(CAUGHT, CAUGHT.vel);
  }
}
