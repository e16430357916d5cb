/** What stoppers, switches and shifters do to a box (src/game/collision_kz.cpp, src/game/gamecore_kz.cpp). */
module TileLaws {
  import opened Common
  import opened MoveBox
  import opened MoveBoxTiles

  // ---------------------------------------------------------------- stoppers

  /** A quarter turn clockwise; y points down. */
  function Turned(v: Vec): Vec {
    Vec(-v.y, v.x)
  }

  const DOWN := Vec(0.0, 1.0)

  /** The part of v in a direction along an axis. */
  function Along(v: Vec, d: Vec): real {
    v.x * d.x + v.y * d.y
  }

  function ElasticityAlong(e: Vec, d: Vec): real {
    if d.x != 0.0 then e.x else e.y
  }

  /**
    A stopper lets a box pass that moves against the blocked direction d; any other is put back in this direction
    and reversed, and keeps its movement across. Only on a stopper that blocks downwards can it stand.
    */
  predicate Blocks(d: Vec, orig: Vec, e: Vec, t: Touch, t': Touch) {
    && (Along(t.vel, d) < 0.0 ==> t' == t)
    && (Along(t.vel, d) >= 0.0 ==>
          && Along(t'.pos, d) == Along(orig, d) && Along(t'.pos, Turned(d)) == Along(t.pos, Turned(d))
          && Along(t'.vel, d) == -(ElasticityAlong(e, d) * Along(t.vel, d))
          && Along(t'.vel, Turned(d)) == Along(t.vel, Turned(d))
          && (t'.grounded <==> t.grounded || (d == DOWN && e.y > 0.0)))
    && t'.switches == t.switches && t'.hit == t.hit
  }

  /** A stopper that is not rotated blocks downwards. */
  lemma BlocksDown(orig: Vec, e: Vec, t: Touch)
    ensures Blocks(DOWN, orig, e, t, Stopped(Rotation0, orig, e, t))
  {
  }

  /** Each rotation by 90 degrees turns the blocked direction a quarter further. */
  lemma BlocksLeft(orig: Vec, e: Vec, t: Touch)
    ensures Turned(DOWN) == Vec(-1.0, 0.0) && Blocks(Vec(-1.0, 0.0), orig, e, t, Stopped(Rotation90, orig, e, t))
  {
  }

  lemma BlocksUp(orig: Vec, e: Vec, t: Touch)
    ensures Turned(Vec(-1.0, 0.0)) == Vec(0.0, -1.0)
    ensures Blocks(Vec(0.0, -1.0), orig, e, t, Stopped(Rotation180, orig, e, t))
  {
  }

  lemma BlocksRight(orig: Vec, e: Vec, t: Touch)
    ensures Turned(Vec(0.0, -1.0)) == Vec(1.0, 0.0)
    ensures Blocks(Vec(1.0, 0.0), orig, e, t, Stopped(Rotation270, orig, e, t))
  {
  }

  /** A stopper with a number acts while the switch with this number is on, and one without acts always. */
  lemma StopperIsSwitched(tile: Tile, rotation: Rotation, orig: Vec, e: Vec, touching: seq<Option<nat>>,
                          ninja: bool, t: Touch)
    requires tile.kind == Stopper(rotation) && Numbered([Some(tile)], t.switches)
    ensures AtCorners([Some(tile)], orig, e, touching, ninja, t) ==
            if tile.number > 0 && t.switches != [] && !t.switches[tile.number] then t
            else Stopped(rotation, orig, e, t)
  {
    assert [Some(tile)][0].value == tile;
    assert [Some(tile)][..0] == [];
  }

  // ---------------------------------------------------------------- switches

  /** Types 0 and 1 turn a switch on, 2 and 3 off, 4 toggles it, and others leave it as it is. */
  lemma SwitchTypes(status: bool, typ: int)
    ensures typ == 0 || typ == 1 ==> Switched(typ, status)
    ensures typ == 2 || typ == 3 ==> !Switched(typ, status)
    ensures typ == 4 ==> Switched(4, status) != status && Switched(4, Switched(4, status)) == status
    ensures typ < 0 || typ > 4 ==> Switched(typ, status) == status
  {
  }

  /** A ninja who arrives on a switch hits it once, with however many corners. */
  lemma {:induction false} SwitchIsHitOnce(tiles: Corners, tile: Tile, orig: Vec, e: Vec, touching: seq<Option<nat>>,
                                           t: Touch)
    requires tiles != [] && (forall k :: 0 <= k < |tiles| ==> tiles[k] == Some(tile)) && Numbered(tiles, t.switches)
    requires tile.kind.Hittable? && tile.kind.ninja && tile.number != 0 && t.switches != []
    requires t.hit == None && Some(tile.id) !in touching
    ensures AtCorners(tiles, orig, e, touching, true, t) ==
            t.(switches := t.switches[tile.number := Switched(tile.kind.typ, t.switches[tile.number])],
               hit := Some(tile.id))
  {
    var n := |tiles| - 1;
    assert tiles[n].value == tile;
    if n == 0 {
      assert tiles[..0] == [];
    } else {
      SwitchIsHitOnce(tiles[..n], tile, orig, e, touching, t);
    }
  }

  /** One that was on it before, or anybody else, does not hit it; and a switch without a number does nothing. */
  lemma {:induction false} SwitchIsNotHit(tiles: Corners, tile: Tile, orig: Vec, e: Vec, touching: seq<Option<nat>>,
                                          ninja: bool, t: Touch)
    requires (forall k :: 0 <= k < |tiles| ==> tiles[k] == Some(tile)) && Numbered(tiles, t.switches)
    requires tile.kind.Hittable?
    requires !ninja || !tile.kind.ninja || Some(tile.id) in touching || tile.number == 0 || t.switches == []
    ensures AtCorners(tiles, orig, e, touching, ninja, t) == t
  {
    if tiles != [] {
      var n := |tiles| - 1;
      assert tiles[n].value == tile;
      SwitchIsNotHit(tiles[..n], tile, orig, e, touching, ninja, t);
    }
  }

  // ---------------------------------------------------------------- shifters

  /** A shifter moves by its distance and reverses what it says; the same one the other way round undoes it. */
  lemma ShifterMoves(s: Shifter, pos: Vec, vel: Vec)
    ensures var (p, v) := Shift(Some(s), pos, vel);
            && p.x - pos.x == s.dx as real && p.y - pos.y == s.dy as real
            && v.x == (if s.invertX then -vel.x else vel.x) && v.y == (if s.invertY then -vel.y else vel.y)
            && Shift(Some(Shifter(-s.dx, -s.dy, s.invertX, s.invertY)), p, v) == (pos, vel)
    ensures Shift(None, pos, vel) == (pos, vel)
  {
  }
}
