/**
  What the hook does with what it meets (src/game/gamecore.cpp): the outcomes of a tick, and where a hook that
  holds on to something got it from, over every run.
  */
module HookLaws {
  import opened Common
  import opened HookTick

  // ---------------------------------------------------------------- one tick of a flying hook

  /** The hook flies in this tick: it flew before or is launched, and its input is not released. */
  predicate InFlight(h: Hook, e: Env) {
    !Releases(e) && (h.state == HOOK_FLYING || Launches(h, e))
  }

  predicate NobodyInReach(e: Env) {
    forall i :: 0 <= i < |e.inReach| ==> e.inReach[i].None?
  }

  /** Player i is in reach, and nobody in reach is nearer, or as near with a lower number. */
  predicate IsNearest(e: Env, i: int) {
    && 0 <= i < |e.inReach| && e.inReach[i].Some?
    && forall j :: 0 <= j < |e.inReach| && e.inReach[j].Some? ==>
         e.inReach[i].value <= e.inReach[j].value && (j < i ==> e.inReach[i].value < e.inReach[j].value)
  }

  lemma NearestOrNobody(e: Env)
    ensures if Nearest(e.inReach) == -1 then NobodyInReach(e) else IsNearest(e, Nearest(e.inReach))
  {
    NearestIsNearest(e.inReach);
  }

  /** Without a player to hook, what the hook hits decides: ground holds it, other solid tiles turn it back. */
  lemma HitDecides(h: Hook, e: Env, world: bool, id: int)
    requires ValidEnv(e) && Inv(h, world, id) && InFlight(h, e) && !e.tooLong
    requires NobodyInReach(e) || !e.mayHook || !world
    ensures var h' := Next(h, e, world, id);
            && (e.hit == Ground ==> h'.state == HOOK_GRABBED)
            && (e.hit == NoHook ==> h'.state == HOOK_RETRACT_START)
            && (e.hit == Nothing || e.hit.Tele? ==> h'.state == HOOK_FLYING)
            && h'.player == -1
  {
    NearestOrNobody(e);
  }

  /** A hook that has become too long turns back, whatever it hits, if it cannot hook a player any more. */
  lemma TooLongTurnsBack(h: Hook, e: Env, world: bool, id: int)
    requires ValidEnv(e) && Inv(h, world, id) && InFlight(h, e) && e.tooLong
    requires NobodyInReach(e) || !e.mayHook || !world || h.newHook
    ensures Next(h, e, world, id).state == HOOK_RETRACT_START && Next(h, e, world, id).player == -1
  {
    NearestOrNobody(e);
  }

  /** A player in reach is hooked before anything is hit, the nearest one, and held at the first count. */
  lemma NearestIsHooked(h: Hook, e: Env, world: bool, id: int, i: int)
    requires ValidEnv(e) && Inv(h, world, id) && InFlight(h, e) && (!e.tooLong || !h.newHook)
    requires e.mayHook && world && id != -1 && IsNearest(e, i) && e.present[i] && e.canKeep[i]
    requires (if Launches(h, e) then LaunchTick(e.hookDuration) else h.tick) < 60
    ensures Next(h, e, world, id).player == i && Next(h, e, world, id).state == HOOK_GRABBED
  {
    NearestOrNobody(e);
    assert Nearest(e.inReach) == i;
  }

  /** The hook passes a teleporter: nothing holds it, and there is a way out. */
  predicate Passes(h: Hook, e: Env, world: bool) {
    && InFlight(h, e) && !e.tooLong && world && e.hit.Tele? && e.hit.hasOut
    && (NobodyInReach(e) || !e.mayHook)
  }

  /** A hook is new from a teleporter on until the end of a tick in which it no longer flies. */
  lemma TeleporterMakesNew(h: Hook, e: Env, world: bool, id: int)
    requires ValidEnv(e) && Inv(h, world, id)
    ensures var h' := Next(h, e, world, id);
            h'.newHook <==> (h.newHook || Passes(h, e, world)) && (h'.state == HOOK_FLYING || !e.deferred || !world)
  {
    NearestOrNobody(e);
  }

  // ---------------------------------------------------------------- one tick of another hook

  lemma ReleaseLetsGo(h: Hook, e: Env, world: bool, id: int)
    requires ValidEnv(e) && Inv(h, world, id) && (Releases(e) || (h.state == HOOK_IDLE && !Launches(h, e)))
    ensures Next(h, e, world, id).state == HOOK_IDLE && Next(h, e, world, id).player == -1
  {
  }

  /** A hook in a wall holds until it is released. */
  lemma WallHolds(h: Hook, e: Env, world: bool, id: int)
    requires ValidEnv(e) && Inv(h, world, id) && !Releases(e) && h.state == HOOK_GRABBED && h.player == -1
    ensures var h' := Next(h, e, world, id); h'.state == HOOK_GRABBED && h'.player == -1 && h'.tick == h.tick + 1
  {
  }

  /** A player is held exactly as long as it is there, may be kept, and the count is not over. */
  lemma PlayerIsHeld(h: Hook, e: Env, world: bool, id: int)
    requires ValidEnv(e) && Inv(h, world, id) && !Releases(e) && h.player != -1
    ensures var h' := Next(h, e, world, id);
            if e.present[h.player] && e.canKeep[h.player] && h.tick < 60
            then h'.state == HOOK_GRABBED && h'.player == h.player
            else h'.state == HOOK_RETRACTED && h'.player == -1
  {
  }

  /** The count starts with the ticks by which the duration is shorter than 1.25 seconds, rounded towards zero. */
  lemma LaunchCount(duration: real)
    ensures duration <= 1.25 ==> 0.0 <= 50.0 * (1.25 - duration) - LaunchTick(duration) as real < 1.0
    ensures duration > 1.25 ==> -1.0 < 50.0 * (1.25 - duration) - LaunchTick(duration) as real <= 0.0
  {
  }

  // ---------------------------------------------------------------- runs

  /** From tick k, in which the hook was launched, up to tick i it was not released. */
  predicate LaunchedAt(run: seq<Hook>, envs: seq<Env>, k: nat, i: nat)
    requires i <= |envs| < |run|
  {
    k < i && Launches(run[k], envs[k]) && forall m :: k < m < i ==> !Releases(envs[m])
  }

  lemma Tick(run: seq<Hook>, envs: seq<Env>, world: bool, id: int, i: nat)
    requires IsRun(run, envs, world, id) && i < |envs|
    ensures ValidEnv(envs[i]) && Inv(run[i], world, id) && run[i + 1] == Next(run[i], envs[i], world, id)
  {
    HookedMeansGrabbed(run, envs, world, id, i);
    assert run[i + 1] == Next(run[i], envs[i], world, id);
  }

  lemma {:induction false} FlightWasLaunched(run: seq<Hook>, envs: seq<Env>, world: bool, id: int, i: nat)
    returns (k: nat)
    requires IsRun(run, envs, world, id) && i < |run| && run[i].state == HOOK_FLYING
    ensures LaunchedAt(run, envs, k, i)
  {
    Tick(run, envs, world, id, i - 1);
    StillFlying(run[i - 1], envs[i - 1], world, id);
    if Launches(run[i - 1], envs[i - 1]) {
      k := i - 1;
    } else {
      k := FlightWasLaunched(run, envs, world, id, i - 1);
    }
  }

  lemma StillFlying(h: Hook, e: Env, world: bool, id: int)
    requires ValidEnv(e) && Inv(h, world, id) && Next(h, e, world, id).state == HOOK_FLYING
    ensures InFlight(h, e)
  {
  }

  lemma FlightEndsAtTick(run: seq<Hook>, envs: seq<Env>, world: bool, id: int, j: nat) returns (k: nat)
    requires IsRun(run, envs, world, id) && j < |envs| && InFlight(run[j], envs[j])
    ensures LaunchedAt(run, envs, k, j + 1)
  {
    if Launches(run[j], envs[j]) {
      k := j;
    } else {
      k := FlightWasLaunched(run, envs, world, id, j);
    }
  }

  lemma GrabsWall(h: Hook, e: Env, world: bool, id: int)
    requires ValidEnv(e) && Inv(h, world, id)
    requires Next(h, e, world, id).state == HOOK_GRABBED && Next(h, e, world, id).player == -1
    ensures !Releases(e) && ((h.state == HOOK_GRABBED && h.player == -1) || (InFlight(h, e) && e.hit == Ground))
  {
  }

  /** In every run, a hook that holds a wall was launched, met ground in flight, and has not been released since. */
  lemma {:induction false} WallWasHit(run: seq<Hook>, envs: seq<Env>, world: bool, id: int, i: nat)
    returns (k: nat, j: nat)
    requires IsRun(run, envs, world, id) && i < |run| && run[i].state == HOOK_GRABBED && run[i].player == -1
    ensures LaunchedAt(run, envs, k, i) && k <= j < i
    ensures InFlight(run[j], envs[j]) && envs[j].hit == Ground
    ensures forall m :: j < m <= i ==> run[m].state == HOOK_GRABBED && run[m].player == -1
  {
    Tick(run, envs, world, id, i - 1);
    GrabsWall(run[i - 1], envs[i - 1], world, id);
    if run[i - 1].state == HOOK_GRABBED && run[i - 1].player == -1 {
      k, j := WallWasHit(run, envs, world, id, i - 1);
    } else {
      j := i - 1;
      k := FlightEndsAtTick(run, envs, world, id, j);
    }
  }

  lemma GrabsPlayer(h: Hook, e: Env, world: bool, id: int)
    requires ValidEnv(e) && Inv(h, world, id) && Next(h, e, world, id).player != -1
    ensures !Releases(e)
    ensures h.player == Next(h, e, world, id).player || (InFlight(h, e) && IsNearest(e, Next(h, e, world, id).player))
  {
    NearestOrNobody(e);
  }

  /** In every run, a hooked player was the nearest one in reach when the hook flew by, and was held ever since. */
  lemma {:induction false} PlayerWasNearest(run: seq<Hook>, envs: seq<Env>, world: bool, id: int, i: nat)
    returns (k: nat, j: nat)
    requires IsRun(run, envs, world, id) && i < |run| && run[i].player != -1
    ensures LaunchedAt(run, envs, k, i) && k <= j < i
    ensures InFlight(run[j], envs[j]) && IsNearest(envs[j], run[i].player)
    ensures forall m :: j < m <= i ==> run[m].player == run[i].player
  {
    Tick(run, envs, world, id, i - 1);
    GrabsPlayer(run[i - 1], envs[i - 1], world, id);
    if run[i - 1].player == run[i].player {
      k, j := PlayerWasNearest(run, envs, world, id, i - 1);
    } else {
      j := i - 1;
      k := FlightEndsAtTick(run, envs, world, id, j);
    }
  }
}
