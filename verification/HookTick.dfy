/**
  The hook of a character (src/game/gamecore.cpp, Reset and the hook part of Tick). Positions, tuning and the map
  decide what the hook hits; what they decide in a tick is a parameter of the tick.
  */
module HookTick {
  import opened Common

  const HOOK_RETRACTED := -1
  const HOOK_IDLE := 0
  const HOOK_RETRACT_START := 1
  const HOOK_RETRACT_END := 3
  const HOOK_FLYING := 4
  const HOOK_GRABBED := 5

  const SERVER_TICK_SPEED := 50
  const MAX_CLIENTS := 128

  /** What the hook meets on its way in one tick, players aside. */
  datatype Hit = Nothing | Ground | NoHook | Tele(hasOut: bool)

  /** The surroundings of the hook in one tick. */
  datatype Env = Env(
    useInput: bool,
    hookInput: bool,
    hookDuration: real,
    tooLong: bool,                  // the hook would become longer than allowed
    hit: Hit,
    mayHook: bool,                  // players can be hooked, and hooking is not disabled for this one
    inReach: seq<Option<real>>,     // for each player that can be hooked and is near the hook's path, the distance
    present: seq<bool>,             // the players that exist
    canKeep: seq<bool>,             // the players a hook on whom may be kept
    deferred: bool                  // DoDeferredTick
  )

  predicate ValidEnv(e: Env) {
    |e.inReach| == MAX_CLIENTS && |e.present| == MAX_CLIENTS && |e.canKeep| == MAX_CLIENTS
  }

  /** m_HookState, m_HookTick, m_HookedPlayer and m_NewHook. */
  datatype Hook = Hook(state: int, tick: int, player: int, newHook: bool)

  /** The tick count at which a hook starts: the default duration is 1.25 seconds. */
  function LaunchTick(hookDuration: real): int {
    Truncate(50.0 * (1.25 - hookDuration))
  }

  // ---------------------------------------------------------------- one tick

  predicate Launches(h: Hook, e: Env) {
    e.useInput && e.hookInput && h.state == HOOK_IDLE
  }

  predicate Releases(e: Env) {
    e.useInput && !e.hookInput
  }

  function AfterInput(h: Hook, e: Env): Hook {
    if Launches(h, e) then h.(state := HOOK_FLYING, player := -1, tick := LaunchTick(e.hookDuration))
    else if Releases(e) then h.(state := HOOK_IDLE, player := -1)
    else h
  }

  /** The nearest of the players in reach, and of several the one with the lowest number; -1 if there is none. */
  function Nearest(inReach: seq<Option<real>>): (r: int)
    ensures -1 <= r < |inReach|
    ensures r >= 0 ==> inReach[r].Some?
  {
    if inReach == [] then -1
    else
      var n := |inReach| - 1;
      var r := Nearest(inReach[..n]);
      if inReach[n].Some? && (r == -1 || inReach[n].value < inReach[r].value) then n else r
  }

  lemma {:induction false} NearestIsNearest(inReach: seq<Option<real>>)
    ensures var r := Nearest(inReach);
            if r == -1 then forall i :: 0 <= i < |inReach| ==> inReach[i].None?
            else forall i :: 0 <= i < |inReach| && inReach[i].Some? ==>
                   inReach[r].value <= inReach[i].value && (i < r ==> inReach[r].value < inReach[i].value)
  {
    if inReach != [] {
      var n := |inReach| - 1;
      NearestIsNearest(inReach[..n]);
      assert forall i :: 0 <= i < n ==> inReach[i] == inReach[..n][i];
    }
  }

  /** A flying hook first tries the players; it can still catch one when it is about to retract. */
  function AfterFlight(h: Hook, e: Env, world: bool): Hook
    requires ValidEnv(e)
  {
    var state := if e.tooLong then HOOK_RETRACT_START else h.state;
    var victim := if e.mayHook && world && (state == HOOK_FLYING || !h.newHook) then Nearest(e.inReach) else -1;
    if victim != -1 then h.(state := HOOK_GRABBED, player := victim)
    else if state != HOOK_FLYING then h.(state := state)
    else if e.hit == Ground then h.(state := HOOK_GRABBED)
    else if e.hit == NoHook then h.(state := HOOK_RETRACT_START)
    else if e.hit.Tele? && e.hit.hasOut && world then h.(player := -1, newHook := true)
    else h
  }

  function AfterHook(h: Hook, e: Env, world: bool): Hook
    requires ValidEnv(e)
  {
    if h.state == HOOK_IDLE then h.(player := -1)
    else if HOOK_RETRACT_START <= h.state < HOOK_RETRACT_END then h.(state := h.state + 1)
    else if h.state == HOOK_RETRACT_END then h.(state := HOOK_RETRACTED)
    else if h.state == HOOK_FLYING then AfterFlight(h, e, world)
    else h
  }

  /** A grabbed hook counts, and loses a player who is gone, must not be kept, or was held too long. */
  function AfterGrab(h: Hook, e: Env, world: bool, id: int): Hook
    requires ValidEnv(e) && -1 <= h.player < MAX_CLIENTS
  {
    if h.state != HOOK_GRABBED then h
    else
      var lost := h.player != -1 && world && !(e.present[h.player] && id != -1 && e.canKeep[h.player]);
      var late := h.player != -1 && h.tick + 1 > SERVER_TICK_SPEED + SERVER_TICK_SPEED / 5;
      if lost || late then Hook(HOOK_RETRACTED, h.tick + 1, -1, h.newHook)
      else h.(tick := h.tick + 1)
  }

  function AfterDeferred(h: Hook, e: Env, world: bool): Hook {
    if e.deferred && world && h.state != HOOK_FLYING then h.(newHook := false) else h
  }

  function Next(h: Hook, e: Env, world: bool, id: int): Hook
    requires ValidEnv(e) && -1 <= h.player < MAX_CLIENTS
  {
    AfterDeferred(AfterGrab(AfterHook(AfterInput(h, e), e, world), e, world, id), e, world)
  }

  const RESET := Hook(HOOK_IDLE, 0, -1, false)

  // ---------------------------------------------------------------- what every tick keeps

  /** A player is held only by a grabbed hook, of a character in a world, and not for too long. */
  predicate Inv(h: Hook, world: bool, id: int) {
    && HOOK_RETRACTED <= h.state <= HOOK_GRABBED
    && -1 <= h.player < MAX_CLIENTS
    && (h.player != -1 ==> h.state == HOOK_GRABBED && h.tick <= 60 && world && id != -1)
  }

  lemma TickKeepsInv(h: Hook, e: Env, world: bool, id: int)
    requires ValidEnv(e) && Inv(h, world, id)
    ensures Inv(Next(h, e, world, id), world, id)
  {
  }

  /** The states after 0, 1, ... ticks. */
  ghost predicate IsRun(run: seq<Hook>, envs: seq<Env>, world: bool, id: int) {
    && |run| == |envs| + 1 && run[0] == RESET
    && (forall i :: 0 <= i < |envs| ==> ValidEnv(envs[i]))
    && forall i {:trigger envs[i]} :: 0 <= i < |envs| ==>
         -1 <= run[i].player < MAX_CLIENTS && run[i + 1] == Next(run[i], envs[i], world, id)
  }

  /** In every run, a hooked player implies a grabbed hook with a tick count of at most 60. */
  lemma {:induction false} HookedMeansGrabbed(run: seq<Hook>, envs: seq<Env>, world: bool, id: int, i: nat)
    requires IsRun(run, envs, world, id) && i < |run|
    ensures Inv(run[i], world, id)
  {
    if i > 0 {
      HookedMeansGrabbed(run, envs, world, id, i - 1);
      TickKeepsInv(run[i - 1], envs[i - 1], world, id);
      assert run[i - 1 + 1] == Next(run[i - 1], envs[i - 1], world, id);
    }
  }

  // ---------------------------------------------------------------- how long a player is held

  /** The number of ticks up to i after which the hook held a player without a break. */
  function TicksHeld(run: seq<Hook>, i: nat): nat
    requires i < |run|
  {
    if run[i].player == -1 then 0 else 1 + if i == 0 then 0 else TicksHeld(run, i - 1)
  }

  /** The tick count the last hook before tick i was launched with. */
  function LastLaunch(run: seq<Hook>, envs: seq<Env>, i: nat): int
    requires i <= |envs| && i < |run|
  {
    if i == 0 then 0
    else if Launches(run[i - 1], envs[i - 1]) then LaunchTick(envs[i - 1].hookDuration)
    else LastLaunch(run, envs, i - 1)
  }

  /** What a tick does to the count of a hook that flies or holds a player. */
  lemma CountOfTick(h: Hook, e: Env, world: bool, id: int)
    requires ValidEnv(e) && Inv(h, world, id)
    ensures var h' := Next(h, e, world, id);
            var start := if Launches(h, e) then LaunchTick(e.hookDuration) else h.tick;
            && (h'.state == HOOK_FLYING ==> h'.tick == start && (Launches(h, e) || h.state == HOOK_FLYING))
            && (h'.player != -1 ==>
                  && h'.tick == start + 1
                  && (h.player == h'.player || (h.player == -1 && (Launches(h, e) || h.state == HOOK_FLYING))))
  {
  }

  lemma {:induction false} HeldCount(run: seq<Hook>, envs: seq<Env>, world: bool, id: int, i: nat)
    requires IsRun(run, envs, world, id) && i < |run|
    ensures run[i].state == HOOK_FLYING || run[i].player != -1 ==>
              run[i].tick == LastLaunch(run, envs, i) + TicksHeld(run, i)
  {
    HookedMeansGrabbed(run, envs, world, id, i);
    if i > 0 {
      var h, e := run[i - 1], envs[i - 1];
      HookedMeansGrabbed(run, envs, world, id, i - 1);
      HeldCount(run, envs, world, id, i - 1);
      CountOfTick(h, e, world, id);
      assert run[i - 1 + 1] == Next(h, e, world, id);
    }
  }

  /** No player is held for more ticks than the launch of the hook leaves until tick 60. */
  lemma HoldIsBounded(run: seq<Hook>, envs: seq<Env>, world: bool, id: int, i: nat)
    requires IsRun(run, envs, world, id) && i < |run|
    ensures run[i].player != -1 ==> TicksHeld(run, i) <= 60 - LastLaunch(run, envs, i)
  {
    HeldCount(run, envs, world, id, i);
    HookedMeansGrabbed(run, envs, world, id, i);
  }

  lemma LaunchNotNegative(hookDuration: real)
    ensures hookDuration <= 1.25 ==> LaunchTick(hookDuration) >= 0
  {
  }

  lemma {:induction false} LaunchesNotNegative(run: seq<Hook>, envs: seq<Env>, i: nat)
    requires i <= |envs| && i < |run| && forall k :: 0 <= k < |envs| ==> envs[k].hookDuration <= 1.25
    ensures LastLaunch(run, envs, i) >= 0
  {
    if i > 0 {
      LaunchNotNegative(envs[i - 1].hookDuration);
      LaunchesNotNegative(run, envs, i - 1);
    }
  }

  /** With the default tuning of 1.25 seconds, or less, no player is held for more than 60 ticks. */
  lemma DefaultHold(run: seq<Hook>, envs: seq<Env>, world: bool, id: int, i: nat)
    requires IsRun(run, envs, world, id) && i < |run|
    requires forall k :: 0 <= k < |envs| ==> envs[k].hookDuration <= 1.25
    ensures TicksHeld(run, i) <= 60
  {
    if run[i].player != -1 {
      HoldIsBounded(run, envs, world, id, i);
      LaunchesNotNegative(run, envs, i);
    }
  }

  // ---------------------------------------------------------------- flights

  /** A hook that flies after a tick flew before it or was launched in it, from idle. */
  lemma FlightFromIdle(h: Hook, e: Env, world: bool, id: int)
    requires ValidEnv(e) && Inv(h, world, id)
    ensures var h' := Next(h, e, world, id);
            && (h'.state == HOOK_FLYING ==> h.state == HOOK_FLYING || Launches(h, e))
            && (h'.state == HOOK_IDLE ==> Releases(e) || (h.state == HOOK_IDLE && !Launches(h, e)))
  {
  }

  /** Between two launches there is a tick in which the hook input is released. */
  lemma LaunchesNeedRelease(run: seq<Hook>, envs: seq<Env>, world: bool, id: int, i: nat, j: nat)
    requires IsRun(run, envs, world, id) && i < j < |envs|
    requires Launches(run[i], envs[i]) && Launches(run[j], envs[j])
    ensures exists k :: i < k < j && Releases(envs[k])
  {
    if forall k :: i < k < j ==> !Releases(envs[k]) {
      NotIdleUntilRelease(run, envs, world, id, i, j);
    }
  }

  lemma {:induction false} NotIdleUntilRelease(run: seq<Hook>, envs: seq<Env>, world: bool, id: int, i: nat, j: nat)
    requires IsRun(run, envs, world, id) && i < j < |run|
    requires Launches(run[i], envs[i]) && forall k :: i < k < j ==> !Releases(envs[k])
    ensures run[j].state != HOOK_IDLE
    decreases j
  {
    HookedMeansGrabbed(run, envs, world, id, j - 1);
    assert run[j - 1 + 1] == Next(run[j - 1], envs[j - 1], world, id);
    FlightFromIdle(run[j - 1], envs[j - 1], world, id);
    if j - 1 > i {
      NotIdleUntilRelease(run, envs, world, id, i, j - 1);
    }
  }

  /** A hook that starts to retract is back after three ticks, unless it is released before. */
  lemma RetractionTakesThreeTicks(run: seq<Hook>, envs: seq<Env>, world: bool, id: int, i: nat)
    requires IsRun(run, envs, world, id) && i + 3 < |run| && run[i].state == HOOK_RETRACT_START
    requires forall k :: i <= k < i + 3 ==> !Releases(envs[k])
    ensures run[i + 1].state == 2 && run[i + 2].state == HOOK_RETRACT_END && run[i + 3].state == HOOK_RETRACTED
  {
    assert run[i + 1] == Next(run[i], envs[i], world, id);
    assert run[i + 1 + 1] == Next(run[i + 1], envs[i + 1], world, id);
    assert run[i + 2 + 1] == Next(run[i + 2], envs[i + 2], world, id);
  }

  // ---------------------------------------------------------------- the code

  class HookCore {
    var hookState: int
    var hookTick: int
    var hookedPlayer: int
    var newHook: bool
    const world: bool  // whether there is a world
    const id: int

    ghost function Value(): Hook
      reads this
    {
      Hook(hookState, hookTick, hookedPlayer, newHook)
    }

    ghost predicate Valid()
      reads this
    {
      Inv(Value(), world, id)
    }

    constructor (world: bool, id: int)
      ensures this.world == world && this.id == id
      ensures Valid() && Value() == RESET
    {
      this.world, this.id := world, id;
      hookState, hookTick, hookedPlayer, newHook := HOOK_IDLE, 0, -1, false;
    }

    method Reset()
      modifies this
      ensures Valid() && Value() == RESET
    {
      newHook := false;
      hookTick := 0;
      hookState := HOOK_IDLE;
      hookedPlayer := -1;
    }

    method HandleInput(e: Env)
      modifies this
      ensures Value() == AfterInput(old(Value()), e)
    {
      if e.useInput {
        if e.hookInput {
          if hookState == HOOK_IDLE {
            hookState := HOOK_FLYING;
            hookedPlayer := -1;
            hookTick := LaunchTick(e.hookDuration);
          }
        } else {
          hookedPlayer := -1;
          hookState := HOOK_IDLE;
        }
      }
    }

    /** The loop over the players: of those in reach the hook takes the nearest. */
    method HookPlayers(inReach: seq<Option<real>>)
      requires hookedPlayer == -1
      modifies this
      ensures hookedPlayer == Nearest(inReach)
      ensures hookState == if hookedPlayer == -1 then old(hookState) else HOOK_GRABBED
      ensures hookTick == old(hookTick) && newHook == old(newHook)
    {
      var distance := 0.0;
      for i := 0 to |inReach|
        invariant hookedPlayer == Nearest(inReach[..i])
        invariant hookedPlayer != -1 ==> distance == inReach[hookedPlayer].value
        invariant hookState == if hookedPlayer == -1 then old(hookState) else HOOK_GRABBED
        invariant hookTick == old(hookTick) && newHook == old(newHook)
      {
        assert inReach[..i + 1][..i] == inReach[..i];
        if inReach[i].Some? {
          if hookedPlayer == -1 || inReach[i].value < distance {
            hookState := HOOK_GRABBED;
            hookedPlayer := i;
            distance := inReach[i].value;
          }
        }
      }
      assert inReach[..|inReach|] == inReach;
    }

    method Fly(e: Env)
      requires ValidEnv(e) && hookState == HOOK_FLYING && hookedPlayer == -1
      modifies this
      ensures Value() == AfterFlight(old(Value()), e, world)
    {
      if e.tooLong {
        hookState := HOOK_RETRACT_START;
      }
      if e.mayHook && world && (hookState == HOOK_FLYING || !newHook) {
        HookPlayers(e.inReach);
      }
      if hookState == HOOK_FLYING {
        if e.hit == Ground {
          hookState := HOOK_GRABBED;
        } else if e.hit == NoHook {
          hookState := HOOK_RETRACT_START;
        }
        if e.hit.Tele? && world && e.hit.hasOut {
          hookedPlayer := -1;
          newHook := true;
        }
      }
    }

    method DoHook(e: Env)
      requires ValidEnv(e) && (hookState == HOOK_FLYING ==> hookedPlayer == -1)
      modifies this
      ensures Value() == AfterHook(old(Value()), e, world)
    {
      if hookState == HOOK_IDLE {
        hookedPlayer := -1;
      } else if HOOK_RETRACT_START <= hookState < HOOK_RETRACT_END {
        hookState := hookState + 1;
      } else if hookState == HOOK_RETRACT_END {
        hookState := HOOK_RETRACTED;
      } else if hookState == HOOK_FLYING {
        Fly(e);
      }
    }

    method Hold(e: Env)
      requires ValidEnv(e) && -1 <= hookedPlayer < MAX_CLIENTS
      modifies this
      ensures Value() == AfterGrab(old(Value()), e, world, id)
    {
      if hookState == HOOK_GRABBED {
        if hookedPlayer != -1 && world {
          if !(e.present[hookedPlayer] && id != -1 && e.canKeep[hookedPlayer]) {
            hookedPlayer := -1;
            hookState := HOOK_RETRACTED;
          }
        }
        hookTick := hookTick + 1;
        if hookedPlayer != -1
           && (hookTick > SERVER_TICK_SPEED + SERVER_TICK_SPEED / 5 || (world && !e.present[hookedPlayer])) {
          hookedPlayer := -1;
          hookState := HOOK_RETRACTED;
        }
      }
    }

    method TickDeferred(e: Env)
      requires e.deferred
      modifies this
      ensures Value() == AfterDeferred(old(Value()), e, world)
    {
      if world {
        if hookState != HOOK_FLYING {
          newHook := false;
        }
      }
    }

    method Tick(e: Env)
      requires Valid() && ValidEnv(e)
      modifies this
      ensures Valid() && Value() == Next(old(Value()), e, world, id)
    {
      TickKeepsInv(Value(), e, world, id);
      HandleInput(e);
      DoHook(e);
      Hold(e);
      if e.deferred {
        TickDeferred(e);
      }
    }
  }
}
