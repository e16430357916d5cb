/**
  Who hooks whom (src/game/gamecore.cpp): a character core knows the player it hooked, and the players
  attached to it. SetHookedPlayer keeps both in step; Reset forgets only its own attached players.
  */
module HookedPlayers {

  const MAX_CLIENTS := 128

  /** The fields of the cores of a world, by client id; those of missing cores do not matter. */
  datatype Links = Links(present: seq<bool>, hooked: seq<int>, attached: seq<set<int>>) {
    predicate Valid() {
      && |present| == |hooked| == |attached| == MAX_CLIENTS
      && (forall i :: 0 <= i < MAX_CLIENTS ==> -1 <= hooked[i] < MAX_CLIENTS)
    }

    predicate Has(i: int)
      requires Valid()
    {
      0 <= i < MAX_CLIENTS && present[i]
    }
  }

  // ---------------------------------------------------------------- operations

  function Detach(l: Links, i: int, j: int): (r: Links)
    requires l.Valid()
    ensures r.Valid() && r.present == l.present && r.hooked == l.hooked
  {
    if l.Has(j) then l.(attached := l.attached[j := l.attached[j] - {i}]) else l
  }

  function Attach(l: Links, i: int, j: int): (r: Links)
    requires l.Valid()
    ensures r.Valid() && r.present == l.present && r.hooked == l.hooked
  {
    if l.Has(j) then l.(attached := l.attached[j := l.attached[j] + {i}]) else l
  }

  /** Who is attached after a core with id i has changed from one player to another. */
  function Moved(l: Links, i: int, from: int, to: int): (r: Links)
    requires l.Valid()
    ensures r.Valid() && r.present == l.present && r.hooked == l.hooked
  {
    if from == to then l else Attach(Detach(l, i, from), i, to)
  }

  /** Core i hooks player j, or nobody (-1); nothing happens if it already does. */
  function SetHooked(l: Links, i: int, j: int): (r: Links)
    requires l.Valid() && l.Has(i) && -1 <= j < MAX_CLIENTS
    ensures r.Valid() && r.present == l.present
  {
    var m := Moved(l, i, l.hooked[i], j);
    m.(hooked := m.hooked[i := j])
  }

  function ResetCore(l: Links, i: int): (r: Links)
    requires l.Valid() && l.Has(i)
    ensures r.Valid() && r.present == l.present
  {
    var m := SetHooked(l, i, -1);
    m.(attached := m.attached[i := {}])
  }

  /** Read sets the hooked player from a snapshot. */
  datatype Op = SetHookedPlayer(i: int, j: int) | Read(i: int, j: int) | Reset(i: int)

  predicate ValidOp(present: seq<bool>, op: Op)
    requires |present| == MAX_CLIENTS
  {
    && 0 <= op.i < MAX_CLIENTS && present[op.i]
    && (op.Reset? || -1 <= op.j < MAX_CLIENTS)
  }

  function Do(l: Links, op: Op): (r: Links)
    requires l.Valid() && ValidOp(l.present, op)
    ensures r.Valid() && r.present == l.present
  {
    if op.Reset? then ResetCore(l, op.i) else SetHooked(l, op.i, op.j)
  }

  /** Cores that hook nobody. */
  function Initial(present: seq<bool>): (r: Links)
    requires |present| == MAX_CLIENTS
    ensures r.Valid() && r.present == present
  {
    Links(present, seq(MAX_CLIENTS, _ => -1), seq(MAX_CLIENTS, _ => {}))
  }

  predicate ValidOps(present: seq<bool>, ops: seq<Op>) {
    |present| == MAX_CLIENTS && forall k :: 0 <= k < |ops| ==> ValidOp(present, ops[k])
  }

  function Run(present: seq<bool>, ops: seq<Op>): (r: Links)
    requires ValidOps(present, ops)
    ensures r.Valid() && r.present == present
  {
    if ops == [] then Initial(present) else Do(Run(present, ops[..|ops| - 1]), ops[|ops| - 1])
  }

  /** The player that core i was last told to hook, or nobody. */
  function LastRequest(ops: seq<Op>, i: int): int {
    if ops == [] then -1
    else
      var op := ops[|ops| - 1];
      if op.i != i then LastRequest(ops[..|ops| - 1], i) else if op.Reset? then -1 else op.j
  }

  /** Over every run, a core hooks the player it was last told to, and resetting another one does not change that. */
  lemma {:induction false} HookedIsLastRequest(present: seq<bool>, ops: seq<Op>, i: int)
    requires ValidOps(present, ops) && 0 <= i < MAX_CLIENTS
    ensures Run(present, ops).hooked[i] == LastRequest(ops, i)
  {
    if ops != [] {
      HookedIsLastRequest(present, ops[..|ops| - 1], i);
    }
  }

  // ---------------------------------------------------------------- attached means hooked

  predicate IsAttached(l: Links, i: int, j: int)
    requires l.Valid()
  {
    l.Has(j) && i in l.attached[j]
  }

  predicate IsHooked(l: Links, i: int, j: int)
    requires l.Valid()
  {
    l.Has(i) && l.hooked[i] == j
  }

  /** Attached players hook the player they are attached to. */
  ghost predicate AttachedAreHooked(l: Links)
    requires l.Valid()
  {
    forall i, j {:trigger IsAttached(l, i, j)} :: IsAttached(l, i, j) ==> IsHooked(l, i, j)
  }

  /** The two relations between the cores coincide. */
  ghost predicate Coincide(l: Links)
    requires l.Valid()
  {
    forall i, j {:trigger IsAttached(l, i, j)} :: l.Has(j) ==> (IsAttached(l, i, j) <==> IsHooked(l, i, j))
  }

  lemma DoKeepsAttached(l: Links, op: Op)
    requires l.Valid() && ValidOp(l.present, op) && AttachedAreHooked(l)
    ensures AttachedAreHooked(Do(l, op))
  {
    var r := Do(l, op);
    forall i, j {:trigger IsAttached(r, i, j)} | IsAttached(r, i, j) ensures IsHooked(r, i, j) {
      assert IsAttached(l, i, j) || (i == op.i && r.hooked[i] == j);
    }
  }

  /** Over every run, i in attached(j) implies hooked(i) = j. */
  lemma {:induction false} AttachedMeansHooked(present: seq<bool>, ops: seq<Op>)
    requires ValidOps(present, ops)
    ensures AttachedAreHooked(Run(present, ops))
  {
    if ops != [] {
      AttachedMeansHooked(present, ops[..|ops| - 1]);
      DoKeepsAttached(Run(present, ops[..|ops| - 1]), ops[|ops| - 1]);
    }
  }

  /** So no player is attached to two others. */
  lemma AttachedToOne(present: seq<bool>, ops: seq<Op>, i: int, j: int, k: int)
    requires ValidOps(present, ops)
    ensures var l := Run(present, ops);
            IsAttached(l, i, j) && IsAttached(l, i, k) ==> j == k
  {
    AttachedMeansHooked(present, ops);
  }

  // ---------------------------------------------------------------- when hooked means attached

  /** Whether the player hooked by i was reset after i hooked it. */
  predicate Forgotten(present: seq<bool>, ops: seq<Op>, i: int)
    requires ValidOps(present, ops)
  {
    if ops == [] then false
    else
      var l, op := Run(present, ops[..|ops| - 1]), ops[|ops| - 1];
      if !l.Has(i) then false
      else if Do(l, op).hooked[i] != l.hooked[i] then false
      else (op.Reset? && op.i == l.hooked[i]) || Forgotten(present, ops[..|ops| - 1], i)
  }

  lemma DoAttached(l: Links, op: Op, i: int, j: int)
    requires l.Valid() && ValidOp(l.present, op) && l.Has(i) && l.Has(j) && AttachedAreHooked(l)
    ensures var r := Do(l, op);
            IsAttached(r, i, j) <==>
            r.hooked[i] == j && (l.hooked[i] != j || (IsAttached(l, i, j) && op != Reset(j)))
  {
    assert IsAttached(l, i, j) ==> IsHooked(l, i, j);
  }

  /** Over every run, i is attached to j exactly if it hooks j and j was not reset since. */
  lemma {:induction false} AttachedIffNotForgotten(present: seq<bool>, ops: seq<Op>, i: int, j: int)
    requires ValidOps(present, ops)
    ensures var l := Run(present, ops);
            l.Has(i) && l.Has(j) ==> (IsAttached(l, i, j) <==> l.hooked[i] == j && !Forgotten(present, ops, i))
  {
    var l := Run(present, ops);
    if ops != [] && l.Has(i) && l.Has(j) {
      var before, op := Run(present, ops[..|ops| - 1]), ops[|ops| - 1];
      AttachedIffNotForgotten(present, ops[..|ops| - 1], i, j);
      AttachedMeansHooked(present, ops[..|ops| - 1]);
      DoAttached(before, op, i, j);
    }
  }

  lemma {:induction false} NothingForgotten(present: seq<bool>, ops: seq<Op>, i: int)
    requires ValidOps(present, ops) && forall k :: 0 <= k < |ops| ==> !ops[k].Reset?
    ensures !Forgotten(present, ops, i)
  {
    if ops != [] {
      NothingForgotten(present, ops[..|ops| - 1], i);
    }
  }

  /** In a run without Reset the two relations coincide. */
  lemma CoincideWithoutReset(present: seq<bool>, ops: seq<Op>)
    requires ValidOps(present, ops) && forall k :: 0 <= k < |ops| ==> !ops[k].Reset?
    ensures Coincide(Run(present, ops))
  {
    var l := Run(present, ops);
    AttachedMeansHooked(present, ops);
    forall i, j {:trigger IsAttached(l, i, j)} | l.Has(j) ensures IsAttached(l, i, j) <==> IsHooked(l, i, j) {
      AttachedIffNotForgotten(present, ops, i, j);
      NothingForgotten(present, ops, i);
    }
  }

  /** A Reset keeps them coinciding exactly if no other player hooks the one that is reset. */
  lemma ResetCoincidesIff(l: Links, j: int)
    requires l.Valid() && l.Has(j) && Coincide(l)
    ensures Coincide(ResetCore(l, j)) <==> forall i :: i != j ==> !IsHooked(l, i, j)
  {
    var r := ResetCore(l, j);
    if i :| i != j && IsHooked(l, i, j) {
      assert IsHooked(r, i, j) && !IsAttached(r, i, j);
    } else {
      forall i, k {:trigger IsAttached(r, i, k)} | r.Has(k) ensures IsAttached(r, i, k) <==> IsHooked(r, i, k) {
        assert IsAttached(l, i, k) <==> IsHooked(l, i, k);
        assert IsAttached(r, i, k) <==> k != j && i != j && IsAttached(l, i, k);
      }
    }
  }

  /** Core 0 hooks core 1, which is reset: core 0 hooks it still, and is not attached, even if it hooks it again. */
  lemma ResetBreaksLinks(present: seq<bool>, ops: seq<Op>)
    requires |present| == MAX_CLIENTS && present[0] && present[1]
    requires ops == [SetHookedPlayer(0, 1), Reset(1)] || ops == [SetHookedPlayer(0, 1), Reset(1), SetHookedPlayer(0, 1)]
    ensures ValidOps(present, ops)
    ensures var l := Run(present, ops); IsHooked(l, 0, 1) && !IsAttached(l, 0, 1) && !Coincide(l)
  {
    var one, two := [SetHookedPlayer(0, 1)], [SetHookedPlayer(0, 1), Reset(1)];
    assert one[..0] == [] && two[..1] == one && (|ops| == 3 ==> ops[..2] == two);
    assert Run(present, one) == SetHooked(Initial(present), 0, 1);
    assert Run(present, two) == ResetCore(Run(present, one), 1);
    assert Run(present, two).hooked[0] == 1;
    assert |ops| == 3 ==> Run(present, ops) == SetHooked(Run(present, two), 0, 1);
    assert !IsAttached(Run(present, ops), 0, 1);
  }

  // ---------------------------------------------------------------- the code

  /** m_apCharacters: the cores by client id. */
  class WorldCore {
    const cores: seq<CharacterCore?>

    constructor (cores: seq<CharacterCore?>)
      ensures this.cores == cores
    {
      this.cores := cores;
    }

    ghost function Cores(): set<object>
    {
      set i | 0 <= i < |cores| && cores[i] != null :: cores[i]
    }

    /** Every core has the id under which it is found. */
    ghost predicate Valid()
    {
      && |cores| == MAX_CLIENTS
      && forall i :: 0 <= i < MAX_CLIENTS && cores[i] != null ==> (cores[i] as CharacterCore).id == i
    }

    /** The fields of the cores are those of l. */
    ghost predicate Is(l: Links)
      requires Valid() && l.Valid()
      reads Cores()
    {
      forall i :: 0 <= i < MAX_CLIENTS ==>
        (l.present[i] <==> cores[i] != null)
        && (cores[i] != null ==> cores[i].hookedPlayer == l.hooked[i] && cores[i].attachedPlayers == l.attached[i])
    }
  }

  class CharacterCore {
    const id: int
    var hookedPlayer: int
    var attachedPlayers: set<int>

    constructor (id: int)
      ensures this.id == id && hookedPlayer == -1 && attachedPlayers == {}
    {
      this.id := id;
      hookedPlayer, attachedPlayers := -1, {};
    }

    /** A core without an id or without a world only remembers whom it hooks. */
    predicate Alone(world: WorldCore?) {
      world == null || id == -1
    }

    /** What its world knows: cores with the fields l, among them this one, or not. */
    ghost predicate Knows(world: WorldCore, l: Links)
      reads this, world.Cores()
    {
      && world.Valid() && l.Valid() && world.Is(l) && -1 <= hookedPlayer < MAX_CLIENTS
      && (this in world.Cores() ==> 0 <= id < MAX_CLIENTS && world.cores[id] == this)
    }

    /** The world after this core has changed its hooked player from one to another. */
    ghost predicate HasMoved(world: WorldCore, l: Links, from: int, to: int)
      requires l.Valid() && world.Valid() && -1 <= to < MAX_CLIENTS && (this in world.Cores() ==> l.Has(id))
      reads world.Cores()
    {
      world.Is(if this in world.Cores() then SetHooked(l, id, to) else Moved(l, id, from, to))
    }

    /** m_AttachedPlayers of a player loses the id of this core. */
    method EraseFrom(world: WorldCore, player: int, ghost l: Links)
      requires world.Valid() && l.Valid() && world.Is(l) && 0 <= player < MAX_CLIENTS
      modifies world.Cores()
      ensures world.Is(Detach(l, id, player)) && hookedPlayer == old(hookedPlayer)
      ensures this !in world.Cores() ==> attachedPlayers == old(attachedPlayers)
    {
      var core := world.cores[player];
      if core != null {
        core.attachedPlayers := core.attachedPlayers - {id};
      }
    }

    /** m_AttachedPlayers of a player gets the id of this core. */
    method InsertInto(world: WorldCore, player: int, ghost l: Links)
      requires world.Valid() && l.Valid() && world.Is(l) && 0 <= player < MAX_CLIENTS
      modifies world.Cores()
      ensures world.Is(Attach(l, id, player)) && hookedPlayer == old(hookedPlayer)
      ensures this !in world.Cores() ==> attachedPlayers == old(attachedPlayers)
    {
      var core := world.cores[player];
      if core != null {
        core.attachedPlayers := core.attachedPlayers + {id};
      }
    }

    method SetHookedPlayer(world: WorldCore?, player: int, ghost l: Links)
      requires -1 <= player < MAX_CLIENTS && (Alone(world) || Knows(world, l))
      modifies {this} + if Alone(world) then {} else world.Cores()
      ensures hookedPlayer == player
      ensures Alone(world) || this !in world.Cores() ==> attachedPlayers == old(attachedPlayers)
      ensures !Alone(world) ==> HasMoved(world, l, old(hookedPlayer), player)
    {
      ghost var from := hookedPlayer;
      assert !Alone(world) && this in world.Cores() ==> from == l.hooked[id];
      if player != hookedPlayer {
        if hookedPlayer != -1 && id != -1 && world != null {
          EraseFrom(world, hookedPlayer, l);
        }
        assert !Alone(world) ==> world.Is(Detach(l, id, from));
        if player != -1 && id != -1 && world != null {
          InsertInto(world, player, Detach(l, id, from));
        }
        assert !Alone(world) ==> world.Is(Attach(Detach(l, id, from), id, player));
        hookedPlayer := player;
      }
    }

    method ResetHook(world: WorldCore?, ghost l: Links)
      requires Alone(world) || Knows(world, l)
      modifies {this} + if Alone(world) then {} else world.Cores()
      ensures hookedPlayer == -1 && attachedPlayers == {}
      ensures !Alone(world) && this in world.Cores() ==> world.Is(ResetCore(l, id))
      ensures !Alone(world) && this !in world.Cores() ==> world.Is(Moved(l, id, old(hookedPlayer), -1))
    {
      SetHookedPlayer(world, -1, l);
      attachedPlayers := {};
    }

    /** Read, as far as it concerns the hooked player. */
    method Read(world: WorldCore?, netHookedPlayer: int, ghost l: Links)
      requires -1 <= netHookedPlayer < MAX_CLIENTS && (Alone(world) || Knows(world, l))
      modifies {this} + if Alone(world) then {} else world.Cores()
      ensures hookedPlayer == netHookedPlayer
      ensures Alone(world) || this !in world.Cores() ==> attachedPlayers == old(attachedPlayers)
      ensures !Alone(world) && this in world.Cores() ==> world.Is(Do(l, Op.Read(id, netHookedPlayer)))
      ensures !Alone(world) && this !in world.Cores() ==> world.Is(Moved(l, id, old(hookedPlayer), netHookedPlayer))
    {
      SetHookedPlayer(world, netHookedPlayer, l);
    }
  }
}
