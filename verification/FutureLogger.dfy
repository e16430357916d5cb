/**
  CFutureLogger (src/base/log.cpp): messages logged before a logger is installed are kept and
  handed over when Set is called. Any number of threads run Log while one thread runs Set once;
  every atomic load, lock, unlock, push and delivery is a step of its own.

  A message is represented by its ticket: the number of Log calls that began before it.
  */
module FutureLogger {
  import opened Common

  type Ticket = nat

  datatype LogPc =
    | Idle
    | Loading(t: Ticket)       // at the first, lock-free load of m_pLogger
    | Delivering(t: Ticket)    // saw a logger, about to call its Log
    | WantLock(t: Ticket)      // saw none
    | Locked(t: Ticket)        // owns m_PendingLock, at the second load
    | LockedDelivering(t: Ticket)
    | Unlocking                // owns m_PendingLock, message disposed of

  datatype SetPc =
    | NotCalled
    | SetLocked                // owns m_PendingLock
    | Flushing(next: nat)      // logger published; pending messages before `next` are delivered
    | Cleared
    | Done

  datatype Holder = Nobody | Setter | Logger(id: nat)

  datatype Delivery = Delivery(t: Ticket, flushed: bool)

  datatype State = State(
    holder: Holder,
    installed: bool,           // m_pLogger is not null
    pending: seq<Ticket>,      // m_vPending
    setter: SetPc,
    loggers: seq<LogPc>,
    // observations
    issued: nat,               // Log calls begun
    queued: seq<Ticket>,       // every push to m_vPending, in order
    delivered: seq<Delivery>   // calls of Log on the installed logger, in order
  )

  datatype Action = Begin(c: nat) | LogStep(c: nat) | SetStep

  function Init(n: nat): State {
    State(Nobody, false, [], NotCalled, seq(n, _ => Idle), 0, [], [])
  }

  function At(s: State, c: nat, pc: LogPc): State
    requires c < |s.loggers|
  {
    s.(loggers := s.loggers[c := pc])
  }

  function LogNext(s: State, c: nat): (r: Option<State>)
    requires c < |s.loggers|
  {
    match s.loggers[c]
    case Idle => None
    case Loading(t) => Some(At(s, c, if s.installed then Delivering(t) else WantLock(t)))
    case Delivering(t) => Some(At(s, c, Idle).(delivered := s.delivered + [Delivery(t, false)]))
    case WantLock(t) => if s.holder == Nobody then Some(At(s, c, Locked(t)).(holder := Logger(c))) else None
    case Locked(t) =>
      if s.installed then Some(At(s, c, LockedDelivering(t)))
      else Some(At(s, c, Unlocking).(pending := s.pending + [t], queued := s.queued + [t]))
    case LockedDelivering(t) => Some(At(s, c, Unlocking).(delivered := s.delivered + [Delivery(t, false)]))
    case Unlocking => Some(At(s, c, Idle).(holder := Nobody))
  }

  function SetNext(s: State): (r: Option<State>)
  {
    match s.setter
    case NotCalled => if s.holder == Nobody then Some(s.(setter := SetLocked, holder := Setter)) else None
    case SetLocked => Some(s.(setter := Flushing(0), installed := true))
    case Flushing(next) =>
      if next < |s.pending| then
        Some(s.(setter := Flushing(next + 1), delivered := s.delivered + [Delivery(s.pending[next], true)]))
      else
        Some(s.(setter := Cleared, pending := []))
    case Cleared => Some(s.(setter := Done, holder := Nobody))
    case Done => None
  }

  function Do(s: State, a: Action): (r: Option<State>)
  {
    match a
    case Begin(c) =>
      if c < |s.loggers| && s.loggers[c] == Idle then Some(At(s, c, Loading(s.issued)).(issued := s.issued + 1))
      else None
    case LogStep(c) => if c < |s.loggers| then LogNext(s, c) else None
    case SetStep => SetNext(s)
  }

  function Exec(s: State, schedule: seq<Action>): (r: Option<State>)
    decreases |schedule|
  {
    if schedule == [] then Some(s)
    else
      var next := Do(s, schedule[0]);
      if next.None? then None else Exec(next.value, schedule[1..])
  }

  ghost predicate Reachable(s: State) {
    exists n: nat, schedule :: Exec(Init(n), schedule) == Some(s)
  }

  // ---------------------------------------------------------------- the invariant

  /** The Log call has message t and has neither delivered nor queued it yet. */
  predicate Carries(pc: LogPc, t: Ticket) {
    !pc.Idle? && !pc.Unlocking? && pc.t == t
  }

  /** How many Log calls hold message t. */
  function Carriers(loggers: seq<LogPc>, t: Ticket): (r: nat) {
    if loggers == [] then 0 else (if Carries(loggers[0], t) then 1 else 0) + Carriers(loggers[1..], t)
  }

  function Occurrences(tickets: seq<Ticket>, t: Ticket): (r: nat) {
    if tickets == [] then 0 else (if tickets[0] == t then 1 else 0) + Occurrences(tickets[1..], t)
  }

  function Tickets(deliveries: seq<Delivery>): (r: seq<Ticket>) {
    seq(|deliveries|, i requires 0 <= i < |deliveries| => deliveries[i].t)
  }

  /** How often message t is delivered, waits in the pending list, or is held by a Log call. */
  function Places(s: State, t: Ticket): (r: nat) {
    Occurrences(Tickets(s.delivered), t) + Occurrences(Waiting(s), t) + Carriers(s.loggers, t)
  }

  predicate HoldsLock(pc: LogPc) {
    pc.Locked? || pc.LockedDelivering? || pc.Unlocking?
  }

  /** Queued messages that have not been delivered. */
  function Waiting(s: State): (r: seq<Ticket>)
  {
    if s.setter.Flushing? && s.setter.next <= |s.pending| then s.pending[s.setter.next..] else s.pending
  }

  ghost predicate LockInv(s: State) {
    && (s.holder == Setter <==> s.setter.SetLocked? || s.setter.Flushing? || s.setter.Cleared?)
    && (forall c :: 0 <= c < |s.loggers| ==> (s.holder == Logger(c) <==> HoldsLock(s.loggers[c])))
    && (s.holder.Logger? ==> s.holder.id < |s.loggers|)
    && (s.installed <==> s.setter.Flushing? || s.setter.Cleared? || s.setter.Done?)
    && (s.setter.Flushing? ==> s.setter.next <= |s.pending|)
    && (s.setter.Cleared? || s.setter.Done? ==> s.pending == [])
    && (forall c :: 0 <= c < |s.loggers| && (s.loggers[c].Delivering? || s.loggers[c].LockedDelivering?) ==>
          s.installed)
  }

  /** Every issued message is in one place, once; no other message is anywhere. */
  ghost predicate OnceInv(s: State) {
    forall t: Ticket :: Places(s, t) == if t < s.issued then 1 else 0
  }

  /** The tickets delivered by Set, in order of delivery. */
  function Flushed(deliveries: seq<Delivery>): (r: seq<Ticket>)
  {
    if deliveries == [] then []
    else
      var last := deliveries[|deliveries| - 1];
      Flushed(deliveries[..|deliveries| - 1]) + (if last.flushed then [last.t] else [])
  }

  ghost predicate OrderInv(s: State) {
    Flushed(s.delivered) + Waiting(s) == s.queued
  }

  ghost predicate Inv(s: State) {
    LockInv(s) && OnceInv(s) && OrderInv(s)
  }

  lemma FlushedSnoc(deliveries: seq<Delivery>, d: Delivery)
    ensures Flushed(deliveries + [d]) == Flushed(deliveries) + (if d.flushed then [d.t] else [])
  {
    assert (deliveries + [d])[..|deliveries|] == deliveries;
  }

  lemma {:induction false} OccurrencesSnoc(tickets: seq<Ticket>, x: Ticket, t: Ticket)
    ensures Occurrences(tickets + [x], t) == Occurrences(tickets, t) + if x == t then 1 else 0
  {
    if tickets == [] {
      assert [x][1..] == [];
    } else {
      assert (tickets + [x])[1..] == tickets[1..] + [x];
      OccurrencesSnoc(tickets[1..], x, t);
    }
  }

  lemma DeliveredSnoc(deliveries: seq<Delivery>, d: Delivery, t: Ticket)
    ensures Occurrences(Tickets(deliveries + [d]), t) == Occurrences(Tickets(deliveries), t) + if d.t == t then 1 else 0
  {
    assert Tickets(deliveries + [d]) == Tickets(deliveries) + [d.t];
    OccurrencesSnoc(Tickets(deliveries), d.t, t);
  }

  lemma {:induction false} CarriersUpdate(loggers: seq<LogPc>, c: nat, pc: LogPc, t: Ticket)
    requires c < |loggers|
    ensures Carriers(loggers[c := pc], t) ==
            Carriers(loggers, t) - (if Carries(loggers[c], t) then 1 else 0) + (if Carries(pc, t) then 1 else 0)
  {
    var after := loggers[c := pc];
    if c > 0 {
      assert after[1..] == loggers[1..][c - 1 := pc];
      CarriersUpdate(loggers[1..], c - 1, pc, t);
    } else {
      assert after[1..] == loggers[1..];
    }
  }

  lemma {:induction false} NobodyCarries(loggers: seq<LogPc>, t: Ticket)
    requires forall c :: 0 <= c < |loggers| ==> loggers[c] == Idle
    ensures Carriers(loggers, t) == 0
  {
    if loggers != [] {
      NobodyCarries(loggers[1..], t);
    }
  }

  lemma InitInv(n: nat)
    ensures Inv(Init(n))
  {
    forall t: Ticket ensures Places(Init(n), t) == 0 {
      NobodyCarries(Init(n).loggers, t);
    }
  }

  // ---------------------------------------------------------------- preservation

  lemma BeginKeepsInv(s: State, c: nat)
    requires Inv(s) && Do(s, Begin(c)).Some?
    ensures Inv(Do(s, Begin(c)).value)
  {
    var s' := Do(s, Begin(c)).value;
    assert Waiting(s') == Waiting(s);
    forall t: Ticket ensures Places(s', t) == if t < s'.issued then 1 else 0 {
      assert Places(s, t) == if t < s.issued then 1 else 0;
      CarriersUpdate(s.loggers, c, Loading(s.issued), t);
    }
  }

  /** A step of a Log call that carries the same message on, or none. */
  lemma CarryingFrame(s: State, c: nat, s': State)
    requires LockInv(s) && c < |s.loggers| && LogNext(s, c) == Some(s')
    requires s'.delivered == s.delivered && s'.queued == s.queued
    ensures s'.loggers == s.loggers[c := s'.loggers[c]] && s'.issued == s.issued && Waiting(s') == Waiting(s)
    ensures forall t: Ticket :: Carries(s'.loggers[c], t) <==> Carries(s.loggers[c], t)
  {
  }

  lemma CarryingKeepsOnce(s: State, c: nat, s': State)
    requires Inv(s) && c < |s.loggers| && LogNext(s, c) == Some(s')
    requires s'.delivered == s.delivered && s'.queued == s.queued
    ensures OnceInv(s') && OrderInv(s')
  {
    CarryingFrame(s, c, s');
    forall t: Ticket ensures Places(s', t) == if t < s'.issued then 1 else 0 {
      assert Places(s, t) == if t < s.issued then 1 else 0;
      CarriersUpdate(s.loggers, c, s'.loggers[c], t);
    }
  }

  lemma CarryingKeepsInv(s: State, c: nat, s': State)
    requires Inv(s) && c < |s.loggers| && LogNext(s, c) == Some(s')
    requires s'.delivered == s.delivered && s'.queued == s.queued
    ensures Inv(s')
  {
    CarryingKeepsOnce(s, c, s');
    CarryingKeepsLock(s, c, s');
  }

  lemma CarryingKeepsLock(s: State, c: nat, s': State)
    requires LockInv(s) && c < |s.loggers| && LogNext(s, c) == Some(s')
    requires s'.delivered == s.delivered && s'.queued == s.queued
    ensures LockInv(s')
  {
  }

  lemma DeliveryKeepsLock(s: State, c: nat, s': State)
    requires LockInv(s) && c < |s.loggers| && LogNext(s, c) == Some(s')
    requires s.loggers[c].Delivering? || s.loggers[c].LockedDelivering?
    ensures LockInv(s') && s'.issued == s.issued && s'.queued == s.queued && Waiting(s') == Waiting(s)
    ensures s'.delivered == s.delivered + [Delivery(s.loggers[c].t, false)]
    ensures s'.loggers == s.loggers[c := s'.loggers[c]] && (s'.loggers[c].Idle? || s'.loggers[c].Unlocking?)
  {
  }

  lemma DeliveryKeepsPlaces(s: State, c: nat, s': State, t: Ticket)
    requires LockInv(s) && c < |s.loggers| && LogNext(s, c) == Some(s')
    requires s.loggers[c].Delivering? || s.loggers[c].LockedDelivering?
    ensures Places(s', t) == Places(s, t)
  {
    DeliveryKeepsLock(s, c, s');
    CarriersUpdate(s.loggers, c, s'.loggers[c], t);
    DeliveredSnoc(s.delivered, Delivery(s.loggers[c].t, false), t);
  }

  /** A Log call hands its message to the logger. */
  lemma DeliveryKeepsInv(s: State, c: nat, s': State)
    requires Inv(s) && c < |s.loggers| && LogNext(s, c) == Some(s')
    requires s.loggers[c].Delivering? || s.loggers[c].LockedDelivering?
    ensures Inv(s')
  {
    DeliveryKeepsLock(s, c, s');
    forall t: Ticket ensures Places(s', t) == if t < s'.issued then 1 else 0 {
      DeliveryKeepsPlaces(s, c, s', t);
    }
    FlushedSnoc(s.delivered, Delivery(s.loggers[c].t, false));
    assert Flushed(s.delivered) + [] == Flushed(s.delivered);
  }

  lemma PushKeepsLock(s: State, c: nat, s': State)
    requires LockInv(s) && c < |s.loggers| && LogNext(s, c) == Some(s')
    requires s.loggers[c].Locked? && !s.installed
    ensures LockInv(s') && s'.issued == s.issued && s'.delivered == s.delivered
    ensures Waiting(s') == Waiting(s) + [s.loggers[c].t] && s'.queued == s.queued + [s.loggers[c].t]
    ensures s'.loggers == s.loggers[c := Unlocking]
  {
  }

  lemma PushKeepsPlaces(s: State, c: nat, s': State, t: Ticket)
    requires LockInv(s) && c < |s.loggers| && LogNext(s, c) == Some(s')
    requires s.loggers[c].Locked? && !s.installed
    ensures Places(s', t) == Places(s, t)
  {
    PushKeepsLock(s, c, s');
    CarriersUpdate(s.loggers, c, Unlocking, t);
    OccurrencesSnoc(Waiting(s), s.loggers[c].t, t);
  }

  /** A Log call queues its message. */
  lemma PushKeepsInv(s: State, c: nat, s': State)
    requires Inv(s) && c < |s.loggers| && LogNext(s, c) == Some(s')
    requires s.loggers[c].Locked? && !s.installed
    ensures Inv(s')
  {
    PushKeepsLock(s, c, s');
    forall t: Ticket ensures Places(s', t) == if t < s'.issued then 1 else 0 {
      PushKeepsPlaces(s, c, s', t);
    }
    assert Flushed(s'.delivered) + Waiting(s') == Flushed(s.delivered) + Waiting(s) + [s.loggers[c].t];
  }

  lemma LogStepKeepsInv(s: State, c: nat)
    requires Inv(s) && c < |s.loggers| && LogNext(s, c).Some?
    ensures Inv(LogNext(s, c).value)
  {
    var s' := LogNext(s, c).value;
    match s.loggers[c] {
      case Delivering(_) => DeliveryKeepsInv(s, c, s');
      case LockedDelivering(_) => DeliveryKeepsInv(s, c, s');
      case Locked(_) =>
        if s.installed {
          CarryingKeepsInv(s, c, s');
        } else {
          PushKeepsInv(s, c, s');
        }
      case _ => CarryingKeepsInv(s, c, s');
    }
  }

  lemma HeadOfRest(pending: seq<Ticket>, next: nat)
    requires next < |pending|
    ensures pending[next..] == [pending[next]] + pending[next + 1..]
  {
  }

  lemma HeadToEnd(flushed: seq<Ticket>, x: Ticket, waiting: seq<Ticket>)
    ensures (flushed + [x]) + waiting == flushed + ([x] + waiting)
  {
  }

  /** Set delivers the next pending message. */
  lemma FlushKeepsOrder(s: State, s': State, x: Ticket)
    requires OrderInv(s) && s.setter.Flushing? && s.setter.next < |s.pending| && SetNext(s) == Some(s')
    requires x == s.pending[s.setter.next]
    ensures Waiting(s) == [x] + Waiting(s')
    ensures OrderInv(s')
  {
    HeadOfRest(s.pending, s.setter.next);
    FlushedSnoc(s.delivered, Delivery(x, true));
    HeadToEnd(Flushed(s.delivered), x, Waiting(s'));
  }

  lemma FlushKeepsPlaces(s: State, s': State, x: Ticket, t: Ticket)
    requires Waiting(s) == [x] + Waiting(s')
    requires s'.loggers == s.loggers && s'.delivered == s.delivered + [Delivery(x, true)]
    ensures Places(s', t) == Places(s, t)
  {
    assert Waiting(s)[0] == x && Waiting(s)[1..] == Waiting(s');
    assert Occurrences(Waiting(s), t) == (if x == t then 1 else 0) + Occurrences(Waiting(s'), t);
    DeliveredSnoc(s.delivered, Delivery(x, true), t);
  }

  lemma FlushKeepsInv(s: State)
    requires Inv(s) && s.setter.Flushing? && s.setter.next < |s.pending|
    ensures Inv(SetNext(s).value)
  {
    var s' := SetNext(s).value;
    var x := s.pending[s.setter.next];
    FlushKeepsOrder(s, s', x);
    forall t: Ticket ensures Places(s', t) == if t < s'.issued then 1 else 0 {
      FlushKeepsPlaces(s, s', x, t);
    }
  }

  lemma SetStepKeepsInv(s: State)
    requires Inv(s) && SetNext(s).Some?
    ensures Inv(SetNext(s).value)
  {
    if s.setter.Flushing? && s.setter.next < |s.pending| {
      FlushKeepsInv(s);
    } else {
      var s' := SetNext(s).value;
      assert Waiting(s') == Waiting(s);
      forall t: Ticket ensures Places(s', t) == if t < s'.issued then 1 else 0 {
        assert Places(s, t) == if t < s.issued then 1 else 0;
        assert Places(s', t) == Places(s, t);
      }
    }
  }

  lemma StepKeepsInv(s: State, a: Action)
    requires Inv(s) && Do(s, a).Some?
    ensures Inv(Do(s, a).value)
  {
    match a {
      case Begin(c) => BeginKeepsInv(s, c);
      case LogStep(c) => LogStepKeepsInv(s, c);
      case SetStep => SetStepKeepsInv(s);
    }
  }

  lemma {:induction false} ExecKeepsInv(s: State, schedule: seq<Action>)
    requires Inv(s) && Exec(s, schedule).Some?
    ensures Inv(Exec(s, schedule).value)
    decreases |schedule|
  {
    if schedule != [] {
      StepKeepsInv(s, schedule[0]);
      ExecKeepsInv(Do(s, schedule[0]).value, schedule[1..]);
    }
  }

  lemma ReachableInv(s: State)
    requires Reachable(s)
    ensures Inv(s)
  {
    var n: nat, schedule :| Exec(Init(n), schedule) == Some(s);
    InitInv(n);
    ExecKeepsInv(Init(n), schedule);
  }

  // ---------------------------------------------------------------- what every run keeps

  /** A message has been delivered, or waits in m_vPending, or is held by its Log call: one of these, once. */
  lemma AlwaysInOnePlace(s: State, t: Ticket)
    requires Reachable(s)
    ensures Occurrences(Tickets(s.delivered), t) + Occurrences(Waiting(s), t) + Carriers(s.loggers, t)
            == if t < s.issued then 1 else 0
  {
    ReachableInv(s);
    assert Places(s, t) == if t < s.issued then 1 else 0;
  }

  /** Once Set has returned and every Log call has ended, the logger has received every message exactly once. */
  lemma ExactlyOnce(s: State, t: Ticket)
    requires Reachable(s)
    requires s.setter.Done? && forall c :: 0 <= c < |s.loggers| ==> s.loggers[c] == Idle
    ensures Occurrences(Tickets(s.delivered), t) == if t < s.issued then 1 else 0
  {
    ReachableInv(s);
    AlwaysInOnePlace(s, t);
    NobodyCarries(s.loggers, t);
  }

  /** Set delivers the queued messages in the order they were queued. */
  lemma FlushedInQueueOrder(s: State)
    requires Reachable(s)
    ensures Flushed(s.delivered) <= s.queued
    ensures s.setter.Done? ==> Flushed(s.delivered) == s.queued
  {
    ReachableInv(s);
  }

  /** Nothing is queued once Set has emptied the list. */
  lemma PendingStaysEmpty(s: State)
    requires Reachable(s) && (s.setter.Cleared? || s.setter.Done?)
    ensures s.pending == [] && s.installed
    ensures forall c: nat :: c < |s.loggers| && s.loggers[c].Locked? ==>
              LogNext(s, c) == Some(At(s, c, LockedDelivering(s.loggers[c].t)))
  {
    ReachableInv(s);
  }

  /** When no thread can move, Set has returned and every Log call has ended. */
  lemma NoDeadlock(s: State)
    requires Reachable(s)
    requires SetNext(s).None? && forall c: nat :: c < |s.loggers| ==> LogNext(s, c).None?
    ensures s.setter.Done? && forall c: nat :: c < |s.loggers| ==> s.loggers[c] == Idle
  {
    ReachableInv(s);
    assert s.holder.Logger? ==> HoldsLock(s.loggers[s.holder.id]) && LogNext(s, s.holder.id).Some?;
    forall c: nat | c < |s.loggers|
      ensures s.loggers[c] == Idle
    {
      assert LogNext(s, c).None?;
    }
  }
}
